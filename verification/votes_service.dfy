/** The vote ledger and the casting of a vote. A vote records only the election and
    the chosen candidate; the link to the user lives in the voter ledger's lock.
    Casting runs its steps in order and stops at the first failure: duplicate
    check, voter lock, vote insert. Nothing written earlier is undone. */
module Votes {
  import opened Rpc
  import opened Voters

  datatype VoteRecord = VoteRecord(id: Id, electionId: string, candidateId: string)

  /** The payload of a `votes_create` request. */
  datatype CreateVotesDto = CreateVotesDto(electionId: string, candidateId: string, userId: string)

  /** Whether each database call of `CreateVotes` fails: the duplicate check, the two
      calls made by the voter registration, and the vote insert. */
  datatype VoteFaults = VoteFaults(verifyFails: bool, voter: VoterFaults, insertFails: bool)

  const VoteCreationFailed := ErrorPayload(
    InternalServerError,
    "Failed to create vote. Please verify election and candidate exist and try again.",
    "Vote Creation Failed")
  const VotesRetrievalFailed :=
    ErrorPayload(InternalServerError, "Failed to retrieve votes. Please try again later.", "Database Error")
  const VoteRetrievalFailed :=
    ErrorPayload(InternalServerError, "Failed to retrieve vote. Please verify the ID and try again.", "Database Error")

  function VoteNotFound(id: Id): ErrorPayload {
    ErrorPayload(NotFound, "Vote not found with id " + DecimalString(id), "Vote Not Found")
  }

  /** The 404 message names the id it was asked for: different ids, different triples. */
  lemma VoteNotFoundNamesTheId(a: Id, b: Id)
    requires VoteNotFound(a) == VoteNotFound(b)
    ensures a == b
  {
    var prefix := "Vote not found with id ";
    assert DecimalString(a) == VoteNotFound(a).message[|prefix|..];
    assert DecimalString(b) == VoteNotFound(b).message[|prefix|..];
    DecimalStringInjective(a, b);
  }

  predicate HasVote(votes: seq<VoteRecord>, id: Id) {
    exists v :: v in votes && v.id == id
  }

  /** Every id is below the counter and ids grow with insertion order. */
  predicate VoteIdsIncreasingBelow(votes: seq<VoteRecord>, nextId: Id) {
    (forall i :: 0 <= i < |votes| ==> votes[i].id < nextId) &&
    (forall i, j :: 0 <= i < j < |votes| ==> votes[i].id < votes[j].id)
  }

  /** The record with the given id, searched in table order. */
  function FindVote(votes: seq<VoteRecord>, id: Id): (r: Option<VoteRecord>)
    ensures r.Some? <==> HasVote(votes, id)
    ensures r.Some? ==> r.value in votes && r.value.id == id
    decreases |votes|
  {
    if |votes| == 0 then None
    else if votes[0].id == id then Some(votes[0])
    else FindVote(votes[1..], id)
  }

  /** Increasing ids make the id a key: two stored votes with one id are one vote. */
  lemma VoteIdIsKey(votes: seq<VoteRecord>, nextId: Id, v: VoteRecord, w: VoteRecord)
    requires VoteIdsIncreasingBelow(votes, nextId)
    requires v in votes && w in votes && v.id == w.id
    ensures v == w
  {
  }

  class VotesService {
    var votes: seq<VoteRecord>
    var nextId: Id
    const votersService: VotersService

    ghost predicate Valid()
      reads this, votersService
    {
      votersService.Valid() && VoteIdsIncreasingBelow(votes, nextId)
    }

    constructor (voters: VotersService)
      requires voters.Valid()
      ensures Valid()
      ensures votersService == voters && votes == [] && nextId == 0
    {
      votersService := voters;
      votes := [];
      nextId := 0;
    }

    /** Casts the user's vote: refuses a user who already holds a lock for the
        election, registers the lock, then stores the ballot. */
    method CreateVotes(dto: CreateVotesDto, faults: VoteFaults) returns (r: RpcResult<VoteRecord>)
      requires Valid()
      modifies this, votersService
      ensures Valid()
      // the duplicate check failed: its error passes through, nothing written
      ensures faults.verifyFails ==>
        r == RpcError(VerificationFailed) &&
        votersService.voters == old(votersService.voters) && votersService.nextId == old(votersService.nextId) &&
        votes == old(votes) && nextId == old(nextId)
      // the user already voted in this election: 409, neither table changes
      ensures !faults.verifyFails && HasLock(old(votersService.voters), dto.electionId, dto.userId) ==>
        r == RpcError(AlreadyCast(dto.electionId, dto.userId)) &&
        votersService.voters == old(votersService.voters) && votersService.nextId == old(votersService.nextId) &&
        votes == old(votes) && nextId == old(nextId)
      // the voter registration failed: its error passes through, nothing written
      ensures !faults.verifyFails && !HasLock(old(votersService.voters), dto.electionId, dto.userId) &&
              (faults.voter.lookupFails || faults.voter.insertFails) ==>
        r == RpcError(if faults.voter.lookupFails then VerificationFailed else RegistrationFailed) &&
        votersService.voters == old(votersService.voters) && votersService.nextId == old(votersService.nextId) &&
        votes == old(votes) && nextId == old(nextId)
      // the lock is written first; from here on it stays
      ensures !faults.verifyFails && !HasLock(old(votersService.voters), dto.electionId, dto.userId) &&
              !faults.voter.lookupFails && !faults.voter.insertFails ==>
        votersService.voters == old(votersService.voters) + [VoterRecord(old(votersService.nextId), dto.electionId, dto.userId, true)] &&
        votersService.nextId == old(votersService.nextId) + 1
      // the vote insert failed: 500, no vote, and the lock is not rolled back
      ensures !faults.verifyFails && !HasLock(old(votersService.voters), dto.electionId, dto.userId) &&
              !faults.voter.lookupFails && !faults.voter.insertFails && faults.insertFails ==>
        r == RpcError(VoteCreationFailed) && votes == old(votes) && nextId == old(nextId)
      // success: one vote holding the election and candidate only, appended
      ensures !faults.verifyFails && !HasLock(old(votersService.voters), dto.electionId, dto.userId) &&
              !faults.voter.lookupFails && !faults.voter.insertFails && !faults.insertFails ==>
        r == Ok(VoteRecord(old(nextId), dto.electionId, dto.candidateId)) &&
        votes == old(votes) + [r.value] && nextId == old(nextId) + 1
      // whenever a vote is returned, or the failure came after the lock, the pair is locked
      ensures r.Ok? || r == RpcError(VoteCreationFailed) ==> HasLock(votersService.voters, dto.electionId, dto.userId)
    {
      var existing := votersService.VerifyVoter(dto.electionId, dto.userId, faults.verifyFails);
      if existing.RpcError? {
        return RpcError(existing.payload);
      }
      if existing.value.Some? {
        return RpcError(AlreadyCast(dto.electionId, dto.userId));
      }
      var voter := votersService.CreateVoter(dto.electionId, dto.userId, faults.voter);
      if voter.RpcError? {
        return RpcError(voter.payload);
      }
      if faults.insertFails {
        return RpcError(VoteCreationFailed);
      }
      var newVote := VoteRecord(nextId, dto.electionId, dto.candidateId);
      votes := votes + [newVote];
      nextId := nextId + 1;
      return Ok(newVote);
    }

    /** Every stored vote, in table order, or the 500 triple when the read fails. */
    function FindAll(readFails: bool): (r: RpcResult<seq<VoteRecord>>)
      reads this
      ensures readFails <==> r.RpcError?
      ensures r.RpcError? ==> r.payload == VotesRetrievalFailed
      ensures r.Ok? ==> r.value == votes
    {
      if readFails then RpcError(VotesRetrievalFailed) else Ok(votes)
    }

    /** The vote with the given id, 404 when there is none, 500 when the read fails. */
    function FindOne(id: Id, readFails: bool): (r: RpcResult<VoteRecord>)
      reads this
      ensures readFails ==> r == RpcError(VoteRetrievalFailed)
      ensures !readFails ==> (r.Ok? <==> HasVote(votes, id))
      ensures !readFails && r.RpcError? ==> r.payload == VoteNotFound(id)
      ensures r.Ok? ==> r.value in votes && r.value.id == id
    {
      if readFails then RpcError(VoteRetrievalFailed)
      else
        match FindVote(votes, id)
        case None => RpcError(VoteNotFound(id))
        case Some(vote) => Ok(vote)
    }
  }

  /** Two casts in a row for the same election and user: once the first returned a
      vote, or failed only at the vote insert after the lock was written, the second
      is refused with 409 whatever its candidate, and adds no vote. */
  method RecastIsRejected(service: VotesService, dto: CreateVotesDto, otherCandidate: string, first: VoteFaults, second: VoteFaults)
    returns (r1: RpcResult<VoteRecord>, r2: RpcResult<VoteRecord>)
    requires service.Valid()
    requires !second.verifyFails
    modifies service, service.votersService
    ensures service.Valid()
    ensures r1.Ok? || r1 == RpcError(VoteCreationFailed) ==>
      r2 == RpcError(AlreadyCast(dto.electionId, dto.userId))
    ensures r1.Ok? ==> service.votes == old(service.votes) + [r1.value]
    ensures r1 == RpcError(VoteCreationFailed) ==> service.votes == old(service.votes)
  {
    r1 := service.CreateVotes(dto, first);
    r2 := service.CreateVotes(CreateVotesDto(dto.electionId, otherCandidate, dto.userId), second);
  }
}
