/** The voter ledger: one record per (election, user) pair that has voted, the
    lock that stops a user from voting twice in the same election. The database
    table becomes a sequence of records in insertion order plus a fresh-id counter. */
module Voters {
  import opened Rpc

  type Id = nat

  datatype VoterRecord = VoterRecord(id: Id, electionId: string, userId: string, hasVoted: bool)

  /** Whether each database call of `CreateVoter` fails: the duplicate lookup and the insert. */
  datatype VoterFaults = VoterFaults(lookupFails: bool, insertFails: bool)

  function AlreadyCast(electionId: string, userId: string): ErrorPayload {
    ErrorPayload(Conflict, "User " + userId + " has already voted in election " + electionId, "Vote Already Cast")
  }

  const VerificationFailed :=
    ErrorPayload(InternalServerError, "Failed to verify voter status. Please try again.", "Voter Verification Failed")
  const RegistrationFailed :=
    ErrorPayload(InternalServerError, "Failed to register voter. Please verify election exists and try again.", "Voter Registration Failed")

  /** The filter of the lookup: matching election, matching user, `has_voted = true`. */
  predicate IsLockFor(r: VoterRecord, electionId: string, userId: string) {
    r.electionId == electionId && r.userId == userId && r.hasVoted
  }

  predicate HasLock(voters: seq<VoterRecord>, electionId: string, userId: string) {
    exists r :: r in voters && IsLockFor(r, electionId, userId)
  }

  /** No (election, user) pair has two records with `has_voted = true`. */
  predicate AtMostOneLock(voters: seq<VoterRecord>) {
    forall i, j ::
      (0 <= i < |voters| && 0 <= j < |voters| && voters[i].hasVoted && voters[j].hasVoted &&
       voters[i].electionId == voters[j].electionId && voters[i].userId == voters[j].userId) ==> i == j
  }

  /** Appending a lock for a pair that has none keeps the pairs' locks unique. */
  lemma AppendKeepsAtMostOneLock(voters: seq<VoterRecord>, rec: VoterRecord)
    requires AtMostOneLock(voters)
    requires !HasLock(voters, rec.electionId, rec.userId)
    ensures AtMostOneLock(voters + [rec])
  {
    assert forall k :: 0 <= k < |voters| ==> voters[k] in voters;
  }

  /** Every id is below the counter and ids grow with insertion order, so ids are unique. */
  predicate IdsIncreasingBelow(voters: seq<VoterRecord>, nextId: Id) {
    (forall i :: 0 <= i < |voters| ==> voters[i].id < nextId) &&
    (forall i, j :: 0 <= i < j < |voters| ==> voters[i].id < voters[j].id)
  }

  /** The first record, in table order, that the lookup matches. */
  function FindLock(voters: seq<VoterRecord>, electionId: string, userId: string): (r: Option<VoterRecord>)
    ensures r.Some? <==> HasLock(voters, electionId, userId)
    ensures r.Some? ==> r.value in voters && IsLockFor(r.value, electionId, userId)
    decreases |voters|
  {
    if |voters| == 0 then None
    else if IsLockFor(voters[0], electionId, userId) then Some(voters[0])
    else FindLock(voters[1..], electionId, userId)
  }

  /** Appending a record leaves the lookup's answer alone where the table already
      had a lock, and otherwise finds the new record exactly when it matches. */
  lemma {:induction false} FindLockAppend(voters: seq<VoterRecord>, rec: VoterRecord, electionId: string, userId: string)
    ensures FindLock(voters + [rec], electionId, userId) ==
      if HasLock(voters, electionId, userId) then FindLock(voters, electionId, userId)
      else if IsLockFor(rec, electionId, userId) then Some(rec)
      else None
  {
    if |voters| == 0 {
      assert voters + [rec] == [rec];
    } else {
      assert (voters + [rec])[1..] == voters[1..] + [rec];
      if !IsLockFor(voters[0], electionId, userId) {
        FindLockAppend(voters[1..], rec, electionId, userId);
      }
    }
  }

  class VotersService {
    var voters: seq<VoterRecord>
    var nextId: Id

    ghost predicate Valid()
      reads this
    {
      IdsIncreasingBelow(voters, nextId) && AtMostOneLock(voters)
    }

    constructor ()
      ensures Valid()
      ensures voters == [] && nextId == 0
    {
      voters := [];
      nextId := 0;
    }

    /** The voter's lock for this election, `None` when the user has not voted in it,
        or the 500 triple when the lookup itself fails. */
    function VerifyVoter(electionId: string, userId: string, lookupFails: bool): (r: RpcResult<Option<VoterRecord>>)
      reads this
      ensures lookupFails <==> r.RpcError?
      ensures r.RpcError? ==> r.payload == VerificationFailed
      ensures r.Ok? ==> (r.value.Some? <==> HasLock(voters, electionId, userId))
      ensures r.Ok? && r.value.Some? ==> r.value.value in voters && IsLockFor(r.value.value, electionId, userId)
    {
      if lookupFails then RpcError(VerificationFailed) else Ok(FindLock(voters, electionId, userId))
    }

    /** Registers that the user has voted in the election, unless the lookup finds a
        lock already. Nothing is written on any failure. */
    method CreateVoter(electionId: string, userId: string, faults: VoterFaults) returns (r: RpcResult<VoterRecord>)
      requires Valid()
      modifies this
      ensures Valid()
      // the lookup failed: its error passes through unchanged
      ensures faults.lookupFails ==>
        r == RpcError(VerificationFailed) && voters == old(voters) && nextId == old(nextId)
      // a lock exists already: 409, nothing inserted
      ensures !faults.lookupFails && HasLock(old(voters), electionId, userId) ==>
        r == RpcError(AlreadyCast(electionId, userId)) && voters == old(voters) && nextId == old(nextId)
      // the insert failed: 500, nothing inserted
      ensures !faults.lookupFails && !HasLock(old(voters), electionId, userId) && faults.insertFails ==>
        r == RpcError(RegistrationFailed) && voters == old(voters) && nextId == old(nextId)
      // success: exactly one new record, with the given ids and has_voted = true
      ensures !faults.lookupFails && !HasLock(old(voters), electionId, userId) && !faults.insertFails ==>
        r == Ok(VoterRecord(old(nextId), electionId, userId, true)) &&
        voters == old(voters) + [r.value] && nextId == old(nextId) + 1
      // after success the lookup for the pair answers with the new record ...
      ensures r.Ok? ==> VerifyVoter(electionId, userId, false) == Ok(Some(r.value))
      // ... and answers for every other pair as before
      ensures forall e, u :: (e, u) != (electionId, userId) ==>
        FindLock(voters, e, u) == FindLock(old(voters), e, u)
    {
      var existing := VerifyVoter(electionId, userId, faults.lookupFails);
      if existing.RpcError? {
        return RpcError(existing.payload);
      }
      if existing.value.Some? {
        return RpcError(AlreadyCast(electionId, userId));
      }
      if faults.insertFails {
        return RpcError(RegistrationFailed);
      }
      var newVoter := VoterRecord(nextId, electionId, userId, true);
      forall e, u
        ensures FindLock(voters + [newVoter], e, u) ==
          if HasLock(voters, e, u) then FindLock(voters, e, u)
          else if IsLockFor(newVoter, e, u) then Some(newVoter)
          else None
      {
        FindLockAppend(voters, newVoter, e, u);
      }
      AppendKeepsAtMostOneLock(voters, newVoter);
      voters := voters + [newVoter];
      nextId := nextId + 1;
      return Ok(newVoter);
    }
  }

  /** Under the at-most-one invariant, two locks for the same pair are the same record,
      so the lock the lookup finds is the only one. */
  lemma LockIsUnique(voters: seq<VoterRecord>, electionId: string, userId: string, v: VoterRecord, w: VoterRecord)
    requires AtMostOneLock(voters)
    requires v in voters && IsLockFor(v, electionId, userId)
    requires w in voters && IsLockFor(w, electionId, userId)
    ensures v == w
  {
  }
}
