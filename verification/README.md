# Voting service ledger and exception filter, in Dafny

This project models the core of the voting microservice: it casts votes and
keeps the "has voted" lock for each election and user. It has three parts.

- **Voter ledger** (`Voters`, class `VotersService`). The voters table is a
  sequence of `VoterRecord`s plus a fresh-id counter.
  - `VerifyVoter` looks up a record with the given election, the given user and
    `has_voted = true`.
  - `CreateVoter` repeats that lookup. It fails with 409 "Vote Already Cast" if a
    record is found, and otherwise appends one record with `has_voted = true`.
  - The class invariant `Valid()` says that no (election, user) pair ever has more
    than one such record, and that ids are unique.
- **Vote ledger and vote casting** (`Votes`, class `VotesService`). The votes
  table is a sequence of `VoteRecord`s plus a counter. A `VoteRecord` has no user
  field.
  - `CreateVotes` runs the duplicate check, the lock insert through
    `CreateVoter`, and then the vote insert. It stops at the first failure. An
    RpcException from an earlier step is passed on unchanged. A failed vote insert
    becomes 500 "Vote Creation Failed", and the lock already written stays.
  - `FindAll` returns the table. `FindOne` looks a vote up by id and fails with
    404 "Vote Not Found" when there is no such vote.
- **Exception filter** (`ExceptionFilter`). `Catch` maps the shape of any thrown
  object to the `{status, message, error}` triple. It tries four
  branches in a fixed order: RpcException, database error code, HTTP/validation
  exception, generic. `HandlePrismaError` is the table of codes.

The database is an explicit input in this model. Each database call of an
operation gets a "this call fails" flag (`VoterFaults`, `VoteFaults`, and the
`lookupFails` / `readFails` parameters). This makes every 500 path reachable,
including the one that shows there is no rollback. Errors leave the services as
`RpcError(payload)`, which stands for an RpcException carrying that payload.

The code performs no user, election or candidate existence checks before a vote
is written, so the model has none either. The error message of a failed vote
insert does mention verifying the election and candidate, but no step does so.

## Model

| member | source | states |
|---|---|---|
| `Voters.FindLock` | src/voters/voters.service.ts:63-77 | The lookup finds a record exactly when the table holds a record for the election and user with `has_voted = true`. What it returns is such a record, taken from the table. |
| `Voters.FindLockAppend` | src/voters/voters.service.ts:34-40 | After a record is appended, the lookup for a pair that already had a lock returns the same record as before. For any other pair it returns the new record if that record matches, and nothing otherwise. |
| `Voters.AppendKeepsAtMostOneLock` | src/voters/voters.service.ts:22-40 | Appending a lock for a pair that has none keeps the rule that each pair has at most one `has_voted` record. |
| `Voters.LockIsUnique` | src/voters/voters.service.ts:63-69 | Under that rule, two locks for the same pair are the same record, so the lookup's answer is the only lock for the pair. |
| `Voters.VotersService.constructor` | src/voters/voters.service.ts:6-7 | The ledger starts with an empty table, and the invariant holds. |
| `Voters.VotersService.VerifyVoter` | src/voters/voters.service.ts:59-90 | It fails with 500 "Voter Verification Failed" exactly when the read fails. Otherwise it returns a record for the pair with `has_voted = true` if and only if one exists, and null otherwise. It has no side effect. |
| `Voters.VotersService.CreateVoter` | src/voters/voters.service.ts:15-57 | A failed lookup passes its 500 error through unchanged. If a lock exists it fails with 409 "Vote Already Cast". A failed insert gives 500 "Voter Registration Failed". None of these failures writes anything. On success it appends exactly one record with the given ids and `has_voted = true`, returns it, and keeps the at-most-one invariant. Afterwards `VerifyVoter` returns that record for the pair, and the lookup for every other pair is unchanged. |
| `Votes.FindVote` | src/votes/votes.service.ts:96-98 | The search by id finds a vote exactly when one with that id is stored, and what it returns is stored and has that id. |
| `Votes.VoteIdIsKey` | src/votes/votes.service.ts:96-98 | Ids grow with insertion order, so two stored votes with the same id are the same vote, and a lookup by id is unique. |
| `Votes.VoteNotFoundNamesTheId` | src/votes/votes.service.ts:100-106 | The 404 "Vote Not Found" triple names the id that was asked for: two different ids never give the same triple. |
| `Votes.VotesService.constructor` | src/votes/votes.service.ts:12-14 | The service is bound to the given voter ledger and starts with an empty vote table. |
| `Votes.VotesService.CreateVotes` | src/votes/votes.service.ts:21-70 | A failed duplicate check passes its 500 error through. If the pair already holds a lock, it fails with 409 "Vote Already Cast" and neither table changes. A failure inside the voter registration passes that step's error through unchanged and writes nothing. Otherwise the lock is appended first and stays. If the vote insert then fails, the result is 500 "Vote Creation Failed" and no vote is added. On success exactly one vote holding only the election and candidate is appended and returned. |
| `Votes.VotesService.FindAll` | src/votes/votes.service.ts:72-90 | It returns the whole vote table unchanged, or 500 "Database Error" exactly when the read fails. |
| `Votes.VotesService.FindOne` | src/votes/votes.service.ts:91-123 | If the read fails, the result is 500 "Database Error". Otherwise a vote is returned if and only if one with that id is stored, and the returned vote is stored and has that id. With no such vote, it fails with 404 "Vote Not Found" and a message naming the id. |
| `Votes.RecastIsRejected` | src/votes/votes.service.ts:28-37 | Suppose a first cast returned a vote, or failed only at the vote insert after the lock was written. Then a second cast by the same user in the same election fails with 409 "Vote Already Cast", whatever its candidate, and adds no vote. |
| `ExceptionFilter.HandlePrismaError` | src/common/exceptions/rpc-exception.filter.ts:39-67 | P2002 maps to the whole triple (409, "Vote already registered or duplicate entry detected", "Conflict"). P2025 maps to (404, "Vote or voter information not found", "Not Found"). P2003 maps to (400, "Invalid reference to election or candidate", "Bad Request"). Each status is produced by its code and by no other code. Every other code maps to (500, "Database error occurred", "Internal Server Error"). |
| `ExceptionFilter.Catch` | src/common/exceptions/rpc-exception.filter.ts:9-37 | An RpcException comes back with its payload untouched. A code is handled by the code table. An HTTP exception keeps its status. Its message is the response message when present and the exception's message otherwise. Its error is the response error when present and "Validation Error" otherwise. Anything else gives the generic 500 triple. Every non-RPC exception gets a non-zero status and a non-empty error tag. That status is 400, 404, 409, 500 or the exception's own. |
| `ExceptionFilter.CodeTakesPrecedence` | src/common/exceptions/rpc-exception.filter.ts:13-29 | Once a code is present, the response, status and message play no part in the answer, so the validation branch is never reached. |
| `ExceptionFilter.ValidationFallbacks` | src/common/exceptions/rpc-exception.filter.ts:23-29 | For any response in the validation branch the status is kept, and each field is chosen on its own. A present response message is used, whatever the error, and a missing one falls back to the exception's message. A present response error is used, whatever the message, and a missing one falls back to "Validation Error". |

## Left out

- Logging, the `Date.now()` timing in `findAll`, `$connect`/`onModuleInit`, the message-bus transport, the controllers, the module wiring and process start-up are not modelled. They are I/O or wiring and add no behaviour.
- The request validation decorators (UUID and non-empty checks) come from a library that is not part of this model. Ids are opaque strings, and record ids are naturals from a counter instead of UUID strings. The "Vote not found with id …" message therefore shows the id in decimal.
- The database is replaced by in-memory sequences. A failing database call is a boolean input. The different database errors are not told apart, because every service replaces them with its own triple.
- Neither service specifies an order for `findFirst` or `findMany`. The model uses insertion order. Under the at-most-one invariant, `findFirst` has at most one record to return anyway.
- Two concurrent `createVotes` calls for the same pair can both pass the duplicate check (a check-then-act race). The model is sequential and does not capture this. The at-most-one invariant holds only for sequential runs.
- An RpcException whose payload is a plain string, and validation messages that are arrays of strings, are not modelled. Every RpcException in this service carries a `{status, message, error}` object.
- JavaScript truthiness is encoded directly. An empty string stands for a missing or falsy `code`, `message` or `error`, and `0` stands for a missing `status`. `NaN` and non-string codes are not modelled.
- A thrown `null` or `undefined` is not modelled. For those values the filter's read of `exception.code` (src/common/exceptions/rpc-exception.filter.ts:18) itself raises a TypeError, and no triple comes back. `Catch` covers every thrown object.
