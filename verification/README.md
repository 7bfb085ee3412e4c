# Slot swap service: a Dafny model of its backend core

This project models the backend core of a calendar-slot swapping service.
Users own time slots (rows of the `Event` table). A slot's status is BUSY,
SWAPPABLE or SWAP_PENDING. A user offers one of their SWAPPABLE slots for
another user's SWAPPABLE slot. Both slots are then locked as SWAP_PENDING, and a
PENDING row is added to the `SwapRequest` table. The owner of the requested slot
answers the request:

- a rejection releases both slots (SWAPPABLE) and marks the request REJECTED;
- an acceptance exchanges the owners, marks both slots BUSY and the request ACCEPTED.

The model is made of these files:

- `wrappers.dfy` (module `Wrappers`): `Option`, `Result` and `Outcome` for the handlers' error answers.
- `tables.dfy` (module `Tables`): the two tables as records and as a `Db` value, and the `Store` class.
  - The `Store` class holds both tables as `map` fields and the two autoincrement counters. The handlers reassign these fields.
  - The module also defines `WellFormed` (keys start at 1 and lie below their counter).
  - It defines `LockInvariant`: every pending request names two distinct existing slots, no slot is named by two pending requests, and a slot is SWAP_PENDING exactly when one pending request names it.
  - It holds the two lemmas that lock and unlock slots under that invariant.
- `query.dfy` (module `Query`): the `findMany` filter-and-sort queries.
  - The database does this filtering and sorting. The model instead scans the autoincrement id range and builds the result by sorted insertion.
  - Results are id sequences with no duplicates, in key order. Rows with equal keys may come in any order.
- `events.dfy` (module `Events`): `backend/src/routes/events.ts`.
  - `parseDateOrNull`, the status normalisation of create and of update, and the patch merge of PUT.
  - The transition functions `Create`, `Update` and `Delete` over `Db`.
  - The handler methods `CreateEvent`, `UpdateEvent`, `DeleteEvent` and `ListOwnEvents` over a `Store`.
- `swaps.dfy` (module `Swaps`): `backend/src/routes/swaps.ts`.
  - The transition functions `Propose` and `Respond`.
  - The handler methods `SwappableSlots`, `ProposeSwap`, `RespondSwap` and `ListRequests`.
  - Each `$transaction` block is one atomic step.
- `cors.dfy` (module `Cors`): `backend/src/utils/cors.ts`.
  - JavaScript `trim`, `split(',')`, `parseOrigins` and the wildcard semantics of `wildcardToRegex`. The model states these semantics directly rather than through a regular expression.
  - `isAllowed` as a search loop.
  - The cached pattern list as a class with an array field.

Every state-changing handler method ensures that its result and the new store state equal a pure transition function applied to the old state. The properties are proved about those functions. This way, a lemma can chain several calls: propose, then reject; unlock, then propose, then accept.

The caller's user id, the current time (for `createdAt`) and the configured `CORS_ORIGIN` value are parameters. So is the reading of date strings by `new Date(string)`. Numeric dates follow the `Date` rule that a time value is valid only when it is at most 8.64e15 milliseconds from the epoch.

## Behaviour of the code that the model keeps

The model follows the code on each of these points:

- `LockInvariant` asks that a SWAP_PENDING slot stay locked until its request is answered, yet the slot handlers check no status:
  - PUT accepts SWAP_PENDING as a status and changes a locked slot (events.ts:59-61).
  - DELETE removes a slot whatever its status (events.ts:73-75).
  
  Proposing, responding and creating preserve `LockInvariant` (`Swaps.ProposePreservesInvariants`, `Swaps.RespondPreservesInvariants`, `Events.CreatePreservesInvariants`). Owner PUT and DELETE can break it (`Events.OwnerUpdateCanBreakLock`, `Events.OwnerDeleteCanBreakLock`). The consequences are proved:
  - A deleted slot leaves its request pending: every response to it then fails and changes nothing (`Swaps.DeletingLockedSlotStrandsRequest`). This and `Events.OwnerDeleteCanBreakLock` assume that the delete reaches the table and leaves the request row in place. The database schema's referential action on delete is not part of this model, and a restricting or cascading relation would change both conclusions.
  - An unlocked slot can be named by two pending requests. After one of them is accepted, rejecting the other makes the slot SWAPPABLE again while it already belongs to its new owner (`Swaps.OwnerUnlockAllowsDoubleBooking`).
- Proposal errors do not tell every cause apart (`Swaps.ProposeErrorOrder`):
  - an absent offered slot, another user's offered slot and an absent requested slot are all "Invalid slots";
  - the status check comes before the self-swap check, so requesting one's own locked slot, or offering a locked slot for itself, reports "not swappable" rather than "self swap".
- The reject transaction reads no slot, so it re-checks nothing. It sets both slots to SWAPPABLE whatever their status. A Prisma `update` of a missing row throws, and the transaction then rolls back. The model returns this as `SlotUpdateFailed` and changes nothing.
- An update accepts the empty title, which create refuses (`Events.PatchAllowsEmptyTitle`).
- A `CORS_ORIGIN` made only of commas is not blank but yields an empty list. With an empty list, no browser origin is allowed (`Cors.CommasOnlyAllowNothing`).
- `refreshAllowedOrigins` returns the cached array itself, not a copy. Only `getAllowedOrigins` copies it.

## Model

| member | source | states |
|---|---|---|
| `Swaps.Propose` | backend/src/routes/swaps.ts:18-47 | a rejected proposal leaves the database unchanged |
| `Swaps.ProposeSwap` | backend/src/routes/swaps.ts:18-47 | the handler's answer and new store are those of `Propose` on the old store |
| `Swaps.ProposeSucceedsIff` | backend/src/routes/swaps.ts:21-29 | a proposal succeeds exactly when both ids are given and non-zero, the offered slot is the caller's and SWAPPABLE, and the requested slot exists, is SWAPPABLE and is not the caller's |
| `Swaps.Given` | backend/src/routes/swaps.ts:21 | a given id is present, and the falsy id 0 does not count as given |
| `Swaps.ProposeErrorOrder` | backend/src/routes/swaps.ts:21-29 | each proposal error holds exactly under its condition, checked in the order missing ids, invalid slots, not swappable, self swap |
| `Swaps.ProposeForeignSlotLikeMissing` | backend/src/routes/swaps.ts:23-25 | an offered slot that is missing or belongs to another user gives the same "invalid slots" error and no change |
| `Swaps.ProposeSameSlotFails` | backend/src/routes/swaps.ts:26-29 | offering a slot for itself never succeeds; the status check comes before the self-swap check |
| `Swaps.ProposeEffect` | backend/src/routes/swaps.ts:31-44 | on success: one new PENDING request from the caller to the requested slot's owner, under the request counter's id, which advances by one; both slots SWAP_PENDING; nothing else changes |
| `Swaps.ProposePreservesInvariants` | backend/src/routes/swaps.ts:31-44 | a proposal keeps well-formed keys and the lock invariant |
| `Swaps.Respond` | backend/src/routes/swaps.ts:49-81 | a failed response leaves the database unchanged |
| `Swaps.RespondSwap` | backend/src/routes/swaps.ts:49-81 | the handler's answer and new store are those of `Respond` on the old store |
| `Swaps.RespondErrorOrder` | backend/src/routes/swaps.ts:54-57 | not found, then forbidden for anyone but the responder, then not pending |
| `Swaps.SecondResponseFails` | backend/src/routes/swaps.ts:54-57 | after a successful response, every later response to that request fails and changes nothing |
| `Swaps.RespondSucceedsIff` | backend/src/routes/swaps.ts:54-78 | a response succeeds exactly when the caller answers a pending request whose two slots exist; a reject reads no slot status, an accept needs both SWAP_PENDING |
| `Swaps.RejectEffect` | backend/src/routes/swaps.ts:59-65 | a rejection marks the request REJECTED and both slots SWAPPABLE, whatever their status was; no owner, other row or counter changes |
| `Swaps.AcceptEffect` | backend/src/routes/swaps.ts:68-80 | an acceptance needs both slots present and SWAP_PENDING; the offered slot goes to the responder, the requested slot to the requester, both BUSY, the request ACCEPTED; no other row or counter changes |
| `Swaps.RespondPreservesInvariants` | backend/src/routes/swaps.ts:59-78 | a response keeps well-formed keys and the lock invariant |
| `Swaps.RespondSucceedsUnderLock` | backend/src/routes/swaps.ts:68-74 | under the lock invariant, the responder's answer to a pending request always succeeds; the accept re-check never fires |
| `Swaps.ProposeThenRejectRestoresSlots` | backend/src/routes/swaps.ts:31-64 | proposing and then rejecting restores every slot; only the REJECTED request remains |
| `Swaps.DeletingLockedSlotStrandsRequest` | backend/src/routes/events.ts:70-77 | deleting a locked slot leaves its request PENDING, every response to it then fails and changes nothing, and the other slot stays SWAP_PENDING |
| `Swaps.OwnerUnlockAllowsDoubleBooking` | backend/src/routes/events.ts:59-61 | an owner's unlock lets a second request lock the same slot; after an accept, the stale reject releases the new owner's slot |
| `Swaps.SwappableSlots` | backend/src/routes/swaps.ts:8-16 | exactly the SWAPPABLE slots of other users, each once, by start time ascending |
| `Swaps.ListRequests` | backend/src/routes/swaps.ts:83-96 | incoming: exactly the requests the caller answers; outgoing: exactly those the caller made; each once, newest first |
| `Swaps.WithStatus` | backend/src/routes/swaps.ts:41-42 | one row's status is replaced and every other row is kept |
| `Tables.LockingKeepsInvariant` | backend/src/routes/swaps.ts:31-44 | recording a pending request over two free distinct slots and locking exactly them keeps the lock invariant |
| `Query.SelectSorted` | backend/src/routes/events.ts:22 | the ids in a range that pass the filter, each once, ordered by the sort key |
| `Query.InsertKeepsSorted` | backend/src/routes/events.ts:22 | inserting by key keeps a sequence ordered by that key |
| `Tables.UnlockingKeepsInvariant` | backend/src/routes/swaps.ts:59-78 | finishing a pending request with its slots no longer SWAP_PENDING keeps the lock invariant |
| `Events.ParseDateOrNull` | backend/src/routes/events.ts:8-18 | null for anything but a number or a string; a number is valid exactly within the `Date` range and then is the instant; a string is read by the date parser |
| `Events.CreateStatus` | backend/src/routes/events.ts:36 | create never yields SWAP_PENDING; it yields SWAPPABLE exactly for "SWAPPABLE" |
| `Events.UpdateStatus` | backend/src/routes/events.ts:59-61 | a legal status name is taken, SWAP_PENDING included; anything else keeps the current status |
| `Events.StatusNamed` | backend/src/routes/events.ts:59 | reads the three status names and nothing else |
| `Events.Create` | backend/src/routes/events.ts:26-42 | a refused create leaves the database unchanged |
| `Events.CreateEvent` | backend/src/routes/events.ts:26-42 | the handler's answer and new store are those of `Create` on the old store |
| `Events.CreateSucceedsIff` | backend/src/routes/events.ts:29-40 | create succeeds exactly on a non-empty title, two valid dates and end after start; it then stores the caller's row with that title, those dates and the normalised status under the next id, advances the counter and changes nothing else |
| `Events.CreatePreservesInvariants` | backend/src/routes/events.ts:36-40 | create keeps well-formed keys and the lock invariant |
| `Events.MergePatch` | backend/src/routes/events.ts:50-66 | a merged row keeps its owner and has its end after its start |
| `Events.PatchKeepsAbsentFields` | backend/src/routes/events.ts:52-53 | an absent title, start or end, and a status that is not a legal name, keep the old value |
| `Events.PatchSucceedsIff` | backend/src/routes/events.ts:52-57 | a patch succeeds exactly when every supplied date parses and the merged end is after the merged start; title and status never refuse it, whatever the row's status |
| `Events.EmptyPatchIsIdentity` | backend/src/routes/events.ts:50-66 | an empty body leaves a valid row unchanged |
| `Events.PatchRejectsBadDate` | backend/src/routes/events.ts:55 | a supplied start that does not parse is an error |
| `Events.PatchChecksMergedBounds` | backend/src/routes/events.ts:57 | the bounds are checked after merging, so moving only the end to or before the old start fails |
| `Events.PatchAcceptsAnyStatus` | backend/src/routes/events.ts:59-61 | the owner may set any status, SWAP_PENDING included, on any slot |
| `Events.PatchAllowsEmptyTitle` | backend/src/routes/events.ts:65 | an update may set the empty title that create refuses |
| `Events.OwnedBy` | backend/src/routes/events.ts:47 | the lookup succeeds only for an existing row that belongs to the caller |
| `Events.PatchTakesSuppliedFields` | backend/src/routes/events.ts:52-65 | a supplied title, a supplied date's parsed value and the status `UpdateStatus` picks are what the merged row holds |
| `Events.PatchRejectsBadEnd` | backend/src/routes/events.ts:56 | a supplied end that does not parse is an error once the start is acceptable |
| `Events.Update` | backend/src/routes/events.ts:44-68 | only the caller's own row is found; its result is the merged row, which replaces the old one; a failed update changes nothing |
| `Events.UpdateEvent` | backend/src/routes/events.ts:44-68 | the handler's answer and new store are those of `Update` on the old store |
| `Events.UpdateFrame` | backend/src/routes/events.ts:63-66 | an update stores the merged row, changes only that row, never the owner, and no request |
| `Events.Delete` | backend/src/routes/events.ts:70-77 | delete succeeds exactly for the caller's own row, whatever its status, and removes just that row, changing nothing else |
| `Events.DeleteEvent` | backend/src/routes/events.ts:70-77 | the handler's answer and new store are those of `Delete` on the old store |
| `Events.ListOwnEvents` | backend/src/routes/events.ts:20-24 | exactly the caller's slots, each once, by start time ascending |
| `Events.OwnerUpdateCanBreakLock` | backend/src/routes/events.ts:59-63 | setting a locked slot to BUSY succeeds and breaks the lock invariant |
| `Events.OwnerDeleteCanBreakLock` | backend/src/routes/events.ts:73-75 | deleting a locked slot succeeds and leaves a pending request naming a missing slot |
| `Cors.TrimStart` | backend/src/utils/cors.ts:5-6 | the result is a suffix, everything removed is white space, and it does not start with white space |
| `Cors.TrimEnd` | backend/src/utils/cors.ts:5-6 | the result is a prefix, everything removed is white space, and it does not end with white space |
| `Cors.Trim` | backend/src/utils/cors.ts:5-6 | the result is the input without its leading and trailing white space |
| `Cors.TrimEmptyIffBlank` | backend/src/utils/cors.ts:5 | trimming gives the empty string exactly for an all-white-space string |
| `Cors.Split` | backend/src/utils/cors.ts:6 | at least one piece, and no piece holds a comma |
| `Cors.JoinSplit` | backend/src/utils/cors.ts:6 | joining the pieces with commas gives back the input |
| `Cors.SplitJoin` | backend/src/utils/cors.ts:6 | splitting the join of comma-free pieces gives back the pieces |
| `Cors.CleanPieces` | backend/src/utils/cors.ts:6 | exactly the non-empty trims of the pieces; one piece gives its trim or nothing |
| `Cors.ParseOrigins` | backend/src/utils/cors.ts:4-7 | an absent or blank value gives `["*"]`; otherwise every entry is non-empty, trimmed and comma-free |
| `Cors.ParseOriginsEntries` | backend/src/utils/cors.ts:6 | the entries of a non-blank value are the cleaned comma-separated pieces, in order; as a set, exactly the non-empty trimmed pieces |
| `Cors.CommasOnlyAllowNothing` | backend/src/utils/cors.ts:5-6 | the value "," gives the empty list |
| `Cors.GlobMatch` | backend/src/utils/cors.ts:10-16 | a pattern without `*` matches only origins of its own length |
| `Cors.CleanPiecesConcat` | backend/src/utils/cors.ts:6 | cleaning works piece by piece, keeping the pieces' order and repeats |
| `Cors.StarMatchesAnyPrefix` | backend/src/utils/cors.ts:10-16 | a `*` matches any substring, possibly empty: a leading `*` matches exactly when some suffix matches the rest |
| `Cors.LiteralPatternMatch` | backend/src/utils/cors.ts:12-15 | a pattern without `*` matches exactly the origins of the same length that agree letter by letter, ignoring case, against the whole origin |
| `Cors.NonLetterMatchesItself` | backend/src/utils/cors.ts:13 | characters that are not letters, regex metacharacters such as `.` included, match only themselves |
| `Cors.GlobConcat` | backend/src/utils/cors.ts:10-16 | matching pieces of a pattern and of an origin can be put together |
| `Cors.StarMatchesEverything` | backend/src/utils/cors.ts:14 | the pattern `*` matches every origin |
| `Cors.PatternAllows` | backend/src/utils/cors.ts:27-32 | one pattern's verdict; an exact match is also a wildcard match, so only case makes the two differ |
| `Cors.IsAllowed` | backend/src/utils/cors.ts:19-36 | true exactly when the origin is absent or empty, the list holds `*`, or some pattern allows it (exact match without `*`, wildcard match with) |
| `Cors.EmptyListAllowsOnlyNoOrigin` | backend/src/utils/cors.ts:21-35 | with no pattern, only a missing or empty origin is allowed |
| `Cors.StarEntryIsAPattern` | backend/src/utils/cors.ts:23 | the early return for a `*` entry agrees with matching `*` as a pattern |
| `Cors.ExactPatternIsCaseSensitive` | backend/src/utils/cors.ts:27 | an exact pattern compares case-sensitively |
| `Cors.WildcardPatternIgnoresCase` | backend/src/utils/cors.ts:15 | a wildcard pattern compares ignoring case |
| `Cors.OriginCache.constructor` | backend/src/utils/cors.ts:38 | the cache starts as the parsed configuration |
| `Cors.OriginCache.RefreshAllowedOrigins` | backend/src/utils/cors.ts:41-44 | the cache becomes the parsed configuration, and the cache itself is returned |
| `Cors.OriginCache.GetAllowedOrigins` | backend/src/utils/cors.ts:47-49 | a fresh array equal to the cache |

## Left out

- Prisma and the database: the tables are in-memory maps, and each `$transaction` block is one atomic step.
- Concurrency: the calls are modelled one at a time. Propose runs its checks outside its transaction (swaps.ts:23-29 against 31), which leaves a race that the model does not capture. Respond likewise checks the request (swaps.ts:54-57) outside its transactions, and the reject transaction checks nothing, so a concurrent accept and reject of one request can both commit: the owners are exchanged, then the request becomes REJECTED and both slots SWAPPABLE. The model does not capture this either.
- Authentication: JWT checking, login and sign-up, and the `requireAuth` middleware are not modelled. The caller's user id is an input.
- JavaScript date-string parsing: a parameter stands in for it.
- Numeric dates with a fractional part: numbers in the body are modelled as integers.
- Body fields of unexpected JSON types are not modelled: a non-string title or status, non-numeric slot ids, a non-boolean `accept`. A title or status is a string or absent.
- `parseInt` and `Number` on path parameters: path ids are integers.
- The HTTP status codes and messages are not modelled: each error is one constructor.
- The database schema's referential actions on delete are not part of this model. A deleted slot's requests stay, as the handler alone would leave them.
- The clock: `createdAt` is a parameter.
- Ties in the list orderings: rows with equal keys may come in any order.
- The owner and slot details embedded in list responses are not modelled: lists are ids.
- Case-insensitive matching covers ASCII letters only. Unicode case folding is not modelled.
- Regex corner cases are not modelled, such as `.*` not crossing line terminators.
- `corsMiddleware`, the `cors` library and the reading of `process.env` are not modelled: the configured value is a parameter.
- The server wiring and environment defaults are not part of this model (backend/src/index.ts, backend/src/config.ts).
- The frontend is not part of this model.
