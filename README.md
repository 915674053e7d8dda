# pg_subtrans_infos in Dafny

A model of the PostgreSQL extension function `pg_subtrans_infos(bigint)`. It takes
a transaction id, qualified with the current epoch, and returns one row:

- the 32-bit id;
- its status (`in progress`, `committed` or `aborted`);
- its direct parent in `pg_subtrans`;
- its top-level parent, with the number of levels in between;
- its commit timestamp.

The model has two parts:

- `transam.dfy` (module `Transam`) holds the engine's transaction-id arithmetic:
  - the special ids and `TransactionIdIsValid` / `TransactionIdIsNormal`;
  - the wraparound-aware `TransactionIdPrecedes`;
  - 64-bit full ids split into an epoch and a 32-bit id;
  - the bitwise OR on naturals that the source uses to glue the epoch onto the argument.
- `subtrans_infos.dfy` (module `SubtransInfos`) holds the three parts of the source file:
  - `TransactionIdInRecentPast`, as the function `InRecentPast`. It follows the branch for version 13 and later.
  - `get_top_parent`, as the method `GetTopParent`. It is a `while` loop with its invariants. Its termination measure is the distance `(x - TransactionXmin) mod 2^32`.
  - The body of `pg_subtrans_infos`, as the method `PgSubtransInfos`. It fills the `values[6]` and `nulls[6]` arrays in place and builds the row from them. It is split into the helpers `DescribeRecent`, `FillAncestry`, `ResolveStatus` and `FinishRow`.

## How the engine is represented

The engine state one call reads is the immutable record `Env`:

- the next full id;
- `oldestClogXid`;
- `TransactionXmin` and the active snapshot's `xmin`;
- `track_commit_timestamp`;
- whether the build has assertion checking.

The record treats five lookups as uninterpreted functions: `SubTransGetParent`,
`TransactionIdIsCurrentTransactionId`, `TransactionIdDidCommit`,
`TransactionIdDidAbort` and `TransactionIdGetCommitTsData`. The source calls
the lookups and reads `oldestClogXid` while holding the transaction-truncation
lock (lines 194-259). It reads the next full id and `TransactionXmin` on lines
158 and 168, before taking the lock. It also reads the next full id a second
time, on line 70, under the lock. The model treats the whole record as constant
for the call, so both reads of the next full id give the same value.

An `ereport(ERROR)` / `elog(ERROR)` becomes an `Err` result. Three of the four are modelled (the fourth, on line 186, is left out):

- the id is in the future;
- `pg_subtrans` holds a corrupt entry;
- the assertion-build lower bound is not met.

The whole call is specified by the predicate `InfosSpec`. `PgSubtransInfos` is
proved against it, and the lemmas about the output row are stated in terms of it.

### Behaviour that the model reproduces as written

- **Sublevel at a TransactionXmin stop.** `get_top_parent` counts one level per
  parent fetched.
  - When the walk ends on an invalid parent, the returned ancestor is exactly
    `sublevel` hops above the id.
  - When the walk stops on an ancestor that precedes `TransactionXmin`, that
    ancestor is `sublevel + 1` hops above the id.
  - `AncestryChain` and `WalkResultPosition` state both cases.
- **Last epoch.** `xid_epoch + 1` on line 128 is uint32 arithmetic. In epoch
  0xFFFFFFFF it wraps to 0, so a non-future normal id of that epoch is reported
  as not determinable (`LastEpochReportedTooOld`). In every other epoch the test
  means "at most 2^32 ids behind the next id, and not truncated from the
  commit log" (`RecentMeansWithinOneWrap`).
- **TransactionXmin.** `GetTopParent` and `PgSubtransInfos` require
  `TransactionXmin` to be a normal id, as the engine keeps it.
  - With a special `TransactionXmin`, the walk's measure fails.
  - Two normal ids half the id circle apart precede each other, so a parent map
    that links them would loop (`Transam.SpecialXminAdmitsCycle`).

## Model

| member | source | states |
|---|---|---|
| Transam.Precedes | pg_subtrans_infos.c:43 | TransactionIdPrecedes: plain order when either id is special; for two normal ids, the 32-bit difference `a - b` read as a signed int32 is negative (`Int32Of` is the reading: in [-2^31, 2^31) and congruent modulo 2^32) |
| Transam.PrecedesAsymmetric | pg_subtrans_infos.c:43 | no normal id precedes itself; two normal ids precede each other exactly when they are half the id circle apart |
| Transam.StepShrinksDistance | pg_subtrans_infos.c:30-46 | with a normal TransactionXmin, a hop from a window id to a preceding parent that is still in the window strictly lowers the distance to TransactionXmin |
| Transam.SpecialXminAdmitsCycle | pg_subtrans_infos.c:30-46 | with a special TransactionXmin, the ids 3 and 3 + 2^31 precede each other and both stay in the window, so the walk could cycle |
| Transam.EpochOf | pg_subtrans_infos.c:60 | EpochFromFullTransactionId: the epoch e is the high 32 bits, e * 2^32 <= f < (e + 1) * 2^32 |
| Transam.XidOf | pg_subtrans_infos.c:61 | XidFromFullTransactionId: the id is what is left below the epoch, f = epoch * 2^32 + id |
| Transam.MakeFullXid | pg_subtrans_infos.c:59-61 | packing an epoch and an id gives a full id whose epoch and id are those two |
| Transam.SplitRoundTrip | pg_subtrans_infos.c:59-61 | splitting a full id into epoch and id and packing them again gives the full id back |
| Transam.FullOrderIsLexicographic | pg_subtrans_infos.c:101-102 | comparing full ids as 64-bit integers is the same as comparing (epoch, id) lexicographically |
| Transam.ShiftedOr | pg_subtrans_infos.c:165 | `(epoch << 32) OR u`, for a 32-bit epoch and a 64-bit u, fits in 64 bits, keeps the low 32 bits of u, and is the plain sum epoch * 2^32 + u when u fits in 32 bits |
| SubtransInfos.ArgumentFullXid | pg_subtrans_infos.c:165 | the id built from the current epoch and the int64 argument: for any argument, including negative ones converted by two's complement, its 32-bit id is the argument modulo 2^32; an argument in [0, 2^32) gives exactly (current epoch, argument) |
| SubtransInfos.XminBound | pg_subtrans_infos.c:168 | FullTransactionXmin: the full id whose epoch is the current epoch and whose 32-bit id is TransactionXmin |
| SubtransInfos.XminBoundIsShiftedOr | pg_subtrans_infos.c:168 | the assertion-build bound `(now_epoch << 32) OR TransactionXmin` is the full id (current epoch, TransactionXmin) |
| SubtransInfos.InRecentPast | pg_subtrans_infos.c:55-134 | the extracted id is the low 32 bits; the invalid id gives false without error; a special id gives true; the error is raised exactly for a normal id at or after the next full id, and it carries that id; a true answer always has a valid id |
| SubtransInfos.RecentMeansWithinOneWrap | pg_subtrans_infos.c:128-133 | below the last epoch, a normal non-future id is determinable exactly when it is no more than 2^32 ids behind the next id and does not precede oldestClogXid |
| SubtransInfos.LastEpochReportedTooOld | pg_subtrans_infos.c:128-131 | in epoch 0xFFFFFFFF, the uint32 `xid_epoch + 1` wraps to 0 and every normal non-future id is reported not determinable |
| SubtransInfos.LegacyFutureTestAgrees | pg_subtrans_infos.c:88-107 | the separate epoch and id test of older engines raises the future error on exactly the ids the 64-bit test does |
| SubtransInfos.GetTopParent | pg_subtrans_infos.c:21-51 | always terminates. On a normal return, the level grew by the number of hops and the walk ended on an invalid start, on the last id before an invalid parent, or on the first ancestor preceding TransactionXmin; from a valid id the result is valid. On an error, the reported pair is the first link whose parent does not precede its child |
| SubtransInfos.WalkDeterministic | pg_subtrans_infos.c:30-46 | two normal endings of one walk have the same hop count and the same result |
| SubtransInfos.WalkOutcomeExclusive | pg_subtrans_infos.c:43-45 | a walk is corrupt at one hop at most, and a corrupt walk never ends normally |
| SubtransInfos.HopsBounded | pg_subtrans_infos.c:30-46 | the hops taken lower the distance to TransactionXmin by one or more each, so a walk takes at most that distance plus one hops |
| SubtransInfos.SublevelFits | pg_subtrans_infos.c:203-214 | a walk from a valid id that returns another id took one or more hops, and the sublevel it reports fits a C int |
| SubtransInfos.TopLevelWalk | pg_subtrans_infos.c:30-50 | a window id with an invalid parent: one hop, the result is the id itself, so the sublevel is 0 |
| SubtransInfos.ThreeLevelWalk | pg_subtrans_infos.c:30-50 | a child, parent and grandparent in the window with a parentless grandparent: three hops, the result is the grandparent |
| SubtransInfos.WalkResultPosition | pg_subtrans_infos.c:30-50 | from a valid id the result is valid; if it is in the window it is hops - 1 above the id and has an invalid parent; if it precedes TransactionXmin it is hops above the id |
| SubtransInfos.Disposition | pg_subtrans_infos.c:218-248 | committed exactly when not current and the commit log says committed; aborted exactly when not current, not committed, and either aborted or preceding the snapshot xmin; in progress otherwise |
| SubtransInfos.StatusTextsDistinct | pg_subtrans_infos.c:218-248 | the three status texts differ, so the text determines the status |
| SubtransInfos.PgSubtransInfos | pg_subtrans_infos.c:136-275 | the result is the one InfosSpec describes: the assertion-build error, the future error, the row with only the id, the corruption error, or the full row built from the walk and the cascade |
| SubtransInfos.DescribeRecent | pg_subtrans_infos.c:198-249 | for a determinable id, either reports the first corrupt link, or returns the cascade's status with cells 2 to 5 holding the parent, top parent, sublevel and commit timestamp of the row; cells 0 and 1 are not touched |
| SubtransInfos.FillAncestry | pg_subtrans_infos.c:202-216 | cell 2 holds the parent or is null for an invalid parent; cells 3 and 4 hold the top parent and sublevel, or are null when the top parent is invalid or the id itself |
| SubtransInfos.ResolveStatus | pg_subtrans_infos.c:218-248 | returns the status the cascade selects; cell 5 holds the commit timestamp exactly when the id committed, tracking is on and a timestamp was found; cells 0 to 4 are not touched |
| SubtransInfos.FinishRow | pg_subtrans_infos.c:261-272 | afterwards every cell 0 to 5 holds the matching column of the expected row (null exactly where the column is): with no status, cells 1 to 5 are null; otherwise cell 1 holds the status text; cell 0 holds the id. The cells are well typed, and the row returned is the one they make up (`RowOf`), which is the expected row |
| SubtransInfos.InfosDeterministic | pg_subtrans_infos.c:136-275 | the call's result is a function of the engine state and the argument |
| SubtransInfos.RowNullability | pg_subtrans_infos.c:205-271 | column 0 is the argument modulo 2^32; a null status leaves columns 1 to 5 null; otherwise the parent column is null exactly when the parent is invalid, and holds the parent if not; a shown top parent is valid and differs from the id; sublevel is shown exactly when the top parent is; a commit timestamp is shown only for a committed id with tracking on, and it is the recorded one; conversely, for a committed id that is not the current transaction, with tracking on, the column is exactly the recorded timestamp (null when none was found) |
| SubtransInfos.AncestryChain | pg_subtrans_infos.c:203-216 | a shown top parent comes with a sublevel of 0 or more; a top parent in the window is exactly sublevel hops above the id and has an invalid parent; one preceding TransactionXmin is sublevel + 1 hops above; each hop went to a strictly preceding id, including the last hop to a top parent preceding TransactionXmin |
| SubtransInfos.TopParentColumn | pg_subtrans_infos.c:210-216 | for a determinable id whose walk ended on `top` after n hops, the top-parent column is null exactly when `top` is invalid or the id itself; otherwise it holds `top` and the sublevel is n - 1 |
| SubtransInfos.InvalidXidRow | pg_subtrans_infos.c:250-271 | outside the assertion-build bound, an argument whose low 32 bits are 0 gives, without error, the row with only column 0 |
| SubtransInfos.FutureXidNoRow | pg_subtrans_infos.c:87-93 | outside the assertion-build bound, a normal id at or after the next full id raises the future error carrying that full id, and gives no row |
| SubtransInfos.TruncatedXidNullStatus | pg_subtrans_infos.c:128-131 | outside the assertion-build bound, a non-future normal id that precedes oldestClogXid gives a row with a null status |
| SubtransInfos.ResolvedStatus | pg_subtrans_infos.c:218-248 | for a determinable id the status column is the text of one status, and that status is exactly the one the cascade selects |

## Left out

- Tuplestore, tuple descriptor, memory contexts and ReturnSetInfo (pg_subtrans_infos.c:142-147, 179-191, 272-274): these are result-set plumbing. The row is the record `Row` of optional columns, built from the two arrays.
- The "return type must be a row type" error (line 186): it depends on how the SQL function is declared, not on the argument.
- `LWLockAcquire`, `LWLockRelease` and the `LWLockHeldByMe` asserts: these are concurrency. They become the assumption that `Env` is constant during the call.
- The internals of `SubTransGetParent`, `TransactionIdDidCommit`, `TransactionIdDidAbort` (including sub-committed ids), `TransactionIdIsCurrentTransactionId`, `TransactionIdGetCommitTsData` and `GetActiveSnapshot`: these are engine code outside this file. They are uninterpreted fields of `Env`, and `TimestampTz` is an opaque int64.
- Version branches other than the one for version 13 and later: only the older lexicographic future test is kept, as `LegacyFutureTestAgrees`.
- `Assert()` macros (they abort the backend only in assertion builds):
  - the ones on lines 48 and 200 are proved (`GetTopParent` returns a valid id from a valid id, and `InRecentPast` answers true only with a valid id);
  - the one on line 28, that the walk starts at an id not preceding `TransactionXmin`, is a caller precondition that the model does not require: a start preceding `TransactionXmin` ends the walk after zero hops;
  - the `LWLockHeldByMe` asserts on lines 117-120 are about locking.
- The two reads of the next full id, on line 158 before the lock and on line 70 under it: the model uses one value for both, so it does not capture the counter moving between them.
- `Datum` and `CStringGetTextDatum` conversions: the cells are the datatype `Datum`, and the status is a Dafny string.
- GetTopParent: requires a normal `TransactionXmin`, an engine invariant not visible in this file. Without it the walk need not terminate (`Transam.SpecialXminAdmitsCycle`).
