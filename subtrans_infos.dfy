/**
 * pg_subtrans_infos: one output row describing a transaction id given with
 * its epoch. The engine state the function reads is an immutable record
 * (`Env`), treated as constant for the whole call: the lookups and
 * oldestClogXid are read under the shared transaction-truncation lock, and the
 * two reads of the next full id (before the lock and inside
 * TransactionIdInRecentPast) are taken to agree.
 */
module SubtransInfos {
  import opened Transam

  datatype Option<T> = None | Some(value: T)

  /** TimestampTz: an opaque 64-bit value here. */
  type TimestampTz = Int64
  type Int32 = x: int | -0x8000_0000 <= x < 0x8000_0000

  /** The ERROR exits of the call; none of them produces a row. */
  datatype Error =
    | XidInFuture(fxid: FullXid)               // "transaction ID %s is in the future"
    | CorruptSubtrans(child: Xid, parent: Xid)  // "pg_subtrans contains invalid entry"
    | XidBelowXmin(bound: FullXid)             // assertion-enabled builds only

  datatype Result<T> = Ok(value: T) | Err(error: Error)

  /**
   * The engine state consulted by one call. The five lookups are the engine's
   * own functions and are left uninterpreted.
   */
  datatype Env = Env(
    nextFullXid: FullXid,                        // ReadNextFullTransactionId()
    oldestClogXid: Xid,                          // ShmemVariableCache->oldestClogXid
    transactionXmin: Xid,                        // TransactionXmin
    snapshotXmin: Xid,                           // GetActiveSnapshot()->xmin
    trackCommitTimestamp: bool,                  // track_commit_timestamp
    assertChecking: bool,                        // built with USE_ASSERT_CHECKING
    subtransParent: Xid -> Xid,                  // SubTransGetParent
    isCurrentTransaction: Xid -> bool,           // TransactionIdIsCurrentTransactionId
    didCommit: Xid -> bool,                      // TransactionIdDidCommit
    didAbort: Xid -> bool,                       // TransactionIdDidAbort
    commitTimestamp: Xid -> Option<TimestampTz>) // TransactionIdGetCommitTsData

  // ---------------------------------------------------------------------
  // Building and checking the epoch-qualified id

  /**
   * The id the caller builds from the current epoch and the int64 argument:
   * `((uint64) now_epoch) << 32 | arg`, the argument converted to uint64 by
   * two's complement. Whatever the argument, the 32-bit id is its low 32
   * bits; an argument that fits in 32 bits gives (current epoch, argument).
   */
  function ArgumentFullXid(nowEpoch: Xid, arg: Int64): (f: FullXid)
    ensures XidOf(f) == arg % XidSpace
    ensures 0 <= arg < XidSpace ==> f == MakeFullXid(nowEpoch, arg)
  {
    var u: FullXid := if arg < 0 then arg + 0x1_0000_0000_0000_0000 else arg;
    ShiftedOr(nowEpoch, u);
    UnsignedLowBits(arg);
    Or(nowEpoch * XidSpace, u)
  }

  /** Converting an int64 to uint64 keeps its residue modulo 2^32. */
  lemma UnsignedLowBits(arg: Int64)
    ensures (if arg < 0 then arg + 0x1_0000_0000_0000_0000 else arg) % XidSpace == arg % XidSpace
  {
    if arg < 0 {
      var q, m := arg / XidSpace, arg % XidSpace;
      assert arg + 0x1_0000_0000_0000_0000 == (q + XidSpace) * XidSpace + m;
      ModUnique(arg + 0x1_0000_0000_0000_0000, XidSpace, q + XidSpace, m);
    }
  }

  /** Answer of TransactionIdInRecentPast with the id it extracted. */
  datatype RecentPast = RecentPast(recent: bool, xid: Xid)

  /**
   * TransactionIdInRecentPast (version 13 and later): is the status of
   * the given id still determinable from the commit log?
   */
  function InRecentPast(env: Env, fxid: FullXid): (r: Result<RecentPast>)
    ensures r.Ok? ==> r.value.xid == XidOf(fxid)
    ensures r.Ok? && r.value.recent ==> IsValid(r.value.xid)
    ensures XidOf(fxid) == InvalidXid ==> r == Ok(RecentPast(false, InvalidXid))
    ensures IsValid(XidOf(fxid)) && !IsNormal(XidOf(fxid)) ==> r == Ok(RecentPast(true, XidOf(fxid)))
    ensures r.Err? <==> IsNormal(XidOf(fxid)) && fxid >= env.nextFullXid
    ensures r.Err? ==> r.error == XidInFuture(fxid)
  {
    var epoch, xid := EpochOf(fxid), XidOf(fxid);
    var nowEpoch, nextXid := EpochOf(env.nextFullXid), XidOf(env.nextFullXid);
    if !IsValid(xid) then Ok(RecentPast(false, xid))
    else if !IsNormal(xid) then Ok(RecentPast(true, xid))
    else if !(fxid < env.nextFullXid) then Err(XidInFuture(fxid))
    else
      // `xid_epoch + 1` is uint32 arithmetic
      var epochAfter := (epoch + 1) % XidSpace;
      var tooOld :=
        epochAfter < nowEpoch
        || (epochAfter == nowEpoch && xid < nextXid)
        || Precedes(xid, env.oldestClogXid);
      Ok(RecentPast(!tooOld, xid))
  }

  /**
   * Below the last epoch, the epoch test says "at most 2^32 ids before the
   * next id": a normal, non-future id is determinable exactly when it is
   * within one wraparound of the next id and does not precede oldestClogXid.
   */
  lemma {:induction false} RecentMeansWithinOneWrap(env: Env, fxid: FullXid)
    requires IsNormal(XidOf(fxid)) && fxid < env.nextFullXid
    requires EpochOf(fxid) < XidSpace - 1
    ensures InRecentPast(env, fxid).Ok?
    ensures InRecentPast(env, fxid).value.recent <==>
      env.nextFullXid - fxid <= XidSpace && !Precedes(XidOf(fxid), env.oldestClogXid)
  {
    var epoch, xid := EpochOf(fxid), XidOf(fxid);
    SplitRoundTrip(fxid);
    assert fxid + XidSpace == MakeFullXid(epoch + 1, xid);
    FullOrderIsLexicographic(fxid + XidSpace, env.nextFullXid);
  }

  /**
   * In the last epoch the uint32 sum `xid_epoch + 1` wraps to 0, so every
   * normal id below the next id is reported as too old.
   */
  lemma LastEpochReportedTooOld(env: Env, fxid: FullXid)
    requires IsNormal(XidOf(fxid)) && fxid < env.nextFullXid
    requires EpochOf(fxid) == XidSpace - 1
    ensures InRecentPast(env, fxid) == Ok(RecentPast(false, XidOf(fxid)))
  {
    FullOrderIsLexicographic(fxid, env.nextFullXid);
  }

  /**
   * The future test of engines without 64-bit full ids, which compares epoch
   * and id separately, rejects exactly the ids the 64-bit test rejects.
   */
  lemma LegacyFutureTestAgrees(env: Env, fxid: FullXid)
    ensures InRecentPast(env, fxid).Err? <==>
      IsNormal(XidOf(fxid)) &&
      (EpochOf(fxid) > EpochOf(env.nextFullXid)
       || (EpochOf(fxid) == EpochOf(env.nextFullXid) && XidOf(fxid) >= XidOf(env.nextFullXid)))
  {
    FullOrderIsLexicographic(fxid, env.nextFullXid);
  }

  // ---------------------------------------------------------------------
  // Ancestry walk

  /** The id reached from `xid` by n applications of SubTransGetParent. */
  function Ancestor(env: Env, xid: Xid, n: nat): Xid
  {
    if n == 0 then xid else env.subtransParent(Ancestor(env, xid, n - 1))
  }

  /**
   * The walk from `xid` took its first n hops: each id it left was valid, did
   * not precede TransactionXmin, and was followed by a parent preceding it.
   */
  ghost predicate HopsTaken(env: Env, xid: Xid, n: nat)
  {
    forall i :: 0 <= i < n ==>
      IsValid(Ancestor(env, xid, i))
      && !Precedes(Ancestor(env, xid, i), env.transactionXmin)
      && Precedes(Ancestor(env, xid, i + 1), Ancestor(env, xid, i))
  }

  /**
   * The walk from `xid` ends normally after n hops and returns `top`: on the
   * last id before an invalid parent, on the first ancestor preceding
   * TransactionXmin, or on an invalid start.
   */
  ghost predicate WalkEnds(env: Env, xid: Xid, n: nat, top: Xid)
  {
    HopsTaken(env, xid, n) &&
    ( (n == 0 && !IsValid(xid) && top == xid)
    || (n > 0 && !IsValid(Ancestor(env, xid, n)) && top == Ancestor(env, xid, n - 1))
    || (IsValid(Ancestor(env, xid, n))
        && Precedes(Ancestor(env, xid, n), env.transactionXmin)
        && top == Ancestor(env, xid, n)))
  }

  /** The walk from `xid` meets, at hop n, a parent that does not precede its child. */
  ghost predicate WalkCorruptAt(env: Env, xid: Xid, n: nat)
  {
    HopsTaken(env, xid, n)
    && IsValid(Ancestor(env, xid, n))
    && !Precedes(Ancestor(env, xid, n), env.transactionXmin)
    && !Precedes(Ancestor(env, xid, n + 1), Ancestor(env, xid, n))
  }

  /**
   * get_top_parent: follow parent links from `xid`, adding one to the
   * caller's `sublevel` per parent fetched. The walk always terminates (its
   * decreases clause is the distance to TransactionXmin); it returns normally
   * as `WalkEnds` says, or fails on the first corrupt link.
   */
  method GetTopParent(env: Env, xid: Xid, sublevel: int) returns (r: Result<Xid>, level: int)
    requires IsNormal(env.transactionXmin)
    ensures r.Ok? ==> level >= sublevel && WalkEnds(env, xid, level - sublevel, r.value)
    ensures r.Ok? && IsValid(xid) ==> IsValid(r.value)
    ensures r.Err? ==> exists n: nat ::
      (WalkCorruptAt(env, xid, n)
       && r.error == CorruptSubtrans(Ancestor(env, xid, n), Ancestor(env, xid, n + 1)))
  {
    var xmin := env.transactionXmin;
    var parentXid, previousXid := xid, xid;
    level := sublevel;
    ghost var n: nat := 0;
    while IsValid(parentXid)
      invariant level == sublevel + n
      invariant parentXid == Ancestor(env, xid, n)
      invariant HopsTaken(env, xid, n)
      invariant previousXid == if n == 0 then xid else Ancestor(env, xid, n - 1)
      decreases if !IsValid(parentXid) then 0
                else if Precedes(parentXid, xmin) then 1
                else 2 + Distance(parentXid, xmin)
    {
      previousXid := parentXid;
      if Precedes(parentXid, xmin) {
        break;
      }
      parentXid := env.subtransParent(parentXid);
      level := level + 1;
      n := n + 1;
      if !Precedes(parentXid, previousXid) {
        r := Err(CorruptSubtrans(previousXid, parentXid));
        assert WalkCorruptAt(env, xid, n - 1);
        return;
      }
      if IsValid(parentXid) && !Precedes(parentXid, xmin) {
        StepShrinksDistance(xmin, previousXid, parentXid);
      }
    }
    r := Ok(previousXid);
  }

  /** Two normal endings of the same walk agree on hop count and result. */
  lemma {:induction false} WalkDeterministic(env: Env, xid: Xid, n1: nat, t1: Xid, n2: nat, t2: Xid)
    requires WalkEnds(env, xid, n1, t1) && WalkEnds(env, xid, n2, t2)
    ensures n1 == n2 && t1 == t2
  {
    if n1 < n2 {
      HopAt(env, xid, n2, n1);
    } else if n2 < n1 {
      HopAt(env, xid, n1, n2);
    }
  }

  /** Hop i of a walk that took n > i hops. */
  lemma HopAt(env: Env, xid: Xid, n: nat, i: nat)
    requires HopsTaken(env, xid, n) && i < n
    ensures IsValid(Ancestor(env, xid, i)) && !Precedes(Ancestor(env, xid, i), env.transactionXmin)
    ensures Precedes(Ancestor(env, xid, i + 1), Ancestor(env, xid, i))
  {
  }

  /** The walk fails at one hop at most, and never both fails and ends normally. */
  lemma {:induction false} WalkOutcomeExclusive(env: Env, xid: Xid, n: nat, m: nat)
    requires WalkCorruptAt(env, xid, n)
    ensures m != n ==> !WalkCorruptAt(env, xid, m)
    ensures forall top: Xid :: !WalkEnds(env, xid, m, top)
  {
  }

  /**
   * Each hop taken brings the walk strictly closer to TransactionXmin, so a
   * walk takes at most Distance(xid, TransactionXmin) + 1 hops.
   */
  lemma {:induction false} HopsBounded(env: Env, xid: Xid, n: nat)
    requires IsNormal(env.transactionXmin)
    requires HopsTaken(env, xid, n) && n > 0
    ensures Distance(Ancestor(env, xid, n - 1), env.transactionXmin) + (n - 1)
            <= Distance(xid, env.transactionXmin)
    ensures n <= Distance(xid, env.transactionXmin) + 1
  {
    if n > 1 {
      assert HopsTaken(env, xid, n - 1);
      HopsBounded(env, xid, n - 1);
      StepShrinksDistance(env.transactionXmin, Ancestor(env, xid, n - 2), Ancestor(env, xid, n - 1));
    }
  }

  /**
   * A walk from a valid id that returns some other id took at least one hop,
   * and the `sublevel` it reports (hops - 1) fits the C `int` it is kept in.
   */
  lemma SublevelFits(env: Env, xid: Xid, n: nat, top: Xid)
    requires IsNormal(env.transactionXmin) && IsValid(xid)
    requires WalkEnds(env, xid, n, top) && top != xid
    ensures n >= 1 && n - 1 < 0x8000_0000
  {
    HopsBounded(env, xid, n);
    HopAt(env, xid, n, 0);
    WindowDistance(env.transactionXmin, xid);
  }

  /** An id in the window lies less than half the id circle above TransactionXmin. */
  lemma WindowDistance(xmin: Xid, x: Xid)
    requires IsNormal(xmin) && !Precedes(x, xmin)
    ensures Distance(x, xmin) < HalfXidSpace
  {
  }

  /**
   * A top-level id inside the window: the walk takes one hop (to the invalid
   * parent) and returns the id itself.
   */
  lemma TopLevelWalk(env: Env, xid: Xid)
    requires IsValid(xid) && !Precedes(xid, env.transactionXmin)
    requires !IsValid(env.subtransParent(xid))
    ensures WalkEnds(env, xid, 1, xid)
  {
    assert Ancestor(env, xid, 1) == env.subtransParent(xid);
  }

  /**
   * Grandparent, parent and child all inside the window: the walk takes three
   * hops and returns the grandparent.
   */
  lemma ThreeLevelWalk(env: Env, xid: Xid, parent: Xid, grandparent: Xid)
    requires IsNormal(env.transactionXmin)
    requires IsNormal(grandparent) && !Precedes(grandparent, env.transactionXmin)
    requires Precedes(grandparent, parent) && Precedes(parent, xid)
    requires !Precedes(xid, env.transactionXmin) && !Precedes(parent, env.transactionXmin)
    requires env.subtransParent(xid) == parent && env.subtransParent(parent) == grandparent
    requires !IsValid(env.subtransParent(grandparent))
    ensures WalkEnds(env, xid, 3, grandparent)
  {
    assert Ancestor(env, xid, 1) == parent;
    assert Ancestor(env, xid, 2) == grandparent;
    assert Ancestor(env, xid, 3) == env.subtransParent(grandparent);
  }

  /**
   * Where the walk's result sits: either the walk ended on an invalid parent,
   * and `top` is `n - 1` hops above the start, inside the window, without a
   * parent; or it stopped at an ancestor preceding TransactionXmin, which is
   * then `n` hops above the start.
   */
  lemma {:induction false} WalkResultPosition(env: Env, xid: Xid, n: nat, top: Xid)
    requires IsValid(xid) && WalkEnds(env, xid, n, top)
    ensures IsValid(top)
    ensures !Precedes(top, env.transactionXmin) ==>
      n > 0 && top == Ancestor(env, xid, n - 1) && !IsValid(env.subtransParent(top))
    ensures Precedes(top, env.transactionXmin) ==> top == Ancestor(env, xid, n)
  {
    if n > 0 && !IsValid(Ancestor(env, xid, n)) {
      assert IsValid(Ancestor(env, xid, n - 1)) && !Precedes(Ancestor(env, xid, n - 1), env.transactionXmin);
      assert env.subtransParent(top) == Ancestor(env, xid, n);
    }
  }

  // ---------------------------------------------------------------------
  // Disposition

  datatype Status = InProgress | Committed | Aborted

  /** The text shown in the status column. */
  function StatusText(s: Status): string
  {
    match s
    case InProgress => "in progress"
    case Committed => "committed"
    case Aborted => "aborted"
  }

  /**
   * The status cascade for a determinable id: the first of "current
   * transaction", "committed", "aborted" that holds, then the snapshot-xmin
   * fallback for an id the commit log left unfinished.
   */
  function Disposition(env: Env, xid: Xid): (s: Status)
    ensures s == Committed <==> !env.isCurrentTransaction(xid) && env.didCommit(xid)
    ensures s == Aborted <==>
      !env.isCurrentTransaction(xid) && !env.didCommit(xid)
      && (env.didAbort(xid) || Precedes(xid, env.snapshotXmin))
    ensures s == InProgress <==>
      env.isCurrentTransaction(xid)
      || (!env.didCommit(xid) && !env.didAbort(xid) && !Precedes(xid, env.snapshotXmin))
  {
    if env.isCurrentTransaction(xid) then InProgress
    else if env.didCommit(xid) then Committed
    else if env.didAbort(xid) then Aborted
    else if Precedes(xid, env.snapshotXmin) then Aborted
    else InProgress
  }

  lemma StatusTextsDistinct(s: Status, t: Status)
    ensures StatusText(s) == StatusText(t) <==> s == t
  {
  }

  // ---------------------------------------------------------------------
  // The output row

  /** One output row: every column but the first may be null. */
  datatype Row = Row(
    xid: Xid,
    status: Option<string>,
    parentXid: Option<Xid>,
    topParentXid: Option<Xid>,
    sublevel: Option<int>,
    commitTs: Option<TimestampTz>)

  /** A cell of the `values` array; `Unset` stands for a cell never written. */
  datatype Datum =
    | Unset
    | XidDatum(x: Xid)
    | TextDatum(text: string)
    | Int32Datum(i: Int32)
    | TimestampDatum(ts: TimestampTz)

  /** The row that tuplestore_putvalues stores for the given cells. */
  function RowOf(values: seq<Datum>, nulls: seq<bool>): Row
    requires |values| == 6 && |nulls| == 6
    requires !nulls[0] && values[0].XidDatum?
    requires !nulls[1] ==> values[1].TextDatum?
    requires !nulls[2] ==> values[2].XidDatum?
    requires !nulls[3] ==> values[3].XidDatum?
    requires !nulls[4] ==> values[4].Int32Datum?
    requires !nulls[5] ==> values[5].TimestampDatum?
  {
    Row(values[0].x,
        if nulls[1] then None else Some(values[1].text),
        if nulls[2] then None else Some(values[2].x),
        if nulls[3] then None else Some(values[3].x),
        if nulls[4] then None else Some(values[4].i),
        if nulls[5] then None else Some(values[5].ts))
  }

  /** The row with only the id: the status is not determinable. */
  function UnresolvedRow(xid: Xid): Row
  {
    Row(xid, None, None, None, None, None)
  }

  /**
   * The row for a determinable id whose ancestry walk took `hops` hops and
   * returned `top` (sublevel starts at -1).
   */
  function ResolvedRow(env: Env, xid: Xid, hops: nat, top: Xid): Row
  {
    var parent := env.subtransParent(xid);
    var status := Disposition(env, xid);
    var hasTop := IsValid(top) && top != xid;
    Row(xid,
        Some(StatusText(status)),
        if IsValid(parent) then Some(parent) else None,
        if hasTop then Some(top) else None,
        if hasTop then Some(hops - 1) else None,
        if status == Committed && env.trackCommitTimestamp then env.commitTimestamp(xid) else None)
  }

  /** The lower bound checked by assertion-enabled builds. */
  function XminBound(env: Env): (b: FullXid)
    ensures EpochOf(b) == EpochOf(env.nextFullXid) && XidOf(b) == env.transactionXmin
  {
    MakeFullXid(EpochOf(env.nextFullXid), env.transactionXmin)
  }

  /** The bound is built like the argument's id, `now_epoch << 32 | TransactionXmin`. */
  lemma XminBoundIsShiftedOr(env: Env)
    ensures XminBound(env) == Or(EpochOf(env.nextFullXid) * XidSpace, env.transactionXmin)
  {
    ShiftedOr(EpochOf(env.nextFullXid), env.transactionXmin);
  }

  /** The walk fails at hop n and `r` reports it. */
  ghost predicate CorruptResult(env: Env, xid: Xid, n: nat, r: Result<Row>)
  {
    WalkCorruptAt(env, xid, n)
    && r == Err(CorruptSubtrans(Ancestor(env, xid, n), Ancestor(env, xid, n + 1)))
  }

  /** The walk ends after n hops on `top` and `r` is the row built from it. */
  ghost predicate ResolvedResult(env: Env, xid: Xid, n: nat, top: Xid, r: Result<Row>)
  {
    WalkEnds(env, xid, n, top) && r == Ok(ResolvedRow(env, xid, n, top))
  }

  /** What one call of pg_subtrans_infos with argument `arg` yields. */
  ghost predicate InfosSpec(env: Env, arg: Int64, r: Result<Row>)
  {
    var fxid := ArgumentFullXid(EpochOf(env.nextFullXid), arg);
    if env.assertChecking && fxid < XminBound(env) then
      r == Err(XidBelowXmin(XminBound(env)))
    else
      match InRecentPast(env, fxid)
      case Err(e) => r == Err(e)
      case Ok(lookup) =>
        if !lookup.recent then r == Ok(UnresolvedRow(lookup.xid))
        else RecentResult(env, lookup.xid, r)
  }

  /** The result for a determinable id: the walk fails, or it ends and the row is built. */
  ghost predicate RecentResult(env: Env, xid: Xid, r: Result<Row>)
  {
    (exists n: nat :: CorruptResult(env, xid, n, r))
    || (exists n: nat, top: Xid :: ResolvedResult(env, xid, n, top, r))
  }

  /**
   * pg_subtrans_infos: builds the id, checks it, walks the ancestry, resolves
   * the status and fills the six cells of the output row.
   */
  method PgSubtransInfos(env: Env, arg: Int64) returns (r: Result<Row>)
    requires IsNormal(env.transactionXmin)
    ensures InfosSpec(env, arg, r)
  {
    var values := new Datum[6](_ => Unset);
    var nulls := new bool[6](_ => false);
    var nowEpoch := EpochOf(env.nextFullXid);
    var fxid := ArgumentFullXid(nowEpoch, arg);
    if env.assertChecking && fxid < XminBound(env) {
      return Err(XidBelowXmin(XminBound(env)));
    }
    nulls[4] := true;
    nulls[5] := true;

    var lookup := InRecentPast(env, fxid);
    if lookup.Err? {
      return Err(lookup.error);
    }
    var xid := lookup.value.xid;
    var status: Option<Status>;
    ghost var expected := UnresolvedRow(xid);
    ghost var hops: nat, top: Xid := 0, xid;
    if lookup.value.recent {
      var resolved;
      resolved, hops, top := DescribeRecent(env, xid, values, nulls);
      if resolved.Err? {
        return Err(resolved.error);
      }
      expected := ResolvedRow(env, xid, hops, top);
      status := Some(resolved.value);
    } else {
      status := None;
    }
    var row := FinishRow(xid, status, expected, values, nulls);
    r := Ok(row);
    if lookup.value.recent {
      assert ResolvedResult(env, xid, hops, top, r);
    }
  }

  /**
   * The common tail of pg_subtrans_infos: cell 0, the status cell, the nulls
   * of an undeterminable id, and the row the cells make up.
   */
  method FinishRow(xid: Xid, status: Option<Status>, ghost expected: Row,
                   values: array<Datum>, nulls: array<bool>) returns (row: Row)
    requires values.Length == 6 && nulls.Length == 6
    requires expected.xid == xid && !nulls[0] && !nulls[1]
    requires status.None? ==> expected == UnresolvedRow(xid)
    requires status.Some? ==> expected.status == Some(StatusText(status.value))
    requires status.Some? ==> forall i :: 2 <= i < 6 ==> CellMatches(values[..], nulls[..], i, expected)
    modifies values, nulls
    ensures forall i :: 0 <= i < 6 ==> CellMatches(values[..], nulls[..], i, expected)
    ensures !nulls[0] && values[0].XidDatum?
    ensures !nulls[1] ==> values[1].TextDatum?
    ensures !nulls[2] ==> values[2].XidDatum?
    ensures !nulls[3] ==> values[3].XidDatum?
    ensures !nulls[4] ==> values[4].Int32Datum?
    ensures !nulls[5] ==> values[5].TimestampDatum?
    ensures row == RowOf(values[..], nulls[..]) && row == expected
  {
    ghost var cells, flags := values[..], nulls[..];
    if status.None? {
      nulls[1] := true;
      nulls[2] := true;
      nulls[3] := true;
      nulls[4] := true;
      nulls[5] := true;
    } else {
      values[1] := TextDatum(StatusText(status.value));
    }
    values[0] := XidDatum(xid);
    ghost var cells', flags' := values[..], nulls[..];
    if status.Some? {
      assert CellMatches(cells, flags, 2, expected) && CellMatches(cells, flags, 3, expected);
      assert CellMatches(cells, flags, 4, expected) && CellMatches(cells, flags, 5, expected);
      CellUnchanged(cells, flags, cells', flags', 2, expected);
      CellUnchanged(cells, flags, cells', flags', 3, expected);
      CellUnchanged(cells, flags, cells', flags', 4, expected);
      CellUnchanged(cells, flags, cells', flags', 5, expected);
    }
    assert CellMatches(cells', flags', 0, expected) && CellMatches(cells', flags', 1, expected);
    RowOfMatches(cells', flags', expected);
    row := RowOf(values[..], nulls[..]);
  }

  /**
   * The part of pg_subtrans_infos run for a determinable id: the parent
   * lookup, the ancestry walk, cells 2 to 5 and the status.
   */
  method DescribeRecent(env: Env, xid: Xid, values: array<Datum>, nulls: array<bool>)
      returns (r: Result<Status>, ghost hops: nat, ghost top: Xid)
    requires values.Length == 6 && nulls.Length == 6
    requires IsNormal(env.transactionXmin) && IsValid(xid)
    requires !nulls[2] && !nulls[3] && nulls[4] && nulls[5]
    modifies values, nulls
    ensures r.Err? ==> exists n: nat :: CorruptResult(env, xid, n, Err(r.error))
    ensures r.Ok? ==> r.value == Disposition(env, xid) && WalkEnds(env, xid, hops, top)
    ensures r.Ok? ==> forall i :: 2 <= i < 6 ==>
      CellMatches(values[..], nulls[..], i, ResolvedRow(env, xid, hops, top))
    ensures forall i :: 0 <= i < 2 ==> values[i] == old(values[i]) && nulls[i] == old(nulls[i])
  {
    var parentXid := env.subtransParent(xid);
    var walk, sublevel := GetTopParent(env, xid, -1);
    if walk.Err? {
      ghost var n: nat :| WalkCorruptAt(env, xid, n)
        && walk.error == CorruptSubtrans(Ancestor(env, xid, n), Ancestor(env, xid, n + 1));
      assert CorruptResult(env, xid, n, Err(walk.error));
      return Err(walk.error), 0, xid;
    }
    var topParentXid := walk.value;
    hops, top := sublevel + 1, topParentXid;
    FillAncestry(env, xid, parentXid, topParentXid, sublevel, values, nulls);
    ghost var cells, flags := values[..], nulls[..];
    var status := ResolveStatus(env, xid, values, nulls);
    r := Ok(status);
    ghost var expected := ResolvedRow(env, xid, hops, top);
    CellUnchanged(cells, flags, values[..], nulls[..], 2, expected);
    CellUnchanged(cells, flags, values[..], nulls[..], 3, expected);
    CellUnchanged(cells, flags, values[..], nulls[..], 4, expected);
  }

  /**
   * Cells 2 to 4: the parent, and the top parent with its sublevel unless the
   * walk returned the id itself.
   */
  method FillAncestry(env: Env, xid: Xid, parentXid: Xid, topParentXid: Xid, sublevel: int,
                      values: array<Datum>, nulls: array<bool>)
    requires values.Length == 6 && nulls.Length == 6
    requires IsNormal(env.transactionXmin) && IsValid(xid)
    requires parentXid == env.subtransParent(xid)
    requires sublevel >= -1 && WalkEnds(env, xid, sublevel + 1, topParentXid)
    requires !nulls[2] && !nulls[3] && nulls[4]
    modifies values, nulls
    ensures var expected := ResolvedRow(env, xid, sublevel + 1, topParentXid);
      CellMatches(values[..], nulls[..], 2, expected)
      && CellMatches(values[..], nulls[..], 3, expected)
      && CellMatches(values[..], nulls[..], 4, expected)
    ensures forall i :: 0 <= i < 6 && i !in {2, 3, 4} ==> values[i] == old(values[i]) && nulls[i] == old(nulls[i])
  {
    if !IsValid(parentXid) {
      nulls[2] := true;
    } else {
      values[2] := XidDatum(parentXid);
    }
    if !IsValid(topParentXid) || topParentXid == xid {
      nulls[3] := true;
    } else {
      SublevelFits(env, xid, sublevel + 1, topParentXid);
      values[3] := XidDatum(topParentXid);
      values[4] := Int32Datum(sublevel);
      nulls[4] := false;
    }
  }

  /**
   * The status cascade, and cell 5: the commit timestamp of a committed id when
   * tracking is on and one was recorded.
   */
  method ResolveStatus(env: Env, xid: Xid, values: array<Datum>, nulls: array<bool>) returns (status: Status)
    requires values.Length == 6 && nulls.Length == 6
    requires nulls[5]
    modifies values, nulls
    ensures status == Disposition(env, xid)
    ensures forall hops: nat, top: Xid :: CellMatches(values[..], nulls[..], 5, ResolvedRow(env, xid, hops, top))
    ensures forall i :: 0 <= i < 5 ==> values[i] == old(values[i]) && nulls[i] == old(nulls[i])
  {
    if env.isCurrentTransaction(xid) {
      status := InProgress;
    } else if env.didCommit(xid) {
      status := Committed;
      var found := false;
      var ts: TimestampTz := 0;
      if env.trackCommitTimestamp {
        match env.commitTimestamp(xid)
        case Some(t) => found, ts := true, t;
        case None => found := false;
      }
      if found {
        values[5] := TimestampDatum(ts);
        nulls[5] := false;
      }
    } else if env.didAbort(xid) {
      status := Aborted;
    } else if Precedes(xid, env.snapshotXmin) {
      status := Aborted;
    } else {
      status := InProgress;
    }
  }

  /** Cell i of the arrays holds column i of `row` (null exactly when the column is). */
  ghost predicate CellMatches(values: seq<Datum>, nulls: seq<bool>, i: nat, row: Row)
    requires |values| == 6 && |nulls| == 6 && i < 6
  {
    match i
    case 0 => !nulls[0] && values[0] == XidDatum(row.xid)
    case 1 => nulls[1] == row.status.None? && (row.status.Some? ==> values[1] == TextDatum(row.status.value))
    case 2 => nulls[2] == row.parentXid.None? && (row.parentXid.Some? ==> values[2] == XidDatum(row.parentXid.value))
    case 3 => nulls[3] == row.topParentXid.None? && (row.topParentXid.Some? ==> values[3] == XidDatum(row.topParentXid.value))
    case 4 => nulls[4] == row.sublevel.None? && (row.sublevel.Some? ==> values[4].Int32Datum? && values[4].i == row.sublevel.value)
    case 5 => nulls[5] == row.commitTs.None? && (row.commitTs.Some? ==> values[5] == TimestampDatum(row.commitTs.value))
  }

  lemma CellUnchanged(values: seq<Datum>, nulls: seq<bool>, values': seq<Datum>, nulls': seq<bool>, i: nat, row: Row)
    requires |values| == 6 && |nulls| == 6 && |values'| == 6 && |nulls'| == 6 && i < 6
    requires CellMatches(values, nulls, i, row)
    requires values'[i] == values[i] && nulls'[i] == nulls[i]
    ensures CellMatches(values', nulls', i, row)
  {
  }

  lemma RowOfMatches(values: seq<Datum>, nulls: seq<bool>, row: Row)
    requires |values| == 6 && |nulls| == 6
    requires CellMatches(values, nulls, 0, row) && CellMatches(values, nulls, 1, row)
    requires CellMatches(values, nulls, 2, row) && CellMatches(values, nulls, 3, row)
    requires CellMatches(values, nulls, 4, row) && CellMatches(values, nulls, 5, row)
    ensures !nulls[0] && values[0].XidDatum?
    ensures !nulls[1] ==> values[1].TextDatum?
    ensures !nulls[2] ==> values[2].XidDatum?
    ensures !nulls[3] ==> values[3].XidDatum?
    ensures !nulls[4] ==> values[4].Int32Datum?
    ensures !nulls[5] ==> values[5].TimestampDatum?
    ensures RowOf(values, nulls) == row
  {
  }

  // ---------------------------------------------------------------------
  // Properties of the result

  /** The call is a function of the engine state and the argument. */
  lemma InfosDeterministic(env: Env, arg: Int64, r1: Result<Row>, r2: Result<Row>)
    requires InfosSpec(env, arg, r1) && InfosSpec(env, arg, r2)
    ensures r1 == r2
  {
    var fxid := ArgumentFullXid(EpochOf(env.nextFullXid), arg);
    if !(env.assertChecking && fxid < XminBound(env)) && InRecentPast(env, fxid).Ok? {
      var xid := InRecentPast(env, fxid).value.xid;
      if InRecentPast(env, fxid).value.recent {
        if n1: nat :| CorruptResult(env, xid, n1, r1) {
          if n2: nat :| CorruptResult(env, xid, n2, r2) {
            WalkOutcomeExclusive(env, xid, n1, n2);
          } else {
            var m: nat, t: Xid :| ResolvedResult(env, xid, m, t, r2);
            WalkOutcomeExclusive(env, xid, n1, m);
          }
        } else {
          var m1: nat, t1: Xid :| ResolvedResult(env, xid, m1, t1, r1);
          if n2: nat :| CorruptResult(env, xid, n2, r2) {
            WalkOutcomeExclusive(env, xid, n2, m1);
          } else {
            var m2: nat, t2: Xid :| ResolvedResult(env, xid, m2, t2, r2);
            WalkDeterministic(env, xid, m1, t1, m2, t2);
          }
        }
      }
    }
  }

  /** The nullability rules of the output row. */
  lemma RowNullability(env: Env, arg: Int64, row: Row)
    requires InfosSpec(env, arg, Ok(row))
    ensures row.xid == arg % XidSpace
    ensures row.status.None? ==>
      row.parentXid.None? && row.topParentXid.None? && row.sublevel.None? && row.commitTs.None?
    ensures row.status.Some? ==>
      (row.parentXid.None? <==> !IsValid(env.subtransParent(row.xid)))
    ensures row.parentXid.Some? ==> row.parentXid.value == env.subtransParent(row.xid)
    ensures row.topParentXid.Some? ==> IsValid(row.topParentXid.value) && row.topParentXid.value != row.xid
    ensures row.sublevel.Some? <==> row.topParentXid.Some?
    ensures row.commitTs.Some? ==>
      row.status == Some(StatusText(Committed)) && env.trackCommitTimestamp
      && env.commitTimestamp(row.xid) == row.commitTs
    ensures (row.status.Some? && !env.isCurrentTransaction(row.xid) && env.didCommit(row.xid)
             && env.trackCommitTimestamp) ==>
      row.commitTs == env.commitTimestamp(row.xid)
  {
    var fxid := ArgumentFullXid(EpochOf(env.nextFullXid), arg);
    if row.status.Some? && !(env.assertChecking && fxid < XminBound(env)) {
      var n: nat, top: Xid :| ResolvedResult(env, row.xid, n, top, Ok(row));
    }
  }

  /**
   * A shown top parent and its sublevel: if the top parent lies inside the
   * window, the walk ended on its invalid parent and the top parent is exactly
   * `sublevel` hops above the id; if it precedes TransactionXmin, it is
   * `sublevel + 1` hops above. Each hop went to a strictly preceding id.
   */
  lemma AncestryChain(env: Env, arg: Int64, row: Row)
    requires InfosSpec(env, arg, Ok(row))
    requires row.topParentXid.Some?
    ensures row.sublevel.Some? && row.sublevel.value >= 0
    ensures var top, s := row.topParentXid.value, row.sublevel.value;
      !Precedes(top, env.transactionXmin) ==>
        top == Ancestor(env, row.xid, s) && !IsValid(env.subtransParent(top))
    ensures var top, s := row.topParentXid.value, row.sublevel.value;
      Precedes(top, env.transactionXmin) ==> top == Ancestor(env, row.xid, s + 1)
    ensures forall i :: 0 <= i < row.sublevel.value ==>
      Precedes(Ancestor(env, row.xid, i + 1), Ancestor(env, row.xid, i))
    ensures Precedes(row.topParentXid.value, env.transactionXmin) ==>
      Precedes(Ancestor(env, row.xid, row.sublevel.value + 1), Ancestor(env, row.xid, row.sublevel.value))
  {
    var xid := row.xid;
    var n: nat, top: Xid :| ResolvedResult(env, xid, n, top, Ok(row));
    WalkResultPosition(env, xid, n, top);
    if Precedes(top, env.transactionXmin) {
      HopAt(env, xid, n, n - 1);
    }
  }

  /**
   * The top-parent column for a walk that ended on `top` after n hops: null
   * exactly when `top` is invalid or the id itself, otherwise `top` with
   * sublevel n - 1.
   */
  lemma TopParentColumn(env: Env, arg: Int64, row: Row, n: nat, top: Xid)
    requires InfosSpec(env, arg, Ok(row)) && row.status.Some?
    requires WalkEnds(env, row.xid, n, top)
    ensures row.topParentXid.None? <==> !IsValid(top) || top == row.xid
    ensures row.topParentXid.Some? ==> row.topParentXid.value == top && row.sublevel == Some(n - 1)
  {
    var m: nat, t: Xid :| ResolvedResult(env, row.xid, m, t, Ok(row));
    WalkDeterministic(env, row.xid, m, t, n, top);
  }

  /** The invalid id gives a row with only column 0, and no error. */
  lemma InvalidXidRow(env: Env, arg: Int64, r: Result<Row>)
    requires arg % XidSpace == InvalidXid
    requires !(env.assertChecking && ArgumentFullXid(EpochOf(env.nextFullXid), arg) < XminBound(env))
    requires InfosSpec(env, arg, r)
    ensures r == Ok(UnresolvedRow(InvalidXid))
  {
  }

  /** A normal id at or beyond the next id raises the future-id error. */
  lemma FutureXidNoRow(env: Env, arg: Int64, r: Result<Row>)
    requires var fxid := ArgumentFullXid(EpochOf(env.nextFullXid), arg);
      IsNormal(XidOf(fxid)) && fxid >= env.nextFullXid
      && !(env.assertChecking && fxid < XminBound(env))
    requires InfosSpec(env, arg, r)
    ensures r == Err(XidInFuture(ArgumentFullXid(EpochOf(env.nextFullXid), arg)))
  {
  }

  /** A normal id preceding oldestClogXid gives a null status. */
  lemma TruncatedXidNullStatus(env: Env, arg: Int64, r: Result<Row>)
    requires var fxid := ArgumentFullXid(EpochOf(env.nextFullXid), arg);
      IsNormal(XidOf(fxid)) && fxid < env.nextFullXid
      && Precedes(XidOf(fxid), env.oldestClogXid)
      && !(env.assertChecking && fxid < XminBound(env))
    requires InfosSpec(env, arg, r)
    ensures r.Ok? && r.value.status.None?
  {
  }

  /**
   * A determinable id yields exactly one of the three status texts, the one
   * the cascade selects.
   */
  lemma ResolvedStatus(env: Env, arg: Int64, row: Row)
    requires InfosSpec(env, arg, Ok(row))
    requires InRecentPast(env, ArgumentFullXid(EpochOf(env.nextFullXid), arg)).Ok?
    requires InRecentPast(env, ArgumentFullXid(EpochOf(env.nextFullXid), arg)).value.recent
    ensures row.status == Some(StatusText(Disposition(env, row.xid)))
    ensures forall s: Status :: row.status == Some(StatusText(s)) <==> s == Disposition(env, row.xid)
  {
    forall s: Status {
      StatusTextsDistinct(s, Disposition(env, row.xid));
    }
    var fxid := ArgumentFullXid(EpochOf(env.nextFullXid), arg);
    if !(env.assertChecking && fxid < XminBound(env)) {
      var xid := InRecentPast(env, fxid).value.xid;
      var n: nat, top: Xid :| ResolvedResult(env, xid, n, top, Ok(row));
    }
  }
}
