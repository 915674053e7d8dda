/**
 * Transaction-id arithmetic of the host engine: 32-bit transaction ids with
 * their special values and wraparound-aware order, 64-bit "full" ids made of an
 * epoch and a 32-bit id, and the bitwise OR that the caller uses to glue an
 * epoch onto a 32-bit argument.
 */
module Transam {

  /** Number of distinct 32-bit transaction ids. */
  const XidSpace: int := 0x1_0000_0000
  /** Half of the id circle: ids closer than this are ordered by "precedes". */
  const HalfXidSpace: int := 0x8000_0000

  /** uint32 TransactionId. */
  type Xid = x: int | 0 <= x < 0x1_0000_0000
  /** uint64, the representation of a FullTransactionId. */
  type FullXid = x: int | 0 <= x < 0x1_0000_0000_0000_0000
  /** int64, the SQL argument type. */
  type Int64 = x: int | -0x8000_0000_0000_0000 <= x < 0x8000_0000_0000_0000

  const InvalidXid: Xid := 0
  const BootstrapXid: Xid := 1
  const FrozenXid: Xid := 2
  const FirstNormalXid: Xid := 3

  /** TransactionIdIsValid */
  predicate IsValid(x: Xid) { x != InvalidXid }

  /** TransactionIdIsNormal */
  predicate IsNormal(x: Xid) { x >= FirstNormalXid }

  /** `(int32) d`: the 32-bit two's-complement reading of the integer d. */
  function Int32Of(d: int): (r: int)
    ensures -HalfXidSpace <= r < HalfXidSpace
    ensures (d - r) % XidSpace == 0
  {
    var m := d % XidSpace;
    if m >= HalfXidSpace then m - XidSpace else m
  }

  /**
   * TransactionIdPrecedes: plain order when either id is special, otherwise
   * the 32-bit difference `a - b` read as a signed int32 is negative.
   */
  predicate Precedes(a: Xid, b: Xid): (p: bool)
    ensures !IsNormal(a) || !IsNormal(b) ==> (p <==> a < b)
    ensures IsNormal(a) && IsNormal(b) ==> (p <==> Int32Of(a - b) < 0)
  {
    if !IsNormal(a) || !IsNormal(b) then a < b
    else (a - b) % XidSpace >= HalfXidSpace
  }

  /** How far `x` lies ahead of `base` on the 32-bit id circle. */
  function Distance(x: Xid, base: Xid): (d: nat)
    ensures d < XidSpace
  {
    (x - base) % XidSpace
  }

  /**
   * Between two normal ids the modular order is a strict order on each window
   * of half the circle: no normal id precedes itself, and two ids never
   * precede each other unless they are exactly half the circle apart.
   */
  lemma {:induction false} PrecedesAsymmetric(a: Xid, b: Xid)
    requires IsNormal(a) && IsNormal(b)
    ensures !Precedes(a, a)
    ensures Precedes(a, b) && Precedes(b, a) <==> (a - b == HalfXidSpace || b - a == HalfXidSpace)
  {
    if a < b {
      assert (a - b) % XidSpace == a - b + XidSpace;
      assert (b - a) % XidSpace == b - a;
    } else if b < a {
      assert (b - a) % XidSpace == b - a + XidSpace;
      assert (a - b) % XidSpace == a - b;
    }
  }

  /**
   * The termination measure of the ancestry walk. With a normal lower bound
   * `xmin`, a step from an id `p` that does not precede `xmin` to an id `q`
   * that precedes `p` either leaves the window (q precedes xmin) or gets
   * strictly closer to xmin.
   */
  lemma {:induction false} StepShrinksDistance(xmin: Xid, p: Xid, q: Xid)
    requires IsNormal(xmin) && IsValid(p)
    requires !Precedes(p, xmin) && Precedes(q, p) && !Precedes(q, xmin)
    ensures Distance(q, xmin) < Distance(p, xmin)
  {
    // a special q would precede the normal xmin, and q precedes p, so both are normal
    assert IsNormal(q) && IsNormal(p);
    var dp := Distance(p, xmin);
    var dq := Distance(q, xmin);
    assert dp < HalfXidSpace && dq < HalfXidSpace;
    assert p == if xmin + dp < XidSpace then xmin + dp else xmin + dp - XidSpace;
    assert q == if xmin + dq < XidSpace then xmin + dq else xmin + dq - XidSpace;
    // q - p and dq - dp agree modulo the id space
    assert (q - p) % XidSpace == (dq - dp) % XidSpace;
  }

  /**
   * With a special lower bound the walk's measure fails: the normal ids 3 and
   * 3 + 2^31 precede each other and neither precedes xmin, so a parent map
   * linking them to each other is never rejected.
   */
  lemma SpecialXminAdmitsCycle(xmin: Xid)
    requires !IsNormal(xmin)
    ensures var a, b := FirstNormalXid, FirstNormalXid + HalfXidSpace;
      Precedes(a, b) && Precedes(b, a) && !Precedes(a, xmin) && !Precedes(b, xmin)
  {
    PrecedesAsymmetric(FirstNormalXid, FirstNormalXid + HalfXidSpace as Xid);
  }

  // ---------------------------------------------------------------------
  // Full (epoch-qualified) ids

  /** EpochFromFullTransactionId: the high 32 bits. */
  function EpochOf(f: FullXid): (e: Xid)
    ensures e * XidSpace <= f < e * XidSpace + XidSpace
  {
    f / XidSpace
  }

  /** XidFromFullTransactionId: the low 32 bits. */
  function XidOf(f: FullXid): (x: Xid)
    ensures f == EpochOf(f) * XidSpace + x
  {
    f % XidSpace
  }

  /** The 64-bit value with the given high and low halves. */
  function MakeFullXid(epoch: Xid, xid: Xid): (f: FullXid)
    ensures EpochOf(f) == epoch && XidOf(f) == xid
  {
    epoch * XidSpace + xid
  }

  /** Splitting a 64-bit value and re-packing the halves gives it back. */
  lemma SplitRoundTrip(f: FullXid)
    ensures MakeFullXid(EpochOf(f), XidOf(f)) == f
  {
  }

  /**
   * Comparing full ids as 64-bit integers is the lexicographic comparison of
   * (epoch, xid); this is how the future-id test was written for engines
   * without 64-bit full ids.
   */
  lemma {:induction false} FullOrderIsLexicographic(f: FullXid, g: FullXid)
    ensures f >= g <==>
      EpochOf(f) > EpochOf(g) || (EpochOf(f) == EpochOf(g) && XidOf(f) >= XidOf(g))
  {
    SplitRoundTrip(f);
    SplitRoundTrip(g);
    var ef, eg := EpochOf(f), EpochOf(g);
    if ef > eg {
      assert ef * XidSpace >= eg * XidSpace + XidSpace;
    } else if ef < eg {
      assert eg * XidSpace >= ef * XidSpace + XidSpace;
    }
  }

  // ---------------------------------------------------------------------
  // Bitwise OR on unsigned integers

  /** 2^n. */
  function Pow2(n: nat): (p: nat)
    ensures p >= 1
  {
    if n == 0 then 1 else 2 * Pow2(n - 1)
  }

  lemma {:induction false} Pow2Add(m: nat, n: nat)
    ensures Pow2(m + n) == Pow2(m) * Pow2(n)
    decreases m
  {
    if m > 0 {
      Pow2Add(m - 1, n);
    }
  }

  lemma Pow2Facts()
    ensures Pow2(32) == XidSpace
    ensures Pow2(64) == 0x1_0000_0000_0000_0000
    ensures forall e: Xid :: e * Pow2(32) < Pow2(64)
  {
    assert Pow2(4) == 16;
    Pow2Add(4, 4);
    assert Pow2(8) == 0x100;
    Pow2Add(8, 8);
    assert Pow2(16) == 0x1_0000;
    Pow2Add(16, 16);
    assert Pow2(32) == XidSpace;
    Pow2Add(32, 32);
    assert Pow2(64) == 0x1_0000_0000_0000_0000;
    forall e: Xid ensures e * Pow2(32) < Pow2(64) {
      assert e * XidSpace <= (XidSpace - 1) * XidSpace;
    }
  }

  /** Bitwise OR of two naturals, bit by bit from the least significant. */
  function Or(a: nat, b: nat): nat
    decreases a + b
  {
    if a == 0 then b
    else if b == 0 then a
    else 2 * Or(a / 2, b / 2) + (if a % 2 == 1 || b % 2 == 1 then 1 else 0)
  }

  /** OR of two n-bit numbers is an n-bit number. */
  lemma {:induction false} OrBound(a: nat, b: nat, n: nat)
    requires a < Pow2(n) && b < Pow2(n)
    ensures Or(a, b) < Pow2(n)
    decreases n
  {
    if a != 0 && b != 0 {
      assert n > 0;
      OrBound(a / 2, b / 2, n - 1);
    }
  }

  /**
   * `(uint64) high << 32 | low`: stays within 64 bits, keeps the low 32 bits
   * of `low`, and is a plain sum when `low` fits in 32 bits.
   */
  lemma ShiftedOr(high: Xid, low: FullXid)
    ensures Or(high * XidSpace, low) < 0x1_0000_0000_0000_0000
    ensures Or(high * XidSpace, low) % XidSpace == low % XidSpace
    ensures low < XidSpace ==> Or(high * XidSpace, low) == high * XidSpace + low
  {
    Pow2Facts();
    OrBound(high * XidSpace, low, 64);
    OrKeepsLowBits(high, low, 32);
    if low < XidSpace {
      OrDisjoint(high, low, 32);
    }
  }

  /** OR with a value whose set bits are all above bit k adds the two. */
  lemma {:induction false} OrDisjoint(high: nat, low: nat, k: nat)
    requires low < Pow2(k)
    ensures Or(high * Pow2(k), low) == high * Pow2(k) + low
    decreases k
  {
    var x := high * Pow2(k);
    if x != 0 && low != 0 {
      assert k > 0;
      var p := Pow2(k - 1);
      assert x == 2 * (high * p);
      assert x / 2 == high * p && x % 2 == 0;
      OrDisjoint(high, low / 2, k - 1);
      assert Or(x, low) == 2 * (high * p + low / 2) + low % 2;
    }
  }

  /** OR with a value whose set bits are all above bit k keeps the low k bits. */
  lemma {:induction false} OrKeepsLowBits(high: nat, b: nat, k: nat)
    ensures Or(high * Pow2(k), b) % Pow2(k) == b % Pow2(k)
    decreases k
  {
    var x := high * Pow2(k);
    if k > 0 && x != 0 && b != 0 {
      var p := Pow2(k - 1);
      assert x == 2 * (high * p);
      assert x / 2 == high * p && x % 2 == 0;
      OrKeepsLowBits(high, b / 2, k - 1);
      var r := Or(high * p, b / 2);
      assert Or(x, b) == 2 * r + b % 2;
      ModDouble(r, b % 2, p);
      ModDouble(b / 2, b % 2, p);
    } else if x == 0 {
      OrZero(b);
    } else if k == 0 {
      ModUnique(Or(x, b), 1, Or(x, b), 0);
      ModUnique(b, 1, b, 0);
    } else {
      assert x == high * (2 * Pow2(k - 1));
      ModUnique(x, Pow2(k), high, 0);
    }
  }

  /** Zero is the neutral element of OR. */
  lemma OrZero(a: nat)
    ensures Or(a, 0) == a && Or(0, a) == a
  {
  }

  lemma {:induction false} MulAtLeast(k: int, d: int)
    requires k >= 1 && d > 0
    ensures k * d >= d
    decreases k
  {
    if k > 1 {
      MulAtLeast(k - 1, d);
      assert k * d == (k - 1) * d + d;
    }
  }

  /** Euclidean division is determined by quotient and remainder. */
  lemma ModUnique(a: int, d: int, q: int, m: int)
    requires d > 0 && a == q * d + m && 0 <= m < d
    ensures a % d == m && a / d == q
  {
    var q', m' := a / d, a % d;
    assert (q - q') * d == m' - m;
    if q - q' >= 1 {
      MulAtLeast(q - q', d);
    } else if q' - q >= 1 {
      MulAtLeast(q' - q, d);
    }
  }

  lemma ModDouble(r: nat, bit: nat, p: nat)
    requires bit < 2 && p > 0
    ensures (2 * r + bit) % (2 * p) == 2 * (r % p) + bit
  {
    var q, m := r / p, r % p;
    assert r == q * p + m;
    assert 2 * r + bit == q * (2 * p) + (2 * m + bit);
    ModUnique(2 * r + bit, 2 * p, q, 2 * m + bit);
  }
}
