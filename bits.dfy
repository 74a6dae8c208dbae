/** Non-negative integers as bit strings: powers of two, `&` and the low-bit masks the
    NAND fractals use. */
module Bits {

  /** `1 << k`. */
  function Pow2(k: nat): (r: nat)
    ensures r >= 1
  {
    if k == 0 then 1 else 2 * Pow2(k - 1)
  }

  /** Euclidean division is determined by its quotient and remainder. */
  lemma DivUnique(a: int, m: int, q: int, r: int)
    requires m > 0 && a == m * q + r && 0 <= r < m
    ensures a / m == q && a % m == r
  {
    var q' := a / m;
    var r' := a % m;
    assert m * (q - q') == r' - r;
    if q - q' >= 1 {
      assert false;
    } else if q - q' <= -1 {
      assert false;
    }
  }

  /** `a & b` for non-negative ints, bit by bit from the least significant. */
  function BitAnd(a: nat, b: nat): nat
  {
    if a == 0 || b == 0 then 0
    else 2 * BitAnd(a / 2, b / 2) + (if a % 2 == 1 && b % 2 == 1 then 1 else 0)
  }

  /** `(1 << d) - 1`: the low d bits set. */
  function Mask(d: nat): nat
  {
    Pow2(d) - 1
  }

  /** The fractals' overlap test `(x & mask) & (y & mask)`, with mask = `(1 << d) - 1`. */
  function Overlap(x: nat, y: nat, d: nat): nat
  {
    BitAnd(BitAnd(x, Mask(d)), BitAnd(y, Mask(d)))
  }

  /** Reference definition: no bit position below d is set in both x and y. */
  predicate LowBitsDisjoint(x: nat, y: nat, d: nat)
  {
    d == 0 || (!(x % 2 == 1 && y % 2 == 1) && LowBitsDisjoint(x / 2, y / 2, d - 1))
  }

  lemma {:induction false} BitAndCommutes(a: nat, b: nat)
    ensures BitAnd(a, b) == BitAnd(b, a)
  {
    if a != 0 && b != 0 {
      BitAndCommutes(a / 2, b / 2);
    }
  }

  /** Masking with the low d bits keeps the last bit and masks the rest with d - 1 bits. */
  lemma MaskStep(x: nat, d: nat)
    requires d > 0
    ensures Mask(d) % 2 == 1 && Mask(d) / 2 == Mask(d - 1)
    ensures BitAnd(x, Mask(d)) % 2 == x % 2
    ensures BitAnd(x, Mask(d)) / 2 == BitAnd(x / 2, Mask(d - 1))
  {
  }

  /** `a & b == 0` is decided by the last bits and the rest. */
  lemma BitAndZeroStep(a: nat, b: nat)
    ensures BitAnd(a, b) == 0 <==> !(a % 2 == 1 && b % 2 == 1) && BitAnd(a / 2, b / 2) == 0
  {
    if a == 0 || b == 0 {
      ZeroAnd(a / 2, b / 2);
    }
  }

  lemma ZeroAnd(a: nat, b: nat)
    requires a == 0 || b == 0
    ensures BitAnd(a, b) == 0
  {
  }

  /** The fractal test agrees with the reference: `(x & mask) & (y & mask) == 0` exactly when
      the low d bits of x and y are disjoint. */
  lemma {:induction false} OverlapZeroIffDisjoint(x: nat, y: nat, d: nat)
    ensures Overlap(x, y, d) == 0 <==> LowBitsDisjoint(x, y, d)
  {
    if d == 0 {
      assert Mask(0) == 0;
      ZeroAnd(x, 0);
      ZeroAnd(y, 0);
      ZeroAnd(0, 0);
    } else {
      MaskStep(x, d);
      MaskStep(y, d);
      BitAndZeroStep(BitAnd(x, Mask(d)), BitAnd(y, Mask(d)));
      OverlapZeroIffDisjoint(x / 2, y / 2, d - 1);
    }
  }

  lemma {:induction false} DisjointSymmetric(x: nat, y: nat, d: nat)
    ensures LowBitsDisjoint(x, y, d) == LowBitsDisjoint(y, x, d)
  {
    if d > 0 {
      DisjointSymmetric(x / 2, y / 2, d - 1);
    }
  }

  lemma {:induction false} DisjointWithZero(y: nat, d: nat)
    ensures LowBitsDisjoint(0, y, d)
  {
    if d > 0 {
      DisjointWithZero(y / 2, d - 1);
    }
  }

  /** Bits at position d and above do not matter: adding `1 << d` to x changes nothing. */
  lemma {:induction false} DisjointPeriodic(x: nat, y: nat, d: nat)
    ensures LowBitsDisjoint(x + Pow2(d), y, d) == LowBitsDisjoint(x, y, d)
  {
    if d > 0 {
      assert (x + Pow2(d)) % 2 == x % 2;
      assert (x + Pow2(d)) / 2 == x / 2 + Pow2(d - 1);
      DisjointPeriodic(x / 2, y / 2, d - 1);
    }
  }
}
