/** Primality: the mathematical definition and the two trial-division loops the repository uses. */
module Primality {

  /** n is prime: at least 2 and no divisor strictly between 1 and n. */
  predicate IsPrime(n: int)
  {
    n >= 2 && forall d :: 2 <= d < n ==> n % d != 0
  }

  lemma MulMonotone(a: int, b: int, c: int, d: int)
    requires 0 <= a <= c && 0 <= b <= d
    ensures a * b <= c * d
  {
    assert a * b <= c * b;
    assert c * b <= c * d;
  }

  /** A multiple of m leaves remainder 0. */
  lemma MultipleMod(m: int, k: int)
    requires m > 0
    ensures (m * k) % m == 0
  {
    var q := (m * k) / m;
    var r := (m * k) % m;
    assert m * k == m * q + r;
    assert m * (k - q) == r;
    if k - q >= 1 {
      assert false;
    } else if k - q <= -1 {
      assert false;
    }
  }

  /** If d divides n and m divides d, then m divides n. */
  lemma DivisorOfDivisor(n: int, d: int, m: int)
    requires d > 0 && m > 0 && n % d == 0 && d % m == 0
    ensures n % m == 0
  {
    var q := n / d;
    var r := d / m;
    assert n == d * q;
    assert d == m * r;
    assert n == m * (r * q);
    MultipleMod(m, r * q);
  }

  /** A divisor d of n with 2 <= d < n has a cofactor that is also a divisor in that range. */
  lemma Cofactor(n: int, d: int) returns (e: int)
    requires 2 <= d < n && n % d == 0
    ensures 2 <= e && n % e == 0 && d * e == n
  {
    e := n / d;
    assert n == d * e;
    if e <= 1 {
      if e >= 0 {
        MulMonotone(d, e, d, 1);
      } else {
        assert false;
      }
    }
    assert n == e * d;
    MultipleMod(e, d);
  }

  /** No divisor below k, and k * k > n: then n is prime. */
  lemma NoSmallDivisorMeansPrime(n: int, k: int)
    requires n >= 2 && k >= 2 && k * k > n
    requires forall d :: 2 <= d < k ==> n % d != 0
    ensures IsPrime(n)
  {
    forall d | 2 <= d < n ensures n % d != 0 {
      if n % d == 0 {
        var e := Cofactor(n, d);
        if d >= k && e >= k {
          MulMonotone(k, k, d, e);
        }
      }
    }
  }

  /** Of 6k-1 .. 6k+4 only 6k-1 and 6k+1 can divide a number that 2 and 3 do not divide. */
  lemma SixKWindow(n: int, i: int, k: nat)
    requires i == 6 * k + 5 && n % 2 != 0 && n % 3 != 0
    requires n % i != 0 && n % (i + 2) != 0
    ensures forall d :: i <= d < i + 6 ==> n % d != 0
  {
    NoMultipleDivides(n, 2, 3 * k + 3);
    NoMultipleDivides(n, 2, 3 * k + 4);
    NoMultipleDivides(n, 2, 3 * k + 5);
    NoMultipleDivides(n, 3, 2 * k + 3);
  }

  /** When m does not divide n, no multiple of m does. */
  lemma NoMultipleDivides(n: int, m: int, q: int)
    requires m > 0 && q > 0 && n % m != 0
    ensures n % (m * q) != 0
  {
    if n % (m * q) == 0 {
      MultipleMod(m, q);
      DivisorOfDivisor(n, m * q, m);
    }
  }

  /** 2 and 3 do not divide n, so nothing in 2 .. 4 does. */
  lemma BelowFive(n: int)
    requires n % 2 != 0 && n % 3 != 0
    ensures forall d :: 2 <= d < 5 ==> n % d != 0
  {
    if n % 4 == 0 {
      DivisorOfDivisor(n, 4, 2);
    }
  }

  /** `is_prime` by the 6k +/- 1 loop: `i` runs over 5, 11, 17, ... while `i * i <= n`,
      testing `i` and `i + 2`. */
  method IsPrimeSixK(n: int) returns (b: bool)
    ensures b == IsPrime(n)
  {
    if n <= 1 {
      return false;
    }
    if n <= 3 {
      return true;
    }
    if n % 2 == 0 || n % 3 == 0 {
      return false;
    }
    var i := 5;
    ghost var k: nat := 0;
    BelowFive(n);
    while i * i <= n
      invariant i == 6 * k + 5
      invariant forall d :: 2 <= d < i ==> n % d != 0
    {
      if n % i == 0 || n % (i + 2) == 0 {
        assert i + 2 < n by {
          MulMonotone(5, i, i, i);
        }
        return false;
      }
      SixKWindow(n, i, k);
      i, k := i + 6, k + 1;
    }
    NoSmallDivisorMeansPrime(n, i);
    return true;
  }

  /** `is_prime` by trial division over `range(2, int(math.sqrt(n)) + 1)`, returning at the first
      divisor; the float root is taken here as the exact integer root. */
  method IsPrimeTrial(n: int) returns (b: bool)
    ensures b <==> n >= 2 && forall d :: 2 <= d && d * d <= n ==> n % d != 0
    ensures b == IsPrime(n)
  {
    if n < 2 {
      return false;
    }
    var i := 2;
    while i * i <= n
      invariant 2 <= i
      invariant forall d :: 2 <= d < i ==> n % d != 0
    {
      if n % i == 0 {
        assert i < n by {
          MulMonotone(2, i, i, i);
        }
        return false;
      }
      i := i + 1;
    }
    forall d | 2 <= d && d * d <= n ensures n % d != 0 {
      if d >= i {
        MulMonotone(i, i, d, d);
      }
    }
    NoSmallDivisorMeansPrime(n, i);
    return true;
  }
}
