/** nand_prime_fractal_sim.py: the NAND inclusion image with primes marked. A lit point (x, y)
    holds 2 when x + y is prime and 1 otherwise; an excluded point holds 0. */
module NandPrimeFractal {
  import opened Bits
  import opened Primality

  /** `img[y, x]` as `generate_nand_prime_fractal` leaves it. */
  function Cell(x: nat, y: nat, maxDepth: nat): int
  {
    if Overlap(x, y, maxDepth) != 0 then 0
    else if IsPrime(x + y) then 2
    else 1
  }

  /** `generate_nand_prime_fractal(size, max_depth)`: a zero grid, then a nested loop over x
      and y that writes 2 or 1 at every non-overlapping point. */
  method GenerateNandPrimeFractal(size: nat, maxDepth: nat) returns (img: array2<int>)
    ensures fresh(img) && img.Length0 == size && img.Length1 == size
    ensures forall y, x :: 0 <= y < size && 0 <= x < size ==> img[y, x] == Cell(x, y, maxDepth)
  {
    img := new int[size, size]((_, _) => 0);
    var mask := Pow2(maxDepth) - 1;
    for x := 0 to size
      invariant forall y', x' :: 0 <= y' < size && 0 <= x' < size ==>
        img[y', x'] == if x' < x then Cell(x', y', maxDepth) else 0
    {
      for y := 0 to size
        invariant forall y', x' :: 0 <= y' < size && 0 <= x' < size ==>
          img[y', x'] == if x' < x || (x' == x && y' < y) then Cell(x', y', maxDepth) else 0
      {
        if BitAnd(BitAnd(x, mask), BitAnd(y, mask)) == 0 {
          var value := x + y;
          var prime := IsPrimeSixK(value);
          if prime {
            img[y, x] := 2;
          } else {
            img[y, x] := 1;
          }
        }
      }
    }
  }

  /** Every cell is 0, 1 or 2; it is non-zero exactly when the low bits are disjoint, and a
      non-zero cell is 2 exactly when x + y is prime. */
  lemma CellMeaning(x: nat, y: nat, maxDepth: nat)
    ensures 0 <= Cell(x, y, maxDepth) <= 2
    ensures Cell(x, y, maxDepth) != 0 <==> LowBitsDisjoint(x, y, maxDepth)
    ensures Cell(x, y, maxDepth) == 2 <==> LowBitsDisjoint(x, y, maxDepth) && IsPrime(x + y)
  {
    OverlapZeroIffDisjoint(x, y, maxDepth);
  }

  /** The grid is symmetric: `img[y][x] == img[x][y]`. */
  lemma CellSymmetric(x: nat, y: nat, maxDepth: nat)
    ensures Cell(x, y, maxDepth) == Cell(y, x, maxDepth)
  {
    CellMeaning(x, y, maxDepth);
    CellMeaning(y, x, maxDepth);
    DisjointSymmetric(x, y, maxDepth);
    assert x + y == y + x;
  }

  /** The origin is lit but 0 is not prime, so it holds 1. */
  lemma OriginIsOne(maxDepth: nat)
    ensures Cell(0, 0, maxDepth) == 1
  {
    CellMeaning(0, 0, maxDepth);
    DisjointWithZero(0, maxDepth);
  }
}
