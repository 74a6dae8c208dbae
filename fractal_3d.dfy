/** fractal_3d.py: the 3-D NAND-prime voxel grid. A voxel (x, y, z) is allowed when the low
    `max_depth` bits of x, y and z are pairwise disjoint; an allowed voxel holds 2 when
    x + y + z is prime, 1 when the sum is composite or 1, and stays 0 at the origin. */
module Fractal3D {
  import opened Wrappers
  import opened Bits
  import opened Primality

  /** No two of x, y, z share a set bit below `max_depth`, by the grid's own test. */
  predicate Allowed(x: nat, y: nat, z: nat, d: nat)
  {
    Overlap(x, y, d) == 0 && Overlap(x, z, d) == 0 && Overlap(y, z, d) == 0
  }

  /** `img[z, y, x]` as `generate_nand_prime_fractal_3d` leaves it. */
  function Voxel(x: nat, y: nat, z: nat, d: nat): int
  {
    if !Allowed(x, y, z, d) then 0
    else if IsPrime(x + y + z) then 2
    else if x + y + z > 0 then 1
    else 0
  }

  /** A voxel the counters count: allowed, and with a prime sum when `primesOnly`. */
  predicate Counted(x: nat, y: nat, z: nat, d: nat, primesOnly: bool)
  {
    Allowed(x, y, z, d) && (!primesOnly || IsPrime(x + y + z))
  }

  /** Counted voxels (x, y, z) with z < zEnd. */
  function RowCount(x: nat, y: nat, zEnd: nat, d: nat, primesOnly: bool): nat
  {
    if zEnd == 0 then 0
    else RowCount(x, y, zEnd - 1, d, primesOnly) + (if Counted(x, y, zEnd - 1, d, primesOnly) then 1 else 0)
  }

  /** Counted voxels (x, y, z) with y < yEnd and z < size. */
  function PlaneCount(x: nat, yEnd: nat, size: nat, d: nat, primesOnly: bool): nat
  {
    if yEnd == 0 then 0
    else PlaneCount(x, yEnd - 1, size, d, primesOnly) + RowCount(x, yEnd - 1, size, d, primesOnly)
  }

  /** Counted voxels with x < xEnd and y, z < size. */
  function CubeCount(xEnd: nat, size: nat, d: nat, primesOnly: bool): nat
  {
    if xEnd == 0 then 0
    else CubeCount(xEnd - 1, size, d, primesOnly) + PlaneCount(xEnd - 1, size, size, d, primesOnly)
  }

  /** The grid traversal order: (x', y', z') is visited before (x, y, z). */
  predicate Before(x': int, y': int, z': int, x: int, y: int, z: int)
  {
    x' < x || (x' == x && (y' < y || (y' == y && z' < z)))
  }

  lemma {:induction false} RowOfOverlappingPair(x: nat, y: nat, zEnd: nat, d: nat, primesOnly: bool)
    requires Overlap(x, y, d) != 0
    ensures RowCount(x, y, zEnd, d, primesOnly) == 0
  {
    if zEnd > 0 {
      RowOfOverlappingPair(x, y, zEnd - 1, d, primesOnly);
    }
  }

  /** The innermost loop of `generate_nand_prime_fractal_3d` for one (x, y) column: it
      writes the column's voxels and returns how many of them it counted as lit and as prime. */
  method FillColumn(img: array3<int>, x: nat, y: nat, mask: nat, maxDepth: nat) returns (lit: nat, primes: nat)
    requires mask == Mask(maxDepth)
    requires x < img.Length2 && y < img.Length1
    requires BitAnd(BitAnd(x, mask), BitAnd(y, mask)) == 0
    requires forall z :: 0 <= z < img.Length0 ==> img[z, y, x] == 0
    modifies img
    ensures forall z :: 0 <= z < img.Length0 ==> img[z, y, x] == Voxel(x, y, z, maxDepth)
    ensures forall z, y', x' ::
      0 <= z < img.Length0 && 0 <= y' < img.Length1 && 0 <= x' < img.Length2 && (y' != y || x' != x) ==>
        img[z, y', x'] == old(img[z, y', x'])
    ensures lit == RowCount(x, y, img.Length0, maxDepth, false)
    ensures primes == RowCount(x, y, img.Length0, maxDepth, true)
  {
    var xm := BitAnd(x, mask);
    var ym := BitAnd(y, mask);
    lit, primes := 0, 0;
    for z := 0 to img.Length0
      invariant forall z' :: 0 <= z' < img.Length0 ==> img[z', y, x] == if z' < z then Voxel(x, y, z', maxDepth) else 0
      invariant forall z', y', x' ::
        0 <= z' < img.Length0 && 0 <= y' < img.Length1 && 0 <= x' < img.Length2 && (y' != y || x' != x) ==>
          img[z', y', x'] == old(img[z', y', x'])
      invariant lit == RowCount(x, y, z, maxDepth, false)
      invariant primes == RowCount(x, y, z, maxDepth, true)
    {
      var zm := BitAnd(z, mask);
      if BitAnd(xm, zm) != 0 || BitAnd(ym, zm) != 0 {
        continue;
      }
      var value := x + y + z;
      lit := lit + 1;
      var prime := IsPrimeSixK(value);
      if prime {
        img[z, y, x] := 2;
        primes := primes + 1;
      } else if value > 0 {
        img[z, y, x] := 1;
      }
    }
  }

  /** The loops over y and z of `generate_nand_prime_fractal_3d` for one x plane. The early
      exit on an x-y overlap skips a column that holds only zeros and counts nothing. */
  method FillPlane(img: array3<int>, x: nat, mask: nat, maxDepth: nat) returns (lit: nat, primes: nat)
    requires mask == Mask(maxDepth)
    requires x < img.Length2 && img.Length1 == img.Length0
    requires forall z, y :: 0 <= z < img.Length0 && 0 <= y < img.Length1 ==> img[z, y, x] == 0
    modifies img
    ensures forall z, y :: 0 <= z < img.Length0 && 0 <= y < img.Length1 ==> img[z, y, x] == Voxel(x, y, z, maxDepth)
    ensures forall z, y, x' ::
      0 <= z < img.Length0 && 0 <= y < img.Length1 && 0 <= x' < img.Length2 && x' != x ==>
        img[z, y, x'] == old(img[z, y, x'])
    ensures lit == PlaneCount(x, img.Length1, img.Length0, maxDepth, false)
    ensures primes == PlaneCount(x, img.Length1, img.Length0, maxDepth, true)
  {
    var size := img.Length0;
    var xm := BitAnd(x, mask);
    lit, primes := 0, 0;
    for y := 0 to size
      invariant forall z', y' :: 0 <= z' < size && 0 <= y' < size ==>
        img[z', y', x] == if y' < y then Voxel(x, y', z', maxDepth) else 0
      invariant forall z', y', x' ::
        0 <= z' < size && 0 <= y' < size && 0 <= x' < img.Length2 && x' != x ==>
          img[z', y', x'] == old(img[z', y', x'])
      invariant lit == PlaneCount(x, y, size, maxDepth, false)
      invariant primes == PlaneCount(x, y, size, maxDepth, true)
    {
      var ym := BitAnd(y, mask);
      if BitAnd(xm, ym) != 0 {
        RowOfOverlappingPair(x, y, size, maxDepth, false);
        RowOfOverlappingPair(x, y, size, maxDepth, true);
        assert forall z' :: 0 <= z' < size ==> Voxel(x, y, z', maxDepth) == 0;
        continue;
      }
      var l, p := FillColumn(img, x, y, mask, maxDepth);
      lit, primes := lit + l, primes + p;
    }
  }

  /** What a completed `generate_nand_prime_fractal_3d` has built: the grid it returns and the
      `lit_count` and `prime_count` it prints. */
  datatype Generated = Generated(img: array3<int>, litCount: nat, primeCount: nat)

  /** How the call can fail: `lit_count / (size ** 3)` divides by zero when `size` is 0. */
  datatype Failure = ZeroDivisionError

  /** `generate_nand_prime_fractal_3d(size, max_depth)`: the loops fill the grid, then the
      density is computed, which raises for an empty grid. */
  method GenerateNandPrimeFractal3D(size: nat, maxDepth: nat) returns (r: Result<Generated, Failure>)
    ensures size == 0 <==> r == Err(ZeroDivisionError)
    ensures r.Ok? ==>
      var g := r.value;
      fresh(g.img) && g.img.Length0 == size && g.img.Length1 == size && g.img.Length2 == size &&
      (forall z, y, x :: 0 <= z < size && 0 <= y < size && 0 <= x < size ==>
         g.img[z, y, x] == Voxel(x, y, z, maxDepth)) &&
      g.litCount == CubeCount(size, size, maxDepth, false) &&
      g.primeCount == CubeCount(size, size, maxDepth, true)
  {
    var img, litCount, primeCount := FillCube(size, maxDepth);
    if size == 0 {
      return Err(ZeroDivisionError);
    }
    r := Ok(Generated(img, litCount, primeCount));
  }

  /** The three nested loops of `generate_nand_prime_fractal_3d`, with their counters. */
  method FillCube(size: nat, maxDepth: nat)
    returns (img: array3<int>, litCount: nat, primeCount: nat)
    ensures fresh(img) && img.Length0 == size && img.Length1 == size && img.Length2 == size
    ensures forall z, y, x :: 0 <= z < size && 0 <= y < size && 0 <= x < size ==>
      img[z, y, x] == Voxel(x, y, z, maxDepth)
    ensures litCount == CubeCount(size, size, maxDepth, false)
    ensures primeCount == CubeCount(size, size, maxDepth, true)
  {
    img := new int[size, size, size]((_, _, _) => 0);
    var mask := Pow2(maxDepth) - 1;
    litCount, primeCount := 0, 0;
    for x := 0 to size
      invariant forall z', y', x' :: 0 <= z' < size && 0 <= y' < size && 0 <= x' < size ==>
        img[z', y', x'] == if x' < x then Voxel(x', y', z', maxDepth) else 0
      invariant litCount == CubeCount(x, size, maxDepth, false)
      invariant primeCount == CubeCount(x, size, maxDepth, true)
    {
      var lit, primes := FillPlane(img, x, mask, maxDepth);
      litCount, primeCount := litCount + lit, primeCount + primes;
    }
  }

  /** Every voxel is 0, 1 or 2; a non-zero voxel is allowed; 2 means allowed with a prime sum,
      1 allowed with a positive non-prime sum; the origin is 0. */
  lemma VoxelMeaning(x: nat, y: nat, z: nat, d: nat)
    ensures 0 <= Voxel(x, y, z, d) <= 2
    ensures Voxel(x, y, z, d) != 0 ==>
      LowBitsDisjoint(x, y, d) && LowBitsDisjoint(x, z, d) && LowBitsDisjoint(y, z, d)
    ensures Voxel(x, y, z, d) == 2 <==> Allowed(x, y, z, d) && IsPrime(x + y + z)
    ensures Voxel(x, y, z, d) == 1 <==> Allowed(x, y, z, d) && !IsPrime(x + y + z) && x + y + z > 0
    ensures Voxel(0, 0, 0, d) == 0 && Allowed(0, 0, 0, d)
  {
    OverlapZeroIffDisjoint(x, y, d);
    OverlapZeroIffDisjoint(x, z, d);
    OverlapZeroIffDisjoint(y, z, d);
    OverlapZeroIffDisjoint(0, 0, d);
    DisjointWithZero(0, d);
  }

  lemma {:induction false} RowBounds(x: nat, y: nat, zEnd: nat, d: nat)
    ensures RowCount(x, y, zEnd, d, true) <= RowCount(x, y, zEnd, d, false) <= zEnd
  {
    if zEnd > 0 {
      RowBounds(x, y, zEnd - 1, d);
    }
  }

  lemma {:induction false} PlaneBounds(x: nat, yEnd: nat, size: nat, d: nat)
    ensures PlaneCount(x, yEnd, size, d, true) <= PlaneCount(x, yEnd, size, d, false) <= yEnd * size
  {
    if yEnd > 0 {
      PlaneBounds(x, yEnd - 1, size, d);
      RowBounds(x, yEnd - 1, size, d);
      assert (yEnd - 1) * size + size == yEnd * size;
    }
  }

  lemma {:induction false} CubeBounds(xEnd: nat, size: nat, d: nat)
    ensures CubeCount(xEnd, size, d, true) <= CubeCount(xEnd, size, d, false) <= xEnd * (size * size)
  {
    if xEnd > 0 {
      CubeBounds(xEnd - 1, size, d);
      PlaneBounds(xEnd - 1, size, size, d);
      assert (xEnd - 1) * (size * size) + size * size == xEnd * (size * size);
    }
  }

  /** `0 <= prime_count <= lit_count <= size ** 3`, so the printed density and prime ratio lie in [0, 1]. */
  lemma CountersBounded(size: nat, d: nat)
    ensures CubeCount(size, size, d, true) <= CubeCount(size, size, d, false) <= size * size * size
  {
    CubeBounds(size, size, d);
    CubeAssociates(size);
  }

  lemma CubeAssociates(n: nat)
    ensures n * (n * n) == n * n * n
  {
  }
}
