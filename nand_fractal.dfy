/** nand_fractal_sim.py: the size x size NAND inclusion image. A point (x, y) is lit when the
    low `max_depth` bits of x and y share no set bit. */
module NandFractal {
  import opened Bits

  /** `img[y, x]` as `generate_nand_fractal` leaves it. */
  function Pixel(x: nat, y: nat, maxDepth: nat): int
  {
    if Overlap(x, y, maxDepth) == 0 then 1 else 0
  }

  /** `generate_nand_fractal(size, max_depth)`: a zero grid, then a nested loop over x and y
      that writes 1 at every non-overlapping point. */
  method GenerateNandFractal(size: nat, maxDepth: nat) returns (img: array2<int>)
    ensures fresh(img) && img.Length0 == size && img.Length1 == size
    ensures forall y, x :: 0 <= y < size && 0 <= x < size ==> img[y, x] == Pixel(x, y, maxDepth)
  {
    img := new int[size, size]((_, _) => 0);
    var mask := Pow2(maxDepth) - 1;
    for x := 0 to size
      invariant forall y', x' :: 0 <= y' < size && 0 <= x' < size ==>
        img[y', x'] == if x' < x then Pixel(x', y', maxDepth) else 0
    {
      for y := 0 to size
        invariant forall y', x' :: 0 <= y' < size && 0 <= x' < size ==>
          img[y', x'] == if x' < x || (x' == x && y' < y) then Pixel(x', y', maxDepth) else 0
      {
        if BitAnd(BitAnd(x, mask), BitAnd(y, mask)) == 0 {
          img[y, x] := 1;
        }
      }
    }
  }

  /** Every pixel is 0 or 1, and it is 1 exactly when the low bits are disjoint. */
  lemma PixelMeaning(x: nat, y: nat, maxDepth: nat)
    ensures Pixel(x, y, maxDepth) == 0 || Pixel(x, y, maxDepth) == 1
    ensures Pixel(x, y, maxDepth) == 1 <==> LowBitsDisjoint(x, y, maxDepth)
  {
    OverlapZeroIffDisjoint(x, y, maxDepth);
  }

  /** The image is symmetric about its diagonal. */
  lemma PixelSymmetric(x: nat, y: nat, maxDepth: nat)
    ensures Pixel(x, y, maxDepth) == Pixel(y, x, maxDepth)
  {
    PixelMeaning(x, y, maxDepth);
    PixelMeaning(y, x, maxDepth);
    DisjointSymmetric(x, y, maxDepth);
  }

  /** Row 0 and column 0 are lit everywhere. */
  lemma AxesLit(t: nat, maxDepth: nat)
    ensures Pixel(t, 0, maxDepth) == 1 && Pixel(0, t, maxDepth) == 1
  {
    PixelMeaning(0, t, maxDepth);
    PixelMeaning(t, 0, maxDepth);
    DisjointWithZero(t, maxDepth);
    DisjointSymmetric(0, t, maxDepth);
  }

  /** The image repeats with period `1 << max_depth` along x. */
  lemma PixelPeriodic(x: nat, y: nat, maxDepth: nat)
    ensures Pixel(x + Pow2(maxDepth), y, maxDepth) == Pixel(x, y, maxDepth)
  {
    PixelMeaning(x, y, maxDepth);
    PixelMeaning(x + Pow2(maxDepth), y, maxDepth);
    DisjointPeriodic(x, y, maxDepth);
  }
}
