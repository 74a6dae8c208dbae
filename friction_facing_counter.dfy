/** friction_facing_counter.py: counts the places where two neighbouring cells of a bit matrix
    "face each other in opposition", i.e. hold different values. */
module FrictionFacingCounter {

  /** f(0) + ... + f(n - 1). */
  function Sum(n: nat, f: nat -> int): int
  {
    if n == 0 then 0 else Sum(n - 1, f) + f(n - 1)
  }

  /** The sum of f(r, c) over the rows x cols rectangle, row by row. */
  function Sum2(rows: nat, cols: nat, f: (nat, nat) -> int): int
  {
    if rows == 0 then 0 else Sum2(rows - 1, cols, f) + Sum(cols, (c: nat) => f(rows - 1, c))
  }

  /** The number of columns (numpy's `matrix.shape[1]`); 0 for a matrix without rows. */
  function Width(m: seq<seq<int>>): nat
  {
    if |m| == 0 then 0 else |m[0]|
  }

  /** A two-dimensional array: every row has the same length. */
  predicate IsMatrix(m: seq<seq<int>>)
  {
    forall r :: 0 <= r < |m| ==> |m[r]| == Width(m)
  }

  /** 1 when the two cells disagree (numpy's `!=`, summed as 0/1). */
  function Face(a: int, b: int): int
  {
    if a != b then 1 else 0
  }

  /** Whether cell (r, c) disagrees with its right neighbour (0 outside the matrix). */
  function HorizontalTerm(m: seq<seq<int>>): (nat, nat) -> int
    requires IsMatrix(m)
  {
    (r: nat, c: nat) => if r < |m| && c + 1 < Width(m) then Face(m[r][c], m[r][c + 1]) else 0
  }

  /** Whether cell (r, c) disagrees with the cell below it (0 outside the matrix). */
  function VerticalTerm(m: seq<seq<int>>): (nat, nat) -> int
    requires IsMatrix(m)
  {
    (r: nat, c: nat) => if r + 1 < |m| && c < Width(m) then Face(m[r][c], m[r + 1][c]) else 0
  }

  /** `np.sum(matrix[:, :-1] != matrix[:, 1:])`: disagreeing left/right neighbours. */
  function Horizontal(m: seq<seq<int>>): int
    requires IsMatrix(m)
  {
    if Width(m) == 0 then 0 else Sum2(|m|, Width(m) - 1, HorizontalTerm(m))
  }

  /** `np.sum(matrix[:-1, :] != matrix[1:, :])`: disagreeing upper/lower neighbours. */
  function Vertical(m: seq<seq<int>>): int
    requires IsMatrix(m)
  {
    if |m| == 0 then 0 else Sum2(|m| - 1, Width(m), VerticalTerm(m))
  }

  /** `count_facing_contradictions(matrix)`: both kinds of facing pair together. */
  function CountFacingContradictions(m: seq<seq<int>>): (count: int)
    requires IsMatrix(m)
    ensures 0 <= count
  {
    HorizontalRange(m);
    VerticalRange(m);
    Horizontal(m) + Vertical(m)
  }

  /** The matrix with rows and columns exchanged. */
  function Transpose(m: seq<seq<int>>): (t: seq<seq<int>>)
    requires IsMatrix(m)
    ensures IsMatrix(t)
    ensures |t| == Width(m) && (|t| > 0 ==> Width(t) == |m|)
    ensures forall c, r :: 0 <= c < |t| && 0 <= r < |m| ==> t[c][r] == m[r][c]
  {
    seq(Width(m), c requires 0 <= c < Width(m) => seq(|m|, r requires 0 <= r < |m| => m[r][c]))
  }

  // ---------------------------------------------------------------------------------------
  // Properties of the count

  /** A constant matrix has no facing contradictions. */
  lemma ConstantMatrixIsCalm(m: seq<seq<int>>, v: int)
    requires IsMatrix(m)
    requires forall r, c :: 0 <= r < |m| && 0 <= c < |m[r]| ==> m[r][c] == v
    ensures CountFacingContradictions(m) == 0
  {
    var cols := Width(m);
    if cols > 0 {
      SumBounds2(|m|, cols - 1, HorizontalTerm(m), 0);
    }
    if |m| > 0 {
      SumBounds2(|m| - 1, cols, VerticalTerm(m), 0);
    }
  }

  /** At most every horizontal and every vertical neighbour pair disagrees:
      rows*(cols-1) + (rows-1)*cols, each factor counted as 0 when it would be negative. */
  lemma CountBound(m: seq<seq<int>>)
    requires IsMatrix(m)
    ensures var rows, cols := |m|, Width(m);
      CountFacingContradictions(m) <=
        rows * (if cols == 0 then 0 else cols - 1) + (if rows == 0 then 0 else rows - 1) * cols
  {
    HorizontalRange(m);
    VerticalRange(m);
  }

  /** Each of the rows*(cols-1) left/right pairs contributes 0 or 1. */
  lemma HorizontalRange(m: seq<seq<int>>)
    requires IsMatrix(m)
    ensures 0 <= Horizontal(m) <= |m| * (if Width(m) == 0 then 0 else Width(m) - 1)
  {
    var cols := Width(m);
    if cols > 0 {
      var f := HorizontalTerm(m);
      assert forall r: nat, c: nat :: 0 <= f(r, c) <= 1;
      SumBounds2(|m|, cols - 1, f, 1);
      assert (cols - 1) * 1 == cols - 1;
    }
  }

  /** Each of the (rows-1)*cols upper/lower pairs contributes 0 or 1. */
  lemma VerticalRange(m: seq<seq<int>>)
    requires IsMatrix(m)
    ensures 0 <= Vertical(m) <= (if |m| == 0 then 0 else |m| - 1) * Width(m)
  {
    var rows := |m|;
    if rows > 0 {
      var f := VerticalTerm(m);
      assert forall r: nat, c: nat :: 0 <= f(r, c) <= 1;
      SumBounds2(rows - 1, Width(m), f, 1);
      assert Width(m) * 1 == Width(m);
    }
  }

  /** Transposing exchanges the horizontal and vertical counts, so the total is unchanged. */
  lemma TransposeKeepsCount(m: seq<seq<int>>)
    requires IsMatrix(m)
    ensures Horizontal(Transpose(m)) == Vertical(m)
    ensures Vertical(Transpose(m)) == Horizontal(m)
    ensures CountFacingContradictions(Transpose(m)) == CountFacingContradictions(m)
  {
    var t := Transpose(m);
    var rows, cols := |m|, Width(m);
    if cols == 0 {
      ZeroColumns(m);
    } else {
      assert Width(t) == rows;
      SumSwap(rows, cols - 1, HorizontalTerm(m), VerticalTerm(t));
      SumSwap(rows - 1, cols, VerticalTerm(m), HorizontalTerm(t));
    }
  }

  /** A matrix whose rows are empty has nothing to compare. */
  lemma ZeroColumns(m: seq<seq<int>>)
    requires IsMatrix(m) && Width(m) == 0
    ensures Horizontal(m) == 0 && Vertical(m) == 0
  {
    if |m| > 0 {
      NoColumns(|m| - 1);
    }
  }

  // ---------------------------------------------------------------------------------------
  // Sums

  /** Terms in [0, b] give a sum in [0, n*b]. */
  lemma {:induction false} SumBounds(n: nat, f: nat -> int, b: nat)
    requires forall i: nat :: 0 <= f(i) <= b
    ensures 0 <= Sum(n, f) <= n * b
  {
    if n > 0 {
      SumBounds(n - 1, f, b);
    }
  }

  lemma {:induction false} SumBounds2(rows: nat, cols: nat, f: (nat, nat) -> int, b: nat)
    requires forall r: nat, c: nat :: 0 <= f(r, c) <= b
    ensures 0 <= Sum2(rows, cols, f) <= rows * (cols * b)
  {
    if rows > 0 {
      SumBounds2(rows - 1, cols, f, b);
      SumBounds(cols, (c: nat) => f(rows - 1, c), b);
      assert rows * (cols * b) == (rows - 1) * (cols * b) + cols * b;
    }
  }

  lemma {:induction false} NoColumns(rows: nat)
    ensures forall f: (nat, nat) -> int :: Sum2(rows, 0, f) == 0
  {
    if rows > 0 {
      NoColumns(rows - 1);
    }
  }

  /** Sums of functions that agree below n are equal. */
  lemma {:induction false} SumAgree(n: nat, f: nat -> int, g: nat -> int)
    requires forall i: nat :: i < n ==> f(i) == g(i)
    ensures Sum(n, f) == Sum(n, g)
  {
    if n > 0 {
      SumAgree(n - 1, f, g);
    }
  }

  /** The rectangle summed column by column equals it summed row by row. */
  lemma {:induction false} SumSwap(rows: nat, cols: nat, f: (nat, nat) -> int, g: (nat, nat) -> int)
    requires forall r: nat, c: nat :: r < rows && c < cols ==> g(c, r) == f(r, c)
    ensures Sum2(rows, cols, f) == Sum2(cols, rows, g)
  {
    if rows > 0 {
      var g' := (c: nat, r: nat) => if r < rows - 1 then g(c, r) else 0;
      SumSwap(rows - 1, cols, f, g');
      // Sum2(cols, rows, g) splits into the first rows - 1 columns of g and its last column.
      ColumnSplit(cols, rows, g, g');
      SumAgree(cols, (c: nat) => f(rows - 1, c), (c: nat) => g(c, rows - 1));
    } else {
      NoColumns(cols);
    }
  }

  /** Summing each row of g over `len` entries is summing g' over len-1 entries plus the last. */
  lemma {:induction false} ColumnSplit(n: nat, len: nat, g: (nat, nat) -> int, g': (nat, nat) -> int)
    requires len > 0
    requires forall c: nat, r: nat :: g'(c, r) == (if r < len - 1 then g(c, r) else 0)
    ensures Sum2(n, len, g) == Sum2(n, len - 1, g') + Sum(n, (c: nat) => g(c, len - 1))
  {
    if n > 0 {
      ColumnSplit(n - 1, len, g, g');
      SumAgree(len - 1, (r: nat) => g(n - 1, r), (r: nat) => g'(n - 1, r));
    }
  }
}
