/** rotational_nand_sim.py: helical NAND cells chained into an array, and the "primal math
    engine" that pushes the bits of two bytes through two such arrays. */
module RotationalNand {
  import opened Wrappers
  import opened Gates
  import opened Bits

  /** The cell's phase as a number of π/4 turns, 0..7 (see README on the float phase). */
  type PhaseStep = x: int | 0 <= x < 8

  /** `apply_torque`: one π/4 turn, wrapping at 2π. */
  function Torque(step: PhaseStep): PhaseStep
  {
    (step + 1) % 8
  }

  /** The "radial opposition" test of `apply_torque`: the new phase is an odd multiple of π/4. */
  predicate Friction(step: PhaseStep)
  {
    step % 2 == 1
  }

  /** The fields of `HelicalCell`. */
  datatype CellState = CellState(phaseStep: PhaseStep, potential: bool, signal: bool, remainder: bool, violation: bool)

  /** A freshly built (or reset) cell: every field zero or False. */
  const ZeroCell := CellState(0, false, false, false, false)

  datatype CycleResult = CycleResult(cell: CellState, out: bool)

  /** `breath_cycle(signal_in, admit)` on a cell in state `c`. */
  function Cycle(c: CellState, signalIn: bool, admit: bool): CycleResult
  {
    var turned := c.(potential := signalIn, phaseStep := Torque(c.phaseStep));
    if !admit && turned.signal == turned.potential then
      CycleResult(turned.(violation := true), false)
    else
      var s := Nand(turned.potential, turned.signal);
      CycleResult(turned.(signal := s, remainder := s != turned.potential), s)
  }

  /** `HelicalCell`. */
  class HelicalCell {
    var phaseStep: PhaseStep
    var potential: bool
    var signal: bool
    var remainder: bool
    var violation: bool

    constructor ()
      ensures State() == ZeroCell
    {
      phaseStep, potential, signal, remainder, violation := 0, false, false, false, false;
    }

    function State(): CellState
      reads this
    {
      CellState(phaseStep, potential, signal, remainder, violation)
    }

    /** `apply_torque()`: advances the phase and reports friction. */
    method ApplyTorque() returns (friction: bool)
      modifies this
      ensures State() == old(State()).(phaseStep := Torque(old(phaseStep)))
      ensures friction == Friction(phaseStep)
    {
      phaseStep := Torque(phaseStep);
      friction := Friction(phaseStep);
    }

    /** `breath_cycle(signal_in, admit)`: inhale, hold, the 0≠1 admission check, exhale. */
    method BreathCycle(signalIn: bool, admit: bool) returns (out: bool)
      modifies this
      ensures CycleResult(State(), out) == Cycle(old(State()), signalIn, admit)
    {
      potential := signalIn;
      var hasFriction := ApplyTorque();
      if !admit && signal == potential {
        violation := true;
        return false;
      }
      signal := Nand(potential, signal);
      remainder := signal != potential;
      out := signal;
    }
  }

  // ---------------------------------------------------------------------------------------
  // What one cycle does

  /** A rejected cycle (not admitted, old signal equal to the new potential) records the
      input, raises `violation`, keeps `signal` and `remainder` and answers False. */
  lemma RejectedCycle(c: CellState, signalIn: bool, admit: bool)
    requires !admit && c.signal == signalIn
    ensures var r := Cycle(c, signalIn, admit);
      !r.out && r.cell.violation && r.cell.potential == signalIn &&
      r.cell.signal == c.signal && r.cell.remainder == c.remainder
  {
  }

  /** Any other cycle NANDs the new potential with the old signal, keeps the difference of
      the two as the remainder, answers the new signal and leaves `violation` as it was. */
  lemma AdmittedCycle(c: CellState, signalIn: bool, admit: bool)
    requires admit || c.signal != signalIn
    ensures var r := Cycle(c, signalIn, admit);
      r.cell.potential == signalIn && r.cell.signal == !(signalIn && c.signal) &&
      r.cell.remainder == (r.cell.signal != signalIn) && r.out == r.cell.signal &&
      r.cell.violation == c.violation
  {
  }

  /** Every cycle turns the phase by one step, and nothing clears a violation. */
  lemma CycleTurnsAndKeepsViolation(c: CellState, signalIn: bool, admit: bool)
    ensures Cycle(c, signalIn, admit).cell.phaseStep == (c.phaseStep + 1) % 8
    ensures c.violation ==> Cycle(c, signalIn, admit).cell.violation
  {
  }

  /** With the admission test that `process` uses (`admit = signal_in != potential`), a cycle
      is rejected exactly when the input, the old potential and the old signal all agree. */
  lemma ProcessAdmission(c: CellState, signalIn: bool)
    ensures var r := Cycle(c, signalIn, signalIn != c.potential);
      (r.cell.violation && !c.violation) <==> (signalIn == c.potential && c.signal == signalIn && !c.violation)
  {
  }

  /** In particular a fresh cell fed False is rejected at once. */
  lemma ZeroCellRejectsFalse()
    ensures Cycle(ZeroCell, false, false != ZeroCell.potential).cell.violation
    ensures !Cycle(ZeroCell, true, true != ZeroCell.potential).cell.violation
  {
  }

  // ---------------------------------------------------------------------------------------
  // The array

  /** The cells, signals and remainders after the first n cells of a pass. */
  datatype Pass = Pass(cells: seq<CellState>, signals: seq<bool>, remainders: seq<bool>)

  /** What `process` returns: `(output_signals, remainders, has_violation)`. */
  datatype Output = Output(signals: seq<bool>, remainders: seq<bool>, anyViolation: bool)

  /** The first n iterations of `process`'s loop, starting from cell states `s` with
      external input `first` for cell 0. */
  function PassPrefix(s: seq<CellState>, first: bool, n: nat): (p: Pass)
    requires n <= |s|
    ensures |p.cells| == n && |p.signals| == n && |p.remainders| == n
  {
    if n == 0 then Pass([], [], [])
    else
      var p := PassPrefix(s, first, n - 1);
      var r := StageCycle(s[n - 1], StageInput(p, first, n - 1));
      Pass(p.cells + [r.cell], p.signals + [r.out], p.remainders + [r.cell.remainder])
  }

  /** `sig_in` of cell i: the external bit for cell 0, the previous output otherwise. */
  function StageInput(p: Pass, first: bool, i: nat): bool
    requires i == |p.signals|
  {
    if i == 0 then first else p.signals[i - 1]
  }

  /** The breath cycle `process` runs on a cell: admitted when the input differs from the
      cell's potential. */
  function StageCycle(c: CellState, sigIn: bool): CycleResult
  {
    Cycle(c, sigIn, sigIn != c.potential)
  }

  lemma PassPrefixStep(s: seq<CellState>, first: bool, i: nat)
    requires i < |s|
    ensures var p := PassPrefix(s, first, i);
      var r := StageCycle(s[i], StageInput(p, first, i));
      PassPrefix(s, first, i + 1) == Pass(p.cells + [r.cell], p.signals + [r.out], p.remainders + [r.cell.remainder])
  {
  }

  /** One iteration of `process`'s loop, seen on the pass so far: if cell i is fed
      `StageInput` and answers the `StageCycle` outputs, the states, signals, remainders and
      violation flag all move to prefix i + 1. */
  lemma PassAdvances(s: seq<CellState>, first: bool, i: nat, done: Pass, sigIn: bool, out: bool, rem: bool, violated: bool)
    requires i < |s| && done == PassPrefix(s, first, i)
    requires sigIn == (if i == 0 then first else done.signals[i - 1])
    requires var c := StageCycle(s[i], sigIn); out == c.out && rem == c.cell.remainder && violated == c.cell.violation
    ensures var next := PassPrefix(s, first, i + 1);
      (done.cells + s[i..])[i := StageCycle(s[i], sigIn).cell] == next.cells + s[i + 1..] &&
      next.signals == done.signals + [out] && next.remainders == done.remainders + [rem] &&
      AnyViolation(next.cells) == (AnyViolation(done.cells) || violated)
  {
    var c := StageCycle(s[i], sigIn);
    PassPrefixStep(s, first, i);
    SpliceStep(done.cells, s[i..], c.cell);
    assert s[i..][1..] == s[i + 1..];
    AnyViolationAppend(done.cells, c.cell);
  }

  /** The whole pass over all cells. */
  function Propagate(s: seq<CellState>, first: bool): Pass
  {
    PassPrefix(s, first, |s|)
  }

  /** `any_violation`: some cell carries the violation flag after the pass. */
  predicate AnyViolation(cells: seq<CellState>)
  {
    exists k :: 0 <= k < |cells| && cells[k].violation
  }

  lemma AnyViolationAppend(cells: seq<CellState>, c: CellState)
    ensures AnyViolation(cells + [c]) == (AnyViolation(cells) || c.violation)
  {
    if c.violation {
      assert (cells + [c])[|cells|] == c;
    }
    if AnyViolation(cells) {
      var k :| 0 <= k < |cells| && cells[k].violation;
      assert (cells + [c])[k] == cells[k];
    }
  }

  /** Replacing the first element of the unprocessed suffix moves it to the processed part. */
  lemma SpliceStep<T>(done: seq<T>, rest: seq<T>, x: T)
    requires |rest| > 0
    ensures (done + rest)[|done| := x] == (done + [x]) + rest[1..]
  {
  }

  /** `HelicalNANDArray`. */
  class HelicalNANDArray {
    const cells: seq<HelicalCell>
    var breathCount: nat

    /** The cells are distinct objects. */
    predicate Valid()
    {
      forall i, j :: 0 <= i < j < |cells| ==> cells[i] != cells[j]
    }

    function States(): (s: seq<CellState>)
      reads cells
      ensures |s| == |cells|
    {
      seq(|cells|, i reads cells requires 0 <= i < |cells| => cells[i].State())
    }

    /** `HelicalNANDArray(num_cells)`: `num_cells` fresh zero cells and no breaths yet. */
    constructor (numCells: nat)
      ensures Valid() && |cells| == numCells && breathCount == 0
      ensures forall k :: 0 <= k < numCells ==> fresh(cells[k])
      ensures States() == seq(numCells, _ => ZeroCell)
    {
      var cs: seq<HelicalCell> := [];
      while |cs| < numCells
        invariant |cs| <= numCells
        invariant forall i, j :: 0 <= i < j < |cs| ==> cs[i] != cs[j]
        invariant forall k :: 0 <= k < |cs| ==> fresh(cs[k]) && cs[k].State() == ZeroCell
      {
        var c := new HelicalCell();
        cs := cs + [c];
      }
      cells := cs;
      breathCount := 0;
    }

    /** `process(data_in)`. Cell 0 reads `data_in[0]`, which raises IndexError (before any
        cell is touched) when there is a cell and no input; every later cell reads the
        signal of the cell before it. */
    method Process(dataIn: seq<bool>) returns (r: Result<Output, string>)
      requires Valid()
      modifies this, cells
      ensures Valid()
      ensures |cells| > 0 && |dataIn| == 0 ==>
        r == Err("IndexError") && States() == old(States()) && breathCount == old(breathCount)
      ensures |cells| == 0 || |dataIn| > 0 ==>
        var p := Propagate(old(States()), |dataIn| > 0 && dataIn[0]);
        r == Ok(Output(p.signals, p.remainders, AnyViolation(p.cells))) &&
        States() == p.cells && breathCount == old(breathCount) + 1
    {
      if |cells| > 0 && |dataIn| == 0 {
        return Err("IndexError");
      }
      ghost var s0 := States();
      HoldsStates(s0);
      var first := |dataIn| > 0 && dataIn[0];
      var output := Propagation(s0, first);
      HoldsStates(Propagate(s0, first).cells);
      breathCount := breathCount + 1;
      r := Ok(output);
    }

    /** The loop of `process` from cell states s0, once `data_in[0]` (if needed) has been
        read as `first`. */
    method Propagation(ghost s0: seq<CellState>, first: bool) returns (output: Output)
      requires Valid() && Holds(s0)
      modifies cells
      ensures var p := Propagate(s0, first);
        output == Output(p.signals, p.remainders, AnyViolation(p.cells)) && Holds(p.cells)
    {
      var n := |cells|;
      var signals: seq<bool> := [];
      var remainders: seq<bool> := [];
      var anyViolation := false;
      ghost var done := Pass([], [], []);
      assert done.cells + s0[0..] == s0;
      var i := 0;
      while i < n
        invariant i <= n && done == PassPrefix(s0, first, i)
        invariant Holds(done.cells + s0[i..])
        invariant signals == done.signals && remainders == done.remainders
        invariant anyViolation == AnyViolation(done.cells)
      {
        signals, remainders, anyViolation, done := Iterate(s0, first, i, done, signals, remainders, anyViolation);
        i := i + 1;
      }
      assert s0[n..] == [];
      assert done.cells + [] == done.cells;
      output := Output(signals, remainders, anyViolation);
    }

    /** Iteration i of `process`'s loop, seen on the pass: cell i is fed `sig_in`, and the
        states, signals, remainders and violation flag move from prefix i to prefix i + 1. */
    method Iterate(ghost s0: seq<CellState>, first: bool, i: nat, ghost done: Pass,
                   signals: seq<bool>, remainders: seq<bool>, anyViolation: bool)
      returns (signals': seq<bool>, remainders': seq<bool>, anyViolation': bool, ghost next: Pass)
      requires Valid() && i < |s0| && done == PassPrefix(s0, first, i) && Holds(done.cells + s0[i..])
      requires signals == done.signals && remainders == done.remainders
      requires anyViolation == AnyViolation(done.cells)
      modifies cells
      ensures next == PassPrefix(s0, first, i + 1) && Holds(next.cells + s0[i + 1..])
      ensures signals' == next.signals && remainders' == next.remainders
      ensures anyViolation' == AnyViolation(next.cells)
    {
      var sigIn := if i == 0 then first else signals[i - 1];
      ghost var before := done.cells + s0[i..];
      assert before[i] == s0[i];
      var out, rem, violated := Stage(i, sigIn, before);
      next := PassPrefix(s0, first, i + 1);
      PassAdvances(s0, first, i, done, sigIn, out, rem, violated);
      signals' := signals + [out];
      remainders' := remainders + [rem];
      anyViolation' := anyViolation || violated;
    }

    /** Every cell holds its entry of s (stated cell by cell from cell 0 on, so that the
        solver unfolds it only as far as a proof asks). */
    ghost predicate Holds(s: seq<CellState>)
      reads cells
    {
      |s| == |cells| && HoldsFrom(s, 0)
    }

    /** Cells j, j + 1, ... hold their entries of s. */
    ghost predicate HoldsFrom(s: seq<CellState>, j: nat)
      requires |s| == |cells|
      reads cells
      decreases |cells| - j
    {
      j >= |cells| || (cells[j].State() == s[j] && HoldsFrom(s, j + 1))
    }

    /** HoldsFrom is the quantified statement. */
    lemma {:induction false} HoldsFromAll(s: seq<CellState>, j: nat)
      requires |s| == |cells|
      ensures HoldsFrom(s, j) <==> forall k :: j <= k < |cells| ==> cells[k].State() == s[k]
      decreases |cells| - j
    {
      if j < |cells| {
        HoldsFromAll(s, j + 1);
      }
    }

    /** Holds is the quantified statement. */
    lemma HoldsAll(s: seq<CellState>)
      ensures Holds(s) <==> |s| == |cells| && forall k :: 0 <= k < |cells| ==> cells[k].State() == s[k]
    {
      if |s| == |cells| {
        HoldsFromAll(s, 0);
      }
    }

    /** Holds is equality with the snapshot of all cell states. */
    lemma HoldsStates(s: seq<CellState>)
      ensures Holds(s) <==> States() == s
    {
      HoldsAll(s);
      assert States() == s ==> Holds(s);
    }

    /** One iteration of `process`'s loop on cell i, fed `sig_in`: the admission test
        against the cell's potential, its breath cycle and the reads of its remainder and
        violation flag. No other cell changes. */
    method Stage(i: nat, sigIn: bool, ghost before: seq<CellState>) returns (out: bool, rem: bool, violated: bool)
      requires Valid() && i < |cells| && Holds(before)
      modifies cells[i]
      ensures var c := StageCycle(before[i], sigIn);
        Holds(before[i := c.cell]) &&
        out == c.out && rem == c.cell.remainder && violated == c.cell.violation
    {
      HoldsAll(before);
      var cell := cells[i];
      var admit := sigIn != cell.potential;
      out := cell.BreathCycle(sigIn, admit);
      rem := cell.remainder;
      violated := cell.violation;
      HoldsAll(before[i := StageCycle(before[i], sigIn).cell]);
    }

    /** `reset()`: every cell back to zero and the breath counter cleared. */
    method Reset()
      requires Valid()
      modifies this, cells
      ensures Valid()
      ensures States() == seq(|cells|, _ => ZeroCell) && breathCount == 0
    {
      for i := 0 to |cells|
        invariant forall k :: 0 <= k < i ==> cells[k].State() == ZeroCell
      {
        var cell := cells[i];
        cell.phaseStep := 0;
        cell.potential := false;
        cell.signal := false;
        cell.remainder := false;
        cell.violation := false;
      }
      breathCount := 0;
    }
  }

  // ---------------------------------------------------------------------------------------
  // Properties of a pass

  /** Each cell's new potential is its input: the external bit for cell 0, the output of
      the cell before it otherwise. */
  lemma {:induction false} PassChains(s: seq<CellState>, first: bool, n: nat, k: nat)
    requires k < n <= |s|
    ensures var p := PassPrefix(s, first, n);
      p.cells[k].potential == if k == 0 then first else p.signals[k - 1]
  {
    if k < n - 1 {
      PassChains(s, first, n - 1, k);
    }
  }

  /** The 0≠1 check of a pass: cell k ends up newly violated exactly when its input, its
      old potential and its old signal coincide. */
  lemma {:induction false} PassViolations(s: seq<CellState>, first: bool, n: nat, k: nat)
    requires k < n <= |s|
    ensures var p := PassPrefix(s, first, n);
      var sigIn := if k == 0 then first else p.signals[k - 1];
      var rejected := sigIn == s[k].potential && s[k].signal == sigIn;
      (p.cells[k].violation <==> s[k].violation || rejected) &&
      p.signals[k] == (!rejected && !(sigIn && s[k].signal))
  {
    if k < n - 1 {
      PassViolations(s, first, n - 1, k);
    }
  }

  /** Violation flags survive any number of passes. */
  lemma {:induction false} PassKeepsViolations(s: seq<CellState>, first: bool, n: nat, k: nat)
    requires k < n <= |s| && s[k].violation
    ensures PassPrefix(s, first, n).cells[k].violation
  {
    if k < n - 1 {
      PassKeepsViolations(s, first, n - 1, k);
    }
  }

  // ---------------------------------------------------------------------------------------
  // PrimalMathEngine

  /** `bits_from_int(n, width)`: bit i is `(n >> i) & 1`; `>>` floors like Dafny's `/`. */
  function BitsFromInt(n: int, width: nat): (bits: seq<bool>)
    ensures |bits| == width
  {
    seq(width, i requires 0 <= i < width => (n / Pow2(i)) % 2 == 1)
  }

  /** `int_from_bits(bits)`: the sum of `int(b) << i`. */
  function IntFromBits(bits: seq<bool>): (v: nat)
    ensures v < Pow2(|bits|)
  {
    if |bits| == 0 then 0
    else IntFromBits(bits[..|bits| - 1]) + (if bits[|bits| - 1] then Pow2(|bits| - 1) else 0)
  }

  /** Reading back the `width` bits of n gives n modulo 2^width, so the round trip is exact
      for 0 <= n < 2^width. */
  lemma {:induction false} BitsRoundTrip(n: int, width: nat)
    ensures IntFromBits(BitsFromInt(n, width)) == n % Pow2(width)
    ensures 0 <= n < Pow2(width) ==> IntFromBits(BitsFromInt(n, width)) == n
  {
    if width > 0 {
      var w := width - 1;
      BitsRoundTrip(n, w);
      assert BitsFromInt(n, width)[..w] == BitsFromInt(n, w);
      LowBitsStep(n, Pow2(w));
    } else {
      assert n % 1 == 0;
    }
    if 0 <= n < Pow2(width) {
      DivUnique(n, Pow2(width), 0, n);
    }
  }

  /** n mod 2P is n mod P plus the next bit times P. */
  lemma LowBitsStep(n: int, p: nat)
    requires p >= 1
    ensures n % (2 * p) == n % p + ((n / p) % 2) * p
  {
    var q, r := n / p, n % p;
    var q2, b := q / 2, q % 2;
    assert n == p * q + r;
    assert q == 2 * q2 + b;
    assert n == (2 * p) * q2 + (b * p + r);
    DivUnique(n, 2 * p, q2, b * p + r);
  }

  /** The bits of `IntFromBits(prefix + [b])`: appending bit i adds `b << i`. */
  lemma IntFromBitsAppend(bits: seq<bool>, b: bool)
    ensures IntFromBits(bits + [b]) == IntFromBits(bits) + (if b then Pow2(|bits|) else 0)
  {
    assert (bits + [b])[..|bits|] == bits;
  }

  /** Element-wise `^` and `|` of two boolean arrays of the same length. */
  function XorBits(a: seq<bool>, b: seq<bool>): (c: seq<bool>)
    requires |a| == |b|
    ensures |c| == |a| && forall i :: 0 <= i < |a| ==> c[i] == (a[i] != b[i])
  {
    seq(|a|, i requires 0 <= i < |a| => a[i] != b[i])
  }

  function OrBits(a: seq<bool>, b: seq<bool>): (c: seq<bool>)
    requires |a| == |b|
    ensures |c| == |a| && forall i :: 0 <= i < |a| ==> c[i] == (a[i] || b[i])
  {
    seq(|a|, i requires 0 <= i < |a| => a[i] || b[i])
  }

  /** `PrimalMathEngine`: two independent eight-cell helices. */
  class PrimalMathEngine {
    const helixA: HelicalNANDArray
    const helixB: HelicalNANDArray

    predicate Valid()
    {
      helixA != helixB && helixA.Valid() && helixB.Valid() &&
      |helixA.cells| == 8 && |helixB.cells| == 8 &&
      (forall i, j :: 0 <= i < 8 && 0 <= j < 8 ==> helixA.cells[i] != helixB.cells[j])
    }

    constructor ()
      ensures Valid() && fresh(helixA) && fresh(helixB)
      ensures forall k :: 0 <= k < 8 ==> fresh(helixA.cells[k]) && fresh(helixB.cells[k])
      ensures helixA.States() == seq(8, _ => ZeroCell) && helixB.States() == seq(8, _ => ZeroCell)
      ensures helixA.breathCount == 0 && helixB.breathCount == 0
    {
      helixA := new HelicalNANDArray(8);
      helixB := new HelicalNANDArray(8);
    }

    /** `add(a, b)`: both bytes go through their helix; the outputs are XORed into the sum
        (no carry, as written) and the remainders ORed. */
    method Add(a: int, b: int) returns (sum: int, t1Remainder: seq<bool>)
      requires Valid()
      modifies helixA, helixB, helixA.cells, helixB.cells
      ensures Valid()
      ensures var pa := Propagate(old(helixA.States()), BitsFromInt(a, 8)[0]);
        var pb := Propagate(old(helixB.States()), BitsFromInt(b, 8)[0]);
        helixA.States() == pa.cells && helixB.States() == pb.cells &&
        sum == IntFromBits(XorBits(pa.signals, pb.signals)) &&
        t1Remainder == OrBits(pa.remainders, pb.remainders)
      ensures 0 <= sum < 256
      ensures helixA.breathCount == old(helixA.breathCount) + 1 && helixB.breathCount == old(helixB.breathCount) + 1
    {
      ghost var sa, sb := helixA.States(), helixB.States();
      var bitsA := BitsFromInt(a, 8);
      var bitsB := BitsFromInt(b, 8);
      var ra := helixA.Process(bitsA);
      assert helixB.States() == sb;
      var rb := helixB.Process(bitsB);
      assert helixA.States() == Propagate(sa, bitsA[0]).cells;
      var outA, outB := ra.value, rb.value;
      sum := IntFromBits(XorBits(outA.signals, outB.signals));
      t1Remainder := OrBits(outA.remainders, outB.remainders);
      assert Pow2(8) == 256;
    }

    /** `multiply(a, b)`: shift-add of helix A's output by the bits of helix B's output,
        masked to a byte; the remainders are XORed. */
    method Multiply(a: int, b: int) returns (product: int, t1Remainder: seq<bool>)
      requires Valid()
      modifies helixA, helixB, helixA.cells, helixB.cells
      ensures Valid()
      ensures var pa := Propagate(old(helixA.States()), BitsFromInt(a, 8)[0]);
        var pb := Propagate(old(helixB.States()), BitsFromInt(b, 8)[0]);
        helixA.States() == pa.cells && helixB.States() == pb.cells &&
        product == (IntFromBits(pa.signals) * IntFromBits(pb.signals)) % 256 &&
        t1Remainder == XorBits(pa.remainders, pb.remainders)
      ensures 0 <= product <= 255
      ensures helixA.breathCount == old(helixA.breathCount) + 1 && helixB.breathCount == old(helixB.breathCount) + 1
    {
      ghost var sa, sb := helixA.States(), helixB.States();
      var bitsA := BitsFromInt(a, 8);
      var bitsB := BitsFromInt(b, 8);
      var ra := helixA.Process(bitsA);
      assert helixB.States() == sb;
      var rb := helixB.Process(bitsB);
      assert helixA.States() == Propagate(sa, bitsA[0]).cells;
      var outA, outB := ra.value, rb.value;
      var aInt := IntFromBits(outA.signals);
      var result := ShiftAdd(aInt, outB.signals);
      product := result % 256;
      t1Remainder := XorBits(outA.remainders, outB.remainders);
    }
  }

  /** The shift-add loop of `multiply`: `result += a_int << i` for every set bit i. */
  method ShiftAdd(aInt: nat, bits: seq<bool>) returns (result: nat)
    ensures result == aInt * IntFromBits(bits)
  {
    result := 0;
    ghost var prefix: seq<bool> := [];
    for i := 0 to |bits|
      invariant prefix == bits[..i]
      invariant result == aInt * IntFromBits(prefix)
    {
      IntFromBitsAppend(prefix, bits[i]);
      Distribute(aInt, IntFromBits(prefix), if bits[i] then Pow2(i) else 0);
      if bits[i] {
        result := result + aInt * Pow2(i);
      }
      prefix := prefix + [bits[i]];
    }
    assert prefix == bits;
  }

  lemma Distribute(k: int, x: int, p: int)
    ensures k * (x + p) == k * x + k * p
  {
  }
}
