/** saltflower_unified_demo.py, the NAND half: `HelicalNANDCell`, whose breath cycle now
    counts its breaths and reports friction, and `RotationalNANDArray`, whose `process`
    chains the cells and sums the torque toll. The primality test at the head of the file
    is the 6k +/- 1 loop modelled by Primality.IsPrimeSixK. */
module SaltflowerDemo {
  import opened Wrappers
  import opened Gates
  import RN = RotationalNand
  import opened Bits

  /** The fields of `HelicalNANDCell`, the phase as a count of π/4 turns. */
  datatype DemoCell = DemoCell(phaseStep: RN.PhaseStep, potential: bool, signal: bool,
                               remainder: bool, violation: bool, breathCount: nat)

  /** `HelicalNANDCell(phase=i*np.pi/4)` as built by the array: only the phase is non-zero. */
  function InitialCell(i: nat): DemoCell
  {
    DemoCell(i % 8, false, false, false, false, 0)
  }

  /** The cells of a freshly built array of n cells. */
  function InitialCells(n: nat): (s: seq<DemoCell>)
    ensures |s| == n && forall i :: 0 <= i < n ==> s[i] == InitialCell(i)
  {
    seq(n, i requires 0 <= i < n => InitialCell(i))
  }

  /** What `breath_cycle` returns: a bare False on violation, else `(signal, has_friction)`. */
  datatype Breath = Violated | Emitted(signal: bool, friction: bool)

  datatype CycleResult = CycleResult(cell: DemoCell, outcome: Breath)

  /** `breath_cycle(signal_in, admit)` on a cell in state `c`. */
  function Cycle(c: DemoCell, signalIn: bool, admit: bool): CycleResult
  {
    var turned := c.(potential := signalIn, phaseStep := RN.Torque(c.phaseStep));
    if !admit && turned.signal == turned.potential then
      CycleResult(turned.(violation := true), Violated)
    else
      var s := Nand(turned.potential, turned.signal);
      CycleResult(turned.(signal := s, remainder := s != turned.potential, breathCount := c.breathCount + 1),
                  Emitted(s, RN.Friction(turned.phaseStep)))
  }

  /** `HelicalNANDCell`. */
  class HelicalNANDCell {
    var phaseStep: RN.PhaseStep
    var potential: bool
    var signal: bool
    var remainder: bool
    var violation: bool
    var breathCount: nat

    constructor (step: RN.PhaseStep)
      ensures State() == DemoCell(step, false, false, false, false, 0)
    {
      phaseStep, potential, signal, remainder, violation, breathCount := step, false, false, false, false, 0;
    }

    function State(): DemoCell
      reads this
    {
      DemoCell(phaseStep, potential, signal, remainder, violation, breathCount)
    }

    /** `apply_torque()`: one π/4 turn; friction when the new phase is an odd multiple of π/4. */
    method ApplyTorque() returns (friction: bool)
      modifies this
      ensures State() == old(State()).(phaseStep := RN.Torque(old(phaseStep)))
      ensures friction == RN.Friction(phaseStep)
    {
      phaseStep := RN.Torque(phaseStep);
      friction := RN.Friction(phaseStep);
    }

    /** `breath_cycle(signal_in, admit)`: inhale, hold, the 0≠1 check, exhale, count. */
    method BreathCycle(signalIn: bool, admit: bool) returns (outcome: Breath)
      modifies this
      ensures CycleResult(State(), outcome) == Cycle(old(State()), signalIn, admit)
    {
      potential := signalIn;
      var hasFriction := ApplyTorque();
      if !admit && signal == potential {
        violation := true;
        return Violated;
      }
      signal := Nand(potential, signal);
      remainder := signal != potential;
      breathCount := breathCount + 1;
      outcome := Emitted(signal, hasFriction);
    }
  }

  // ---------------------------------------------------------------------------------------
  // One cycle

  /** A cycle that passes the 0≠1 check answers `(signal, friction)` with the new signal the
      NAND of the input and the old signal, keeps signal XOR potential as the remainder and
      counts exactly one more breath. */
  lemma EmittedCycle(c: DemoCell, signalIn: bool, admit: bool)
    requires admit || c.signal != signalIn
    ensures var r := Cycle(c, signalIn, admit);
      r.outcome == Emitted(r.cell.signal, r.cell.phaseStep % 2 == 1) &&
      r.cell.signal == !(signalIn && c.signal) && r.cell.potential == signalIn &&
      r.cell.remainder == (r.cell.signal != r.cell.potential) &&
      r.cell.breathCount == c.breathCount + 1 && r.cell.violation == c.violation &&
      r.cell.phaseStep == (c.phaseStep + 1) % 8
  {
  }

  /** A cycle that fails it answers the bare False, raises `violation`, keeps signal,
      remainder and the breath count, and still records the input and turns the phase. */
  lemma ViolatedCycle(c: DemoCell, signalIn: bool, admit: bool)
    requires !admit && c.signal == signalIn
    ensures var r := Cycle(c, signalIn, admit);
      r.outcome == Violated && r.cell.violation && r.cell.potential == signalIn &&
      r.cell.signal == c.signal && r.cell.remainder == c.remainder &&
      r.cell.breathCount == c.breathCount && r.cell.phaseStep == (c.phaseStep + 1) % 8
  {
  }

  // ---------------------------------------------------------------------------------------
  // The array

  /** What a completed `process` returns: `(signals, remainders, torque_toll)`. */
  datatype Output = Output(signals: seq<bool>, remainders: seq<bool>, torqueToll: nat)

  /** How `process` can fail: `data_in[0]` on an empty input, or unpacking the bare False a
      violated cycle returns into `signal, friction`. */
  datatype Failure = IndexError | TypeError

  /** The loop of `process` after n iterations: the new states of the cells visited, the
      signals and remainders appended, the toll, `prev_signal`, and whether the last visited
      cell was violated (which ends the call). */
  datatype Progress = Progress(cells: seq<DemoCell>, signals: seq<bool>, remainders: seq<bool>,
                               toll: nat, prev: bool, failed: bool)

  /** `zip(self.cells, data_in)` stops at the shorter of the two. */
  function Visited(numCells: nat, numBits: nat): nat
  {
    if numCells < numBits then numCells else numBits
  }

  /** The first n iterations of `process` from cell states `s` on input `data`. Cell i is fed
      `prev_signal` (which starts as `data_in[0]`, the bit cell 0 is fed) and admitted when the
      raw bit `data_in[i]` differs from the cell's potential. Once a cell is violated the
      call has ended and nothing further happens. The toll never exceeds the number of
      signals, and a failed walk has visited one cell more than it has signals for. */
  function Walk(s: seq<DemoCell>, data: seq<bool>, n: nat): (p: Progress)
    requires |data| > 0 && n <= |s| && n <= |data|
    ensures |p.remainders| == |p.signals| && p.toll <= |p.signals|
    ensures !p.failed ==> |p.cells| == n && |p.signals| == n
    ensures p.failed ==> |p.cells| == |p.signals| + 1 && |p.cells| <= n
  {
    if n == 0 then Progress([], [], [], 0, data[0], false)
    else
      var p := Walk(s, data, n - 1);
      if p.failed then p
      else
        var r := Cycle(s[n - 1], p.prev, data[n - 1] != s[n - 1].potential);
        match r.outcome
        case Violated => p.(cells := p.cells + [r.cell], failed := true)
        case Emitted(sig, friction) =>
          Progress(p.cells + [r.cell], p.signals + [sig], p.remainders + [r.cell.remainder],
                   p.toll + (if friction then 1 else 0), sig, false)
  }

  /** `RotationalNANDArray`. */
  class RotationalNANDArray {
    const cells: seq<HelicalNANDCell>
    var torqueHistory: seq<nat>
    /** Where each cell sits in `cells`. */
    ghost const position: map<HelicalNANDCell, nat>

    /** The cells are distinct objects: each knows its own index. */
    ghost predicate Valid()
    {
      forall i :: 0 <= i < |cells| ==> cells[i] in position && position[cells[i]] == i
    }

    function States(): (s: seq<DemoCell>)
      reads cells
      ensures |s| == |cells|
    {
      seq(|cells|, i reads cells requires 0 <= i < |cells| => cells[i].State())
    }

    /** `RotationalNANDArray(num_cells)`: cell i starts at phase i·π/4; no history yet. */
    constructor (numCells: nat)
      ensures Valid() && |cells| == numCells && torqueHistory == []
      ensures States() == InitialCells(numCells)
      ensures forall k :: 0 <= k < numCells ==> fresh(cells[k])
    {
      var cs: seq<HelicalNANDCell> := [];
      ghost var pos: map<HelicalNANDCell, nat> := map[];
      while |cs| < numCells
        invariant |cs| <= numCells
        invariant forall k :: 0 <= k < |cs| ==> cs[k] in pos && pos[cs[k]] == k
        invariant forall k :: 0 <= k < |cs| ==> fresh(cs[k]) && cs[k].State() == InitialCell(k)
      {
        var c := new HelicalNANDCell(|cs| % 8);
        pos := pos[c := |cs|];
        cs := cs + [c];
      }
      cells := cs;
      position := pos;
      torqueHistory := [];
    }

    /** `process(data_in)`. An empty input raises IndexError before anything changes. A
        violated cell raises TypeError: the cells already visited (the violated one included)
        keep their new states and the history is not extended. Otherwise the call returns
        the walk's signals, remainders and toll and appends the toll to the history. */
    method Process(dataIn: seq<bool>) returns (r: Result<Output, Failure>)
      requires Valid()
      modifies this, cells
      ensures |dataIn| == 0 ==>
        r == Err(IndexError) && States() == old(States()) && torqueHistory == old(torqueHistory)
      ensures |dataIn| > 0 ==>
        var p := Walk(old(States()), dataIn, Visited(|cells|, |dataIn|));
        States() == p.cells + old(States())[|p.cells|..] &&
        (p.failed ==> r == Err(TypeError) && torqueHistory == old(torqueHistory)) &&
        (!p.failed ==> r == Ok(Output(p.signals, p.remainders, p.toll)) &&
                       torqueHistory == old(torqueHistory) + [p.toll])
    {
      if |dataIn| == 0 {
        return Err(IndexError);
      }
      var completed, output := Run(dataIn);
      if !completed {
        return Err(TypeError);
      }
      torqueHistory := torqueHistory + [output.torqueToll];
      r := Ok(output);
    }

    /** The loop of `process` once `data_in[0]` has been read; `completed` is false when a
        violated cycle ended it. */
    method Run(dataIn: seq<bool>) returns (completed: bool, output: Output)
      requires Valid() && |dataIn| > 0
      modifies cells
      ensures var p := Walk(old(States()), dataIn, Visited(|cells|, |dataIn|));
        States() == p.cells + old(States())[|p.cells|..] && completed == !p.failed &&
        (completed ==> output == Output(p.signals, p.remainders, p.toll))
    {
      ghost var s0 := States();
      var m := Visited(|cells|, |dataIn|);
      HoldsStates(s0);
      ghost var k;
      completed, output, k := Loop(s0, dataIn);
      if !completed {
        FailureEndsWalk(s0, dataIn, k, m);
      }
      ghost var p := Walk(s0, dataIn, k);
      HoldsStates(p.cells + s0[|p.cells|..]);
    }

    /** The `for` loop of `process` from cell states s0, up to the end of the shorter of
        `cells` and `data_in` or up to the first violated cell, cell k - 1, where unpacking
        the bare False ends the call. */
    method Loop(ghost s0: seq<DemoCell>, dataIn: seq<bool>) returns (completed: bool, output: Output, ghost k: nat)
      requires Valid() && |dataIn| > 0 && Holds(s0)
      modifies cells
      ensures k <= Visited(|cells|, |dataIn|)
      ensures var p := Walk(s0, dataIn, k);
        Holds(p.cells + s0[|p.cells|..]) && completed == !p.failed &&
        (completed ==> k == Visited(|cells|, |dataIn|) && output == Output(p.signals, p.remainders, p.toll))
    {
      var m := Visited(|cells|, |dataIn|);
      var signals: seq<bool> := [];
      var remainders: seq<bool> := [];
      var torqueToll: nat := 0;
      var prevSignal := dataIn[0];
      ghost var done := Walk(s0, dataIn, 0);
      assert done.cells + s0[0..] == s0;
      var i := 0;
      var stopped := false;
      while i < m && !stopped
        invariant i <= m && done == Walk(s0, dataIn, i) && stopped == done.failed && |done.cells| == i
        invariant Holds(done.cells + s0[i..])
        invariant signals == done.signals && remainders == done.remainders
        invariant torqueToll == done.toll && prevSignal == done.prev
        decreases m - i
      {
        stopped, signals, remainders, torqueToll, prevSignal, done :=
          Iterate(s0, dataIn, i, done, signals, remainders, torqueToll, prevSignal);
        i := i + 1;
      }
      completed, output, k := !stopped, Output(signals, remainders, torqueToll), i;
    }

    /** Every cell holds its entry of s (stated cell by cell from cell 0 on, so that the
        solver unfolds it only as far as a proof asks). */
    ghost predicate Holds(s: seq<DemoCell>)
      reads cells
    {
      |s| == |cells| && HoldsFrom(s, 0)
    }

    /** Cells j, j + 1, ... hold their entries of s. */
    ghost predicate HoldsFrom(s: seq<DemoCell>, j: nat)
      requires |s| == |cells|
      reads cells
      decreases |cells| - j
    {
      j >= |cells| || (cells[j].State() == s[j] && HoldsFrom(s, j + 1))
    }

    /** HoldsFrom is the quantified statement. */
    lemma {:induction false} HoldsFromAll(s: seq<DemoCell>, j: nat)
      requires |s| == |cells|
      ensures HoldsFrom(s, j) <==> forall k :: j <= k < |cells| ==> cells[k].State() == s[k]
      decreases |cells| - j
    {
      if j < |cells| {
        HoldsFromAll(s, j + 1);
      }
    }

    /** Holds is the quantified statement. */
    lemma HoldsAll(s: seq<DemoCell>)
      ensures Holds(s) <==> |s| == |cells| && forall k :: 0 <= k < |cells| ==> cells[k].State() == s[k]
    {
      if |s| == |cells| {
        HoldsFromAll(s, 0);
      }
    }

    /** Holds is equality with the snapshot of all cell states. */
    lemma HoldsStates(s: seq<DemoCell>)
      ensures Holds(s) <==> States() == s
    {
      HoldsAll(s);
      assert States() == s ==> Holds(s);
    }

    /** Iteration i of the loop, seen on the walk: cell i runs its cycle and the walk moves
        from prefix i to prefix i + 1, ending or extending the lists and the toll. */
    method Iterate(ghost s0: seq<DemoCell>, dataIn: seq<bool>, i: nat, ghost done: Progress,
                   signals: seq<bool>, remainders: seq<bool>, torqueToll: nat, prevSignal: bool)
      returns (stopped: bool, signals': seq<bool>, remainders': seq<bool>, torqueToll': nat, prevSignal': bool,
               ghost next: Progress)
      requires Valid() && |dataIn| > 0 && i < |cells| && i < |dataIn| && |s0| == |cells|
      requires done == Walk(s0, dataIn, i) && !done.failed && |done.cells| == i
      requires Holds(done.cells + s0[i..])
      requires signals == done.signals && remainders == done.remainders
      requires torqueToll == done.toll && prevSignal == done.prev
      modifies cells
      ensures next == Walk(s0, dataIn, i + 1) && stopped == next.failed && |next.cells| == i + 1
      ensures Holds(next.cells + s0[i + 1..])
      ensures signals' == next.signals && remainders' == next.remainders
      ensures torqueToll' == next.toll && prevSignal' == next.prev
    {
      var bit := dataIn[i];
      var sigIn := if i == 0 then bit else prevSignal;
      ghost var before := done.cells + s0[i..];
      assert before[i] == s0[i];
      var outcome, rem := Stage(i, sigIn, bit, before);
      WalkAdvances(s0, dataIn, i, done, outcome, rem);
      next := Walk(s0, dataIn, i + 1);
      if outcome.Violated? {
        return true, signals, remainders, torqueToll, prevSignal, next;
      }
      stopped := false;
      signals' := signals + [outcome.signal];
      remainders' := remainders + [rem];
      torqueToll' := torqueToll + (if outcome.friction then 1 else 0);
      prevSignal' := outcome.signal;
    }

    /** One iteration on cell i: the breath cycle fed `sigIn`, admitted when the raw input bit
        differs from the cell's potential, and the read of its remainder. */
    method Stage(i: nat, sigIn: bool, bit: bool, ghost before: seq<DemoCell>) returns (outcome: Breath, rem: bool)
      requires Valid() && i < |cells| && Holds(before)
      modifies cells[i]
      ensures var c := Cycle(before[i], sigIn, bit != before[i].potential);
        Holds(before[i := c.cell]) && outcome == c.outcome && rem == c.cell.remainder
    {
      HoldsAll(before);
      var cell := cells[i];
      outcome := cell.BreathCycle(sigIn, bit != cell.potential);
      rem := cell.remainder;
      forall j | 0 <= j < |cells| && j != i
        ensures cells[j] != cell
      {
        assert position[cells[j]] != position[cell];
      }
      HoldsAll(before[i := Cycle(before[i], sigIn, bit != before[i].potential).cell]);
    }
  }

  /** One iteration of the loop, seen on the walk so far: cell i's cycle moves the cell
      states to those of prefix i + 1, and either ends the walk or appends its outputs. */
  lemma WalkAdvances(s: seq<DemoCell>, data: seq<bool>, i: nat, done: Progress, outcome: Breath, rem: bool)
    requires |data| > 0 && i < |s| && i < |data| && done == Walk(s, data, i) && !done.failed
    requires var c := Cycle(s[i], done.prev, data[i] != s[i].potential);
      outcome == c.outcome && rem == c.cell.remainder
    ensures var next := Walk(s, data, i + 1);
      var c := Cycle(s[i], done.prev, data[i] != s[i].potential);
      |next.cells| == i + 1 && (done.cells + s[i..])[i := c.cell] == next.cells + s[i + 1..] &&
      outcome.Violated? == next.failed &&
      (outcome.Emitted? ==>
         next.signals == done.signals + [outcome.signal] && next.remainders == done.remainders + [rem] &&
         next.prev == outcome.signal && next.toll == done.toll + (if outcome.friction then 1 else 0))
  {
    var c := Cycle(s[i], done.prev, data[i] != s[i].potential);
    RN.SpliceStep(done.cells, s[i..], c.cell);
    assert s[i..][1..] == s[i + 1..];
  }

  // ---------------------------------------------------------------------------------------
  // Properties of a walk

  /** A violation ends the walk: later iterations change nothing. */
  lemma {:induction false} FailureEndsWalk(s: seq<DemoCell>, data: seq<bool>, i: nat, n: nat)
    requires |data| > 0 && i <= n <= |s| && n <= |data| && Walk(s, data, i).failed
    ensures Walk(s, data, n) == Walk(s, data, i)
    decreases n - i
  {
    if i < n {
      FailureEndsWalk(s, data, i, n - 1);
    }
  }

  /** Cell k of a walk ran the cycle `process` gives it: fed the input bit (k = 0) or the
      signal of cell k - 1, admitted when `data[k]` differs from its old potential. Every
      visited cell but a final violated one emitted its signal and remainder. */
  lemma {:induction false} WalkCells(s: seq<DemoCell>, data: seq<bool>, n: nat, k: nat)
    requires |data| > 0 && n <= |s| && n <= |data|
    requires k < |Walk(s, data, n).cells|
    ensures var p := Walk(s, data, n);
      var input := if k == 0 then data[0] else p.signals[k - 1];
      var r := Cycle(s[k], input, data[k] != s[k].potential);
      p.cells[k] == r.cell &&
      (k < |p.signals| ==> r.outcome.Emitted? && r.outcome.signal == p.signals[k] &&
                           p.remainders[k] == r.cell.remainder) &&
      (k == |p.signals| ==> r.outcome == Violated && p.failed)
  {
    WalkGrows(s, data, k, n);
    WalkGrows(s, data, k + 1, n);
    if k > 0 {
      WalkPrev(s, data, k);
    }
  }

  /** A longer walk extends a shorter one, and after a failure it stays where it stopped. */
  lemma {:induction false} WalkGrows(s: seq<DemoCell>, data: seq<bool>, i: nat, n: nat)
    requires |data| > 0 && i <= n <= |s| && n <= |data|
    ensures var p, q := Walk(s, data, i), Walk(s, data, n);
      p.cells <= q.cells && p.signals <= q.signals && p.remainders <= q.remainders &&
      (p.failed ==> q == p)
    decreases n - i
  {
    if i < n {
      WalkGrows(s, data, i, n - 1);
    }
  }

  /** `prev_signal` is the last signal emitted, or `data_in[0]` before any. */
  lemma {:induction false} WalkPrev(s: seq<DemoCell>, data: seq<bool>, n: nat)
    requires |data| > 0 && n <= |s| && n <= |data|
    ensures var p := Walk(s, data, n);
      !p.failed ==> p.prev == if n == 0 then data[0] else p.signals[n - 1]
  {
  }

  /** The toll counts the visited cells whose new phase is an odd multiple of π/4. */
  lemma {:induction false} WalkToll(s: seq<DemoCell>, data: seq<bool>, n: nat)
    requires |data| > 0 && n <= |s| && n <= |data|
    ensures var p := Walk(s, data, n);
      p.toll == OddSteps(s, |p.signals|)
  {
    if n > 0 {
      WalkToll(s, data, n - 1);
      var q := Walk(s, data, n - 1);
      if !q.failed {
        CycleTurnsPhase(s[n - 1], q.prev, data[n - 1] != s[n - 1].potential);
      }
    }
  }

  /** The number of the first k cells whose phase after one more turn is an odd multiple of π/4. */
  function OddSteps(s: seq<DemoCell>, k: nat): (count: nat)
    requires k <= |s|
    ensures count <= k
  {
    if k == 0 then 0 else OddSteps(s, k - 1) + (if RN.Friction(RN.Torque(s[k - 1].phaseStep)) then 1 else 0)
  }

  lemma CycleTurnsPhase(c: DemoCell, signalIn: bool, admit: bool)
    ensures Cycle(c, signalIn, admit).cell.phaseStep == RN.Torque(c.phaseStep)
  {
  }

  // ---------------------------------------------------------------------------------------
  // A freshly built array

  /** A fresh array fed a leading False fails at cell 0: 0 enters a cell whose signal and
      potential are both False, and the check is skipped only when `data_in[0]` differs
      from the potential. */
  lemma FreshArrayRejectsLeadingZero(numCells: nat, data: seq<bool>)
    requires numCells > 0 && |data| > 0 && !data[0]
    ensures var p := Walk(InitialCells(numCells), data, Visited(numCells, |data|));
      p.failed && |p.cells| == 1 && p.cells[0].violation
  {
    var s := InitialCells(numCells);
    assert Walk(s, data, 1).failed;
    FailureEndsWalk(s, data, 1, Visited(numCells, |data|));
  }

  /** A fresh array fed a leading True completes: every visited cell answers True with a
      False remainder, and the toll is the number of even cell indices visited (cell i
      turns from phase i·π/4 to (i+1)·π/4). */
  lemma {:induction false} FreshArrayLeadingOne(numCells: nat, data: seq<bool>, n: nat)
    requires |data| > 0 && data[0] && n <= numCells && n <= |data|
    ensures var p := Walk(InitialCells(numCells), data, n);
      !p.failed && p.prev &&
      (forall k :: 0 <= k < n ==> p.signals[k] && !p.remainders[k]) &&
      p.toll == (n + 1) / 2
  {
    if n > 0 {
      FreshArrayLeadingOne(numCells, data, n - 1);
      var s := InitialCells(numCells);
      var q := Walk(s, data, n - 1);
      var admit := data[n - 1] != s[n - 1].potential;
      assert s[n - 1] == InitialCell(n - 1);
      FreshCellAnswersTrue(n - 1, admit);
      var r := Cycle(s[n - 1], true, admit);
      var p := Walk(s, data, n);
      assert p.signals == q.signals + [true] && p.remainders == q.remainders + [false];
      assert p.toll == q.toll + (if (n - 1) % 2 == 0 then 1 else 0);
      HalfUp(n);
    }
  }

  lemma HalfUp(n: nat)
    requires n > 0
    ensures n / 2 + (if (n - 1) % 2 == 0 then 1 else 0) == (n + 1) / 2
  {
  }

  /** A fresh cell fed True emits True with a False remainder, with friction exactly when
      its index is even. */
  lemma FreshCellAnswersTrue(i: nat, admit: bool)
    ensures var r := Cycle(InitialCell(i), true, admit);
      r.outcome == Emitted(true, i % 2 == 0) && !r.cell.remainder
  {
    var q, j := i / 8, i % 8;
    assert i == 2 * (4 * q + j / 2) + j % 2;
    DivUnique(i, 2, 4 * q + j / 2, j % 2);
    if j < 7 {
      assert RN.Torque(j) == j + 1;
    }
  }
}
