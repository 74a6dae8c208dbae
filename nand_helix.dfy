/** nand_helix.py: a one-dimensional ring of NAND cells in which every cell is combined with
    the cell `delay` places behind it. */
module NandHelix {
  import opened Gates
  import opened Bits

  /** The index `delay` places behind `i` on a ring of `n` cells. Python's `%` floors,
      which for a positive modulus agrees with Dafny's Euclidean `%`. */
  function Behind(i: int, delay: int, n: nat): (j: nat)
    requires n > 0
    ensures j < n
  {
    (i - delay) % n
  }

  /** The state after one `step`, as a function of the state before it. */
  function HelixStep(s: seq<bool>, delay: int): (t: seq<bool>)
    ensures |t| == |s|
  {
    if |s| == 0 then [] else seq(|s|, i requires 0 <= i < |s| => Nand(s[i], s[Behind(i, delay, |s|)]))
  }

  /** `step(state, delay)`: fills a fresh array of the same length, reading `state` only. */
  method Step(state: array<bool>, delay: int) returns (next: array<bool>)
    ensures fresh(next)
    ensures next.Length == state.Length
    ensures next[..] == HelixStep(state[..], delay)
    ensures state[..] == old(state[..])
  {
    var n := state.Length;
    next := new bool[n](_ => false);
    var i := 0;
    while i < n
      invariant 0 <= i <= n
      invariant forall k :: 0 <= k < i ==> next[k] == Nand(state[k], state[Behind(k, delay, n)])
    {
      var a := state[i];
      var b := state[Behind(i, delay, n)];
      next[i] := Nand(a, b);
      i := i + 1;
    }
  }

  /** Cell i of the next state is the NAND of cell i and the cell `delay` behind it. */
  lemma HelixStepCell(s: seq<bool>, delay: int, i: int)
    requires 0 <= i < |s|
    ensures HelixStep(s, delay)[i] == !(s[i] && s[(i - delay) % |s|])
  {
  }

  /** When the delay is a whole number of turns, every cell meets itself: the step negates. */
  lemma WholeTurnNegates(s: seq<bool>, delay: int)
    requires |s| > 0 && delay % |s| == 0
    ensures forall i :: 0 <= i < |s| ==> HelixStep(s, delay)[i] == !s[i]
  {
    forall i | 0 <= i < |s|
      ensures HelixStep(s, delay)[i] == !s[i]
    {
      ShiftByTurns(i, delay, |s|);
    }
  }

  /** Delays that differ by the ring length give the same step. */
  lemma DelayPeriodic(s: seq<bool>, delay: int)
    ensures HelixStep(s, delay) == HelixStep(s, delay + |s|)
  {
    var n := |s|;
    if n > 0 {
      var t, u := HelixStep(s, delay), HelixStep(s, delay + n);
      forall i | 0 <= i < n
        ensures t[i] == u[i]
      {
        ShiftPlusTurn(i, delay, n);
        assert t[i] == Nand(s[i], s[Behind(i, delay, n)]);
        assert u[i] == Nand(s[i], s[Behind(i, delay + n, n)]);
      }
      assert t == u;
    }
  }

  lemma ShiftByTurns(i: int, delay: int, n: nat)
    requires n > 0 && 0 <= i < n && delay % n == 0
    ensures Behind(i, delay, n) == i
  {
    var q := delay / n;
    assert delay == n * q;
    DivUnique(i - delay, n, -q, i);
  }

  lemma ShiftPlusTurn(i: int, delay: int, n: nat)
    requires n > 0
    ensures Behind(i, delay + n, n) == Behind(i, delay, n)
  {
    var r := (i - delay) % n;
    var q := (i - delay) / n;
    assert i - delay == n * q + r;
    assert i - (delay + n) == n * (q - 1) + r;
    DivUnique(i - (delay + n), n, q - 1, r);
  }
}
