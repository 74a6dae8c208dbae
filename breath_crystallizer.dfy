/** breath_crystallizer.py: a crystallizer that inhales a signal, holds it (halving and prime
    filtering it, and adding the survivors to a duplicate-free crystal list), exhales (counts a
    cycle) and resets (clears the signal, keeps the crystals). */
module BreathCrystallizer {
  import opened Wrappers
  import opened Primality
  import opened FeatherOfFrost

  predicate Distinct(xs: seq<int>)
  {
    forall i, j :: 0 <= i < j < |xs| ==> xs[i] != xs[j]
  }

  function Elements(xs: seq<int>): set<int>
  {
    set x | x in xs
  }

  /** `list(set(xs))`: every element once. Python lists them in its set's order; this keeps
      first occurrences, and the contract admits any order. */
  method Deduplicate(xs: seq<int>) returns (ys: seq<int>)
    ensures Distinct(ys)
    ensures Elements(ys) == Elements(xs)
  {
    ys := [];
    for i := 0 to |xs|
      invariant Distinct(ys)
      invariant Elements(ys) == Elements(xs[..i])
    {
      assert xs[..i + 1] == xs[..i] + [xs[i]];
      assert Elements(xs[..i + 1]) == Elements(xs[..i]) + {xs[i]};
      if xs[i] !in ys {
        assert Elements(ys + [xs[i]]) == Elements(ys) + {xs[i]};
        ys := ys + [xs[i]];
      }
    }
    assert xs[..|xs|] == xs;
  }

  /** The set of crystals after one breath of `signal`. */
  function AfterBreath(crystals: set<int>, signal: seq<int>): set<int>
  {
    crystals + Elements(HalvedPrimes(signal))
  }

  /** Crystals are positive primes, and a breath keeps them so: it only adds prime halves of the
      signal. */
  lemma BreathAddsPrimeHalves(crystals: set<int>, signal: seq<int>)
    requires forall c :: c in crystals ==> c > 0 && IsPrime(c)
    ensures crystals <= AfterBreath(crystals, signal)
    ensures forall c :: c in AfterBreath(crystals, signal) ==> c > 0 && IsPrime(c)
    ensures forall c :: c in AfterBreath(crystals, signal) && c !in crystals ==>
      exists i :: 0 <= i < |signal| && Halve(signal[i]) == c
  {
    forall c | c in AfterBreath(crystals, signal) && c !in crystals
      ensures c > 0 && IsPrime(c) && exists i :: 0 <= i < |signal| && Halve(signal[i]) == c
    {
      HalvedPrimesMembers(signal, c);
    }
  }

  /** Breathing the same signal twice leaves the crystals as one breath left them. */
  lemma BreathIdempotent(crystals: set<int>, signal: seq<int>)
    ensures AfterBreath(AfterBreath(crystals, signal), signal) == AfterBreath(crystals, signal)
  {
  }

  class Crystallizer {
    const maxDepth: int
    /** `self.crystallized`, the persistent lattice nodes. */
    var crystallized: seq<int>
    var cycleCount: nat
    /** `self.current_signal`; None until the first `inhale`, when the attribute does not exist yet. */
    var currentSignal: Option<seq<int>>

    constructor (maxDepth: int)
      ensures this.maxDepth == maxDepth
      ensures crystallized == [] && cycleCount == 0 && currentSignal == None
    {
      this.maxDepth := maxDepth;
      crystallized := [];
      cycleCount := 0;
      currentSignal := None;
    }

    /** `inhale(signal)`: absorb the signal. */
    method Inhale(signal: seq<int>)
      modifies this
      ensures currentSignal == Some(signal)
      ensures crystallized == old(crystallized) && cycleCount == old(cycleCount)
    {
      currentSignal := Some(signal);
    }

    /** `hold()`: halve and filter the current signal and add it to the crystals, deduplicated.
        Before any `inhale` the attribute is missing and Python raises; `ok` is false then and
        nothing changes. */
    method Hold() returns (ok: bool)
      modifies this
      ensures ok == old(currentSignal).Some?
      ensures !ok ==> currentSignal == old(currentSignal) && crystallized == old(crystallized)
      ensures ok ==> currentSignal == Some(HalvedPrimes(old(currentSignal).value))
      ensures ok ==> Distinct(crystallized)
      ensures ok ==> Elements(crystallized) == AfterBreath(Elements(old(crystallized)), old(currentSignal).value)
      ensures cycleCount == old(cycleCount)
    {
      if currentSignal.None? {
        return false;
      }
      var halved := HalveAndFilter(currentSignal.value);
      currentSignal := Some(halved);
      crystallized := Deduplicate(crystallized + halved);
      assert Elements(old(crystallized) + halved) == Elements(old(crystallized)) + Elements(halved);
      return true;
    }

    /** The counting part of `exhale()`: one more cycle. */
    method Exhale()
      modifies this
      ensures cycleCount == old(cycleCount) + 1
      ensures crystallized == old(crystallized) && currentSignal == old(currentSignal)
    {
      cycleCount := cycleCount + 1;
    }

    /** `reset()`: empty the current signal; the crystals keep their set of values. */
    method Reset()
      modifies this
      ensures currentSignal == Some([])
      ensures Distinct(crystallized) && Elements(crystallized) == Elements(old(crystallized))
      ensures cycleCount == old(cycleCount)
    {
      currentSignal := Some([]);
      crystallized := Deduplicate(crystallized);
    }

    /** `breathe(signal)`: inhale, hold, exhale, reset. */
    method Breathe(signal: seq<int>)
      modifies this
      ensures currentSignal == Some([])
      ensures Distinct(crystallized)
      ensures Elements(crystallized) == AfterBreath(Elements(old(crystallized)), signal)
      ensures cycleCount == old(cycleCount) + 1
    {
      Inhale(signal);
      var ok := Hold();
      Exhale();
      Reset();
    }
  }
}
