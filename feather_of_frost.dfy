/** feather_of_frost.py: subtraction as halving. Each node is made non-negative, halved with
    floor division, and kept when the half is a positive prime. */
module FeatherOfFrost {
  import opened Primality

  /** `abs(int(x)) // 2`. */
  function Halve(x: int): nat
  {
    (if x < 0 then -x else x) / 2
  }

  /** The halves `halve_and_filter` keeps, in input order, duplicates included. */
  function HalvedPrimes(signal: seq<int>): seq<int>
  {
    if signal == [] then []
    else
      var h := Halve(signal[|signal| - 1]);
      HalvedPrimes(signal[..|signal| - 1]) + (if h > 0 && IsPrime(h) then [h] else [])
  }

  /** `halve_and_filter(signal)`: one pass that appends each kept half. */
  method HalveAndFilter(signal: seq<int>) returns (crystallized: seq<int>)
    ensures crystallized == HalvedPrimes(signal)
  {
    crystallized := [];
    for i := 0 to |signal|
      invariant crystallized == HalvedPrimes(signal[..i])
    {
      assert signal[..i + 1][..i] == signal[..i];
      var n := if signal[i] < 0 then -signal[i] else signal[i];
      var halved := n / 2;
      var prime := IsPrimeTrial(halved);
      if halved > 0 && prime {
        crystallized := crystallized + [halved];
      }
    }
    assert signal[..|signal|] == signal;
  }

  /** The output is no longer than the input, and every element of it is a positive prime. */
  lemma {:induction false} HalvedPrimesBounds(signal: seq<int>)
    ensures |HalvedPrimes(signal)| <= |signal|
    ensures forall i :: 0 <= i < |HalvedPrimes(signal)| ==>
      HalvedPrimes(signal)[i] > 0 && IsPrime(HalvedPrimes(signal)[i])
  {
    if signal != [] {
      HalvedPrimesBounds(signal[..|signal| - 1]);
    }
  }

  /** Filtering works element by element: the result for a concatenation is the concatenation
      of the results, so the kept halves stay in input order. */
  lemma {:induction false} HalvedPrimesAppend(s: seq<int>, t: seq<int>)
    ensures HalvedPrimes(s + t) == HalvedPrimes(s) + HalvedPrimes(t)
    decreases |t|
  {
    if t == [] {
      assert s + t == s;
    } else {
      var t' := t[..|t| - 1];
      assert (s + t)[..|s + t| - 1] == s + t';
      assert (s + t)[|s + t| - 1] == t[|t| - 1];
      HalvedPrimesAppend(s, t');
    }
  }

  /** A value is in the output exactly when it is a prime half of some input node. */
  lemma {:induction false} HalvedPrimesMembers(signal: seq<int>, v: int)
    ensures v in HalvedPrimes(signal) <==>
      v > 0 && IsPrime(v) && exists i :: 0 <= i < |signal| && Halve(signal[i]) == v
  {
    if signal != [] {
      var init := signal[..|signal| - 1];
      HalvedPrimesMembers(init, v);
      if v > 0 && IsPrime(v) && (exists i :: 0 <= i < |signal| && Halve(signal[i]) == v) {
        var i :| 0 <= i < |signal| && Halve(signal[i]) == v;
        if i < |signal| - 1 {
          assert init[i] == signal[i];
        }
      }
      if exists i :: 0 <= i < |init| && Halve(init[i]) == v {
        var i :| 0 <= i < |init| && Halve(init[i]) == v;
        assert signal[i] == init[i];
      }
    }
  }
}
