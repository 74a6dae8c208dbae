/** unwrap.py: unwrap a 32-bit seed into successive halved "presents", each labelled by
    whether the halved value is prime. The seed (a SHA-256 digest reduced mod 2^32 in the
    source) is taken as given. */
module Unwrap {
  import opened Bits
  import opened Primality

  datatype Present = Present(layer: nat, value: nat, note: string)

  const PrimeGift := "Prime gift!"
  const WrappedDeeper := "Wrapped deeper..."

  /** The value at layer k: the seed halved k + 1 times with floor division. */
  function LayerValue(seed: nat, k: nat): nat
  {
    if k == 0 then seed / 2 else LayerValue(seed, k - 1) / 2
  }

  function Label(v: nat): string
  {
    if IsPrime(v) then PrimeGift else WrappedDeeper
  }

  /** The present handed out at layer k. */
  function PresentAt(seed: nat, k: nat): Present
  {
    Present(k, LayerValue(seed, k), Label(LayerValue(seed, k)))
  }

  /** `unwrap_to_primes` with the seed given: one present per layer in `range(layers)`. */
  method UnwrapToPrimes(seed: nat, layers: int) returns (presents: seq<Present>)
    ensures |presents| == if layers > 0 then layers else 0
    ensures forall k :: 0 <= k < |presents| ==>
      presents[k] == PresentAt(seed, k)
  {
    presents := [];
    var current := seed;
    var layer := 0;
    while layer < layers
      invariant 0 <= layer <= if layers > 0 then layers else 0
      invariant |presents| == layer
      invariant current == if layer == 0 then seed else LayerValue(seed, layer - 1)
      invariant forall k :: 0 <= k < layer ==>
        presents[k] == PresentAt(seed, k)
    {
      var halved := current / 2;
      assert halved == LayerValue(seed, layer);
      var prime := IsPrimeSixK(halved);
      var present := Present(layer, halved, if prime then PrimeGift else WrappedDeeper);
      assert present == PresentAt(seed, layer);
      presents := presents + [present];
      current := halved;
      layer := layer + 1;
    }
  }

  lemma DivTwice(a: nat, p: nat)
    requires p >= 1
    ensures (a / p) / 2 == a / (p * 2)
  {
    var q := a / p;
    var r := a % p;
    var q2 := q / 2;
    var r2 := q % 2;
    assert a == p * q + r;
    assert q == 2 * q2 + r2;
    assert p * q == (p * 2) * q2 + p * r2;
    assert 0 <= p * r2 <= p;
    DivUnique(a, p * 2, q2, p * r2 + r);
  }

  /** Layer k holds `seed // 2 ** (k + 1)`. */
  lemma {:induction false} LayerValueIsShift(seed: nat, k: nat)
    ensures LayerValue(seed, k) == seed / Pow2(k + 1)
  {
    if k > 0 {
      LayerValueIsShift(seed, k - 1);
      DivTwice(seed, Pow2(k));
    }
  }

  /** The values never grow from one layer to the next. */
  lemma {:induction false} LayerValuesNonIncreasing(seed: nat, j: nat, k: nat)
    requires j <= k
    ensures LayerValue(seed, k) <= LayerValue(seed, j)
    decreases k - j
  {
    if j < k {
      LayerValuesNonIncreasing(seed, j, k - 1);
    }
  }

  /** A seed below 2^32 (as `% 2**32` guarantees) gives every layer a value below 2^31. */
  lemma {:induction false} LayerValueBound(seed: nat, k: nat)
    requires seed < 0x1_0000_0000
    ensures LayerValue(seed, k) < 0x8000_0000
  {
    if k > 0 {
      LayerValuesNonIncreasing(seed, 0, k);
    }
  }
}
