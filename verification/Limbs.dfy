/**
 Numbers written as sequences of 32-bit limbs, least significant first: the value of such a
 sequence and how it changes when the sequence does.
 */
module Limbs {
  import opened Powers

  const CAPACITY_LIMBS: nat := 320

  type uint32 = x: int | 0 <= x < 0x1_0000_0000

  /** What limb `k` counts: 2^(32k). */
  ghost function Weight(k: nat): (w: nat)
    ensures w > 0
  {
    Pow(0x1_0000_0000, k)
  }

  lemma WeightAdd(j: nat, k: nat)
    ensures Weight(j + k) == Weight(j) * Weight(k)
  {
    PowAdd(0x1_0000_0000, j, k);
  }

  lemma WeightMono(j: nat, k: nat)
    requires j <= k
    ensures Weight(j) <= Weight(k)
  {
    PowMono(0x1_0000_0000, j, k);
  }

  /** The smallest number a `Big` cannot hold. */
  ghost function Capacity(): (c: nat)
    ensures c > 0
  {
    Weight(CAPACITY_LIMBS)
  }

  /** `v` is what is left of `exact` when everything at or above the capacity is dropped. */
  ghost predicate Wraps(exact: int, v: nat) {
    v < Capacity() && v == exact % Capacity()
  }

  lemma WrapsDropped(exact: int, v: nat, dropped: nat)
    requires v < Capacity() && exact == v + dropped * Capacity()
    ensures exact >= 0 && Wraps(exact, v)
    ensures exact < Capacity() <==> dropped == 0
  {
    hide Capacity;
    DroppedMultiple(exact, v, dropped, Capacity());
  }

  lemma WrapsFits(exact: int, v: nat)
    requires 0 <= exact < Capacity() && Wraps(exact, v)
    ensures v == exact
  {
    hide Capacity;
    DivModUnique(exact, Capacity(), 0, exact);
  }

  lemma WrapsMul(a: nat, a': nat, b: nat, v: nat)
    requires Wraps(a, a') && Wraps(a' * b, v)
    ensures Wraps(a * b, v)
  {
    hide Capacity;
    ModMul(a, b, Capacity());
  }

  lemma WrapsAdd(a: nat, a': nat, b: nat, v: nat)
    requires Wraps(a, a') && Wraps(a' + b, v)
    ensures Wraps(a + b, v)
  {
    hide Capacity;
    ModAdd(a, b, Capacity());
  }

  ghost function LimbsValue(s: seq<uint32>): nat {
    if |s| == 0 then 0 else
      var last := |s| - 1;
      LimbsValue(s[..last]) + s[last] * Weight(last)
  }

  /** No leading zero limb. */
  ghost predicate Normal(s: seq<uint32>) {
    |s| > 0 ==> s[|s| - 1] != 0
  }

  lemma LimbsSnoc(s: seq<uint32>, x: uint32)
    ensures 0 <= x * Weight(|s|)
    ensures LimbsValue(s + [x]) == LimbsValue(s) + x * Weight(|s|)
  {
    var t := s + [x];
    assert t[..|s|] == s && t[|s|] == x;
    MulNonneg(x, Weight(|s|));
  }

  lemma {:induction false} LimbsConcat(s: seq<uint32>, t: seq<uint32>)
    ensures LimbsValue(s + t) == LimbsValue(s) + Weight(|s|) * LimbsValue(t)
  {
    if t == [] {
      assert s + t == s;
    } else {
      var last := |t| - 1;
      var u, x := t[..last], t[last];
      assert s + t == (s + u) + [x];
      LimbsConcat(s, u);
      LimbsSnoc(s + u, x);
      WeightAdd(|s|, last);
      var p, q := Weight(|s|), Weight(last);
      MulDistrib(p, LimbsValue(u), x * q);
      MulAssoc(p, x, q);
      MulAssoc(x, p, q);
    }
  }

  lemma LimbsNone(s: seq<uint32>)
    requires s == []
    ensures LimbsValue(s) == 0
  {
  }

  lemma LimbsOne(x: uint32)
    ensures LimbsValue([x]) == x
  {
    LimbsSnoc([], x);
    assert [] + [x] == [x];
  }

  lemma LimbsCons(x: uint32, s: seq<uint32>)
    ensures LimbsValue([x] + s) == x + 0x1_0000_0000 * LimbsValue(s)
  {
    LimbsConcat([x], s);
    LimbsOne(x);
    assert Weight(1) == 0x1_0000_0000 * Weight(0);
  }

  lemma LimbsUpdate(s: seq<uint32>, i: nat, x: uint32)
    requires i < |s|
    ensures LimbsValue(s[i := x]) == LimbsValue(s) + (x - s[i]) * Weight(i)
  {
    var a, b := s[..i], s[i + 1..];
    assert s == (a + [s[i]]) + b;
    assert s[i := x] == (a + [x]) + b;
    LimbsConcat(a + [s[i]], b);
    LimbsConcat(a + [x], b);
    LimbsSnoc(a, s[i]);
    LimbsSnoc(a, x);
  }

  lemma {:induction false} LimbsZeros(s: seq<uint32>)
    requires forall k :: 0 <= k < |s| ==> s[k] == 0
    ensures LimbsValue(s) == 0
  {
    if |s| > 0 {
      LimbsZeros(s[..|s| - 1]);
    }
  }

  lemma {:induction false} LimbsBound(s: seq<uint32>)
    ensures LimbsValue(s) < Weight(|s|)
  {
    if |s| > 0 {
      var last := |s| - 1;
      LimbsBound(s[..last]);
      var p, top: int := Weight(last), s[last];
      MulMono(top + 1, 0x1_0000_0000, p);
      MulDistrib(p, top, 1);
    }
  }

  /** A sequence with no leading zero limb is at least the weight of its top limb. */
  lemma NormalLower(s: seq<uint32>)
    requires Normal(s) && |s| > 0
    ensures LimbsValue(s) >= Weight(|s| - 1)
  {
    MulMono(1, s[|s| - 1], Weight(|s| - 1));
  }

  /** Two normalised sequences of different lengths compare as their lengths do. */
  lemma ShorterIsSmaller(s: seq<uint32>, t: seq<uint32>)
    requires Normal(t) && |s| < |t|
    ensures LimbsValue(s) < LimbsValue(t)
  {
    LimbsBound(s);
    NormalLower(t);
    WeightMono(|s|, |t| - 1);
  }

  lemma SplitAt(s: seq<uint32>, i: nat)
    requires i < |s|
    ensures LimbsValue(s) == LimbsValue(s[..i]) + s[i] * Weight(i) + Weight(i + 1) * LimbsValue(s[i + 1..])
  {
    assert s == (s[..i] + [s[i]]) + s[i + 1..];
    LimbsConcat(s[..i] + [s[i]], s[i + 1..]);
    LimbsSnoc(s[..i], s[i]);
  }

  /** Above a common suffix, the highest differing limb decides. */
  lemma HighestDecides(s: seq<uint32>, t: seq<uint32>, i: nat)
    requires |s| == |t| && i < |s| && s[i] < t[i]
    requires s[i + 1..] == t[i + 1..]
    ensures LimbsValue(s) < LimbsValue(t)
  {
    hide LimbsValue, Weight;
    var low, p, x: int, y: int := s[..i], Weight(i), s[i], t[i];
    SplitAt(s, i);
    SplitAt(t, i);
    LimbsBound(s[..i]);
    MulMono(x + 1, y, p);
    MulDistrib(p, x, 1);
  }

  lemma CapacityBound(s: seq<uint32>)
    requires |s| <= CAPACITY_LIMBS
    ensures LimbsValue(s) < Capacity()
  {
    LimbsBound(s);
    WeightMono(|s|, CAPACITY_LIMBS);
  }
}
