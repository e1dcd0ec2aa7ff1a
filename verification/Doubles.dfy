/**
 Finite non-negative IEEE 754 binary64 values as bit patterns: the number a pattern denotes, the
 order and spacing of those numbers, and rounding to the nearest with ties to even.
 */
module Doubles {
  import opened Powers

  predicate Finite(bits: nat) {
    bits < 0x7ff0_0000_0000_0000
  }

  /** The integer significand, with the implicit bit of a normal number. */
  function Mant(bits: nat): nat {
    if bits / 0x10_0000_0000_0000 == 0 then bits % 0x10_0000_0000_0000
    else bits % 0x10_0000_0000_0000 + 0x10_0000_0000_0000
  }

  /** The power of two the significand is scaled by; subnormals share the smallest. */
  function Exp2(bits: nat): int {
    var e := bits / 0x10_0000_0000_0000;
    if e == 0 then -1074 else e - 1075
  }

  /** b^e for any integer exponent. */
  function RPow(b: nat, e: int): (r: real)
    requires b > 0
    ensures r > 0.0
  {
    if e >= 0 then Pow(b, e) as real else 1.0 / (Pow(b, -e) as real)
  }

  /** A product, named so that it can be kept out of sight where only sums matter. */
  function Times(x: real, y: real): real {
    x * y
  }

  function Value(bits: nat): real {
    Times(Mant(bits) as real, RPow(2, Exp2(bits)))
  }

  // ---- powers ----

  lemma RPowStep(b: nat, e: int)
    requires b > 0
    ensures RPow(b, e + 1) == b as real * RPow(b, e)
  {
    if e >= 0 {
      assert Pow(b, e + 1) == b * Pow(b, e);
    } else {
      var p := Pow(b, -e - 1);
      assert Pow(b, -e) == b * p;
      InverseStep(b as real, p as real);
    }
  }

  lemma InverseStep(b: real, p: real)
    requires b > 0.0 && p > 0.0
    ensures b * p > 0.0 && 1.0 / p == b * (1.0 / (b * p))
  {
  }

  lemma {:induction false} RPowAdd(b: nat, x: int, y: int)
    requires b > 0
    ensures RPow(b, x + y) == RPow(b, x) * RPow(b, y)
    decreases if y < 0 then -y else y
  {
    hide RPow;
    if y == 0 {
      RPowZero(b);
    } else if y > 0 {
      RPowAdd(b, x, y - 1);
      RPowStep(b, x + y - 1);
      RPowStep(b, y - 1);
      RMulSwap(RPow(b, x), b as real, RPow(b, y - 1));
    } else {
      RPowAdd(b, x, y + 1);
      RPowStep(b, x + y);
      RPowStep(b, y);
      RMulSwap(RPow(b, x), b as real, RPow(b, y));
      RMulCancel(b as real, RPow(b, x + y), RPow(b, x) * RPow(b, y));
    }
  }

  lemma RPowTimes(b: nat, x: int, y: int)
    requires b > 0
    ensures Times(RPow(b, x), RPow(b, y)) == RPow(b, x + y)
  {
    hide RPow;
    RPowAdd(b, x, y);
  }

  lemma RPowZero(b: nat)
    requires b > 0
    ensures RPow(b, 0) == 1.0
  {
  }

  lemma RPowPositive(b: nat, e: int)
    requires b > 0
    ensures RPow(b, e) > 0.0
  {
  }

  lemma RPowNat(b: nat, e: nat)
    requires b > 0
    ensures RPow(b, e) == Pow(b, e) as real
  {
  }

  lemma RMulSwap(a: real, b: real, c: real)
    ensures a * (b * c) == b * (a * c)
    ensures (a * b) * c == a * (b * c)
  {
  }

  lemma RMulCancel(a: real, x: real, y: real)
    requires a > 0.0 && a * x == a * y
    ensures x == y
  {
  }

  // ---- units ----

  /** Every finite double is a whole number of units of 2^-1074: this many. */
  ghost function Units(bits: nat): nat {
    Mant(bits) * Gap(bits)
  }

  /** The distance in units to the next double up. */
  ghost function Gap(bits: nat): (g: nat)
    ensures g > 0
  {
    Pow(2, Exp2(bits) + 1074)
  }

  /** How many units make one. */
  ghost function Scale(): (s: real)
    ensures s > 0.0
  {
    RPow(2, 1074)
  }

  lemma ValueUnits(bits: nat)
    ensures Value(bits) * Scale() == Units(bits) as real
  {
    hide Pow, RPow;
    RPowAdd(2, Exp2(bits), 1074);
    RPowNat(2, Exp2(bits) + 1074);
    RMulSwap(Mant(bits) as real, RPow(2, Exp2(bits)), RPow(2, 1074));
    CastMul(Mant(bits), Gap(bits));
  }

  lemma CastMul(a: int, b: int)
    ensures (a * b) as real == a as real * b as real
  {
  }

  /** The next pattern is one gap up, across exponents and from the subnormals to the normals. */
  lemma NextUnits(bits: nat)
    ensures Units(bits + 1) == Units(bits) + Gap(bits)
    ensures Gap(bits) <= Gap(bits + 1) <= 2 * Gap(bits)
  {
    var e, frac := bits / 0x10_0000_0000_0000, bits % 0x10_0000_0000_0000;
    if frac < 0xf_ffff_ffff_ffff {
      NextBits(bits, e, frac);
      assert Exp2(bits + 1) == Exp2(bits) && Mant(bits + 1) == Mant(bits) + 1;
      MulDistrib(Gap(bits), Mant(bits), 1);
    } else {
      NextBits(bits, e, frac);
      if e > 0 {
        assert Pow(2, Exp2(bits) + 1075) == 2 * Pow(2, Exp2(bits) + 1074);
      }
    }
  }

  lemma NextBits(bits: nat, e: nat, frac: nat)
    requires bits == e * 0x10_0000_0000_0000 + frac && frac < 0x10_0000_0000_0000
    ensures frac < 0xf_ffff_ffff_ffff ==>
              (bits + 1) / 0x10_0000_0000_0000 == e && (bits + 1) % 0x10_0000_0000_0000 == frac + 1
    ensures frac == 0xf_ffff_ffff_ffff ==>
              (bits + 1) / 0x10_0000_0000_0000 == e + 1 && (bits + 1) % 0x10_0000_0000_0000 == 0
  {
  }

  /** At least one gap of the lower pattern for every step between two patterns. */
  lemma {:induction false} UnitsApart(a: nat, b: nat)
    requires a <= b
    ensures Units(b) >= Units(a) + (b - a) * Gap(a)
    ensures Gap(b) >= Gap(a)
    decreases b - a
  {
    hide Units, Gap;
    if a < b {
      UnitsApart(a, b - 1);
      NextUnits(b - 1);
      MulDistrib(Gap(a), b - 1 - a, 1);
    }
  }

  lemma UnitsIncrease(a: nat, b: nat)
    requires a < b
    ensures Units(a) < Units(b)
  {
    hide Units, Gap;
    UnitsApart(a, b);
    MulMono(1, b - a, Gap(a));
  }

  lemma ScaleCompare(a: real, b: real, s: real)
    requires s > 0.0
    ensures a < b <==> a * s < b * s
    ensures a == b <==> a * s == b * s
  {
    if a < b {
      assert (b - a) * s > 0.0;
    } else if a > b {
      assert (a - b) * s > 0.0;
    }
  }

  lemma ValueIncrease(a: nat, b: nat)
    requires a < b
    ensures Value(a) < Value(b)
  {
    hide Value, Units, Scale;
    UnitsIncrease(a, b);
    ValueUnits(a);
    ValueUnits(b);
    ScaleCompare(Value(a), Value(b), Scale());
  }

  lemma ValueMonotone(a: nat, b: nat)
    requires a <= b
    ensures Value(a) <= Value(b)
  {
    if a < b {
      ValueIncrease(a, b);
    }
  }

  lemma ValueZero()
    ensures Value(0) == 0.0
    ensures forall b: nat :: Value(b) >= 0.0
  {
    assert Mant(0) == 0;
    forall b: nat ensures Value(b) >= 0.0 {
      ValueMonotone(0, b);
    }
  }

  // ---- rounding to nearest, ties to even (section 4.3.1 of IEEE 754-2008) ----

  function Abs(x: real): real {
    if x < 0.0 then -x else x
  }

  ghost predicate IsNearest(x: real, r: nat) {
    Finite(r) && forall c: nat :: Finite(c) ==> Abs(Value(r) - x) <= Abs(Value(c) - x)
  }

  /** `r` is nearest to `x` among the finite doubles, and even when another is as near. */
  ghost predicate IsNearestEven(x: real, r: nat) {
    && IsNearest(x, r)
    && (forall c: nat :: Finite(c) && c != r && Abs(Value(c) - x) == Abs(Value(r) - x) ==> r % 2 == 0)
  }

  /** Between two neighbours, the side of the midpoint `x` lies on decides. */
  lemma NearestInBracket(x: real, lo: nat, r: nat)
    requires Finite(lo + 1) && Value(lo) <= x <= Value(lo + 1)
    requires var mid := (Value(lo) + Value(lo + 1)) / 2.0;
             r == if x < mid then lo else if x > mid then lo + 1 else if lo % 2 == 0 then lo else lo + 1
    ensures IsNearestEven(x, r)
  {
    hide Value;
    ValueIncrease(lo, lo + 1);
    forall c: nat | Finite(c)
      ensures c <= lo ==> Value(c) <= Value(lo)
      ensures c >= lo + 1 ==> Value(c) >= Value(lo + 1)
      ensures c < lo ==> Value(c) < Value(lo)
      ensures c > lo + 1 ==> Value(c) > Value(lo + 1)
    {
      if c < lo { ValueIncrease(c, lo); }
      if c > lo + 1 { ValueIncrease(lo + 1, c); }
    }
  }

  lemma NearestExact(b: nat)
    requires Finite(b)
    ensures IsNearestEven(Value(b), b)
  {
    hide Value;
    forall c: nat | Finite(c) && c != b
      ensures Value(c) != Value(b)
    {
      if c < b { ValueIncrease(c, b); } else { ValueIncrease(b, c); }
    }
  }

  /** There is only one such double. */
  lemma NearestUnique(x: real, a: nat, b: nat)
    requires IsNearestEven(x, a) && IsNearestEven(x, b)
    ensures a == b
  {
    hide Value;
    if a + 1 < b {
      CloserBetween(x, a, b);
    } else if b + 1 < a {
      CloserBetween(x, b, a);
    }
  }

  /** Of three doubles the middle one is strictly nearer to a point equally far from the others. */
  lemma CloserBetween(x: real, a: nat, b: nat)
    requires a + 1 < b && Abs(Value(a) - x) == Abs(Value(b) - x)
    ensures Abs(Value(a + 1) - x) < Abs(Value(a) - x)
  {
    hide Value;
    ValueIncrease(a, a + 1);
    ValueIncrease(a + 1, b);
  }

  // ---- the rounding the processor does ----

  /** The largest pattern from `lo` up to but not including `hi` whose value is at most `x`, found by
      bisection; `lo` when there is none. */
  function FloorIn(x: real, lo: nat, hi: nat): (f: nat)
    requires lo < hi
    ensures lo <= f < hi
    decreases hi - lo
  {
    if lo + 1 == hi then lo else
      var mid := (lo + hi) / 2;
      if Value(mid) <= x then FloorIn(x, mid, hi) else FloorIn(x, lo, mid)
  }

  lemma {:induction false} FloorInBrackets(x: real, lo: nat, hi: nat)
    requires lo < hi && Value(lo) <= x
    ensures Value(FloorIn(x, lo, hi)) <= x
    ensures FloorIn(x, lo, hi) + 1 == hi || x < Value(FloorIn(x, lo, hi) + 1)
    decreases hi - lo
  {
    hide Value;
    if lo + 1 < hi {
      var mid := (lo + hi) / 2;
      if Value(mid) <= x {
        FloorInBrackets(x, mid, hi);
      } else {
        FloorInBrackets(x, lo, mid);
      }
    }
  }

  /** Where overflow begins: half a unit in the last place above the largest finite double. */
  function OverflowAt(): real {
    Value(0x7fef_ffff_ffff_ffff) + RPow(2, 970)
  }

  /** The result of an operation whose exact value is `x` >= 0, in the default rounding direction. */
  function Round(x: real): (r: nat) {
    if x >= OverflowAt() then 0x7ff0_0000_0000_0000 else
      var lo := FloorIn(x, 0, 0x7ff0_0000_0000_0000);
      if lo == 0x7fef_ffff_ffff_ffff then lo else
        var mid := (Value(lo) + Value(lo + 1)) / 2.0;
        if x < mid then lo else if x > mid then lo + 1 else if lo % 2 == 0 then lo else lo + 1
  }

  lemma RoundIsNearest(x: real)
    requires x >= 0.0
    ensures x <= Value(0x7fef_ffff_ffff_ffff) ==> IsNearestEven(x, Round(x))
    ensures x >= OverflowAt() ==> Round(x) == 0x7ff0_0000_0000_0000
    ensures Value(0x7fef_ffff_ffff_ffff) <= x < OverflowAt() ==> Round(x) == 0x7fef_ffff_ffff_ffff
    ensures Finite(Round(x)) || x >= OverflowAt()
  {
    hide Value, RPow;
    ValueZero();
    if x < OverflowAt() {
      var lo := FloorIn(x, 0, 0x7ff0_0000_0000_0000);
      FloorInBrackets(x, 0, 0x7ff0_0000_0000_0000);
      if lo == 0x7fef_ffff_ffff_ffff {
        NearestExact(lo);
      } else {
        NearestInBracket(x, lo, Round(x));
        ValueMonotone(lo + 1, 0x7fef_ffff_ffff_ffff);
      }
    }
  }

  /** A value that is a double rounds to itself. */
  lemma RoundExact(b: nat)
    requires Finite(b)
    ensures Round(Value(b)) == b
  {
    hide Value;
    ValueZero();
    ValueMonotone(b, 0x7fef_ffff_ffff_ffff);
    RoundIsNearest(Value(b));
    NearestExact(b);
    NearestUnique(Value(b), b, Round(Value(b)));
  }
}
