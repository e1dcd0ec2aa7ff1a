/**
 Seventeen digits are enough: the exact digits of a double, rounded to seventeen, read back as the
 same double. This is the law of %.17g.
 */
module RoundTrip {
  import opened Powers
  import opened Digits
  import opened Doubles
  import opened Decimals
  import opened Guess
  import opened BigInt
  import opened DecFromDouble
  import opened DecRound
  import opened DecToDouble

  /** Nearer to a double than half the gap below it, and so nearest to it: the gap above is no
      smaller. */
  lemma NearestClose(x: real, b: nat)
    requires 0 < b && Finite(b) && 2.0 * Abs(x - Value(b)) < Value(b) - Value(b - 1)
    ensures IsNearestEven(x, b)
    ensures b < 0x7fef_ffff_ffff_ffff ==> x <= Value(0x7fef_ffff_ffff_ffff)
  {
    hide Value, Units, Gap;
    GapsGrow(b);
    forall c: nat | Finite(c) && c != b
      ensures Abs(Value(b) - x) < Abs(Value(c) - x)
    {
      if c < b {
        ValueMonotone(c, b - 1);
      } else {
        ValueMonotone(b + 1, c);
      }
    }
    if b < 0x7fef_ffff_ffff_ffff {
      ValueMonotone(b + 1, 0x7fef_ffff_ffff_ffff);
    }
  }

  lemma GapsGrow(b: nat)
    requires 0 < b
    ensures Value(b + 1) - Value(b) >= Value(b) - Value(b - 1) >= Times(EPS, Value(b))
  {
    hide Value, Units, Gap, Scale, InUnits, Times;
    NextUnits(b - 1);
    NextUnits(b);
    InUnitsValue(b - 1);
    InUnitsValue(b);
    InUnitsValue(b + 1);
    SignificandBound(b - 1);
    GapsInUnits(Value(b - 1), Value(b), Value(b + 1), Scale());
  }

  lemma SignificandBound(bits: nat)
    ensures EPS * (Units(bits) + Gap(bits)) as real <= Gap(bits) as real
  {
    assert Mant(bits) < 0x20_0000_0000_0000;
    hide Gap, Mant;
    MulMono(Mant(bits) + 1, 0x20_0000_0000_0000, Gap(bits));
    MulDistrib(Gap(bits), Mant(bits), 1);
  }

  lemma GapsInUnits(u: real, v: real, w: real, s: real)
    requires s == Scale() > 0.0
    requires InUnits(w) - InUnits(v) >= InUnits(v) - InUnits(u) >= EPS * InUnits(v)
    ensures w - v >= v - u >= Times(EPS, v)
  {
    hide Scale;
    RMulAssoc(EPS, v, s);
    RDistrib(w, v, s);
    RDistrib(v, u, s);
    ScaleCompare(w - v, v - u, s);
    ScaleCompare(v - u, EPS * v, s);
  }

  /** Half a unit of the seventeenth digit is less than half the gap below the double. */
  lemma SeventeenthDigit(e: int)
    ensures RPow(10, e - 17) < Times(EPS, RPow(10, e - 1))
  {
    assert Pow(10, 16) == 10_000_000_000_000_000 by {
      assert Pow(10, 8) == 100_000_000;
      PowAdd(10, 8, 8);
    }
    hide Pow, RPow;
    RPowPositive(10, e - 17);
    RPowTimes(10, 16, e - 17);
    RPowNat(10, 16);
    EpsTimes(RPow(10, e - 17));
  }

  lemma EpsTimes(p: real)
    requires p > 0.0
    ensures p < Times(EPS, Times(10000000000000000.0, p))
  {
  }

  /** The rounded digits differ from the exact ones by at most half a unit of the last one kept. */
  lemma RoundedDistance(d: nat, n: nat, k: nat, e: int)
    requires k <= n
    ensures var m := HalfEven(d, Pow(10, n - k));
            2.0 * Abs(Times(m as real, RPow(10, e - k)) - Times(d as real, RPow(10, e - n))) <= RPow(10, e - k)
  {
    hide RPow, Pow, HalfEven, Times;
    var den := Pow(10, n - k);
    var m := HalfEven(d, den);
    HalfEvenIsNearest(d, den, m);
    RPowTimes(10, n - k, e - n);
    RPowNat(10, n - k);
    RPowPositive(10, e - n);
    ScaledDistance(m, den, d, RPow(10, e - n));
  }

  lemma ScaledDistance(m: nat, den: nat, d: nat, p: real)
    requires p > 0.0 && 2 * Distance(m * den, d) <= den
    ensures 2.0 * Abs(Times(m as real, Times(den as real, p)) - Times(d as real, p)) <= Times(den as real, p)
  {
    CastMul(m, den);
    RMulAssoc(m as real, den as real, p);
    var a, b, c := (m * den) as real, d as real, den as real;
    RDistrib(a, b, p);
    RDistrib(b, a, p);
    RMulMono(2.0 * (a - b), c, p);
    RMulMono(2.0 * (b - a), c, p);
    RMulAssoc(2.0, a - b, p);
    RMulAssoc(2.0, b - a, p);
  }

  // ---- the largest double rounds down ----

  lemma FiveTo292()
    ensures Pow(5, 292) == 1256727927116217997592517620476486564601655171199859088668556573999898945208759259253785058313556979782958994320673760899370987164268728039118723794971894643776794998901724653705969103612005710601806640625
  {
    FiveTo146();
    hide Pow;
    PowAdd(5, 146, 146);
  }

  lemma FiveTo146()
    ensures Pow(5, 146) == 1121038771459853656738983666631932905024209553501212617405654627111832866148688481189310550689697265625
  {
    FiveTo73();
    hide Pow;
    PowAdd(5, 73, 73);
  }

  lemma FiveTo73()
    ensures Pow(5, 73) == 1058791184067875423835403125849552452564239501953125
  {
    assert Pow(5, 9) == 1953125;
    assert Pow(5, 1) == 5;
    hide Pow;
    PowAdd(5, 9, 9);
    PowAdd(5, 18, 18);
    PowAdd(5, 36, 36);
    PowAdd(5, 72, 1);
  }

  lemma TwoTo679()
    ensures Pow(2, 679) == 2508228255056559327717299405517639477515382672702395372151508761915556027554073725754578846110147691358081325939263447624692646145908262187541873345685902047135936580242368983360130194608842238078734041088
  {
    TwoTo512();
    assert Pow(2, 7) == 128;
    hide Pow;
    PowAdd(2, 512, 128);
    PowAdd(2, 640, 32);
    PowAdd(2, 672, 7);
  }

  lemma TwoTo512()
    ensures Pow(2, 32) == 0x1_0000_0000
    ensures Pow(2, 128) == 340282366920938463463374607431768211456
    ensures Pow(2, 512) == 13407807929942597099574024998205846127479365820592393377723561443721764030073546976801874298166903427690031858186486050853753882811946569946433649006084096
  {
    TwoTo64();
    TwoTo32();
    hide Pow;
    PowAdd(2, 64, 64);
    PowAdd(2, 128, 128);
    PowAdd(2, 256, 256);
  }

  /** The largest double lies between 17976931348623157 * 10^292 and half a unit above. */
  lemma LargestDigits()
    ensures var top, t := 9007199254740991 * Pow(2, 971), Pow(10, 292);
            17976931348623157 * t <= top && 2 * top < 35953862697246315 * t
  {
    hide Pow;
    FiveTo292();
    TwoTo679();
    PowMulBase(2, 5, 292);
    assert Pow(10, 292) == Pow(2, 292) * Pow(5, 292);
    PowAdd(2, 292, 679);
    var p := Pow(2, 292);
    MulMono(17976931348623157 * Pow(5, 292), 9007199254740991 * Pow(2, 679), p);
    StrictMono(2 * 9007199254740991 * Pow(2, 679), 35953862697246315 * Pow(5, 292), p);
  }

  lemma LargestReal()
    ensures var top, t := Value(0x7fef_ffff_ffff_ffff), RPow(10, 292);
            17976931348623157.0 * t <= top && 2.0 * top < 35953862697246315.0 * t
  {
    assert Mant(0x7fef_ffff_ffff_ffff) == 0x1f_ffff_ffff_ffff && Exp2(0x7fef_ffff_ffff_ffff) == 971;
    hide Pow, RPow;
    LargestDigits();
    RPowNat(2, 971);
    RPowNat(10, 292);
  }

  /** Rounded to seventeen digits, the largest double does not grow. */
  lemma LargestRoundsDown(m: nat, e: int)
    requires RPow(10, e - 1) <= Value(0x7fef_ffff_ffff_ffff) < RPow(10, e)
    requires 2.0 * Abs(Times(m as real, RPow(10, e - 17)) - Value(0x7fef_ffff_ffff_ffff)) <= RPow(10, e - 17)
    ensures Times(m as real, RPow(10, e - 17)) <= Value(0x7fef_ffff_ffff_ffff)
  {
    hide RPow, Value, Pow;
    LargestReal();
    LargestMagnitude(e);
    var t := RPow(10, 292);
    RPowPositive(10, 292);
    assert Times(m as real, t) < 17976931348623158.0 * t;
    ScaleCompare(m as real, 17976931348623158.0, t);
    assert m <= 17976931348623157;
    RMulMono(m as real, 17976931348623157.0, t);
  }

  lemma LargestMagnitude(e: int)
    requires RPow(10, e - 1) <= Value(0x7fef_ffff_ffff_ffff) < RPow(10, e)
    ensures e == 309
  {
    hide RPow, Value, Pow, Times;
    LargestReal();
    SixteenSeventeen();
    RPowTimes(10, 16, 292);
    RPowTimes(10, 17, 292);
    RPowNat(10, 16);
    RPowNat(10, 17);
    RPowPositive(10, 292);
    TimesMono(10000000000000000.0, 17976931348623157.0, RPow(10, 292));
    TimesMono(17976931348623158.0, 100000000000000000.0, RPow(10, 292));
    if e <= 308 {
      RPowMono(10, e, 308);
    } else if e >= 310 {
      RPowMono(10, 309, e - 1);
    }
  }

  lemma SixteenSeventeen()
    ensures Pow(10, 16) == 10_000_000_000_000_000 && Pow(10, 17) == 100_000_000_000_000_000
  {
    assert Pow(10, 8) == 100_000_000;
    PowAdd(10, 8, 8);
    assert Pow(10, 17) == 10 * Pow(10, 16);
  }

  // ---- the law ----

  /** Whatever is within half a unit of the seventeenth digit of a double reads back as it. */
  lemma SeventeenDigitsIdentify(bits: nat, e: int, x: real, m: nat)
    requires 0 < bits && Finite(bits) && RPow(10, e - 1) <= Value(bits) < RPow(10, e)
    requires x == Times(m as real, RPow(10, e - 17)) && 2.0 * Abs(x - Value(bits)) <= RPow(10, e - 17)
    ensures CorrectlyRounded(x, bits, 0)
  {
    hide RPow, Value, Times, IsNearestEven;
    SeventeenthDigit(e);
    GapsGrow(bits);
    EpsMono(RPow(10, e - 1), Value(bits));
    NearestClose(x, bits);
    if bits == 0x7fef_ffff_ffff_ffff {
      LargestRoundsDown(m, e);
    }
  }

  lemma EpsMono(a: real, b: real)
    requires a <= b
    ensures Times(EPS, a) <= Times(EPS, b)
  {
  }

  /** The exact digits of a double, rounded to seventeen, and back. */
  method PrintAndRead(bits: nat, negative: bool) returns (result: Double, status: int)
    requires Finite(bits)
    ensures result == Double(negative, bits) && status == 0
  {
    hide RPow, Value, Times, DecValue, DigitsValue, CorrectlyRounded, HalfEven, Pow;
    var digits := new char[DEC_DIGITS + 2];
    var len, exp10 := DecFromDouble.DecFromDouble(bits, digits);
    ghost var was, e := digits[..len], exp10;
    len, exp10 := DecRound.DecRound(digits, len, 17, exp10);
    result, status := DecToDouble.DecToDouble(digits[..len], exp10, negative);
    ReadBack(bits, was, e, digits[..len], exp10, result.bits, status);
  }

  lemma ReadBack(bits: nat, was: seq<char>, e: int, now: seq<char>, e': int, bits': nat, status: int)
    requires Finite(bits) && |was| >= 1 && AllDigits(was) && DecValue(was, e) == Value(bits)
    requires bits != 0 ==> was[0] != '0'
    requires bits == 0 ==> |was| <= 17
    requires |was| <= 17 ==> now == was && e' == e
    requires |was| > 17 ==> DecValue(now, e')
                            == Times(HalfEven(DigitsValue(was), Pow(10, |was| - 17)) as real, RPow(10, e - 17))
    requires CorrectlyRounded(DecValue(now, e'), bits', status)
    ensures bits' == bits && status == 0
  {
    hide RPow, Value, Times, DigitsValue, HalfEven, Pow, IsNearestEven;
    var x := DecValue(now, e');
    ValueZero();
    if bits == 0 {
      NearestExact(0);
      ValueMonotone(0, 0x7fef_ffff_ffff_ffff);
      NearestUnique(x, bits, bits');
    } else {
      ValueIncrease(0, bits);
      assert CorrectlyRounded(x, bits, 0) by {
        if |was| <= 17 {
          NearestExact(bits);
          ValueMonotone(bits, 0x7fef_ffff_ffff_ffff);
        } else {
          DecValueRange(was, e);
          RoundedDistance(DigitsValue(was), |was|, 17, e);
          SeventeenDigitsIdentify(bits, e, x, HalfEven(DigitsValue(was), Pow(10, |was| - 17)));
        }
      }
      NearestUnique(x, bits, bits');
    }
  }
}
