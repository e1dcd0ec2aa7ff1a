/**
 From decimal digits to the nearest double: a guess, then a walk from one double to the next
 until two neighbours bracket the literal, then a comparison with their midpoint.
 */
module DecToDouble {
  import opened Powers
  import opened Digits
  import opened Doubles
  import opened Decimals
  import opened Guess

  /** A double: its sign and the pattern of its magnitude. */
  datatype Double = Double(negative: bool, bits: nat)

  /** The correctly rounded magnitude of a literal with value `x`, and the status that goes with it:
      1 for anything above the largest finite double, -1 for a non-zero value that rounds to zero. */
  ghost predicate CorrectlyRounded(x: real, bits: nat, status: int) {
    if x > Value(0x7fef_ffff_ffff_ffff) then bits == 0x7ff0_0000_0000_0000 && status == 1
    else IsNearestEven(x, bits) && status == if x > 0.0 && bits == 0 then -1 else 0
  }

  // ---- the walk ----

  /** Halfway between a double and the next, as an odd significand one binary place lower. */
  lemma Midpoint(lo: nat)
    ensures Times((2 * Mant(lo) + 1) as real, RPow(2, Exp2(lo) - 1)) == (Value(lo) + Value(lo + 1)) / 2.0
  {
    hide RPow, Units, Gap, Scale, Pow;
    var m, p := Mant(lo) as real, RPow(2, Exp2(lo) - 1);
    RPowStep(2, Exp2(lo) - 1);
    assert Value(lo) == m * (2.0 * p);
    GapValue(lo);
    hide Value;
    assert (2 * Mant(lo) + 1) as real == 2.0 * m + 1.0;
    RDistrib(2.0 * m, 1.0, p);
    RMulAssoc(2.0, m, p);
    RMulSwap(m, 2.0, p);
  }

  lemma GapValue(lo: nat)
    ensures Value(lo + 1) == Value(lo) + RPow(2, Exp2(lo))
  {
    GapScaled(lo);
    hide Value, Units, Gap, Scale, RPow, Pow;
    ValueUnits(lo);
    ValueUnits(lo + 1);
    NextUnits(lo);
    SumScaled(Value(lo), Value(lo + 1), RPow(2, Exp2(lo)), Scale());
  }

  lemma GapScaled(lo: nat)
    ensures RPow(2, Exp2(lo)) * Scale() == Gap(lo) as real
  {
    hide RPow, Pow;
    RPowAdd(2, Exp2(lo), 1074);
    RPowNat(2, Exp2(lo) + 1074);
  }

  lemma SumScaled(v: real, w: real, g: real, s: real)
    requires s > 0.0 && w * s == v * s + g * s
    ensures w == v + g
  {
    RDistrib(v, g, s);
    ScaleCompare(w, v + g, s);
  }

  /** What the walk has found when it stops. */
  ghost predicate Settled(x: real, bits: nat) {
    if x > Value(0x7fef_ffff_ffff_ffff) then bits == 0x7ff0_0000_0000_0000 else IsNearestEven(x, bits)
  }

  /** How many steps the walk still needs from `bits`, when the literal's place is `t`. */
  ghost function StepsLeft(bits: nat, t: nat): nat {
    if bits <= t then t - bits else bits - t - 1
  }

  lemma Place(x: real, bits: nat, t: nat)
    requires Value(t) <= x && (t == 0x7fef_ffff_ffff_ffff || x < Value(t + 1)) && t <= 0x7fef_ffff_ffff_ffff
    ensures Finite(bits) ==> (Value(bits) <= x <==> bits <= t)
    ensures Finite(bits) && Value(bits) == x ==> Settled(x, bits)
    ensures t < 0x7fef_ffff_ffff_ffff ==> x <= Value(0x7fef_ffff_ffff_ffff)
  {
    hide Value;
    if bits <= t {
      ValueMonotone(bits, t);
    } else {
      if t < 0x7fef_ffff_ffff_ffff {
        ValueMonotone(t + 1, bits);
      }
    }
    if Finite(bits) {
      NearestExact(bits);
      ValueMonotone(bits, 0x7fef_ffff_ffff_ffff);
    }
    if t < 0x7fef_ffff_ffff_ffff {
      ValueMonotone(t + 1, 0x7fef_ffff_ffff_ffff);
    }
  }

  /** From any start within 299 doubles of the literal's place, 300 steps settle it. */
  method Walk(start: nat, digits: seq<char>, exp10: int, ghost t: nat) returns (bits: nat)
    requires Finite(start) && AllDigits(digits) && 0 < |digits| <= 1500 && digits[0] != '0'
    requires -400 <= exp10 <= 400
    requires t == FloorIn(DecValue(digits, exp10), 0, 0x7ff0_0000_0000_0000)
    requires -299 <= start - t <= 299
    ensures Settled(DecValue(digits, exp10), bits)
  {
    hide Value, RPow, Pow, DecValue, DigitsValue, RSign, Mant, Exp2, Settled, FloorIn;
    ghost var x := DecValue(digits, exp10);
    DecValueRange(digits, exp10);
    ValueZero();
    RPowPositive(10, exp10 - 1);
    FloorInBrackets(x, 0, 0x7ff0_0000_0000_0000);
    bits := start;
    var iter := 0;
    while iter < 300
      invariant 0 <= iter <= 300 && Finite(bits)
      invariant StepsLeft(bits, t) + iter <= 299
    {
      var here := CmpDouble(bits, digits, exp10);
      SignMeans(Value(bits) - x);
      Place(x, bits, t);
      if here == 0 {
        break;
      }
      var other: nat;
      if here < 0 {
        if bits >= 0x7ff0_0000_0000_0000 - 1 {
          AboveLargest(x, bits);
          bits := 0x7ff0_0000_0000_0000;
          break;
        }
        other := bits + 1;
      } else {
        if bits == 0 {
          break;
        }
        other := bits - 1;
      }
      var there := CmpDouble(other, digits, exp10);
      SignMeans(Value(other) - x);
      Place(x, other, t);
      if there == 0 {
        bits := other;
        break;
      }
      if (here < 0 && there > 0) || (here > 0 && there < 0) {
        var lo := if here < 0 then bits else other;
        var hi := if here < 0 then other else bits;
        var side := CmpMidpoint(lo, digits, exp10);
        if side < 0 {
          bits := hi;
        } else if side > 0 {
          bits := lo;
        } else {
          bits := if lo % 2 == 0 then lo else hi;
        }
        Bracketed(x, lo, bits);
        break;
      }
      bits := other;
      iter := iter + 1;
    }
  }

  lemma SignMeans(d: real)
    ensures RSign(d) < 0 <==> d < 0.0
    ensures RSign(d) == 0 <==> d == 0.0
    ensures RSign(d) > 0 <==> d > 0.0
  {
  }

  lemma AboveLargest(x: real, bits: nat)
    requires Finite(bits) && bits >= 0x7fef_ffff_ffff_ffff && Value(bits) < x
    ensures Settled(x, 0x7ff0_0000_0000_0000)
  {
    hide Value;
  }

  lemma Bracketed(x: real, lo: nat, r: nat)
    requires Finite(lo + 1) && Value(lo) < x < Value(lo + 1)
    requires var mid := (Value(lo) + Value(lo + 1)) / 2.0;
             r == if x < mid then lo else if x > mid then lo + 1 else if lo % 2 == 0 then lo else lo + 1
    ensures Settled(x, r)
  {
    hide Value;
    NearestInBracket(x, lo, r);
    ValueMonotone(lo + 1, 0x7fef_ffff_ffff_ffff);
  }

  /** The midpoint above `lo` against the literal. */
  method CmpMidpoint(lo: nat, digits: seq<char>, exp10: int) returns (side: int)
    requires Finite(lo) && AllDigits(digits) && 0 < |digits| <= 1500 && -401 <= exp10 <= 401
    ensures var d := (Value(lo) + Value(lo + 1)) / 2.0 - DecValue(digits, exp10);
            && (side < 0 <==> d < 0.0) && (side == 0 <==> d == 0.0)
  {
    hide Value, RPow, Pow, DecValue, RSign;
    side := CmpScaled(2 * Mant(lo) + 1, Exp2(lo) - 1, digits, exp10);
    Midpoint(lo);
    SignMeans((Value(lo) + Value(lo + 1)) / 2.0 - DecValue(digits, exp10));
  }

  // ---- values far outside the range ----

  lemma TenAboveEight(k: nat)
    ensures Pow(2, 3 * k) <= Pow(10, k)
  {
    assert Pow(2, 3) == 8;
    hide Pow;
    PowPow(2, 3, k);
    PowBaseMono(8, 10, k);
  }

  lemma LargestBelow(e: nat)
    requires e >= 1024
    ensures Value(0x7fef_ffff_ffff_ffff) < RPow(2, e)
  {
    assert Mant(0x7fef_ffff_ffff_ffff) == 0x1f_ffff_ffff_ffff && Exp2(0x7fef_ffff_ffff_ffff) == 971;
    hide Pow, RPow, Times;
    RPowTimes(2, 53, 971);
    RPowNat(2, 53);
    RPowMono(2, 1024, e);
    Pow52();
    RPowPositive(2, 971);
    TimesStrict(9007199254740991.0, 9007199254740992.0, RPow(2, 971));
  }

  lemma TimesStrict(a: real, b: real, z: real)
    requires a < b && z > 0.0
    ensures Times(a, z) < Times(b, z)
  {
    RMulStrict(a, b, z);
  }

  lemma HugeOverflows(digits: seq<char>, exp10: int)
    requires |digits| > 0 && AllDigits(digits) && digits[0] != '0' && exp10 > 400
    ensures DecValue(digits, exp10) > Value(0x7fef_ffff_ffff_ffff)
  {
    hide Pow, RPow, Value, DecValue;
    DecValueRange(digits, exp10);
    RPowNat(10, exp10 - 1);
    TenAboveEight(400);
    PowMono(10, 400, exp10 - 1);
    RPowNat(2, 1200);
    LargestBelow(1200);
  }

  lemma TinyRoundsToZero(digits: seq<char>, exp10: int)
    requires |digits| > 0 && AllDigits(digits) && digits[0] != '0' && exp10 < -400
    ensures 0.0 < DecValue(digits, exp10) <= Value(0x7fef_ffff_ffff_ffff)
    ensures IsNearestEven(DecValue(digits, exp10), 0)
  {
    hide Pow, RPow, Value, DecValue;
    var x := DecValue(digits, exp10);
    DecValueRange(digits, exp10);
    RPowPositive(10, exp10 - 1);
    ValueZero();
    SmallestAbove(-exp10);
    ValueMonotone(1, 0x7fef_ffff_ffff_ffff);
    NearestInBracket(x, 0, 0);
  }

  lemma SmallestAbove(k: int)
    requires k >= 401
    ensures RPow(10, -k) < Value(1) / 2.0
  {
    assert Mant(1) == 1 && Exp2(1) == -1074;
    assert Value(1) == RPow(2, -1074);
    hide Pow, RPow, Value;
    RPowStep(2, -1075);
    TenAboveEight(k);
    PowStrict(2, 1075, 3 * k);
    InverseStrict(Pow(2, 1075), Pow(10, k));
    NegativePower(2, 1075);
    NegativePower(10, k);
  }

  lemma NegativePower(b: nat, k: int)
    requires b > 0 && k >= 0
    ensures RPow(b, -k) == 1.0 / (Pow(b, k) as real)
  {
    assert k == 0 ==> Pow(b, k) == 1;
  }

  lemma InverseStrict(a: nat, b: nat)
    requires 0 < a < b
    ensures 1.0 / (b as real) < 1.0 / (a as real)
  {
    InverseTimes(a as real);
    InverseTimes(b as real);
    RMulStrict(a as real, b as real, 1.0 / (a as real));
    ScaleCompare(1.0 / (b as real), 1.0 / (a as real), b as real);
  }

  // ---- the leading digits ----

  /** The first digits of a literal as an integer, against the literal with its point moved just
      behind them. */
  lemma LeadBounds(digits: seq<char>, used: nat)
    requires AllDigits(digits) && digits != [] && digits[0] != '0'
    requires used == if |digits| < 19 then |digits| else 19
    ensures var lead, y := DigitsValue(digits[..used]), DecValue(digits, used);
            && 1 <= lead < 10_000_000_000_000_000_000
            && lead as real <= y < lead as real + 1.0
            && (used == |digits| ==> y == lead as real)
            && (used == 19 ==> lead >= 1_000_000_000_000_000_000)
  {
    var lead, tail, n := DigitsValue(digits[..used]), DigitsValue(digits[used..]), |digits|;
    assert digits == digits[..used] + digits[used..];
    hide DigitsValue, Pow, DecValue;
    LeadRange(digits[..used]);
    TenPowers();
    DigitsConcat(digits[..used], digits[used..]);
    DigitsBound(digits[used..]);
    PointScaled(digits, used);
    PointMoved(DigitsValue(digits), lead, tail, Pow(10, n - used), DecValue(digits, used));
  }

  lemma PointScaled(digits: seq<char>, used: nat)
    requires used <= |digits|
    ensures Times(DecValue(digits, used), Pow(10, |digits| - used) as real) == DigitsValue(digits) as real
  {
    hide DigitsValue, Pow, RPow;
    var n := |digits|;
    RPowTimes(10, used - n, n - used);
    RPowNat(10, n - used);
    RPowZero(10);
    RMulAssoc(DigitsValue(digits) as real, RPow(10, used - n), RPow(10, n - used));
  }

  lemma LeadRange(digits: seq<char>)
    requires AllDigits(digits) && 0 < |digits| <= 19 && digits[0] != '0'
    ensures 1 <= DigitsValue(digits) < 10_000_000_000_000_000_000
    ensures |digits| == 19 ==> DigitsValue(digits) >= 1_000_000_000_000_000_000
  {
    hide DigitsValue, Pow;
    TenPowers();
    DigitsBound(digits);
    DigitsLower(digits);
    PowMono(10, |digits|, 19);
    PowMono(10, 0, |digits| - 1);
  }

  lemma TenPowers()
    ensures Pow(10, 0) == 1
    ensures Pow(10, 18) == 1_000_000_000_000_000_000
    ensures Pow(10, 19) == 10_000_000_000_000_000_000
  {
    assert Pow(10, 9) == 1_000_000_000;
    PowAdd(10, 9, 9);
    assert Pow(10, 19) == 10 * Pow(10, 18);
  }

  lemma PointMoved(d: nat, lead: nat, tail: nat, p: nat, y: real)
    requires d == lead * p + tail && tail < p && Times(y, p as real) == d as real
    ensures lead as real <= y < lead as real + 1.0
    ensures p == 1 ==> y == lead as real
  {
    CastTimes(lead, p);
    hide Times;
    TimesCompare(y, lead as real, p as real);
    TimesCompare(y, lead as real + 1.0, p as real);
  }

  lemma CastTimes(a: nat, b: nat)
    ensures Times(a as real, b as real) == (a * b) as real
    ensures Times(a as real + 1.0, b as real) == (a * b) as real + b as real
  {
    CastMul(a, b);
    RDistrib(a as real, 1.0, b as real);
  }

  lemma TimesCompare(x: real, y: real, c: real)
    requires c > 0.0
    ensures x < y <==> Times(x, c) < Times(y, c)
    ensures x == y <==> Times(x, c) == Times(y, c)
  {
    ScaleCompare(x, y, c);
  }

  lemma PointBack(digits: seq<char>, used: int, exp10: int)
    ensures Shifted(DecValue(digits, used), exp10 - used) == DecValue(digits, exp10)
  {
    hide DigitsValue, RPow;
    RPowAdd(10, used - |digits|, exp10 - used);
    RMulAssoc(DigitsValue(digits) as real, RPow(10, used - |digits|), RPow(10, exp10 - used));
  }

  /** Converted to a double, the leading digits are a first approximation. */
  lemma LeadClose(lead: nat, y: real)
    requires 1 <= lead < 10_000_000_000_000_000_000 && lead as real <= y < lead as real + 1.0
    requires y == lead as real || lead >= 1_000_000_000_000_000_000
    ensures Finite(Round(lead as real)) && Close(Value(Round(lead as real)), y, 8.0 * EPS, 0.0)
  {
    hide Value, Round, OverflowAt, RPow, Tiny;
    ModestBelowOverflow();
    RoundError(lead as real);
    ScaleTiny();
  }

  lemma ModestBelowOverflow()
    ensures 10_000_000_000_000_000_000.0 < Value(0x7fef_ffff_ffff_ffff) < OverflowAt()
  {
    var b := 1087 * 0x10_0000_0000_0000;
    assert b / 0x10_0000_0000_0000 == 1087 && b % 0x10_0000_0000_0000 == 0;
    assert Exp2(b) == 12 && Mant(b) == 0x10_0000_0000_0000;
    assert Value(b) == 0x10_0000_0000_0000 as real * RPow(2, 12);
    assert RPow(2, 12) == 4096.0;
    hide Value, RPow;
    ValueMonotone(b, 0x7fef_ffff_ffff_ffff);
    TopBelowOverflow();
  }

  // ---- the fast path ----

  lemma SmallIntegerExact(m: nat)
    requires 0 < m <= 0x20_0000_0000_0000
    ensures Finite(Round(m as real)) && Value(Round(m as real)) == m as real
  {
    hide Value, RPow, Pow, Round;
    RPowZero(2);
    TwoTimes();
    var b: nat;
    if m == 0x20_0000_0000_0000 {
      IntegerExact(0x10_0000_0000_0000, 1, 0);
      b :| Finite(b) && Value(b) == 0x10_0000_0000_0000 as real * RPow(2, 1);
    } else {
      IntegerExact(m, 0, 0);
      b :| Finite(b) && Value(b) == m as real * RPow(2, 0);
    }
    RoundExact(b);
  }

  lemma TwoTimes()
    ensures RPow(2, 1) == 2.0 && Pow(2, 0) == 1
  {
    assert Pow(2, 1) == 2;
  }

  /** An exact integer times or over an exact power of ten, rounded once. */
  method FastPath(lead: nat, k: int) returns (bits: nat)
    requires 0 < lead <= 0x20_0000_0000_0000 && -22 <= k <= 22
    ensures Finite(bits) && bits != 0
    ensures Shifted(lead as real, k) <= Value(0x7fef_ffff_ffff_ffff)
    ensures IsNearestEven(Shifted(lead as real, k), bits)
  {
    hide Value, Round, RPow, Pow, IsNearest, Times, Over, FMul, FDiv, Pow10Bits, Shifted;
    SmallIntegerExact(lead);
    PowPositive(k);
    PowPositive(-k);
    if k >= 0 {
      bits := FMul(Round(lead as real), Pow10Bits(k));
      FastTimes(lead, k);
    } else {
      bits := FDiv(Round(lead as real), Pow10Bits(-k));
      FastOver(lead, -k);
    }
    ShiftedModest(lead, k);
    FastRounds(Shifted(lead as real, k));
  }

  lemma PowPositive(k: int)
    ensures k >= 0 ==> Pow(10, k) as real > 0.0
  {
  }

  lemma FastTimes(lead: nat, k: nat)
    requires k <= 22 && 0 < lead <= 0x20_0000_0000_0000
    ensures FMul(Round(lead as real), Pow10Bits(k)) == Round(Shifted(lead as real, k))
  {
    hide Value, Round, RPow, Pow, Times, Pow10Bits, Shifted;
    SmallIntegerExact(lead);
    ShiftedUp(lead as real, 0, k);
  }

  lemma FastOver(lead: nat, j: int)
    requires 1 <= j <= 22 && 0 < lead <= 0x20_0000_0000_0000
    ensures FDiv(Round(lead as real), Pow10Bits(j)) == Round(Shifted(lead as real, -j))
  {
    PowPositive(j);
    hide Value, Round, RPow, Pow, Times, Over, Pow10Bits, Shifted;
    SmallIntegerExact(lead);
    ShiftedUp(lead as real, -j, j);
    QuotientTimes(lead as real, Pow(10, j) as real);
    TimesCancel(Shifted(lead as real, -j), Over(lead as real, Pow(10, j) as real), Pow(10, j) as real);
  }

  lemma TimesCancel(x: real, y: real, c: real)
    requires c > 0.0 && Times(x, c) == Times(y, c)
    ensures x == y
  {
    ScaleCompare(x, y, c);
  }

  lemma ShiftedModest(lead: nat, k: int)
    requires 0 < lead <= 0x20_0000_0000_0000 && -22 <= k <= 22
    ensures RPow(2, -1000) <= Shifted(lead as real, k) <= Value(0x7fef_ffff_ffff_ffff)
  {
    hide RPow, Pow, Value;
    var l, t := lead as real, RPow(10, k);
    PowerTenRange(k);
    assert Shifted(l, k) == l * t;
    hide Shifted;
    RPowPositive(10, k);
    assert t <= l * t by { RMulMono(1.0, l, t); }
    assert l * t <= RPow(2, 353) by {
      RPowAdd(2, 53, 300);
      RPowNat(2, 53);
      Pow52();
      ProductMono(l, RPow(2, 53), t, RPow(2, 300));
    }
    assert RPow(2, 353) <= Value(0x7fef_ffff_ffff_ffff) by {
      RPowMono(2, 353, 900);
      LargestAbove();
    }
  }

  lemma ProductMono(a: real, b: real, c: real, d: real)
    requires 0.0 <= a <= b && 0.0 <= c <= d
    ensures a * c <= b * d
  {
    RMulMono(a, b, c);
    RMulMono(c, d, b);
  }

  lemma RPowMono(b: nat, i: int, j: int)
    requires b > 0 && i <= j
    ensures RPow(b, i) <= RPow(b, j)
  {
    hide RPow, Pow, Times;
    RPowTimes(b, i, j - i);
    RPowNat(b, j - i);
    RPowPositive(b, i);
    PowAtLeastOne(b, j - i);
    TimesUp(RPow(b, i), Pow(b, j - i) as real);
  }

  lemma PowAtLeastOne(b: nat, k: nat)
    requires b > 0
    ensures Pow(b, k) as real >= 1.0
  {
  }

  lemma PowerTenRange(k: int)
    requires -22 <= k <= 22
    ensures RPow(2, -1000) <= RPow(10, k) <= RPow(2, 300)
  {
    hide RPow, Pow;
    assert Pow(10, 22) <= Pow(2, 88) by {
      TenBits();
      PowPosBound(10, 4, 22, 22);
    }
    assert RPow(10, k) <= RPow(2, 300) by {
      RPowMono(10, k, 22);
      RPowNat(10, 22);
      RPowNat(2, 88);
      RPowMono(2, 88, 300);
    }
    assert RPow(2, -1000) <= RPow(10, k) by {
      RPowMono(10, -22, k);
      InverseRPow(22, 88);
      RPowMono(2, -1000, -88);
    }
  }

  lemma InverseRPow(j: int, k: int)
    requires 0 <= j && 0 <= k && Pow(10, j) <= Pow(2, k)
    ensures RPow(2, -k) <= RPow(10, -j)
  {
    hide RPow, Pow;
    NegativePower(10, j);
    NegativePower(2, k);
    InverseMono(Pow(10, j) as real, Pow(2, k) as real);
  }

  lemma LargestAbove()
    ensures RPow(2, 900) <= Value(0x7fef_ffff_ffff_ffff)
  {
    assert Mant(0x7fef_ffff_ffff_ffff) == 0x1f_ffff_ffff_ffff && Exp2(0x7fef_ffff_ffff_ffff) == 971;
    hide RPow, Times;
    RPowMono(2, 900, 971);
    RPowPositive(2, 971);
    TimesMono(1.0, 9007199254740991.0, RPow(2, 971));
  }

  /** A number of ordinary size rounds to the nearest double, which is not zero. */
  lemma FastRounds(x: real)
    requires RPow(2, -1000) <= x <= Value(0x7fef_ffff_ffff_ffff)
    ensures IsNearestEven(x, Round(x)) && Finite(Round(x)) && Round(x) != 0
  {
    var b := 23 * 0x10_0000_0000_0000;
    assert RPow(2, -1000) == Value(b) by { SmallSample(); }
    RPowPositive(2, -1000);
    hide RPow, Value, Round;
    RoundIsNearest(x);
    ValueZero();
    NotZero(x, b, Round(x));
  }

  lemma SmallSample()
    ensures Value(23 * 0x10_0000_0000_0000) == RPow(2, -1000)
  {
    var b := 23 * 0x10_0000_0000_0000;
    assert b / 0x10_0000_0000_0000 == 23 && b % 0x10_0000_0000_0000 == 0;
    assert Exp2(b) == -1052 && Mant(b) == 0x10_0000_0000_0000;
    hide RPow, Pow, Times;
    Pow52();
    RPowNat(2, 52);
    RPowTimes(2, 52, -1052);
  }

  lemma NotZero(x: real, b: nat, r: nat)
    requires IsNearest(x, r) && Finite(b) && 0.0 < Value(b) <= x && Value(0) == 0.0
    ensures r != 0
  {
    hide Value;
    assert Abs(Value(b) - x) < Abs(Value(0) - x);
  }

  // ---- the conversion ----

  /** The literal's sign and digits to the nearest double, for any exponent. */
  method DecToDouble(digits: seq<char>, exp10: int, negative: bool) returns (result: Double, status: int)
    requires AllDigits(digits) && |digits| <= 1500
    ensures result.negative == negative
    ensures CorrectlyRounded(DecValue(digits, exp10), result.bits, status)
  {
    hide Value, RPow, Pow, DecValue, DigitsValue, IsNearestEven, Round, Shifted, CorrectlyRounded, Settled, Times;
    ghost var x := DecValue(digits, exp10);
    var ds, e := digits, exp10;
    while |ds| > 0 && ds[0] == '0'
      invariant AllDigits(ds) && |ds| <= 1500 && DecValue(ds, e) == x
    {
      DropLeadingZero(ds, e);
      ds, e := ds[1..], e - 1;
    }
    while |ds| > 0 && ds[|ds| - 1] == '0'
      invariant AllDigits(ds) && |ds| <= 1500 && DecValue(ds, e) == x
      invariant |ds| > 0 ==> ds[0] != '0'
    {
      DropTrailingZero(ds, e);
      ds := ds[..|ds| - 1];
    }
    if |ds| == 0 {
      ZeroRounds(ds, e);
      return Double(negative, 0), 0;
    }
    if e > 400 {
      HugeOverflows(ds, e);
      Overflowed(x);
      return Double(negative, 0x7ff0_0000_0000_0000), 1;
    }
    if e < -400 {
      TinyRoundsToZero(ds, e);
      Underflowed(x);
      return Double(negative, 0), -1;
    }
    var lead: nat, used := 0, 0;
    LeadStart(ds[..0]);
    while used < |ds| && used < 19
      invariant 0 <= used <= |ds| && used <= 19 && lead == DigitsValue(ds[..used])
    {
      LeadStep(ds, used);
      lead := lead * 10 + DigitOf(ds[used]);
      used := used + 1;
    }
    LeadBounds(ds, used);
    PointBack(ds, used, e);
    if used == |ds| && lead <= 0x20_0000_0000_0000 {
      var k := e - used;
      if -22 <= k <= 22 {
        var exact := FastPath(lead, k);
        FastSettles(x, exact);
        return Double(negative, exact), 0;
      }
    }
    ghost var y := DecValue(ds, used);
    LeadClose(lead, y);
    var guess := ScalePow10(Round(lead as real), e - used, y);
    DecValuePositive(ds, e);
    GuessIsNear(guess, x);
    if guess >= 0x7ff0_0000_0000_0000 {
      guess := 0x7fef_ffff_ffff_ffff;
    }
    var bits := Walk(guess, ds, e, FloorIn(x, 0, 0x7ff0_0000_0000_0000));
    WalkSettles(x, bits);
    status := 0;
    if bits >= 0x7ff0_0000_0000_0000 {
      status := 1;
      bits := 0x7ff0_0000_0000_0000;
    } else if bits == 0 {
      status := -1;
    }
    result := Double(negative, bits);
  }

  lemma LeadStart(none: seq<char>)
    requires none == []
    ensures DigitsValue(none) == 0
  {
  }

  lemma LeadStep(digits: seq<char>, used: nat)
    requires used < |digits|
    ensures DigitsValue(digits[..used + 1]) == DigitsValue(digits[..used]) * 10 + DigitOf(digits[used])
  {
    assert digits[..used + 1] == digits[..used] + [digits[used]];
    DigitsSnoc(digits[..used], digits[used]);
  }

  lemma DecValuePositive(digits: seq<char>, exp10: int)
    requires |digits| > 0 && AllDigits(digits) && digits[0] != '0'
    ensures DecValue(digits, exp10) > 0.0
  {
    hide DecValue;
    DecValueRange(digits, exp10);
    RPowPositive(10, exp10 - 1);
  }

  lemma ZeroRounds(digits: seq<char>, exp10: int)
    requires digits == []
    ensures DecValue(digits, exp10) == 0.0
    ensures CorrectlyRounded(0.0, 0, 0)
  {
    hide Value, RPow;
    ValueZero();
    NearestExact(0);
  }

  lemma Overflowed(x: real)
    requires x > Value(0x7fef_ffff_ffff_ffff)
    ensures CorrectlyRounded(x, 0x7ff0_0000_0000_0000, 1)
  {
  }

  lemma Underflowed(x: real)
    requires 0.0 < x <= Value(0x7fef_ffff_ffff_ffff) && IsNearestEven(x, 0)
    ensures CorrectlyRounded(x, 0, -1)
  {
  }

  lemma FastSettles(x: real, bits: nat)
    requires x <= Value(0x7fef_ffff_ffff_ffff) && bits != 0 && IsNearestEven(x, bits)
    ensures CorrectlyRounded(x, bits, 0)
  {
  }

  lemma WalkSettles(x: real, bits: nat)
    requires x > 0.0 && Settled(x, bits)
    ensures bits <= 0x7ff0_0000_0000_0000
    ensures CorrectlyRounded(x, bits, if bits == 0x7ff0_0000_0000_0000 then 1 else if bits == 0 then -1 else 0)
  {
    hide Value;
  }
}
