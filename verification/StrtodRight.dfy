/**
 When what strtod reports for a literal is right: the correctly rounded value, and ERANGE. Two things
 can stand in the way: zeros before the first digit that counts, which use up the limits on digits and
 on the exponent, and an exponent that had to be clamped.
 */
module StrtodRight {
  import opened Powers
  import opened Digits
  import opened Doubles
  import opened Decimals
  import opened Guess
  import opened DecToDouble
  import opened Sticky
  import opened Strtod

  // ---- magnitudes ----

  /** Zeros in front do not change the number, and the first other digit gives its magnitude. */
  lemma LeadingRange(ds: seq<char>, e: int)
    requires AllDigits(ds)
    ensures DecValue(ds[LeadingZeros(ds)..], e - LeadingZeros(ds)) == DecValue(ds, e)
    ensures LeadingZeros(ds) == |ds| ==> DecValue(ds, e) == 0.0
    ensures LeadingZeros(ds) < |ds| ==>
              RPow(10, e - LeadingZeros(ds) - 1) <= DecValue(ds, e) < RPow(10, e - LeadingZeros(ds))
  {
    hide DecValue, RPow, LeadingZeros;
    LeadingDropped(ds, e);
    if LeadingZeros(ds) < |ds| {
      DecValueRange(ds[LeadingZeros(ds)..], e - LeadingZeros(ds));
    }
  }

  lemma LeadingDropped(ds: seq<char>, e: int)
    requires AllDigits(ds)
    ensures var z := LeadingZeros(ds);
              DecValue(ds[z..], e - z) == DecValue(ds, e) && (z == |ds| ==> DecValue(ds, e) == 0.0)
  {
    hide Pow, RPow, DigitsValue, Times, LeadingZeros, AllDigits;
    LeadingBounds(ds);
    ZeroProduct(RPow(10, e - |ds|));
  }

  lemma ZeroProduct(p: real)
    ensures Times(0.0, p) == 0.0
  {
  }

  lemma FivesAndTwos()
    ensures Pow(5, 308) <= 7 * Pow(2, 713) && Pow(2, 715) <= Pow(5, 308)
    ensures Pow(2, 37) <= Pow(5, 16) < Pow(2, 38)
  {
    NineteenDigits();
    SmallFives();
    hide Pow;
    PowPow(5, 31, 9);
    PowBaseMono(Pow(5, 31), Pow(2, 72), 9);
    PowPow(2, 72, 9);
    PowAdd(5, 279, 29);
    PowAdd(2, 648, 65);
    MulMono(Pow(5, 279), Pow(2, 648), Pow(5, 29));
    MulMono(Pow(5, 29), 7 * Pow(2, 65), Pow(2, 648));
    MulAssoc(7, Pow(2, 648), Pow(2, 65));
    MulAssoc(Pow(2, 648), 7, Pow(2, 65));
    PowPow(2, 65, 11);
    PowPow(5, 28, 11);
    PowBaseMono(Pow(2, 65), Pow(5, 28), 11);
  }

  lemma NineteenDigits()
    ensures Pow(2, 65) <= Pow(5, 28) && Pow(5, 29) <= 7 * Pow(2, 65) && Pow(2, 37) <= Pow(5, 16) < Pow(2, 38)
  {
    SmallPowers();
    hide Pow;
    PowAdd(5, 7, 7);
    PowAdd(5, 14, 14);
    PowAdd(5, 7, 3);
    PowAdd(5, 10, 3);
    PowAdd(5, 13, 3);
    PowAdd(2, 11, 11);
    PowAdd(2, 22, 11);
    PowAdd(2, 33, 33);
    PowAdd(2, 66, 6);
    PowAdd(2, 65, 1);
    PowAdd(2, 6, 6);
    PowAdd(2, 6, 1);
    PowAdd(2, 33, 1);
    PowAdd(2, 34, 1);
    PowAdd(2, 35, 1);
    PowAdd(2, 36, 1);
    PowAdd(2, 37, 1);
    PowAdd(5, 28, 1);
    FirstPowers();
  }

  lemma FirstPowers()
    ensures Pow(5, 1) == 5 && Pow(2, 1) == 2
  {
  }

  /** The largest double lies between 10^308 and 10^309. */
  lemma LargestMagnitude()
    ensures RPow(10, 308) <= Value(0x7fef_ffff_ffff_ffff) < RPow(10, 309)
  {
    hide Pow, RPow, Value;
    LargestIs(0x1f_ffff_ffff_ffff);
    LargestBelow(1024);
    TenAgainstMax();
    RPowNat(10, 308);
    RPowNat(10, 309);
    RPowNat(2, 1024);
  }

  lemma LargestIs(m: nat)
    requires m == Mant(0x7fef_ffff_ffff_ffff)
    ensures m == 0x1f_ffff_ffff_ffff && Value(0x7fef_ffff_ffff_ffff) == (m * Pow(2, 971)) as real
  {
    assert Exp2(0x7fef_ffff_ffff_ffff) == 971;
    hide Pow, RPow;
    RPowNat(2, 971);
    CastMul(m, Pow(2, 971));
  }

  lemma TenAgainstMax()
    ensures Pow(10, 308) <= 0x1f_ffff_ffff_ffff * Pow(2, 971) && Pow(2, 1024) <= Pow(10, 309)
  {
    FivesAndTwos();
    SeventhOfMax();
    hide Pow;
    PowMulBase(2, 5, 308);
    MulMono(Pow(5, 308), 7 * Pow(2, 713), Pow(2, 308));
    PowAdd(2, 713, 308);
    MulAssoc(7, Pow(2, 713), Pow(2, 308));
    PowAdd(2, 50, 971);
    MulAssoc(7, Pow(2, 50), Pow(2, 971));
    MulMono(7 * Pow(2, 50), 0x1f_ffff_ffff_ffff, Pow(2, 971));
    PowMulBase(2, 5, 309);
    PowMono(5, 308, 309);
    MulMono(Pow(2, 715), Pow(5, 309), Pow(2, 309));
    PowAdd(2, 715, 309);
  }

  lemma SeventhOfMax()
    ensures 7 * Pow(2, 50) <= 0x1f_ffff_ffff_ffff
  {
    Pow52();
    assert Pow(2, 52) == 2 * (2 * Pow(2, 50));
  }

  /** 10^-324 and everything below rounds to zero. */
  lemma BelowHalfSmallest()
    ensures RPow(10, -324) < Value(1) / 2.0
  {
    assert Mant(1) == 1 && Exp2(1) == -1074;
    assert Value(1) == RPow(2, -1074);
    hide Pow, RPow, Value;
    RPowStep(2, -1075);
    TenBelow();
    InverseStrict(Pow(2, 1075), Pow(10, 324));
    NegativePower(2, 1075);
    NegativePower(10, 324);
  }

  lemma TenBelow()
    ensures 0 < Pow(2, 1075) < Pow(10, 324)
  {
    FivesAndTwos();
    hide Pow;
    PowAdd(5, 308, 16);
    PowAdd(2, 715, 37);
    MulMono(Pow(2, 715), Pow(5, 308), Pow(2, 37));
    MulMono(Pow(2, 37), Pow(5, 16), Pow(5, 308));
    PowMulBase(2, 5, 324);
    MulMono(Pow(2, 752), Pow(5, 324), Pow(2, 324));
    PowAdd(2, 752, 324);
    PowStrict(2, 1075, 1076);
  }

  /** Half of the smallest double and everything below rounds to zero, and nothing else does. */
  lemma ZeroIff(x: real, bits: nat)
    requires x >= 0.0 && Settled(x, bits)
    ensures bits == 0 <==> x <= Value(1) / 2.0
  {
    hide Value, IsNearestEven;
    ValueZero();
    ValueIncrease(0, 1);
    ValueMonotone(1, 0x7fef_ffff_ffff_ffff);
    if x <= Value(1) / 2.0 {
      NearestInBracket(x, 0, 0);
      NearestUnique(x, 0, bits);
    } else if bits == 0 {
      NotZeroThen(x);
    }
  }

  lemma NotZeroThen(x: real)
    requires x > Value(1) / 2.0 && Value(0) == 0.0
    ensures !IsNearestEven(x, 0)
  {
    hide Value;
    ValueIncrease(0, 1);
    assert Finite(1);
    assert Abs(Value(1) - x) < Abs(Value(0) - x);
  }

  lemma TinyIsZero(x: real)
    requires 0.0 <= x <= Value(1) / 2.0
    ensures Settled(x, 0) && CorrectlyRounded(x, 0, if x > 0.0 then -1 else 0)
  {
    hide Value;
    ValueZero();
    ValueMonotone(1, 0x7fef_ffff_ffff_ffff);
    NearestInBracket(x, 0, 0);
  }

  // ---- what is kept ----

  lemma KeptIsExact(ds: seq<char>, e: int)
    requires AllDigits(ds) && !NonZeroTail(ds)
    ensures DecValue(Kept(ds), e) == DecValue(ds, e)
  {
    if |ds| > 780 {
      var t, tail := ds[..780], ds[780..];
      assert ds == t + tail && Kept(ds) == t;
      DigitsZeros(tail);
      hide DigitsValue, RPow, Pow, Times;
      DigitsConcat(t, tail);
      RPowTimes(10, |tail|, e - |ds|);
      RPowNat(10, |tail|);
      WholeTimes(DigitsValue(t), Pow(10, |tail|), RPow(10, e - |ds|));
    }
  }

  lemma KeptLeading(ds: seq<char>)
    requires NonZeroTail(ds) && AllDigits(ds)
    ensures var z := LeadingZeros(ds);
              z < |ds| && AllDigits(Kept(ds)) && LeadingZeros(Kept(ds)) == if z < 780 then z else 780
    ensures LeadingZeros(Kept(ds)) < |Kept(ds)| == 781
  {
    var k := Kept(ds);
    assert forall i :: 0 <= i < 780 ==> k[i] == ds[i];
    assert k[780] == '1';
  }

  /** Rounding what is kept is rounding the literal when the first digit that is not zero is among the
      first thirteen, or so far behind that both are nearer to zero than to any other double. */
  lemma KeptRoundsAlike(ds: seq<char>, e: int, bits: nat, status: int)
    requires AllDigits(ds) && -400 <= e <= 400
    requires !NonZeroTail(ds) || LeadingZeros(ds) <= 12 || LeadingZeros(ds) >= 724
    requires CorrectlyRounded(DecValue(Kept(ds), e), bits, status)
    ensures CorrectlyRounded(DecValue(ds, e), bits, status)
  {
    hide DecValue, CorrectlyRounded, DigitsValue, Pow, SameUnit, LeadingZeros, NonZeroTail;
    if !NonZeroTail(ds) {
      KeptIsExact(ds, e);
    } else if LeadingZeros(ds) <= 12 {
      TailThere(ds);
      CutKeepsEnough(ds);
      CutInUnit(ds, e);
      SameRounding(DecValue(ds, e), DecValue(ds[..780] + ['1'], e), DigitsValue(ds[..780]), e, bits, status);
    } else {
      KeptLeading(ds);
      BothTiny(ds, e);
      BothTiny(Kept(ds), e);
      OneRounding(DecValue(Kept(ds), e), 0, bits, -1, status);
    }
  }

  lemma TailThere(ds: seq<char>)
    requires NonZeroTail(ds)
    ensures |ds| > 780 && Kept(ds) == ds[..780] + ['1'] && exists k :: 780 <= k < |ds| && ds[k] != '0'
  {
  }

  lemma BothTiny(ds: seq<char>, e: int)
    requires AllDigits(ds) && LeadingZeros(ds) < |ds| && e - LeadingZeros(ds) <= -324
    ensures 0.0 < DecValue(ds, e) <= Value(1) / 2.0 && CorrectlyRounded(DecValue(ds, e), 0, -1)
  {
    hide DecValue, RPow, Pow, Value, CorrectlyRounded, LeadingZeros, AllDigits;
    LeadingRange(ds, e);
    RPowPositive(10, e - LeadingZeros(ds) - 1);
    RPowMono(10, e - LeadingZeros(ds), -324);
    BelowHalfSmallest();
    TinyIsZero(DecValue(ds, e));
  }

  lemma OneRounding(x: real, a: nat, b: nat, s: int, t: int)
    requires CorrectlyRounded(x, a, s) && CorrectlyRounded(x, b, t)
    ensures a == b && s == t
  {
    hide Value, IsNearestEven;
    if x <= Value(0x7fef_ffff_ffff_ffff) {
      NearestUnique(x, a, b);
    }
  }

  // ---- what separates two numbers ----

  /** The number rounds to a double above `b`: past the midpoint with the next, or on it when the next is
      even; past the largest double everything does. */
  ghost predicate RoundsPast(x: real, b: nat) {
    if b == 0x7fef_ffff_ffff_ffff then x > Value(b)
    else
      var mid := (Value(b) + Value(b + 1)) / 2.0;
      x > mid || (x == mid && b % 2 == 1)
  }

  /** Where a number that is not too large lies. */
  lemma Bracketed(x: real) returns (t: nat)
    requires 0.0 <= x <= Value(0x7fef_ffff_ffff_ffff)
    ensures t < 0x7fef_ffff_ffff_ffff && Value(t) <= x <= Value(t + 1)
    ensures Settled(x, if RoundsPast(x, t) then t + 1 else t)
  {
    hide Value, IsNearestEven, FloorIn, RoundsPast, Settled;
    ValueZero();
    t := FloorIn(x, 0, 0x7fef_ffff_ffff_ffff);
    FloorInBrackets(x, 0, 0x7fef_ffff_ffff_ffff);
    SideSettles(x, t);
  }

  lemma SideSettles(x: real, t: nat)
    requires x <= Value(0x7fef_ffff_ffff_ffff) && t < 0x7fef_ffff_ffff_ffff && Value(t) <= x <= Value(t + 1)
    ensures Settled(x, if RoundsPast(x, t) then t + 1 else t)
  {
    hide Value, IsNearestEven;
    NearestInBracket(x, t, if RoundsPast(x, t) then t + 1 else t);
  }

  /** What a number rounds to is the number of doubles that it rounds past. */
  lemma PastIff(x: real, bits: nat, b: nat)
    requires x >= 0.0 && Settled(x, bits) && Finite(b)
    ensures RoundsPast(x, b) <==> b < bits
    ensures bits <= 0x7ff0_0000_0000_0000
  {
    hide Value, IsNearestEven;
    var top := 0x7fef_ffff_ffff_ffff;
    ValueMonotone(b, top);
    if b < top {
      ValueIncrease(b, b + 1);
      ValueMonotone(b + 1, top);
    }
    if x <= Value(top) {
      var t := Bracketed(x);
      NearestUnique(x, bits, if RoundsPast(x, t) then t + 1 else t);
      if b < t {
        ValueMonotone(b + 1, t);
      } else if b > t {
        ValueMonotone(t + 1, b);
      }
    }
  }

  /** Two numbers round alike exactly if no double is rounded past by one of them only. */
  lemma AlikeIff(x: real, k: real, bits: nat)
    requires x >= 0.0 && k >= 0.0 && Settled(k, bits)
    ensures Settled(x, bits) <==> forall b :: Finite(b) ==> (RoundsPast(x, b) <==> RoundsPast(k, b))
  {
    hide Value, Settled, RoundsPast;
    if Settled(x, bits) {
      forall b | Finite(b) ensures RoundsPast(x, b) <==> RoundsPast(k, b) {
        PastIff(x, bits, b);
        PastIff(k, bits, b);
      }
    } else if forall b :: Finite(b) ==> (RoundsPast(x, b) <==> RoundsPast(k, b)) {
      var r := RoundedThere(x);
      PastIff(x, r, 0);
      PastIff(k, bits, 0);
      var least := if r < bits then r else bits;
      PastIff(x, r, least);
      PastIff(k, bits, least);
    }
  }

  lemma RoundedThere(x: real) returns (r: nat)
    requires x >= 0.0
    ensures Settled(x, r)
  {
    hide Value, IsNearestEven, RoundsPast;
    if x > Value(0x7fef_ffff_ffff_ffff) {
      r := 0x7ff0_0000_0000_0000;
    } else {
      var t := Bracketed(x);
      r := if RoundsPast(x, t) then t + 1 else t;
    }
  }

  // ---- the exact condition ----

  /** The literal and the digits kept of it are on different sides of a midpoint of two doubles, or of
      the largest double. */
  ghost predicate Separated(l: Literal) {
    var x, k := LiteralValue(l), DecValue(Kept(l.digits), WorkingExponent(l));
    exists b :: Finite(b) && RoundsPast(x, b) != RoundsPast(k, b)
  }

  /** The number is above the largest double: by its magnitude, or within that by its digits. */
  ghost predicate TooLarge(l: Literal) {
    var z := LeadingZeros(l.digits);
    var e := l.point + l.exponent - z;
    z < |l.digits| && (e > 309 || (e == 309 && DecValue(l.digits[z..], 309) > Value(0x7fef_ffff_ffff_ffff)))
  }

  lemma TooLargeIs(l: Literal)
    requires AllDigits(l.digits)
    ensures TooLarge(l) <==> LiteralValue(l) > Value(0x7fef_ffff_ffff_ffff)
  {
    hide DecValue, RPow, Value, LeadingZeros;
    var z, e := LeadingZeros(l.digits), l.point + l.exponent;
    LeadingRange(l.digits, e);
    LargestMagnitude();
    RPowPositive(10, 308);
    if z < |l.digits| && e - z > 309 {
      RPowMono(10, 309, e - z - 1);
    } else if z < |l.digits| && e - z < 309 {
      RPowMono(10, e - z, 308);
    }
  }

  /** More than 780 digits, and zeros in front that leave fewer than 768 of those kept to count. */
  predicate CutShort(l: Literal) {
    NonZeroTail(l.digits) && 12 < LeadingZeros(l.digits) < 724
  }

  /** The reported value is right: infinity when the number is above the largest double; zero when it is
      below the limit; within the limits always unless the digits were cut short and a double lies
      between; and of a clamped exponent when infinity is right, or zero is what the exponent gives. */
  ghost predicate ValueRight(l: Literal) {
    var w := WorkingExponent(l);
    if w > 400 then TooLarge(l)
    else if ExponentKept(l) then w < -400 || !CutShort(l) || !Separated(l)
    else TooLarge(l) || DecValue(Kept(l.digits), w) <= Value(1) / 2.0
  }

  /** Both the value and ERANGE are what they should be. */
  ghost predicate AllRight(l: Literal, bits: nat, erange: bool) {
    exists status: int :: CorrectlyRounded(LiteralValue(l), bits, status) && (erange <==> status != 0)
  }

  /** When the value is right, and when ERANGE is too: it is set for a zero beyond the limit of 400. */
  ghost predicate Judged(l: Literal, bits: nat, erange: bool) {
    && (Settled(LiteralValue(l), bits) <==> ValueRight(l))
    && (AllRight(l, bits, erange) <==>
          ValueRight(l) && (LeadingZeros(l.digits) == |l.digits| ==> -400 <= WorkingExponent(l) <= 400))
  }

  lemma RightIff(l: Literal, bits: nat, erange: bool)
    requires AllDigits(l.digits) && Reported(l, bits, erange)
    ensures Judged(l, bits, erange)
  {
    var w := WorkingExponent(l);
    hide Judged, DecValue, Reported, CutShort;
    if w > 400 {
      AboveLimit(l, bits, erange);
    } else if w < -400 {
      BelowLimit(l, bits, erange);
    } else if ExponentKept(l) && CutShort(l) {
      WithinLimitsCut(l, bits, erange);
    } else if ExponentKept(l) {
      WithinLimits(l, bits, erange);
    } else {
      Clamped(l, bits, erange);
    }
  }

  lemma AboveLimit(l: Literal, bits: nat, erange: bool)
    requires AllDigits(l.digits) && Reported(l, bits, erange) && WorkingExponent(l) > 400
    ensures Judged(l, bits, erange)
  {
    TooLargeIs(l);
    hide TooLarge, LiteralValue, Value, LeadingZeros, IsNearestEven;
    NotInfinity(LiteralValue(l));
    if TooLarge(l) {
      assert CorrectlyRounded(LiteralValue(l), bits, 1);
      AboveNotZero(l);
    }
  }

  lemma NotInfinity(x: real)
    ensures !IsNearestEven(x, 0x7ff0_0000_0000_0000)
  {
  }

  lemma AboveNotZero(l: Literal)
    requires TooLarge(l)
    ensures LeadingZeros(l.digits) < |l.digits|
  {
  }

  lemma BelowLimit(l: Literal, bits: nat, erange: bool)
    requires AllDigits(l.digits) && Reported(l, bits, erange) && WorkingExponent(l) < -400
    ensures Judged(l, bits, erange)
  {
    hide DecValue, LeadingZeros, Value, IsNearestEven, Kept;
    var x := LiteralValue(l);
    if LeadingZeros(l.digits) < |l.digits| {
      BothTiny(l.digits, l.point + l.exponent);
      assert CorrectlyRounded(x, 0, -1);
    } else {
      LeadingRange(l.digits, l.point + l.exponent);
      HalfPositive();
      TinyIsZero(x);
      forall status: int | CorrectlyRounded(x, 0, status) ensures status == 0 {
        OneRounding(x, 0, 0, 0, status);
      }
    }
  }

  lemma HalfPositive()
    ensures 0.0 < Value(1) / 2.0
  {
    hide Value;
    ValueZero();
    ValueIncrease(0, 1);
  }

  lemma WithinLimits(l: Literal, bits: nat, erange: bool)
    requires AllDigits(l.digits) && Reported(l, bits, erange) && -400 <= WorkingExponent(l) <= 400 && ExponentKept(l)
    requires !CutShort(l)
    ensures Judged(l, bits, erange)
  {
    hide DecValue, LeadingZeros, Value, IsNearestEven, Kept, TooLarge;
    var w := WorkingExponent(l);
    var status: int :| CorrectlyRounded(DecValue(Kept(l.digits), w), bits, status) && (erange <==> status != 0);
    KeptRoundsAlike(l.digits, w, bits, status);
    assert CorrectlyRounded(LiteralValue(l), bits, status);
  }

  lemma WithinLimitsCut(l: Literal, bits: nat, erange: bool)
    requires AllDigits(l.digits) && Reported(l, bits, erange) && -400 <= WorkingExponent(l) <= 400 && ExponentKept(l)
    requires CutShort(l)
    ensures Judged(l, bits, erange)
  {
    hide DecValue, LeadingZeros, Value, IsNearestEven, Kept, TooLarge, RoundsPast, NonZeroTail;
    var w, x := WorkingExponent(l), LiteralValue(l);
    var k := DecValue(Kept(l.digits), w);
    var status: int :| CorrectlyRounded(k, bits, status) && (erange <==> status != 0);
    KeptLeading(l.digits);
    NotNegative(l.digits, w);
    KeptClose(l.digits, w);
    AlikeIff(x, k, bits);
    AboveZero(l.digits, w);
    NotInfinity(x);
    NotInfinity(k);
    assert Settled(x, bits) ==> CorrectlyRounded(x, bits, status);
  }

  lemma AboveZero(ds: seq<char>, e: int)
    requires AllDigits(ds) && LeadingZeros(ds) < |ds|
    ensures DecValue(ds, e) > 0.0
  {
    hide DecValue, RPow, LeadingZeros;
    LeadingRange(ds, e);
    RPowPositive(10, e - LeadingZeros(ds) - 1);
  }

  /** The kept digits' number is zero when the literal is, and below ten times too small. */
  lemma KeptClose(ds: seq<char>, w: int)
    requires AllDigits(ds)
    ensures var k, y := DecValue(Kept(ds), w), DecValue(ds, w);
            0.0 <= k && 0.0 <= y <= 10.0 * k && (y > 0.0 <==> k > 0.0) && (y <= 2.0 * k || k <= RPow(10, w - 781))
  {
    hide RPow, DigitsValue, LeadingZeros, Times, NonZeroTail, DecValue;
    NotNegative(ds, w);
    NotNegative(Kept(ds), w);
    if !NonZeroTail(ds) {
      KeptIsExact(ds, w);
    } else {
      TailThere(ds);
      CutInUnit(ds, w);
      var t := ds[..780];
      OneMoreDigit(t, w);
      RPowPositive(10, w - 781);
      RPowStep(10, w - 781);
      UnitsOf(DigitsValue(t), RPow(10, w - 781), RPow(10, w - 780), DecValue(ds, w), DecValue(t + ['1'], w));
    }
  }

  lemma NotNegative(ds: seq<char>, w: int)
    ensures DecValue(ds, w) >= 0.0
  {
    hide RPow, DigitsValue;
    RPowPositive(10, w - |ds|);
  }

  lemma OneMoreDigit(t: seq<char>, w: int)
    requires |t| == 780
    ensures DecValue(t + ['1'], w) == Times((10 * DigitsValue(t) + 1) as real, RPow(10, w - 781))
  {
    hide RPow, Times, DigitsValue;
    DigitsSnoc(t, '1');
  }

  lemma UnitsOf(t: nat, c: real, u: real, y: real, k: real)
    requires c > 0.0 && u == 10.0 * c && k == Times((10 * t + 1) as real, c)
    requires Times(t as real, u) < y < Times(t as real + 1.0, u)
    ensures 0.0 < y <= 10.0 * k && k > 0.0 && (y <= 2.0 * k || k <= c)
  {
    assert t as real * c >= 0.0;
    assert k == 10.0 * (t as real * c) + c;
    assert Times(t as real + 1.0, u) == 10.0 * (t as real * c) + 10.0 * c;
    assert Times(t as real, u) == 10.0 * (t as real * c);
    if t >= 1 {
      assert t as real * c >= c by {
        RMulMono(1.0, t as real, c);
      }
    }
  }

  lemma ClampedSmaller(l: Literal)
    requires AllDigits(l.digits) && WorkingExponent(l) <= 400 && !ExponentKept(l)
    ensures var x, k := LiteralValue(l), DecValue(Kept(l.digits), WorkingExponent(l));
            0.0 <= x <= k && (x > 0.0 <==> k > 0.0) && (k > Value(1) / 2.0 ==> 5.0 * x <= k)
  {
    hide RPow, DigitsValue, Value, Kept;
    var ds, e, w := l.digits, l.point + l.exponent, WorkingExponent(l);
    KeptClose(ds, w);
    TenTimes(ds, e, w);
    hide DecValue;
    NotNegative(ds, e);
    BelowHalfSmallest();
    RPowMono(10, w - 781, -324);
  }

  lemma TenTimes(ds: seq<char>, e: int, w: int)
    requires e < w
    ensures 10.0 * DecValue(ds, e) <= DecValue(ds, w) && (DecValue(ds, e) > 0.0 <==> DecValue(ds, w) > 0.0)
  {
    hide Pow, RPow, DigitsValue;
    var d, a, b := DigitsValue(ds) as real, RPow(10, e - |ds|), RPow(10, w - |ds|);
    RPowPositive(10, e - |ds|);
    RPowPositive(10, w - |ds|);
    RPowStep(10, e - |ds|);
    RPowMono(10, e - |ds| + 1, w - |ds|);
    RMulMono(10.0 * a, b, d);
    RMulSwap(d, 10.0, a);
    assert d > 0.0 ==> d * a > 0.0 && d * b > 0.0;
  }

  /** What a number above half of the smallest double rounds to is at least half of it. */
  lemma AtLeastHalf(k: real, bits: nat)
    requires 0.0 < k <= Value(0x7fef_ffff_ffff_ffff) && IsNearest(k, bits) && bits != 0
    ensures Value(bits) >= k / 2.0
  {
    hide Value;
    ValueZero();
    var lo := FloorIn(k, 0, 0x7ff0_0000_0000_0000);
    FloorInBrackets(k, 0, 0x7ff0_0000_0000_0000);
    if lo == 0 {
      ValueMonotone(1, bits);
    } else if lo + 1 < 0x7ff0_0000_0000_0000 {
      AtMostDouble(lo);
      assert Abs(Value(bits) - k) <= Abs(Value(lo) - k);
    } else {
      assert Abs(Value(bits) - k) <= Abs(Value(lo) - k);
    }
  }

  lemma AtMostDouble(lo: nat)
    requires lo >= 1
    ensures Value(lo + 1) <= 2.0 * Value(lo)
  {
    hide Value, Units, Gap, Mant, Scale;
    UnitsDouble(lo);
    ValueUnits(lo);
    ValueUnits(lo + 1);
    ScaleOrder(Value(lo + 1), 2.0 * Value(lo), Scale());
  }

  lemma UnitsDouble(lo: nat)
    requires lo >= 1
    ensures Units(lo + 1) <= 2 * Units(lo)
  {
    assert Mant(lo) >= 1;
    NextUnits(lo);
    hide Mant, Gap;
    MulAtLeast(Gap(lo), Mant(lo));
  }

  lemma ScaleOrder(a: real, b: real, s: real)
    requires s > 0.0 && a * s <= b * s
    ensures a <= b
  {
    ScaleCompare(b, a, s);
  }

  lemma FarApart(x: real, k: real, bits: nat)
    requires 0.0 <= 5.0 * x <= k <= Value(0x7fef_ffff_ffff_ffff) && k > Value(1) / 2.0 && IsNearestEven(k, bits)
    requires bits != 0
    ensures !IsNearestEven(x, bits) && x <= Value(0x7fef_ffff_ffff_ffff)
  {
    hide Value;
    HalfPositive();
    AtLeastHalf(k, bits);
    ValueZero();
    assert Abs(Value(0) - x) < Abs(Value(bits) - x);
  }

  /** A number clamped to at least ten times its size cannot round to the same double, unless both round
      to zero or to infinity. */
  lemma Clamped(l: Literal, bits: nat, erange: bool)
    requires AllDigits(l.digits) && Reported(l, bits, erange) && WorkingExponent(l) <= 400 && !ExponentKept(l)
    ensures Judged(l, bits, erange)
  {
    hide DecValue, LeadingZeros, Value, IsNearestEven, IsNearest, Kept, TooLarge;
    var w, x := WorkingExponent(l), LiteralValue(l);
    var k := DecValue(Kept(l.digits), w);
    var status: int :| CorrectlyRounded(k, bits, status) && (erange <==> status != 0);
    TooLargeIs(l);
    ClampedSmaller(l);
    ZeroIff(k, bits);
    if k <= Value(1) / 2.0 {
      TinyIsZero(x);
      TinyIsZero(k);
      OneRounding(k, 0, bits, if k > 0.0 then -1 else 0, status);
      assert CorrectlyRounded(x, bits, status);
    } else if k > Value(0x7fef_ffff_ffff_ffff) {
      NotInfinity(x);
      assert TooLarge(l) ==> CorrectlyRounded(x, bits, status);
    } else {
      FarApart(x, k, bits);
    }
  }
}
