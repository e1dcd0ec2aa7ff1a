/**
 How many zeros in front of a literal are too many: a literal with thirteen of them may be read as the
 wrong double, and so for every number of zeros up to 723.
 */
module StrtodMisread {
  import opened Powers
  import opened Digits
  import opened Doubles
  import opened Decimals
  import opened DecToDouble
  import opened Sticky
  import opened Strtod
  import opened StrtodRight
  import opened Emit
  import opened FloatText

  /** Every literal with `z` zeros in front, whatever its digits and its exponent within the limit of
      400, is reported as the nearest double. */
  ghost predicate AlwaysRight(z: nat) {
    forall s: seq<char>, bits: nat, erange: bool {:trigger Reported(ReadLiteral(s, 0), bits, erange)} ::
      var l := ReadLiteral(s, 0);
      l.digits != [] && LeadingZeros(l.digits) == z && ExponentKept(l) && WorkingExponent(l) <= 400
          && Reported(l, bits, erange)
      ==> Settled(LiteralValue(l), bits)
  }

  lemma AlwaysRightIff(z: nat)
    ensures AlwaysRight(z) <==> z <= 12 || z >= 724
  {
    if z <= 12 || z >= 724 {
      hide ReadLiteral, Reported, Settled, LiteralValue, ValueRight;
      forall s: seq<char>, bits: nat, erange: bool {:trigger Reported(ReadLiteral(s, 0), bits, erange)} |
        var l := ReadLiteral(s, 0);
        l.digits != [] && LeadingZeros(l.digits) == z && ExponentKept(l) && WorkingExponent(l) <= 400
            && Reported(l, bits, erange)
        ensures Settled(LiteralValue(ReadLiteral(s, 0)), bits)
      {
        AllRead(s);
        RightIff(ReadLiteral(s, 0), bits, erange);
        KeptIsRight(ReadLiteral(s, 0));
      }
    } else {
      var s, bits, erange := Misread(z);
      assert Reported(ReadLiteral(s, 0), bits, erange);
    }
  }

  lemma AllRead(s: seq<char>)
    ensures AllDigits(ReadLiteral(s, 0).digits)
  {
  }

  lemma KeptIsRight(l: Literal)
    requires ExponentKept(l) && WorkingExponent(l) <= 400
    requires (LeadingZeros(l.digits) <= 12 || LeadingZeros(l.digits) >= 724)
    ensures ValueRight(l)
  {
    hide Separated, LeadingZeros;
  }

  // ---- a number on the other side of a midpoint than its kept digits ----

  /** The smallest numbers halfway between two doubles are odd multiples of 2^-1075; scaled by ten they
      are these integers. */
  function Scaled(odd: nat): nat {
    odd * Pow(5, 1075)
  }

  lemma ScaledMidpoint(odd: nat, lo: nat)
    requires odd == 2 * lo + 1 && lo < 0x20_0000_0000_0000
    ensures (Value(lo) + Value(lo + 1)) / 2.0 == Times((10 * Scaled(odd)) as real, RPow(10, -1076))
  {
    hide Pow, RPow, Value, Times;
    LowMidpoint(odd, lo);
    TenthPlace(odd);
  }

  lemma LowMidpoint(odd: nat, lo: nat)
    requires odd == 2 * lo + 1 && lo < 0x20_0000_0000_0000
    ensures (Value(lo) + Value(lo + 1)) / 2.0 == Times(odd as real, RPow(2, -1075))
  {
    LowMantissa(lo);
    hide Pow, RPow, Value, Mant, Exp2, Times;
    Midpoint(lo);
  }

  lemma TenthPlace(odd: nat)
    ensures Times(odd as real, RPow(2, -1075)) == Times((10 * Scaled(odd)) as real, RPow(10, -1076))
  {
    hide Pow, RPow;
    FiveOverTen(1075);
    RPowStep(10, -1076);
    var five := Pow(5, 1075);
    CastMul(odd, five);
    CastMul(10, odd * five);
    hide Times;
    Regroup(odd as real, five as real, RPow(10, -1075), RPow(10, -1076), RPow(2, -1075));
  }

  lemma Regroup(m: real, f: real, t: real, u: real, w: real)
    requires f * t == w && t == 10.0 * u
    ensures Times(m, w) == Times(10.0 * (m * f), u)
  {
    RMulAssoc(m, f, t);
    RMulSwap(m * f, 10.0, u);
  }

  lemma LowMantissa(lo: nat)
    requires lo < 0x20_0000_0000_0000
    ensures Mant(lo) == lo && Exp2(lo) == -1074
  {
  }

  /** Odd and divisible by five, it ends in a five. */
  lemma EndsInFive(odd: nat)
    requires odd % 2 == 1
    ensures Scaled(odd) % 10 == 5
  {
    OddPower(1074);
    var p := Pow(5, 1074);
    hide Pow;
    assert Pow(5, 1075) == 5 * p by {
      PowAdd(5, 1, 1074);
      FirstPowers();
    }
    OddTimesFive(odd, p);
  }

  lemma OddTimesFive(odd: nat, p: nat)
    requires odd % 2 == 1 && p % 2 == 1
    ensures odd * (5 * p) % 10 == 5
  {
    OddProduct(odd, p);
    MulAssoc(odd, 5, p);
    MulAssoc(5, odd, p);
    FiveTimesOdd(odd * p);
  }

  lemma OddProduct(a: nat, b: nat)
    requires a % 2 == 1 && b % 2 == 1
    ensures a * b % 2 == 1
  {
    var h := a / 2;
    MulDistrib(b, 2 * h, 1);
    MulAssoc(2, h, b);
    assert a * b == 2 * (h * b) + b;
  }

  lemma FiveTimesOdd(n: nat)
    requires n % 2 == 1
    ensures 5 * n % 10 == 5
  {
  }

  lemma {:induction false} OddPower(k: nat)
    ensures Pow(5, k) % 2 == 1
  {
    if k > 0 {
      OddPower(k - 1);
    }
  }

  /** A digit string whose first 780 digits, with a one behind them, lie on one side of a number that
      ends in a five and the string itself on the other. */
  lemma Beside(a: nat, m: nat) returns (t: nat, tail: nat)
    requires m > 0 && a % 10 == 5
    ensures t == Quotient(a, Pow(10, m)) && 0 < tail < Pow(10, m + 1)
    ensures OnTwoSides(a, t, Pow(10, m), tail)
  {
    hide OnTwoSides, Quotient;
    var p, q := TenParts(m);
    hide Pow;
    t, tail := BesideTen(a, p, q);
  }

  function Quotient(a: nat, p: nat): nat
    requires p > 0
  {
    a / p
  }

  /** In tenths of what `p` units make, of `t` and a one, and of `t` and the tail. */
  ghost predicate OnTwoSides(a: nat, t: nat, p: nat, tail: nat) {
    var kept, all := (10 * t + 1) * p, t * (10 * p) + tail;
    kept < 10 * a < all || all < 10 * a < kept
  }

  lemma TenParts(m: nat) returns (p: nat, q: nat)
    requires m > 0
    ensures p == Pow(10, m) == 10 * q && q > 0 && Pow(10, m + 1) == 10 * p && (q == 1 || q % 10 == 0)
  {
    p, q := Pow(10, m), Pow(10, m - 1);
  }

  lemma BesideTen(a: nat, p: nat, q: nat) returns (t: nat, tail: nat)
    requires q > 0 && p == 10 * q && (q == 1 || q % 10 == 0) && a % 10 == 5
    ensures t == Quotient(a, p) && 0 < tail < 10 * p && OnTwoSides(a, t, p, tail)
  {
    hide OnTwoSides, Quotient;
    t := Quotient(a, p);
    var r := QuotientLeft(a, p, t);
    tail := if r > q then 10 * p - 1 else 1;
    BesideParts(a, t, r, p, q, tail);
  }

  lemma QuotientLeft(a: nat, p: nat, t: nat) returns (r: nat)
    requires p > 0 && t == Quotient(a, p)
    ensures a == t * p + r && r < p
  {
    r := a % p;
  }

  lemma BesideParts(a: nat, t: nat, r: nat, p: nat, q: nat, tail: nat)
    requires q > 0 && p == 10 * q && (q == 1 || q % 10 == 0) && a % 10 == 5 && a == t * p + r && r < p
    requires tail == if r > q then 10 * p - 1 else 1
    ensures OnTwoSides(a, t, p, tail)
  {
    LastDigit(t, q, r, a);
    TenFold(t, p);
    var c: int := t * p;
    BesideRest(a, c, r, p, q, tail);
  }

  lemma TenFold(t: nat, p: nat)
    ensures (10 * t + 1) * p == 10 * (t * p) + p && t * (10 * p) == 10 * (t * p)
  {
    MulDistrib(p, 10 * t, 1);
    MulAssoc(10, t, p);
    MulAssoc(t, 10, p);
  }

  lemma BesideRest(a: nat, c: int, r: nat, p: nat, q: nat, tail: nat)
    requires p == 10 * q && a == c + r && 0 < r < p && r != q && tail == if r > q then 10 * p - 1 else 1
    ensures var kept, all := 10 * c + p, 10 * c + tail; kept < 10 * a < all || all < 10 * a < kept
  {
  }

  lemma LastDigit(t: nat, q: nat, r: nat, a: nat)
    requires q > 0 && a == t * (10 * q) + r && a % 10 == 5 && (q == 1 || q % 10 == 0)
    ensures r > 0 && r != q
  {
    assert t * (10 * q) == 10 * (t * q);
    assert r % 10 == 5;
  }

  lemma LeadingOf(v: nat, len: nat, z: nat)
    requires z < len && Pow(10, len - 1 - z) <= v < Pow(10, len - z)
    ensures DigitsValue(Padded(v, len)) == v && LeadingZeros(Padded(v, len)) == z
  {
    hide Pow, DigitsValue, Padded, LeadingZeros;
    PowMono(10, len - z, len);
    PaddedValue(v, len);
    LeadingBounds(Padded(v, len));
    var y := LeadingZeros(Padded(v, len));
    if y < z {
      PowMono(10, len - z, len - 1 - y);
    } else if z < y {
      PowMono(10, len - y, len - 1 - z);
    }
  }

  lemma QuotientRange(a: nat, n: nat, m: nat)
    requires m < n && Pow(10, n - 1) <= a < Pow(10, n)
    ensures Pow(10, n - 1 - m) <= Quotient(a, Pow(10, m)) < Pow(10, n - m)
  {
    hide Pow;
    var p, q := Pow(10, m), Quotient(a, Pow(10, m));
    assert a == q * p + a % p;
    PowAdd(10, n - m, m);
    PowAdd(10, n - 1 - m, m);
    if q >= Pow(10, n - m) {
      MulMono(Pow(10, n - m), q, p);
    }
    if q < Pow(10, n - 1 - m) {
      MulMono(q + 1, Pow(10, n - 1 - m), p);
      MulDistrib(p, q, 1);
    }
  }

  /** The number and its kept digits are on different sides of a * 10^-1075. */
  ghost predicate Parted(ds: seq<char>, w: int, a: nat) {
    var kept, all, mid := DecValue(Kept(ds), w), DecValue(ds, w), Times((10 * a) as real, RPow(10, -1076));
    kept < mid < all || all < mid < kept
  }

  lemma PartedDigits(a: nat, n: nat, z: nat) returns (ds: seq<char>)
    requires 0 < z < 780 < z + n && n < 780 && Pow(10, n - 1) <= a < Pow(10, n) && a % 10 == 5
    ensures AllDigits(ds) && NonZeroTail(ds) && LeadingZeros(ds) == z && Parted(ds, n - 1075 + z, a)
  {
    hide Pow, DigitsValue, Padded, LeadingZeros, NonZeroTail, OnTwoSides, Quotient, Parted;
    var m := n + z - 780;
    var t, tail := Beside(a, m);
    QuotientRange(a, n, m);
    LeadingOf(t, 780, z);
    PaddedValue(tail, m + 1);
    var head, rest := Padded(t, 780), Padded(tail, m + 1);
    ds := head + rest;
    assert ds[..780] == head;
    SameLeading(ds, 780);
    TailCounts(head, rest);
    PartedBeside(a, head, rest, n - 1075 + z, m);
  }

  lemma PartedBeside(a: nat, head: seq<char>, rest: seq<char>, w: int, m: nat)
    requires |head| == 780 && |rest| == m + 1 && w == m - 295 && NonZeroTail(head + rest)
    requires OnTwoSides(a, DigitsValue(head), Pow(10, m), DigitsValue(rest))
    ensures Parted(head + rest, w, a)
  {
    var ds := head + rest;
    assert ds[..780] == head;
    assert Kept(ds) == head + ['1'] by {
      TailThere(ds);
    }
    WrittenOut(head, rest, w, m);
    assert Pow(10, m + 1) == 10 * Pow(10, m);
    hide Pow, DigitsValue, RPow, Times, Kept, DecValue;
    RPowPositive(10, -1076);
    var t, u := DigitsValue(head), RPow(10, -1076);
    var kept, all := (10 * t + 1) * Pow(10, m), t * Pow(10, m + 1) + DigitsValue(rest);
    if kept < 10 * a {
      TimesStrict(kept as real, (10 * a) as real, u);
      TimesStrict((10 * a) as real, all as real, u);
    } else {
      TimesStrict(all as real, (10 * a) as real, u);
      TimesStrict((10 * a) as real, kept as real, u);
    }
  }

  lemma TailCounts(head: seq<char>, rest: seq<char>)
    requires |head| == 780 && AllDigits(rest) && DigitsValue(rest) > 0
    ensures NonZeroTail(head + rest)
  {
    DigitsZeros(rest);
    var k :| 0 <= k < |rest| && DigitOf(rest[k]) != 0;
    assert (head + rest)[780 + k] != '0';
  }

  lemma WrittenOut(head: seq<char>, rest: seq<char>, w: int, m: nat)
    requires |head| == 780 && |rest| == m + 1 && w == m - 295
    ensures 0 <= (10 * DigitsValue(head) + 1) * Pow(10, m)
    ensures DecValue(head + ['1'], w) == Times(((10 * DigitsValue(head) + 1) * Pow(10, m)) as real, RPow(10, -1076))
    ensures DecValue(head + rest, w)
              == Times((DigitsValue(head) * Pow(10, m + 1) + DigitsValue(rest)) as real, RPow(10, -1076))
  {
    hide Pow, DigitsValue, RPow, Times;
    OneMoreDigit(head, w);
    RPowTimes(10, m, -1076);
    RPowNat(10, m);
    MulNonneg(10 * DigitsValue(head) + 1, Pow(10, m));
    WholeTimes(10 * DigitsValue(head) + 1, Pow(10, m), RPow(10, -1076));
    DigitsConcat(head, rest);
  }

  // ---- the literal ----

  /** The midpoint below 2^-1021 has 768 digits. */
  lemma LongestScaled()
    ensures Pow(10, 767) <= Scaled(0x3f_ffff_ffff_ffff) < Pow(10, 768)
  {
    FewFives();
    FivesAndTwos();
    Pow54();
    hide Pow;
    PowAdd(5, 768, 307);
    PowAdd(5, 767, 308);
    PowAdd(2, 54, 714);
    PowAdd(2, 53, 714);
    PowMono(2, 714, 715);
    PowMulBase(2, 5, 768);
    PowMulBase(2, 5, 767);
    HalfOf54();
    MulMono(Pow(5, 307), Pow(2, 714), Pow(5, 768));
    MulMono(Pow(5, 768) * Pow(5, 307), Pow(5, 768) * Pow(2, 714), Pow(2, 54));
    ThreeFactors(Pow(2, 54), Pow(2, 714), Pow(5, 768));
    MulMono(Pow(2, 714), Pow(5, 308), Pow(5, 767));
    MulMono(Pow(5, 767) * Pow(2, 714), Pow(5, 767) * Pow(5, 308), Pow(2, 53));
    ThreeFactors(Pow(2, 53), Pow(2, 714), Pow(5, 767));
    MulMono(Pow(2, 53), 0x3f_ffff_ffff_ffff, Pow(5, 1075));
    MulDistrib(Pow(5, 1075), 0x3f_ffff_ffff_ffff, 1);
  }

  lemma ThreeFactors(a: nat, b: nat, c: nat)
    ensures a * (c * b) == (a * b) * c
  {
    MulAssoc(a, b, c);
  }

  lemma HalfOf54()
    ensures Pow(2, 54) == 2 * Pow(2, 53)
  {
  }

  /** Half of the smallest double has 752. */
  lemma ShortestScaled()
    ensures Pow(10, 751) <= Scaled(1) < Pow(10, 752)
  {
    FewFives();
    FivesAndTwos();
    hide Pow;
    PowAdd(5, 307, 16);
    PowAdd(2, 714, 38);
    MulMono(Pow(5, 307), Pow(2, 714), Pow(5, 16));
    MulStrict(Pow(5, 16), Pow(2, 38), Pow(2, 714));
    PowAdd(5, 308, 16);
    PowAdd(2, 715, 37);
    MulMono(Pow(2, 715), Pow(5, 308), Pow(2, 37));
    MulMono(Pow(2, 37), Pow(5, 16), Pow(5, 308));
    PowMono(2, 751, 752);
    PowAdd(5, 323, 752);
    PowAdd(5, 324, 751);
    MulStrict(Pow(5, 323), Pow(2, 752), Pow(5, 752));
    MulMono(Pow(2, 751), Pow(5, 324), Pow(5, 751));
    PowMulBase(2, 5, 752);
    PowMulBase(2, 5, 751);
  }

  lemma MulStrict(a: nat, b: nat, c: nat)
    requires a < b && c > 0
    ensures a * c < b * c && c * a < c * b
  {
    MulMono(a + 1, b, c);
    MulDistrib(c, a, 1);
  }

  /** Nearest on one side of a midpoint is never nearest on the other. */
  lemma NotBoth(x: real, y: real, lo: nat, bits: nat)
    requires x < (Value(lo) + Value(lo + 1)) / 2.0 < y && Finite(lo + 1)
    ensures !(IsNearest(x, bits) && IsNearest(y, bits))
  {
    hide Value;
    ValueIncrease(lo, lo + 1);
    if bits <= lo {
      ValueMonotone(bits, lo);
      assert Abs(Value(lo + 1) - y) < Abs(Value(bits) - y);
    } else {
      ValueMonotone(lo + 1, bits);
      assert Abs(Value(lo) - x) < Abs(Value(bits) - x);
    }
  }

  /** For each of these numbers of zeros there is a text, and what is reported for it is wrong. */
  lemma Misread(z: nat) returns (s: seq<char>, bits: nat, erange: bool)
    requires 13 <= z <= 723
    ensures var l := ReadLiteral(s, 0);
            && l.digits != [] && LeadingZeros(l.digits) == z && ExponentKept(l) && WorkingExponent(l) <= 400
            && Reported(l, bits, erange) && !Settled(LiteralValue(l), bits)
  {
    hide Scaled, Text, ReadLiteral, Parted, NonZeroTail, LeadingZeros, Value, Pow;
    var odd, n, lo := if z <= 28 then 0x3f_ffff_ffff_ffff else 1, if z <= 28 then 768 else 752,
                      if z <= 28 then 0x1f_ffff_ffff_ffff else 0;
    LongestScaled();
    ShortestScaled();
    EndsInFive(odd);
    var ds := PartedDigits(Scaled(odd), n, z);
    var w := n - 1075 + z;
    TailThere(ds);
    s := LiteralText(ds, w);
    BothSmall(ds, w);
    bits, erange := ReportOf(Kept(ds), w);
    WrongSide(ds, w, odd, lo, bits);
  }

  /** The digits, with a point behind the first, and an exponent. */
  lemma LiteralText(ds: seq<char>, w: int) returns (s: seq<char>)
    requires AllDigits(ds) && ds != [] && -400 <= w <= 400
    ensures ReadLiteral(s, 0).digits == ds && ReadLiteral(s, 0).point == 1 && ReadLiteral(s, 0).exponent == w - 1
  {
    hide Text, ReadLiteral;
    var l := Layout(ds, 0, 1, |ds| - 1, true, true, w - 1);
    s := Text(l, false);
    assert s[0..] == s;
    TextReads(s, 0, l, false);
    assert Window(ds, 0, |ds|) == ds;
  }

  /** What is reported for kept digits of ordinary size. */
  lemma ReportOf(kept: seq<char>, w: int) returns (bits: nat, erange: bool)
    requires DecValue(kept, w) <= Value(0x7fef_ffff_ffff_ffff)
    ensures exists status: int :: CorrectlyRounded(DecValue(kept, w), bits, status) && (erange <==> status != 0)
  {
    hide DecValue, Value, IsNearestEven, Round;
    var k := DecValue(kept, w);
    NotNegative(kept, w);
    bits := Round(k);
    RoundIsNearest(k);
    var status := if k > 0.0 && bits == 0 then -1 else 0;
    erange := status != 0;
    assert CorrectlyRounded(k, bits, status);
  }

  lemma WrongSide(ds: seq<char>, w: int, odd: nat, lo: nat, bits: nat)
    requires AllDigits(ds) && Parted(ds, w, Scaled(odd)) && odd == 2 * lo + 1 && lo < 0x20_0000_0000_0000
    requires DecValue(ds, w) <= Value(0x7fef_ffff_ffff_ffff) && DecValue(Kept(ds), w) <= Value(0x7fef_ffff_ffff_ffff)
    requires Settled(DecValue(Kept(ds), w), bits)
    ensures !Settled(DecValue(ds, w), bits)
  {
    hide DecValue, Value, Scaled, Kept, IsNearest;
    ScaledMidpoint(odd, lo);
    var k, x := DecValue(Kept(ds), w), DecValue(ds, w);
    if k < x {
      NotBoth(k, x, lo, bits);
    } else {
      NotBoth(x, k, lo, bits);
    }
  }

  /** Both are far below the largest double. */
  lemma BothSmall(ds: seq<char>, w: int)
    requires AllDigits(ds) && NonZeroTail(ds) && 13 <= LeadingZeros(ds) < 780 && w - LeadingZeros(ds) <= 308
    ensures DecValue(ds, w) <= Value(0x7fef_ffff_ffff_ffff) && DecValue(Kept(ds), w) <= Value(0x7fef_ffff_ffff_ffff)
  {
    hide DecValue, Value, RPow, LeadingZeros, Kept, NonZeroTail, AllDigits;
    KeptLeading(ds);
    LeadingRange(ds, w);
    LeadingRange(Kept(ds), w);
    LargestMagnitude();
    RPowMono(10, w - LeadingZeros(ds), 308);
  }

  // ---- zeros, and a clamped exponent ----

  /** Zeros in front count towards the limit of 400: "0e401" is zero, and is reported as infinity. */
  lemma ZeroReadAsInfinity(bits: nat, erange: bool)
    requires Reported(ReadLiteral("0e401", 0), bits, erange)
    ensures bits == 0x7ff0_0000_0000_0000 && !Settled(LiteralValue(ReadLiteral("0e401", 0)), bits)
  {
    var s := "0e401";
    assert s[2..5] == ([] + ['4'] + ['0']) + ['1'];
    ThreeDigitValue(s[2..5], 401);
    assert ScanDigits(s, 0, false) == ['0'] && ScanPoint(s, 0, false) == 1 && ScanEnd(s, 0, false) == 1;
    assert RunEnd(s, 2) == 5 && ExponentStart(s, 1) == 2 && HasExponent(s, 1);
    hide DigitsValue;
    ZeroJudged(ReadLiteral(s, 0), bits, erange);
    NotAbove(ReadLiteral(s, 0));
  }

  /** And "0e-402", which is read as the zero it is, is reported with a range error. */
  lemma ZeroOutOfRange(bits: nat, erange: bool)
    requires Reported(ReadLiteral("0e-402", 0), bits, erange)
    ensures bits == 0 && erange && Settled(LiteralValue(ReadLiteral("0e-402", 0)), bits)
    ensures !AllRight(ReadLiteral("0e-402", 0), bits, erange)
  {
    var s := "0e-402";
    assert s[3..6] == ([] + ['4'] + ['0']) + ['2'];
    ThreeDigitValue(s[3..6], 402);
    assert ScanDigits(s, 0, false) == ['0'] && ScanPoint(s, 0, false) == 1 && ScanEnd(s, 0, false) == 1;
    assert RunEnd(s, 3) == 6 && ExponentStart(s, 1) == 3 && HasExponent(s, 1);
    hide DigitsValue;
    ZeroJudged(ReadLiteral(s, 0), bits, erange);
  }

  lemma ThreeDigitValue(t: seq<char>, n: nat)
    requires AllDigits(t) && |t| == 3 && n == 100 * DigitOf(t[0]) + 10 * DigitOf(t[1]) + DigitOf(t[2])
    ensures DigitsValue(t) == n
  {
    assert t == ([] + [t[0]] + [t[1]]) + [t[2]];
    DigitsSnoc([] + [t[0]] + [t[1]], t[2]);
    DigitsSnoc([] + [t[0]], t[1]);
    DigitsSnoc([], t[0]);
  }

  lemma ZeroJudged(l: Literal, bits: nat, erange: bool)
    requires l.digits == ['0'] && Reported(l, bits, erange)
    ensures Judged(l, bits, erange) && LeadingZeros(l.digits) == |l.digits|
  {
    hide Judged, Reported;
    assert !NonZeroTail(l.digits);
    RightIff(l, bits, erange);
  }

  lemma NotAbove(l: Literal)
    requires LeadingZeros(l.digits) == |l.digits|
    ensures !TooLarge(l)
  {
  }

  /** A one and 99999 zeros. */
  function LongPower(): (ds: seq<char>)
    ensures |ds| == 100000 && AllDigits(ds) && ds[0] == '1' && forall k :: 1 <= k < 100000 ==> ds[k] == '0'
  {
    ['1'] + seq(99999, _ => '0')
  }

  lemma LongPowerRead()
    ensures ReadLiteral(LongPower() + "e-100200", 0) == Literal(LongPower(), 100000, -100200, 100008)
  {
    hide LongPower;
    var ds, mark := LongPower(), "e-100200";
    var s := ds + mark;
    assert s[0..0 + 100000] == ds;
    ScanRun(s, 0, 100000, false);
    assert s[100000] == mark[0] && s[100001] == mark[1] && s[100002] == mark[2];
    ScanStop(s, 100000, false);
    assert s[100002..] == mark[2..] == "100" + "200";
    SixDigits();
    RunToEnd(s, 100002);
    hide DigitsValue;
    assert s[100002..100008] == s[100002..];
    assert ExponentStart(s, 100000) == 100002 && HasExponent(s, 100000);
  }

  lemma SixDigits()
    ensures DigitsValue("100" + "200") == 100200 && AllDigits("100" + "200")
  {
    assert Pow(10, 3) == 1000;
    ThreeDigitValue("100", 100);
    ThreeDigitValue("200", 200);
    hide DigitsValue;
    DigitsConcat("100", "200");
  }

  /** An exponent that is clamped, with digits enough before the point to bring the number back into
      range: this text means 10^-201, and is reported as a tenth. */
  lemma ClampedMisread(bits: nat, erange: bool)
    requires Reported(ReadLiteral(LongPower() + "e-100200", 0), bits, erange)
    ensures LiteralValue(ReadLiteral(LongPower() + "e-100200", 0)) < RPow(10, -200)
    ensures IsNearestEven(DecValue(LongPower(), 0), bits) && RPow(10, -1) <= DecValue(LongPower(), 0)
    ensures !Settled(LiteralValue(ReadLiteral(LongPower() + "e-100200", 0)), bits)
  {
    LongPowerRead();
    hide ReadLiteral, LongPower, DecValue, RPow, Value, Kept, LeadingZeros;
    var l := Literal(LongPower(), 100000, -100200, 100008);
    PowerOfTen(l.digits);
    LeadingRange(l.digits, 0);
    LeadingRange(l.digits, -200);
    KeptIsExact(l.digits, 0);
    LargestMagnitude();
    RPowMono(10, 0, 308);
    RPowMono(10, -200, 308);
    SmallestBelowTenth();
    RightIff(l, bits, erange);
    TooLargeIs(l);
  }

  lemma SmallestBelowTenth()
    ensures Value(1) / 2.0 < RPow(10, -1)
  {
    assert Mant(1) == 1 && Exp2(1) == -1074;
    assert Value(1) == RPow(2, -1074);
    assert Pow(10, 1) == 10 && Pow(2, 4) == 16;
    hide Pow, RPow, Value;
    PowMono(2, 4, 1074);
    InverseRPow(1, 1074);
    RPowPositive(2, -1074);
  }

  lemma PowerOfTen(ds: seq<char>)
    requires |ds| == 100000 && ds[0] == '1' && forall k :: 1 <= k < 100000 ==> ds[k] == '0'
    ensures LeadingZeros(ds) == 0 && !NonZeroTail(ds)
  {
  }
}
