/**
 Why a literal may be cut to 780 digits: no double and no midpoint of two doubles lies strictly
 between two neighbouring 780-digit decimals, so one non-zero digit stands for any non-zero tail.
 */
module Sticky {
  import opened Powers
  import opened Digits
  import opened Doubles
  import opened Decimals
  import opened Guess
  import opened DecToDouble

  /** A binary fraction with a short significand is not strictly between t and t + 1 units of the
      780th digit. */
  lemma BoundaryAvoids(m: nat, q: int, t: nat, e: int)
    requires m < 0x40_0000_0000_0000 && q >= -1075 && -400 <= e <= 400 && t >= Pow(10, 767)
    ensures var y, u := Times(m as real, RPow(2, q)), RPow(10, e - 780);
            y <= Times(t as real, u) || y >= Times(t as real + 1.0, u)
  {
    hide Pow, RPow, Times;
    var u := RPow(10, e - 780);
    RPowPositive(10, e - 780);
    if q >= e - 780 {
      WholeUnits(m, q, e);
      var k := m * (Pow(5, 780 - e) * Pow(2, 780 - e + q));
      if k <= t {
        TimesMono(k as real, t as real, u);
      } else {
        TimesMono(t as real + 1.0, k as real, u);
      }
    } else {
      ShortSignificand(m, q, e);
      RPowTimes(10, 767, e - 780);
      RPowNat(10, 767);
      TimesMono(Pow(10, 767) as real, t as real, u);
    }
  }

  /** Coarse enough in binary, the fraction is a whole number of decimal units. */
  lemma WholeUnits(m: nat, q: int, e: int)
    requires -400 <= e <= 400 && q >= e - 780
    ensures 0 <= m * (Pow(5, 780 - e) * Pow(2, 780 - e + q))
    ensures Times(m as real, RPow(2, q))
         == Times((m * (Pow(5, 780 - e) * Pow(2, 780 - e + q))) as real, RPow(10, e - 780))
  {
    hide Pow, RPow;
    var k, j := 780 - e, 780 - e + q;
    FiveOverTen(k);
    RPowNat(2, j);
    RPowAdd(2, j, -k);
    MulNonneg(m, Pow(5, k) * Pow(2, j));
    CastMul(m, Pow(5, k) * Pow(2, j));
    CastMul(Pow(5, k), Pow(2, j));
    ThreeReals(m as real, Pow(5, k) as real, Pow(2, j) as real, RPow(10, -k), RPow(2, -k));
  }

  lemma ThreeReals(m: real, f: real, t: real, u: real, w: real)
    requires f * u == w
    ensures m * (t * w) == (m * (f * t)) * u
  {
    RMulAssoc(m, f * t, u);
    RMulAssoc(t, f, u);
    RMulSwap(f, t, 1.0);
    assert (f * t) * u == t * (f * u);
  }

  /** Too fine in binary, the fraction is below every number of that decimal magnitude. */
  lemma ShortSignificand(m: nat, q: int, e: int)
    requires m < 0x40_0000_0000_0000 && -1075 <= q < e - 780 && e <= 400
    ensures Times(m as real, RPow(2, q)) <= RPow(10, e - 13)
  {
    hide Pow, RPow, Times;
    Pow54();
    RPowNat(2, 54);
    RPowPositive(2, q);
    RPowTimes(2, 54, q);
    TimesMono(m as real, Pow(2, 54) as real, RPow(2, q));
    RPowMono(2, 54 + q, e - 727);
    MagnitudeGap(e);
  }

  lemma Pow54()
    ensures Pow(2, 54) == 0x40_0000_0000_0000
  {
    Pow52();
    assert Pow(2, 54) == 2 * Pow(2, 53);
  }

  lemma MagnitudeGap(e: int)
    requires -294 <= e <= 400
    ensures RPow(2, e - 727) <= RPow(10, e - 13)
  {
    hide Pow, RPow;
    if e >= 13 {
      RPowMono(2, e - 727, 0);
      RPowMono(10, 0, e - 13);
      RPowZero(2);
      RPowZero(10);
    } else {
      FivesBelow(13 - e);
      InverseRPow(13 - e, 727 - e);
    }
  }

  lemma FivesBelow(j: int)
    requires 1 <= j <= 307
    ensures Pow(10, j) <= Pow(2, 714 + j)
  {
    FewFives();
    hide Pow;
    PowMono(5, j, 307);
    PowMulBase(2, 5, j);
    MulMono(Pow(5, j), Pow(2, 714), Pow(2, j));
    PowAdd(2, 714, j);
  }

  /** 5^31 is just below 2^72, and 307 is nine times 31 and 28. */
  lemma FewFives()
    ensures Pow(5, 307) <= Pow(2, 714)
  {
    SmallFives();
    hide Pow;
    PowPow(5, 31, 9);
    PowBaseMono(Pow(5, 31), Pow(2, 72), 9);
    PowPow(2, 72, 9);
    PowAdd(5, 279, 28);
    PowAdd(2, 648, 66);
    MulMono(Pow(5, 279), Pow(2, 648), Pow(5, 28));
    MulMono(Pow(5, 28), Pow(2, 66), Pow(2, 648));
  }

  lemma SmallFives()
    ensures Pow(5, 31) <= Pow(2, 72) && Pow(5, 28) <= Pow(2, 66)
  {
    SmallPowers();
    hide Pow;
    PowAdd(5, 7, 7);
    PowAdd(5, 14, 14);
    PowAdd(5, 28, 3);
    PowAdd(2, 11, 11);
    PowAdd(2, 22, 11);
    PowAdd(2, 33, 33);
    PowAdd(2, 66, 6);
  }

  lemma SmallPowers()
    ensures Pow(5, 7) == 78125 && Pow(5, 3) == 125 && Pow(2, 11) == 2048 && Pow(2, 1) == 2 && Pow(2, 6) == 64
  {
  }

  // ---- from boundaries to rounding ----

  /** Two numbers strictly inside the same decimal unit. */
  ghost predicate SameUnit(x: real, x': real, t: nat, e: int) {
    var u := RPow(10, e - 780);
    && Times(t as real, u) < x < Times(t as real + 1.0, u)
    && Times(t as real, u) < x' < Times(t as real + 1.0, u)
  }

  lemma SameSideOfDouble(x: real, x': real, t: nat, e: int, b: nat)
    requires SameUnit(x, x', t, e) && -400 <= e <= 400 && t >= Pow(10, 767) && Finite(b)
    ensures Value(b) != x && Value(b) != x' && (Value(b) < x <==> Value(b) < x')
  {
    hide Pow, RPow, Times;
    BoundaryAvoids(Mant(b), Exp2(b), t, e);
  }

  lemma SameSideOfMidpoint(x: real, x': real, t: nat, e: int, b: nat)
    requires SameUnit(x, x', t, e) && -400 <= e <= 400 && t >= Pow(10, 767) && Finite(b)
    ensures var mid := (Value(b) + Value(b + 1)) / 2.0; mid != x && mid != x' && (mid < x <==> mid < x')
  {
    hide Pow, RPow, Times, Value;
    Midpoint(b);
    BoundaryAvoids(2 * Mant(b) + 1, Exp2(b) - 1, t, e);
  }

  /** So what is correct for one of them is correct for the other. */
  lemma SameRounding(x: real, x': real, t: nat, e: int, bits: nat, status: int)
    requires SameUnit(x, x', t, e) && -400 <= e <= 400 && t >= Pow(10, 767)
    requires CorrectlyRounded(x', bits, status)
    ensures CorrectlyRounded(x, bits, status)
  {
    hide Pow, RPow, Times, Value;
    SameSideOfDouble(x, x', t, e, 0x7fef_ffff_ffff_ffff);
    UnitsPositive(x, x', t, e);
    if x <= Value(0x7fef_ffff_ffff_ffff) {
      ValueZero();
      var lo := FloorIn(x', 0, 0x7ff0_0000_0000_0000);
      FloorInBrackets(x', 0, 0x7ff0_0000_0000_0000);
      SameSideOfDouble(x, x', t, e, lo);
      assert lo < 0x7fef_ffff_ffff_ffff;
      SameSideOfDouble(x, x', t, e, lo + 1);
      SameSideOfMidpoint(x, x', t, e, lo);
      var r := if x < (Value(lo) + Value(lo + 1)) / 2.0 then lo else lo + 1;
      hide IsNearestEven;
      NearestInBracket(x, lo, r);
      NearestInBracket(x', lo, r);
      NearestUnique(x', r, bits);
    }
  }

  lemma UnitsPositive(x: real, x': real, t: nat, e: int)
    requires SameUnit(x, x', t, e)
    ensures x > 0.0 && x' > 0.0
  {
    hide RPow;
    RPowPositive(10, e - 780);
    RMulMono(0.0, t as real, RPow(10, e - 780));
  }

  /** A literal cut after 780 digits, with a one for its non-zero tail, is in the literal's own unit,
      however many zeros it begins with. */
  lemma CutInUnit(ds: seq<char>, e: int)
    requires AllDigits(ds) && |ds| > 780
    requires exists k :: 780 <= k < |ds| && ds[k] != '0'
    ensures SameUnit(DecValue(ds, e), DecValue(ds[..780] + ['1'], e), DigitsValue(ds[..780]), e)
  {
    hide Pow, RPow, DigitsValue, DecValue, Times;
    var t, tail := ds[..780], ds[780..];
    assert ds == t + tail;
    DigitsZeros(tail);
    var k :| 780 <= k < |ds| && ds[k] != '0';
    assert tail[k - 780] == ds[k];
    InUnit(t, tail, e);
    OneValue();
    InUnit(t, ['1'], e);
  }

  /** With at most twelve zeros in front, 768 digits that count are kept. */
  lemma CutKeepsEnough(ds: seq<char>)
    requires AllDigits(ds) && |ds| > 780 && LeadingZeros(ds) <= 12
    ensures DigitsValue(ds[..780]) >= Pow(10, 767)
  {
    hide Pow, DigitsValue;
    var z, t := LeadingZeros(ds), ds[..780];
    SameLeading(ds, 780);
    LeadingBounds(t);
    PowMono(10, 767, 779 - z);
  }

  lemma SameLeading(ds: seq<char>, n: nat)
    requires n <= |ds|
    ensures LeadingZeros(ds[..n]) == if LeadingZeros(ds) < n then LeadingZeros(ds) else n
  {
    var z := LeadingZeros(ds[..n]);
    assert forall k :: 0 <= k < n ==> ds[..n][k] == ds[k];
  }

  lemma OneValue()
    ensures DigitsValue(['1']) == 1 && AllDigits(['1'])
  {
    assert ['1'][..0] == [];
  }

  lemma InUnit(t: seq<char>, tail: seq<char>, e: int)
    requires |t| == 780 && DigitsValue(tail) > 0
    ensures var u := RPow(10, e - 780);
            Times(DigitsValue(t) as real, u) < DecValue(t + tail, e) < Times(DigitsValue(t) as real + 1.0, u)
  {
    hide Pow, RPow, DigitsValue, Times;
    var d, p, r := DigitsValue(t), Pow(10, |tail|), DigitsValue(tail);
    DigitsConcat(t, tail);
    DigitsBound(tail);
    RPowPositive(10, e - 780 - |tail|);
    RPowTimes(10, |tail|, e - 780 - |tail|);
    RPowNat(10, |tail|);
    MulNonneg(d, p);
    UnitSplit(d, p, r, RPow(10, e - 780 - |tail|));
    assert DecValue(t + tail, e) == Times((d * p + r) as real, RPow(10, e - 780 - |tail|));
  }

  lemma UnitSplit(d: nat, p: nat, r: nat, w: real)
    requires 0 < r < p && w > 0.0
    ensures var u := Times(p as real, w);
            Times(d as real, u) < Times((d * p + r) as real, w) < Times(d as real + 1.0, u)
  {
    CastMul(d, p);
    RMulAssoc(d as real, p as real, w);
    RMulAssoc(d as real + 1.0, p as real, w);
    RDistrib(d as real, 1.0, p as real);
    RMulStrict((d * p) as real, (d * p + r) as real, w);
    RMulStrict((d * p + r) as real, (d * p + p) as real, w);
  }
}
