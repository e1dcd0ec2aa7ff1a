/**
 Laying out a double as text for %f, %e and %g: which digits are printed, and the number they
 denote.
 */
module Emit {
  import opened Powers
  import opened Digits
  import opened Doubles
  import opened Decimals
  import opened Guess
  import DFD = DecFromDouble
  import DR = DecRound
  import opened DecRound
  import opened DecToDouble

  // ---- windows of a digit string ----

  /** One digit of the string, or a zero outside it. */
  function DigitAt(digits: seq<char>, index: int): char {
    if index < 0 || index >= |digits| then '0' else digits[index]
  }

  function Window(digits: seq<char>, first: int, len: nat): (w: seq<char>)
    ensures |w| == len
    ensures forall k :: 0 <= k < len ==> w[k] == DigitAt(digits, first + k)
  {
    seq(len, i => DigitAt(digits, first + i))
  }

  /** A window that covers all the digits spells them, shifted left by the zeros after them. */
  lemma WindowValue(digits: seq<char>, first: int, len: nat)
    requires AllDigits(digits) && first <= 0 && |digits| <= first + len
    ensures AllDigits(Window(digits, first, len))
    ensures DigitsValue(Window(digits, first, len)) == DigitsValue(digits) * Pow(10, first + len - |digits|)
  {
    var w, lead, trail: nat := Window(digits, first, len), -first, first + len - |digits|;
    var a, c := w[..lead], w[lead + |digits|..];
    assert w == (a + digits) + c;
    DigitsZeros(a);
    DigitsZeros(c);
    hide DigitsValue, Pow;
    DigitsConcat(a + digits, c);
    DigitsConcat(a, digits);
  }

  lemma ZeroWindow(first: int, len: nat)
    ensures AllDigits(Window([], first, len)) && DigitsValue(Window([], first, len)) == 0
  {
    DigitsZeros(Window([], first, len));
  }

  lemma WindowShorter(digits: seq<char>, first: int, len: nat)
    requires len > 0 && DigitAt(digits, first + len - 1) == '0'
    ensures DigitsValue(Window(digits, first, len)) == DigitsValue(Window(digits, first, len - 1)) * 10
  {
    var w := Window(digits, first, len);
    assert w[..len - 1] == Window(digits, first, len - 1);
    assert w[len - 1] == '0';
  }

  // ---- the layout ----

  datatype Kind = Fixed | Exponential | General

  /** The parts of a number that is already rounded: where its integer digits start, how many there
      are, how many fraction digits follow, whether there is a point, and the exponent written after
      them, if any. */
  datatype Layout = Layout(digits: seq<char>, first: int, intDigits: nat, frac: nat, hasPoint: bool,
                           scientific: bool, exponent: int)

  function IntText(l: Layout): seq<char> {
    Window(l.digits, l.first, l.intDigits)
  }

  function FracText(l: Layout): seq<char> {
    Window(l.digits, l.first + l.intDigits, l.frac)
  }

  lemma TextIsWindow(l: Layout)
    ensures IntText(l) + FracText(l) == Window(l.digits, l.first, l.intDigits + l.frac)
  {
  }

  /** The integer the printed digits spell, the point ignored. */
  function Printed(l: Layout): nat {
    DigitsValue(Window(l.digits, l.first, l.intDigits + l.frac))
  }

  /** The number the text denotes. */
  function Denoted(l: Layout): real {
    Times(Printed(l) as real, RPow(10, l.exponent - l.frac))
  }

  /** `m` is the nearest integer to `y`, and even when two are equally near. */
  ghost predicate RoundsHalfEven(m: nat, y: real) {
    Abs(m as real - y) <= 0.5 && (Abs(m as real - y) == 0.5 ==> m % 2 == 0)
  }

  /** The digits of a window, with the point behind its integer part, as the number they came from. */
  lemma WindowDenotes(digits: seq<char>, first: int, len: nat, frac: nat, exp10: int)
    requires AllDigits(digits) && first <= 0 && |digits| <= first + len
    ensures Times(DigitsValue(Window(digits, first, len)) as real, RPow(10, exp10 - first - len))
         == DecValue(digits, exp10)
  {
    hide DigitsValue, Pow, RPow, Times, Window;
    WindowValue(digits, first, len);
    var k := first + len - |digits|;
    RPowTimes(10, k, exp10 - first - len);
    RPowNat(10, k);
    WholeTimes(DigitsValue(digits), Pow(10, k), RPow(10, exp10 - first - len));
  }

  // ---- rounding to the place asked for ----

  /** What the digit string holds when it is laid out: the exact digits rounded to `keep`, or nothing
      when the number is too small for its first digit to matter. */
  ghost predicate RoundedTo(was: seq<char>, e: int, keep: int, now: seq<char>, e': int) {
    && AllDigits(now)
    && (keep >= |was| ==> now == was && e' == e)
    && (0 <= keep < |was| ==>
          (|now| == keep || (keep == 0 && |now| == 1 && e' == e + 1))
          && e <= e' <= e + 1
          && (|now| > 0 ==> now[0] != '0')
          && DecValue(now, e')
             == Times(HalfEven(DigitsValue(was), Pow(10, |was| - keep)) as real, RPow(10, e - keep)))
    && (keep < 0 ==> now == [])
  }

  /** Rounded to `keep` digits, a number is an integer of units of that place, the nearest one. */
  lemma RoundedIsNearest(was: seq<char>, e: int, keep: nat, now: seq<char>, e': int, m: nat)
    requires AllDigits(was) && RoundedTo(was, e, keep, now, e')
    requires Times(m as real, RPow(10, e - keep)) == DecValue(now, e')
    ensures RoundsHalfEven(m, Times(DecValue(was, e), RPow(10, keep - e)))
  {
    hide DigitsValue, Pow, RPow, Times, HalfEven;
    var y, u := Times(DecValue(was, e), RPow(10, keep - e)), RPow(10, e - keep);
    RPowPositive(10, e - keep);
    RPowTimes(10, keep - e, e - keep);
    RPowZero(10);
    if keep >= |was| {
      Unscale(m as real, DecValue(was, e), RPow(10, keep - e), u);
    } else {
      var d, den := DigitsValue(was), Pow(10, |was| - keep);
      Unscale2(m as real, HalfEven(d, den) as real, u);
      assert m == HalfEven(d, den);
      RPowTimes(10, e - |was|, keep - e);
      ScaledBack(was, e, keep);
      NearestInteger(d, den, RPow(10, keep - |was|));
    }
  }

  lemma Unscale(m: real, v: real, s: real, u: real)
    requires Times(s, u) == 1.0 && Times(m, u) == v && u > 0.0
    ensures Times(v, s) == m
  {
    RMulAssoc(m, u, s);
    assert u * s == 1.0;
  }

  lemma Unscale2(a: real, b: real, u: real)
    requires u > 0.0 && Times(a, u) == Times(b, u)
    ensures a == b
  {
    ScaleCompare(a, b, u);
  }

  lemma ScaledBack(was: seq<char>, e: int, keep: nat)
    requires keep <= |was|
    ensures Times(DecValue(was, e), RPow(10, keep - e)) == Times(DigitsValue(was) as real, RPow(10, keep - |was|))
    ensures Times(RPow(10, keep - |was|), Pow(10, |was| - keep) as real) == 1.0
  {
    hide DigitsValue, RPow, Pow;
    RPowTimes(10, e - |was|, keep - e);
    RMulAssoc(DigitsValue(was) as real, RPow(10, e - |was|), RPow(10, keep - e));
    RPowTimes(10, keep - |was|, |was| - keep);
    RPowNat(10, |was| - keep);
    RPowZero(10);
  }

  lemma NearestInteger(d: nat, den: nat, s: real)
    requires den > 0 && Times(s, den as real) == 1.0
    ensures RoundsHalfEven(HalfEven(d, den), Times(d as real, s))
  {
    var m := HalfEven(d, den);
    HalfEvenIsNearest(d, den, m);
    TieIsEven(d, den);
    hide HalfEven, Times;
    DistanceCast(m * den, d);
    CastTimes(m, den);
    DivideThrough(m as real, d as real, den as real, s);
  }

  lemma DistanceCast(a: int, b: int)
    ensures Abs(a as real - b as real) == Distance(a, b) as real
  {
  }

  lemma TieIsEven(d: nat, den: nat)
    requires den > 0
    ensures 2 * Distance(HalfEven(d, den) * den, d) == den ==> HalfEven(d, den) % 2 == 0
  {
    var q, r := d / den, d % den;
    assert d == q * den + r;
    MulDistrib(den, q, 1);
  }

  lemma DivideThrough(m: real, d: real, den: real, s: real)
    requires den > 0.0 && Times(s, den) == 1.0
    ensures Abs(m - Times(d, s)) <= 0.5 <==> 2.0 * Abs(Times(m, den) - d) <= den
    ensures Abs(m - Times(d, s)) == 0.5 <==> 2.0 * Abs(Times(m, den) - d) == den
  {
    var y := Times(d, s);
    RMulAssoc(d, s, den);
    assert y * den == d;
    RDistrib(m, y, den);
    Halves(m - y, Times(m, den) - d, den);
  }

  lemma Halves(z: real, w: real, den: real)
    requires den > 0.0 && z * den == w
    ensures Abs(z) <= 0.5 <==> 2.0 * Abs(w) <= den
    ensures Abs(z) == 0.5 <==> 2.0 * Abs(w) == den
  {
    ScaleCompare(z, 0.5, den);
    ScaleCompare(-z, 0.5, den);
    RDistrib(z, 0.0, den);
    assert (-z) * den == -w;
  }

  // ---- choosing the layout ----

  /** Rounded digits with one digit before the point. */
  method LayExponential(digits: array<char>, nd: nat, exp10: int, prec: nat) returns (l: Layout, ghost e: int)
    requires nd <= digits.Length && AllDigits(digits[..nd]) && (nd > 0 ==> digits[0] != '0')
    modifies digits
    ensures RoundedTo(old(digits[..nd]), exp10, prec + 1, l.digits, e) && AllDigits(l.digits)
    ensures l == Layout(l.digits, 0, 1, prec, l.hasPoint, true, if l.digits == [] then 0 else e - 1)
    ensures exp10 <= e <= exp10 + 1
  {
    hide DecValue, HalfEven, Pow, RPow, Times, DigitsValue;
    var n, x := nd, exp10;
    if n > 0 {
      n, x := DR.DecRound(digits, n, prec + 1, x);
    }
    e := x;
    l := Layout(digits[..n], 0, 1, prec, false, true, if n == 0 then 0 else x - 1);
  }

  /** Rounded digits with as many before the point as the exponent says. */
  method LayFixed(digits: array<char>, nd: nat, exp10: int, prec: nat) returns (l: Layout, ghost e: int)
    requires nd <= digits.Length && AllDigits(digits[..nd]) && (nd > 0 ==> digits[0] != '0')
    requires nd == 0 ==> exp10 == 0
    modifies digits
    ensures RoundedTo(old(digits[..nd]), exp10, exp10 + prec, l.digits, e) && AllDigits(l.digits)
    ensures exp10 + prec < 0 ==> e == 0
    ensures var i := if e > 0 then e else 1; l == Layout(l.digits, e - i, i, prec, l.hasPoint, false, 0)
  {
    hide DecValue, HalfEven, Pow, RPow, Times, DigitsValue;
    var n, x := nd, exp10;
    if n > 0 {
      if x + prec < 0 {
        n, x := 0, 0;
      } else {
        n, x := DR.DecRound(digits, n, x + prec, x);
      }
    }
    e := x;
    var i := if x > 0 then x else 1;
    l := Layout(digits[..n], x - i, i, prec, false, false, 0);
  }

  /** The digits laid out are all printed, and denote the rounded number. */
  lemma LaidOutDenotes(was: seq<char>, exp10: int, l: Layout, e: int, keep: int)
    requires AllDigits(was) && RoundedTo(was, exp10, keep, l.digits, e) && keep >= 0
    requires l.scientific ==> keep == l.frac + 1 && l.first == 0 && l.intDigits == 1
                              && l.exponent == if l.digits == [] then 0 else e - 1
    requires !l.scientific ==> keep == exp10 + l.frac && l.exponent == 0
                               && l.intDigits == (if e > 0 then e else 1) && l.first == e - l.intDigits
    ensures |l.digits| <= l.first + l.intDigits + l.frac
    ensures Denoted(l) == DecValue(l.digits, e)
  {
    hide DecValue, HalfEven, Pow, RPow, Times, DigitsValue, Window;
    if l.digits == [] {
      NothingDenotes(l, e);
    } else {
      WindowDenotes(l.digits, l.first, l.intDigits + l.frac, l.frac, e);
    }
  }

  lemma EmptyValue(e: int)
    ensures DecValue([], e) == 0.0
  {
    hide RPow;
  }

  lemma NothingDenotes(l: Layout, e: int)
    requires l.digits == []
    ensures Printed(l) == 0 && Denoted(l) == 0.0 && DecValue([], e) == 0.0
  {
    ZeroWindow(l.first, l.intDigits + l.frac);
    hide RPow, Window;
  }

  /** The decimal magnitude of a positive number. */
  ghost predicate Magnitude(v: real, e: int) {
    RPow(10, e - 1) <= v < RPow(10, e)
  }

  /** `x` is the integer `m` at the place of the last of `sig` digits of `v`, and `m` is nearest. */
  ghost predicate RoundedAt(v: real, sig: nat, x: real, e: int, m: nat) {
    && Magnitude(v, e)
    && RoundsHalfEven(m, Times(v, RPow(10, sig - e)))
    && x == Times(m as real, RPow(10, e - sig))
  }

  /** `x` is `v` rounded to `sig` significant digits, ties to the even last digit. */
  ghost predicate SignificantlyRounded(v: real, sig: nat, x: real) {
    exists e: int, m: nat :: RoundedAt(v, sig, x, e, m)
  }

  lemma RoundedSignificantly(was: seq<char>, e: int, sig: nat, now: seq<char>, e': int)
    requires AllDigits(was) && was != [] && was[0] != '0' && RoundedTo(was, e, sig, now, e') && sig > 0
    ensures SignificantlyRounded(DecValue(was, e), sig, DecValue(now, e'))
  {
    hide HalfEven, Pow, RPow, Times, DigitsValue, RoundsHalfEven;
    DecValueRange(was, e);
    var m: nat;
    if sig >= |was| {
      m := DigitsValue(was) * Pow(10, sig - |was|);
      MulNonneg(DigitsValue(was), Pow(10, sig - |was|));
      RPowTimes(10, sig - |was|, e - sig);
      RPowNat(10, sig - |was|);
      WholeTimes(DigitsValue(was), Pow(10, sig - |was|), RPow(10, e - sig));
    } else {
      m := HalfEven(DigitsValue(was), Pow(10, |was| - sig));
    }
    assert DecValue(now, e') == Times(m as real, RPow(10, e - sig));
    hide DecValue;
    RoundedIsNearest(was, e, sig, now, e', m);
    assert RoundedAt(DecValue(was, e), sig, DecValue(now, e'), e, m);
  }

  /** What %f, %e and %g promise of the text for the number `v`, of which `prec` is the precision. */
  ghost predicate FixedRight(v: real, prec: nat, l: Layout) {
    && !l.scientific && l.exponent == 0 && l.frac == prec && l.intDigits >= 1
    && RoundsHalfEven(Printed(l), Times(v, RPow(10, prec)))
  }

  ghost predicate ExponentialRight(v: real, prec: nat, l: Layout) {
    && l.scientific && l.intDigits == 1 && l.frac == prec
    && (v == 0.0 ==> Printed(l) == 0 && l.exponent == 0)
    && (v > 0.0 ==> IntText(l)[0] != '0' && SignificantlyRounded(v, prec + 1, Denoted(l)))
  }

  /** %g uses the exponent form outside 10^-4 to 10^sig, judged on the rounded number. */
  ghost predicate StyleRight(sig: nat, l: Layout, x: int) {
    && Magnitude(Denoted(l), x + 1)
    && (l.scientific <==> x < -4 || x >= sig)
    && (l.scientific ==> l.exponent == x)
  }

  ghost predicate GeneralRight(v: real, sig: nat, alt: bool, l: Layout) {
    && (v == 0.0 ==> Printed(l) == 0 && !l.scientific)
    && (v > 0.0 ==> SignificantlyRounded(v, sig, Denoted(l)) && exists x: int :: StyleRight(sig, l, x))
    && (l.scientific ==> l.intDigits == 1)
    && (!alt && l.frac > 0 ==> FracText(l)[l.frac - 1] != '0')
  }

  /** The digits start out exact; zero has none. */
  ghost predicate ExactDigits(bits: nat, was: seq<char>, e: int) {
    && AllDigits(was)
    && (bits == 0 ==> was == [] && e == 0)
    && (bits != 0 ==> was != [] && was[0] != '0' && DecValue(was, e) == Value(bits))
  }

  lemma ExactZero()
    ensures DecValue([], 0) == 0.0 == Value(0)
  {
    hide RPow, Value;
    EmptyValue(0);
    ValueZero();
  }

  lemma FixedIsRight(bits: nat, was: seq<char>, e0: int, prec: nat, l: Layout, e: int)
    requires ExactDigits(bits, was, e0) && RoundedTo(was, e0, e0 + prec, l.digits, e)
    requires e0 + prec < 0 ==> e == 0
    requires var i := if e > 0 then e else 1; l == Layout(l.digits, e - i, i, prec, l.hasPoint, false, 0)
    ensures FixedRight(Value(bits), prec, l)
  {
    hide DecValue, HalfEven, Pow, RPow, Times, DigitsValue, Value, Window, RoundsHalfEven;
    ExactZero();
    if e0 + prec >= 0 {
      LaidOutDenotes(was, e0, l, e, e0 + prec);
      RoundedIsNearest(was, e0, e0 + prec, l.digits, e, Printed(l));
    } else {
      NothingDenotes(l, e);
      DecValueRange(was, e0);
      TooSmallToPrint(Value(bits), e0, prec);
    }
  }

  lemma TooSmallToPrint(v: real, e: int, prec: nat)
    requires 0.0 <= v < RPow(10, e) && e + prec < 0
    ensures RoundsHalfEven(0, Times(v, RPow(10, prec)))
  {
    hide RPow, Times;
    RPowPositive(10, prec);
    RPowTimes(10, e, prec);
    TimesMono(0.0, v, RPow(10, prec));
    TimesMono(v, RPow(10, e), RPow(10, prec));
    RPowMono(10, e + prec, -1);
    RPowStep(10, -1);
    RPowZero(10);
    TimesZero(RPow(10, prec));
  }

  lemma TimesZero(c: real)
    ensures Times(0.0, c) == 0.0
  {
  }

  lemma ExponentialIsRight(bits: nat, was: seq<char>, e0: int, prec: nat, l: Layout, e: int)
    requires ExactDigits(bits, was, e0) && RoundedTo(was, e0, prec + 1, l.digits, e)
    requires l == Layout(l.digits, 0, 1, prec, l.hasPoint, true, if l.digits == [] then 0 else e - 1)
    ensures ExponentialRight(Value(bits), prec, l)
  {
    hide DecValue, HalfEven, Pow, RPow, Times, DigitsValue, Value, SignificantlyRounded;
    ExactZero();
    if bits == 0 {
      NothingDenotes(l, e);
    } else {
      ValueIncrease(0, bits);
      LaidOutDenotes(was, e0, l, e, prec + 1);
      RoundedSignificantly(was, e0, prec + 1, l.digits, e);
    }
  }

  lemma GeneralIsRight(bits: nat, was: seq<char>, e0: int, sig: nat, now: seq<char>, e1: int, l: Layout, e: int)
    requires ExactDigits(bits, was, e0) && sig > 0 && RoundedTo(was, e0, sig, now, e1)
    requires var x := if now == [] then 0 else e1 - 1;
             if x < -4 || x >= sig then
               && RoundedTo(now, e1, sig, l.digits, e)
               && l == Layout(l.digits, 0, 1, sig - 1, l.hasPoint, true, if l.digits == [] then 0 else e - 1)
             else
               && RoundedTo(now, e1, e1 + (sig - 1 - x), l.digits, e)
               && var i := if e > 0 then e else 1;
                  l == Layout(l.digits, e - i, i, sig - 1 - x, l.hasPoint, false, 0)
    ensures GeneralRight(Value(bits), sig, true, l) && AllDigits(l.digits)
  {
    hide DecValue, HalfEven, Pow, RPow, Times, DigitsValue, Value, Window, SignificantlyRounded, Denoted, Printed;
    ExactZero();
    assert now == l.digits && e == e1;
    if bits == 0 {
      NothingDenotes(l, e);
    } else {
      ValueIncrease(0, bits);
      LaidOutDenotes(now, e1, l, e, sig);
      RoundedSignificantly(was, e0, sig, now, e1);
      DecValueRange(now, e1);
      assert StyleRight(sig, l, e1 - 1);
    }
  }

  lemma WindowDigits(digits: seq<char>, first: int, len: nat)
    requires AllDigits(digits)
    ensures AllDigits(Window(digits, first, len))
  {
  }

  /** The text a kind of conversion promises for the number `v`. */
  ghost predicate Right(kind: Kind, v: real, p: nat, alt: bool, l: Layout) {
    match kind
    case Fixed => FixedRight(v, p, l)
    case Exponential => ExponentialRight(v, p, l)
    case General => GeneralRight(v, if p == 0 then 1 else p, alt, l)
  }

  /** The layout of a finite double. A negative precision stands for the default of six, and a zero
      precision of %g for one. */
  method LayOut(bits: nat, kind: Kind, precision: int, alt: bool) returns (l: Layout)
    requires Finite(bits)
    ensures Right(kind, Value(bits), if precision < 0 then 6 else precision, alt, l)
    ensures l.hasPoint <==> l.frac > 0 || alt
    ensures l.intDigits >= 1 && AllDigits(l.digits)
    ensures if l.scientific then -401 <= l.exponent < 400 else l.exponent == 0
    ensures kind == General ==>
              l.intDigits + l.frac <= (if precision < 0 then 6 else if precision == 0 then 1 else precision) + 4
  {
    hide Value, FixedRight, ExponentialRight, GeneralRight, RoundedTo, ExactDigits, Right;
    var prec: nat := if precision < 0 then 6 else precision;
    var digits := new char[DFD.DEC_DIGITS + 2];
    var nd, exp10 := Exact(bits, digits);
    ghost var was, e0 := digits[..nd], exp10;
    ghost var e: int;
    match kind {
      case Fixed =>
        l, e := LayFixed(digits, nd, exp10, prec);
        FixedIsRight(bits, was, e0, prec, l, e);
        RightFixed(Value(bits), prec, alt, l);
      case Exponential =>
        l, e := LayExponential(digits, nd, exp10, prec);
        ExponentialIsRight(bits, was, e0, prec, l, e);
        RightExponential(Value(bits), prec, alt, l);
      case General =>
        l := LayGeneral(bits, digits, nd, exp10, if prec == 0 then 1 else prec, alt);
        RightGeneral(Value(bits), prec, alt, l);
    }
    PointIrrelevant(kind, Value(bits), prec, alt, l, l.frac > 0 || alt);
    l := l.(hasPoint := l.frac > 0 || alt);
  }

  /** The digits a layout starts from. */
  method Exact(bits: nat, digits: array<char>) returns (nd: nat, exp10: int)
    requires Finite(bits) && digits.Length >= 802
    modifies digits
    ensures nd <= 802 && ExactDigits(bits, digits[..nd], exp10)
    ensures AllDigits(digits[..nd]) && (nd > 0 ==> digits[0] != '0') && (nd == 0 ==> exp10 == 0)
    ensures -400 <= exp10 <= 380
  {
    hide DecValue, Value;
    nd, exp10 := 0, 0;
    if bits != 0 {
      nd, exp10 := DFD.DecFromDouble(bits, digits);
      MagnitudeBounded(bits, digits[..nd], exp10);
    }
  }

  /** The decimal magnitude of a double is nowhere near 400. */
  lemma MagnitudeBounded(bits: nat, was: seq<char>, e: int)
    requires 0 < bits && Finite(bits) && was != [] && AllDigits(was) && was[0] != '0' && DecValue(was, e) == Value(bits)
    ensures -400 <= e <= 380
  {
    hide DecValue, Value, RPow, Pow;
    DecValueRange(was, e);
    ValueMonotone(bits, 0x7fef_ffff_ffff_ffff);
    if e > 380 {
      LargestBelow(1140);
      RPowNat(2, 1140);
      TenAboveEight(380);
      RPowNat(10, 380);
      RPowMono(10, 380, e - 1);
    } else if e < -400 {
      ValueZero();
      ValueIncrease(0, 1);
      ValueMonotone(1, bits);
      SmallestAbove(-e);
    }
  }

  /** Round to `sig` digits, then pick the form by the magnitude of what results. */
  method LayGeneral(bits: nat, digits: array<char>, nd0: nat, exp0: int, sig: nat, alt: bool) returns (l: Layout)
    requires Finite(bits) && nd0 <= digits.Length && sig > 0 && ExactDigits(bits, digits[..nd0], exp0)
    requires AllDigits(digits[..nd0]) && (nd0 > 0 ==> digits[0] != '0') && (nd0 == 0 ==> exp0 == 0)
    modifies digits
    ensures GeneralRight(Value(bits), sig, alt, l) && l.intDigits >= 1 && AllDigits(l.digits)
    ensures if l.scientific then exp0 - 1 <= l.exponent <= exp0 + 2 || l.exponent == 0 else l.exponent == 0
    ensures l.intDigits + l.frac <= sig + 4
  {
    hide Value, DecValue, GeneralRight, ExactDigits, HalfEven, Pow, RPow, Times, DigitsValue;
    var nd, exp10 := nd0, exp0;
    ghost var was := digits[..nd];
    if nd > 0 {
      nd, exp10 := DR.DecRound(digits, nd, sig, exp10);
    }
    ghost var now, e1 := digits[..nd], exp10;
    assert RoundedTo(was, exp0, sig, now, e1);
    hide RoundedTo;
    ghost var e: int;
    var x := if nd == 0 then 0 else exp10 - 1;
    if x < -4 || x >= sig {
      l, e := LayExponential(digits, nd, exp10, sig - 1);
    } else {
      l, e := LayFixed(digits, nd, exp10, sig - 1 - x);
    }
    GeneralIsRight(bits, was, exp0, sig, now, e1, l, e);
    if !alt {
      ghost var l0 := l;
      l := StripZeros(l);
      StrippedIsRight(Value(bits), sig, l0, l);
    }
  }

  lemma RightFixed(v: real, p: nat, alt: bool, l: Layout)
    requires FixedRight(v, p, l)
    ensures Right(Fixed, v, p, alt, l)
  {
  }

  lemma RightExponential(v: real, p: nat, alt: bool, l: Layout)
    requires ExponentialRight(v, p, l)
    ensures Right(Exponential, v, p, alt, l)
  {
  }

  lemma RightGeneral(v: real, p: nat, alt: bool, l: Layout)
    requires GeneralRight(v, if p == 0 then 1 else p, alt, l)
    ensures Right(General, v, p, alt, l)
  {
  }

  /** Stripping keeps what is promised. */
  lemma StrippedIsRight(v: real, sig: nat, l0: Layout, l: Layout)
    requires GeneralRight(v, sig, true, l0)
    requires l == l0.(frac := l.frac) && Denoted(l) == Denoted(l0) && (Printed(l0) == 0 ==> Printed(l) == 0)
    requires l.frac > 0 ==> FracText(l)[l.frac - 1] != '0'
    ensures GeneralRight(v, sig, false, l)
  {
    hide RPow, Window, SignificantlyRounded, Denoted, Printed;
    if v > 0.0 {
      var x: int :| StyleRight(sig, l0, x);
      assert StyleRight(sig, l, x);
    }
  }

  lemma PointIrrelevant(kind: Kind, v: real, p: nat, alt: bool, l: Layout, b: bool)
    requires Right(kind, v, p, alt, l)
    ensures Right(kind, v, p, alt, l.(hasPoint := b))
  {
    hide RPow, Window, SignificantlyRounded, DigitsValue, Times, RoundsHalfEven;
    if kind == General && v > 0.0 {
      var sig := if p == 0 then 1 else p;
      var x: int :| StyleRight(sig, l, x);
      assert StyleRight(sig, l.(hasPoint := b), x);
    }
  }

  /** Drop the zeros at the end of the fraction. */
  method StripZeros(l0: Layout) returns (l: Layout)
    ensures l == l0.(frac := l.frac) && l.frac <= l0.frac
    ensures l.frac > 0 ==> FracText(l)[l.frac - 1] != '0'
    ensures Denoted(l) == Denoted(l0) && (Printed(l0) == 0 ==> Printed(l) == 0)
  {
    hide RPow, Times, DigitsValue, Denoted, Printed;
    l := l0;
    while l.frac > 0 && DigitAt(l.digits, l.first + l.intDigits + l.frac - 1) == '0'
      invariant l == l0.(frac := l.frac) && l.frac <= l0.frac
      invariant Denoted(l) == Denoted(l0) && (Printed(l0) == 0 ==> Printed(l) == 0)
      decreases l.frac
    {
      StripOne(l);
      l := l.(frac := l.frac - 1);
    }
  }

  lemma StripOne(l: Layout)
    requires l.frac > 0 && DigitAt(l.digits, l.first + l.intDigits + l.frac - 1) == '0'
    ensures Denoted(l.(frac := l.frac - 1)) == Denoted(l)
    ensures Printed(l) == 0 ==> Printed(l.(frac := l.frac - 1)) == 0
  {
    hide RPow, DigitsValue, Window;
    WindowShorter(l.digits, l.first, l.intDigits + l.frac);
    RPowStep(10, l.exponent - l.frac);
    var d := DigitsValue(Window(l.digits, l.first, l.intDigits + l.frac - 1));
    RMulSwap(d as real, 10.0, RPow(10, l.exponent - l.frac));
    assert Printed(l) as real == d as real * 10.0;
  }
}
