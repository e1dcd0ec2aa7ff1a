/**
 The text printf produces for a double, written through a sink of limited room, and what strtod makes
 of that text.
 */
module FloatText {
  import opened Digits
  import opened Doubles
  import opened Decimals
  import opened Guess
  import opened DecToDouble
  import opened Emit
  import opened Strtod
  import RT = RoundTrip

  // ---- the sink ----

  /** Where formatted characters go: a buffer that may be too short, or the console through a stage of
      128 characters. `text` is everything produced so far. */
  class Sink {
    const buf: array<char>
    const toConsole: bool
    const stage: array<char>
    var total: nat
    var staged: nat
    var console: seq<char>
    ghost var text: seq<char>

    ghost predicate Valid()
      reads this, buf, stage
    {
      && buf != stage && stage.Length == 128 && total == |text|
      && (if toConsole then staged < 128 && console + stage[..staged] == text
          else forall k :: 0 <= k < |text| && k + 1 < buf.Length ==> buf[k] == text[k])
    }

    constructor (b: array<char>, c: bool)
      ensures Valid() && text == [] && buf == b && toConsole == c && fresh(stage) && console == []
    {
      buf, toConsole := b, c;
      stage := new char[128];
      total, staged, console, text := 0, 0, [], [];
    }

    method Flush()
      requires stage.Length == 128 && staged <= 128
      modifies this`staged, this`console
      ensures staged == 0 && console == old(console + stage[..staged])
    {
      if staged > 0 {
        console := console + stage[..staged];
        staged := 0;
      }
    }

    method Put(c: char)
      requires Valid()
      modifies this, buf, stage
      ensures Valid() && text == old(text) + [c]
    {
      if toConsole {
        stage[staged] := c;
        staged := staged + 1;
        assert stage[..staged] == old(stage[..staged]) + [c];
        if staged == 128 {
          Flush();
        }
      } else if total + 1 < buf.Length {
        buf[total] := c;
      }
      total := total + 1;
      text := text + [c];
    }

    method Pad(c: char, n: int)
      requires Valid()
      modifies this, buf, stage
      ensures Valid() && text == old(text) + Repeat(c, n)
    {
      var k := n;
      while k > 0
        invariant Valid() && k <= n
        invariant text == old(text) + Repeat(c, if k > 0 then n - k else n)
      {
        Put(c);
        k := k - 1;
      }
    }

    method Write(s: seq<char>)
      requires Valid()
      modifies this, buf, stage
      ensures Valid() && text == old(text) + s
    {
      var k := 0;
      while k < |s|
        invariant Valid() && k <= |s| && text == old(text) + s[..k]
      {
        Put(s[k]);
        k := k + 1;
      }
    }

    /** A buffer ends up holding what fits and a terminator; the console has everything. */
    method Finish()
      requires Valid()
      modifies this`staged, this`console, buf
      ensures toConsole ==> console == text
      ensures !toConsole && buf.Length > 0 ==>
                var n := if |text| < buf.Length then |text| else buf.Length - 1;
                buf[..n] == text[..n] && buf[n] == 0 as char
    {
      if toConsole {
        Flush();
      } else if buf.Length > 0 {
        var at := if total < buf.Length - 1 then total else buf.Length - 1;
        buf[at] := 0 as char;
      }
    }
  }

  function Repeat(c: char, n: int): (r: seq<char>)
    ensures |r| == if n > 0 then n else 0
  {
    seq(if n > 0 then n else 0, k => c)
  }

  // ---- the text ----

  datatype Spec = Spec(left: bool, zero: bool, plus: bool, space: bool, alt: bool, width: int, prec: int)

  function SignText(sp: Spec, negative: bool): seq<char> {
    if negative then ['-'] else if sp.plus then ['+'] else if sp.space then [' '] else []
  }

  /** A sign and a body in a field: blanks before or after, or zeros between the two. */
  function Field(sp: Spec, sign: seq<char>, body: seq<char>): (f: seq<char>)
    ensures |f| == if sp.width > |sign| + |body| then sp.width else |sign| + |body|
  {
    var pad := sp.width - |body| - |sign|;
    if sp.left then sign + body + Repeat(' ', pad)
    else if sp.zero then sign + Repeat('0', pad) + body
    else Repeat(' ', pad) + sign + body
  }

  /** An exponent has a sign and at least two digits. */
  function ExponentText(e: int, upper: bool): (t: seq<char>)
    requires -1000 < e < 1000
  {
    var mag := if e < 0 then -e else e;
    [if upper then 'E' else 'e', if e < 0 then '-' else '+']
    + ExponentDigits(mag)
  }

  function ExponentDigits(mag: nat): (t: seq<char>)
    requires mag < 1000
    ensures AllDigits(t) && |t| >= 2
  {
    (if mag >= 100 then [CharOf(mag / 100)] else []) + [CharOf(mag % 100 / 10), CharOf(mag % 10)]
  }

  lemma ExponentDigitsValue(mag: nat)
    requires mag < 1000
    ensures DigitsValue(ExponentDigits(mag)) == mag
  {
    var h, t, u := mag / 100, mag % 100 / 10, mag % 10;
    assert mag == (h * 10 + t) * 10 + u;
    if h > 0 {
      ThreeDigits(h, t, u);
      assert ExponentDigits(mag) == [CharOf(h), CharOf(t), CharOf(u)];
    } else {
      ThreeDigits(0, t, u);
      DigitsLeadingZero([CharOf(0), CharOf(t), CharOf(u)]);
      assert ExponentDigits(mag) == [CharOf(0), CharOf(t), CharOf(u)][1..];
    }
  }

  lemma ThreeDigits(h: nat, t: nat, u: nat)
    requires h <= 9 && t <= 9 && u <= 9
    ensures DigitsValue([CharOf(h), CharOf(t), CharOf(u)]) == (h * 10 + t) * 10 + u
  {
    DigitsSnoc([], CharOf(h));
    DigitsSnoc([CharOf(h)], CharOf(t));
    DigitsSnoc([CharOf(h), CharOf(t)], CharOf(u));
    assert [] + [CharOf(h)] == [CharOf(h)] && [CharOf(h)] + [CharOf(t)] == [CharOf(h), CharOf(t)];
    assert [CharOf(h), CharOf(t)] + [CharOf(u)] == [CharOf(h), CharOf(t), CharOf(u)];
  }

  predicate WellLaid(l: Layout) {
    && l.intDigits >= 1 && AllDigits(l.digits) && (l.frac > 0 ==> l.hasPoint)
    && (l.scientific ==> -401 <= l.exponent < 400) && (!l.scientific ==> l.exponent == 0)
  }

  function SuffixText(l: Layout, upper: bool): seq<char>
    requires WellLaid(l)
  {
    if l.scientific then ExponentText(l.exponent, upper) else []
  }

  function PointText(l: Layout): seq<char> {
    if l.hasPoint then ['.'] else []
  }

  function Text(l: Layout, upper: bool): (t: seq<char>)
    requires WellLaid(l)
  {
    IntText(l) + PointText(l) + FracText(l) + SuffixText(l, upper)
  }

  // ---- writing it ----

  method ExponentSuffix(e: int, upper: bool) returns (out: seq<char>)
    requires -1000 < e < 1000
    ensures out == ExponentText(e, upper)
  {
    hide CharOf;
    var mag := if e < 0 then -e else e;
    out := [if upper then 'E' else 'e'];
    out := out + [if e < 0 then '-' else '+'];
    if mag >= 100 {
      out := out + [CharOf(mag / 100)];
      mag := mag % 100;
    }
    out := out + [CharOf(mag / 10)];
    out := out + [CharOf(mag % 10)];
  }

  /** Write a laid-out number into its field. */
  method EmitDecimal(s: Sink, sp: Spec, sign: seq<char>, l: Layout, suffix: seq<char>)
    requires s.Valid() && |sign| <= 1
    modifies s, s.buf, s.stage
    ensures s.Valid()
    ensures s.text == old(s.text) + Field(sp, sign, IntText(l) + PointText(l) + FracText(l) + suffix)
  {
    ghost var text := IntText(l) + PointText(l) + FracText(l) + suffix;
    var body := l.intDigits + (if l.hasPoint then 1 else 0) + l.frac + |suffix|;
    assert body == |text|;
    hide Window, Repeat, Field, IntText, FracText, PointText;
    var pad := sp.width - body - |sign|;
    var zeros := 0;
    if sp.zero && !sp.left && pad > 0 {
      zeros := pad;
      pad := 0;
    }
    InField(sp, sign, text, s.text, pad, zeros);
    if !sp.left {
      s.Pad(' ', pad);
    }
    s.Write(sign);
    s.Pad('0', zeros);
    EmitBody(s, l, suffix);
    if sp.left {
      s.Pad(' ', pad);
    }
  }

  /** The order in which a field is written. */
  lemma InField(sp: Spec, sign: seq<char>, body: seq<char>, before: seq<char>, pad: int, zeros: int)
    requires var p := sp.width - |body| - |sign|;
             if sp.zero && !sp.left && p > 0 then pad == 0 && zeros == p else pad == p && zeros == 0
    ensures before + Field(sp, sign, body)
         == if sp.left then before + sign + Repeat('0', zeros) + body + Repeat(' ', pad)
            else before + Repeat(' ', pad) + sign + Repeat('0', zeros) + body
  {
    assert Repeat('0', 0) == [] == Repeat(' ', 0);
  }

  method EmitBody(s: Sink, l: Layout, suffix: seq<char>)
    requires s.Valid()
    modifies s, s.buf, s.stage
    ensures s.Valid()
    ensures s.text == old(s.text) + (IntText(l) + PointText(l) + FracText(l) + suffix)
  {
    hide Window;
    EmitDigits(s, l, l.first, l.intDigits);
    if l.hasPoint {
      s.Put('.');
    }
    EmitDigits(s, l, l.first + l.intDigits, l.frac);
    s.Write(suffix);
  }

  method EmitDigits(s: Sink, l: Layout, first: int, n: nat)
    requires s.Valid()
    modifies s, s.buf, s.stage
    ensures s.Valid() && s.text == old(s.text) + Window(l.digits, first, n)
  {
    var i := 0;
    while i < n
      invariant i <= n && s.Valid() && s.text == old(s.text) + Window(l.digits, first, i)
    {
      s.Put(DigitAt(l.digits, first + i));
      i := i + 1;
      assert Window(l.digits, first, i) == Window(l.digits, first, i - 1) + [DigitAt(l.digits, first + i - 1)];
    }
  }

  function Word(bits: nat, upper: bool): seq<char> {
    if bits > 0x7ff0_0000_0000_0000 then (if upper then "NAN" else "nan")
    else (if upper then "INF" else "inf")
  }

  /** %f, %e and %g of any double. */
  method EmitFloat(s: Sink, v: Double, kind: Kind, upper: bool, sp: Spec) returns (ghost l: Layout)
    requires s.Valid()
    modifies s, s.buf, s.stage
    ensures s.Valid()
    ensures !Finite(v.bits) ==>
              s.text == old(s.text) + Field(sp.(zero := false), SignText(sp, v.negative), Word(v.bits, upper))
    ensures Finite(v.bits) ==>
              && WellLaid(l) && Right(kind, Value(v.bits), if sp.prec < 0 then 6 else sp.prec, sp.alt, l)
              && (l.hasPoint <==> l.frac > 0 || sp.alt)
              && (kind == General && sp.prec > 0 ==> l.intDigits + l.frac <= sp.prec + 4)
              && s.text == old(s.text) + Field(sp, SignText(sp, v.negative), Text(l, upper))
  {
    hide Right, Value, Window, Field;
    var sign := SignText(sp, v.negative);
    if !Finite(v.bits) {
      l := Layout([], 0, 0, 0, false, false, 0);
      EmitPadded(s, sp.(zero := false), sign, Word(v.bits, upper));
      return;
    }
    var lay := LayOut(v.bits, kind, sp.prec, sp.alt);
    var suffix := [];
    if lay.scientific {
      suffix := ExponentSuffix(lay.exponent, upper);
    }
    EmitDecimal(s, sp, sign, lay, suffix);
    l := lay;
  }

  /** Text in a field padded with blanks only. */
  method EmitPadded(s: Sink, sp: Spec, sign: seq<char>, word: seq<char>)
    requires s.Valid() && !sp.zero
    modifies s, s.buf, s.stage
    ensures s.Valid() && s.text == old(s.text) + Field(sp, sign, word)
  {
    var pad := sp.width - |sign| - |word|;
    if !sp.left {
      s.Pad(' ', pad);
    }
    s.Write(sign);
    s.Write(word);
    if sp.left {
      s.Pad(' ', pad);
    }
  }

  // ---- reading it back ----

  /** A run of digits, inside the text from `i` on, is read whole. */
  lemma {:induction false} ScanRun(s: seq<char>, i: nat, n: nat, point: bool)
    requires i + n <= |s| && AllDigits(s[i..i + n])
    ensures ScanDigits(s, i, point) == s[i..i + n] + ScanDigits(s, i + n, point)
    ensures ScanEnd(s, i, point) == ScanEnd(s, i + n, point)
    ensures !point ==> ScanPoint(s, i, point) == n + ScanPoint(s, i + n, point)
    decreases n
  {
    if n == 0 {
    } else {
      assert s[i..i + n][0] == s[i];
      assert s[i + 1..i + n] == s[i..i + n][1..];
      ScanRun(s, i + 1, n - 1, point);
      assert s[i..i + n] == [s[i]] + s[i + 1..i + n];
    }
  }

  lemma {:induction false} RunToEnd(s: seq<char>, i: nat)
    requires i <= |s| && AllDigits(s[i..])
    ensures RunEnd(s, i) == |s|
    decreases |s| - i
  {
    if i < |s| {
      assert s[i] == s[i..][0];
      assert s[i + 1..] == s[i..][1..];
      RunToEnd(s, i + 1);
    }
  }

  /** The exponent part of a text is read as the exponent it was written for. */
  lemma ExponentReads(s: seq<char>, i: nat, e: int, upper: bool)
    requires i <= |s| && -1000 < e < 1000 && s[i..] == ExponentText(e, upper)
    ensures ExponentValue(s, i) == e && ExponentEnd(s, i) == |s|
  {
    hide DigitsValue;
    var mag := if e < 0 then -e else e;
    var t := s[i..];
    assert t[0] == s[i] && t[1] == s[i + 1];
    assert s[i + 2..] == t[2..] == ExponentDigits(mag);
    assert s[i + 2] == t[2] == ExponentDigits(mag)[0];
    RunToEnd(s, i + 2);
    assert s[i + 2..|s|] == s[i + 2..];
    ExponentDigitsValue(mag);
  }

  /** The text of a layout is one whole literal, and means what the layout denotes. */
  lemma TextReads(s: seq<char>, i: nat, l: Layout, upper: bool)
    requires WellLaid(l) && i <= |s| && s[i..] == Text(l, upper)
    ensures var r := ReadLiteral(s, i);
            && r == Literal(Window(l.digits, l.first, l.intDigits + l.frac), l.intDigits, l.exponent, |s|)
            && LiteralValue(r) == Denoted(l)
  {
    hide DigitsValue, RPow, Times, ExponentText, ExponentValue, ExponentEnd, Window, ScanDigits, ScanEnd, ScanPoint;
    var n, m, p := l.intDigits, l.frac, |PointText(l)|;
    var a, b, c := i + n, i + n + p, i + n + p + m;
    TextParts(s, i, l, upper);
    ScanRun(s, i, n, false);
    if p == 1 {
      ScanPointStep(s, a);
    }
    ScanRun(s, b, m, p == 1);
    SuffixStops(s, c, l, upper, p == 1);
    TextIsWindow(l);
    assert ScanDigits(s, i, false) == IntText(l) + FracText(l);
  }

  lemma TextParts(s: seq<char>, i: nat, l: Layout, upper: bool)
    requires WellLaid(l) && i <= |s| && s[i..] == Text(l, upper)
    ensures var n, m, p := l.intDigits, l.frac, |PointText(l)|;
            && i + n + p + m <= |s|
            && s[i..i + n] == IntText(l) && AllDigits(s[i..i + n])
            && (p == 1 ==> s[i + n] == '.') && (p == 0 ==> m == 0)
            && s[i + n + p..i + n + p + m] == FracText(l) && AllDigits(s[i + n + p..i + n + p + m])
            && s[i + n + p + m..] == SuffixText(l, upper)
  {
    WindowDigits(l.digits, l.first, l.intDigits);
    WindowDigits(l.digits, l.first + l.intDigits, l.frac);
    hide AllDigits, SuffixText, Window;
    var n, m, p := l.intDigits, l.frac, |PointText(l)|;
    var t := s[i..];
    assert s[i..i + n] == t[..n];
    assert p == 1 ==> s[i + n] == t[n];
    assert s[i + n + p..i + n + p + m] == t[n + p..n + p + m];
    assert s[i + n + p + m..] == t[n + p + m..];
  }

  lemma SuffixStops(s: seq<char>, c: nat, l: Layout, upper: bool, point: bool)
    requires WellLaid(l) && c <= |s| && s[c..] == SuffixText(l, upper)
    ensures ScanDigits(s, c, point) == [] && ScanEnd(s, c, point) == c && ScanPoint(s, c, point) == 0
    ensures ExponentValue(s, c) == l.exponent && ExponentEnd(s, c) == |s|
  {
    hide ExponentValue, ExponentEnd;
    if l.scientific {
      assert s[c] == s[c..][0];
      ExponentReads(s, c, l.exponent, upper);
    } else {
      assert c == |s|;
      NoExponent(s, c);
    }
  }

  lemma NoExponent(s: seq<char>, c: nat)
    requires c == |s|
    ensures ExponentValue(s, c) == 0 && ExponentEnd(s, c) == c
  {
  }

  // ---- the law ----

  /** A number printed to seventeen significant digits is one that rounds back to the double. */
  lemma SeventeenRoundsBack(bits: nat, alt: bool, l: Layout)
    requires Finite(bits) && GeneralRight(Value(bits), 17, alt, l)
    ensures CorrectlyRounded(Denoted(l), bits, 0)
  {
    hide RPow, Value, Times, Printed, RoundsHalfEven, IsNearestEven;
    ValueZero();
    ValueMonotone(0, 0x7fef_ffff_ffff_ffff);
    if bits == 0 {
      ZeroTimes(RPow(10, l.exponent - l.frac));
      NearestExact(0);
    } else {
      ValueIncrease(0, bits);
      var v := Value(bits);
      var e: int, m: nat :| RoundedAt(v, 17, Denoted(l), e, m);
      RPowTimes(10, 17 - e, e - 17);
      RPowZero(10);
      RPowPositive(10, e - 17);
      NearestScaled(m, v, RPow(10, 17 - e), RPow(10, e - 17));
      RT.SeventeenDigitsIdentify(bits, e, Denoted(l), m);
    }
  }

  lemma ZeroTimes(p: real)
    ensures Times(0.0, p) == 0.0
  {
  }

  lemma NearestScaled(m: nat, v: real, s: real, u: real)
    requires u > 0.0 && Times(s, u) == 1.0 && RoundsHalfEven(m, Times(v, s))
    ensures 2.0 * Abs(Times(m as real, u) - v) <= u
  {
    var y := Times(v, s);
    RMulAssoc(v, s, u);
    assert Times(y, u) == v;
    RDistrib(m as real, y, u);
    Halved(m as real - y, Times(m as real, u) - v, u);
  }

  lemma Halved(z: real, w: real, u: real)
    requires u > 0.0 && w == z * u && Abs(z) <= 0.5
    ensures 2.0 * Abs(w) <= u
  {
    assert (0.5 - z) * u >= 0.0;
    assert (0.5 + z) * u >= 0.0;
  }

  /** What the reader reports for such a text is the double itself, and no range error. */
  lemma ReportedIsOriginal(bits: nat, r: Literal, got: nat, erange: bool)
    requires Finite(bits) && CorrectlyRounded(LiteralValue(r), bits, 0) && Reported(r, got, erange)
    requires |r.digits| <= 780 && -400 <= r.point + r.exponent <= 400 && r.exponent >= -100000
    ensures got == bits && !erange
  {
    hide IsNearestEven, DecValue, Value;
    var x := LiteralValue(r);
    assert Kept(r.digits) == r.digits;
    var status: int :| CorrectlyRounded(x, got, status) && (erange <==> status != 0);
    NearestUnique(x, bits, got);
  }

  /** The text of a number printed to seventeen digits, read from where it starts. */
  lemma TextReadsBack(s: seq<char>, i: nat, bits: nat, alt: bool, l: Layout, upper: bool, got: nat, erange: bool)
    requires Finite(bits) && WellLaid(l) && GeneralRight(Value(bits), 17, alt, l) && l.intDigits + l.frac <= 21
    requires i <= |s| && s[i..] == Text(l, upper)
    requires Reported(ReadLiteral(s, i), got, erange)
    ensures ReadLiteral(s, i).digits != [] && ReadLiteral(s, i).end == |s|
    ensures got == bits && !erange
  {
    SeventeenRoundsBack(bits, alt, l);
    TextReads(s, i, l, upper);
    hide Value, SignificantlyRounded, ReadLiteral, Reported, CorrectlyRounded, LiteralValue, Denoted;
    ReportedIsOriginal(bits, ReadLiteral(s, i), got, erange);
  }

  /** Blanks and signs in front of a number are passed over, and nothing about the number suggests
      another form. */
  lemma NumberFound(s: seq<char>, sp: Spec, negative: bool, l: Layout, upper: bool)
    requires WellLaid(l) && s == SignText(sp, negative) + Text(l, upper)
    ensures NumberStart(s) == |SignText(sp, negative)| && Negated(s) == negative
    ensures !Elsewhere(s, NumberStart(s)) && s[NumberStart(s)..] == Text(l, upper)
  {
    hide Window, ExponentText;
    var n, t := |SignText(sp, negative)|, Text(l, upper);
    assert s[n..] == t;
    assert IsDigit(s[n]) by {
      assert s[n] == t[0] == IntText(l)[0];
      WindowDigits(l.digits, l.first, l.intDigits);
    }
    assert n + 1 < |s| ==> LowerCase(s[n + 1]) != 'x' by {
      if n + 1 < |s| {
        assert s[n + 1] == t[1];
        SecondCharacter(l, upper);
      }
    }
    assert n > 0 ==> s[0] == SignText(sp, negative)[0];
    assert SpacesEnd(s, n) == n;
    assert NumberStart(s) == n;
    assert "inf"[0] == 'i' && "nan"[0] == 'n' && "0x"[1] == 'x' && LowerCase(s[n]) == s[n];
  }

  lemma SecondCharacter(l: Layout, upper: bool)
    requires WellLaid(l) && |Text(l, upper)| > 1
    ensures var c := Text(l, upper)[1]; IsDigit(c) || c == '.' || c == 'e' || c == 'E'
  {
    hide Window;
    WindowDigits(l.digits, l.first, l.intDigits);
    var t := Text(l, upper);
    if l.intDigits > 1 {
      assert t[1] == IntText(l)[1];
    } else if l.hasPoint {
      assert t[1] == '.';
    } else {
      assert t == IntText(l) + SuffixText(l, upper);
      assert t[1] == SuffixText(l, upper)[0];
    }
  }

  lemma TextLength(sp: Spec, negative: bool, l: Layout, upper: bool)
    requires WellLaid(l) && l.intDigits + l.frac <= 21
    ensures |SignText(sp, negative) + Text(l, upper)| <= 28
  {
  }

  lemma NoPadding(sp: Spec, sign: seq<char>, body: seq<char>)
    requires sp.width == 0
    ensures Field(sp, sign, body) == sign + body
  {
    assert Repeat(' ', -|sign| - |body|) == [] == Repeat('0', -|sign| - |body|);
  }

  /** The characters snprintf leaves in a buffer of 32 for %.17g. */
  method Print17(v: Double, upper: bool, sp: Spec, buf: array<char>) returns (n: nat, ghost l: Layout)
    requires Finite(v.bits) && sp.prec == 17 && sp.width == 0 && buf.Length >= 32
    modifies buf
    ensures WellLaid(l) && GeneralRight(Value(v.bits), 17, sp.alt, l) && l.intDigits + l.frac <= 21
    ensures n <= 28 && buf[..n] == SignText(sp, v.negative) + Text(l, upper) && buf[n] == 0 as char
  {
    hide Right, Value, GeneralRight, Text, SignText, Field;
    var s := new Sink(buf, false);
    l := EmitFloat(s, v, General, upper, sp);
    NoPadding(sp, SignText(sp, v.negative), Text(l, upper));
    TextLength(sp, v.negative, l, upper);
    RightIsGeneral(Value(v.bits), sp.alt, l);
    n := s.total;
    s.Finish();
  }

  /** Every finite double printed with %.17g, in either case and with any of the flags for the sign
      and the point, is read back as itself, whole and without a range error. */
  method PrintAndRead(v: Double, upper: bool, sp: Spec, buf: array<char>) returns (r: Outcome)
    requires Finite(v.bits) && sp.prec == 17 && sp.width == 0 && buf.Length >= 32
    modifies buf
    ensures r.Decimal? && r.reading == Reading(true, v, false, r.reading.end)
    ensures r.reading.end <= 28 && buf[r.reading.end] == 0 as char
  {
    hide Value, GeneralRight, Reported, Text, SignText, ReadLiteral;
    var n;
    ghost var l;
    n, l := Print17(v, upper, sp, buf);
    ghost var text := buf[..n];
    r := Strtod.Strtod(buf[..n]);
    NumberFound(text, sp, v.negative, l, upper);
    TextReads(text, NumberStart(text), l, upper);
    TextReadsBack(text, NumberStart(text), v.bits, sp.alt, l, upper, r.reading.value.bits, r.reading.erange);
  }

  lemma RightIsGeneral(v: real, alt: bool, l: Layout)
    requires Right(General, v, 17, alt, l)
    ensures GeneralRight(v, 17, alt, l)
  {
  }
}
