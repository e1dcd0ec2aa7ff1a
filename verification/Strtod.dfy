/**
 Reading a decimal number from text: digits with at most one point, then an optional exponent.
 What the text spells is stated first; the method that reads it keeps 780 digits, folds the rest
 into one and clamps the exponent.
 */
module Strtod {
  import opened Powers
  import opened Digits
  import opened Doubles
  import opened Decimals
  import DTD = DecToDouble
  import opened DecToDouble

  // ---- what the text spells ----

  /** All digits of the significand from `i` on; `point` says whether the point is behind us. */
  function ScanDigits(s: seq<char>, i: nat, point: bool): (ds: seq<char>)
    ensures AllDigits(ds)
    decreases |s| - i
  {
    if i >= |s| then []
    else if IsDigit(s[i]) then [s[i]] + ScanDigits(s, i + 1, point)
    else if s[i] == '.' && !point then ScanDigits(s, i + 1, true)
    else []
  }

  /** How many of them stand before the point. */
  function ScanPoint(s: seq<char>, i: nat, point: bool): nat
    decreases |s| - i
  {
    if i >= |s| || point then 0
    else if IsDigit(s[i]) then 1 + ScanPoint(s, i + 1, point)
    else 0
  }

  /** Where the significand ends. */
  function ScanEnd(s: seq<char>, i: nat, point: bool): nat
    decreases |s| - i
  {
    if i >= |s| then i
    else if IsDigit(s[i]) then ScanEnd(s, i + 1, point)
    else if s[i] == '.' && !point then ScanEnd(s, i + 1, true)
    else i
  }

  lemma ScanDigitStep(s: seq<char>, i: nat, point: bool)
    requires i < |s| && IsDigit(s[i])
    ensures ScanDigits(s, i, point) == [s[i]] + ScanDigits(s, i + 1, point)
    ensures ScanEnd(s, i, point) == ScanEnd(s, i + 1, point)
    ensures ScanPoint(s, i, point) == (if point then 0 else 1) + ScanPoint(s, i + 1, point)
  {
  }

  lemma ScanPointStep(s: seq<char>, i: nat)
    requires i < |s| && s[i] == '.'
    ensures ScanDigits(s, i, false) == ScanDigits(s, i + 1, true) && ScanEnd(s, i, false) == ScanEnd(s, i + 1, true)
    ensures ScanPoint(s, i, false) == 0 == ScanPoint(s, i + 1, true)
  {
  }

  lemma ScanStop(s: seq<char>, i: nat, point: bool)
    requires i >= |s| || !(IsDigit(s[i]) || (s[i] == '.' && !point))
    ensures ScanDigits(s, i, point) == [] && ScanEnd(s, i, point) == i && ScanPoint(s, i, point) == 0
  {
  }

  function RunEnd(s: seq<char>, i: nat): (e: nat)
    ensures i <= |s| ==> i <= e <= |s|
    ensures i <= |s| ==> AllDigits(s[i..e]) && (e == |s| || !IsDigit(s[e]))
    decreases |s| - i
  {
    if i < |s| && IsDigit(s[i]) then
      var e := RunEnd(s, i + 1);
      assert s[i..e] == [s[i]] + s[i + 1..e];
      e
    else i
  }

  predicate ExponentMark(s: seq<char>, i: nat) {
    i < |s| && (s[i] == 'e' || s[i] == 'E')
  }

  predicate SignMark(s: seq<char>, i: nat) {
    i < |s| && (s[i] == '+' || s[i] == '-')
  }

  /** Where the digits of an exponent at `i` start. */
  function ExponentStart(s: seq<char>, i: nat): nat {
    if SignMark(s, i + 1) then i + 2 else i + 1
  }

  /** An exponent needs a mark and a digit. */
  predicate HasExponent(s: seq<char>, i: nat) {
    ExponentMark(s, i) && ExponentStart(s, i) < |s| && IsDigit(s[ExponentStart(s, i)])
  }

  function ExponentValue(s: seq<char>, i: nat): int {
    if !HasExponent(s, i) then 0 else
      var from := ExponentStart(s, i);
      var n: int := DigitsValue(s[from..RunEnd(s, from)]);
      if s[i + 1] == '-' then -n else n
  }

  function ExponentEnd(s: seq<char>, i: nat): nat {
    if HasExponent(s, i) then RunEnd(s, ExponentStart(s, i)) else i
  }

  /** A literal as the text gives it: its digits, the place of the point, the exponent, the end. */
  datatype Literal = Literal(digits: seq<char>, point: nat, exponent: int, end: nat)

  function ReadLiteral(s: seq<char>, i: nat): Literal {
    var j := ScanEnd(s, i, false);
    Literal(ScanDigits(s, i, false), ScanPoint(s, i, false), ExponentValue(s, j), ExponentEnd(s, j))
  }

  function LiteralValue(l: Literal): real {
    DecValue(l.digits, l.point + l.exponent)
  }

  // ---- what the reader keeps ----

  /** Something other than zeros follows the 780th digit. */
  predicate NonZeroTail(ds: seq<char>) {
    exists k :: 780 <= k < |ds| && ds[k] != '0'
  }

  lemma NonZeroTailSnoc(ds: seq<char>, c: char)
    ensures NonZeroTail(ds + [c]) <==> NonZeroTail(ds) || (|ds| >= 780 && c != '0')
  {
    if NonZeroTail(ds) {
      var k :| 780 <= k < |ds| && ds[k] != '0';
      assert (ds + [c])[k] != '0';
    } else if |ds| >= 780 && c != '0' {
      assert (ds + [c])[|ds|] != '0';
    }
  }

  /** The digits handed on: at most 780, and a one for a non-zero tail. */
  function Kept(ds: seq<char>): (k: seq<char>)
    ensures |k| <= 781
  {
    if |ds| <= 780 then ds
    else ds[..780] + if NonZeroTail(ds) then ['1'] else []
  }

  /** What strtod reports: the magnitude, whether ERANGE is set, and where reading stopped; `found`
      is false when there was no digit. */
  datatype Reading = Reading(found: bool, value: Double, erange: bool, end: nat)

  /** The exponent the reader works with is the literal's own, unless one so negative that it is
      clamped meets a hundred thousand integer digits. */
  predicate ExponentKept(l: Literal) {
    l.exponent >= -100000 || l.point <= 99599
  }

  /** Where the reader takes the decimal point to be; a larger exponent than a hundred thousand makes
      no difference to it. */
  function WorkingExponent(l: Literal): int {
    l.point + if l.exponent < -100000 then -100000 else l.exponent
  }

  /** The magnitude and ERANGE reported for a literal: infinity above 400, zero below -400, and
      otherwise the correctly rounded value of the kept digits at the working exponent. */
  ghost predicate Reported(l: Literal, bits: nat, erange: bool) {
    var w := WorkingExponent(l);
    if w > 400 then bits == 0x7ff0_0000_0000_0000 && erange
    else if w < -400 then bits == 0 && erange
    else exists status: int :: CorrectlyRounded(DecValue(Kept(l.digits), w), bits, status) && (erange <==> status != 0)
  }

  /** Read a number at `start`. */
  method ParseDecimal(s: seq<char>, start: nat, negative: bool) returns (r: Reading)
    requires start <= |s|
    ensures r.found <==> ReadLiteral(s, start).digits != []
    ensures !r.found ==> r == Reading(false, Double(false, 0), false, start)
    ensures r.found ==>
              var l := ReadLiteral(s, start);
              r.end == l.end && r.value.negative == negative && Reported(l, r.value.bits, r.erange)
  {
    hide DecValue, DigitsValue, CorrectlyRounded, Pow, RPow, Value, Kept, ScanDigits, ScanPoint, ScanEnd;
    var digits := new char[782];
    var ndigits, intDigits, sticky, i := CollectDigits(s, start, digits);
    ghost var l := ReadLiteral(s, start);
    if ndigits == 0 {
      return Reading(false, Double(false, 0), false, start);
    }
    var exp10, end := ReadExponent(s, i, intDigits);
    if sticky {
      digits[ndigits] := '1';
      ndigits := ndigits + 1;
    }
    KeptBuffer(l.digits, digits[..ndigits], sticky);
    if exp10 > 400 {
      return Reading(true, Double(negative, 0x7ff0_0000_0000_0000), true, end);
    }
    if exp10 < -400 {
      return Reading(true, Double(negative, 0), true, end);
    }
    KeptDigits(l.digits);
    var value, status := DTD.DecToDouble(digits[..ndigits], exp10, negative);
    r := Reading(true, value, status != 0, end);
  }

  predicate IsSpace(c: char) {
    c == ' ' || 9 <= c as int <= 13
  }

  function SpacesEnd(s: seq<char>, i: nat): (e: nat)
    ensures i <= |s| ==> i <= e <= |s|
    decreases |s| - i
  {
    if i < |s| && IsSpace(s[i]) then SpacesEnd(s, i + 1) else i
  }

  /** Where the number itself starts, behind blanks and a sign. */
  function NumberStart(s: seq<char>): (i: nat)
    ensures i <= |s|
  {
    var i := SpacesEnd(s, 0);
    if i < |s| && (s[i] == '+' || s[i] == '-') then i + 1 else i
  }

  predicate Negated(s: seq<char>) {
    var i := SpacesEnd(s, 0);
    i < |s| && s[i] == '-'
  }

  function LowerCase(c: char): char {
    if 'A' <= c <= 'Z' then c + 32 as char else c
  }

  predicate MatchesIgnoringCase(s: seq<char>, i: nat, word: seq<char>) {
    i + |word| <= |s| && forall k :: 0 <= k < |word| ==> LowerCase(s[i + k]) == word[k]
  }

  predicate IsHexDigit(c: char) {
    IsDigit(c) || 'a' <= LowerCase(c) <= 'f'
  }

  /** A hexadecimal number needs a digit, perhaps behind a point. */
  predicate HexDigits(s: seq<char>, i: nat) {
    && i < |s|
    && (IsHexDigit(s[i]) || (s[i] == '.' && i + 1 < |s| && IsHexDigit(s[i + 1])))
  }

  /** The words for infinity and NaN, and hexadecimal numbers, are read elsewhere; without a digit
      behind it the "x" is not a part of the number. */
  predicate Elsewhere(s: seq<char>, i: nat) {
    || MatchesIgnoringCase(s, i, "inf") || MatchesIgnoringCase(s, i, "nan")
    || (MatchesIgnoringCase(s, i, "0x") && HexDigits(s, i + 2))
  }

  datatype Outcome = Decimal(reading: Reading) | Other

  /** Read a number from the start of a text. */
  method Strtod(s: seq<char>) returns (r: Outcome)
    ensures r.Other? <==> Elsewhere(s, NumberStart(s))
    ensures r.Decimal? ==>
              var l, reading := ReadLiteral(s, NumberStart(s)), r.reading;
              && (reading.found <==> l.digits != [])
              && (!reading.found ==> reading == Reading(false, Double(false, 0), false, 0))
              && (reading.found ==>
                    && reading.end == l.end && reading.value.negative == Negated(s)
                    && Reported(l, reading.value.bits, reading.erange))
  {
    hide Reported, ScanDigits, ScanPoint, ScanEnd, ExponentValue, ExponentEnd;
    var i := 0;
    while i < |s| && IsSpace(s[i])
      invariant i <= |s| && SpacesEnd(s, 0) == SpacesEnd(s, i)
    {
      i := i + 1;
    }
    var negative := false;
    if i < |s| && (s[i] == '+' || s[i] == '-') {
      negative := s[i] == '-';
      i := i + 1;
    }
    if Elsewhere(s, i) {
      return Other;
    }
    var reading := ParseDecimal(s, i, negative);
    r := Decimal(if reading.found then reading else reading.(end := 0));
  }

  /** The digits up to the 780th, how many stood before the point, whether anything but zeros
      followed, and where the significand ends. */
  method CollectDigits(s: seq<char>, start: nat, digits: array<char>)
    returns (ndigits: nat, intDigits: nat, sticky: bool, i: nat)
    requires start <= |s| && digits.Length == 782
    modifies digits
    ensures i == ScanEnd(s, start, false) <= |s| && intDigits == ScanPoint(s, start, false)
    ensures var ds := ScanDigits(s, start, false);
            && ndigits == (if |ds| < 780 then |ds| else 780)
            && digits[..ndigits] == ds[..ndigits]
            && (sticky <==> NonZeroTail(ds))
  {
    hide NonZeroTail, ScanDigits, ScanEnd, ScanPoint;
    i, ndigits, intDigits, sticky := start, 0, 0, false;
    NoTail([]);
    var seenPoint := false;
    ghost var ds: seq<char> := [];
    while i < |s|
      invariant start <= i <= |s|
      invariant ScanDigits(s, start, false) == ds + ScanDigits(s, i, seenPoint)
      invariant ScanPoint(s, start, false) == intDigits + ScanPoint(s, i, seenPoint)
      invariant ScanEnd(s, start, false) == ScanEnd(s, i, seenPoint)
      invariant ndigits == (if |ds| < 780 then |ds| else 780)
      invariant digits[..ndigits] == ds[..ndigits]
      invariant sticky <==> NonZeroTail(ds)
      decreases |s| - i
    {
      if IsDigit(s[i]) {
        ScanDigitStep(s, i, seenPoint);
        if ndigits < 780 {
          digits[ndigits] := s[i];
          ndigits := ndigits + 1;
        } else if s[i] != '0' {
          sticky := true;
        }
        if !seenPoint {
          intDigits := intDigits + 1;
        }
        ghost var before := ds;
        NonZeroTailSnoc(ds, s[i]);
        ds := ds + [s[i]];
        assert before + ([s[i]] + ScanDigits(s, i + 1, seenPoint)) == ds + ScanDigits(s, i + 1, seenPoint);
        i := i + 1;
      } else if s[i] == '.' && !seenPoint {
        ScanPointStep(s, i);
        seenPoint := true;
        i := i + 1;
      } else {
        break;
      }
    }
    ScanStop(s, i, seenPoint);
    assert ScanDigits(s, start, false) == ds;
  }

  lemma NoTail(ds: seq<char>)
    requires |ds| <= 780
    ensures !NonZeroTail(ds)
  {
  }

  lemma KeptBuffer(ds: seq<char>, buffer: seq<char>, sticky: bool)
    requires sticky <==> NonZeroTail(ds)
    requires var n := if |ds| < 780 then |ds| else 780; buffer == ds[..n] + if sticky then ['1'] else []
    ensures buffer == Kept(ds)
  {
    if |ds| <= 780 {
      assert ds[..|ds|] == ds;
    }
  }

  lemma KeptDigits(ds: seq<char>)
    requires AllDigits(ds)
    ensures AllDigits(Kept(ds))
  {
  }

  /** The exponent added to the place of the point, both clamped to a hundred thousand. */
  method ReadExponent(s: seq<char>, i: nat, intDigits: nat) returns (exp10: int, end: nat)
    requires i <= |s|
    ensures end == ExponentEnd(s, i)
    ensures var e := ExponentValue(s, i);
            var w := intDigits + if e < -100000 then -100000 else e;
            (exp10 > 400 <==> w > 400) && (exp10 < -400 <==> w < -400) && (-400 <= exp10 <= 400 ==> exp10 == w)
  {
    hide DigitsValue;
    exp10, end := intDigits, i;
    if ExponentMark(s, i) {
      var after, minus := i + 1, false;
      if SignMark(s, after) {
        minus := s[after] == '-';
        after := after + 1;
      }
      assert after == ExponentStart(s, i);
      var from := after;
      var evalue := 0;
      EmptyDigits(s[from..after]);
      while after < |s| && IsDigit(s[after])
        invariant from <= after <= |s| && RunEnd(s, from) == RunEnd(s, after)
        invariant 0 <= evalue && SameClamped(evalue, DigitsValue(s[from..after]))
        decreases |s| - after
      {
        assert s[from..after + 1] == s[from..after] + [s[after]];
        DigitsSnoc(s[from..after], s[after]);
        if evalue < 100000 {
          evalue := evalue * 10 + DigitOf(s[after]);
        }
        after := after + 1;
      }
      if after > from {
        if evalue > 100000 {
          evalue := 100000;
        }
        exp10 := exp10 + if minus then -evalue else evalue;
        if exp10 > 100000 {
          exp10 := 100000;
        } else if exp10 < -100000 {
          exp10 := -100000;
        }
        end := after;
      }
    }
  }

  /** Equal below a hundred thousand, and on the same side of it. */
  predicate SameClamped(evalue: nat, n: nat) {
    (evalue < 100000 ==> evalue == n) && (evalue >= 100000 ==> n >= 100000)
    && (evalue == 100000 ==> n >= 100000) && (n <= 100000 ==> evalue == n)
  }

  lemma EmptyDigits(none: seq<char>)
    requires none == []
    ensures DigitsValue(none) == 0
  {
  }
}
