/**
 Rounding a digit string in place to fewer digits, ties to the even digit.
 */
module DecRound {
  import opened Powers
  import opened Digits
  import opened Doubles
  import opened Decimals

  /** num / den rounded to the nearest integer, ties to even. */
  function HalfEven(num: nat, den: nat): nat
    requires den > 0
  {
    var q, r := num / den, num % den;
    if 2 * r < den then q else if 2 * r > den then q + 1 else if q % 2 == 0 then q else q + 1
  }

  /** No integer is nearer, and an integer that is as near is odd. */
  lemma HalfEvenIsNearest(num: nat, den: nat, c: nat)
    requires den > 0
    ensures var m := HalfEven(num, den);
            && 2 * Distance(m * den, num) <= den
            && (c != m ==> Distance(m * den, num) < Distance(c * den, num)
                           || (Distance(m * den, num) == Distance(c * den, num) && m % 2 == 0))
  {
    var q, r, m := num / den, num % den, HalfEven(num, den);
    assert num == q * den + r;
    MulDistrib(den, q, 1);
    hide HalfEven;
    if c < m {
      MulMono(c + 1, m, den);
      MulDistrib(den, c, 1);
    } else if c > m {
      MulMono(m + 1, c, den);
      MulDistrib(den, m, 1);
    }
    assert m == q || m == q + 1 by { HalfEvenEither(num, den); }
  }

  lemma HalfEvenEither(num: nat, den: nat)
    requires den > 0
    ensures HalfEven(num, den) == num / den || HalfEven(num, den) == num / den + 1
  {
  }

  function Distance(a: int, b: int): nat {
    if a < b then b - a else a - b
  }

  /** Which way the cut-off digits round, read off their first digit, then the rest. */
  method RoundsUp(digits: seq<char>, keep: nat) returns (up: bool)
    requires keep < |digits| && AllDigits(digits)
    ensures HalfEven(DigitsValue(digits), Pow(10, |digits| - keep))
         == DigitsValue(digits[..keep]) + if up then 1 else 0
  {
    hide Pow, DigitsValue, HalfEven;
    var rest := digits[keep + 1..];
    CutValue(digits, keep);
    if digits[keep] > '5' {
      up := true;
      CutHigh(digits, keep);
    } else if digits[keep] < '5' {
      up := false;
      CutLow(digits, keep);
    } else {
      up := false;
      var i := keep + 1;
      while i < |digits|
        invariant keep + 1 <= i <= |digits| && !up
        invariant forall k :: keep + 1 <= k < i ==> digits[k] == '0'
      {
        if digits[i] != '0' {
          up := true;
          break;
        }
        i := i + 1;
      }
      DigitsZeros(rest);
      if up {
        assert rest[i - keep - 1] == digits[i];
        CutHigh(digits, keep);
      } else {
        var prev := if keep == 0 then 0 else DigitOf(digits[keep - 1]);
        up := prev % 2 == 1;
        Parity(digits[..keep]);
        CutTie(digits, keep);
      }
    }
  }

  /** The digits cut off, against the weight of the last digit kept. */
  lemma CutValue(digits: seq<char>, keep: nat)
    requires keep < |digits|
    ensures var p := Pow(10, |digits| - keep - 1);
            && Pow(10, |digits| - keep) == 10 * p
            && DigitsValue(digits)
               == DigitsValue(digits[..keep]) * (10 * p)
                  + (DigitOf(digits[keep]) * p + DigitsValue(digits[keep + 1..]))
            && DigitsValue(digits[keep + 1..]) < p
  {
    hide Pow, DigitsValue;
    var p, rest := Pow(10, |digits| - keep - 1), digits[keep + 1..];
    TenTimes(|digits| - keep - 1);
    assert digits == (digits[..keep] + [digits[keep]]) + rest;
    DigitsConcat(digits[..keep] + [digits[keep]], rest);
    DigitsSnoc(digits[..keep], digits[keep]);
    DigitsBound(rest);
    MulDistrib(p, DigitsValue(digits[..keep]) * 10, DigitOf(digits[keep]));
    MulAssoc(DigitsValue(digits[..keep]), 10, p);
  }

  lemma TenTimes(k: nat)
    ensures Pow(10, k + 1) == 10 * Pow(10, k)
  {
  }

  lemma CutHigh(digits: seq<char>, keep: nat)
    requires keep < |digits| && AllDigits(digits)
    requires digits[keep] > '5' || (digits[keep] == '5' && DigitsValue(digits[keep + 1..]) > 0)
    ensures HalfEven(DigitsValue(digits), Pow(10, |digits| - keep)) == DigitsValue(digits[..keep]) + 1
  {
    hide Pow, DigitsValue;
    CutValue(digits, keep);
    CutDecides(digits, keep);
  }

  lemma CutLow(digits: seq<char>, keep: nat)
    requires keep < |digits| && AllDigits(digits) && digits[keep] < '5'
    ensures HalfEven(DigitsValue(digits), Pow(10, |digits| - keep)) == DigitsValue(digits[..keep])
  {
    hide Pow, DigitsValue;
    CutValue(digits, keep);
    CutDecides(digits, keep);
  }

  lemma CutTie(digits: seq<char>, keep: nat)
    requires keep < |digits| && AllDigits(digits) && digits[keep] == '5'
    requires DigitsValue(digits[keep + 1..]) == 0
    ensures HalfEven(DigitsValue(digits), Pow(10, |digits| - keep))
         == DigitsValue(digits[..keep]) + DigitsValue(digits[..keep]) % 2
  {
    hide Pow, DigitsValue;
    CutValue(digits, keep);
    CutDecides(digits, keep);
  }

  lemma CutDecides(digits: seq<char>, keep: nat)
    requires keep < |digits| && AllDigits(digits)
    ensures var p, q := Pow(10, |digits| - keep - 1), DigitsValue(digits[..keep]);
            var r := DigitOf(digits[keep]) * p + DigitsValue(digits[keep + 1..]);
            && DigitsValue(digits) / Pow(10, |digits| - keep) == q
            && DigitsValue(digits) % Pow(10, |digits| - keep) == r
            && (digits[keep] > '5' ==> 2 * r > 10 * p)
            && (digits[keep] < '5' ==> 2 * r < 10 * p)
            && (digits[keep] == '5' ==> 2 * r == 10 * p + 2 * DigitsValue(digits[keep + 1..]))
  {
    hide Pow, DigitsValue;
    CutValue(digits, keep);
    var p, d := Pow(10, |digits| - keep - 1), DigitOf(digits[keep]);
    if d >= 6 {
      MulMono(6, d, p);
    } else if d <= 4 {
      MulMono(d, 4, p);
    }
    MulMono(d, 9, p);
    DivModUnique(DigitsValue(digits), 10 * p, DigitsValue(digits[..keep]), d * p + DigitsValue(digits[keep + 1..]));
  }

  lemma Parity(digits: seq<char>)
    ensures DigitsValue(digits) % 2 == if |digits| == 0 then 0 else DigitOf(digits[|digits| - 1]) % 2
  {
    if |digits| > 0 {
      var high, last := DigitsValue(digits[..|digits| - 1]), DigitOf(digits[|digits| - 1]);
      assert DigitsValue(digits) == high * 10 + last;
      hide DigitsValue;
      EvenPart(high, last);
    }
  }

  lemma EvenPart(high: nat, last: nat)
    ensures (high * 10 + last) % 2 == last % 2
  {
  }

  /** Round to `keep` digits (none when it is negative). A carry out of the leading digit leaves a
      one behind and moves the exponent up. */
  method DecRound(digits: array<char>, ndigits: nat, keep: int, exp10: int) returns (len: nat, e: int)
    requires ndigits <= digits.Length && AllDigits(digits[..ndigits])
    requires ndigits > 0 || keep >= 0
    modifies digits
    ensures len <= digits.Length
    ensures keep >= ndigits ==> len == ndigits && e == exp10 && digits[..] == old(digits[..])
    ensures keep < ndigits ==>
              var k := if keep < 0 then 0 else keep;
              && (len == k || (k == 0 && len == 1 && e == exp10 + 1))
              && exp10 <= e <= exp10 + 1
              && AllDigits(digits[..len])
              && (len > 0 && old(digits[0]) != '0' ==> digits[0] != '0')
              && DecValue(digits[..len], e)
                 == Times(HalfEven(DigitsValue(old(digits[..ndigits])), Pow(10, ndigits - k)) as real,
                          RPow(10, exp10 - k))
  {
    hide Pow, RPow, DecValue, DigitsValue, HalfEven, Times;
    e := exp10;
    if keep >= ndigits {
      return ndigits, e;
    }
    var k: nat := if keep < 0 then 0 else keep;
    ghost var was := digits[..ndigits];
    var up := RoundsUp(digits[..ndigits], k);
    ghost var s := digits[..k];
    assert was[..k] == s;
    if !up {
      Rounded(s, exp10, k);
      return k, e;
    }
    var i := k - 1;
    while i >= 0
      invariant -1 <= i < k && AllDigits(digits[..k])
      invariant forall j :: 0 <= j <= i ==> digits[j] == s[j]
      invariant forall j :: i < j < k ==> s[j] == '9' && digits[j] == '0'
    {
      if digits[i] != '9' {
        digits[i] := CharOf(DigitOf(digits[i]) + 1);
        Bumped(s, digits[..k], i);
        Rounded(digits[..k], exp10, k);
        return k, e;
      }
      digits[i] := '0';
      i := i - 1;
    }
    AllNines(s);
    digits[0] := '1';
    i := 1;
    while i < k
      invariant 1 <= i && (k > 0 ==> i <= k) && (k == 0 ==> i == 1) && digits[0] == '1'
      invariant forall j :: 1 <= j < i ==> digits[j] == '0'
    {
      digits[i] := '0';
      i := i + 1;
    }
    e := e + 1;
    len := if k == 0 then 1 else k;
    CarriedOut(digits[..len], exp10, k);
  }

  lemma Rounded(t: seq<char>, exp10: int, k: nat)
    requires |t| == k
    ensures DecValue(t, exp10) == Times(DigitsValue(t) as real, RPow(10, exp10 - k))
  {
  }

  lemma {:induction false} NinesValue(s: seq<char>)
    requires forall j :: 0 <= j < |s| ==> s[j] == '9'
    ensures DigitsValue(s) == Pow(10, |s|) - 1
  {
    if |s| > 0 {
      NinesValue(s[..|s| - 1]);
    }
  }

  lemma AllNines(s: seq<char>)
    requires forall j :: 0 <= j < |s| ==> s[j] == '9'
    ensures DigitsValue(s) + 1 == Pow(10, |s|)
  {
    NinesValue(s);
  }

  /** The digit above a run of nines goes up and the nines become zeros. */
  lemma Bumped(s: seq<char>, t: seq<char>, i: nat)
    requires i < |s| == |t| && AllDigits(s) && DigitOf(s[i]) < 9 && t[i] == CharOf(DigitOf(s[i]) + 1)
    requires forall j :: 0 <= j < i ==> t[j] == s[j]
    requires forall j :: i < j < |s| ==> s[j] == '9' && t[j] == '0'
    ensures DigitsValue(t) == DigitsValue(s) + 1
    ensures s[0] != '0' ==> t[0] != '0'
  {
    hide DigitsValue, Pow;
    var nines, zeros := s[i + 1..], t[i + 1..];
    NinesValue(nines);
    DigitsZeros(zeros);
    SplitDigit(s, i);
    SplitDigit(t, i);
    assert s[..i] == t[..i];
    NextDigit(DigitsValue(s[..i]) * 10 + DigitOf(s[i]), Pow(10, |nines|));
  }

  lemma SplitDigit(s: seq<char>, i: nat)
    requires i < |s|
    ensures DigitsValue(s)
              == (DigitsValue(s[..i]) * 10 + DigitOf(s[i])) * Pow(10, |s| - i - 1) + DigitsValue(s[i + 1..])
  {
    hide DigitsValue, Pow;
    assert s == (s[..i] + [s[i]]) + s[i + 1..];
    DigitsConcat(s[..i] + [s[i]], s[i + 1..]);
    DigitsSnoc(s[..i], s[i]);
  }

  lemma NextDigit(d: nat, p: nat)
    ensures (d + 1) * p == d * p + p
  {
  }

  lemma CarriedOut(t: seq<char>, exp10: int, k: nat)
    requires |t| == (if k == 0 then 1 else k) && t[0] == '1'
    requires forall j :: 1 <= j < |t| ==> t[j] == '0'
    ensures AllDigits(t)
    ensures DecValue(t, exp10 + 1) == Times(Pow(10, k) as real, RPow(10, exp10 - k))
  {
    var zeros := t[1..];
    assert t == ['1'] + zeros;
    assert DigitsValue(['1']) == 1 by { assert DigitsValue([]) == 0; assert ['1'][..0] == []; }
    DigitsZeros(zeros);
    hide DigitsValue, Pow, RPow;
    DigitsConcat(['1'], zeros);
    if k > 0 {
      TenTimes(k - 1);
      RPowStep(10, exp10 - k);
      TenAcross(Pow(10, k - 1) as real, RPow(10, exp10 - k));
    } else {
      PowZero();
    }
  }

  lemma PowZero()
    ensures Pow(10, 0) == 1
  {
  }

  lemma TenAcross(a: real, b: real)
    ensures Times(10.0 * a, b) == Times(a, 10.0 * b)
  {
  }
}
