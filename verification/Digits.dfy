/**
 Decimal digit strings, most significant digit first, and the integers they spell.
 */
module Digits {
  import opened Powers

  predicate IsDigit(c: char) {
    '0' <= c <= '9'
  }

  predicate AllDigits(s: seq<char>) {
    forall k :: 0 <= k < |s| ==> IsDigit(s[k])
  }

  function DigitOf(c: char): (n: nat)
    ensures n <= 9
  {
    if IsDigit(c) then (c as int) - ('0' as int) else 0
  }

  function CharOf(n: nat): (c: char)
    requires n <= 9
    ensures IsDigit(c) && DigitOf(c) == n
  {
    (n + ('0' as int)) as char
  }

  function DigitsValue(s: seq<char>): nat {
    if |s| == 0 then 0 else DigitsValue(s[..|s| - 1]) * 10 + DigitOf(s[|s| - 1])
  }

  lemma DigitsSnoc(s: seq<char>, c: char)
    ensures DigitsValue(s + [c]) == DigitsValue(s) * 10 + DigitOf(c)
  {
    assert (s + [c])[..|s|] == s;
  }

  lemma {:induction false} DigitsConcat(s: seq<char>, t: seq<char>)
    ensures DigitsValue(s + t) == DigitsValue(s) * Pow(10, |t|) + DigitsValue(t)
  {
    if t == [] {
      assert s + t == s;
    } else {
      var u, c := t[..|t| - 1], t[|t| - 1];
      assert s + t == (s + u) + [c];
      DigitsConcat(s, u);
      DigitsSnoc(s + u, c);
      MulAssoc(DigitsValue(s), Pow(10, |u|), 10);
    }
  }

  lemma {:induction false} DigitsBound(s: seq<char>)
    ensures DigitsValue(s) < Pow(10, |s|)
  {
    if |s| > 0 {
      DigitsBound(s[..|s| - 1]);
    }
  }

  /** A string whose first digit is not zero is at least the weight of that digit. */
  lemma {:induction false} DigitsLower(s: seq<char>)
    requires |s| > 0 && DigitOf(s[0]) != 0
    ensures DigitsValue(s) >= Pow(10, |s| - 1)
  {
    if |s| > 1 {
      DigitsLower(s[..|s| - 1]);
    }
  }

  lemma {:induction false} DigitsZeros(s: seq<char>)
    ensures (DigitsValue(s) == 0) <==> forall k :: 0 <= k < |s| ==> DigitOf(s[k]) == 0
  {
    if |s| > 0 {
      DigitsZeros(s[..|s| - 1]);
      assert forall k :: 0 <= k < |s| - 1 ==> s[..|s| - 1][k] == s[k];
    }
  }

  /** Dropping a leading zero changes nothing. */
  lemma DigitsLeadingZero(s: seq<char>)
    requires |s| > 0 && DigitOf(s[0]) == 0
    ensures DigitsValue(s[1..]) == DigitsValue(s)
  {
    DigitsConcat(s[..1], s[1..]);
    assert s == s[..1] + s[1..];
    assert DigitsValue(s[..1]) == 0;
  }

  /** How many zeros a string begins with. */
  function LeadingZeros(s: seq<char>): (z: nat)
    ensures z <= |s| && (forall k :: 0 <= k < z ==> s[k] == '0') && (z < |s| ==> s[z] != '0')
  {
    if s == [] || s[0] != '0' then 0 else 1 + LeadingZeros(s[1..])
  }

  /** The first digit that is not zero decides the magnitude. */
  lemma {:induction false} LeadingBounds(s: seq<char>)
    requires AllDigits(s)
    ensures var z := LeadingZeros(s);
            && DigitsValue(s[z..]) == DigitsValue(s) < Pow(10, |s| - z)
            && (z < |s| ==> DigitsValue(s) >= Pow(10, |s| - 1 - z))
            && (z == |s| ==> DigitsValue(s) == 0)
  {
    hide Pow;
    var z := LeadingZeros(s);
    var t := s[z..];
    assert s == s[..z] + t;
    DigitsZeros(s[..z]);
    DigitsConcat(s[..z], t);
    DigitsBound(t);
    if z < |s| {
      assert t[0] == s[z] && IsDigit(t[0]);
      DigitsLower(t);
    }
  }

  /** A number written with `n` digits, zeros in front. */
  function Padded(v: nat, n: nat): (s: seq<char>)
    ensures |s| == n && AllDigits(s)
  {
    if n == 0 then [] else Padded(v / 10, n - 1) + [CharOf(v % 10)]
  }

  lemma {:induction false} PaddedValue(v: nat, n: nat)
    requires v < Pow(10, n)
    ensures DigitsValue(Padded(v, n)) == v
  {
    if n > 0 {
      PaddedValue(v / 10, n - 1);
      DigitsSnoc(Padded(v / 10, n - 1), CharOf(v % 10));
    }
  }

  /** Digits written least significant first. */
  function ReverseValue(s: seq<char>): nat {
    if |s| == 0 then 0 else DigitOf(s[0]) + 10 * ReverseValue(s[1..])
  }

  function Reversed(s: seq<char>): (r: seq<char>)
    ensures |r| == |s|
    ensures forall k :: 0 <= k < |s| ==> r[k] == s[|s| - 1 - k]
  {
    seq(|s|, k requires 0 <= k < |s| => s[|s| - 1 - k])
  }

  lemma {:induction false} ReversedValue(s: seq<char>)
    ensures DigitsValue(Reversed(s)) == ReverseValue(s)
  {
    if |s| > 0 {
      ReversedValue(s[1..]);
      assert Reversed(s) == Reversed(s[1..]) + [s[0]];
      DigitsSnoc(Reversed(s[1..]), s[0]);
    }
  }

  lemma {:induction false} ReverseSnoc(s: seq<char>, c: char)
    ensures ReverseValue(s + [c]) == ReverseValue(s) + DigitOf(c) * Pow(10, |s|)
  {
    if |s| == 0 {
    } else {
      ReverseSnoc(s[1..], c);
      assert (s + [c])[1..] == s[1..] + [c];
      MulAssoc(10, DigitOf(c), Pow(10, |s| - 1));
      MulAssoc(DigitOf(c), 10, Pow(10, |s| - 1));
    }
  }
}
