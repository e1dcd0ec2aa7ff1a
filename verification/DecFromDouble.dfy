/**
 From a double to its exact decimal digits.
 */
module DecFromDouble {
  import opened Powers
  import opened Digits
  import opened Limbs
  import opened BigInt
  import opened Doubles
  import opened Decimals
  import opened Guess

  /** Room for the longest expansion of a double, and a little over. */
  const DEC_DIGITS: nat := 800

  /** The integer a double is once its decimal point is moved behind its last digit. */
  ghost function Whole(mant: nat, exp2: int): nat {
    MulNonneg(mant, Pow(2, if exp2 < 0 then 0 else exp2));
    MulNonneg(mant, Pow(5, if exp2 < 0 then -exp2 else 0));
    if exp2 >= 0 then mant * Pow(2, exp2) else mant * Pow(5, -exp2)
  }

  /** The exact digits of a finite double: no leading and no trailing zero, and fewer than 800. */
  method DecFromDouble(bits: nat, digits: array<char>) returns (len: nat, exp10: int)
    requires Finite(bits) && digits.Length >= DEC_DIGITS
    modifies digits
    ensures 1 <= len <= 774 && AllDigits(digits[..len])
    ensures bits == 0 ==> len == 1 && digits[0] == '0' && exp10 == 1
    ensures bits != 0 ==> digits[0] != '0' && digits[len - 1] != '0'
    ensures DecValue(digits[..len], exp10) == Value(bits)
  {
    hide Pow, RPow, Value, DecValue, DigitsValue, Capacity, Wraps, Scaled, LimbsValue, Normal, Times, Whole;
    var mant, exp2 := Mant(bits), Exp2(bits);
    MantZero(bits);
    if mant == 0 {
      digits[0] := '0';
      ZeroDigits(digits[..1]);
      return 1, 1;
    }
    var a := new Big();
    a.SetU64(mant);
    WholeBounds(mant, exp2);
    var fracDigits: nat := 0;
    if exp2 >= 0 {
      a.Shl(exp2);
      WholeShifted(mant, exp2, a.Value(), a.Trimmed());
    } else {
      a.MulPow5(-exp2);
      fracDigits := -exp2;
      WholeScaled(mant, exp2, a.Value(), a.Trimmed());
    }
    len := a.ToDigits(digits, DEC_DIGITS);
    exp10 := len - fracDigits;
    LengthBound(digits[..len]);
    WholeValue(bits, digits[..len]);
    ghost var all := digits[..len];
    len := StripZeros(digits[..len], exp10);
    assert all[..len] == digits[..len];
  }

  /** The length without trailing zeros. */
  method StripZeros(digits: seq<char>, exp10: int) returns (len: nat)
    requires |digits| >= 1 && AllDigits(digits) && digits[0] != '0'
    ensures 1 <= len <= |digits| && digits[len - 1] != '0'
    ensures DecValue(digits[..len], exp10) == DecValue(digits, exp10)
  {
    hide DecValue;
    len := |digits|;
    assert digits[..len] == digits;
    while len > 1 && digits[len - 1] == '0'
      invariant 1 <= len <= |digits|
      invariant DecValue(digits[..len], exp10) == DecValue(digits, exp10)
    {
      assert digits[..len][..len - 1] == digits[..len - 1];
      DropTrailingZero(digits[..len], exp10);
      len := len - 1;
    }
  }

  lemma MantZero(bits: nat)
    requires Finite(bits)
    ensures Mant(bits) == 0 <==> bits == 0
    ensures Mant(bits) < 0x20_0000_0000_0000 && -1074 <= Exp2(bits) <= 971
  {
  }

  lemma ZeroDigits(digits: seq<char>)
    requires digits == ['0']
    ensures AllDigits(digits) && DecValue(digits, 1) == Value(0)
  {
    hide RPow, Value;
    OneDigit(digits);
    ValueZero();
  }

  lemma WholeBounds(mant: nat, exp2: int)
    requires 0 < mant < 0x20_0000_0000_0000 && -1074 <= exp2 <= 971
    ensures 0 < Whole(mant, exp2) < Pow(10, 774) && Whole(mant, exp2) < Capacity()
    ensures Pow(10, 774) <= Pow(10, 800) && Pow(10, 774) <= Pow(10, 810)
  {
    hide Pow, Capacity;
    TenPower774();
    PowMono(10, 774, 800);
    PowMono(10, 774, 810);
    Pow52();
    if exp2 >= 0 {
      PowMono(2, exp2, 971);
      PowAdd(2, 53, 971);
      ProductBelow(mant, Pow(2, 53), Pow(2, exp2), Pow(2, 971));
    } else {
      PowMono(5, -exp2, 1074);
      ProductBelow(mant, Pow(2, 53), Pow(5, -exp2), Pow(5, 1074));
    }
  }

  lemma ProductBelow(a: nat, b: nat, c: nat, d: nat)
    requires 0 < a < b && 0 < c <= d
    ensures 0 < a * c < b * d
  {
    StrictMono(a, b, c);
    MulMono(c, d, b);
    MulAtLeast(a, c);
  }

  /** 10^774 is above every such integer, and far below the capacity. */
  lemma TenPower774()
    ensures Pow(2, 53 + 971) <= Pow(10, 774) && Pow(2, 53) * Pow(5, 1074) <= Pow(10, 774)
    ensures Pow(10, 774) <= Capacity()
  {
    hide Pow, Capacity;
    LargeExponents();
    SmallExponents();
    CapacityIsPower();
    TenBits();
    PowPosBound(10, 4, 774, 774);
    PowMono(2, 3096, 10240);
  }

  lemma LargeExponents()
    ensures Pow(2, 1024) <= Pow(10, 774)
  {
    assert Pow(2, 10) <= Pow(10, 4);
    hide Pow;
    PowPow(2, 10, 103);
    PowBaseMono(Pow(2, 10), Pow(10, 4), 103);
    PowPow(10, 4, 103);
    PowMono(2, 1024, 1030);
    PowMono(10, 412, 774);
  }

  lemma SmallExponents()
    ensures Pow(2, 53) * Pow(5, 1074) <= Pow(10, 774)
  {
    hide Pow;
    PowAdd(5, 53, 1021);
    PowMulBase(2, 5, 53);
    MulAssoc(Pow(2, 53), Pow(5, 53), Pow(5, 1021));
    FiveBound();
    MulMono(Pow(5, 1021), Pow(10, 721), Pow(10, 53));
    PowAdd(10, 53, 721);
  }

  lemma FiveBound()
    ensures Pow(5, 1021) <= Pow(10, 721)
  {
    assert Pow(5, 10) <= Pow(10, 7) by {
      Pow5Entry(10);
      assert Pow(10, 7) == 10_000_000;
    }
    hide Pow;
    PowMono(5, 1021, 1030);
    PowPow(5, 10, 103);
    PowBaseMono(Pow(5, 10), Pow(10, 7), 103);
    PowPow(10, 7, 103);
  }

  lemma WholeShifted(mant: nat, exp2: int, v: nat, trimmed: bool)
    requires exp2 >= 0 && Whole(mant, exp2) < Capacity()
    requires exp2 <= 0 ==> v == mant && trimmed
    requires exp2 > 0 ==> Wraps(mant * Pow(2, exp2), v) && (mant * Pow(2, exp2) < Capacity() ==> trimmed)
    ensures v == Whole(mant, exp2) && trimmed
  {
    hide Wraps, Capacity;
    if exp2 > 0 {
      hide Pow;
      WrapsFits(mant * Pow(2, exp2), v);
    }
  }

  lemma WholeScaled(mant: nat, exp2: int, v: nat, trimmed: bool)
    requires exp2 < 0 && Whole(mant, exp2) < Capacity() && Scaled(mant, true, Pow(5, -exp2), v, trimmed)
    ensures v == Whole(mant, exp2) && trimmed
  {
    hide Wraps, Capacity, Scaled, Pow;
    ScaledFits(mant, true, Pow(5, -exp2), v, trimmed);
  }

  /** An integer below 10^774 has at most 774 digits. */
  lemma LengthBound(digits: seq<char>)
    requires |digits| >= 1 && AllDigits(digits) && digits[0] != '0' && DigitsValue(digits) < Pow(10, 774)
    ensures |digits| <= 774
  {
    hide DigitsValue, Pow;
    if |digits| > 774 {
      DigitsLower(digits);
      PowMono(10, 774, |digits| - 1);
    }
  }

  /** The digits of the whole number, with the point put back, are the double. */
  lemma WholeValue(bits: nat, digits: seq<char>)
    requires DigitsValue(digits) == Whole(Mant(bits), Exp2(bits))
    ensures DecValue(digits, |digits| - (if Exp2(bits) < 0 then -Exp2(bits) else 0)) == Value(bits)
  {
    var m, e := Mant(bits), Exp2(bits);
    hide Pow, RPow, DigitsValue, Mant, Exp2;
    if e >= 0 {
      RPowZero(10);
      RPowNat(2, e);
      CastMul(m, Pow(2, e));
    } else {
      CastMul(m, Pow(5, -e));
      FiveOverTen(-e);
      RMulAssoc(m as real, Pow(5, -e) as real, RPow(10, e));
    }
  }
}
