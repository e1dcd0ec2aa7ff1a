/**
 Decimal literals 0.d1d2...dn * 10^e as real numbers, and the exact comparison of such a literal
 with a scaled binary significand.
 */
module Decimals {
  import opened Powers
  import opened Digits
  import opened Limbs
  import opened BigInt
  import opened Doubles

  /** The number 0.digits * 10^exp10. */
  function DecValue(digits: seq<char>, exp10: int): real {
    Times(DigitsValue(digits) as real, RPow(10, exp10 - |digits|))
  }

  /** A leading zero counts for nothing, once the exponent is moved with it. */
  lemma DropLeadingZero(digits: seq<char>, exp10: int)
    requires |digits| > 0 && digits[0] == '0'
    ensures DecValue(digits[1..], exp10 - 1) == DecValue(digits, exp10)
  {
    DigitsLeadingZero(digits);
  }

  lemma DropTrailingZero(digits: seq<char>, exp10: int)
    requires |digits| > 0 && digits[|digits| - 1] == '0'
    ensures DecValue(digits[..|digits| - 1], exp10) == DecValue(digits, exp10)
  {
    var n, d := |digits|, DigitsValue(digits[..|digits| - 1]);
    RPowStep(10, exp10 - n);
    hide RPow;
    RMulSwap(d as real, 10.0, RPow(10, exp10 - n));
    assert DigitsValue(digits) == d * 10;
    assert DigitsValue(digits) as real == d as real * 10.0;
  }

  /** With a non-zero first digit, exp10 is the decimal magnitude of the number. */
  lemma DecValueRange(digits: seq<char>, exp10: int)
    requires |digits| > 0 && AllDigits(digits) && digits[0] != '0'
    ensures RPow(10, exp10 - 1) <= DecValue(digits, exp10) < RPow(10, exp10)
  {
    hide DigitsValue, RPow, Pow;
    var n, p := |digits|, RPow(10, exp10 - |digits|);
    assert RPow(10, exp10 - 1) <= DecValue(digits, exp10) by {
      DigitsLower(digits);
      RPowAdd(10, exp10 - n, n - 1);
      RPowNat(10, n - 1);
      RMulMono(Pow(10, n - 1) as real, DigitsValue(digits) as real, p);
    }
    assert DecValue(digits, exp10) < RPow(10, exp10) by {
      DigitsBound(digits);
      RPowAdd(10, exp10 - n, n);
      RPowNat(10, n);
      RMulStrict(DigitsValue(digits) as real, Pow(10, n) as real, p);
    }
  }

  /** 5^k * 10^-k = 2^-k. */
  lemma FiveOverTen(k: int)
    requires k >= 0
    ensures Pow(5, k) as real * RPow(10, -k) == RPow(2, -k)
  {
    hide Pow, RPow;
    PowMulBase(2, 5, k);
    assert Pow(10, k) == Pow(2, k) * Pow(5, k);
    CastMul(Pow(2, k), Pow(5, k));
    RPowNat(10, k);
    RPowNat(2, k);
    RPowAdd(10, k, -k);
    RPowAdd(2, k, -k);
    RPowZero(10);
    RPowZero(2);
    var t, f := RPow(2, k), Pow(5, k) as real;
    RMulAssoc(t, f, RPow(10, -k));
    assert t * (f * RPow(10, -k)) == 1.0;
    assert t * RPow(2, -k) == 1.0;
    RPowPositive(2, k);
    RMulCancel(t, f * RPow(10, -k), RPow(2, -k));
  }

  lemma WholeTimes(d: nat, p: nat, w: real)
    ensures Times((d * p) as real, w) == Times(d as real, Times(p as real, w))
  {
    CastMul(d, p);
    RMulAssoc(d as real, p as real, w);
  }

  lemma RMulAssoc(a: real, b: real, c: real)
    ensures (a * b) * c == a * (b * c)
  {
  }

  lemma RMulMono(a: real, b: real, c: real)
    requires a <= b && c >= 0.0
    ensures a * c <= b * c && c * a <= c * b
  {
    assert (b - a) * c >= 0.0;
  }

  lemma RMulStrict(a: real, b: real, c: real)
    requires a < b && c > 0.0
    ensures a * c < b * c && c * a < c * b
  {
    assert (b - a) * c > 0.0;
  }

  function RSign(x: real): int {
    if x < 0.0 then -1 else if x == 0.0 then 0 else 1
  }

  /** b^e, or 1 when the exponent is not positive. */
  function PosPow(b: nat, e: int): (r: nat)
    requires b > 0
    ensures r > 0
  {
    if e <= 0 then 1 else Pow(b, e)
  }

  /** What a number is multiplied by when only the positive exponents of ten and two count. */
  function Factor(k10: int, k2: int): (f: nat)
    ensures f > 0
  {
    PosPow(10, k10) * PosPow(2, k2)
  }

  /** `m` times a factor that clears negative exponents. */
  function Cleared(m: nat, k10: int, k2: int): nat {
    MulNonneg(m, Factor(k10, k2));
    m * Factor(k10, k2)
  }

  /** Multiplying by what a negative exponent is missing leaves an integer power. */
  lemma ClearExponent(b: nat, e: int)
    requires b > 0
    ensures RPow(b, e) * (PosPow(b, -e) as real) == PosPow(b, e) as real
  {
    RPowZero(b);
    if e < 0 {
      InverseTimes(Pow(b, -e) as real);
    }
  }

  lemma InverseTimes(p: real)
    requires p > 0.0
    ensures 1.0 / p * p == 1.0
  {
  }

  /** The two integers whose comparison is the comparison of mant * 2^exp2 with d * 10^p10. */
  lemma Integers(mant: nat, exp2: int, d: nat, p10: int)
    ensures RSign(Times(mant as real, RPow(2, exp2)) - Times(d as real, RPow(10, p10)))
         == Sign(Cleared(mant, -p10, exp2) - Cleared(d, p10, -exp2))
  {
    hide RPow, PosPow, Sign, RSign;
    var u, w := PosPow(10, -p10), PosPow(2, -exp2);
    var k := u as real * w as real;
    var a, b := mant * (u * PosPow(2, exp2)), d * (PosPow(10, p10) * w);
    assert (mant as real * RPow(2, exp2)) * k == a as real by {
      ClearExponent(2, exp2);
      ScaledSide(mant, RPow(2, exp2), w, PosPow(2, exp2), u);
    }
    assert (d as real * RPow(10, p10)) * k == b as real by {
      ClearExponent(10, p10);
      ScaledSide(d, RPow(10, p10), u, PosPow(10, p10), w);
    }
    SameSign(mant as real * RPow(2, exp2), d as real * RPow(10, p10), k, a, b);
  }

  lemma ScaledSide(m: nat, r: real, clear: nat, i: nat, other: nat)
    requires r * clear as real == i as real
    ensures (m as real * r) * (clear as real * other as real) == (m * (other * i)) as real
    ensures other * i == i * other
  {
    CastMul(other, i);
    CastMul(m, other * i);
    var a, c, o := m as real, clear as real, other as real;
    RMulSwap(a, r, c * o);
    RMulSwap(r, c, o);
    assert (a * r) * (c * o) == a * (i as real * o);
  }

  lemma SameSign(x: real, y: real, k: real, a: int, b: int)
    requires k > 0.0 && x * k == a as real && y * k == b as real
    ensures RSign(x - y) == Sign(a - b)
  {
    ScaleCompare(x, y, k);
  }

  // ---- capacity ----

  /** The digits and exponents the comparison accepts. */
  ghost predicate InRange(exp2: int, digits: seq<char>, exp10: int) {
    && 0 < |digits| <= 1500
    && -401 <= exp10 <= 401
    && -1100 <= exp2 <= 1100
  }

  lemma CapacityIsPower()
    ensures Capacity() == Pow(2, 10240)
  {
    hide Pow;
    TwoTo32();
    PowPow(2, 32, 320);
  }

  lemma PosPowBound(b: nat, bits: nat, e: int, most: nat)
    requires 0 < b <= Pow(2, bits) && e <= most
    ensures PosPow(b, e) <= Pow(2, bits * most)
  {
    hide Pow;
    MulNonneg(bits, most);
    if e > 0 {
      PowBaseMono(b, Pow(2, bits), e);
      PowPow(2, bits, e);
      MulMono(e, most, bits);
      PowMono(2, bits * e, bits * most);
    }
  }

  /** No intermediate of the comparison reaches the capacity of a `Big`. */
  lemma FitsCapacity(mant: nat, exp2: int, digits: seq<char>, exp10: int)
    requires InRange(exp2, digits, exp10) && mant < Pow(2, 64)
    ensures var p10 := exp10 - |digits|;
            && Cleared(mant, -p10, exp2) < Capacity()
            && DigitsValue(digits) <= Cleared(DigitsValue(digits), p10, -exp2) < Capacity()
  {
    hide Pow, Capacity, DigitsValue, Factor;
    var p10 := exp10 - |digits|;
    CapacityIsPower();
    DigitsBound(digits);
    TenBits();
    PowPosBound(10, 4, |digits|, 1500);
    FactorBound(-p10, exp2, mant, 64, 2000);
    FactorBound(p10, -exp2, DigitsValue(digits), 6000, 401);
    MulAtLeast(DigitsValue(digits), Factor(p10, -exp2));
  }

  lemma TenBits()
    ensures 10 <= Pow(2, 4) && 2 <= Pow(2, 1)
  {
  }

  lemma FactorBound(k10: int, k2: int, x: nat, i: nat, most: nat)
    requires x < Pow(2, i) && k10 <= most && k2 <= 1100 && i + 4 * most + 1100 <= 10240
    ensures x * Factor(k10, k2) < Pow(2, 10240)
  {
    hide Pow, PosPow;
    TenBits();
    PosPowBound(10, 4, k10, most);
    PosPowBound(2, 1, k2, 1100);
    ThreeFactors(x, PosPow(10, k10), PosPow(2, k2), i, 4 * most, 1100);
  }

  lemma PowPosBound(b: nat, bits: nat, e: nat, most: nat)
    requires 0 < b <= Pow(2, bits) && e <= most
    ensures Pow(b, e) <= Pow(2, bits * most)
  {
    assert Pow(b, 0) == 1;
    PosPowBound(b, bits, e, most);
  }

  lemma ThreeFactors(x: nat, y: nat, z: nat, i: nat, j: nat, k: nat)
    requires x < Pow(2, i) && y <= Pow(2, j) && 0 < z <= Pow(2, k) && 0 < y && i + j + k <= 10240
    ensures x * (y * z) < Pow(2, 10240)
  {
    hide Pow;
    PowAdd(2, j, k);
    PowAdd(2, i, j + k);
    PowMono(2, i + j + k, 10240);
    MulMono(y, Pow(2, j), z);
    MulMono(z, Pow(2, k), Pow(2, j));
    MulMono(y * z, Pow(2, j + k), x);
    StrictMono(x, Pow(2, i), Pow(2, j + k));
  }

  lemma StrictMono(a: int, b: int, c: int)
    requires a < b && c > 0
    ensures a * c < b * c
  {
  }

  // ---- the comparison ----

  /** mant * 2^exp2 against 0.digits * 10^exp10, exactly: -1, 0 or 1. */
  method CmpScaled(mant: nat, exp2: int, digits: seq<char>, exp10: int) returns (c: int)
    requires mant < 0x1_0000_0000_0000_0000 && AllDigits(digits) && InRange(exp2, digits, exp10)
    ensures c == RSign(Times(mant as real, RPow(2, exp2)) - DecValue(digits, exp10))
  {
    hide Pow, PosPow, RPow, Wraps, Capacity, DigitsValue, Normal, LimbsValue, Sign, RSign, Factor, Cleared, Times;
    var p10 := exp10 - |digits|;
    ghost var dv := DigitsValue(digits);
    TwoTo64();
    FitsCapacity(mant, exp2, digits, exp10);
    var a := new Big();
    var b := new Big();
    a.SetU64(mant);
    b.FromDigits(digits);
    WrapsFits(dv, b.Value());
    RaiseBig(a, -p10, exp2);
    RaiseBig(b, p10, -exp2);
    c := a.Cmp(b);
    Integers(mant, exp2, dv, p10);
  }

  /** Multiply by whichever of 10^k10 and 2^k2 have positive exponents. */
  method RaiseBig(x: Big, k10: int, k2: int)
    requires x.Valid() && x.Trimmed()
    requires Cleared(x.Value(), k10, k2) < Capacity()
    modifies x`n, x.d
    ensures x.Valid() && x.Trimmed()
    ensures x.Value() == Cleared(old(x.Value()), k10, k2)
  {
    hide Pow, PosPow, Wraps, Capacity, Scaled, Normal, LimbsValue;
    ghost var v0, t0 := x.Value(), x.Trimmed();
    PosPowOne(10, k10);
    PosPowOne(2, k2);
    ScaledByOne(v0, t0);
    if k10 > 0 {
      x.MulPow10(k10);
    }
    ghost var v1, t1 := x.Value(), x.Trimmed();
    ScaledByOne(v1, t1);
    if k2 > 0 {
      x.Shl(k2);
      ScaledStep(v1, t1, Pow(2, k2), x.Value(), x.Trimmed());
    }
    ScaledTwice(v0, t0, PosPow(10, k10), v1, t1, PosPow(2, k2), x.Value(), x.Trimmed());
    ScaledFits(v0, t0, Factor(k10, k2), x.Value(), x.Trimmed());
  }

  lemma PosPowOne(b: nat, e: int)
    requires b > 0
    ensures e <= 0 ==> PosPow(b, e) == 1
    ensures e > 0 ==> PosPow(b, e) == Pow(b, e)
  {
  }

  lemma ScaledFits(v0: nat, t0: bool, f: nat, v: nat, t: bool)
    requires Scaled(v0, t0, f, v, t) && t0 && v0 * f < Capacity()
    ensures v == v0 * f && t
  {
    hide Wraps, Capacity;
    MulNonneg(v0, f);
    WrapsFits(v0 * f, v);
  }

  lemma TwoTo64()
    ensures Pow(2, 64) == 0x1_0000_0000_0000_0000
  {
    TwoTo32();
    PowAdd(2, 32, 32);
  }

  /** A double against a literal whose first digit is not zero. */
  method CmpDouble(bits: nat, digits: seq<char>, exp10: int) returns (c: int)
    requires Finite(bits) && AllDigits(digits) && digits != [] && digits[0] != '0'
    requires |digits| <= 1500 && -401 <= exp10 <= 401
    ensures c == RSign(Value(bits) - DecValue(digits, exp10))
  {
    hide RPow, DecValue, DigitsValue;
    var mant, exp2 := Mant(bits), Exp2(bits);
    if mant == 0 {
      DecValueRange(digits, exp10);
      return if |digits| > 0 && digits[0] != '0' then -1 else 0;
    }
    c := CmpScaled(mant, exp2, digits, exp10);
  }
}
