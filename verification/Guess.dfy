/**
 The first approximation of a decimal literal: a few correctly rounded multiplications or
 divisions by exact powers of ten, and how far from the literal they can end up.
 */
module Guess {
  import opened Powers
  import opened Doubles
  import opened Decimals
  import opened BigInt

  // ---- the processor's operations on finite or infinite non-negative doubles ----

  function Over(x: real, y: real): real
    requires y > 0.0
  {
    x / y
  }

  function FMul(a: nat, b: nat): nat
    requires Finite(b)
  {
    if a >= 0x7ff0_0000_0000_0000 then 0x7ff0_0000_0000_0000 else Round(Times(Value(a), Value(b)))
  }

  function FDiv(a: nat, b: nat): nat
    requires Finite(b)
  {
    if a >= 0x7ff0_0000_0000_0000 || Value(b) <= 0.0 then 0x7ff0_0000_0000_0000
    else Round(Over(Value(a), Value(b)))
  }

  /** The table of powers of ten up to 10^22, as doubles. */
  function Pow10Bits(k: nat): (b: nat)
    requires k <= 22
    ensures Finite(b) && Value(b) == Pow(10, k) as real
  {
    SmallPowerExact(k);
    Round(Pow(10, k) as real)
  }

  /** An integer of at most 53 bits times a power of two is a double; `j` counts the doublings that
      brought its leading bit up to the place of the implicit one. */
  lemma {:induction false} IntegerExact(m: nat, e: int, j: nat)
    requires Pow(2, j) <= m < 0x20_0000_0000_0000 && j <= 52 && 0 <= e + j && e <= 900
    ensures exists b: nat :: Finite(b) && Value(b) == m as real * RPow(2, e)
    decreases 52 - j
  {
    hide RPow;
    if m < 0x10_0000_0000_0000 {
      Pow52();
      PowDouble(j);
      hide Pow, Value;
      IntegerExact(2 * m, e - 1, j + 1);
      RPowStep(2, e - 1);
      var b: nat :| Finite(b) && Value(b) == (2 * m) as real * RPow(2, e - 1);
      RMulSwap(m as real, 2.0, RPow(2, e - 1));
      assert Value(b) == m as real * RPow(2, e);
    } else {
      hide Pow;
      var b := (e + 1075) * 0x10_0000_0000_0000 + (m - 0x10_0000_0000_0000);
      assert b / 0x10_0000_0000_0000 == e + 1075 && b % 0x10_0000_0000_0000 == m - 0x10_0000_0000_0000;
      assert Value(b) == m as real * RPow(2, e);
    }
  }

  lemma Pow52()
    ensures Pow(2, 52) == 0x10_0000_0000_0000
    ensures Pow(2, 53) == 0x20_0000_0000_0000
    ensures Pow(5, 22) < 0x20_0000_0000_0000
  {
    TwoTo32();
    assert Pow(2, 10) == 1024;
    PowAdd(2, 10, 10);
    PowAdd(2, 32, 20);
    assert Pow(2, 53) == 2 * Pow(2, 52);
    Pow5Entry(11);
    PowAdd(5, 11, 11);
  }

  lemma SmallPowerExact(k: nat)
    requires k <= 22
    ensures Finite(Round(Pow(10, k) as real)) && Value(Round(Pow(10, k) as real)) == Pow(10, k) as real
  {
    hide Pow, RPow, Value, Round;
    Pow52();
    PowMono(5, k, 22);
    PowMulBase(5, 2, k);
    assert Pow(10, k) == Pow(5, k) * Pow(2, k);
    assert Pow(2, 0) == 1 by { One(); }
    IntegerExact(Pow(5, k), k, 0);
    var b: nat :| Finite(b) && Value(b) == Pow(5, k) as real * RPow(2, k);
    RPowNat(2, k);
    CastMul(Pow(5, k), Pow(2, k));
    assert Value(b) == Pow(10, k) as real;
    RoundExact(b);
  }

  lemma PowDouble(j: nat)
    ensures Pow(2, j + 1) == 2 * Pow(2, j)
  {
  }

  lemma One()
    ensures Pow(2, 0) == 1
  {
  }

  // ---- how far one operation can stray ----

  /** Half a unit in the last place, relative to the smallest significand. */
  const EPS: real := 1.0 / 9007199254740992.0

  /** The smallest subnormal. */
  function Tiny(): (t: real)
    ensures t > 0.0
  {
    1.0 / RPow(2, 1074)
  }

  /** The gap above a double is at most its value times 2^-52, or one unit for the subnormals. */
  lemma GapBound(bits: nat)
    ensures Gap(bits) as real <= 2.0 * EPS * Units(bits) as real || Gap(bits) == 1
    ensures EPS * Units(bits) as real < Gap(bits) as real
  {
    var g, m := Gap(bits), Mant(bits);
    assert m < 0x20_0000_0000_0000;
    hide Gap, Mant;
    MulMono(m + 1, 0x20_0000_0000_0000, g);
    if bits / 0x10_0000_0000_0000 == 0 {
      SubnormalGap(bits);
    } else {
      NormalMant(bits);
      MulMono(0x10_0000_0000_0000, m, g);
    }
  }

  lemma SubnormalGap(bits: nat)
    requires bits / 0x10_0000_0000_0000 == 0
    ensures Gap(bits) == 1
  {
  }

  lemma NormalMant(bits: nat)
    requires bits / 0x10_0000_0000_0000 != 0
    ensures Mant(bits) >= 0x10_0000_0000_0000
  {
  }

  lemma HalfGap(lo: nat)
    ensures 0.0 < Value(lo + 1) - Value(lo) <= 2.0 * (EPS * Value(lo) + Tiny())
  {
    hide Value, Units, Gap, RPow, Scale;
    ValueIncrease(lo, lo + 1);
    NextUnits(lo);
    ValueUnits(lo);
    ValueUnits(lo + 1);
    GapBound(lo);
    ScaleTiny();
    DivideOut(Value(lo), Value(lo + 1), Scale(), Gap(lo) as real, EPS, Tiny());
  }

  lemma ScaleTiny()
    ensures Scale() * Tiny() == 1.0
    ensures Tiny() <= EPS
  {
    assert Scale() * Tiny() == 1.0 by {
      hide RPow;
      InverseTimes(RPow(2, 1074));
    }
    hide RPow, Pow;
    RPowNat(2, 1074);
    PowMono(2, 53, 1074);
    Pow52();
    InverseMono(9007199254740992.0, RPow(2, 1074));
  }

  lemma InverseMono(a: real, b: real)
    requires 0.0 < a <= b
    ensures 1.0 / b <= 1.0 / a
  {
    InverseTimes(a);
    InverseTimes(b);
    var x, y := 1.0 / a, 1.0 / b;
    if y > x {
      RMulStrict(x, y, a);
      RMulMono(a, b, y);
    }
  }

  lemma DivideOut(v: real, w: real, s: real, g: real, eps: real, tiny: real)
    requires s > 0.0 && s * tiny == 1.0 && v >= 0.0 && eps >= 0.0
    requires w * s == v * s + g
    requires g <= 2.0 * eps * (v * s) || g <= 1.0
    ensures w - v <= 2.0 * (eps * v + tiny)
  {
    var bound := 2.0 * (eps * v + tiny);
    assert bound * s == 2.0 * (eps * (v * s)) + 2.0 by {
      RMulSwap(eps, v, s);
    }
    assert eps * (v * s) >= 0.0;
    if w - v > bound {
      RMulStrict(bound, w - v, s);
    }
  }

  /** Half a gap above the largest finite double is where overflow begins. */
  lemma TopGap()
    ensures RPow(2, 970) <= EPS * Value(0x7fef_ffff_ffff_ffff) + Tiny()
  {
    hide RPow;
    RPowStep(2, 970);
    assert Mant(0x7fef_ffff_ffff_ffff) == 0x1f_ffff_ffff_ffff && Exp2(0x7fef_ffff_ffff_ffff) == 971;
    var p := RPow(2, 970);
    assert Value(0x7fef_ffff_ffff_ffff) == 9007199254740991.0 * (2.0 * p);
  }

  /** A result that did not overflow is within half a gap of the exact value. */
  lemma RoundError(y: real)
    requires 0.0 <= y < OverflowAt()
    ensures Finite(Round(y))
    ensures Abs(Value(Round(y)) - y) <= Times(EPS, y) + Tiny()
  {
    hide Value, RPow, Round;
    ValueZero();
    var lo := FloorIn(y, 0, 0x7ff0_0000_0000_0000);
    FloorInBrackets(y, 0, 0x7ff0_0000_0000_0000);
    RoundIsNearest(y);
    HalfGap(lo);
    if lo == 0x7fef_ffff_ffff_ffff {
      TopGap();
    } else {
      ValueMonotone(lo + 1, 0x7fef_ffff_ffff_ffff);
    }
  }

  // ---- the chain of operations ----

  /** `v` approximates `y` to a relative error `a` and an absolute error `b`. */
  ghost predicate Close(v: real, y: real, a: real, b: real) {
    Abs(v - y) <= Times(a, y) + b
  }

  /** A rounded multiplication by at least one adds at most four EPS to the relative error. */
  lemma MulClose(v: real, y: real, c: real, a: real, w: real, eps: real, tiny: real)
    requires Close(v, y, a, 0.0) && y >= 1.0 && c >= 1.0 && 0.0 <= a <= 0.25
    requires 0.0 <= tiny <= eps && Abs(w - Times(v, c)) <= Times(eps, Times(v, c)) + tiny
    ensures Times(y, c) >= 1.0 && Close(w, Times(y, c), a + 4.0 * eps, 0.0)
  {
    hide Times;
    TimesUp(y, c);
    ErrorTimes(v, y, c, a, 0.0);
    assert Times(0.0, c) == 0.0 by { TimesLinear(0.0, 0.0, c); }
    RoundedProduct(Times(v, c), Times(y, c), a, w, eps, tiny);
  }

  lemma RoundedProduct(d: real, z: real, a: real, w: real, eps: real, tiny: real)
    requires Close(d, z, a, 0.0) && z >= 1.0 && 0.0 <= a <= 0.25
    requires 0.0 <= tiny <= eps && Abs(w - d) <= Times(eps, d) + tiny
    ensures Close(w, z, a + 4.0 * eps, 0.0)
  {
    hide Times;
    TimesMono(a, 0.25, z);
    TimesBelow(d, 1.25, z, 0.0, 0.0, eps);
    TimesBelow(1.0, 1.0, z, 0.0, 0.0, eps);
    TimesLinear(a, eps, z);
  }

  // products, kept apart from the sums they enter

  lemma TimesMono(a: real, b: real, z: real)
    requires a <= b && z >= 0.0
    ensures a * z == Times(a, z) <= Times(b, z) == b * z
  {
    RMulMono(a, b, z);
  }

  lemma TimesLinear(a: real, b: real, z: real)
    ensures Times(a + 4.0 * b, z) == Times(a, z) + 4.0 * Times(b, z)
    ensures Times(0.0, z) == 0.0
  {
    RDistrib(a, 4.0 * b, z);
    RMulAssoc(4.0, b, z);
  }

  /** `eps` times a bound of two terms. */
  lemma TimesBelow(q: real, k: real, z: real, l: real, t: real, eps: real)
    requires q <= k * z + l * t && eps >= 0.0
    ensures Times(eps, q) <= k * Times(eps, z) + l * Times(eps, t)
    ensures Times(eps, 1.0) == eps
  {
    var room := k * z + l * t - q;
    assert eps * room >= 0.0;
    RMulSwap(eps, k, z);
    RMulSwap(eps, l, t);
    RDistrib(k * z + l * t, q, eps);
    RDistrib(k * z, l * t, eps);
  }

  lemma TimesUp(x: real, c: real)
    requires x >= 0.0 && c >= 1.0
    ensures Times(x, c) >= x
  {
    RMulMono(1.0, c, x);
  }

  /** Both sides times a factor. */
  lemma ErrorTimes(v: real, y: real, c: real, a: real, b: real)
    requires Close(v, y, a, b) && c >= 0.0
    ensures Close(Times(v, c), Times(y, c), a, Times(b, c))
  {
    RDistrib(v, y, c);
    RMulMono(v - y, a * y + b, c);
    RMulMono(-(a * y + b), v - y, c);
    RDistrib(a * y, b, c);
    RMulAssoc(a, y, c);
  }

  lemma RDistrib(a: real, b: real, c: real)
    ensures (a - b) * c == a * c - b * c
    ensures (a + b) * c == a * c + b * c
    ensures (-a) * c == -(a * c)
  {
  }

  /** A rounded division by at least ten keeps the absolute error below two of the smallest doubles. */
  lemma DivClose(v: real, y: real, c: real, a: real, b: real, q: real, z: real, w: real, eps: real, tiny: real)
    requires Close(v, y, a, b) && y >= 0.0 && c >= 10.0 && 0.0 <= a <= 0.25 && 0.0 <= b <= 2.0 * tiny
    requires Times(q, c) == v && Times(z, c) == y
    requires 0.0 <= eps <= 0.25 && 0.0 <= tiny && Abs(w - q) <= Times(eps, q) + tiny
    ensures z >= 0.0 && Close(w, z, a + 4.0 * eps, 2.0 * tiny)
  {
    hide Times;
    assert z >= 0.0 by {
      if z < 0.0 {
        TimesNegative(z, c);
      }
    }
    ErrorOver(q, z, c, a, b);
    RoundedQuotient(q, z, a, b, w, eps, tiny);
  }

  lemma TimesNegative(z: real, c: real)
    requires z < 0.0 < c
    ensures Times(z, c) < 0.0
  {
    RMulStrict(z, 0.0, c);
  }

  lemma RoundedQuotient(q: real, z: real, a: real, b: real, w: real, eps: real, tiny: real)
    requires Close(q, z, a, b / 10.0) && z >= 0.0 && 0.0 <= a <= 0.25 && 0.0 <= b <= 2.0 * tiny
    requires 0.0 <= eps <= 0.25 && 0.0 <= tiny && Abs(w - q) <= Times(eps, q) + tiny
    ensures Close(w, z, a + 4.0 * eps, 2.0 * tiny)
  {
    hide Times;
    TimesMono(a, 0.25, z);
    TimesBelow(q, 1.25, z, 0.2, tiny, eps);
    TimesMono(eps, 0.25, tiny);
    TimesMono(0.0, eps, z);
    TimesLinear(a, eps, z);
  }

  /** Both sides divided by at least ten. */
  lemma ErrorOver(q: real, z: real, c: real, a: real, b: real)
    requires c >= 10.0 && b >= 0.0 && Close(Times(q, c), Times(z, c), a, b)
    ensures Close(q, z, a, b / 10.0)
  {
    var e := a * z + b / 10.0;
    RDistrib(q, z, c);
    assert e * c >= a * (z * c) + b by {
      RMulAssoc(a, z, c);
      RMulMono(10.0, c, b / 10.0);
      RDistrib(a * z, b / 10.0, c);
    }
    if q - z > e {
      RMulStrict(e, q - z, c);
    }
    if -e > q - z {
      RMulStrict(q - z, -e, c);
      RDistrib(e, 0.0, c);
    }
  }

  /** So large that the largest finite double is as close as the approximation needs to be. */
  ghost predicate NearTop(z: real) {
    z + 100.0 * EPS * Value(0x7fef_ffff_ffff_ffff) >= Value(0x7fef_ffff_ffff_ffff)
  }

  /** The relative error allowed after `s` operations on the leading digits. */
  function Budget(s: nat): real {
    (8.0 + 4.0 * s as real) * EPS
  }

  lemma BudgetStep(s: nat)
    requires s <= 22
    ensures Budget(s + 1) == Budget(s) + 4.0 * EPS
    ensures 0.0 <= Budget(s) <= 96.0 * EPS <= 0.25
    ensures Budget(22) == 96.0 * EPS && Budget(0) == 8.0 * EPS
  {
    RDistrib(8.0 + 4.0 * s as real, 4.0, EPS);
    RMulMono(8.0 + 4.0 * s as real, 96.0, EPS);
  }

  /** The approximation `r` of `z` after `s` roundings; infinity stands for anything near the top. */
  ghost predicate Approximates(r: nat, z: real, s: nat, b: real) {
    && r <= 0x7ff0_0000_0000_0000
    && (Finite(r) ==> Close(Value(r), z, Budget(s), b))
    && (!Finite(r) ==> NearTop(z))
  }

  lemma MulStep10(r: nat, j: nat, z: real, z': real, s: nat)
    requires j <= 22 && s <= 22 && z >= 1.0 && Approximates(r, z, s, 0.0)
    requires z' == Times(z, Pow(10, j) as real)
    ensures z' >= 1.0
    ensures Approximates(FMul(r, Pow10Bits(j)), z', s + 1, 0.0)
  {
    hide Value, Round, Approximates, FMul, Pow10Bits, Pow, Times;
    MulStepBy(r, Pow10Bits(j), z, s);
  }

  lemma MulStepBy(r: nat, p: nat, z: real, s: nat)
    requires Finite(p) && Value(p) >= 1.0 && s <= 22 && z >= 1.0 && Approximates(r, z, s, 0.0)
    ensures Times(z, Value(p)) >= 1.0
    ensures Approximates(FMul(r, p), Times(z, Value(p)), s + 1, 0.0)
  {
    hide RPow, Value, Round, Budget, OverflowAt, Close, NearTop, Times;
    ValueZero();
    TimesUp(z, Value(p));
    if Finite(r) {
      TimesUp(Value(r), Value(p));
      if Times(Value(r), Value(p)) < OverflowAt() {
        ProductInRange(Value(r), Value(p), z, s);
      } else {
        ProductOverflows(Value(r), Value(p), z, s);
      }
    } else {
      NearTopUp(z, Times(z, Value(p)));
    }
  }

  lemma NearTopUp(z: real, z': real)
    requires NearTop(z) && z <= z'
    ensures NearTop(z')
  {
    hide Value;
  }

  lemma ProductInRange(v: real, c: real, z: real, s: nat)
    requires s <= 22 && z >= 1.0 && c >= 1.0 && Close(v, z, Budget(s), 0.0)
    requires 0.0 <= Times(v, c) < OverflowAt()
    ensures Finite(Round(Times(v, c))) && Close(Value(Round(Times(v, c))), Times(z, c), Budget(s + 1), 0.0)
  {
    hide RPow, Value, Round, Budget, OverflowAt, Close, Tiny, Times;
    BudgetStep(s);
    var w := Round(Times(v, c));
    RoundError(Times(v, c));
    ScaleTiny();
    MulClose(v, z, c, Budget(s), Value(w), EPS, Tiny());
  }

  lemma ProductOverflows(v: real, c: real, z: real, s: nat)
    requires s <= 22 && z >= 1.0 && c >= 1.0 && Close(v, z, Budget(s), 0.0)
    requires Times(v, c) >= OverflowAt() && 0.0 <= Times(v, c)
    ensures Round(Times(v, c)) == 0x7ff0_0000_0000_0000 && NearTop(Times(z, c))
  {
    hide RPow, Value, Round, Budget, OverflowAt, Close, NearTop, Times;
    BudgetStep(s);
    RoundIsNearest(Times(v, c));
    ErrorTimes(v, z, c, Budget(s), 0.0);
    TimesLinear(0.0, 0.0, c);
    OverflowNearTop(Times(v, c), Times(z, c), Budget(s));
  }

  lemma OverflowNearTop(d: real, z: real, a: real)
    requires d >= OverflowAt() && Close(d, z, a, 0.0) && 0.0 <= a <= 100.0 * EPS
    ensures NearTop(z)
  {
    hide RPow, Value;
    ValueZero();
    TopBelowOverflow();
    NearTopBound(d, z, a, Value(0x7fef_ffff_ffff_ffff), 100.0 * EPS);
  }

  lemma NearTopBound(d: real, z: real, a: real, top: real, most: real)
    requires d >= top >= 0.0 && Close(d, z, a, 0.0) && 0.0 <= a <= most
    ensures z + most * top >= top
  {
    if z < top {
      RMulMono(z, top, a);
      RMulMono(a, most, top);
    } else {
      RMulMono(0.0, most, top);
    }
  }

  lemma TopBelowOverflow()
    ensures Value(0x7fef_ffff_ffff_ffff) < OverflowAt()
  {
    hide Value;
  }

  lemma DivStep10(r: nat, j: nat, z: real, z': real, s: nat)
    requires 1 <= j <= 22 && s <= 22 && z >= 0.0 && Finite(r) && Approximates(r, z, s, 2.0 * Tiny())
    requires Times(z', Pow(10, j) as real) == z
    ensures z' >= 0.0 && Finite(FDiv(r, Pow10Bits(j)))
    ensures Approximates(FDiv(r, Pow10Bits(j)), z', s + 1, 2.0 * Tiny())
  {
    PowTen(j);
    hide Value, Round, Approximates, FDiv, Pow10Bits, Pow, Tiny, RPow, Times;
    DivStepBy(r, Pow10Bits(j), z, z', s);
  }

  lemma PowTen(j: nat)
    requires j >= 1
    ensures Pow(10, j) >= 10
  {
  }

  lemma DivStepBy(r: nat, p: nat, z: real, z': real, s: nat)
    requires Finite(p) && Value(p) >= 10.0 && s <= 22 && z >= 0.0 && Finite(r)
    requires Approximates(r, z, s, 2.0 * Tiny()) && Times(z', Value(p)) == z
    ensures z' >= 0.0 && Finite(FDiv(r, p))
    ensures Approximates(FDiv(r, p), z', s + 1, 2.0 * Tiny())
  {
    hide RPow, Value, Round, Budget, OverflowAt, Tiny, Close, NearTop, Times, Over;
    ValueZero();
    ValueMonotone(r, 0x7fef_ffff_ffff_ffff);
    QuotientInRange(Value(r), Value(p), z, z', s);
  }

  lemma QuotientInRange(v: real, c: real, z: real, z': real, s: nat)
    requires s <= 22 && z >= 0.0 && c >= 10.0 && Close(v, z, Budget(s), 2.0 * Tiny()) && Times(z', c) == z
    requires 0.0 <= v <= Value(0x7fef_ffff_ffff_ffff)
    ensures z' >= 0.0 && Finite(Round(Over(v, c)))
    ensures Close(Value(Round(Over(v, c))), z', Budget(s + 1), 2.0 * Tiny())
  {
    hide RPow, Value, Round, Budget, OverflowAt, Tiny, Close, Over, Times;
    BudgetStep(s);
    ScaleTiny();
    TopBelowOverflow();
    QuotientTimes(v, c);
    var q := Over(v, c);
    QuotientRange(q, c, v);
    RoundError(q);
    DivClose(v, z, c, Budget(s), 2.0 * Tiny(), q, z', Value(Round(q)), EPS, Tiny());
  }

  lemma QuotientTimes(v: real, c: real)
    requires c > 0.0
    ensures Times(Over(v, c), c) == v
  {
  }

  lemma QuotientRange(q: real, c: real, v: real)
    requires c >= 1.0 && Times(q, c) == v >= 0.0
    ensures 0.0 <= q <= v
  {
    if q < 0.0 {
      RMulStrict(q, 0.0, c);
    } else {
      RMulMono(1.0, c, q);
    }
  }

  /** The number `y` moved by `e` decimal places. */
  ghost function Shifted(y: real, e: int): real {
    y * RPow(10, e)
  }

  lemma ShiftedUp(y: real, e: int, j: nat)
    ensures Shifted(y, e + j) == Times(Shifted(y, e), Pow(10, j) as real)
    ensures Shifted(y, 0) == y
  {
    hide RPow, Pow;
    RPowZero(10);
    RPowAdd(10, e, j);
    RPowNat(10, j);
    RMulAssoc(y, RPow(10, e), RPow(10, j));
  }

  /** Scale `v` by 10^k in steps of at most 10^22; `y` is the number `v` approximates. */
  method ScalePow10(v: nat, k: int, ghost y: real) returns (r: nat)
    requires Finite(v) && y >= 1.0 && Close(Value(v), y, 8.0 * EPS, 0.0)
    requires -440 <= k <= 440
    ensures Approximates(r, Shifted(y, k), 22, 2.0 * Tiny())
  {
    hide RPow, Pow, Value, FMul, FDiv, Close, NearTop, Budget, Shifted, Approximates, Tiny, Pow10Bits, Times, Over;
    Unscaled(v, y);
    r := v;
    var left := k;
    ghost var s: nat := 0;
    while left >= 22
      invariant k - left == 22 * s && (k >= 0 ==> left >= 0) && (k < 22 ==> left == k && r == v)
      invariant Shifted(y, k - left) >= 1.0 && Approximates(r, Shifted(y, k - left), s, 0.0)
    {
      ShiftedUp(y, k - left, 22);
      MulStep10(r, 22, Shifted(y, k - left), Shifted(y, k - left + 22), s);
      r := FMul(r, Pow10Bits(22));
      left := left - 22;
      s := s + 1;
    }
    if left > 0 {
      ShiftedUp(y, k - left, left);
      MulStep10(r, left, Shifted(y, k - left), Shifted(y, k), s);
      r := FMul(r, Pow10Bits(left));
      left := 0;
      s := s + 1;
    }
    Loosen(r, Shifted(y, k - left), s, s, 0.0);
    while left <= -22
      invariant k < 0 ==> left - k == 22 * s && left <= 0 && Finite(r)
      invariant k >= 0 ==> left == 0 && s <= 22
      invariant Shifted(y, k - left) >= 0.0
      invariant Approximates(r, Shifted(y, k - left), s, 2.0 * Tiny())
      decreases -left
    {
      ShiftedUp(y, k - left - 22, 22);
      DivStep10(r, 22, Shifted(y, k - left), Shifted(y, k - left - 22), s);
      r := FDiv(r, Pow10Bits(22));
      left := left + 22;
      s := s + 1;
    }
    if left < 0 {
      ShiftedUp(y, k, -left);
      DivStep10(r, -left, Shifted(y, k - left), Shifted(y, k), s);
      r := FDiv(r, Pow10Bits(-left));
      left := 0;
      s := s + 1;
    }
    Loosen(r, Shifted(y, k), s, 22, 2.0 * Tiny());
  }

  lemma Unscaled(v: nat, y: real)
    requires Finite(v) && Close(Value(v), y, 8.0 * EPS, 0.0)
    ensures Shifted(y, 0) == y && Approximates(v, y, 0, 0.0)
  {
    hide RPow, Value;
    ShiftedUp(y, 0, 0);
    BudgetStep(0);
  }

  lemma Loosen(r: nat, z: real, s: nat, t: nat, b: real)
    requires z >= 0.0 && s <= t && 0.0 <= b <= 2.0 * Tiny() && Approximates(r, z, s, b)
    ensures Approximates(r, z, t, 2.0 * Tiny())
  {
    hide Value, RPow;
    RMulMono(8.0 + 4.0 * s as real, 8.0 + 4.0 * t as real, EPS);
    RMulMono(Budget(s), Budget(t), z);
  }

  // ---- from an error bound to a count of doubles ----

  /** An approximation this good is within 299 doubles of the literal's own place. */
  lemma GuessIsNear(r: nat, x: real)
    requires x > 0.0 && Approximates(r, x, 22, 2.0 * Tiny())
    ensures var t, g := FloorIn(x, 0, 0x7ff0_0000_0000_0000), if Finite(r) then r else 0x7fef_ffff_ffff_ffff;
            -299 <= g - t <= 299
  {
    hide Value, RPow, Units, Gap, Scale, Approximates;
    ValueZero();
    var t := FloorIn(x, 0, 0x7ff0_0000_0000_0000);
    FloorInBrackets(x, 0, 0x7ff0_0000_0000_0000);
    if !Finite(r) {
      InfiniteIsNear(r, x, t);
    } else if r <= t {
      BelowIsNear(r, x, t);
    } else {
      AboveIsNear(r, x, t);
    }
  }

  ghost function InUnits(x: real): real {
    Times(x, Scale())
  }

  lemma InUnitsMono(x: real, y: real)
    requires x <= y
    ensures InUnits(x) <= InUnits(y)
    ensures InUnits(0.0) == 0.0
  {
    hide RPow;
    RMulMono(x, y, Scale());
  }

  lemma InUnitsValue(bits: nat)
    ensures InUnits(Value(bits)) == Units(bits) as real
  {
    hide Value, Units, Scale;
    ValueUnits(bits);
  }

  lemma InfiniteIsNear(r: nat, x: real, t: nat)
    requires x > 0.0 && !Finite(r) && Approximates(r, x, 22, 2.0 * Tiny()) && t <= 0x7fef_ffff_ffff_ffff
    requires Value(t) <= x && (t == 0x7fef_ffff_ffff_ffff || x < Value(t + 1))
    ensures 0x7fef_ffff_ffff_ffff - t <= 299
  {
    hide Value, Units, Gap, InUnits, Tiny;
    var top := 0x7fef_ffff_ffff_ffff;
    if t < top {
      FloorUnits(t, x);
      InUnitsValue(top);
      NearTopUnits(x);
      UnitsApart(t, top);
      TopRoom(Units(top) as real, Units(t) as real, InUnits(x), Gap(t) as real, EPS);
      CountSteps(top - t, Gap(t), Units(top) as real - Units(t) as real);
    }
  }

  lemma BelowIsNear(r: nat, x: real, t: nat)
    requires x > 0.0 && Finite(r) && r <= t && Approximates(r, x, 22, 2.0 * Tiny())
    requires Value(t) <= x
    ensures t - r <= 299
  {
    hide Value, Units, Gap, InUnits, Tiny;
    BudgetStep(22);
    InUnitsValue(t);
    InUnitsMono(Value(t), x);
    InUnitsValue(r);
    GapBound(r);
    CloseUnits(Value(r), x);
    UnitsApart(r, t);
    BelowRoom(Units(r) as real, Units(t) as real, InUnits(x), Gap(r) as real, EPS);
    CountSteps(t - r, Gap(r), Units(t) as real - Units(r) as real);
  }

  lemma AboveIsNear(r: nat, x: real, t: nat)
    requires x > 0.0 && Finite(r) && t < r && Approximates(r, x, 22, 2.0 * Tiny())
    requires Value(t) <= x < Value(t + 1)
    ensures r - t <= 299
  {
    hide Value, Units, Gap, InUnits, Tiny;
    BudgetStep(22);
    FloorUnits(t, x);
    InUnitsValue(r);
    CloseUnits(Value(r), x);
    UnitsApart(t, r);
    AboveRoom(Units(r) as real, Units(t) as real, InUnits(x), Gap(t) as real, EPS);
    CountSteps(r - t, Gap(t), Units(r) as real - Units(t) as real);
  }

  /** Where a number lies between a double and the next, in units. */
  lemma FloorUnits(t: nat, x: real)
    requires Value(t) <= x < Value(t + 1)
    ensures Units(t) as real <= InUnits(x) <= Units(t) as real + Gap(t) as real
    ensures EPS * Units(t) as real < Gap(t) as real
  {
    hide Value, Units, Gap, InUnits;
    InUnitsValue(t);
    InUnitsValue(t + 1);
    NextUnits(t);
    GapBound(t);
    InUnitsMono(Value(t), x);
    InUnitsMono(x, Value(t + 1));
  }

  lemma BelowRoom(R: real, T: real, X: real, g: real, eps: real)
    requires 0.0 <= R <= T <= X && g >= 1.0 && 0.0 <= eps <= 0.001
    requires X - R <= 96.0 * (eps * X) + 2.0 && eps * R < g
    ensures T - R < 300.0 * g
  {
    var eX := eps * X;
    var Y := 96.0 * eX + 2.0;
    RMulMono(X, R + Y, eps);
    RDistrib(R, Y, eps);
    assert eX <= eps * R + eps * Y;
    RMulMono(0.0, X, eps);
    assert Y >= 0.0;
    RMulMono(eps, 0.001, Y);
    assert eps * Y <= 0.001 * Y;
    assert eX <= g + 0.096 * eX + 0.002;
    assert Y <= 300.0 * g;
  }

  lemma AboveRoom(R: real, T: real, X: real, g: real, eps: real)
    requires 0.0 <= T <= X <= T + g && g >= 1.0 && 0.0 <= eps <= 0.001
    requires R - X <= 96.0 * (eps * X) + 2.0 && eps * T < g
    ensures R - T < 300.0 * g
  {
    var eX := eps * X;
    RMulMono(X, T + g, eps);
    RDistrib(T, g, eps);
    assert eX <= eps * T + eps * g;
    RMulMono(eps, 0.001, g);
    assert eX <= 1.001 * g;
    assert R - T <= 96.0 * eX + 2.0 + g;
  }

  lemma TopRoom(M: real, T: real, X: real, g: real, eps: real)
    requires 0.0 <= T <= X <= T + g && 0.0 <= M && g >= 1.0 && 0.0 <= eps <= 0.001
    requires X + 100.0 * (eps * M) >= M && eps * T < g
    ensures M - T < 300.0 * g
  {
    var eM, eX := eps * M, eps * X;
    RMulMono(M, X + 100.0 * eM, eps);
    RDistrib(X, 100.0 * eM, eps);
    assert eM <= eX + eps * (100.0 * eM);
    RMulMono(0.0, M, eps);
    RMulMono(eps, 0.001, 100.0 * eM);
    assert eM <= eX + 0.1 * eM;
    RMulMono(X, T + g, eps);
    RDistrib(T, g, eps);
    assert eX <= eps * T + eps * g;
    RMulMono(eps, 0.001, g);
    assert eX <= 1.001 * g;
    assert eM <= 1.2 * g;
    assert M - T <= 100.0 * eM + g;
  }

  lemma CloseUnits(v: real, x: real)
    requires Close(v, x, 96.0 * EPS, 2.0 * Tiny())
    ensures Abs(InUnits(v) - InUnits(x)) <= 96.0 * (EPS * InUnits(x)) + 2.0
  {
    ScaleTiny();
    hide Scale, Tiny;
    CloseScaled(v, x, Scale(), Tiny(), EPS);
  }

  lemma CloseScaled(v: real, x: real, s: real, tiny: real, eps: real)
    requires s > 0.0 && s * tiny == 1.0 && Close(v, x, 96.0 * eps, 2.0 * tiny)
    ensures Abs(Times(v, s) - Times(x, s)) <= 96.0 * (eps * Times(x, s)) + 2.0
  {
    ErrorTimes(v, x, s, 96.0 * eps, 2.0 * tiny);
    RMulAssoc(96.0, eps, x * s);
    RMulAssoc(2.0, tiny, s);
  }

  lemma NearTopUnits(x: real)
    requires NearTop(x)
    ensures var top := InUnits(Value(0x7fef_ffff_ffff_ffff)); InUnits(x) + 100.0 * (EPS * top) >= top
  {
    hide Scale, Value;
    NearTopScaled(x, Value(0x7fef_ffff_ffff_ffff), Scale(), EPS);
  }

  lemma NearTopScaled(x: real, top: real, s: real, eps: real)
    requires s > 0.0 && x + 100.0 * eps * top >= top
    ensures x * s + 100.0 * (eps * (top * s)) >= top * s
  {
    RMulMono(top, x + 100.0 * eps * top, s);
    RDistrib(x, 100.0 * eps * top, s);
    RMulAssoc(100.0 * eps, top, s);
    RMulAssoc(100.0, eps, top * s);
  }

  /** `n` gaps that fit in fewer than 300 gaps are fewer than 300. */
  lemma CountSteps(n: nat, gap: nat, room: real)
    requires gap > 0 && (n * gap) as real <= room && room < 300.0 * gap as real
    ensures n <= 299
  {
    if n >= 300 {
      MulMono(300, n, gap);
    }
  }
}
