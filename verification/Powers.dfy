/**
 Natural and real powers, and the few laws of them the rest of the project uses.
 */
module Powers {

  function Pow(b: nat, e: nat): (r: nat)
    ensures b > 0 ==> r > 0
  {
    if e == 0 then 1 else b * Pow(b, e - 1)
  }

  lemma {:induction false} PowAdd(b: nat, x: nat, y: nat)
    ensures Pow(b, x + y) == Pow(b, x) * Pow(b, y)
  {
    if x == 0 {
    } else {
      PowAdd(b, x - 1, y);
      MulAssoc(b, Pow(b, x - 1), Pow(b, y));
    }
  }

  lemma {:induction false} PowMulBase(a: nat, b: nat, e: nat)
    ensures Pow(a * b, e) == Pow(a, e) * Pow(b, e)
  {
    if e > 0 {
      PowMulBase(a, b, e - 1);
      MulSwap(a, b, Pow(a, e - 1), Pow(b, e - 1));
    }
  }

  lemma {:induction false} PowPow(b: nat, x: nat, y: nat)
    ensures 0 <= x * y
    ensures Pow(Pow(b, x), y) == Pow(b, x * y)
  {
    if y == 0 {
      assert x * y == 0;
    } else {
      PowPow(b, x, y - 1);
      assert x * y == x + x * (y - 1);
      PowAdd(b, x, x * (y - 1));
    }
  }

  lemma {:induction false} PowMono(b: nat, x: nat, y: nat)
    requires b > 0 && x <= y
    ensures Pow(b, x) <= Pow(b, y)
  {
    PowAdd(b, x, y - x);
    MulAtLeast(Pow(b, x), Pow(b, y - x));
  }

  lemma {:induction false} PowStrict(b: nat, x: nat, y: nat)
    requires b > 1 && x < y
    ensures Pow(b, x) < Pow(b, y)
  {
    PowMono(b, x + 1, y);
    assert Pow(b, x + 1) == b * Pow(b, x);
    assert b * Pow(b, x) >= 2 * Pow(b, x) by { MulMono(2, b, Pow(b, x)); }
  }

  lemma {:induction false} PowBaseMono(a: nat, b: nat, e: nat)
    requires a <= b
    ensures Pow(a, e) <= Pow(b, e)
  {
    if e > 0 {
      PowBaseMono(a, b, e - 1);
      MulMono(a, b, Pow(a, e - 1));
      MulMono(Pow(a, e - 1), Pow(b, e - 1), b);
    }
  }

  lemma MulAssoc(a: int, b: int, c: int)
    ensures (a * b) * c == a * (b * c)
  {
  }

  lemma MulDistrib(a: int, b: int, c: int)
    ensures a * (b + c) == a * b + a * c
    ensures (b + c) * a == b * a + c * a
    ensures a * (b - c) == a * b - a * c
    ensures (b - c) * a == b * a - c * a
  {
  }

  lemma MulSwap(a: int, b: int, p: int, q: int)
    ensures (a * b) * (p * q) == (a * p) * (b * q)
  {
    MulAssoc(a, b, p * q);
    MulAssoc(b, p, q);
    MulAssoc(p, b, q);
    MulAssoc(a, p, b * q);
  }

  lemma MulMono(a: int, b: int, c: int)
    requires a <= b && 0 <= c
    ensures a * c <= b * c && c * a <= c * b
  {
  }

  lemma MulNonneg(a: int, b: int)
    requires 0 <= a && 0 <= b
    ensures 0 <= a * b
  {
  }

  lemma MulAtLeast(a: nat, b: nat)
    requires b > 0
    ensures a <= a * b
  {
  }

  /** `q` is the quotient and `r` the remainder of `a` by `m`. */
  lemma DivModUnique(a: nat, m: nat, q: nat, r: nat)
    requires m > 0 && r < m && a == q * m + r
    ensures a / m == q && a % m == r
  {
    if q < a / m {
      MulMono(q + 1, a / m, m);
    } else if a / m < q {
      MulMono(a / m + 1, q, m);
    }
  }

  lemma DroppedMultiple(exact: int, v: nat, dropped: nat, c: nat)
    requires v < c && exact == v + dropped * c
    ensures exact >= 0 && exact % c == v
    ensures exact < c <==> dropped == 0
  {
    if dropped == 0 {
    } else {
      MulMono(1, dropped, c);
    }
    DivModUnique(exact, c, dropped, v);
  }

  lemma ModAddMultiple(a: nat, k: nat, m: nat)
    requires m > 0
    ensures 0 <= k * m
    ensures (a + k * m) % m == a % m
  {
    var q := a / m;
    assert a == q * m + a % m;
    assert (q + k) * m == q * m + k * m;
    DivModUnique(a + k * m, m, q + k, a % m);
  }

  /** A factor reduced modulo `m` does not change the product modulo `m`. */
  lemma ModMul(a: nat, b: nat, m: nat)
    requires m > 0
    ensures 0 <= (a % m) * b && 0 <= a * b
    ensures ((a % m) * b) % m == (a * b) % m
  {
    var q, r := a / m, a % m;
    assert a == q * m + r;
    MulDistrib(b, q * m, r);
    MulAssoc(q, b, m);
    MulAssoc(q, m, b);
    MulNonneg(r, b);
    MulNonneg(q, b);
    ModAddMultiple(r * b, q * b, m);
  }

  lemma ModAdd(a: nat, b: nat, m: nat)
    requires m > 0
    ensures ((a % m) + b) % m == (a + b) % m
  {
    var q := a / m;
    assert a == q * m + a % m;
    ModAddMultiple((a % m) + b, q, m);
  }
}
