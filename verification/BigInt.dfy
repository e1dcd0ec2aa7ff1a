/**
 The fixed-capacity big integer of the decimal conversions: a count of limbs in use and a buffer
 of 320 limbs, changed in place. Each operation is exact modulo the capacity, 2^10240, because
 a carry out of the last limb is dropped; it is exact outright whenever the result fits, and then
 it also keeps the top limb non-zero.
 */
module BigInt {
  import opened Powers
  import opened Limbs
  import opened Digits

  class Big {
    var n: nat
    const d: array<uint32>

    constructor ()
      ensures Valid() && fresh(d) && n == 0
    {
      n := 0;
      d := new uint32[CAPACITY_LIMBS];
    }

    ghost predicate Valid()
      reads this
    {
      d.Length == CAPACITY_LIMBS && n <= CAPACITY_LIMBS
    }

    ghost function Value(): (v: nat)
      requires Valid()
      reads this, d
      ensures v < Capacity()
    {
      CapacityBound(d[..n]);
      LimbsValue(d[..n])
    }

    /** The limbs in use have no leading zero. */
    ghost predicate Trimmed()
      requires Valid()
      reads this, d
    {
      Normal(d[..n])
    }

    method SetU64(v: nat)
      requires Valid() && v < 0x1_0000_0000_0000_0000
      modifies this`n, d
      ensures Valid() && Trimmed() && Value() == v
    {
      hide LimbsValue, Weight;
      n := 0;
      SetStart(v, d[..0]);
      var rest := v;
      while rest != 0
        invariant Valid() && n <= 2
        invariant (n == 0 ==> rest == v) && (n == 1 ==> rest < 0x1_0000_0000) && (n == 2 ==> rest == 0)
        invariant SetPrefix(v, d[..n], rest)
        decreases rest
      {
        ghost var low := d[..n];
        d[n] := rest % 0x1_0000_0000;
        n := n + 1;
        assert d[..n] == low + [rest % 0x1_0000_0000];
        SetStep(v, low, rest);
        rest := rest / 0x1_0000_0000;
      }
      SetEnd(v, d[..n]);
    }

    method MulSmall(m: uint32)
      requires Valid()
      modifies this`n, d
      ensures Valid()
      ensures Wraps(old(Value()) * m, Value())
      ensures old(Trimmed()) && m > 0 && old(Value()) * m < Capacity() ==> Trimmed()
    {
      hide LimbsValue, Weight, Wraps, Capacity, MulPrefix;
      var carry: nat := 0;
      var i := 0;
      ghost var before := d[..n];
      MulPrefixStart(m, d[..0]);
      while i < n
        invariant 0 <= i <= n == |before| == old(n)
        invariant d[i..n] == before[i..]
        invariant carry <= m
        invariant MulPrefix(before[..i], d[..i], m, carry)
      {
        ghost var low := d[..i];
        assert d[i] == before[i];
        var t: nat := MulStep(d[i], m, carry);
        d[i] := t % 0x1_0000_0000;
        assert d[..i + 1] == low + [d[i]];
        assert before[..i + 1] == before[..i] + [before[i]];
        MulPrefixStep(before[..i], low, m, carry, before[i]);
        carry := t / 0x1_0000_0000;
        i := i + 1;
      }
      ghost var low := d[..n];
      assert before[..i] == before && d[..i] == low;
      if carry != 0 && n < CAPACITY_LIMBS {
        d[n] := carry;
        n := n + 1;
        assert d[..n] == low + [d[n - 1]];
        MulPrefixEnd(before, low, m, carry, d[..n]);
      } else {
        MulPrefixEnd(before, low, m, carry, low);
      }
    }

    method AddSmall(v: uint32)
      requires Valid()
      modifies this`n, d
      ensures Valid()
      ensures Wraps(old(Value()) + v, Value())
      ensures old(Trimmed()) && old(Value()) + v < Capacity() ==> Trimmed()
    {
      hide LimbsValue, Weight, Wraps, Capacity, AddPrefix;
      var carry: nat := v;
      var i := 0;
      AddPrefixStart(d[..n], v);
      ghost var before := d[..n];
      while carry != 0 && i < CAPACITY_LIMBS
        invariant i <= n <= CAPACITY_LIMBS
        invariant carry < 0x1_0000_0000
        invariant AddPrefix(before, d[..n], i, v, carry)
        decreases CAPACITY_LIMBS - i
      {
        ghost var now := d[..n];
        var t := (if i < n then d[i] else 0) + carry;
        d[i] := t % 0x1_0000_0000;
        if i >= n {
          n := i + 1;
        }
        assert d[..n] == AddTo(now, i, t % 0x1_0000_0000);
        AddPrefixStep(before, now, i, v, carry);
        carry := t / 0x1_0000_0000;
        i := i + 1;
      }
      AddPrefixEnd(before, d[..n], i, v, carry);
    }

    method Shl(bits: int)
      requires Valid()
      modifies this`n, d
      ensures Valid()
      ensures bits <= 0 ==> Value() == old(Value()) && (old(Trimmed()) ==> Trimmed())
      ensures bits > 0 ==> Wraps(old(Value()) * Pow(2, bits), Value())
      ensures bits > 0 && old(Trimmed()) && old(Value()) * Pow(2, bits) < Capacity() ==> Trimmed()
    {
      if n == 0 || bits <= 0 {
        ShlZero(bits);
        return;
      }
      var limbs, rest := bits / 32, bits % 32;
      ghost var v0 := d[..n];
      if rest != 0 {
        ShlBits(rest);
      } else {
        MulOneWraps(v0);
      }
      ghost var v1 := d[..n];
      if limbs != 0 {
        ShlLimbs(limbs);
      } else {
        MulOneWraps(v1);
      }
      ShlCompose(bits, v0, v1, d[..n]);
    }

    method MulPow5(k: nat)
      requires Valid()
      modifies this`n, d
      ensures Valid()
      ensures Scaled(old(Value()), old(Trimmed()), Pow(5, k), Value(), Trimmed())
    {
      hide Wraps, Capacity, Scaled, Pow, Normal;
      ghost var v0, t0 := Value(), Trimmed();
      Pow5Entry(0);
      Pow5Entry(13);
      ScaledByOne(v0, t0);
      var left := k;
      while left >= 13
        invariant Valid() && 0 <= left <= k
        invariant Scaled(v0, t0, Pow(5, k - left), Value(), Trimmed())
      {
        ghost var v1, t1 := Value(), Trimmed();
        MulSmall(POW5[13]);
        ScaledStep(v1, t1, POW5[13], Value(), Trimmed());
        ScaledTwice(v0, t0, Pow(5, k - left), v1, t1, Pow(5, 13), Value(), Trimmed());
        PowAdd(5, k - left, 13);
        left := left - 13;
      }
      if left > 0 {
        ghost var v1, t1 := Value(), Trimmed();
        Pow5Entry(left);
        MulSmall(POW5[left]);
        ScaledStep(v1, t1, POW5[left], Value(), Trimmed());
        ScaledTwice(v0, t0, Pow(5, k - left), v1, t1, Pow(5, left), Value(), Trimmed());
        PowAdd(5, k - left, left);
      }
    }

    method MulPow10(k: int)
      requires Valid()
      modifies this`n, d
      ensures Valid()
      ensures Scaled(old(Value()), old(Trimmed()), if k <= 0 then 1 else Pow(10, k), Value(), Trimmed())
    {
      hide Wraps, Capacity, Scaled, Pow, Normal;
      ghost var v0, t0 := Value(), Trimmed();
      if k <= 0 {
        ScaledByOne(v0, t0);
        return;
      }
      MulPow5(k);
      ghost var v1, t1 := Value(), Trimmed();
      Shl(k);
      ScaledStep(v1, t1, Pow(2, k), Value(), Trimmed());
      ScaledTwice(v0, t0, Pow(5, k), v1, t1, Pow(2, k), Value(), Trimmed());
      PowMulBase(5, 2, k);
    }

    method DivmodSmall(m: uint32) returns (rem: uint32)
      requires Valid() && m > 0
      modifies this`n, d
      ensures Valid() && Trimmed()
      ensures rem < m && old(Value()) == Value() * m + rem
    {
      hide LimbsValue, Wraps, Capacity;
      ghost var before := d[..n];
      rem := 0;
      var i := n;
      DivSuffixStart(before[n..], d[n..n], m);
      while i > 0
        invariant 0 <= i <= n == |before|
        invariant d[..i] == before[..i]
        invariant rem < m
        invariant DivSuffix(before[i..], d[i..n], m, rem)
      {
        i := i - 1;
        ghost var high := d[i + 1..n];
        assert d[i] == before[i];
        assert before[i..] == [before[i]] + before[i + 1..];
        DivStep(rem, d[i], m);
        DivSuffixStep(before[i + 1..], high, m, rem, before[i]);
        var cur: nat := rem * 0x1_0000_0000 + d[i];
        d[i] := cur / m;
        rem := cur % m;
        assert d[i..n] == [d[i]] + high;
      }
      assert before[0..] == before && d[0..n] == d[..n];
      DivSuffixEnd(before, d[..n], m, rem);
      while n > 0 && d[n - 1] == 0
        invariant Valid() && LimbsValue(before) == LimbsValue(d[..n]) * m + rem
      {
        assert d[..n] == d[..n - 1] + [d[n - 1]];
        LimbsSnoc(d[..n - 1], 0);
        n := n - 1;
      }
    }

    method Cmp(b: Big) returns (c: int)
      requires Valid() && Trimmed() && b.Valid() && b.Trimmed()
      ensures c == Sign(Value() - b.Value())
    {
      hide LimbsValue, Capacity;
      if n != b.n {
        if n < b.n {
          ShorterIsSmaller(d[..n], b.d[..b.n]);
          return -1;
        }
        ShorterIsSmaller(b.d[..b.n], d[..n]);
        return 1;
      }
      var i := n;
      while i > 0
        invariant 0 <= i <= n
        invariant d[i..n] == b.d[i..b.n]
      {
        i := i - 1;
        if d[i] != b.d[i] {
          assert d[..n][i + 1..] == d[i + 1..n] && b.d[..b.n][i + 1..] == b.d[i + 1..b.n];
          if d[i] < b.d[i] {
            HighestDecides(d[..n], b.d[..b.n], i);
            return -1;
          }
          HighestDecides(b.d[..b.n], d[..n], i);
          return 1;
        }
        assert d[i..n] == [d[i]] + d[i + 1..n];
        assert b.d[i..b.n] == [b.d[i]] + b.d[i + 1..b.n];
      }
      assert d[..n] == d[0..n] && b.d[..b.n] == b.d[0..b.n];
      return 0;
    }

    method FromDigits(digits: seq<char>)
      requires Valid() && AllDigits(digits)
      modifies this`n, d
      ensures Valid()
      ensures Wraps(DigitsValue(digits), Value())
      ensures DigitsValue(digits) < Capacity() ==> Trimmed()
    {
      hide Wraps, Capacity, Pow, DigitsValue, Normal;
      n := 0;
      var i := 0;
      SpelledStart(digits[..0], d[..n]);
      while i < |digits|
        invariant Valid() && 0 <= i <= |digits|
        invariant Spelled(digits[..i], d[..n])
      {
        var take := if |digits| - i < 9 then |digits| - i else 9;
        var chunk, scale := Chunk(digits[i..i + take]);
        ghost var v0 := d[..n];
        MulSmall(scale);
        ghost var v1 := d[..n];
        AddSmall(chunk);
        assert digits[..i + take] == digits[..i] + digits[i..i + take];
        SpelledStep(digits[..i], digits[i..i + take], v0, v1, d[..n]);
        i := i + take;
      }
      assert digits[..i] == digits;
    }

    /** The decimal digits of this number, most significant first, into `out`; the number itself is
        used up. Nothing is cut off when the number has at most `cap` and at most 810 digits. */
    method ToDigits(out: array<char>, cap: nat) returns (len: nat)
      requires Valid() && Trimmed() && 1 <= cap <= out.Length
      modifies this`n, d, out
      ensures Valid() && 1 <= len <= cap && AllDigits(out[..len])
      ensures forall k :: len <= k < out.Length ==> out[k] == old(out[k])
      ensures old(Value()) < Pow(10, cap) && old(Value()) < Pow(10, 810) ==>
                DigitsValue(out[..len]) == old(Value()) && (old(Value()) > 0 ==> out[0] != '0')
    {
      hide Pow, LimbsValue, Capacity, ReverseValue, DigitsValue, Normal;
      ghost var v := Value();
      if n == 0 {
        out[0] := '0';
        OneDigit(out[..1]);
        LimbsNone(d[..n]);
        return 1;
      }
      NonZeroValue(d[..n]);
      var tmp := new char[TMP_DIGITS];
      var total := Drain(tmp);
      ghost var low := tmp[..total];
      len := if total > cap then cap else total;
      var i := 0;
      while i < len
        invariant Valid() && 0 <= i <= len <= out.Length && tmp[..total] == low
        invariant forall k :: 0 <= k < i ==> out[k] == low[total - 1 - k]
        invariant forall k :: i <= k < out.Length ==> out[k] == old(out[k])
      {
        out[i] := tmp[total - 1 - i];
        i := i + 1;
      }
      if v < Pow(10, 810) && v < Pow(10, cap) {
        TooLong(v, low, cap);
        ReversedValue(low);
        assert out[..len] == Reversed(low);
      }
    }

    /** All digits of this number, least significant first and without the leading zeros of the last
        chunk, into `tmp`. */
    method Drain(tmp: array<char>) returns (m: nat)
      requires Valid() && Trimmed() && n > 0 && tmp.Length == TMP_DIGITS
      modifies this`n, d, tmp
      ensures Valid() && 1 <= m <= 810 && AllDigits(tmp[..m])
      ensures m == 1 || tmp[m - 1] != '0'
      ensures old(Value()) < Pow(10, 810) ==> ReverseValue(tmp[..m]) == old(Value())
    {
      hide Pow, LimbsValue, Capacity, ReverseValue, DigitsValue, Normal, Drained;
      ghost var v := Value();
      m := 0;
      DrainStart(v, tmp[..0]);
      while n > 0 && m + 9 <= TMP_DIGITS
        invariant Valid() && Trimmed() && m <= 810 && m % 9 == 0
        invariant n == 0 ==> m > 0
        invariant AllDigits(tmp[..m]) && Drained(v, tmp[..m], Value())
        decreases TMP_DIGITS - m
      {
        ghost var v0 := Value();
        var r := DivmodSmall(1_000_000_000);
        DrainChunk(v, v0, tmp, m, r);
        m := m + 9;
      }
      if n == 0 {
        LimbsNone(d[..n]);
      }
      DrainEnd(v, tmp[..m], Value());
      while m > 1 && tmp[m - 1] == '0'
        invariant Valid() && 1 <= m <= 810 && AllDigits(tmp[..m])
        invariant v < Pow(10, 810) ==> ReverseValue(tmp[..m]) == v
      {
        assert tmp[..m] == tmp[..m - 1] + [tmp[m - 1]];
        ReverseSnoc(tmp[..m - 1], '0');
        m := m - 1;
      }
    }

    /** Nine more digits, those of the remainder `r` of a division by 10^9. */
    method DrainChunk(ghost v: nat, ghost v0: nat, tmp: array<char>, start: nat, r: uint32)
      requires Valid() && r < 1_000_000_000 && start + 9 <= tmp.Length
      requires AllDigits(tmp[..start]) && Drained(v, tmp[..start], v0)
      requires v0 == Value() * 1_000_000_000 + r
      modifies tmp
      ensures AllDigits(tmp[..start + 9]) && Drained(v, tmp[..start + 9], Value())
    {
      hide Pow, LimbsValue, Capacity, ReverseValue, Drained, Draining;
      var m, left: nat := start, r;
      ghost var rest := Value();
      DrainOpen(v, tmp[..m], v0, rest, r);
      var i := 0;
      while i < 9
        invariant 0 <= i <= 9 && m == start + i && Value() == rest
        invariant AllDigits(tmp[..m]) && Draining(v, tmp[..m], left, 9 - i, rest)
      {
        ghost var low := tmp[..m];
        tmp[m] := CharOf(left % 10);
        assert tmp[..m + 1] == low + [tmp[m]];
        DrainDigit(v, low, left, 9 - i, rest, tmp[m]);
        m := m + 1;
        left := left / 10;
        i := i + 1;
      }
      DrainClose(v, tmp[..m], left, rest);
    }

    /** The part of the shift below a whole limb, 0 < rest < 32. */
    method ShlBits(rest: nat)
      requires Valid() && 0 < rest < 32
      modifies this`n, d
      ensures Valid() && n >= old(n)
      ensures Wraps(old(Value()) * Pow(2, rest), Value())
      ensures old(Trimmed()) && old(Value()) * Pow(2, rest) < Capacity() ==> Trimmed()
    {
      hide Weight, Wraps, Capacity, MulPrefix, Pow;
      var m, back := TwoTo(rest), TwoTo(32 - rest);
      hide LimbsValue, Weight, Wraps, Capacity, MulPrefix, Pow;
      var carry: uint32 := 0;
      var i := 0;
      ghost var before := d[..n];
      MulPrefixStart(m, d[..0]);
      while i < n
        invariant 0 <= i <= n == |before| == old(n)
        invariant carry < m
        invariant d[i..n] == before[i..]
        invariant MulPrefix(before[..i], d[..i], m, carry)
      {
        ghost var low := d[..i];
        assert d[i] == before[i];
        var v := d[i];
        ShiftedLimb(v, rest, carry);
        d[i] := v * m % 0x1_0000_0000 + carry;
        assert d[..i + 1] == low + [d[i]];
        assert before[..i + 1] == before[..i] + [before[i]];
        MulPrefixStep(before[..i], low, m, carry, before[i]);
        carry := v / back;
        i := i + 1;
      }
      ghost var low := d[..n];
      assert before[..i] == before && d[..i] == low;
      if carry != 0 && n < CAPACITY_LIMBS {
        d[n] := carry;
        n := n + 1;
        assert d[..n] == low + [carry];
        MulPrefixEnd(before, low, m, carry, d[..n]);
      } else {
        MulPrefixEnd(before, low, m, carry, low);
      }
    }

    /** The part of the shift that moves whole limbs. */
    method ShlLimbs(limbs: nat)
      requires Valid() && limbs > 0 && n > 0
      modifies this`n, d
      ensures Valid()
      ensures Wraps(old(Value()) * Weight(limbs), Value())
      ensures old(Trimmed()) && old(Value()) * Weight(limbs) < Capacity() ==> Trimmed()
    {
      ghost var before := d[..n];
      var n' := n + limbs;
      if n' > CAPACITY_LIMBS {
        n' := CAPACITY_LIMBS;
      }
      var i := n' - 1;
      while i >= limbs
        invariant i < n' && (limbs <= n' ==> limbs - 1 <= i)
        invariant forall k :: 0 <= k < |before| && k <= i - limbs ==> d[k] == before[k]
        invariant forall k :: limbs <= k && i < k < n' ==> d[k] == before[k - limbs]
      {
        d[i] := d[i - limbs];
        i := i - 1;
      }
      i := 0;
      while i < limbs && i < n'
        invariant 0 <= i <= limbs && i <= n'
        invariant forall k :: 0 <= k < i ==> d[k] == 0
        invariant forall k :: limbs <= k < n' ==> d[k] == before[k - limbs]
      {
        d[i] := 0;
        i := i + 1;
      }
      n := n';
      LimbShift(before, d[..n], limbs);
    }
  }

  /** Multiplying a value by `f` gave `v`, exactly or wrapped, and without a leading zero limb when
      there was none before and nothing was dropped. */
  ghost predicate Scaled(v0: nat, trimmed0: bool, f: nat, v: nat, trimmed: bool) {
    Wraps(v0 * f, v) && (trimmed0 && v0 * f < Capacity() ==> trimmed)
  }

  lemma ScaledByOne(v: nat, trimmed: bool)
    requires v < Capacity()
    ensures Scaled(v, trimmed, 1, v, trimmed)
  {
    hide Capacity;
    WrapsDropped(v, v, 0);
  }

  lemma ScaledTwice(v0: nat, t0: bool, f: nat, v1: nat, t1: bool, g: nat, v2: nat, t2: bool)
    requires g > 0 && Scaled(v0, t0, f, v1, t1) && Scaled(v1, t1, g, v2, t2)
    ensures Scaled(v0, t0, f * g, v2, t2)
  {
    hide Wraps, Capacity;
    MulAssoc(v0, f, g);
    MulNonneg(v0, f);
    WrapsMul(v0 * f, v1, g, v2);
    MulAtLeast(v0 * f, g);
    if v0 * f < Capacity() {
      WrapsFits(v0 * f, v1);
    }
  }

  const POW5: seq<uint32> := [1, 5, 25, 125, 625, 3125, 15625, 78125, 390625, 1953125, 9765625, 48828125,
                              244140625, 1220703125]

  lemma {:induction false} Pow5Entry(k: nat)
    requires k < 14
    ensures |POW5| == 14 && POW5[k] == Pow(5, k)
  {
    if k > 0 {
      Pow5Entry(k - 1);
      assert POW5[k] == 5 * POW5[k - 1];
    }
  }

  /** 2^k as the 32-bit (or 33-bit) factor of a shift by `k`. */
  function TwoTo(k: nat): (r: nat)
    requires k < 32
    ensures r == Pow(2, k) && 1 <= r < 0x1_0000_0000
  {
    if k == 0 then 1 else
      assert Pow(2, k) == 2 * Pow(2, k - 1);
      TwoToBound(k);
      2 * TwoTo(k - 1)
  }

  lemma TwoToBound(k: nat)
    requires k < 32
    ensures Pow(2, k) <= 0x8000_0000
  {
    PowMono(2, k, 31);
    TwoTo32();
  }

  lemma TwoTo32()
    ensures Pow(2, 31) == 0x8000_0000
    ensures Pow(2, 32) == 0x1_0000_0000
  {
    assert Pow(2, 8) == 256;
    PowAdd(2, 8, 8);
    PowAdd(2, 16, 15);
    PowAdd(2, 8, 7);
    PowAdd(2, 16, 16);
  }

  /** The two halves a limb falls into when it is shifted left by less than its width: the bits
      that stay, whose low `rest` bits are clear so that the incoming carry drops into them, and
      the bits that leave. */
  lemma ShiftedLimb(v: uint32, rest: nat, carry: uint32)
    requires 0 < rest < 32 && carry < Pow(2, rest)
    ensures var t := v * Pow(2, rest) + carry;
            && t >= 0
            && t % 0x1_0000_0000 == v * Pow(2, rest) % 0x1_0000_0000 + carry
            && t / 0x1_0000_0000 == v / Pow(2, 32 - rest)
            && v / Pow(2, 32 - rest) < Pow(2, rest)
  {
    hide Pow;
    PowAdd(2, rest, 32 - rest);
    TwoTo32();
    ShiftedParts(v, Pow(2, rest), Pow(2, 32 - rest), carry);
  }

  lemma ShiftedParts(v: nat, m: nat, back: nat, carry: nat)
    requires v < 0x1_0000_0000 && back > 0 && m * back == 0x1_0000_0000 && carry < m
    ensures 0 <= v * m
    ensures (v * m + carry) % 0x1_0000_0000 == v * m % 0x1_0000_0000 + carry
    ensures (v * m + carry) / 0x1_0000_0000 == v / back < m
  {
    QuotientBound(v, m, back);
    ShiftedRemainder(v, m, back, 0, v / back, v % back);
    ShiftedRemainder(v, m, back, carry, v / back, v % back);
  }

  lemma ShiftedRemainder(v: nat, m: nat, back: nat, carry: nat, q: nat, r: nat)
    requires m * back == 0x1_0000_0000 && v == q * back + r && r < back && carry < m
    ensures 0 <= r * m && 0 <= v * m + carry
    ensures (v * m + carry) % 0x1_0000_0000 == r * m + carry
    ensures (v * m + carry) / 0x1_0000_0000 == q
  {
    SplitLimb(v, m, back, carry, q, r);
    DivModUnique(v * m + carry, 0x1_0000_0000, q, r * m + carry);
  }

  lemma QuotientBound(v: nat, m: nat, back: nat)
    requires back > 0 && v < m * back
    ensures v / back < m
    ensures v == (v / back) * back + v % back
  {
    if v / back >= m {
      MulMono(m, v / back, back);
    }
  }

  lemma SplitLimb(v: nat, m: nat, back: nat, carry: nat, q: nat, r: nat)
    requires m * back == 0x1_0000_0000 && v == q * back + r && r < back && carry < m
    ensures v * m + carry == q * 0x1_0000_0000 + (r * m + carry)
    ensures 0 <= r * m && r * m + carry < 0x1_0000_0000
  {
    MulDistrib(m, q * back, r);
    MulAssoc(q, back, m);
    MulMono(r + 1, back, m);
    MulDistrib(m, r, 1);
    MulNonneg(r, m);
  }

  lemma MulOneWraps(s: seq<uint32>)
    requires |s| <= CAPACITY_LIMBS
    ensures Wraps(LimbsValue(s) * Pow(2, 0), LimbsValue(s))
    ensures Wraps(LimbsValue(s) * Weight(0), LimbsValue(s))
  {
    hide Wraps, LimbsValue, Capacity;
    CapacityBound(s);
    WrapsDropped(LimbsValue(s), LimbsValue(s), 0);
  }

  lemma ShlZero(bits: int)
    ensures bits > 0 ==> Wraps(0 * Pow(2, bits), 0)
  {
    WrapsDropped(0, 0, 0);
  }

  lemma ShlCompose(bits: nat, v0: seq<uint32>, v1: seq<uint32>, v2: seq<uint32>)
    requires Wraps(LimbsValue(v0) * Pow(2, bits % 32), LimbsValue(v1))
    requires Normal(v0) && LimbsValue(v0) * Pow(2, bits % 32) < Capacity() ==> Normal(v1)
    requires Wraps(LimbsValue(v1) * Weight(bits / 32), LimbsValue(v2))
    requires Normal(v1) && LimbsValue(v1) * Weight(bits / 32) < Capacity() ==> Normal(v2)
    ensures Wraps(LimbsValue(v0) * Pow(2, bits), LimbsValue(v2))
    ensures Normal(v0) && LimbsValue(v0) * Pow(2, bits) < Capacity() ==> Normal(v2)
  {
    hide Wraps, Capacity, LimbsValue, Normal;
    var a, r, l := LimbsValue(v0), Pow(2, bits % 32), Weight(bits / 32);
    TwoTo32();
    PowPow(2, 32, bits / 32);
    assert Weight(bits / 32) == Pow(2, 32 * (bits / 32));
    PowAdd(2, bits % 32, 32 * (bits / 32));
    MulAssoc(a, r, l);
    WrapsMul(a * r, LimbsValue(v1), l, LimbsValue(v2));
    if Normal(v0) && a * (r * l) < Capacity() {
      MulAtLeast(a * r, l);
      WrapsFits(a * r, LimbsValue(v1));
    }
  }

  lemma LimbShift(before: seq<uint32>, now: seq<uint32>, limbs: nat)
    requires limbs > 0 && 0 < |before| <= CAPACITY_LIMBS
    requires |now| == if |before| + limbs > CAPACITY_LIMBS then CAPACITY_LIMBS else |before| + limbs
    requires forall k :: 0 <= k < limbs && k < |now| ==> now[k] == 0
    requires forall k :: limbs <= k < |now| ==> now[k] == before[k - limbs]
    ensures Wraps(LimbsValue(before) * Weight(limbs), LimbsValue(now))
    ensures Normal(before) && LimbsValue(before) * Weight(limbs) < Capacity() ==> Normal(now)
  {
    if limbs >= |now| {
      ShiftedOut(before, now, limbs);
    } else {
      var kept := |now| - limbs;
      assert now == now[..limbs] + before[..kept];
      ShiftedIn(before, now[..limbs], kept);
    }
  }

  /** Every limb leaves the capacity, so what remains is zero. */
  lemma ShiftedOut(before: seq<uint32>, now: seq<uint32>, limbs: nat)
    requires |before| > 0 && |now| == CAPACITY_LIMBS <= limbs
    requires forall k :: 0 <= k < |now| ==> now[k] == 0
    ensures Wraps(LimbsValue(before) * Weight(limbs), LimbsValue(now))
    ensures Normal(before) ==> LimbsValue(before) * Weight(limbs) >= Capacity()
  {
    hide Wraps, LimbsValue;
    var v, extra := LimbsValue(before), Weight(limbs - CAPACITY_LIMBS);
    LimbsZeros(now);
    WeightAdd(CAPACITY_LIMBS, limbs - CAPACITY_LIMBS);
    hide Capacity;
    assert Weight(limbs) == Capacity() * extra;
    MulAssoc(v, extra, Capacity());
    MulNonneg(v, extra);
    WrapsDropped(v * Weight(limbs), 0, v * extra);
    if Normal(before) {
      NormalLower(before);
      MulAtLeast(v, extra);
    }
  }

  /** The limbs below `kept` move up over `zeros`; those above leave the capacity. */
  lemma ShiftedIn(before: seq<uint32>, zeros: seq<uint32>, kept: nat)
    requires 0 < kept <= |before|
    requires |zeros| + kept <= CAPACITY_LIMBS
    requires kept < |before| ==> |zeros| + kept == CAPACITY_LIMBS
    requires forall k :: 0 <= k < |zeros| ==> zeros[k] == 0
    ensures var now := zeros + before[..kept];
            && Wraps(LimbsValue(before) * Weight(|zeros|), LimbsValue(now))
            && (Normal(before) && LimbsValue(before) * Weight(|zeros|) < Capacity() ==> Normal(now))
  {
    hide Wraps, LimbsValue, Pow;
    var now, low, p := zeros + before[..kept], LimbsValue(before[..kept]), Weight(|zeros|);
    var high, q := LimbsValue(before[kept..]), Weight(kept);
    CapacityBound(now);
    LimbsZeros(zeros);
    LimbsConcat(zeros, before[..kept]);
    assert before == before[..kept] + before[kept..];
    LimbsConcat(before[..kept], before[kept..]);
    WeightAdd(|zeros|, kept);
    assert kept < |before| ==> p * q == Capacity();
    hide Capacity, Weight;
    ShiftSplit(low, high, p, q);
    if kept < |before| {
      WrapsDropped(LimbsValue(before) * p, LimbsValue(now), high);
      if Normal(before) {
        NormalLower(before[kept..]);
      }
    } else {
      LimbsNone(before[kept..]);
      WrapsDropped(LimbsValue(before) * p, LimbsValue(now), 0);
    }
  }

  lemma ShiftSplit(low: nat, high: nat, p: nat, q: nat)
    ensures (low + q * high) * p == p * low + high * (p * q)
  {
    MulDistrib(p, low, q * high);
    MulAssoc(p, q, high);
  }

  const TMP_DIGITS: nat := 816

  lemma OneDigit(s: seq<char>)
    requires s == ['0']
    ensures AllDigits(s) && DigitsValue(s) == 0
  {
  }

  lemma NonZeroValue(s: seq<uint32>)
    requires Normal(s) && |s| > 0
    ensures LimbsValue(s) > 0
  {
    NormalLower(s);
  }

  /** The digits taken off so far, least significant first, and the quotient that is left. */
  ghost predicate Drained(v: nat, low: seq<char>, rest: nat) {
    v == ReverseValue(low) + Pow(10, |low|) * rest
  }

  /** In the middle of a chunk, of which `k` digits are still to be taken off. */
  ghost predicate Draining(v: nat, low: seq<char>, r: nat, k: nat, rest: nat) {
    r < Pow(10, k) && v == ReverseValue(low) + Pow(10, |low|) * (r + Pow(10, k) * rest)
  }

  lemma DrainStart(v: nat, none: seq<char>)
    requires none == []
    ensures AllDigits(none) && Drained(v, none, v)
  {
  }

  lemma DrainOpen(v: nat, low: seq<char>, v0: nat, rest: nat, r: nat)
    requires Drained(v, low, v0) && v0 == rest * 1_000_000_000 + r && r < 1_000_000_000
    ensures Draining(v, low, r, 9, rest)
  {
    assert Pow(10, 9) == 1_000_000_000;
  }

  lemma DrainDigit(v: nat, low: seq<char>, r: nat, k: nat, rest: nat, c: char)
    requires k > 0 && Draining(v, low, r, k, rest) && c == CharOf(r % 10)
    ensures Draining(v, low + [c], r / 10, k - 1, rest)
  {
    var p, g, q := Pow(10, |low|), Pow(10, k - 1), r / 10;
    ReverseSnoc(low, c);
    MulAssoc(10, g, rest);
    assert r + 10 * (g * rest) == r % 10 + 10 * (q + g * rest);
    MulDistrib(p, r % 10, 10 * (q + g * rest));
    MulAssoc(p, 10, q + g * rest);
  }

  lemma DrainClose(v: nat, low: seq<char>, r: nat, rest: nat)
    requires Draining(v, low, r, 0, rest)
    ensures Drained(v, low, rest)
  {
  }

  lemma DrainEnd(v: nat, low: seq<char>, rest: nat)
    requires Drained(v, low, rest) && (rest == 0 || |low| == 810)
    ensures v < Pow(10, 810) ==> ReverseValue(low) == v
  {
    hide Pow, ReverseValue;
    if rest > 0 && |low| == 810 {
      MulMono(1, rest, Pow(10, |low|));
    }
  }

  /** A number below 10^cap has no more than `cap` digits. */
  lemma TooLong(v: nat, low: seq<char>, cap: nat)
    requires |low| >= 1 && AllDigits(low) && (|low| == 1 || low[|low| - 1] != '0') && cap >= 1
    requires ReverseValue(low) == v < Pow(10, cap)
    ensures |low| <= cap
    ensures v > 0 ==> low[|low| - 1] != '0'
  {
    assert |low| == 1 ==> ReverseValue(low[1..]) == 0;
    if |low| > cap {
      var s := Reversed(low);
      ReversedValue(low);
      DigitsLower(s);
      PowMono(10, cap, |low| - 1);
    }
  }

  function Sign(x: int): int {
    if x < 0 then -1 else if x == 0 then 0 else 1
  }

  lemma ScaledStep(v1: nat, t1: bool, f: nat, v2: nat, t2: bool)
    requires f > 0 && Wraps(v1 * f, v2) && (t1 && v1 * f < Capacity() ==> t2)
    ensures Scaled(v1, t1, f, v2, t2)
  {
  }

  /** Up to nine digits as one limb, and the power of ten they are worth. */
  method Chunk(digits: seq<char>) returns (chunk: uint32, scale: uint32)
    requires |digits| <= 9 && AllDigits(digits)
    ensures chunk == DigitsValue(digits) && scale == Pow(10, |digits|)
  {
    chunk, scale := 0, 1;
    for j := 0 to |digits|
      invariant chunk == DigitsValue(digits[..j]) && scale == Pow(10, j)
      invariant chunk < scale <= 1_000_000_000
    {
      assert digits[..j + 1] == digits[..j] + [digits[j]];
      DigitsSnoc(digits[..j], digits[j]);
      NinePowers(j + 1);
      chunk := chunk * 10 + DigitOf(digits[j]);
      scale := scale * 10;
    }
    assert digits[..|digits|] == digits;
  }

  lemma NinePowers(j: nat)
    requires j <= 9
    ensures Pow(10, j) <= 1_000_000_000
  {
    PowMono(10, j, 9);
    assert Pow(10, 9) == 1_000_000_000;
  }

  /** The limbs hold the number the digits spell. */
  ghost predicate Spelled(digits: seq<char>, now: seq<uint32>) {
    && Wraps(DigitsValue(digits), LimbsValue(now))
    && (DigitsValue(digits) < Capacity() ==> Normal(now))
  }

  lemma SpelledStart(digits: seq<char>, now: seq<uint32>)
    requires digits == [] && now == []
    ensures Spelled(digits, now)
  {
    WrapsDropped(0, 0, 0);
  }

  lemma SpelledStep(digits: seq<char>, more: seq<char>, v0: seq<uint32>, v1: seq<uint32>, v2: seq<uint32>)
    requires Spelled(digits, v0)
    requires Wraps(LimbsValue(v0) * Pow(10, |more|), LimbsValue(v1))
    requires Normal(v0) && LimbsValue(v0) * Pow(10, |more|) < Capacity() ==> Normal(v1)
    requires Wraps(LimbsValue(v1) + DigitsValue(more), LimbsValue(v2))
    requires Normal(v1) && LimbsValue(v1) + DigitsValue(more) < Capacity() ==> Normal(v2)
    ensures Spelled(digits + more, v2)
  {
    hide Wraps, Capacity, Pow, DigitsValue, LimbsValue, Normal;
    var dv, f, c := DigitsValue(digits), Pow(10, |more|), DigitsValue(more);
    DigitsConcat(digits, more);
    MulNonneg(dv, f);
    WrapsMul(dv, LimbsValue(v0), f, LimbsValue(v1));
    WrapsAdd(dv * f, LimbsValue(v1), c, LimbsValue(v2));
    if dv * f + c < Capacity() {
      MulAtLeast(dv, f);
      WrapsFits(dv, LimbsValue(v0));
      WrapsFits(dv * f, LimbsValue(v1));
    }
  }

  /** Dividing the limbs `was` by `m` from the top gave the quotient `now` and a remainder. */
  ghost predicate DivSuffix(was: seq<uint32>, now: seq<uint32>, m: uint32, rem: uint32) {
    |was| == |now| && LimbsValue(was) == LimbsValue(now) * m + rem
  }

  lemma DivSuffixStart(was: seq<uint32>, now: seq<uint32>, m: uint32)
    requires was == [] && now == []
    ensures DivSuffix(was, now, m, 0)
  {
  }

  lemma DivSuffixEnd(was: seq<uint32>, now: seq<uint32>, m: uint32, rem: uint32)
    requires DivSuffix(was, now, m, rem)
    ensures LimbsValue(was) == LimbsValue(now) * m + rem
  {
  }

  lemma DivStep(rem: uint32, x: uint32, m: uint32)
    requires m > 0 && rem < m
    ensures (rem * 0x1_0000_0000 + x) / m < 0x1_0000_0000
  {
    var cur: nat := rem * 0x1_0000_0000 + x;
    QuotientBound(cur, 0x1_0000_0000, m);
  }

  lemma DivSuffixStep(was: seq<uint32>, now: seq<uint32>, m: uint32, rem: uint32, x: uint32)
    requires m > 0 && rem < m && DivSuffix(was, now, m, rem)
    requires (rem * 0x1_0000_0000 + x) / m < 0x1_0000_0000
    ensures var cur: nat := rem * 0x1_0000_0000 + x;
            DivSuffix([x] + was, [cur / m] + now, m, cur % m)
  {
    var cur: nat := rem * 0x1_0000_0000 + x;
    LimbsCons(x, was);
    LimbsCons(cur / m, now);
    hide LimbsValue;
    QuotientSplit(LimbsValue(now), m, rem, x, cur / m, cur % m);
  }

  lemma QuotientSplit(high: nat, m: nat, rem: nat, x: nat, q: nat, r: nat)
    requires rem * 0x1_0000_0000 + x == q * m + r
    ensures x + 0x1_0000_0000 * (high * m + rem) == (q + 0x1_0000_0000 * high) * m + r
  {
    MulDistrib(m, q, 0x1_0000_0000 * high);
    MulAssoc(0x1_0000_0000, high, m);
  }

  /** Limb `i` set to `x`, extending the sequence when `i` is its length. */
  ghost function AddTo(now: seq<uint32>, i: nat, x: uint32): seq<uint32>
    requires i <= |now|
  {
    if i < |now| then now[i := x] else now + [x]
  }

  /** After `v` was added to the limbs `was` up to limb `i`, giving `now` and a carry into `i`. */
  ghost predicate AddPrefix(was: seq<uint32>, now: seq<uint32>, i: nat, v: uint32, carry: nat) {
    && i <= |now| <= CAPACITY_LIMBS
    && carry < 0x1_0000_0000
    && LimbsValue(now) + carry * Weight(i) == LimbsValue(was) + v
    && (Normal(was) ==> Normal(now) || (i == |now| && carry > 0))
  }

  lemma AddPrefixStart(was: seq<uint32>, v: uint32)
    requires |was| <= CAPACITY_LIMBS
    ensures AddPrefix(was, was, 0, v, v)
  {
  }

  lemma AddPrefixStep(was: seq<uint32>, now: seq<uint32>, i: nat, v: uint32, carry: nat)
    requires i < CAPACITY_LIMBS && carry > 0 && AddPrefix(was, now, i, v, carry)
    ensures var t := (if i < |now| then now[i] else 0) + carry;
            AddPrefix(was, AddTo(now, i, t % 0x1_0000_0000), i + 1, v, t / 0x1_0000_0000)
  {
    var x: nat := if i < |now| then now[i] else 0;
    var t := x + carry;
    AddStepValue(LimbsValue(now), LimbsValue(was) + v, x, carry, t, Weight(i));
    if i < |now| {
      LimbsUpdate(now, i, t % 0x1_0000_0000);
    } else {
      LimbsSnoc(now, t % 0x1_0000_0000);
    }
  }

  lemma AddPrefixEnd(was: seq<uint32>, now: seq<uint32>, i: nat, v: uint32, carry: nat)
    requires AddPrefix(was, now, i, v, carry) && (carry == 0 || i == CAPACITY_LIMBS)
    ensures Wraps(LimbsValue(was) + v, LimbsValue(now))
    ensures Normal(was) && LimbsValue(was) + v < Capacity() ==> Normal(now)
  {
    hide Wraps, LimbsValue;
    CapacityBound(now);
    assert carry != 0 ==> Weight(i) == Capacity();
    hide Capacity, Weight;
    WrapsDropped(LimbsValue(was) + v, LimbsValue(now), carry);
  }

  ghost predicate SetPrefix(v: nat, now: seq<uint32>, rest: nat) {
    v == LimbsValue(now) + rest * Weight(|now|) && (rest == 0 ==> Normal(now))
  }

  lemma SetStart(v: nat, none: seq<uint32>)
    requires none == []
    ensures SetPrefix(v, none, v)
  {
  }

  lemma SetStep(v: nat, now: seq<uint32>, rest: nat)
    requires SetPrefix(v, now, rest) && rest != 0
    ensures SetPrefix(v, now + [rest % 0x1_0000_0000], rest / 0x1_0000_0000)
  {
    LimbsSnoc(now, rest % 0x1_0000_0000);
    DigitSplit(rest, rest / 0x1_0000_0000, rest % 0x1_0000_0000, Weight(|now|));
  }

  lemma SetEnd(v: nat, now: seq<uint32>)
    requires SetPrefix(v, now, 0)
    ensures LimbsValue(now) == v && Normal(now)
  {
  }

  /** After the limbs `was` were multiplied by `m`, giving `now` and a carry. */
  ghost predicate MulPrefix(was: seq<uint32>, now: seq<uint32>, m: uint32, carry: nat) {
    && |was| == |now|
    && carry <= m
    && LimbsValue(now) + carry * Weight(|now|) == LimbsValue(was) * m
    && (Normal(was) && m > 0 && carry == 0 ==> Normal(now))
  }

  lemma MulPrefixStart(m: uint32, none: seq<uint32>)
    requires none == []
    ensures MulPrefix(none, none, m, 0)
  {
  }

  lemma MulPrefixStep(was: seq<uint32>, now: seq<uint32>, m: uint32, carry: nat, x: uint32)
    requires MulPrefix(was, now, m, carry)
    ensures var t := MulStep(x, m, carry); MulPrefix(was + [x], now + [t % 0x1_0000_0000], m, t / 0x1_0000_0000)
  {
    var t, p := MulStep(x, m, carry), Weight(|now|);
    LimbsSnoc(was, x);
    LimbsSnoc(now, t % 0x1_0000_0000);
    MulStepValue(LimbsValue(now), LimbsValue(was), x, m, carry, t, p);
    if x != 0 && m > 0 {
      MulMono(1, x, m);
    }
  }

  /** The last carry is either appended as a new top limb or dropped. */
  lemma MulPrefixEnd(was: seq<uint32>, now: seq<uint32>, m: uint32, carry: nat, end: seq<uint32>)
    requires |was| <= CAPACITY_LIMBS && MulPrefix(was, now, m, carry)
    requires end == if carry != 0 && |now| < CAPACITY_LIMBS then now + [carry] else now
    ensures Wraps(LimbsValue(was) * m, LimbsValue(end))
    ensures Normal(was) && m > 0 && LimbsValue(was) * m < Capacity() ==> Normal(end)
  {
    hide Wraps, LimbsValue;
    CapacityBound(end);
    if |end| > |now| {
      LimbsSnoc(now, carry);
      WrapsDropped(LimbsValue(was) * m, LimbsValue(end), 0);
    } else {
      WrapsDropped(LimbsValue(was) * m, LimbsValue(end), carry);
    }
  }

  /** One limb times a limb plus a carry stays inside 64 bits. */
  function MulStep(x: uint32, m: uint32, carry: nat): (t: nat)
    requires carry <= m
    ensures t == x * m + carry && t < 0x1_0000_0000_0000_0000
    ensures t / 0x1_0000_0000 <= m
  {
    MulStepBound(x, m, carry);
    x * m + carry
  }

  lemma MulStepBound(x: nat, m: nat, carry: nat)
    requires x < 0x1_0000_0000 && m < 0x1_0000_0000 && carry <= m
    ensures 0 <= x * m + carry <= 0x1_0000_0000 * m
    ensures x * m + carry < 0x1_0000_0000_0000_0000
    ensures (x * m + carry) / 0x1_0000_0000 <= m
  {
    MulMono(x, 0xffff_ffff, m);
    MulNonneg(x, m);
  }

  /** A digit of weight `p` split into what stays at `p` and what moves up a limb. */
  lemma DigitSplit(t: nat, q: nat, r: nat, p: nat)
    requires t == q * 0x1_0000_0000 + r
    ensures t * p == r * p + q * (0x1_0000_0000 * p)
  {
    MulDistrib(p, q * 0x1_0000_0000, r);
    MulAssoc(q, 0x1_0000_0000, p);
  }

  lemma MulStepValue(low: nat, was: nat, x: nat, m: nat, carry: nat, t: nat, p: nat)
    requires low + carry * p == was * m
    requires t == x * m + carry
    ensures low + (t % 0x1_0000_0000) * p + (t / 0x1_0000_0000) * (0x1_0000_0000 * p) == (was + x * p) * m
  {
    DigitSplit(t, t / 0x1_0000_0000, t % 0x1_0000_0000, p);
    MulDistrib(p, x * m, carry);
    MulDistrib(m, was, x * p);
    MulAssoc(x, m, p);
    MulAssoc(x, p, m);
  }

  lemma AddStepValue(now: int, sum: int, x: nat, carry: nat, t: nat, p: nat)
    requires now + carry * p == sum
    requires t == x + carry
    ensures now + (t % 0x1_0000_0000 - x) * p + (t / 0x1_0000_0000) * (0x1_0000_0000 * p) == sum
  {
    DigitSplit(t, t / 0x1_0000_0000, t % 0x1_0000_0000, p);
    MulDistrib(p, t % 0x1_0000_0000, x);
    MulDistrib(p, x, carry);
  }
}
