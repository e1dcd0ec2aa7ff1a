/**
 Bytes, little-endian fields, and flat images overwritten in place.
 */
module Bytes {
  type byte = x: int | 0 <= x < 256

  function Zeros(n: nat): (z: seq<byte>)
    ensures |z| == n && forall k :: 0 <= k < n ==> z[k] == 0
  {
    seq(n, _ => 0)
  }

  function Min(a: int, b: int): int {
    if a < b then a else b
  }

  // ---- little-endian fields ----

  function EncodeLe(v: nat, width: nat): (s: seq<byte>)
    ensures |s| == width
  {
    if width == 0 then [] else [v % 256] + EncodeLe(v / 256, width - 1)
  }

  function DecodeLe(s: seq<byte>): nat {
    if s == [] then 0 else s[0] + 256 * DecodeLe(s[1..])
  }

  function Span(width: nat): (n: nat)
    ensures n > 0
  {
    if width == 0 then 1 else 256 * Span(width - 1)
  }

  /** A number that fits its field is read back. */
  lemma {:induction false} LeRoundTrip(v: nat, width: nat)
    requires v < Span(width)
    ensures DecodeLe(EncodeLe(v, width)) == v
  {
    if width > 0 {
      LeRoundTrip(v / 256, width - 1);
      assert EncodeLe(v, width)[1..] == EncodeLe(v / 256, width - 1);
    }
  }

  lemma {:induction false} LeBound(s: seq<byte>)
    ensures DecodeLe(s) < Span(|s|)
  {
    if s != [] {
      LeBound(s[1..]);
    }
  }

  lemma Spans()
    ensures Span(4) == 0x1_0000_0000 && Span(8) == 0x1_0000_0000_0000_0000
  {
    assert Span(4) == 256 * (256 * (256 * (256 * Span(0))));
    assert Span(8) == 256 * (256 * (256 * (256 * Span(4))));
  }

  /** Four-byte fields one after another. */
  function EncodeFields(vs: seq<nat>): (s: seq<byte>)
    ensures |s| == 4 * |vs|
  {
    if vs == [] then [] else EncodeLe(vs[0], 4) + EncodeFields(vs[1..])
  }

  lemma {:induction false} FieldAt(vs: seq<nat>, i: nat)
    requires i < |vs| && vs[i] < 0x1_0000_0000
    ensures DecodeLe(EncodeFields(vs)[4 * i..4 * i + 4]) == vs[i]
  {
    hide EncodeLe, DecodeLe, Span;
    if i == 0 {
      Spans();
      LeRoundTrip(vs[0], 4);
      assert EncodeFields(vs)[0..4] == EncodeLe(vs[0], 4);
    } else {
      FieldAt(vs[1..], i - 1);
      assert EncodeFields(vs)[4 * i..4 * i + 4] == EncodeFields(vs[1..])[4 * (i - 1)..4 * (i - 1) + 4];
    }
  }

  lemma MiddlePart<T>(a: seq<T>, b: seq<T>, c: seq<T>, i: nat, j: nat)
    requires i <= j <= |b|
    ensures (a + b + c)[|a| + i..|a| + j] == b[i..j]
  {
  }

  lemma SliceSlice<T>(s: seq<T>, i: nat, j: nat, k: nat, l: nat)
    requires i <= j <= |s| && k <= l <= j - i
    ensures s[i..j][k..l] == s[i + k..i + l]
  {
    var t, u := s[i..j], s[i + k..i + l];
    assert |t[k..l]| == |u|;
    forall m | 0 <= m < |u| ensures t[k..l][m] == u[m] {
      assert t[k..l][m] == t[k + m] == s[i + (k + m)];
    }
  }

  // ---- images ----

  /** `buf` written over `image` at `at`. */
  function Splice(image: seq<byte>, at: nat, buf: seq<byte>): (r: seq<byte>)
    requires at + |buf| <= |image|
    ensures |r| == |image|
  {
    image[..at] + buf + image[at + |buf|..]
  }

  /** The two images agree outside [low, high). */
  predicate SameOutside(a: seq<byte>, b: seq<byte>, low: int, high: int) {
    |a| == |b| && forall k :: 0 <= k < |a| && !(low <= k < high) ==> a[k] == b[k]
  }

  lemma SameSlice(a: seq<byte>, b: seq<byte>, low: int, high: int, i: nat, j: nat)
    requires SameOutside(a, b, low, high) && i <= j <= |a| && (j <= low || high <= i)
    ensures a[i..j] == b[i..j]
  {
  }

  lemma SpliceNext(image: seq<byte>, at: nat, x: seq<byte>, y: seq<byte>)
    requires at + |x| + |y| <= |image|
    ensures Splice(Splice(image, at, x), at + |x|, y) == Splice(image, at, x + y)
  {
  }

  lemma SpliceSlice(image: seq<byte>, at: nat, buf: seq<byte>)
    requires at + |buf| <= |image|
    ensures Splice(image, at, buf)[at..at + |buf|] == buf
    ensures SameOutside(image, Splice(image, at, buf), at, at + |buf|)
  {
  }
}
