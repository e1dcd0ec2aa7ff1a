/**
 The free-space bitmap of the filesystem: one bit a block, least significant bit first, set meaning
 in use, and a first-fit search for a run of free blocks.
 */
module Bitmap {
  import opened Results
  import opened Powers
  import opened Bytes

  // ---- bits of a byte ----

  /** `b & (1 << k) != 0`. */
  predicate Bit(b: nat, k: nat) {
    if k == 0 then b % 2 == 1 else Bit(b / 2, k - 1)
  }

  /** `b | (1 << k)`, or `b & !(1 << k)`. */
  function WithBit(b: nat, k: nat, used: bool): nat {
    if k == 0 then b - b % 2 + (if used then 1 else 0) else b % 2 + 2 * WithBit(b / 2, k - 1, used)
  }

  lemma {:induction false} BitOfWithBit(b: nat, k: nat, used: bool, j: nat)
    ensures Bit(WithBit(b, k, used), j) == if j == k then used else Bit(b, j)
  {
    if k == 0 {
      assert WithBit(b, k, used) / 2 == b / 2;
    } else {
      var w := WithBit(b / 2, k - 1, used);
      assert (b % 2 + 2 * w) / 2 == w && (b % 2 + 2 * w) % 2 == b % 2;
      if j > 0 {
        BitOfWithBit(b / 2, k - 1, used, j - 1);
      }
    }
  }

  lemma {:induction false} WithBitFits(b: nat, k: nat, used: bool, n: nat)
    requires k < n && b < Pow(2, n)
    ensures WithBit(b, k, used) < Pow(2, n)
  {
    if k > 0 {
      WithBitFits(b / 2, k - 1, used, n - 1);
    }
  }

  // ---- bits of the map ----

  /** A block outside the bitmap reads as in use. */
  predicate BitGet(bitmap: seq<byte>, block: nat) {
    if block / 8 < |bitmap| then Bit(bitmap[block / 8], block % 8) else true
  }

  function BitPut(bitmap: seq<byte>, block: nat, used: bool): (r: seq<byte>)
    ensures |r| == |bitmap|
  {
    if block / 8 < |bitmap| then
      assert WithBit(bitmap[block / 8], block % 8, used) < 256 by {
        assert Pow(2, 8) == 256;
        WithBitFits(bitmap[block / 8], block % 8, used, 8);
      }
      bitmap[block / 8 := WithBit(bitmap[block / 8], block % 8, used)]
    else bitmap
  }

  lemma GetAfterPut(bitmap: seq<byte>, block: nat, used: bool, b: nat)
    ensures BitGet(BitPut(bitmap, block, used), b)
         == if b == block && block / 8 < |bitmap| then used else BitGet(bitmap, b)
  {
    if block / 8 < |bitmap| {
      BitOfWithBit(bitmap[block / 8], block % 8, used, b % 8);
    }
  }

  predicate InRun(b: int, first: int, blocks: int) {
    first <= b < first + blocks
  }

  /** `after` is `before` with a run of blocks marked. */
  ghost predicate Marked(before: seq<byte>, after: seq<byte>, first: nat, blocks: nat, used: bool) {
    && |after| == |before|
    && (forall b: nat ::
         BitGet(after, b) == if InRun(b, first, blocks) && b / 8 < |before| then used else BitGet(before, b))
    && (forall i :: 0 <= i < |before| && !(first / 8 <= i <= (first + blocks) / 8) ==> after[i] == before[i])
  }

  method MarkRun(bitmap: seq<byte>, first: nat, blocks: nat, used: bool) returns (r: seq<byte>)
    requires first + blocks < 0x1_0000_0000
    ensures Marked(bitmap, r, first, blocks, used)
  {
    r := bitmap;
    var i := 0;
    while i < blocks
      invariant i <= blocks && Marked(bitmap, r, first, i, used)
    {
      ghost var before := r;
      r := BitPut(r, first + i, used);
      i := i + 1;
      MarkedNext(bitmap, before, r, first, i, used);
    }
  }

  lemma MarkedNext(bitmap: seq<byte>, before: seq<byte>, after: seq<byte>, first: nat, i: nat, used: bool)
    requires i > 0 && Marked(bitmap, before, first, i - 1, used) && after == BitPut(before, first + i - 1, used)
    ensures Marked(bitmap, after, first, i, used)
  {
    hide BitGet;
    forall b: nat
      ensures BitGet(after, b) == if InRun(b, first, i) && b / 8 < |bitmap| then used else BitGet(bitmap, b)
    {
      GetAfterPut(before, first + i - 1, used, b);
    }
  }

  /** The sectors that cover the bytes [low, high), both ends included. */
  function SectorSpan(low: nat, high: nat): (span: (nat, nat)) {
    (low / 512, (if high > 0 then high - 1 else 0) / 512)
  }

  lemma SpanCovers(low: nat, high: nat)
    requires low < high
    ensures var (first, last) := SectorSpan(low, high); first <= last && 512 * first <= low && high <= 512 * (last + 1)
    ensures var (first, last) := SectorSpan(low, high); low < 512 * (first + 1) && 512 * last < high
  {
  }

  /** How many sectors that is. */
  function SpanSize(low: nat, high: nat): int {
    var (first, last) := SectorSpan(low, high);
    last - first + 1
  }

  /** The bytes from the first to the last in which two bitmaps differ. */
  ghost predicate Extent(a: seq<byte>, b: seq<byte>, low: nat, high: nat) {
    && |a| == |b| && low < high <= |a| && a[low] != b[low] && a[high - 1] != b[high - 1]
    && forall k :: 0 <= k < |a| && !(low <= k < high) ==> a[k] == b[k]
  }

  lemma ExtentUnique(a: seq<byte>, b: seq<byte>, low: nat, high: nat, low': nat, high': nat)
    requires Extent(a, b, low, high) && Extent(a, b, low', high')
    ensures low == low' && high == high'
  {
  }

  lemma {:induction false} SameBits(a: nat, b: nat, n: nat)
    requires a < Pow(2, n) && b < Pow(2, n) && forall k: nat :: k < n ==> Bit(a, k) == Bit(b, k)
    ensures a == b
  {
    if n > 0 {
      assert Bit(a, 0) == Bit(b, 0);
      forall k: nat | k < n - 1 ensures Bit(a / 2, k) == Bit(b / 2, k) {
        assert Bit(a, k + 1) == Bit(b, k + 1);
      }
      SameBits(a / 2, b / 2, n - 1);
    }
  }

  lemma RunSpan(first: nat, blocks: nat)
    requires blocks > 0
    ensures SpanSize(first / 8, (first + blocks - 1) / 8 + 1) == (first + blocks - 1) / 4096 - first / 4096 + 1
  {
  }

  /** Bitmaps with the same bits are the same. */
  lemma SameBitmap(a: seq<byte>, b: seq<byte>)
    requires |a| == |b| && forall n: nat :: BitGet(a, n) == BitGet(b, n)
    ensures a == b
  {
    forall k | 0 <= k < |a| ensures a[k] == b[k] {
      forall j: nat | j < 8 ensures Bit(a[k], j) == Bit(b[k], j) {
        assert BitGet(b, 8 * k + j) == BitGet(a, 8 * k + j);
      }
      assert Pow(2, 8) == 256;
      SameBits(a[k], b[k], 8);
    }
  }

  /** Marking free blocks changes the bytes from that of the first block to that of the last. */
  lemma MarkedExtent(a: seq<byte>, b: seq<byte>, first: nat, blocks: nat)
    requires |a| == |b| && blocks > 0 && first + blocks <= 8 * |a|
    requires forall n: nat :: BitGet(b, n) <==> InRun(n, first, blocks) || BitGet(a, n)
    requires forall n: nat :: InRun(n, first, blocks) ==> !BitGet(a, n)
    ensures Extent(a, b, first / 8, (first + blocks - 1) / 8 + 1)
  {
    var last := first + blocks - 1;
    assert BitGet(b, first) && BitGet(b, last) && !BitGet(a, first) && !BitGet(a, last);
    forall k | 0 <= k < |a| && !(first / 8 <= k < last / 8 + 1) ensures a[k] == b[k] {
      forall j: nat | j < 8 ensures Bit(a[k], j) == Bit(b[k], j) {
        assert BitGet(b, 8 * k + j) == BitGet(a, 8 * k + j);
      }
      assert Pow(2, 8) == 256;
      SameBits(a[k], b[k], 8);
    }
  }

  // ---- first fit ----

  /** All blocks of the run are free and below `to`. */
  ghost predicate FreeRun(bitmap: seq<byte>, to: nat, first: nat, blocks: nat) {
    first + blocks <= to && forall b: nat :: InRun(b, first, blocks) ==> !BitGet(bitmap, b)
  }

  /** The lowest run of `blocks` consecutive free blocks in [from, to), if there is one. */
  method FindRun(bitmap: seq<byte>, from: nat, to: nat, blocks: nat) returns (r: Option<nat>)
    ensures blocks == 0 ==> r.None?
    ensures blocks > 0 && r.None? ==> forall s: nat :: from <= s ==> !FreeRun(bitmap, to, s, blocks)
    ensures r.Some? ==>
              && from <= r.value && FreeRun(bitmap, to, r.value, blocks)
              && forall s: nat :: from <= s < r.value ==> !FreeRun(bitmap, to, s, blocks)
  {
    hide BitGet;
    if blocks == 0 {
      return None;
    }
    var runStart, run, block := from, 0, from;
    while block < to
      invariant from <= block && (block <= to || block == from)
      invariant run < blocks && run <= block - from && (run > 0 ==> runStart == block - run)
      invariant forall b: nat :: InRun(b, block - run, run) ==> !BitGet(bitmap, b)
      invariant block - run == from || BitGet(bitmap, block - run - 1)
      invariant forall s: nat :: from <= s && s + blocks <= block ==> !FreeRun(bitmap, to, s, blocks)
    {
      if BitGet(bitmap, block) {
        forall s: nat | from <= s && s + blocks <= block + 1 ensures !FreeRun(bitmap, to, s, blocks) {
          assert s + blocks == block + 1 ==> InRun(block, s, blocks);
        }
        run := 0;
      } else {
        if run == 0 {
          runStart := block;
        }
        run := run + 1;
        if run == blocks {
          return Some(runStart);
        }
        forall s: nat | from <= s && s + blocks <= block + 1 ensures !FreeRun(bitmap, to, s, blocks) {
          assert s + blocks == block + 1 ==> InRun(block - run, s, blocks);
        }
      }
      block := block + 1;
    }
    return None;
  }
}
