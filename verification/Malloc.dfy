/**
 The allocator: malloc, free, calloc, realloc and aligned_alloc over a region the kernel extends. A
 field of a header or of a list node is the memory cell at the address of its first byte; a payload
 byte is a cell of its own.
 */
module Malloc {
  import opened Powers
  import opened Tiling
  import opened HeapSteps

  datatype Errno = Fine | ENOMEM | EINVAL

  /** Rounded up to a multiple of `n`; the source masks, with `n` a power of two. */
  function RoundUp(v: nat, n: nat): (r: nat)
    requires n > 0
    ensures v <= r < v + n && r % n == 0
  {
    var above := v + n - 1;
    RoundDown(above, n);
    above - above % n
  }

  lemma RoundDown(v: nat, n: nat)
    requires n > 0
    ensures 0 <= v - v % n && (v - v % n) % n == 0
  {
    var q := v / n;
    assert v - v % n == q * n;
    ModAddMultiple(0, q, n);
  }

  lemma PagesAligned(v: int)
    requires v % 4096 == 0
    ensures Aligned(v)
  {
  }

  function PagesOf(v: nat): (r: nat)
    ensures r <= v < r + 4096 && r % 4096 == 0
  {
    v - v % 4096
  }

  /** The block size for a payload, or 0 when that does not fit 64 bits. */
  function NeededFor(size: nat): (want: nat)
    requires size < 0x1_0000_0000_0000_0000
    ensures want != 0 ==> size + 16 <= want && 32 <= want && Aligned(want) && (want == 32 || want < size + 32)
    ensures want == 0 <==> size + 31 >= 0x1_0000_0000_0000_0000
    ensures want < 0x1_0000_0000_0000_0000
  {
    if size + 16 >= 0x1_0000_0000_0000_0000 then 0
    else
      var rounded := RoundUp(size + 16, 16);
      var want := if rounded < 0x1_0000_0000_0000_0000 then rounded else rounded - 0x1_0000_0000_0000_0000;
      if want < size then 0 else if want < 32 then 32 else want
  }

  /** What can be asked of sbrk: rounded to pages it is a positive signed number. */
  predicate Askable(need: nat) {
    RoundUp(need, 4096) < 0x8000_0000_0000_0000
  }

  /** A 64-bit size taken for a signed number. */
  function Signed(v: nat): int {
    var w := v % 0x1_0000_0000_0000_0000;
    if w < 0x8000_0000_0000_0000 then w else w - 0x1_0000_0000_0000_0000
  }

  /** At least 64 KiB at a time. */
  function Comfortable(need: nat): nat {
    if need < 0x1_0000 then 0x1_0000 else need
  }

  lemma WantFacts(need: nat, v: nat)
    requires need < 0x1_0000_0000_0000_0000 && (v == need || v == Comfortable(need))
    ensures var want := RoundUp(v, 4096);
            && need <= want && Aligned(want)
            && if Askable(need) then Signed(want) == want else want == RoundUp(need, 4096) && Signed(want) <= 0
  {
    hide Aligned, Signed, RoundUp;
    PagesAligned(RoundUp(v, 4096));
    SignedWant(RoundUp(v, 4096));
  }

  lemma SignedWant(want: nat)
    requires want % 4096 == 0 && want < 0x1_0000_0000_0000_1000
    ensures if want < 0x8000_0000_0000_0000 then Signed(want) == want else Signed(want) <= 0
  {
    assert want >= 0x1_0000_0000_0000_0000 ==> want == 0x1_0000_0000_0000_0000;
  }

  /** A larger request asks the kernel for memory back: malloc(2^64 - 8192) for 4096 bytes. */
  lemma HugeRequest()
    ensures var need := NeededFor(0xffff_ffff_ffff_e000);
            need != 0 && !Askable(need) && Signed(RoundUp(need, 4096)) == -4096
  {
    assert RoundUp(0xffff_ffff_ffff_e010, 16) == 0xffff_ffff_ffff_e010;
    assert RoundUp(0xffff_ffff_ffff_e010, 4096) == 0xffff_ffff_ffff_f000;
  }

  /** A free block of at least `want` bytes is there. */
  ghost predicate FreeFit(bs: Blocks, want: int) {
    exists a :: a in bs && !bs[a].used && bs[a].size >= want
  }

  /** The block that an aligned allocation looks for, or 0 when there can be none. */
  function AlignedNeed(alignment: nat, size: nat): nat
    requires size < 0x1_0000_0000_0000_0000
  {
    if alignment <= 16 then NeededFor(if size == 0 then 1 else size)
    else if NeededFor(size) == 0 || NeededFor(size) + 2 * alignment + 32 >= 0x1_0000_0000_0000_0000 then 0
    else NeededFor(size) + 2 * alignment + 32
  }

  /** A block is large enough, alone or with the free block above it. */
  ghost predicate FitsInPlace(bs: Blocks, b: int, want: int)
    requires b in bs
  {
    var next := b + bs[b].size;
    want <= bs[b].size || (next in bs && !bs[next].used && want <= bs[b].size + bs[next].size)
  }

  predicate PowerOfTwo(n: nat) {
    n == 1 || (n > 0 && n % 2 == 0 && PowerOfTwo(n / 2))
  }

  function Product(a: nat, b: nat): nat {
    MulNonneg(a, b);
    a * b
  }

  /** The product in 64 bits, and the test for what was lost. */
  function Wrapped(nmemb: nat, size: nat): nat {
    Product(nmemb, size) % 0x1_0000_0000_0000_0000
  }

  predicate MultiplyFails(nmemb: nat, size: nat) {
    size != 0 && Wrapped(nmemb, size) / size != nmemb
  }

  class Heap {
    const start: int
    var mem: seq<int>
    var brk: int
    var lo: int
    var hi: int
    var top: int
    var freeHead: int
    var errno: Errno
    ghost var blocks: Blocks
    ghost var free: seq<int>

    /** The heap in use: its end is the break, and memory, tiling and free list agree. */
    ghost predicate Running()
      reads this
    {
      && lo != 0 && hi == brk && brk <= |mem|
      && Sane(mem, lo, hi, blocks, freeHead, free, {}, 0) && TopIs(hi, blocks, top)
    }

    ghost predicate Valid()
      reads this
    {
      if lo == 0 then
        && hi == 0 && top == 0 && freeHead == 0 && blocks == map[] && free == []
        && 0 < brk <= |mem| && Aligned(brk)
      else Running()
    }

    /** No block yet; the break is where the kernel put it, on a page boundary. */
    constructor (cells: seq<int>, base: int)
      requires 0 < base <= |cells| && base % 4096 == 0
      ensures Valid() && blocks == map[] && Coalesced(blocks) && start == brk == base
    {
      PagesAligned(base);
      start, mem, brk := base, cells, base;
      lo, hi, top, freeHead, errno := 0, 0, 0, 0, Fine;
      blocks, free := map[], [];
    }

    /** The kernel moves the break, or refuses; it always refuses to move it below where it started. */
    method Sbrk(delta: int) returns (base: int)
      requires 0 < brk <= |mem|
      modifies this`brk
      ensures base == -1 ==> brk == old(brk)
      ensures base != -1 ==> base == old(brk) && brk == old(brk) + delta && 0 < brk <= |mem| && start <= brk
    {
      base := -1;
      if * {
        if start <= brk + delta && 0 < brk + delta <= |mem| {
          base := brk;
          brk := brk + delta;
        }
      }
    }

    /** A request for which the kernel adds memory or refuses. For any other it takes memory back, and the
        allocator does not notice. */
    predicate Answerable(need: nat)
      reads this`brk
    {
      need < 0x1_0000_0000_0000_0000 && (Askable(need) || brk + Signed(RoundUp(need, 4096)) < start)
    }

    // ---- blocks ----

    function BlockSize(b: int): int
      requires 0 <= b < |mem|
      reads this`mem
    {
      mem[b] - mem[b] % 2
    }

    predicate InUse(b: int)
      requires 0 <= b < |mem|
      reads this`mem
    {
      mem[b] % 2 == 1
    }

    function NextBlock(b: int): int
      requires 0 <= b < |mem|
      reads this`mem, this`hi
    {
      var next := b + BlockSize(b);
      if next < hi then next else 0
    }

    function PrevBlock(b: int): int
      requires 0 <= b && b + 8 < |mem|
      reads this`mem
    {
      if mem[b + 8] == 0 then 0 else b - mem[b + 8]
    }

    method SetBlock(b: int, size: int, used: bool)
      requires 0 <= b < |mem|
      modifies this`mem
      ensures mem == old(mem)[b := size + if used then 1 else 0]
    {
      mem := mem[b := size + if used then 1 else 0];
    }

    method NoteTop(b: int)
      requires 0 <= b < |mem|
      modifies this`top
      ensures top == if NextBlock(b) == 0 then b else old(top)
    {
      if NextBlock(b) == 0 {
        top := b;
      }
    }

    method FixNextPrevSize(b: int)
      requires 0 <= b < |mem| && (NextBlock(b) != 0 ==> 0 <= NextBlock(b) + 8 < |mem|)
      modifies this`mem
      ensures mem == if old(NextBlock(b)) != 0 then old(mem)[old(NextBlock(b)) + 8 := old(BlockSize(b))] else old(mem)
    {
      var next := NextBlock(b);
      if next != 0 {
        mem := mem[next + 8 := BlockSize(b)];
      }
    }

    method ListInsert(b: int)
      requires Linked(mem, freeHead, free) && Distinct([b] + free) && 0 < b && b + 32 <= |mem|
      requires freeHead != 0 ==> 0 <= freeHead + 8 < |mem|
      modifies this`mem, this`freeHead, this`free
      ensures |mem| == |old(mem)| && free == [b] + old(free) && freeHead == b + 16
      ensures Linked(mem, freeHead, free) && OnlyLinks(old(mem), mem, free)
    {
      hide Linked, Distinct, OnlyLinks;
      var node := b + 16;
      mem := mem[node + 8 := 0];
      mem := mem[node := freeHead];
      if freeHead != 0 {
        mem := mem[freeHead + 8 := node];
      }
      Inserted(old(mem), mem, old(freeHead), old(free), b);
      freeHead := node;
      free := [b] + free;
    }

    method ListRemove(b: int, ghost k: nat)
      requires Linked(mem, freeHead, free) && Distinct(free) && k < |free| && free[k] == b && 0 < b && b + 32 <= |mem|
      modifies this`mem, this`freeHead, this`free
      ensures |mem| == |old(mem)| && free == Without(old(free), k)
      ensures Linked(mem, freeHead, free) && OnlyLinks(old(mem), mem, old(free))
    {
      assert Node(mem, free, k);
      assert k > 0 ==> Node(mem, free, k - 1);
      assert k + 1 < |free| ==> Node(mem, free, k + 1);
      assert k + 1 < |free| ==> free[k + 1] != b && (free[k + 1] + 32 <= b || b + 32 <= free[k + 1]);
      hide Linked, Distinct, OnlyLinks;
      var node := b + 16;
      var next, prev := mem[node], mem[node + 8];
      if prev != 0 {
        mem := mem[prev := next];
      } else {
        freeHead := next;
      }
      if next != 0 {
        mem := mem[next + 8 := prev];
      }
      Removed(old(mem), mem, old(freeHead), freeHead, free, k);
      free := Without(free, k);
    }

    /** Memory, tiling and list agree, but for the unlisted blocks and the one that is out of date. */
    ghost predicate Agree(off: set<int>, stale: int)
      reads this
    {
      lo != 0 && hi <= |mem| && Sane(mem, lo, hi, blocks, freeHead, free, off, stale)
    }

    /** Take a free block off the list. */
    method TakeOff(b: int, ghost off: set<int>, ghost stale: int)
      requires Agree(off, stale) && b in blocks && !blocks[b].used && b !in off
      modifies this`mem, this`freeHead, this`free
      ensures Agree(off + {b}, stale) && |mem| == |old(mem)|
      ensures Kept(blocks, old(mem), blocks, mem, 0)
    {
      ghost var k := Position(blocks, free, off, b);
      FreeNodes(mem, lo, hi, blocks, freeHead, free, off, stale);
      SaneHeader(mem, lo, hi, blocks, freeHead, free, off, stale, b);
      SaneLinked(mem, lo, hi, blocks, freeHead, free, off, stale);
      hide Sane, Linked, Distinct, OnlyLinks, Kept, Lists;
      ListRemove(b, k);
      Unlisted(old(mem), mem, lo, hi, blocks, old(freeHead), freeHead, old(free), off, stale, k);
    }

    /** Put an unlisted free block on the list. */
    method PutOn(b: int, ghost off: set<int>)
      requires Agree(off, 0) && b in blocks && !blocks[b].used && b in off
      modifies this`mem, this`freeHead, this`free
      ensures Agree(off - {b}, 0) && |mem| == |old(mem)| && b in free
      ensures Kept(blocks, old(mem), blocks, mem, 0)
    {
      CanInsert(mem, lo, hi, blocks, freeHead, free, off, 0, b);
      SaneLinked(mem, lo, hi, blocks, freeHead, free, off, 0);
      hide Sane, Linked, Distinct, OnlyLinks, Kept, Lists;
      ListInsert(b);
      Listed(old(mem), mem, lo, hi, blocks, old(freeHead), old(free), off, 0, b);
      assert free[0] == b;
    }

    /** Mark a block that is not on the list. */
    method Mark(b: int, used: bool, ghost off: set<int>)
      requires Agree(off, 0) && b in blocks && (blocks[b].used || b in off)
      modifies this`mem, this`blocks
      ensures blocks == Marked(old(blocks), b, used) && |mem| == |old(mem)|
      ensures Agree(if used then off - {b} else off + {b}, 0)
      ensures Kept(old(blocks), old(mem), blocks, mem, b)
    {
      Reads(b, off, 0);
      Remarked(mem, lo, hi, blocks, freeHead, free, off, b, used);
      hide Sane, Kept, BlockSize, InUse, NextBlock;
      SetBlock(b, BlockSize(b), used);
      blocks := Marked(blocks, b, used);
    }

    /** Let a block take in the free one above it. */
    method Absorb(b: int, ghost off: set<int>, ghost stale: int)
      requires Agree(off, stale) && b in blocks && b + blocks[b].size in blocks && !blocks[b + blocks[b].size].used
      requires b + blocks[b].size in off && (blocks[b].used || b in off) && (stale == 0 || stale == b + blocks[b].size)
      modifies this`mem, this`blocks
      ensures blocks == Merged(old(blocks), b) && |mem| == |old(mem)|
      ensures Agree(off - {b + old(blocks)[b].size}, b)
      ensures Kept(old(blocks), old(mem), blocks, mem, b) && SameCells(old(mem), mem, b + 16, |mem|)
    {
      Reads(b, off, stale);
      Reads(b + blocks[b].size, off, stale);
      Absorbed(mem, lo, hi, blocks, freeHead, free, off, stale, b);
      hide Sane, Kept, BlockSize, InUse, NextBlock;
      SetBlock(b, BlockSize(b) + BlockSize(b + BlockSize(b)), InUse(b));
      blocks := Merged(blocks, b);
    }

    /** Bring the block above, and the note of the top block, up to date with `b`. */
    method Settle(b: int, ghost off: set<int>, ghost stale: int)
      requires Agree(off, stale) && b in blocks && (stale == b || stale == 0)
      modifies this`mem, this`top
      ensures Agree(off, 0) && |mem| == |old(mem)| && Kept(blocks, old(mem), blocks, mem, 0)
      ensures top == if b + blocks[b].size == hi then b else old(top)
    {
      if stale == 0 {
        MaybeStale(mem, lo, hi, blocks, freeHead, free, off, b);
      }
      Reads(b, off, b);
      NextFixed(mem, lo, hi, blocks, freeHead, free, off, b);
      hide Sane, Kept, BlockSize, NextBlock, InUse;
      FixNextPrevSize(b);
      Reads(b, off, 0);
      NoteTop(b);
    }

    // ---- release, split, trim, grow ----

    /** Free a block, merged with whichever of its neighbours are free. */
    method Release(b0: int) returns (b: int)
      requires Running() && b0 in blocks && blocks[b0].used
      modifies this`mem, this`freeHead, this`free, this`blocks, this`top
      ensures Running() && |mem| == |old(mem)|
      ensures b != 0 && b in blocks && !blocks[b].used && blocks[b].size >= old(blocks)[b0].size
      ensures Users(blocks) == Users(old(blocks)) - {b0} && Kept(old(blocks), old(mem), blocks, mem, b0)
      ensures Coalesced(old(blocks)) ==> Coalesced(blocks)
    {
      hide Sane, Kept, BlockSize, InUse, NextBlock, PrevBlock, Users, Coalesced, Nearly, AboveUsed, BelowUsed, Shape,
           Placed, TopIs, Adjacent;
      Reads(b0, {}, 0);
      PrevIs(mem, lo, hi, blocks, freeHead, free, {}, b0);
      PrevRead(b0);
      var prev := PrevBlock(b0);
      ghost var bs0, m0 := blocks, mem;
      MarkedUsers(blocks, b0);
      if Coalesced(blocks) {
        MarkedNearly(blocks, b0);
      }
      Mark(b0, false, {});
      MarkedTop(hi, bs0, top, b0, false);
      assert {} + {b0} == {b0};
      ghost var bs1, m1 := blocks, mem;
      ghost var stale := MergeNext(b0);
      KeptThrough(bs0, m0, bs1, m1, blocks, mem, b0, b0);
      SaneShape(m0, lo, hi, bs0, old(freeHead), old(free), {}, 0);
      SaneShape(mem, lo, hi, blocks, freeHead, free, {b0}, stale);
      if prev != 0 {
        StillBelow(lo, hi, bs0, b0, prev);
      }
      if Coalesced(bs0) {
        SaneShape(m1, lo, hi, bs1, old(freeHead), old(free), {b0}, 0);
        AfterNext(lo, hi, bs1, b0);
        AfterPrev(lo, hi, blocks, b0, prev);
      }
      ghost var bs2, m2 := blocks, mem;
      b, stale := MergePrev(b0, prev, stale);
      KeptThrough(bs0, m0, bs2, m2, blocks, mem, b0, b0);
      SaneShape(mem, lo, hi, blocks, freeHead, free, {b}, stale);
      ghost var m3 := mem;
      Settle(b, {b}, stale);
      KeptThrough(bs0, m0, blocks, m3, blocks, mem, b0, 0);
      ghost var m4 := mem;
      PutOn(b, {b});
      KeptThrough(bs0, m0, blocks, m4, blocks, mem, b0, 0);
      assert {b} - {b} == {};
      SettledTop(hi, blocks, old(top), top, b);
    }

    lemma SettledTop(hi: int, bs: Blocks, top0: int, top1: int, b: int)
      requires TopOr(hi, bs, top0, b) && top1 == if b + bs[b].size == hi then b else top0
      ensures TopIs(hi, bs, top1)
    {
    }

    /** Take in the block above a loose free block, if that is free. */
    method MergeNext(b: int) returns (ghost stale: int)
      requires Agree({b}, 0) && b in blocks && !blocks[b].used && TopOr(hi, blocks, top, b)
      modifies this`mem, this`freeHead, this`free, this`blocks
      ensures Agree({b}, stale) && (stale == 0 || stale == b) && |mem| == |old(mem)| && TopOr(hi, blocks, top, b)
      ensures b in blocks && !blocks[b].used && blocks == MergedUp(old(blocks), b)
      ensures blocks[b].size >= old(blocks)[b].size
      ensures Users(blocks) == Users(old(blocks)) && Kept(old(blocks), old(mem), blocks, mem, b)
    {
      hide Sane, Kept, BlockSize, InUse, NextBlock, Users, Shape, TopIs;
      Reads(b, {b}, 0);
      var next := NextBlock(b);
      stale := 0;
      if next != 0 {
        Reads(next, {b}, 0);
        if !InUse(next) {
          SaneShape(mem, lo, hi, blocks, freeHead, free, {b}, 0);
          MergedTop(lo, hi, blocks, top, b, b);
          MergedUsers(blocks, b);
          TakeOff(next, {b}, 0);
          ghost var m1 := mem;
          Absorb(b, {b} + {next}, 0);
          assert {b} + {next} - {next} == {b};
          KeptAll(old(blocks), old(mem), old(blocks), m1, 0, b);
          KeptThrough(old(blocks), old(mem), old(blocks), m1, blocks, mem, b, b);
          return b;
        }
      }
      KeptSelf(blocks, mem, b);
    }

    /** Let the block below a loose free block take it in, if that is free. */
    method MergePrev(b0: int, prev: int, ghost stale0: int) returns (b: int, ghost stale: int)
      requires Agree({b0}, stale0) && (stale0 == 0 || stale0 == b0) && b0 in blocks && !blocks[b0].used
      requires TopOr(hi, blocks, top, b0) && (prev != 0 ==> Adjacent(blocks, prev, b0))
      modifies this`mem, this`freeHead, this`free, this`blocks
      ensures Agree({b}, stale) && (stale == 0 || stale == b) && |mem| == |old(mem)| && TopOr(hi, blocks, top, b)
      ensures b in blocks && !blocks[b].used && blocks[b].size >= old(blocks)[b0].size
      ensures blocks == if prev != 0 && !old(blocks)[prev].used then Merged(old(blocks), prev) else old(blocks)
      ensures Users(blocks) == Users(old(blocks)) && Kept(old(blocks), old(mem), blocks, mem, b0)
    {
      hide Sane, Kept, BlockSize, InUse, NextBlock, Users, Shape, TopIs;
      b, stale := b0, stale0;
      if prev != 0 {
        Reads(prev, {b0}, stale0);
        if !InUse(prev) {
          SaneShape(mem, lo, hi, blocks, freeHead, free, {b0}, stale0);
          MergedTop(lo, hi, blocks, top, b0, prev);
          MergedUsers(blocks, prev);
          Reads(b0, {b0}, stale0);
          TakeOff(prev, {b0}, stale0);
          ghost var m1 := mem;
          Absorb(prev, {b0} + {prev}, stale0);
          assert {b0} + {prev} - {b0} == {prev};
          KeptAll(old(blocks), old(mem), old(blocks), m1, 0, b0);
          KeptThrough(old(blocks), old(mem), old(blocks), m1, blocks, mem, b0, prev);
          return prev, prev;
        }
      }
      KeptSelf(blocks, mem, b0);
    }

    lemma PrevRead(b: int)
      requires 0 < b && b + 32 <= |mem|
      ensures PrevBlock(b) == if mem[b + 8] == 0 then 0 else b - mem[b + 8]
    {
    }

    /** Write the headers of the two parts of a block in use. */
    method Carve(b: int, want: int, tailUsed: bool)
      requires Running() && b in blocks && blocks[b].used && 32 <= want && want + 32 <= blocks[b].size && Aligned(want)
      modifies this`mem, this`blocks
      ensures blocks == Cut(old(blocks), b, want, tailUsed) && |mem| == |old(mem)| && b + want !in old(blocks)
      ensures Agree(if tailUsed then {} else {b + want}, b + want)
      ensures Kept(old(blocks), old(mem), blocks, mem, b) && SameCells(old(mem), mem, b + 16, b + want)
      ensures TopOr(hi, blocks, if b + old(blocks)[b].size == hi then b + want else top, b + want)
    {
      hide BlockSize, InUse, NextBlock, Sane, Kept, Shape, Aligned, TopOr, TopIs, SameCells, Placed, Cut;
      Reads(b, {}, 0);
      CutSane(mem, lo, hi, blocks, freeHead, free, {}, b, want, tailUsed);
      SaneShape(mem, lo, hi, blocks, freeHead, free, {}, 0);
      CutShape(lo, hi, blocks, b, want, tailUsed);
      CutTop(lo, hi, blocks, top, b, want);
      CarvedSame(mem, b, want, want + 1, want, blocks[b].size - want + if tailUsed then 1 else 0);
      var tail, have := b + want, BlockSize(b);
      SetBlock(b, want, true);
      mem := mem[tail + 8 := want];
      SetBlock(tail, have - want, tailUsed);
      blocks := Cut(blocks, b, want, tailUsed);
      assert {} + {tail} == {tail};
    }

    /** Cut a block in use down to `want` bytes, if what is left is enough for a block. */
    method Split(b: int, want: int)
      requires Running() && b in blocks && blocks[b].used && 32 <= want <= blocks[b].size && Aligned(want)
      modifies this`mem, this`freeHead, this`free, this`blocks, this`top
      ensures Running() && |mem| == |old(mem)|
      ensures b in blocks && want <= blocks[b].size < want + 32 && blocks[b].size <= old(blocks)[b].size
      ensures Users(blocks) == Users(old(blocks))[b := blocks[b].size] && Kept(old(blocks), old(mem), blocks, mem, b)
      ensures SameCells(old(mem), mem, b + 16, b + want)
      ensures blocks == if old(blocks)[b].size - want < 32 then old(blocks) else Cut(old(blocks), b, want, false)
      ensures Coalesced(old(blocks)) && AboveUsed(old(blocks), b) ==> Coalesced(blocks)
    {
      hide BlockSize, InUse, NextBlock, Users, Coalesced, AboveUsed, Sane, Kept, Shape, Aligned, SameCells;
      Reads(b, {}, 0);
      SplitUsers(blocks, b, want);
      var have := BlockSize(b);
      if have - want < 32 {
        KeptSelf(blocks, mem, b);
        SameSelf(mem, b + 16, b + want);
        return;
      }
      var tail := b + want;
      ghost var bs0, m0 := blocks, mem;
      SaneShape(mem, lo, hi, blocks, freeHead, free, {}, 0);
      Carve(b, want, false);
      if Coalesced(bs0) && AboveUsed(bs0, b) {
        CutCoalesced(lo, hi, bs0, b, want);
      }
      ghost var m1 := mem;
      Settle(tail, {tail}, tail);
      ghost var m2 := mem;
      assert {tail} - {tail} == {};
      PutOn(tail, {tail});
      TailDone(bs0, m0, blocks, m1, m2, mem, lo, hi, freeHead, free, b, want);
      SettledTop(hi, blocks, if b + bs0[b].size == hi then tail else old(top), top, tail);
    }

    lemma TailDone(bs0: Blocks, m0: seq<int>, bs: Blocks, m1: seq<int>, m2: seq<int>, m3: seq<int>, lo: int, hi: int,
                   head: int, free: seq<int>, b: int, want: int)
      requires Kept(bs0, m0, bs, m1, b) && Kept(bs, m1, bs, m2, 0) && Kept(bs, m2, bs, m3, 0)
      requires SameCells(m0, m1, b + 16, b + want)
      requires Sane(m3, lo, hi, bs, head, free, {}, 0) && b in bs && bs[b] == Block(want, true) && 0 < b
      ensures Kept(bs0, m0, bs, m3, b) && SameCells(m0, m3, b + 16, b + want)
    {
      SaneShape(m3, lo, hi, bs, head, free, {}, 0);
      KeptThrough(bs0, m0, bs, m1, bs, m2, b, 0);
      KeptThrough(bs0, m0, bs, m2, bs, m3, b, 0);
      KeptAt(bs, m1, bs, m2, 0, b);
      KeptAt(bs, m2, bs, m3, 0, b);
    }

    lemma SameSelf(m: seq<int>, low: int, high: int)
      ensures SameCells(m, m, low, high)
    {
    }

    /** Hand whole pages back when a megabyte or more is free at the top. */
    method Trim()
      requires Running()
      modifies this`mem, this`blocks, this`hi, this`brk
      ensures Running() && |mem| == |old(mem)|
      ensures Users(blocks) == Users(old(blocks)) && Kept(old(blocks), old(mem), blocks, mem, 0)
      ensures Coalesced(old(blocks)) ==> Coalesced(blocks)
    {
      KeptSelf(blocks, mem, 0);
      hide BlockSize, InUse, NextBlock, Users, Coalesced, Sane, Kept, Shape, Aligned;
      Reads(top, {}, 0);
      if InUse(top) {
        return;
      }
      var size := BlockSize(top);
      if size < 0x10_0000 {
        return;
      }
      var give: int := PagesOf(size - 0x1_0000);
      if give == 0 {
        return;
      }
      TrimSize(mem, lo, hi, blocks, freeHead, free, top, give);
      TrimmedSane(mem, lo, hi, blocks, freeHead, free, top, size - give);
      SaneShape(mem, lo, hi, blocks, freeHead, free, {}, 0);
      var base := Sbrk(-give);
      if base == -1 {
        return;
      }
      hi := hi - give;
      SetBlock(top, size - give, false);
      blocks := blocks[top := Block(size - give, false)];
    }

    /** Extend the heap by a free block of at least `need` bytes, merged with the block below it if that
        is free. */
    method Grow(need: nat) returns (b: int)
      requires Valid() && 32 <= need && Answerable(need)
      modifies this`mem, this`freeHead, this`free, this`blocks, this`top, this`lo, this`hi, this`brk
      ensures |mem| == |old(mem)|
      ensures b == 0 ==> Valid() && mem == old(mem) && blocks == old(blocks) && free == old(free) && lo == old(lo)
      ensures b != 0 ==>
                && Running() && b in blocks && !blocks[b].used && blocks[b].size >= need
                && Users(blocks) == Users(old(blocks)) && Kept(old(blocks), old(mem), blocks, mem, 0)
                && (Coalesced(old(blocks)) ==> Coalesced(blocks))
    {
      hide BlockSize, InUse, NextBlock, Users, Coalesced, Kept, Sane, Aligned, TopIs;
      BreakPositive();
      var base, want := AskKernel(need);
      if base == -1 {
        return 0;
      }
      ghost var bs0, m0 := blocks, mem;
      AddBlock(base, want);
      ghost var bs1, m1 := blocks, mem;
      b := Release(base);
      KeptGrown(bs0, m0, bs1, m1, blocks, mem, base);
    }

    lemma BreakPositive()
      requires Valid()
      ensures 0 < brk <= |mem|
    {
      if lo != 0 {
        SaneShape(mem, lo, hi, blocks, freeHead, free, {}, 0);
        HiPositive(lo, hi, blocks);
      }
    }

    /** Ask for a comfortable amount, and for the least that will do if that is refused. */
    method AskKernel(need: nat) returns (base: int, want: int)
      requires 0 < brk <= |mem| && 32 <= need < 0x1_0000_0000_0000_0000
      modifies this`brk
      ensures base == -1 ==> brk == old(brk)
      ensures base != -1 && Askable(need) ==>
                base == old(brk) && brk == base + want <= |mem| && need <= want && Aligned(want)
      ensures base != -1 && !Askable(need) ==>
                base == old(brk) && start <= brk == base + Signed(RoundUp(need, 4096)) <= base
    {
      WantFacts(need, Comfortable(need));
      WantFacts(need, need);
      hide Askable, RoundUp, Aligned, Signed;
      want := RoundUp(Comfortable(need), 4096);
      base := Sbrk(Signed(want));
      if base == -1 {
        want := RoundUp(need, 4096);
        base := Sbrk(Signed(want));
      }
    }

    /** The new memory as one block, in use until it is released. */
    method AddBlock(base: int, want: int)
      requires 32 <= want && Aligned(want) && 0 < base && base + want == brk <= |mem|
      requires if lo == 0 then Aligned(base) && blocks == map[] && free == [] && freeHead == 0 && top == 0
               else base == hi && Agree({}, 0) && TopIs(hi, blocks, top)
      modifies this`mem, this`blocks, this`top, this`lo, this`hi
      ensures Running() && |mem| == |old(mem)| && 0 !in old(blocks) && base !in old(blocks)
      ensures base in blocks && blocks[base] == Block(want, true)
      ensures Users(blocks) == Users(old(blocks))[base := want] && Kept(old(blocks), old(mem), blocks, mem, 0)
      ensures Coalesced(old(blocks)) ==> Coalesced(blocks)
    {
      hide BlockSize, InUse, NextBlock, Users, Coalesced, Kept, Sane, Aligned, TopIs;
      ghost var bs0, m0 := blocks, mem;
      if lo == 0 {
        FirstSane(mem, base, want);
        FirstKept(blocks, mem, base, want);
        lo := base;
        mem := mem[base + 8 := 0];
      } else {
        SaneShape(mem, lo, hi, blocks, freeHead, free, {}, 0);
        GrownSane(mem, lo, hi, blocks, freeHead, free, top, want);
        AddedUsers(blocks, hi, want);
        TopRead();
        mem := mem[base + 8 := BlockSize(top)];
      }
      hi := base + want;
      SetBlock(base, want, true);
      top := base;
      blocks := blocks[base := Block(want, true)];
    }

    lemma TopRead()
      requires Agree({}, 0) && TopIs(hi, blocks, top)
      ensures top in blocks && 0 < top && top + 32 <= |mem| && BlockSize(top) == blocks[top].size
    {
      Reads(top, {}, 0);
    }

    /** The first block on the list that is large enough, or 0 when no free block is. */
    method FindFit(want: nat) returns (b: int)
      requires Valid()
      ensures b == 0 <==> !FreeFit(blocks, want)
      ensures b != 0 ==> Running() && b in blocks && !blocks[b].used && blocks[b].size >= want
      ensures b != 0 ==> exists k :: 0 <= k < |free| && free[k] == b && forall j :: 0 <= j < k ==>
                free[j] in blocks && blocks[free[j]].size < want
    {
      hide BlockSize, InUse, NextBlock, Sane;
      if lo == 0 {
        return 0;
      }
      AllListed();
      var node := freeHead;
      ghost var k := 0;
      while node != 0
        invariant 0 <= k <= |free| && node == (if k < |free| then free[k] + 16 else 0)
        invariant forall j :: 0 <= j < k ==> free[j] in blocks && blocks[free[j]].size < want
        decreases |free| - k
      {
        NodeAt(k);
        Reads(node - 16, {}, 0);
        if BlockSize(node - 16) >= want {
          return node - 16;
        }
        node := mem[node];
        k := k + 1;
      }
      if k < |free| {
        NodeAt(k);
      }
      return 0;
    }

    lemma NodeAt(k: nat)
      requires Agree({}, 0) && k < |free|
      ensures 0 < free[k] && free[k] + 32 <= |mem| && free[k] in blocks && !blocks[free[k]].used
      ensures mem[free[k] + 16] == if k + 1 < |free| then free[k + 1] + 16 else 0
    {
      assert Node(mem, free, k);
    }

    lemma AllListed()
      requires Agree({}, 0)
      ensures forall a :: a in blocks && !blocks[a].used ==> a in free
      ensures freeHead == if free == [] then 0 else free[0] + 16
    {
    }

    // ---- the calls ----

    /** A block of at least `want` bytes, off the list and in use: the first that fits, or a new one. */
    method Take(want: nat) returns (b: int)
      requires Valid() && 32 <= want && Answerable(want)
      modifies this
      ensures |mem| == |old(mem)|
      ensures b == 0 ==> Valid() && mem == old(mem) && blocks == old(blocks) && lo == old(lo) && errno == ENOMEM
      ensures FreeFit(old(blocks), want) ==> b != 0 && brk == old(brk)
      ensures b != 0 ==>
                && Running() && b in blocks && blocks[b].used && blocks[b].size >= want && b !in Users(old(blocks))
                && Users(blocks) == Users(old(blocks))[b := blocks[b].size]
                && Kept(old(blocks), old(mem), blocks, mem, 0)
                && (Coalesced(old(blocks)) ==> Coalesced(blocks) && AboveUsed(blocks, b) && BelowUsed(blocks, b))
    {
      hide BlockSize, InUse, NextBlock, Users, Coalesced, Kept, Sane, Aligned, TopIs, AboveUsed, BelowUsed, Askable;
      b := FindFit(want);
      ghost var bs0, m0 := blocks, mem;
      KeptSelf(bs0, m0, 0);
      if b == 0 {
        b := Grow(want);
        if b == 0 {
          errno := ENOMEM;
          return;
        }
      }
      ghost var bs1, m1 := blocks, mem;
      SaneShape(mem, lo, hi, blocks, freeHead, free, {}, 0);
      TakenFacts(blocks, b);
      MarkedTop(hi, blocks, top, b, true);
      TakeOff(b, {}, 0);
      ghost var m2 := mem;
      Mark(b, true, {} + {b});
      assert {} + {b} - {b} == {};
      KeptThrough(bs0, m0, bs1, m1, bs1, m2, 0, 0);
      KeptAll(bs1, m2, blocks, mem, b, 0);
      KeptThrough(bs0, m0, bs1, m2, blocks, mem, 0, 0);
    }

    /** The promise of an allocation: one more block in use, large enough, wasting less than a block. */
    ghost predicate Allocated(before: Blocks, m: seq<int>, p: int, want: int)
      reads this
    {
      && Running() && Aligned(p) && p - 16 !in Users(before) && p - 16 in Users(blocks)
      && Users(blocks) == Users(before)[p - 16 := Users(blocks)[p - 16]]
      && want <= Users(blocks)[p - 16] < want + 32
      && Kept(before, m, blocks, mem, 0)
    }

    method Malloc(size: nat) returns (p: int)
      requires Valid() && size < 0x1_0000_0000_0000_0000
      requires Answerable(NeededFor(if size == 0 then 1 else size))
      modifies this
      ensures Valid() && |mem| == |old(mem)|
      ensures p == 0 ==> mem == old(mem) && blocks == old(blocks) && errno == ENOMEM
      ensures p != 0 ==> Allocated(old(blocks), old(mem), p, NeededFor(if size == 0 then 1 else size))
      ensures Coalesced(old(blocks)) ==> Coalesced(blocks)
      ensures var want := NeededFor(if size == 0 then 1 else size);
              want != 0 && FreeFit(old(blocks), want) ==> p != 0 && brk == old(brk)
    {
      hide BlockSize, InUse, NextBlock, Users, Coalesced, Kept, Sane, Aligned, TopIs, AboveUsed, BelowUsed, Askable,
           Answerable, SameCells, NeededFor;
      var want := NeededFor(if size == 0 then 1 else size);
      if want == 0 {
        errno := ENOMEM;
        return 0;
      }
      var b := Take(want);
      if b == 0 {
        return 0;
      }
      ghost var bs1, m1 := blocks, mem;
      SaneShape(mem, lo, hi, blocks, freeHead, free, {}, 0);
      Split(b, want);
      InUseAfter(old(blocks), old(mem), bs1, m1, blocks, mem, b);
      BlockAligned(b);
      p := b + 16;
    }

    lemma BlockAligned(b: int)
      requires Running() && b in blocks
      ensures Aligned(b + 16) && 0 < b
    {
      Reads(b, {}, 0);
      SaneHeader(mem, lo, hi, blocks, freeHead, free, {}, 0, b);
    }

    /** Freeing NULL, or a block that is already free, changes nothing. */
    method Free(ptr: int)
      requires Valid() && (ptr == 0 || ptr - 16 in blocks)
      modifies this`mem, this`freeHead, this`free, this`blocks, this`top, this`hi, this`brk
      ensures Valid() && |mem| == |old(mem)|
      ensures Users(blocks) == Users(old(blocks)) - {ptr - 16}
      ensures Kept(old(blocks), old(mem), blocks, mem, ptr - 16)
      ensures ptr == 0 || !old(blocks)[ptr - 16].used ==> mem == old(mem) && blocks == old(blocks) && brk == old(brk)
      ensures Coalesced(old(blocks)) ==> Coalesced(blocks)
    {
      hide BlockSize, InUse, NextBlock, Coalesced, Kept, Sane, TopIs;
      ghost var bs0, m0 := blocks, mem;
      KeptSelf(blocks, mem, ptr - 16);
      if ptr == 0 {
        NothingAt(-16);
        return;
      }
      var b := ptr - 16;
      Reads(b, {}, 0);
      if !InUse(b) {
        return;
      }
      hide Users;
      ghost var freed := Release(b);
      ghost var bs1, m1 := blocks, mem;
      SaneShape(mem, lo, hi, blocks, freeHead, free, {}, 0);
      Trim();
      KeptThrough(bs0, m0, bs1, m1, blocks, mem, b, 0);
    }

    /** Fill cells of a payload. */
    method Memset(p: int, n: nat)
      requires 0 <= p && p + n <= |mem|
      modifies this`mem
      ensures |mem| == |old(mem)|
      ensures forall x :: 0 <= x < |mem| ==> mem[x] == if p <= x < p + n then 0 else old(mem)[x]
    {
      var k := 0;
      while k < n
        invariant k <= n && |mem| == |old(mem)|
        invariant forall x :: 0 <= x < |mem| ==> mem[x] == if p <= x < p + k then 0 else old(mem)[x]
      {
        mem := mem[p + k := 0];
        k := k + 1;
      }
    }

    /** Copy cells from one payload to another. */
    method Memcpy(to: int, from: int, n: nat)
      requires 0 <= to && to + n <= |mem| && 0 <= from && from + n <= |mem| && (to + n <= from || from + n <= to)
      modifies this`mem
      ensures |mem| == |old(mem)|
      ensures mem[to..to + n] == old(mem)[from..from + n]
      ensures forall x :: 0 <= x < |mem| && !(to <= x < to + n) ==> mem[x] == old(mem)[x]
    {
      var k := 0;
      while k < n
        invariant k <= n && |mem| == |old(mem)| && mem[to..to + k] == old(mem)[from..from + k]
        invariant forall x :: 0 <= x < |mem| && !(to <= x < to + k) ==> mem[x] == old(mem)[x]
      {
        ghost var m := mem;
        mem := mem[to + k := mem[from + k]];
        assert mem[to..to + k + 1] == m[to..to + k] + [old(mem)[from + k]];
        assert old(mem)[from..from + k + 1] == old(mem)[from..from + k] + [old(mem)[from + k]];
        k := k + 1;
      }
    }

    /** Writing inside the payload of a block in use disturbs nothing else. */
    lemma PayloadWrite(m: seq<int>, b: int)
      requires lo != 0 && hi <= |mem| && Sane(m, lo, hi, blocks, freeHead, free, {}, 0) && b in blocks && blocks[b].used
      requires |mem| == |m| && forall x :: 0 <= x < |m| && !(b + 16 <= x < b + blocks[b].size) ==> mem[x] == m[x]
      ensures Agree({}, 0) && Kept(blocks, m, blocks, mem, b)
    {
      SaneHeader(m, lo, hi, blocks, freeHead, free, {}, 0, b);
      FreeNodes(m, lo, hi, blocks, freeHead, free, {}, 0);
      assert b !in free;
      InsideWrite(m, mem, lo, hi, blocks, freeHead, free, b);
      assert mem[b] == m[b] && mem[b + 8] == m[b + 8];
      HeadersSurvive(m, mem, lo, blocks, 0);
    }

    lemma PayloadRoom(b: int)
      requires Running() && b in blocks
      ensures 0 < b && b + blocks[b].size <= |mem| && blocks[b].size >= 32
    {
      Reads(b, {}, 0);
      SaneHeader(mem, lo, hi, blocks, freeHead, free, {}, 0, b);
    }

    /** malloc of a product, refused when it does not fit 64 bits, and zeroed. */
    method Calloc(nmemb: nat, size: nat) returns (p: int)
      requires Valid() && nmemb < 0x1_0000_0000_0000_0000 && size < 0x1_0000_0000_0000_0000
      requires var n := Product(nmemb, size);
               n < 0x1_0000_0000_0000_0000 ==> Answerable(NeededFor(if n == 0 then 1 else n))
      modifies this
      ensures Valid() && |mem| == |old(mem)|
      ensures p == 0 ==> mem == old(mem) && blocks == old(blocks) && errno == ENOMEM
      ensures Product(nmemb, size) >= 0x1_0000_0000_0000_0000 ==> p == 0
      ensures p != 0 ==>
                var n := Product(nmemb, size);
                && Allocated(old(blocks), old(mem), p, NeededFor(if n == 0 then 1 else n))
                && 0 <= p && p + n <= |mem| && forall x :: p <= x < p + n ==> mem[x] == 0
      ensures var n := Product(nmemb, size);
              n < 0x1_0000_0000_0000_0000 && NeededFor(if n == 0 then 1 else n) != 0
                  && FreeFit(old(blocks), NeededFor(if n == 0 then 1 else n)) ==>
                p != 0 && brk == old(brk)
      ensures Coalesced(old(blocks)) ==> Coalesced(blocks)
    {
      hide BlockSize, InUse, NextBlock, Users, Coalesced, Kept, Sane, Aligned, TopIs, Askable, Answerable, NeededFor,
           Product, MultiplyFails, Wrapped;
      ProductChecked(nmemb, size);
      var total := Wrapped(nmemb, size);
      if MultiplyFails(nmemb, size) {
        errno := ENOMEM;
        return 0;
      }
      p := Malloc(total);
      if p != 0 {
        ghost var m := mem;
        UserIs(p - 16, Users(blocks)[p - 16]);
        RoomFor(total);
        PayloadRoom(p - 16);
        Memset(p, total);
        PayloadWrite(m, p - 16);
        KeptThroughNew(old(blocks), old(mem), blocks, m, blocks, mem, p - 16);
      }
    }

    /** The promise of a reallocation: the block has become the one at `p`, with what it held. */
    ghost predicate Reallocated(before: Blocks, m: seq<int>, b: int, p: int, want: int, size: int)
      requires b in before
      reads this
    {
      && Running() && Aligned(p) && p - 16 !in Users(before) - {b} && p - 16 in Users(blocks)
      && Users(blocks) == (Users(before) - {b})[p - 16 := Users(blocks)[p - 16]]
      && want <= Users(blocks)[p - 16] < want + 32
      && Kept(before, m, blocks, mem, b)
      && CopiedCells(m, mem, b + 16, p, if before[b].size - 16 < size then before[b].size - 16 else size)
    }

    method Realloc(ptr: int, size: nat) returns (p: int)
      requires Valid() && (ptr == 0 || (ptr - 16 in blocks && blocks[ptr - 16].used))
      requires size < 0x1_0000_0000_0000_0000 && Answerable(NeededFor(if size == 0 then 1 else size))
      modifies this
      ensures Valid() && |mem| == |old(mem)|
      ensures p == 0 && (ptr == 0 || size > 0) ==> mem == old(mem) && blocks == old(blocks) && errno == ENOMEM
      ensures ptr == 0 && p != 0 ==> Allocated(old(blocks), old(mem), p, NeededFor(if size == 0 then 1 else size))
      ensures ptr != 0 && size == 0 ==> p == 0 && Users(blocks) == Users(old(blocks)) - {ptr - 16}
                                        && Kept(old(blocks), old(mem), blocks, mem, ptr - 16)
      ensures ptr != 0 && p != 0 ==> Reallocated(old(blocks), old(mem), ptr - 16, p, NeededFor(size), size)
      ensures ptr != 0 && size > 0 && NeededFor(size) != 0 && FitsInPlace(old(blocks), ptr - 16, NeededFor(size)) ==>
                p == ptr
      ensures ptr != 0 && p != 0 && !FitsInPlace(old(blocks), ptr - 16, NeededFor(size)) ==> p != ptr
      ensures var want := NeededFor(if size == 0 then 1 else size);
              (ptr == 0 || size > 0) && want != 0 && FreeFit(old(blocks), want) ==> p != 0
      ensures Coalesced(old(blocks)) ==>
                if ptr != 0 && size > 0 && 0 < NeededFor(size) <= old(blocks)[ptr - 16].size - 32
                then Coalesced(blocks) <==> AboveUsed(old(blocks), ptr - 16)
                else Coalesced(blocks)
    {
      hide BlockSize, InUse, NextBlock, Users, Coalesced, AboveUsed, Kept, Sane, Aligned, TopIs, Askable, Answerable,
           NeededFor, CopiedCells;
      if ptr == 0 {
        p := Malloc(size);
        return;
      }
      if size == 0 {
        Free(ptr);
        return 0;
      }
      var b := ptr - 16;
      Reads(b, {}, 0);
      BlockAligned(b);
      var have := BlockSize(b);
      var want := NeededFor(size);
      if want == 0 {
        errno := ENOMEM;
        return 0;
      }
      NeededFacts(size);
      if want <= have {
        Shrink(b, want, size);
        return ptr;
      }
      var next := NextBlock(b);
      if next != 0 {
        Reads(next, {}, 0);
        if !InUse(next) && have + BlockSize(next) >= want {
          Swallow(b, want, size);
          return ptr;
        }
      }
      p := Move(b, want, size);
    }

    /** The block is large enough: cut it. */
    method Shrink(b: int, want: nat, size: nat)
      requires Running() && b in blocks && blocks[b].used && 32 <= want <= blocks[b].size && Aligned(want)
      requires size + 16 <= want
      modifies this`mem, this`freeHead, this`free, this`blocks, this`top
      ensures |mem| == |old(mem)| && Reallocated(old(blocks), old(mem), b, b + 16, want, size)
      ensures Coalesced(old(blocks)) ==>
                if want <= old(blocks)[b].size - 32 then Coalesced(blocks)
                     <==> AboveUsed(old(blocks), b) else Coalesced(blocks)
    {
      ghost var bs0, m0 := blocks, mem;
      SaneShape(mem, lo, hi, blocks, freeHead, free, {}, 0);
      BlockAligned(b);
      PayloadRoom(b);
      Split(b, want);
      CellsCopied(m0, mem, b, want, size);
      ResizedUsers(bs0, blocks, b);
      if Coalesced(bs0) && want <= bs0[b].size - 32 && !AboveUsed(bs0, b) {
        CutExposed(lo, hi, bs0, b, want);
      }
    }

    /** The block above is free and there is enough of it: take it in, then cut. */
    method Swallow(b: int, want: nat, size: nat)
      requires Running() && b in blocks && blocks[b].used && 32 <= want && Aligned(want) && size + 16 <= want
      requires var next := b + blocks[b].size;
               next in blocks && !blocks[next].used && blocks[b].size < want <= blocks[b].size + blocks[next].size
      modifies this`mem, this`freeHead, this`free, this`blocks, this`top
      ensures |mem| == |old(mem)| && Reallocated(old(blocks), old(mem), b, b + 16, want, size)
      ensures Coalesced(old(blocks)) ==> Coalesced(blocks)
    {
      hide BlockSize, InUse, NextBlock, Users, Coalesced, AboveUsed, Kept, Sane, Aligned, TopIs, TopOr, CopiedCells,
           SameCells, Shape;
      ghost var bs0, m0 := blocks, mem;
      ghost var have, next := blocks[b].size, b + blocks[b].size;
      SaneShape(mem, lo, hi, blocks, freeHead, free, {}, 0);
      BlockAligned(b);
      PayloadRoom(b);
      TopEither(hi, blocks, top, b);
      MergedTop(lo, hi, blocks, top, b, b);
      MergedUsed(lo, hi, blocks, b);
      Reads(b, {}, 0);
      TakeOff(b + BlockSize(b), {}, 0);
      ghost var m1 := mem;
      KeptAt(bs0, m0, bs0, m1, 0, b);
      assert {} + {next} == {next} && {next} - {next} == {};
      Absorb(b, {next}, 0);
      ghost var bs2, m2 := blocks, mem;
      SaneShape(mem, lo, hi, blocks, freeHead, free, {}, b);
      Settle(b, {}, b);
      SettledTop(hi, blocks, old(top), top, b);
      ghost var m3 := mem;
      KeptAt(bs2, m2, bs2, m3, 0, b);
      Split(b, want);
      SwallowDone(bs0, m0, m1, bs2, m2, m3, blocks, mem, b, want, have, if have - 16 < size then have - 16 else size);
    }

    /** Allocate anew, copy, and free the old block. */
    method Move(b: int, want: nat, size: nat) returns (p: int)
      requires Running() && b in blocks && blocks[b].used && blocks[b].size < want && 0 < size < 0x1_0000_0000_0000_0000
      requires want == NeededFor(size) && Answerable(want)
      modifies this
      ensures Valid() && |mem| == |old(mem)|
      ensures p == 0 ==> mem == old(mem) && blocks == old(blocks) && errno == ENOMEM
      ensures p != 0 ==> Reallocated(old(blocks), old(mem), b, p, want, size) && p != b + 16
      ensures FreeFit(old(blocks), want) ==> p != 0
      ensures Coalesced(old(blocks)) ==> Coalesced(blocks)
    {
      hide BlockSize, InUse, NextBlock, Users, Coalesced, AboveUsed, Kept, Sane, Aligned, TopIs, CopiedCells, Askable,
           Answerable, NeededFor;
      ghost var bs0, m0 := blocks, mem;
      Reads(b, {}, 0);
      SaneShape(mem, lo, hi, blocks, freeHead, free, {}, 0);
      PayloadRoom(b);
      NeededFacts(size);
      var have := BlockSize(b);
      UserOf(bs0, b);
      p := Malloc(size);
      if p == 0 {
        return;
      }
      ghost var bs1, m1, f := blocks, mem, p - 16;
      KeptAt(bs0, m0, bs1, m1, 0, b);
      UserIs(f, Users(blocks)[f]);
      PayloadRoom(f);
      BlocksApart(b, f);
      Memcpy(p, b + 16, have - 16);
      ghost var m2 := mem;
      PayloadWrite(m1, f);
      Free(b + 16);
      KeptAt(bs1, m2, blocks, mem, b, f);
      MoveDone(bs0, m0, bs1, m1, m2, blocks, mem, b, f, have, size);
    }

    /** An allocation aligned to any power of two up to 2^62. Alignments up to 16 are all blocks', and
        are not checked. */
    method AlignedAlloc(alignment: nat, size: nat) returns (p: int)
      requires Valid() && size < 0x1_0000_0000_0000_0000
      requires alignment <= 16 || PowerOfTwo(alignment) ==>
                 alignment <= 0x4000_0000_0000_0000 && Answerable(AlignedNeed(alignment, size))
      modifies this
      ensures Valid() && |mem| == |old(mem)|
      ensures p == 0 ==> mem == old(mem) && blocks == old(blocks)
      ensures alignment > 16 && !PowerOfTwo(alignment) ==> p == 0
      ensures p == 0 ==> errno == if alignment > 16 && !PowerOfTwo(alignment) then EINVAL else ENOMEM
      ensures var want := AlignedNeed(alignment, size);
              (alignment <= 16 || PowerOfTwo(alignment)) && want != 0 && FreeFit(old(blocks), want) ==>
                  p != 0 && brk == old(brk)
      ensures p != 0 ==>
                Allocated(old(blocks), old(mem), p, NeededFor(if size == 0 && alignment <= 16 then 1 else size))
      ensures p != 0 && alignment > 16 ==> p % alignment == 0
      ensures Coalesced(old(blocks)) ==> Coalesced(blocks)
    {
      hide BlockSize, InUse, NextBlock, Users, Coalesced, AboveUsed, BelowUsed, Kept, Sane, Aligned, TopIs, Askable,
           Answerable, NeededFor;
      if alignment <= 16 {
        p := Malloc(size);
        return;
      }
      if !PowerOfTwo(alignment) {
        errno := EINVAL;
        return 0;
      }
      var want := NeededFor(size);
      if want == 0 {
        errno := ENOMEM;
        return 0;
      }
      NeededFacts(size);
      var extra := 2 * alignment + 32;
      if want + extra >= 0x1_0000_0000_0000_0000 {
        errno := ENOMEM;
        return 0;
      }
      var b := Take(want + extra);
      if b == 0 {
        return 0;
      }
      PowerOfTwoAligned(alignment);
      p := PlaceAligned(b, want, alignment, old(blocks), old(mem));
    }

    /** Where in a block the aligned payload goes, leaving nothing or a whole block in front. */
    method FindAligned(b: int, alignment: nat) returns (front: int)
      requires 0 < b && Aligned(b) && alignment > 16 && alignment % 32 == 0
      ensures (b + front + 16) % alignment == 0 && Aligned(front) && (front == 0 || 32 <= front)
      ensures front < 32 + alignment
    {
      AlignedSum(b, 16);
      var aligned: nat := RoundUp(b + 16, alignment);
      front := aligned - 16 - b;
      MultipleAligned(aligned, alignment);
      AlignedSum(aligned, b + 16);
      if front != 0 {
        while front < 32
          invariant 0 < front < 32 + alignment && aligned == b + front + 16 && aligned % alignment == 0
          invariant Aligned(front)
          decreases 32 - front
        {
          ModAddMultiple(aligned, 1, alignment);
          MultipleAligned(alignment, alignment);
          AlignedSum(front, alignment);
          aligned := aligned + alignment;
          front := aligned - 16 - b;
        }
      }
    }

    /** Give the front of a block back, and cut the rest to size. */
    method PlaceAligned(b: int, want: nat, alignment: nat, ghost bs0: Blocks, ghost m0: seq<int>) returns (p: int)
      requires Running() && b in blocks && blocks[b].used && 32 <= want && Aligned(want)
      requires alignment > 16 && alignment % 32 == 0 && want + 2 * alignment + 32 <= blocks[b].size
      requires b !in Users(bs0) && Users(blocks) == Users(bs0)[b := blocks[b].size] && Kept(bs0, m0, blocks, mem, 0)
      modifies this`mem, this`freeHead, this`free, this`blocks, this`top
      ensures |mem| == |old(mem)| && p > 0 && p % alignment == 0 && Allocated(bs0, m0, p, want)
      ensures Coalesced(old(blocks)) && AboveUsed(old(blocks), b) ==> Coalesced(blocks)
    {
      hide BlockSize, InUse, NextBlock, Users, Coalesced, AboveUsed, BelowUsed, Kept, Sane, Aligned, TopIs, TopOr,
           SameCells;
      PayloadRoom(b);
      HeaderAligned(b);
      var front := FindAligned(b, alignment);
      var tail := b + front;
      ghost var bs1, m1 := blocks, mem;
      SaneShape(mem, lo, hi, blocks, freeHead, free, {}, 0);
      KeptSelf(blocks, mem, b);
      if front != 0 {
        GiveFront(b, front);
      }
      ghost var bs2, m2 := blocks, mem;
      FrontUsers(bs0, m0, bs1, m1, bs2, m2, b, tail);
      SaneShape(mem, lo, hi, blocks, freeHead, free, {}, 0);
      Split(tail, want);
      InUseAfter(bs0, m0, bs2, m2, blocks, mem, tail);
      BlockAligned(tail);
      p := tail + 16;
    }

    /** Make the first `front` bytes of a block in use a free block. */
    method GiveFront(b: int, front: int)
      requires Running() && b in blocks && blocks[b].used && 32 <= front && front + 32 <= blocks[b].size
      requires Aligned(front)
      modifies this`mem, this`freeHead, this`free, this`blocks, this`top
      ensures Running() && |mem| == |old(mem)| && b + front !in old(blocks)
      ensures b + front in blocks && blocks[b + front] == Block(old(blocks)[b].size - front, true)
      ensures Users(blocks) == (Users(old(blocks)) - {b})[b + front := old(blocks)[b].size - front]
      ensures Kept(old(blocks), old(mem), blocks, mem, b)
      ensures Coalesced(old(blocks)) && AboveUsed(old(blocks), b) ==> Coalesced(blocks) && AboveUsed(blocks, b + front)
    {
      hide BlockSize, InUse, NextBlock, Users, Coalesced, AboveUsed, BelowUsed, Kept, Sane, Aligned, TopIs, TopOr,
           SameCells, Shape;
      var tail := b + front;
      ghost var bs0, m0 := blocks, mem;
      SaneShape(mem, lo, hi, blocks, freeHead, free, {}, 0);
      Carve(b, front, true);
      ghost var bs1, m1 := blocks, mem;
      CutUsed(lo, hi, bs0, b, front);
      SaneShape(mem, lo, hi, blocks, freeHead, free, {}, tail);
      Settle(tail, {}, tail);
      SettledTop(hi, blocks, if b + bs0[b].size == hi then tail else old(top), top, tail);
      ghost var m2 := mem;
      ghost var freed := Release(b);
      SaneShape(mem, lo, hi, blocks, freeHead, free, {}, 0);
      KeptAt(bs1, m2, blocks, mem, b, tail);
      KeptThrough(bs0, m0, bs1, m1, bs1, m2, b, 0);
      KeptThrough(bs0, m0, bs1, m2, blocks, mem, b, b);
      AboveStill(lo, hi, bs1, m2, blocks, mem, b, tail);
    }

    lemma HeaderAligned(b: int)
      requires Running() && b in blocks
      ensures 0 < b && Aligned(b)
    {
      SaneHeader(mem, lo, hi, blocks, freeHead, free, {}, 0, b);
    }

    lemma BlocksApart(a: int, b: int)
      requires Running() && a in blocks && b in blocks && a != b
      ensures a + blocks[a].size <= b || b + blocks[b].size <= a
    {
      assert Shape(lo, hi, blocks);
    }

    lemma UserIs(b: int, size: int)
      requires b in Users(blocks) && Users(blocks)[b] == size
      ensures b in blocks && blocks[b] == Block(size, true)
    {
    }

    lemma NothingAt(a: int)
      requires Valid() && a <= 0
      ensures a !in blocks
    {
      if lo != 0 && a in blocks {
        SaneHeader(mem, lo, hi, blocks, freeHead, free, {}, 0, a);
      }
    }

    /** What the accessors return is what the tiling says. */
    lemma Reads(b: int, off: set<int>, stale: int)
      requires Agree(off, stale) && b in blocks
      ensures 0 < b && b + 32 <= |mem| && BlockSize(b) == blocks[b].size >= 32 && InUse(b) == blocks[b].used
      ensures var next := b + blocks[b].size;
              && next > 0 && (next in blocks <==> next != hi) && (next in blocks ==> next + 32 <= |mem|)
              && NextBlock(b) == if next in blocks then next else 0
    {
      SaneHeader(mem, lo, hi, blocks, freeHead, free, off, stale, b);
      NextIs(mem, lo, hi, blocks, freeHead, free, off, stale, b);
    }
  }

  lemma Position(bs: Blocks, free: seq<int>, off: set<int>, b: int) returns (k: nat)
    requires Lists(bs, free, off) && b in bs && !bs[b].used && b !in off
    ensures k < |free| && free[k] == b
  {
    k :| k < |free| && free[k] == b;
  }

  lemma SaneLinked(m: seq<int>, lo: int, hi: int, bs: Blocks, head: int, free: seq<int>, off: set<int>, stale: int)
    requires Sane(m, lo, hi, bs, head, free, off, stale)
    ensures Linked(m, head, free) && Lists(bs, free, off)
  {
  }

  /** The block above is where this one ends, unless that is the end of the heap. */
  lemma NextIs(m: seq<int>, lo: int, hi: int, bs: Blocks, head: int, free: seq<int>, off: set<int>, stale: int, b: int)
    requires Sane(m, lo, hi, bs, head, free, off, stale) && b in bs
    ensures var next := b + bs[b].size;
            && next > 0 && (next < hi <==> next in bs) && (next == hi <==> next !in bs)
            && (next in bs ==> next + 32 <= |m|)
  {
    SaneHeader(m, lo, hi, bs, head, free, off, stale, b);
    var next := b + bs[b].size;
    assert Placed(lo, hi, bs, b);
    if next in bs {
      SaneHeader(m, lo, hi, bs, head, free, off, stale, next);
    }
  }

  /** The block below is the size noted in the header away, unless there is none. */
  lemma PrevIs(m: seq<int>, lo: int, hi: int, bs: Blocks, head: int, free: seq<int>, off: set<int>, b: int)
    requires Sane(m, lo, hi, bs, head, free, off, 0) && b in bs
    ensures 0 < b && b + 32 <= |m|
    ensures m[b + 8] == 0 ==> b == lo
    ensures m[b + 8] != 0 ==> b - m[b + 8] > 0 && Adjacent(bs, b - m[b + 8], b)
  {
    SaneHeader(m, lo, hi, bs, head, free, off, 0, b);
    if b != lo {
      SaneHeader(m, lo, hi, bs, head, free, off, 0, b - m[b + 8]);
    }
  }

  lemma CarvedSame(m: seq<int>, b: int, want: int, x: int, y: int, z: int)
    requires 0 <= b && 32 <= want && b + want + 32 <= |m|
    ensures SameCells(m, m[b := x][b + want + 8 := y][b + want := z], b + 16, b + want)
  {
  }

  lemma HiPositive(lo: int, hi: int, bs: Blocks)
    requires Shape(lo, hi, bs)
    ensures 0 < hi
  {
  }

  lemma TrimSize(m: seq<int>, lo: int, hi: int, bs: Blocks, head: int, free: seq<int>, top: int, give: nat)
    requires Sane(m, lo, hi, bs, head, free, {}, 0) && TopIs(hi, bs, top) && give % 4096 == 0
    requires give + 0x1_0000 <= bs[top].size
    ensures 32 <= bs[top].size - give && Aligned(bs[top].size - give) && 0 < hi - give && 0 < top
  {
    assert Placed(lo, hi, bs, top);
    PagesAligned(give);
    AlignedSum(bs[top].size, give);
  }

  lemma FirstKept(bs: Blocks, m: seq<int>, base: int, want: int)
    requires bs == map[]
    ensures forall m1: seq<int> :: Kept(bs, m, map[base := Block(want, true)], m1, 0)
    ensures Users(map[base := Block(want, true)]) == Users(bs)[base := want]
    ensures bs[base := Block(want, true)] == map[base := Block(want, true)]
    ensures Coalesced(map[base := Block(want, true)])
  {
  }

  lemma AddedUsers(bs: Blocks, hi: int, want: int)
    requires hi !in bs
    ensures Users(bs[hi := Block(want, true)]) == Users(bs)[hi := want]
    ensures Coalesced(bs) ==> Coalesced(bs[hi := Block(want, true)])
  {
    var now := bs[hi := Block(want, true)];
    if Coalesced(bs) {
      forall x, y | Adjacent(now, x, y) ensures now[x].used || now[y].used {
        assert x != hi && y != hi ==> Adjacent(bs, x, y);
      }
    }
  }

  /** The new block was in use only for a moment. */
  lemma KeptGrown(bs: Blocks, m: seq<int>, bs1: Blocks, m1: seq<int>, bs2: Blocks, m2: seq<int>, b: int)
    requires Kept(bs, m, bs1, m1, 0) && Kept(bs1, m1, bs2, m2, b) && b !in bs && 0 !in bs
    requires b in bs1 && Users(bs1) == Users(bs)[b := bs1[b].size] && Users(bs2) == Users(bs1) - {b}
    ensures Kept(bs, m, bs2, m2, 0) && Users(bs2) == Users(bs)
  {
    assert b !in Users(bs);
  }

  lemma TakenFacts(bs: Blocks, b: int)
    requires b in bs && !bs[b].used
    ensures b !in Users(bs) && Users(Marked(bs, b, true)) == Users(bs)[b := bs[b].size]
    ensures Coalesced(bs) ==>
              Coalesced(Marked(bs, b, true)) && AboveUsed(Marked(bs, b, true), b) && BelowUsed(Marked(bs, b, true), b)
  {
    var now := Marked(bs, b, true);
    if Coalesced(bs) {
      forall x, y | Adjacent(now, x, y)
        ensures (now[x].used || now[y].used) && (x == b ==> now[y].used) && (y == b ==> now[x].used)
      {
        assert Adjacent(bs, x, y);
      }
    }
  }

  /** What happens to the payload of a block that was not in use at first is nobody else's concern. */
  lemma KeptThroughNew(bs0: Blocks, m0: seq<int>, bs1: Blocks, m1: seq<int>, bs2: Blocks, m2: seq<int>, b: int)
    requires Kept(bs0, m0, bs1, m1, 0) && Kept(bs1, m1, bs2, m2, b) && b !in Users(bs0)
    ensures Kept(bs0, m0, bs2, m2, 0)
  {
    forall a | a in bs0 && bs0[a].used && a != 0
      ensures a in bs2 && bs2[a] == bs0[a] && SameCells(m0, m2, a + 16, a + bs0[a].size)
    {
      assert a in Users(bs0);
    }
  }

  /** A block taken into use and cut to size. */
  lemma InUseAfter(bs0: Blocks, m0: seq<int>, bs1: Blocks, m1: seq<int>, bs2: Blocks, m2: seq<int>, b: int)
    requires b in bs1 && bs1[b].used && b !in Users(bs0) && b in bs2
    requires Users(bs1) == Users(bs0)[b := bs1[b].size] && Users(bs2) == Users(bs1)[b := bs2[b].size]
    requires Kept(bs0, m0, bs1, m1, 0) && Kept(bs1, m1, bs2, m2, b)
    ensures Users(bs2) == Users(bs0)[b := bs2[b].size] && Kept(bs0, m0, bs2, m2, 0)
  {
    KeptThroughNew(bs0, m0, bs1, m1, bs2, m2, b);
  }

  /** Dividing the truncated product back tells whether it was truncated. */
  lemma ProductChecked(nmemb: nat, size: nat)
    ensures MultiplyFails(nmemb, size) <==> Product(nmemb, size) >= 0x1_0000_0000_0000_0000
    ensures !MultiplyFails(nmemb, size) ==> Wrapped(nmemb, size) == Product(nmemb, size)
  {
    var product := nmemb * size;
    if size != 0 {
      if product < 0x1_0000_0000_0000_0000 {
        DivModUnique(product, size, nmemb, 0);
      } else {
        var total := product % 0x1_0000_0000_0000_0000;
        var q := total / size;
        assert q * size <= total < product;
        if q >= nmemb {
          MulMono(nmemb, q, size);
        }
      }
    }
  }

  lemma RoomFor(size: nat)
    requires size < 0x1_0000_0000_0000_0000
    ensures var want := NeededFor(if size == 0 then 1 else size); want != 0 ==> size + 16 <= want
  {
  }

  /** `n` cells from `from` on are found from `to` on. */
  ghost predicate CopiedCells(m: seq<int>, m': seq<int>, from: int, to: int, n: int) {
    0 <= from && 0 <= to && 0 <= n && from + n <= |m| && to + n <= |m'| && m'[to..to + n] == m[from..from + n]
  }

  lemma NeededFacts(size: nat)
    requires size < 0x1_0000_0000_0000_0000
    ensures var want := NeededFor(size);
            want != 0 ==> size + 16 <= want && 32 <= want && Aligned(want) && (want == 32 || want < size + 32)
  {
  }

  lemma CellsCopied(m: seq<int>, m': seq<int>, b: int, want: int, n: int)
    requires SameCells(m, m', b + 16, b + want) && 0 <= b && 0 <= n && n + 16 <= want && b + 16 + n <= |m|
    ensures CopiedCells(m, m', b + 16, b + 16, n)
  {
  }

  lemma ResizedUsers(bs: Blocks, bs': Blocks, b: int)
    requires b in bs && bs[b].used && b in bs' && Users(bs') == Users(bs)[b := bs'[b].size]
    ensures b in Users(bs') && Users(bs')[b] == bs'[b].size
    ensures b !in Users(bs) - {b} && Users(bs') == (Users(bs) - {b})[b := Users(bs')[b]]
  {
  }

  /** Cutting a block below a free one leaves two free neighbours. */
  lemma CutExposed(lo: int, hi: int, bs: Blocks, b: int, want: int)
    requires Shape(lo, hi, bs) && b in bs && 32 <= want && want + 32 <= bs[b].size && !AboveUsed(bs, b)
    ensures !Coalesced(Cut(bs, b, want, false))
  {
    var now, tail := Cut(bs, b, want, false), b + want;
    var y :| Adjacent(bs, b, y) && !bs[y].used;
    assert Adjacent(now, tail, y);
  }

  lemma TopEither(hi: int, bs: Blocks, top: int, b: int)
    requires TopIs(hi, bs, top) && b in bs
    ensures TopOr(hi, bs, top, b)
  {
  }

  lemma UserOf(bs: Blocks, b: int)
    requires b in bs && bs[b].used
    ensures b in Users(bs) && Users(bs)[b] == bs[b].size
  {
  }

  /** A block in use that takes in the free one above has a used one, or nothing, above it then. */
  lemma MergedUsed(lo: int, hi: int, bs: Blocks, b: int)
    requires Shape(lo, hi, bs) && b in bs && bs[b].used && b + bs[b].size in bs && !bs[b + bs[b].size].used
    ensures Coalesced(bs) ==> Coalesced(Merged(bs, b)) && AboveUsed(Merged(bs, b), b)
    ensures b in Merged(bs, b) && Users(Merged(bs, b)) == Users(bs)[b := bs[b].size + bs[b + bs[b].size].size]
  {
    var now, next := Merged(bs, b), b + bs[b].size;
    assert Placed(lo, hi, bs, b);
    hide Shape, Aligned;
    if Coalesced(bs) {
      forall x, y | Adjacent(now, x, y) ensures (now[x].used || now[y].used) && (x == b ==> now[y].used) {
        assert if x == b then Adjacent(bs, next, y) else Adjacent(bs, x, y);
      }
    }
  }

  /** Growing in place keeps what the block held. */
  lemma SwallowDone(bs0: Blocks, m0: seq<int>, m1: seq<int>, bs2: Blocks, m2: seq<int>, m3: seq<int>, bs4: Blocks,
                    m4: seq<int>, b: int, want: int, have: int, n: int)
    requires b in bs0 && bs0[b] == Block(have, true) && b in bs2 && bs2[b].used && b in bs4 && 0 !in bs0 && 0 !in bs2
    requires 0 < b
    requires Kept(bs0, m0, bs0, m1, 0) && Kept(bs0, m1, bs2, m2, b) && Kept(bs2, m2, bs2, m3, 0)
    requires Kept(bs2, m3, bs4, m4, b)
    requires Users(bs2) == Users(bs0)[b := bs2[b].size] && Users(bs4) == Users(bs2)[b := bs4[b].size]
    requires SameCells(m0, m1, b + 16, b + have) && SameCells(m1, m2, b + 16, |m1|)
    requires SameCells(m2, m3, b + 16, b + bs2[b].size) && SameCells(m3, m4, b + 16, b + want)
    requires have < want <= bs2[b].size && 0 <= n <= have - 16 && b + have <= |m0|
    ensures Kept(bs0, m0, bs4, m4, b) && CopiedCells(m0, m4, b + 16, b + 16, n)
    ensures b in Users(bs4) && Users(bs4)[b] == bs4[b].size && Users(bs4) == (Users(bs0) - {b})[b := bs4[b].size]
    ensures b !in Users(bs0) - {b}
  {
    assert Users(bs4) == (Users(bs0) - {b})[b := bs4[b].size];
    forall x | b + 16 <= x < b + 16 + n ensures m4[x] == m0[x] {
      assert m1[x] == m0[x] && m2[x] == m1[x] && m3[x] == m2[x];
    }
    hide SameCells, Users;
    KeptThrough(bs0, m1, bs2, m2, bs2, m3, b, 0);
    KeptThrough(bs0, m1, bs2, m3, bs4, m4, b, b);
    KeptWeaker(bs0, m0, bs0, m1, b);
    KeptThrough(bs0, m0, bs0, m1, bs4, m4, b, b);
  }

  lemma KeptWeaker(bs: Blocks, m: seq<int>, bs': Blocks, m': seq<int>, b: int)
    requires Kept(bs, m, bs', m', 0) && 0 !in bs
    ensures Kept(bs, m, bs', m', b)
  {
  }

  /** What a move leaves: the new block holds the old payload, and all others are as they were. */
  lemma MoveDone(bs0: Blocks, m0: seq<int>, bs1: Blocks, m1: seq<int>, m2: seq<int>, bs3: Blocks, m3: seq<int>, b: int,
                 f: int, have: int, size: int)
    requires b in bs0 && bs0[b] == Block(have, true) && have >= 32 && 0 !in bs0 && f !in Users(bs0) && b in Users(bs0)
    requires f in bs1 && bs1[f].used && f in bs3 && bs3[f] == bs1[f] && bs1[f].size >= have && b != f
    requires Users(bs1) == Users(bs0)[f := bs1[f].size] && Users(bs3) == Users(bs1) - {b}
    requires Kept(bs0, m0, bs1, m1, 0) && Kept(bs1, m1, bs1, m2, f) && Kept(bs1, m2, bs3, m3, b)
    requires 0 <= b && 0 <= f && b + have <= |m0| == |m1| == |m2| == |m3| && f + bs1[f].size <= |m0| && 0 <= size
    requires SameCells(m0, m1, b + 16, b + have) && m2[f + 16..f + have] == m1[b + 16..b + have]
    requires SameCells(m2, m3, f + 16, f + bs1[f].size)
    ensures Kept(bs0, m0, bs3, m3, b)
    ensures CopiedCells(m0, m3, b + 16, f + 16, if have - 16 < size then have - 16 else size)
    ensures f !in Users(bs0) - {b} && f in Users(bs3) && Users(bs3) == (Users(bs0) - {b})[f := bs1[f].size]
  {
    var n := if have - 16 < size then have - 16 else size;
    var now, was := m3[f + 16..f + 16 + n], m0[b + 16..b + 16 + n];
    forall k | 0 <= k < n ensures now[k] == was[k] {
      assert m3[f + 16 + k] == m2[f + 16 + k];
      assert m2[f + 16..f + have][k] == m1[b + 16..b + have][k];
      assert m1[b + 16 + k] == m0[b + 16 + k];
    }
    assert now == was;
    hide SameCells;
    forall a | a in bs0 && bs0[a].used && a != b
      ensures a in bs3 && bs3[a] == bs0[a] && SameCells(m0, m3, a + 16, a + bs0[a].size)
    {
      assert a in Users(bs0);
      SameChain(m0, m1, m2, a + 16, a + bs0[a].size);
      SameChain(m0, m2, m3, a + 16, a + bs0[a].size);
    }
  }

  lemma SameChain(m: seq<int>, m1: seq<int>, m2: seq<int>, low: int, high: int)
    ensures SameCells(m, m1, low, high) && SameCells(m1, m2, low, high) ==> SameCells(m, m2, low, high)
  {
  }

  lemma PowerOfTwoAligned(n: nat)
    requires PowerOfTwo(n) && n > 16
    ensures n % 32 == 0
  {
    var h := n / 2;
    assert PowerOfTwo(h) && PowerOfTwo(h / 2) && PowerOfTwo(h / 2 / 2) && PowerOfTwo(h / 2 / 2 / 2);
  }

  lemma MultipleAligned(x: nat, n: nat)
    requires n > 0 && x % n == 0 && n % 32 == 0
    ensures Aligned(x)
  {
    var k, j := x / n, n / 32;
    assert x == k * n && n == j * 32;
    MulAssoc(k, j, 32);
    assert x == (k * j) * 32;
    MulNonneg(k, j);
    AlignedMultiple(k * j);
  }

  lemma AlignedMultiple(i: nat)
    ensures Aligned(i * 32)
  {
  }

  /** Both parts of a cut block in use are in use. */
  lemma CutUsed(lo: int, hi: int, bs: Blocks, b: int, want: int)
    requires Shape(lo, hi, bs) && b in bs && bs[b].used && 0 < want < bs[b].size && b + want !in bs
    ensures var now := Cut(bs, b, want, true);
            && Users(now) == Users(bs)[b := want][b + want := bs[b].size - want]
            && (Coalesced(bs) && AboveUsed(bs, b) ==> Coalesced(now) && AboveUsed(now, b + want))
  {
    var now, tail := Cut(bs, b, want, true), b + want;
    assert Placed(lo, hi, bs, b);
    hide Shape, Aligned;
    if Coalesced(bs) && AboveUsed(bs, b) {
      forall x, y | Adjacent(now, x, y) ensures (now[x].used || now[y].used) && (x == tail ==> now[y].used) {
        assert if x == tail then Adjacent(bs, b, y) else x == b || y == tail || Adjacent(bs, x, y);
      }
    }
  }

  /** What is above a block in use stays in use while another block is released. */
  lemma AboveStill(lo: int, hi: int, bs: Blocks, m: seq<int>, bs': Blocks, m': seq<int>, b: int, a: int)
    requires Shape(lo, hi, bs) && Shape(lo, hi, bs') && Kept(bs, m, bs', m', b) && a in bs && a in bs'
    requires bs'[a] == bs[a]
    requires a + bs[a].size != b
    ensures AboveUsed(bs, a) ==> AboveUsed(bs', a)
  {
    var y := a + bs[a].size;
    assert Placed(lo, hi, bs, a) && Placed(lo, hi, bs', a);
    if AboveUsed(bs, a) && y in bs {
      assert Adjacent(bs, a, y);
    }
    if y in bs' {
      assert Placed(lo, hi, bs', y);
    }
  }

  /** Giving the front back, or not, leaves the callers one block more than before the allocation. */
  lemma FrontUsers(bs0: Blocks, m0: seq<int>, bs1: Blocks, m1: seq<int>, bs2: Blocks, m2: seq<int>, b: int, tail: int)
    requires b !in Users(bs0) && b in bs1 && Users(bs1) == Users(bs0)[b := bs1[b].size] && Kept(bs0, m0, bs1, m1, 0)
    requires 0 !in bs1
    requires Kept(bs1, m1, bs2, m2, b) && tail in bs2
    requires if tail == b then bs2 == bs1
             else tail !in bs1 && Users(bs2) == (Users(bs1) - {b})[tail := bs2[tail].size]
    ensures tail !in Users(bs0) && Users(bs2) == Users(bs0)[tail := bs2[tail].size] && Kept(bs0, m0, bs2, m2, 0)
  {
    assert tail != b ==> tail !in Users(bs1);
    KeptThroughNew(bs0, m0, bs1, m1, bs2, m2, b);
  }
}
