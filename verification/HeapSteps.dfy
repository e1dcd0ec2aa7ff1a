/**
 The steps of the allocator, each as a change of memory and what it does to the blocks: taking a block
 off the list or putting it on, marking, merging and cutting blocks.
 */
module HeapSteps {
  import opened Tiling

  /** Memory, tiling and free list agree, except that the free blocks in `off` are not listed and,
      when `stale` is not zero, that the block above `stale` does not know its size yet. */
  ghost predicate Sane(m: seq<int>, lo: int, hi: int, bs: Blocks, head: int, free: seq<int>, off: set<int>,
                       stale: int) {
    && Shape(lo, hi, bs) && hi <= |m|
    && (if stale != 0 then stale in bs && HeadersBut(m, lo, bs, stale) else Headers(m, lo, bs))
    && Linked(m, head, free) && Lists(bs, free, off)
  }

  ghost predicate TopIs(hi: int, bs: Blocks, top: int) {
    top in bs && top + bs[top].size == hi
  }

  lemma SaneHeader(m: seq<int>, lo: int, hi: int, bs: Blocks, head: int, free: seq<int>, off: set<int>, stale: int,
                   a: int)
    requires Sane(m, lo, hi, bs, head, free, off, stale) && a in bs
    ensures 0 < a && a + 32 <= |m| && Placed(lo, hi, bs, a)
    ensures m[a] == bs[a].size + (if bs[a].used then 1 else 0) && bs[a].size % 2 == 0
    ensures (m[a] % 2 == 1 <==> bs[a].used) && m[a] - m[a] % 2 == bs[a].size
    ensures stale == 0 || a != stale + bs[stale].size ==> Header(m, lo, bs, a)
  {
    assert Placed(lo, hi, bs, a);
    assert if stale != 0 then HeaderBut(m, lo, bs, stale, a) else Header(m, lo, bs, a);
    EvenSize(bs[a].size);
    hide Aligned;
  }

  lemma EvenSize(size: int)
    requires Aligned(size)
    ensures size % 2 == 0 && (size + 1) % 2 == 1
  {
  }

  lemma FreeNodes(m: seq<int>, lo: int, hi: int, bs: Blocks, head: int, free: seq<int>, off: set<int>, stale: int)
    requires Sane(m, lo, hi, bs, head, free, off, stale)
    ensures AllIn(free, bs) && Distinct(free) && (forall k :: 0 <= k < |free| ==> !bs[free[k]].used)
    ensures forall k :: 0 <= k < |free| ==> 0 < free[k] && free[k] + 32 <= |m|
  {
    DistinctNodes(lo, hi, bs, free);
    forall k | 0 <= k < |free| ensures 0 < free[k] && free[k] + 32 <= |m| {
      assert Node(m, free, k);
    }
  }

  // ---- the list ----

  /** Headers survive a change of cells that are not theirs. */
  lemma HeadersSurvive(m: seq<int>, m': seq<int>, lo: int, bs: Blocks, stale: int)
    requires if stale != 0 then stale in bs && HeadersBut(m, lo, bs, stale) else Headers(m, lo, bs)
    requires |m'| == |m|
    requires forall a :: a in bs && 0 <= a && a + 32 <= |m| ==> m'[a] == m[a] && m'[a + 8] == m[a + 8]
    ensures if stale != 0 then HeadersBut(m', lo, bs, stale) else Headers(m', lo, bs)
  {
    if stale != 0 {
      forall a {:trigger HeaderBut(m', lo, bs, stale, a)} | a in bs ensures HeaderBut(m', lo, bs, stale, a) {
        assert HeaderBut(m, lo, bs, stale, a);
      }
    } else {
      forall a {:trigger Header(m', lo, bs, a)} | a in bs ensures Header(m', lo, bs, a) {
        assert Header(m, lo, bs, a);
      }
    }
  }

  lemma Unlisted(m: seq<int>, m1: seq<int>, lo: int, hi: int, bs: Blocks, head: int, head1: int, free: seq<int>,
                 off: set<int>, stale: int, k: nat)
    requires Sane(m, lo, hi, bs, head, free, off, stale) && k < |free|
    requires Linked(m1, head1, Without(free, k)) && OnlyLinks(m, m1, free)
    ensures Sane(m1, lo, hi, bs, head1, Without(free, k), off + {free[k]}, stale) && Kept(bs, m, bs, m1, 0)
  {
    FreeNodes(m, lo, hi, bs, head, free, off, stale);
    LinkWrite(m, m1, lo, hi, bs, free);
    HeadersSurvive(m, m1, lo, bs, stale);
    hide Shape, Linked, Headers, HeadersBut;
    WithoutLists(bs, free, off, k);
  }

  lemma WithoutLists(bs: Blocks, free: seq<int>, off: set<int>, k: nat)
    requires Lists(bs, free, off) && k < |free|
    ensures Lists(bs, Without(free, k), off + {free[k]})
  {
    var free1 := Without(free, k);
    forall j | 0 <= j < |free1| ensures free1[j] in bs && !bs[free1[j]].used && free1[j] !in off + {free[k]} {
      var i := if j < k then j else j + 1;
      assert free1[j] == free[i] && free[i] != free[k];
    }
    forall i, j | 0 <= i < j < |free1| ensures free1[i] != free1[j] {
      assert free1[i] == free[if i < k then i else i + 1] && free1[j] == free[if j < k then j else j + 1];
    }
    forall a | a in bs && !bs[a].used && a !in off + {free[k]} ensures a in free1 {
      var i :| 0 <= i < |free| && free[i] == a;
      assert free1[if i < k then i else i - 1] == a;
    }
  }

  lemma CanInsert(m: seq<int>, lo: int, hi: int, bs: Blocks, head: int, free: seq<int>, off: set<int>, stale: int,
                  b: int)
    requires Sane(m, lo, hi, bs, head, free, off, stale) && b in bs && b in off
    ensures Distinct([b] + free) && 0 < b && b + 32 <= |m| && (head != 0 ==> 0 <= head + 8 < |m|)
  {
    SaneHeader(m, lo, hi, bs, head, free, off, stale, b);
    FreeNodes(m, lo, hi, bs, head, free, off, stale);
    assert free != [] ==> Node(m, free, 0);
    var free1 := [b] + free;
    forall j, k | 0 <= j < k < |free1| ensures free1[j] + 32 <= free1[k] || free1[k] + 32 <= free1[j] {
      assert free1[k] == free[k - 1];
      if j == 0 {
        Spread(lo, hi, bs, b, free[k - 1]);
      } else {
        assert free1[j] == free[j - 1];
      }
    }
  }

  lemma Listed(m: seq<int>, m': seq<int>, lo: int, hi: int, bs: Blocks, head: int, free: seq<int>, off: set<int>,
               stale: int, b: int)
    requires Sane(m, lo, hi, bs, head, free, off, stale) && b in bs && b in off && !bs[b].used
    requires Linked(m', b + 16, [b] + free) && OnlyLinks(m, m', [b] + free)
    ensures Sane(m', lo, hi, bs, b + 16, [b] + free, off - {b}, stale) && Kept(bs, m, bs, m', 0)
  {
    var free1 := [b] + free;
    FreeNodes(m, lo, hi, bs, head, free, off, stale);
    LinkWrite(m, m', lo, hi, bs, free1);
    HeadersSurvive(m, m', lo, bs, stale);
    hide Shape, Linked, Headers, HeadersBut, OnlyLinks, Kept;
    assert forall j :: 1 <= j < |free1| ==> free1[j] == free[j - 1];
    assert free1[0] == b;
    forall a | a in bs && !bs[a].used && a !in off - {b} ensures a in free1 {
      assert a == b || a in free;
    }
  }

  // ---- headers ----

  /** A block not on the list is marked free or in use. */
  lemma Remarked(m: seq<int>, lo: int, hi: int, bs: Blocks, head: int, free: seq<int>, off: set<int>, b: int,
                 used: bool)
    requires Sane(m, lo, hi, bs, head, free, off, 0) && b in bs && (bs[b].used || b in off)
    ensures 0 <= b < |m|
    ensures var m', now := m[b := bs[b].size + (if used then 1 else 0)], Marked(bs, b, used);
            Sane(m', lo, hi, now, head, free, if used then off - {b} else off + {b}, 0) && Kept(bs, m, now, m', b)
  {
    SaneHeader(m, lo, hi, bs, head, free, off, 0, b);
    FreeNodes(m, lo, hi, bs, head, free, off, 0);
    MarkedShape(lo, hi, bs, b, used);
    HeaderWrite(m, lo, hi, bs, b, b, bs[b].size + (if used then 1 else 0), head, free);
    var m', now := m[b := bs[b].size + (if used then 1 else 0)], Marked(bs, b, used);
    assert 0 !in bs by {
      assert 0 in bs ==> Placed(lo, hi, bs, 0);
    }
    MarkedLists(bs, free, off, b, used);
    assert m'[b + 8] == m[b + 8];
    hide Shape, Linked, Aligned, Lists, Kept;
    MarkedHeaders(m, m', lo, bs, b, used);
    hide Headers;
    assert Kept(bs, m, now, m', b) by {
      MarkedKept(bs, m, m', b, used);
    }
  }

  lemma MarkedKept(bs: Blocks, m: seq<int>, m': seq<int>, b: int, used: bool)
    requires Kept(bs, m, bs, m', 0) && b in bs && 0 !in bs
    ensures Kept(bs, m, Marked(bs, b, used), m', b)
  {
  }

  lemma MarkedHeaders(m: seq<int>, m': seq<int>, lo: int, bs: Blocks, b: int, used: bool)
    requires Headers(m, lo, bs) && b in bs && |m'| == |m| && 0 <= b && b + 32 <= |m|
    requires forall a :: a in bs && a != b && 0 <= a && a + 32 <= |m| ==> m'[a] == m[a] && m'[a + 8] == m[a + 8]
    requires m'[b] == bs[b].size + (if used then 1 else 0) && m'[b + 8] == m[b + 8]
    ensures Headers(m', lo, Marked(bs, b, used))
  {
    var now := Marked(bs, b, used);
    forall a {:trigger Header(m', lo, now, a)} | a in now ensures Header(m', lo, now, a) {
      assert Header(m, lo, bs, a);
    }
  }

  lemma MarkedLists(bs: Blocks, free: seq<int>, off: set<int>, b: int, used: bool)
    requires Lists(bs, free, off) && b in bs && (bs[b].used || b in off)
    ensures Lists(Marked(bs, b, used), free, if used then off - {b} else off + {b})
  {
  }

  /** A block takes in the one above it; neither is on the list, or the lower one is in use. */
  lemma Absorbed(m: seq<int>, lo: int, hi: int, bs: Blocks, head: int, free: seq<int>, off: set<int>, stale: int,
                 b: int)
    requires Sane(m, lo, hi, bs, head, free, off, stale) && b in bs && b + bs[b].size in bs
    requires !bs[b + bs[b].size].used && b + bs[b].size in off && (bs[b].used || b in off)
    requires stale == 0 || stale == b + bs[b].size
    ensures 0 <= b < |m|
    ensures var next := b + bs[b].size;
            var m', now := m[b := bs[b].size + bs[next].size + (if bs[b].used then 1 else 0)], Merged(bs, b);
            && Sane(m', lo, hi, now, head, free, off - {next}, b) && Kept(bs, m, now, m', b)
  {
    var next := b + bs[b].size;
    var above := next + bs[next].size;
    var v := bs[b].size + bs[next].size + (if bs[b].used then 1 else 0);
    SaneHeader(m, lo, hi, bs, head, free, off, stale, b);
    SaneHeader(m, lo, hi, bs, head, free, off, stale, next);
    var m', now := m[b := v], Merged(bs, b);
    FreeNodes(m, lo, hi, bs, head, free, off, stale);
    HeaderWrite(m, lo, hi, bs, b, b, v, head, free);
    MergedShape(lo, hi, bs, b);
    MergedLists(bs, free, off, b);
    assert m'[b] == v && m'[b + 8] == m[b + 8];
    assert 0 !in bs by {
      if 0 in bs {
        SaneHeader(m, lo, hi, bs, head, free, off, stale, 0);
      }
    }
    MergedKept(bs, m, m', b);
    hide Shape, Linked, Kept, HeadersBut, Lists, Aligned;
    AbsorbedHeaders(m, m', lo, hi, bs, head, free, off, stale, b);
  }

  lemma MergedLists(bs: Blocks, free: seq<int>, off: set<int>, b: int)
    requires Lists(bs, free, off) && b in bs && b + bs[b].size in bs && bs[b].size != 0
    requires !bs[b + bs[b].size].used && b + bs[b].size in off && (bs[b].used || b in off)
    ensures Lists(Merged(bs, b), free, off - {b + bs[b].size})
  {
  }

  lemma MergedKept(bs: Blocks, m: seq<int>, m': seq<int>, b: int)
    requires b in bs && b + bs[b].size in bs && !bs[b + bs[b].size].used && Kept(bs, m, bs, m', 0) && 0 !in bs
    ensures Kept(bs, m, Merged(bs, b), m', b)
  {
  }

  lemma AbsorbedHeaders(m: seq<int>, m': seq<int>, lo: int, hi: int, bs: Blocks, head: int, free: seq<int>,
                        off: set<int>, stale: int, b: int)
    requires Sane(m, lo, hi, bs, head, free, off, stale) && b in bs && b + bs[b].size in bs
    requires stale == 0 || stale == b + bs[b].size
    requires |m'| == |m| && 0 < b && b + 32 <= |m| && bs[b].size > 0
    requires forall a :: a in bs && a != b && 0 <= a && a + 32 <= |m| ==> m'[a] == m[a] && m'[a + 8] == m[a + 8]
    requires m'[b] == bs[b].size + bs[b + bs[b].size].size + (if bs[b].used then 1 else 0) && m'[b + 8] == m[b + 8]
    ensures HeadersBut(m', lo, Merged(bs, b), b)
  {
    var next := b + bs[b].size;
    var above := next + bs[next].size;
    SaneHeader(m, lo, hi, bs, head, free, off, stale, b);
    SaneHeader(m, lo, hi, bs, head, free, off, stale, next);
    if above in bs {
      SaneHeader(m, lo, hi, bs, head, free, off, stale, above);
    }
    AllHeaders(m, lo, hi, bs, head, free, off, stale);
    hide Sane, Header, HeadersBut, Aligned, Placed;
    assert Shape(lo, hi, bs) by {
      SaneShape(m, lo, hi, bs, head, free, off, stale);
    }
    hide Shape;
    MergedHeaders(m, m', lo, hi, bs, b);
  }

  lemma SaneShape(m: seq<int>, lo: int, hi: int, bs: Blocks, head: int, free: seq<int>, off: set<int>, stale: int)
    requires Sane(m, lo, hi, bs, head, free, off, stale)
    ensures Shape(lo, hi, bs) && 0 !in bs
  {
    assert 0 in bs ==> Placed(lo, hi, bs, 0);
  }

  lemma AllHeaders(m: seq<int>, lo: int, hi: int, bs: Blocks, head: int, free: seq<int>, off: set<int>, stale: int)
    requires Sane(m, lo, hi, bs, head, free, off, stale)
    ensures forall a {:trigger Header(m, lo, bs, a)} :: a in bs && (stale in bs ==> a != stale + bs[stale].size) ==>
              Header(m, lo, bs, a)
  {
    SaneShape(m, lo, hi, bs, head, free, off, stale);
    hide Shape, Linked, Lists;
    forall a {:trigger Header(m, lo, bs, a)} | a in bs && (stale in bs ==> a != stale + bs[stale].size)
      ensures Header(m, lo, bs, a)
    {
      assert if stale != 0 then HeaderBut(m, lo, bs, stale, a) else Header(m, lo, bs, a);
    }
  }

  /** After a merge the headers are right, but for the block above. */
  lemma MergedHeaders(m: seq<int>, m': seq<int>, lo: int, hi: int, bs: Blocks, b: int)
    requires Shape(lo, hi, bs) && b in bs && b + bs[b].size in bs && Header(m, lo, bs, b) && |m'| == |m|
    requires bs[b].size > 0
    requires var next := b + bs[b].size; var above := next + bs[next].size;
             && (above in bs ==> HeaderSize(m, bs, above))
             && forall a {:trigger Header(m, lo, bs, a)} :: a in bs && a != next && a != above ==> Header(m, lo, bs, a)
    requires forall a :: a in bs && a != b && 0 <= a && a + 32 <= |m| ==> m'[a] == m[a] && m'[a + 8] == m[a + 8]
    requires m'[b] == bs[b].size + bs[b + bs[b].size].size + (if bs[b].used then 1 else 0) && m'[b + 8] == m[b + 8]
    ensures HeadersBut(m', lo, Merged(bs, b), b)
  {
    var now, next := Merged(bs, b), b + bs[b].size;
    assert Placed(lo, hi, bs, b) && Placed(lo, hi, bs, next);
    hide Shape, Aligned;
    forall a {:trigger HeaderBut(m', lo, now, b, a)} | a in now ensures HeaderBut(m', lo, now, b, a) {
      assert a == next + bs[next].size || Header(m, lo, bs, a);
      if a != lo && a != b + now[b].size {
        BelowKept(lo, hi, bs, b, a, m[a + 8]);
      }
    }
  }

  ghost predicate HeaderSize(m: seq<int>, bs: Blocks, a: int)
    requires a in bs
  {
    0 <= a && a + 32 <= |m| && m[a] == bs[a].size + (if bs[a].used then 1 else 0)
  }

  /** The block below `a` is still there after a merge, unless `a` is above what was merged. */
  lemma BelowKept(lo: int, hi: int, bs: Blocks, b: int, a: int, size: int)
    requires b in bs && b + bs[b].size in bs && a in bs && BelowIs(bs, a, size)
    requires a != b + bs[b].size && a != b + bs[b].size + bs[b + bs[b].size].size
    ensures BelowIs(Merged(bs, b), a, size)
  {
  }

  lemma MaybeStale(m: seq<int>, lo: int, hi: int, bs: Blocks, head: int, free: seq<int>, off: set<int>, b: int)
    requires b in bs && Sane(m, lo, hi, bs, head, free, off, 0)
    ensures Sane(m, lo, hi, bs, head, free, off, b)
  {
    hide Shape, Linked, Lists;
    forall a {:trigger HeaderBut(m, lo, bs, b, a)} | a in bs ensures HeaderBut(m, lo, bs, b, a) {
      assert Header(m, lo, bs, a);
    }
  }

  /** The block above `b` learns its size. */
  lemma NextFixed(m: seq<int>, lo: int, hi: int, bs: Blocks, head: int, free: seq<int>, off: set<int>, b: int)
    requires b in bs && Sane(m, lo, hi, bs, head, free, off, b)
    ensures b + bs[b].size in bs ==> 0 <= b + bs[b].size + 8 < |m|
    ensures var next := b + bs[b].size;
            var m' := if next in bs then m[next + 8 := bs[b].size] else m;
            Sane(m', lo, hi, bs, head, free, off, 0) && Kept(bs, m, bs, m', 0)
  {
    var next := b + bs[b].size;
    SaneHeader(m, lo, hi, bs, head, free, off, b, b);
    FreeNodes(m, lo, hi, bs, head, free, off, b);
    if next in bs {
      SaneHeader(m, lo, hi, bs, head, free, off, b, next);
    }
    var m' := if next in bs then m[next + 8 := bs[b].size] else m;
    if next in bs {
      HeaderWrite(m, lo, hi, bs, next, next + 8, bs[b].size, head, free);
      assert BelowIs(bs, next, bs[b].size);
      assert m'[next] == m[next];
    }
    hide Shape, Linked, Aligned, Lists, Kept;
    NextHeaders(m, m', lo, bs, b);
  }

  lemma NextHeaders(m: seq<int>, m': seq<int>, lo: int, bs: Blocks, b: int)
    requires b in bs && HeadersBut(m, lo, bs, b) && |m'| == |m| && lo in bs
    requires var next := b + bs[b].size;
             && (next in bs ==>
                  next != lo && next >= 0 && next + 32 <= |m| && m'[next] == m[next] && m'[next + 8] == bs[b].size)
             && forall a :: a in bs && a != next && 0 <= a && a + 32 <= |m| ==> m'[a] == m[a] && m'[a + 8] == m[a + 8]
    ensures Headers(m', lo, bs)
  {
    forall a {:trigger Header(m', lo, bs, a)} | a in bs ensures Header(m', lo, bs, a) {
      assert HeaderBut(m, lo, bs, b, a);
    }
  }

  // ---- cutting, growing, trimming ----

  /** Writing inside a block that is not on the list, but for the size of the block below, disturbs no
      link, no other header and no other payload. */
  lemma InsideWrite(m: seq<int>, m': seq<int>, lo: int, hi: int, bs: Blocks, head: int, free: seq<int>, b: int)
    requires Shape(lo, hi, bs) && b in bs && Linked(m, head, free) && AllIn(free, bs) && b !in free
    requires |m'| == |m| && forall x :: 0 <= x < |m| && !(b <= x < b + bs[b].size) ==> m'[x] == m[x]
    ensures Linked(m', head, free) && Kept(bs, m, bs, m', b)
    ensures forall a :: a in bs && a != b && 0 <= a && a + 32 <= |m| ==> m'[a] == m[a] && m'[a + 8] == m[a + 8]
  {
    assert Placed(lo, hi, bs, b);
    hide Aligned;
    forall k | 0 <= k < |free| ensures Node(m', free, k) {
      assert Node(m, free, k);
      assert Placed(lo, hi, bs, free[k]);
      assert free[k] < b || b < free[k];
    }
    forall a | a in bs && bs[a].used && a != b ensures SameCells(m, m', a + 16, a + bs[a].size) {
      assert Placed(lo, hi, bs, a);
      assert a < b || b < a;
    }
    forall a | a in bs && a != b && 0 <= a && a + 32 <= |m| ensures m'[a] == m[a] && m'[a + 8] == m[a + 8] {
      assert Placed(lo, hi, bs, a);
      assert a < b || b < a;
    }
  }

  /** A block in use is cut in two. */
  lemma CutSane(m: seq<int>, lo: int, hi: int, bs: Blocks, head: int, free: seq<int>, off: set<int>, b: int, want: int,
                tailUsed: bool)
    requires Sane(m, lo, hi, bs, head, free, off, 0) && b in bs && bs[b].used
    requires Aligned(want) && 32 <= want && want + 32 <= bs[b].size
    ensures var tail := b + want; 0 < b < tail && tail + 32 <= |m|
    ensures var tail := b + want;
            var m' := m[b := want + 1][tail + 8 := want][tail := bs[b].size - want + (if tailUsed then 1 else 0)];
            && Sane(m', lo, hi, Cut(bs, b, want, tailUsed), head, free, if tailUsed then off else off + {tail}, tail)
            && Kept(bs, m, Cut(bs, b, want, tailUsed), m', b)
  {
    var tail, now := b + want, Cut(bs, b, want, tailUsed);
    SaneHeader(m, lo, hi, bs, head, free, off, 0, b);
    FreeNodes(m, lo, hi, bs, head, free, off, 0);
    var m' := m[b := want + 1][tail + 8 := want][tail := bs[b].size - want + (if tailUsed then 1 else 0)];
    assert b !in free;
    InsideWrite(m, m', lo, hi, bs, head, free, b);
    CutShape(lo, hi, bs, b, want, tailUsed);
    assert tail !in free;
    assert m'[b] == want + 1 && m'[b + 8] == m[b + 8];
    hide Shape, Linked, Aligned, Kept;
    assert Lists(now, free, if tailUsed then off else off + {tail}) by {
      CutLists(bs, free, off, b, want, tailUsed);
    }
    assert Kept(bs, m, now, m', b) by {
      CutKept(bs, m, m', b, want, tailUsed);
    }
    hide Lists;
    CutHeaders(m, m', lo, bs, b, want, tailUsed);
  }

  lemma CutLists(bs: Blocks, free: seq<int>, off: set<int>, b: int, want: int, tailUsed: bool)
    requires Lists(bs, free, off) && b in bs && bs[b].used && b + want !in bs && want != 0
    ensures Lists(Cut(bs, b, want, tailUsed), free, if tailUsed then off else off + {b + want})
  {
  }

  lemma CutKept(bs: Blocks, m: seq<int>, m': seq<int>, b: int, want: int, tailUsed: bool)
    requires Kept(bs, m, bs, m', b) && b in bs && b + want !in bs
    ensures Kept(bs, m, Cut(bs, b, want, tailUsed), m', b)
  {
  }

  lemma CutHeaders(m: seq<int>, m': seq<int>, lo: int, bs: Blocks, b: int, want: int, tailUsed: bool)
    requires Headers(m, lo, bs) && b in bs && bs[b].used && lo in bs && b + want !in bs && want > 0
    requires var tail := b + want;
             && 0 <= b && |m'| == |m| && tail + 32 <= |m| && tail >= 0
             && m'[b] == want + 1 && m'[b + 8] == m[b + 8]
             && m'[tail] == bs[b].size - want + (if tailUsed then 1 else 0) && m'[tail + 8] == want
    requires forall a :: a in bs && a != b && 0 <= a && a + 32 <= |m| ==> m'[a] == m[a] && m'[a + 8] == m[a + 8]
    ensures HeadersBut(m', lo, Cut(bs, b, want, tailUsed), b + want)
  {
    var tail, now := b + want, Cut(bs, b, want, tailUsed);
    forall a {:trigger HeaderBut(m', lo, now, tail, a)} | a in now ensures HeaderBut(m', lo, now, tail, a) {
      if a == tail {
        assert BelowIs(now, tail, want);
      } else {
        assert Header(m, lo, bs, a);
        if a != lo && a != b + bs[b].size {
          assert BelowIs(now, a, m[a + 8]);
        }
      }
    }
  }

  /** The cell for the size of the block below, and the size, of a new block at the end of the heap. */
  lemma GrownSane(m: seq<int>, lo: int, hi: int, bs: Blocks, head: int, free: seq<int>, top: int, size: int)
    requires Sane(m, lo, hi, bs, head, free, {}, 0) && TopIs(hi, bs, top)
    requires 32 <= size && Aligned(size) && hi + size <= |m|
    ensures 0 <= hi && hi + 32 <= |m|
    ensures var m', now := m[hi + 8 := bs[top].size][hi := size + 1], bs[hi := Block(size, true)];
            && Sane(m', lo, hi + size, now, head, free, {}, 0) && Kept(bs, m, now, m', 0) && hi !in bs
            && TopIs(hi + size, now, hi)
  {
    var m', now := m[hi + 8 := bs[top].size][hi := size + 1], bs[hi := Block(size, true)];
    FreeNodes(m, lo, hi, bs, head, free, {}, 0);
    GrownShape(lo, hi, bs, size, true);
    hide Aligned;
    forall k | 0 <= k < |free| ensures Node(m', free, k) {
      assert Node(m, free, k);
      assert Placed(lo, hi, bs, free[k]);
    }
    assert lo < hi;
    forall a | a in bs && bs[a].used ensures SameCells(m, m', a + 16, a + bs[a].size) {
      assert Placed(lo, hi, bs, a);
    }
    assert top != hi;
    hide Linked, Lists, Kept, Aligned;
    GrownHeaders(m, m', lo, hi, bs, top, size);
    hide Shape, Headers, Header;
    assert Kept(bs, m, now, m', 0) by {
      GrownKept(bs, m, m', hi, size);
    }
    assert Lists(now, free, {}) by {
      GrownLists(bs, free, hi, size);
    }
  }

  lemma GrownHeaders(m: seq<int>, m': seq<int>, lo: int, hi: int, bs: Blocks, top: int, size: int)
    requires Shape(lo, hi, bs) && Headers(m, lo, bs) && TopIs(hi, bs, top) && hi !in bs && 0 < hi && hi + 32 <= |m|
    requires m' == m[hi + 8 := bs[top].size][hi := size + 1]
    ensures Headers(m', lo, bs[hi := Block(size, true)])
  {
    var now := bs[hi := Block(size, true)];
    forall a {:trigger Header(m', lo, now, a)} | a in now ensures Header(m', lo, now, a) {
      if a == hi {
        assert BelowIs(now, hi, bs[top].size);
      } else {
        assert Placed(lo, hi, bs, a);
        assert Header(m, lo, bs, a);
        if a != lo {
          assert BelowIs(now, a, m[a + 8]);
        }
      }
    }
  }

  lemma GrownKept(bs: Blocks, m: seq<int>, m': seq<int>, hi: int, size: int)
    requires hi !in bs && forall a :: a in bs && bs[a].used ==> SameCells(m, m', a + 16, a + bs[a].size)
    ensures Kept(bs, m, bs[hi := Block(size, true)], m', 0)
  {
  }

  lemma GrownLists(bs: Blocks, free: seq<int>, hi: int, size: int)
    requires Lists(bs, free, {}) && hi !in bs
    ensures Lists(bs[hi := Block(size, true)], free, {})
  {
  }

  /** The first block. */
  lemma FirstSane(m: seq<int>, base: int, size: int)
    requires 0 < base && Aligned(base) && 32 <= size && Aligned(size) && base + size <= |m|
    ensures var m', now := m[base + 8 := 0][base := size + 1], map[base := Block(size, true)];
            Sane(m', base, base + size, now, 0, [], {}, 0) && TopIs(base + size, now, base)
  {
    var m', now := m[base + 8 := 0][base := size + 1], map[base := Block(size, true)];
    forall a {:trigger Header(m', base, now, a)} | a in now ensures Header(m', base, now, a) {
    }
    forall a {:trigger Placed(base, base + size, now, a)} | a in now ensures Placed(base, base + size, now, a) {
    }
  }

  lemma TrimmedSane(m: seq<int>, lo: int, hi: int, bs: Blocks, head: int, free: seq<int>, top: int, size: int)
    requires Sane(m, lo, hi, bs, head, free, {}, 0) && TopIs(hi, bs, top) && !bs[top].used
    requires 32 <= size <= bs[top].size && Aligned(size)
    ensures 0 <= top < |m|
    ensures var m', now := m[top := size], bs[top := Block(size, false)];
            && Sane(m', lo, top + size, now, head, free, {}, 0) && Kept(bs, m, now, m', 0)
            && TopIs(top + size, now, top) && Users(now) == Users(bs) && (Coalesced(bs) ==> Coalesced(now))
  {
    var m', now := m[top := size], bs[top := Block(size, false)];
    SaneHeader(m, lo, hi, bs, head, free, {}, 0, top);
    FreeNodes(m, lo, hi, bs, head, free, {}, 0);
    TrimmedShape(lo, hi, bs, top, size);
    HeaderWrite(m, lo, hi, bs, top, top, size, head, free);
    assert 0 !in bs by {
      SaneShape(m, lo, hi, bs, head, free, {}, 0);
    }
    assert top + size !in bs || size == bs[top].size by {
      if top + size in bs && size != bs[top].size {
        Spread(lo, hi, bs, top, top + size);
      }
    }
    assert m'[top + 8] == m[top + 8];
    hide Aligned, Linked, Kept, Lists, Coalesced, Users;
    TrimmedHeaders(m, m', lo, hi, bs, top, size);
    hide Shape, Headers;
    assert Lists(now, free, {}) by {
      TrimmedLists(bs, free, top, size);
    }
    assert Kept(bs, m, now, m', 0) by {
      TrimmedKept(bs, m, m', top, size);
    }
    TrimmedCoalesced(bs, top, size);
  }

  lemma TrimmedHeaders(m: seq<int>, m': seq<int>, lo: int, hi: int, bs: Blocks, top: int, size: int)
    requires Shape(lo, hi, bs) && Headers(m, lo, bs) && TopIs(hi, bs, top) && !bs[top].used && |m'| == |m|
    requires forall a :: a in bs && a != top && 0 <= a && a + 32 <= |m| ==> m'[a] == m[a] && m'[a + 8] == m[a + 8]
    requires 0 <= top && top + 32 <= |m| && m'[top] == size && m'[top + 8] == m[top + 8]
    ensures Headers(m', lo, bs[top := Block(size, false)])
  {
    var now := bs[top := Block(size, false)];
    forall a {:trigger Header(m', lo, now, a)} | a in now ensures Header(m', lo, now, a) {
      assert Header(m, lo, bs, a);
      NotAbove(lo, hi, bs, top, a);
    }
  }

  lemma TrimmedLists(bs: Blocks, free: seq<int>, top: int, size: int)
    requires Lists(bs, free, {}) && top in bs && !bs[top].used
    ensures Lists(bs[top := Block(size, false)], free, {})
  {
  }

  lemma TrimmedKept(bs: Blocks, m: seq<int>, m': seq<int>, top: int, size: int)
    requires Kept(bs, m, bs, m', 0) && top in bs && !bs[top].used && 0 !in bs
    ensures Kept(bs, m, bs[top := Block(size, false)], m', 0)
  {
  }

  lemma TrimmedCoalesced(bs: Blocks, top: int, size: int)
    requires top in bs && !bs[top].used && (top + size !in bs || size == bs[top].size)
    ensures var now := bs[top := Block(size, false)]; (Coalesced(bs) ==> Coalesced(now)) && Users(now) == Users(bs)
  {
    var now := bs[top := Block(size, false)];
    if Coalesced(bs) {
      forall x, y | Adjacent(now, x, y) ensures now[x].used || now[y].used {
        assert Adjacent(bs, x, y);
      }
    }
  }

  lemma NotAbove(lo: int, hi: int, bs: Blocks, top: int, a: int)
    requires Shape(lo, hi, bs) && TopIs(hi, bs, top) && a in bs
    ensures a != top + bs[top].size
  {
    assert Placed(lo, hi, bs, a);
  }

  // ---- no free neighbours ----

  /** Free neighbours, if any, include `b`. */
  ghost predicate Nearly(bs: Blocks, b: int) {
    forall x, y :: Adjacent(bs, x, y) && !bs[x].used && !bs[y].used ==> x == b || y == b
  }

  ghost predicate AboveUsed(bs: Blocks, b: int) {
    forall y :: Adjacent(bs, b, y) ==> bs[y].used
  }

  ghost predicate BelowUsed(bs: Blocks, b: int) {
    forall x :: Adjacent(bs, x, b) ==> bs[x].used
  }

  lemma MarkedNearly(bs: Blocks, b: int)
    requires Coalesced(bs) && b in bs
    ensures Nearly(Marked(bs, b, false), b)
  {
    var now := Marked(bs, b, false);
    forall x, y | Adjacent(now, x, y) && !now[x].used && !now[y].used ensures x == b || y == b {
      assert Adjacent(bs, x, y);
    }
  }

  /** Taking in the free block above leaves no free block above. */
  lemma MergedAbove(bs: Blocks, b: int)
    requires Nearly(bs, b) && b in bs && b + bs[b].size in bs && bs[b].size > 0 && !bs[b + bs[b].size].used
    requires bs[b + bs[b].size].size > 0
    ensures Nearly(Merged(bs, b), b) && AboveUsed(Merged(bs, b), b)
  {
    var now, next := Merged(bs, b), b + bs[b].size;
    forall x, y | Adjacent(now, x, y) && !now[x].used && !now[y].used ensures x == b || y == b {
      assert x != b ==> Adjacent(bs, x, y);
    }
    forall y | Adjacent(now, b, y) ensures now[y].used {
      assert Adjacent(bs, next, y);
    }
  }

  /** The free block below takes in `b`; no free block is then below it. */
  lemma MergedBelow(lo: int, hi: int, bs: Blocks, p: int, b: int)
    requires Shape(lo, hi, bs) && Nearly(bs, b) && AboveUsed(bs, b) && Adjacent(bs, p, b) && !bs[p].used
    ensures Nearly(Merged(bs, p), p) && AboveUsed(Merged(bs, p), p) && BelowUsed(Merged(bs, p), p)
  {
    var now := Merged(bs, p);
    assert Placed(lo, hi, bs, p) && Placed(lo, hi, bs, b);
    hide Shape, Aligned;
    forall x, y | Adjacent(now, x, y) && !now[x].used && !now[y].used ensures x == p || y == p {
      assert x != p ==> Adjacent(bs, x, y);
    }
    forall y | Adjacent(now, p, y) ensures now[y].used {
      assert Adjacent(bs, b, y);
    }
    forall x | Adjacent(now, x, p) ensures now[x].used {
      assert Adjacent(bs, x, p);
    }
  }

  lemma NowCoalesced(bs: Blocks, b: int)
    requires Nearly(bs, b) && AboveUsed(bs, b) && BelowUsed(bs, b)
    ensures Coalesced(bs)
  {
  }

  /** The tiling once a loose free block has taken in the block above it, if that is free. */
  ghost function MergedUp(bs: Blocks, b: int): Blocks
    requires b in bs
  {
    var next := b + bs[b].size;
    if next in bs && !bs[next].used then Merged(bs, b) else bs
  }

  lemma AfterNext(lo: int, hi: int, bs: Blocks, b: int)
    requires Shape(lo, hi, bs) && Nearly(bs, b) && b in bs
    ensures b in MergedUp(bs, b) && Nearly(MergedUp(bs, b), b) && AboveUsed(MergedUp(bs, b), b)
  {
    var next := b + bs[b].size;
    assert Placed(lo, hi, bs, b);
    if next in bs && !bs[next].used {
      assert Placed(lo, hi, bs, next);
      MergedAbove(bs, b);
    }
  }

  lemma AfterPrev(lo: int, hi: int, bs: Blocks, b: int, prev: int)
    requires Shape(lo, hi, bs) && Nearly(bs, b) && AboveUsed(bs, b) && b in bs
    requires if prev == 0 then b == lo else Adjacent(bs, prev, b)
    ensures Coalesced(if prev != 0 && !bs[prev].used then Merged(bs, prev) else bs)
  {
    if prev != 0 && !bs[prev].used {
      MergedBelow(lo, hi, bs, prev, b);
      NowCoalesced(Merged(bs, prev), prev);
    } else {
      forall x | Adjacent(bs, x, b) ensures bs[x].used {
        assert prev == 0 ==> Placed(lo, hi, bs, x);
        if prev != 0 {
          OneBelow(lo, hi, bs, x, prev, b);
        }
      }
      NowCoalesced(bs, b);
    }
  }

  lemma StillBelow(lo: int, hi: int, bs: Blocks, b: int, prev: int)
    requires Shape(lo, hi, bs) && Adjacent(bs, prev, b)
    ensures Adjacent(MergedUp(Marked(bs, b, false), b), prev, b)
  {
    assert Placed(lo, hi, bs, prev) && Placed(lo, hi, bs, b);
  }

  lemma MergedUsers(bs: Blocks, b: int)
    requires b in bs && b + bs[b].size in bs && !bs[b].used && !bs[b + bs[b].size].used
    ensures Users(Merged(bs, b)) == Users(bs)
  {
  }

  lemma MarkedUsers(bs: Blocks, b: int)
    requires b in bs
    ensures Users(Marked(bs, b, false)) == Users(bs) - {b}
    ensures Users(Marked(bs, b, true)) == Users(bs)[b := bs[b].size]
  {
  }

  /** The last block is the one noted, or `b`, which is about to be noted. */
  ghost predicate TopOr(hi: int, bs: Blocks, top: int, b: int) {
    b in bs && (TopIs(hi, bs, top) || b + bs[b].size == hi)
  }

  lemma MergedTop(lo: int, hi: int, bs: Blocks, top: int, b: int, lower: int)
    requires Shape(lo, hi, bs) && TopOr(hi, bs, top, b) && lower in bs && lower + bs[lower].size in bs
    requires lower == b || lower + bs[lower].size == b
    ensures TopOr(hi, Merged(bs, lower), top, lower)
  {
    assert Placed(lo, hi, bs, lower) && Placed(lo, hi, bs, lower + bs[lower].size);
  }

  lemma MarkedTop(hi: int, bs: Blocks, top: int, b: int, used: bool)
    requires TopIs(hi, bs, top) && b in bs
    ensures TopOr(hi, Marked(bs, b, used), top, b) && TopIs(hi, Marked(bs, b, used), top)
  {
  }

  lemma SplitUsers(bs: Blocks, b: int, want: int)
    requires b in bs && bs[b].used && want > 0
    ensures b + want !in bs ==> Users(Cut(bs, b, want, false)) == Users(bs)[b := want]
    ensures Users(bs) == Users(bs)[b := bs[b].size]
  {
  }

  lemma CutTop(lo: int, hi: int, bs: Blocks, top: int, b: int, want: int)
    requires Shape(lo, hi, bs) && TopIs(hi, bs, top) && b in bs && 0 < want < bs[b].size && b + want !in bs
    ensures TopOr(hi, Cut(bs, b, want, false), if b + bs[b].size == hi then b + want else top, b + want)
    ensures TopOr(hi, Cut(bs, b, want, true), if b + bs[b].size == hi then b + want else top, b + want)
  {
    assert Placed(lo, hi, bs, b) && Placed(lo, hi, bs, top);
  }

  lemma KeptAt(bs: Blocks, m: seq<int>, bs': Blocks, m': seq<int>, b: int, a: int)
    requires Kept(bs, m, bs', m', b) && a in bs && bs[a].used && a != b
    ensures a in bs' && bs'[a] == bs[a] && SameCells(m, m', a + 16, a + bs[a].size)
  {
  }

  lemma KeptSelf(bs: Blocks, m: seq<int>, b: int)
    ensures Kept(bs, m, bs, m, b)
  {
  }

  /** What holds of payloads through two steps, when the second leaves out no block in use. */
  lemma KeptThrough(bs: Blocks, m: seq<int>, bs1: Blocks, m1: seq<int>, bs2: Blocks, m2: seq<int>, b: int, c: int)
    requires Kept(bs, m, bs1, m1, b) && Kept(bs1, m1, bs2, m2, c)
    requires (c == b || c !in bs1 || !bs1[c].used)
    ensures Kept(bs, m, bs2, m2, b)
  {
  }

  /** Leaving out a block that is not in use leaves out nothing. */
  lemma KeptAll(bs: Blocks, m: seq<int>, bs': Blocks, m': seq<int>, b: int, c: int)
    requires Kept(bs, m, bs', m', b) && (b !in bs || !bs[b].used)
    ensures Kept(bs, m, bs', m', c)
  {
  }

  /** Only one block can be below another. */
  lemma OneBelow(lo: int, hi: int, bs: Blocks, x: int, y: int, b: int)
    requires Shape(lo, hi, bs) && Adjacent(bs, x, b) && Adjacent(bs, y, b)
    ensures x == y
  {
    assert Placed(lo, hi, bs, x) && Placed(lo, hi, bs, y);
  }

  lemma EndsElsewhere(lo: int, hi: int, bs: Blocks, b: int, x: int, at: int)
    requires Shape(lo, hi, bs) && b in bs && x in bs && x != b && b < at < b + bs[b].size
    ensures x + bs[x].size != at
  {
    assert Placed(lo, hi, bs, x);
  }

  /** A block in use is cut; its tail is free, and above it is no free block. */
  lemma CutCoalesced(lo: int, hi: int, bs: Blocks, b: int, want: int)
    requires Shape(lo, hi, bs) && Coalesced(bs) && b in bs && bs[b].used && AboveUsed(bs, b) && 0 < want < bs[b].size
    requires b + want !in bs
    ensures Coalesced(Cut(bs, b, want, false))
  {
    var now, tail := Cut(bs, b, want, false), b + want;
    forall x, y | Adjacent(now, x, y) ensures now[x].used || now[y].used {
      if x == tail {
        assert Adjacent(bs, b, y);
      } else if y == tail {
        if x != b {
          EndsElsewhere(lo, hi, bs, b, x, tail);
        }
      } else {
        assert x == b || Adjacent(bs, x, y);
      }
    }
  }
}
