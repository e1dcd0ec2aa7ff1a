/**
 The heap as blocks that tile a region of memory: what the headers and the free list in memory say
 about the blocks, and what merging, cutting, growing and trimming do to them.
 */
module Tiling {
  /** A block's size, header included, and whether it is in use. */
  datatype Block = Block(size: int, used: bool)

  /** The blocks, by the address of their header. */
  type Blocks = map<int, Block>

  predicate Aligned(x: int) {
    x % 16 == 0
  }

  lemma AlignedSum(x: int, y: int)
    requires Aligned(x) && Aligned(y)
    ensures Aligned(x + y) && Aligned(x - y)
  {
  }

  // ---- the tiling ----

  /** The blocks lie in [lo, hi) one after another, aligned to 16 and at least 32 bytes long. */
  ghost predicate Shape(lo: int, hi: int, bs: Blocks) {
    && 0 < lo < hi && lo in bs
    && (forall a {:trigger Placed(lo, hi, bs, a)} :: a in bs ==> Placed(lo, hi, bs, a))
    && (forall a, b :: a in bs && b in bs && a < b ==> a + bs[a].size <= b)
  }

  ghost predicate Placed(lo: int, hi: int, bs: Blocks, a: int)
    requires a in bs
  {
    && lo <= a && Aligned(a) && bs[a].size >= 32 && Aligned(bs[a].size)
    && (a + bs[a].size == hi || (a + bs[a].size < hi && a + bs[a].size in bs))
  }

  /** The block above `a`, if there is one. */
  ghost predicate Adjacent(bs: Blocks, a: int, b: int) {
    a in bs && b in bs && a + bs[a].size == b
  }

  /** No two free blocks are neighbours. */
  ghost predicate Coalesced(bs: Blocks) {
    forall a, b :: Adjacent(bs, a, b) ==> bs[a].used || bs[b].used
  }

  /** What the callers of the allocator hold: block addresses and sizes. */
  ghost function Users(bs: Blocks): map<int, int> {
    map a | a in bs && bs[a].used :: bs[a].size
  }

  /** Every address of the heap belongs to exactly one block. */
  lemma {:induction false} Covered(lo: int, hi: int, bs: Blocks, from: int, x: int) returns (a: int)
    requires Shape(lo, hi, bs) && from in bs && from <= x < hi
    ensures a in bs && a <= x < a + bs[a].size
    ensures forall b :: b in bs && b <= x < b + bs[b].size ==> b == a
    decreases hi - from
  {
    assert Placed(lo, hi, bs, from);
    if x < from + bs[from].size {
      a := from;
    } else {
      a := Covered(lo, hi, bs, from + bs[from].size, x);
    }
  }

  /** Payloads of blocks in use are aligned, inside the heap and pairwise disjoint. */
  lemma PayloadsApart(lo: int, hi: int, bs: Blocks, a: int, b: int)
    requires Shape(lo, hi, bs) && a in Users(bs) && b in Users(bs) && a != b
    ensures Aligned(a + 16) && lo <= a + 16 < a + Users(bs)[a] <= hi
    ensures a + Users(bs)[a] <= b + 16 || b + Users(bs)[b] <= a + 16
  {
    assert Placed(lo, hi, bs, a) && Placed(lo, hi, bs, b);
  }

  /** When nothing is in use and no free blocks are neighbours, the whole heap is one free block. */
  lemma AllFreeIsOne(lo: int, hi: int, bs: Blocks)
    requires Shape(lo, hi, bs) && Coalesced(bs) && Users(bs) == map[]
    ensures bs == map[lo := Block(hi - lo, false)]
  {
    hide Aligned;
    assert Placed(lo, hi, bs, lo);
    var b := lo + bs[lo].size;
    assert bs[lo].used ==> lo in Users(bs);
    if b in bs {
      assert b in Users(bs) by {
        assert Adjacent(bs, lo, b);
      }
    }
    forall a | a in bs ensures a == lo {
      assert Placed(lo, hi, bs, a);
    }
  }

  // ---- memory ----

  /** The header of `a` says its size, use, and the size of the block below, which is zero for the
      lowest block. */
  ghost predicate Header(m: seq<int>, lo: int, bs: Blocks, a: int)
    requires a in bs
  {
    && 0 <= a && a + 32 <= |m|
    && m[a] == bs[a].size + (if bs[a].used then 1 else 0)
    && (if a == lo then m[a + 8] == 0 else BelowIs(bs, a, m[a + 8]))
  }

  ghost predicate BelowIs(bs: Blocks, a: int, size: int) {
    a - size in bs && bs[a - size].size == size
  }

  ghost predicate Headers(m: seq<int>, lo: int, bs: Blocks) {
    forall a {:trigger Header(m, lo, bs, a)} :: a in bs ==> Header(m, lo, bs, a)
  }

  /** The links of the free list: a node holds the payload addresses of the next and the previous. */
  ghost predicate Linked(m: seq<int>, head: int, free: seq<int>) {
    && head == (if free == [] then 0 else free[0] + 16)
    && forall k :: 0 <= k < |free| ==> Node(m, free, k)
  }

  ghost predicate Node(m: seq<int>, free: seq<int>, k: int)
    requires 0 <= k < |free|
  {
    && 0 < free[k] && free[k] + 32 <= |m|
    && m[free[k] + 16] == (if k + 1 < |free| then free[k + 1] + 16 else 0)
    && m[free[k] + 24] == (if k > 0 then free[k - 1] + 16 else 0)
  }

  /** The list holds exactly the free blocks but those in `off`, each once. */
  ghost predicate Lists(bs: Blocks, free: seq<int>, off: set<int>) {
    && (forall k :: 0 <= k < |free| ==> free[k] in bs && !bs[free[k]].used && free[k] !in off)
    && (forall j, k :: 0 <= j < k < |free| ==> free[j] != free[k])
    && (forall a :: a in bs && !bs[a].used && a !in off ==> a in free)
  }

  ghost predicate SameCells(m: seq<int>, m': seq<int>, low: int, high: int) {
    |m'| == |m| && forall x :: low <= x < high && 0 <= x < |m| ==> m'[x] == m[x]
  }

  /** Every block in use but `b` is still there, with its payload untouched. */
  ghost predicate Kept(bs: Blocks, m: seq<int>, bs': Blocks, m': seq<int>, b: int) {
    forall a :: a in bs && bs[a].used && a != b ==>
      a in bs' && bs'[a] == bs[a] && SameCells(m, m', a + 16, a + bs[a].size)
  }

  /** Headers of different blocks are at least 32 cells apart. */
  lemma Spread(lo: int, hi: int, bs: Blocks, a: int, b: int)
    requires Shape(lo, hi, bs) && a in bs && b in bs && a != b
    ensures a + 32 <= b || b + 32 <= a
  {
    hide Aligned;
    assert Placed(lo, hi, bs, a) && Placed(lo, hi, bs, b);
  }

  // ---- list surgery ----

  /** Nodes of different blocks do not overlap. */
  ghost predicate Distinct(free: seq<int>) {
    forall j, k :: 0 <= j < k < |free| ==> free[j] + 32 <= free[k] || free[k] + 32 <= free[j]
  }

  function Without(free: seq<int>, k: nat): seq<int>
    requires k < |free|
  {
    free[..k] + free[k + 1..]
  }

  /** Cells that are not the links of a block of the list are not touched by a change of it. */
  ghost predicate OnlyLinks(m: seq<int>, m': seq<int>, nodes: seq<int>) {
    |m'| == |m| && forall x :: 0 <= x < |m| && OffLinks(nodes, x) ==> m'[x] == m[x]
  }

  ghost predicate OffLinks(nodes: seq<int>, x: int) {
    forall k :: 0 <= k < |nodes| ==> !(nodes[k] + 16 <= x < nodes[k] + 32)
  }

  lemma Inserted(m: seq<int>, m': seq<int>, head: int, free: seq<int>, b: int)
    requires Linked(m, head, free) && Distinct([b] + free) && 0 < b && b + 32 <= |m|
    requires (head != 0 ==> 0 <= head + 8 < |m|)
    requires var m1 := m[b + 24 := 0][b + 16 := head];
             m' == if head != 0 then m1[head + 8 := b + 16] else m1
    ensures Linked(m', b + 16, [b] + free) && OnlyLinks(m, m', [b] + free)
  {
    var now := [b] + free;
    assert free != [] ==> Node(m, free, 0) && now[1] == free[0];
    forall k | 0 <= k < |now| ensures Node(m', now, k) {
      if k > 0 {
        assert Node(m, free, k - 1);
        assert now[0] == b && now[k] == free[k - 1];
        if k > 1 {
          assert now[1] == free[0];
        }
      }
    }
    assert head != 0 ==> now[1] + 16 == head;
  }

  lemma Removed(m: seq<int>, m': seq<int>, head: int, head': int, free: seq<int>, k: nat)
    requires Linked(m, head, free) && Distinct(free) && k < |free| && 0 < free[k] && free[k] + 32 <= |m|
    requires var next, prev := m[free[k] + 16], m[free[k] + 24];
             && (prev != 0 ==> 0 <= prev < |m|) && (next != 0 ==> 0 <= next + 8 < |m|)
             && var m1 := if prev != 0 then m[prev := next] else m;
             && head' == (if prev != 0 then head else next)
             && m' == if next != 0 then m1[next + 8 := prev] else m1
    ensures Linked(m', head', Without(free, k)) && OnlyLinks(m, m', free)
  {
    var now := Without(free, k);
    assert Node(m, free, k);
    assert k > 0 ==> Node(m, free, k - 1);
    assert k + 1 < |free| ==> Node(m, free, k + 1);
    forall j | 0 <= j < |now| ensures Node(m', now, j) {
      RemovedNode(m, m', free, k, j);
    }
    assert k > 0 ==> now[0] == free[0];
    assert k == 0 && 1 < |free| ==> now[0] == free[1];
  }

  lemma RemovedNode(m: seq<int>, m': seq<int>, free: seq<int>, k: nat, j: nat)
    requires forall i :: 0 <= i < |free| ==> Node(m, free, i)
    requires Distinct(free) && k < |free| && j < |Without(free, k)|
    requires |m'| == |m| && forall x :: 0 <= x < |m| ==>
               m'[x] == if k > 0 && x == free[k - 1] + 16 then (if k + 1 < |free| then free[k + 1] + 16 else 0)
                        else if k + 1 < |free| && x == free[k + 1] + 24 then (if k > 0 then free[k - 1] + 16 else 0)
                        else m[x]
    ensures Node(m', Without(free, k), j)
  {
    var now, i := Without(free, k), if j < k then j else j + 1;
    assert Node(m, free, i) && now[j] == free[i];
    assert j + 1 < |now| ==> now[j + 1] == free[if j + 1 < k then j + 1 else j + 2];
    assert j > 0 ==> now[j - 1] == free[if j - 1 < k then j - 1 else j];
  }

  // ---- block surgery ----

  /** The block above `b` is taken into it. */
  ghost function Merged(bs: Blocks, b: int): Blocks
    requires b in bs && b + bs[b].size in bs
  {
    bs[b := Block(bs[b].size + bs[b + bs[b].size].size, bs[b].used)] - {b + bs[b].size}
  }

  /** `b` keeps `want` bytes, and the rest is a block of its own. */
  ghost function Cut(bs: Blocks, b: int, want: int, tailUsed: bool): Blocks
    requires b in bs
  {
    bs[b := Block(want, bs[b].used)][b + want := Block(bs[b].size - want, tailUsed)]
  }

  ghost function Marked(bs: Blocks, b: int, used: bool): Blocks
    requires b in bs
  {
    bs[b := Block(bs[b].size, used)]
  }

  lemma MarkedShape(lo: int, hi: int, bs: Blocks, b: int, used: bool)
    requires Shape(lo, hi, bs) && b in bs
    ensures Shape(lo, hi, Marked(bs, b, used))
  {
    hide Aligned;
    forall a {:trigger Placed(lo, hi, Marked(bs, b, used), a)} | a in bs
      ensures Placed(lo, hi, Marked(bs, b, used), a)
    {
      assert Placed(lo, hi, bs, a);
    }
  }

  lemma MergedShape(lo: int, hi: int, bs: Blocks, b: int)
    requires Shape(lo, hi, bs) && b in bs && b + bs[b].size in bs
    ensures Shape(lo, hi, Merged(bs, b))
  {
    var now, next := Merged(bs, b), b + bs[b].size;
    assert Placed(lo, hi, bs, b) && Placed(lo, hi, bs, next);
    AlignedSum(bs[b].size, bs[next].size);
    hide Aligned;
    forall a {:trigger Placed(lo, hi, now, a)} | a in now ensures Placed(lo, hi, now, a) {
      assert Placed(lo, hi, bs, a);
      if a != b && a + bs[a].size == next {
        Spread(lo, hi, bs, a, b);
      }
      if a == b && next + bs[next].size in bs {
        Spread(lo, hi, bs, next, next + bs[next].size);
      }
    }
    forall x, y | x in now && y in now && x < y ensures x + now[x].size <= y {
      Spread(lo, hi, bs, x, y);
      if x == b {
        assert b < y && y != next;
        assert next < y;
      }
    }
  }

  lemma CutShape(lo: int, hi: int, bs: Blocks, b: int, want: int, tailUsed: bool)
    requires Shape(lo, hi, bs) && b in bs && Aligned(want) && 32 <= want && want + 32 <= bs[b].size
    ensures Shape(lo, hi, Cut(bs, b, want, tailUsed)) && b + want !in bs
  {
    var now, tail := Cut(bs, b, want, tailUsed), b + want;
    assert Placed(lo, hi, bs, b);
    AlignedSum(b, want);
    AlignedSum(bs[b].size, want);
    hide Aligned;
    forall x | x in bs && b < x ensures b + bs[b].size <= x {
      assert Shape(lo, hi, bs);
    }
    forall a {:trigger Placed(lo, hi, now, a)} | a in now ensures Placed(lo, hi, now, a) {
      if a != tail {
        assert Placed(lo, hi, bs, a);
      }
    }
    forall x, y | x in now && y in now && x < y ensures x + now[x].size <= y {
      if x != tail && y != tail {
        Spread(lo, hi, bs, x, y);
      } else if x == tail {
        assert y in bs && b < y;
      } else if x != b {
        assert x in bs && Placed(lo, hi, bs, x);
        assert x < b || b < x;
      }
    }
  }

  lemma {:induction false} HighAligned(lo: int, hi: int, bs: Blocks, from: int)
    requires Shape(lo, hi, bs) && from in bs
    ensures Aligned(hi)
    decreases hi - from
  {
    assert Placed(lo, hi, bs, from);
    AlignedSum(from, bs[from].size);
    if from + bs[from].size != hi {
      HighAligned(lo, hi, bs, from + bs[from].size);
    }
  }

  /** A new block at the end of the heap. */
  lemma GrownShape(lo: int, hi: int, bs: Blocks, size: int, used: bool)
    requires Shape(lo, hi, bs) && size >= 32 && Aligned(size)
    ensures Shape(lo, hi + size, bs[hi := Block(size, used)]) && hi !in bs
  {
    var now := bs[hi := Block(size, used)];
    HighAligned(lo, hi, bs, lo);
    hide Aligned;
    forall a {:trigger Placed(lo, hi + size, now, a)} | a in now ensures Placed(lo, hi + size, now, a) {
      assert a in bs ==> Placed(lo, hi, bs, a);
    }
    forall x, y | x in now && y in now && x < y ensures x + now[x].size <= y {
      assert x in bs ==> Placed(lo, hi, bs, x);
      assert y in bs ==> Placed(lo, hi, bs, y);
    }
    assert hi in bs ==> Placed(lo, hi, bs, hi);
  }

  lemma TrimmedShape(lo: int, hi: int, bs: Blocks, top: int, size: int)
    requires Shape(lo, hi, bs) && top in bs && top + bs[top].size == hi
    requires 32 <= size <= bs[top].size && Aligned(size)
    ensures Shape(lo, top + size, bs[top := Block(size, bs[top].used)])
  {
    hide Aligned;
    var now := bs[top := Block(size, bs[top].used)];
    forall a {:trigger Placed(lo, top + size, now, a)} | a in now ensures Placed(lo, top + size, now, a) {
      assert Placed(lo, hi, bs, a);
      if a != top {
        Spread(lo, hi, bs, a, top);
        TopIsLast(lo, hi, bs, top, a);
      }
    }
  }

  lemma TopIsLast(lo: int, hi: int, bs: Blocks, top: int, a: int)
    requires Shape(lo, hi, bs) && top in bs && top + bs[top].size == hi && a in bs && a != top
    ensures a + bs[a].size <= top
  {
    hide Aligned;
    assert Placed(lo, hi, bs, a) && Placed(lo, hi, bs, top);
    assert a < top || top < a;
  }

  // ---- writing headers ----

  /** All headers are right, but the block above `b` may not know the size of `b` yet. */
  ghost predicate HeadersBut(m: seq<int>, lo: int, bs: Blocks, b: int)
    requires b in bs
  {
    forall a {:trigger HeaderBut(m, lo, bs, b, a)} :: a in bs ==> HeaderBut(m, lo, bs, b, a)
  }

  ghost predicate HeaderBut(m: seq<int>, lo: int, bs: Blocks, b: int, a: int)
    requires a in bs && b in bs
  {
    if a == b + bs[b].size then 0 <= a && a + 32 <= |m| && m[a] == bs[a].size + (if bs[a].used then 1 else 0)
    else Header(m, lo, bs, a)
  }

  /** The lists' blocks are blocks of the heap. */
  ghost predicate AllIn(free: seq<int>, bs: Blocks) {
    forall k :: 0 <= k < |free| ==> free[k] in bs
  }

  lemma DistinctNodes(lo: int, hi: int, bs: Blocks, free: seq<int>)
    requires Shape(lo, hi, bs) && AllIn(free, bs)
    requires forall j, k :: 0 <= j < k < |free| ==> free[j] != free[k]
    ensures Distinct(free)
  {
    hide Aligned;
    forall j, k | 0 <= j < k < |free| ensures free[j] + 32 <= free[k] || free[k] + 32 <= free[j] {
      Spread(lo, hi, bs, free[j], free[k]);
    }
  }

  /** Writing a cell of a header disturbs no link, no payload and no other header. */
  lemma HeaderWrite(m: seq<int>, lo: int, hi: int, bs: Blocks, y: int, x: int, v: int, head: int, free: seq<int>)
    requires Shape(lo, hi, bs) && y in bs && (x == y || x == y + 8) && 0 <= x < |m|
    requires Linked(m, head, free) && AllIn(free, bs)
    ensures Linked(m[x := v], head, free) && Kept(bs, m, bs, m[x := v], 0)
    ensures forall a :: a in bs && a != y && 0 <= a && a + 32 <= |m| ==>
              m[x := v][a] == m[a] && m[x := v][a + 8] == m[a + 8]
  {
    hide Aligned;
    var m' := m[x := v];
    assert Placed(lo, hi, bs, y);
    forall k | 0 <= k < |free| ensures Node(m', free, k) {
      assert Node(m, free, k);
      if free[k] != y {
        Spread(lo, hi, bs, free[k], y);
      }
    }
    forall a | a in bs && bs[a].used ensures SameCells(m, m', a + 16, a + bs[a].size) {
      assert Placed(lo, hi, bs, a);
      if a != y {
        Spread(lo, hi, bs, a, y);
      }
    }
    forall a | a in bs && a != y && 0 <= a && a + 32 <= |m| ensures m'[a] == m[a] && m'[a + 8] == m[a + 8] {
      Spread(lo, hi, bs, a, y);
    }
  }

  /** Changing links of free blocks disturbs no header and no payload in use. */
  lemma LinkWrite(m: seq<int>, m': seq<int>, lo: int, hi: int, bs: Blocks, nodes: seq<int>)
    requires Shape(lo, hi, bs) && AllIn(nodes, bs) && OnlyLinks(m, m', nodes)
    requires forall k :: 0 <= k < |nodes| ==> !bs[nodes[k]].used
    ensures Kept(bs, m, bs, m', 0)
    ensures forall a :: a in bs && 0 <= a && a + 32 <= |m| ==> m'[a] == m[a] && m'[a + 8] == m[a + 8]
  {
    hide Aligned;
    forall a | a in bs && 0 <= a && a + 32 <= |m| ensures m'[a] == m[a] && m'[a + 8] == m[a + 8] {
      forall k | 0 <= k < |nodes| ensures nodes[k] + 32 <= a || a + 16 <= nodes[k] + 16 {
        if nodes[k] != a {
          Spread(lo, hi, bs, nodes[k], a);
        }
      }
      assert OffLinks(nodes, a) && OffLinks(nodes, a + 8);
    }
    forall a | a in bs && bs[a].used ensures SameCells(m, m', a + 16, a + bs[a].size) {
      assert Placed(lo, hi, bs, a);
      forall x | a + 16 <= x < a + bs[a].size && 0 <= x < |m| ensures m'[x] == m[x] {
        forall k | 0 <= k < |nodes| ensures !(nodes[k] + 16 <= x < nodes[k] + 32) {
          Spread(lo, hi, bs, nodes[k], a);
          assert Placed(lo, hi, bs, nodes[k]);
          assert nodes[k] < a || a < nodes[k];
        }
      }
    }
  }
}
