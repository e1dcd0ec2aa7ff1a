/**
 The volume underneath: every copy of the table, the clusters' contents, and the operations that walk,
 grow, cut and free chains and move file contents along them.
 */
module FatTable {
  import opened Results
  import opened Bytes
  import opened FatChains

  // ---- entries: 28 bits of link under 4 bits that are none of this driver's ----

  function Low(word: int): (v: int)
    ensures 0 <= v < 268435456
  {
    word % 268435456
  }

  function High(word: int): int {
    word / 268435456
  }

  /** The word written over `old`: its top four bits, the new low ones. */
  function Patched(was: int, value: int): int {
    High(was) * 268435456 + Low(value)
  }

  lemma {:induction false} PatchedParts(was: int, value: int)
    ensures Low(Patched(was, value)) == Low(value) && High(Patched(was, value)) == High(was)
  {
  }

  lemma {:induction false} LowSmall(v: int)
    requires 0 <= v < 268435456
    ensures Low(v) == v
  {
  }

  function Lows(copy: seq<int>): (s: seq<int>)
    ensures |s| == |copy|
  {
    seq(|copy|, i requires 0 <= i < |copy| => Low(copy[i]))
  }

  function Highs(copy: seq<int>): (s: seq<int>)
    ensures |s| == |copy|
  {
    seq(|copy|, i requires 0 <= i < |copy| => High(copy[i]))
  }

  /** The bits of every copy that must never change. */
  ghost function Tops(fats: seq<seq<int>>): (s: seq<seq<int>>)
    ensures |s| == |fats|
  {
    seq(|fats|, i requires 0 <= i < |fats| => Highs(fats[i]))
  }

  /** All copies of the table say the same. */
  ghost predicate Agree(fats: seq<seq<int>>, n: nat) {
    |fats| > 0 && forall i :: 0 <= i < |fats| ==> |fats[i]| == n && Lows(fats[i]) == Lows(fats[0])
  }

  lemma {:induction false} PatchedCopy(copy: seq<int>, c: nat, value: int)
    requires c < |copy|
    ensures Lows(copy[c := Patched(copy[c], value)]) == Lows(copy)[c := Low(value)]
    ensures Highs(copy[c := Patched(copy[c], value)]) == Highs(copy)
  {
    hide Low, High, Patched;
    PatchedParts(copy[c], value);
  }

  lemma {:induction false} PatchedCopies(was: seq<seq<int>>, now: seq<seq<int>>, n: nat, c: nat, value: int)
    requires Agree(was, n) && c < n && |now| == |was|
    requires forall i :: 0 <= i < |was| ==> now[i] == was[i][c := Patched(was[i][c], value)]
    ensures Agree(now, n) && Lows(now[0]) == Lows(was[0])[c := Low(value)] && Tops(now) == Tops(was)
  {
    hide Low, High, Patched, Lows, Highs;
    forall i | 0 <= i < |was| ensures Lows(now[i]) == Lows(was[0])[c := Low(value)] && Highs(now[i]) == Highs(was[i]) {
      PatchedCopy(was[i], c, value);
    }
    assert now[0] == was[0][c := Patched(was[0][c], value)];
  }

  // ---- contents along a chain ----

  /** What the clusters of a chain hold, one after another. */
  function Contents(data: seq<seq<byte>>, ch: seq<int>): seq<byte>
    requires forall i :: 0 <= i < |ch| ==> 0 <= ch[i] < |data|
  {
    if ch == [] then [] else Contents(data, ch[..|ch| - 1]) + data[ch[|ch| - 1]]
  }

  function Times(n: int, size: int): int {
    n * size
  }

  lemma {:induction false} OneMore(n: int, size: int)
    ensures Times(0, size) == 0 && Times(n + 1, size) == Times(n, size) + size
  {
  }

  lemma {:induction false} TimesGrow(m: int, n: int, size: int)
    requires m <= n && size >= 0
    ensures Times(m, size) <= Times(n, size)
    decreases n - m
  {
    if m < n {
      TimesGrow(m, n - 1, size);
      OneMore(n - 1, size);
    }
  }

  ghost predicate Sized(data: seq<seq<byte>>, size: nat) {
    forall c :: 0 <= c < |data| ==> |data[c]| == size
  }

  lemma {:induction false} ContentsLength(data: seq<seq<byte>>, ch: seq<int>, size: nat)
    requires Sized(data, size) && forall i :: 0 <= i < |ch| ==> 0 <= ch[i] < |data|
    ensures |Contents(data, ch)| == Times(|ch|, size)
  {
    hide Times;
    OneMore(|ch| - 1, size);
    if ch != [] {
      ContentsLength(data, ch[..|ch| - 1], size);
    }
  }

  lemma {:induction false} ContentsFrame(data: seq<seq<byte>>, data': seq<seq<byte>>, ch: seq<int>)
    requires |data'| == |data| && forall i :: 0 <= i < |ch| ==> 0 <= ch[i] < |data|
    requires forall x :: x in ch ==> data'[x] == data[x]
    ensures Contents(data', ch) == Contents(data, ch)
  {
    if ch != [] {
      assert ch[|ch| - 1] in ch;
      ContentsFrame(data, data', ch[..|ch| - 1]);
    }
  }

  lemma {:induction false} ContentsStep(data: seq<seq<byte>>, ch: seq<int>, i: nat)
    requires i < |ch| && forall k :: 0 <= k < |ch| ==> 0 <= ch[k] < |data|
    ensures Contents(data, ch[..i + 1]) == Contents(data, ch[..i]) + data[ch[i]]
  {
    assert ch[..i + 1][..i] == ch[..i];
  }

  /** The contents of the first clusters begin the contents of all. */
  lemma {:induction false} ContentsPrefix(data: seq<seq<byte>>, ch: seq<int>, i: nat)
    requires i <= |ch| && forall k :: 0 <= k < |ch| ==> 0 <= ch[k] < |data|
    ensures Contents(data, ch[..i]) <= Contents(data, ch)
    decreases |ch| - i
  {
    if i == |ch| {
      assert ch[..i] == ch;
    } else {
      ContentsStep(data, ch, i);
      ContentsPrefix(data, ch, i + 1);
    }
  }

  /** What a file of `size` bytes reads as. */
  ghost function FileData(data: seq<seq<byte>>, ch: seq<int>, size: nat): seq<byte>
    requires forall i :: 0 <= i < |ch| ==> 0 <= ch[i] < |data|
  {
    var all := Contents(data, ch);
    if |all| <= size then all else all[..size]
  }

  lemma {:induction false} ClusterSized(data: seq<seq<byte>>, size: nat, c: nat)
    requires Sized(data, size) && c < |data|
    ensures |data[c]| == size
  {
  }

  function MaxChain(): nat {
    262144
  }


  /** What has been read from the first `i` clusters of a chain, of the `wanted` bytes. */
  ghost predicate ReadSoFar(data: seq<seq<byte>>, ch: seq<int>, i: nat, wanted: nat, size: nat, bytes: seq<byte>)
    requires forall k :: 0 <= k < |ch| ==> 0 <= ch[k] < |data|
  {
    && i <= |ch| && bytes == FileData(data, ch[..i], wanted)
    && |bytes| <= Times(i, size) && (|bytes| < wanted ==> |bytes| == Times(i, size))
  }

  lemma {:induction false} ReadStart(data: seq<seq<byte>>, ch: seq<int>, wanted: nat, size: nat)
    requires forall k :: 0 <= k < |ch| ==> 0 <= ch[k] < |data|
    ensures ReadSoFar(data, ch, 0, wanted, size, []) && (wanted == 0 || ch == [] ==> FileData(data, ch, wanted) == [])
    ensures 0 <= Times(MaxChain(), size)
  {
  }

  lemma {:induction false} ReadStep(data: seq<seq<byte>>, ch: seq<int>, i: nat, wanted: nat, size: nat,
                                    bytes: seq<byte>)
    requires i < |ch| && (forall k :: 0 <= k < |ch| ==> 0 <= ch[k] < |data|) && Sized(data, size)
    requires ReadSoFar(data, ch, i, wanted, size, bytes) && |bytes| < wanted
    ensures var next := data[ch[i]];
              ReadSoFar(data, ch, i + 1, wanted, size, bytes + next[..Min(wanted - |bytes|, |next|)])
  {
    ContentsStep(data, ch, i);
    hide Times;
    OneMore(i, size);
  }

  lemma {:induction false} TooFar(data: seq<seq<byte>>, ch: seq<int>, i: nat, wanted: nat, size: nat, bytes: seq<byte>)
    requires (forall k :: 0 <= k < |ch| ==> 0 <= ch[k] < |data|) && ReadSoFar(data, ch, i, wanted, size, bytes)
    requires |bytes| < wanted
    ensures Times(i, size) < wanted
  {
  }

  lemma {:induction false} ReadDone(data: seq<seq<byte>>, ch: seq<int>, i: nat, wanted: nat, size: nat,
                                    bytes: seq<byte>)
    requires (forall k :: 0 <= k < |ch| ==> 0 <= ch[k] < |data|) && ReadSoFar(data, ch, i, wanted, size, bytes)
    requires i <= MaxChain() && (i == |ch| || |bytes| >= wanted)
    ensures bytes == FileData(data, ch, wanted) && (|ch| <= MaxChain() || wanted <= Times(MaxChain(), size))
  {
    TimesGrow(i, MaxChain(), size);
    if i == |ch| {
      assert ch[..i] == ch;
    } else {
      ReadEnough(data, ch, i, wanted);
    }
  }

  /** Once `size` bytes are there the rest of the chain does not matter. */
  lemma {:induction false} ReadEnough(data: seq<seq<byte>>, ch: seq<int>, i: nat, size: nat)
    requires i <= |ch| && (forall k :: 0 <= k < |ch| ==> 0 <= ch[k] < |data|) && |FileData(data, ch[..i], size)| >= size
    ensures FileData(data, ch, size) == FileData(data, ch[..i], size)
  {
    ContentsPrefix(data, ch, i);
    var part, all := Contents(data, ch[..i]), Contents(data, ch);
    assert part[..size] == all[..size];
  }

  /** How many clusters hold `bytes`. */
  function ClustersFor(bytes: nat, size: nat): (n: nat)
    requires size > 0
  {
    (bytes + size - 1) / size
  }

  lemma {:induction false} ClustersHold(bytes: nat, size: nat)
    requires size > 0
    ensures Times(ClustersFor(bytes, size), size) >= bytes
    ensures bytes == 0 <==> ClustersFor(bytes, size) == 0
    ensures bytes > 0 ==> Times(ClustersFor(bytes, size) - 1, size) < bytes
  {
    var x := bytes + size - 1;
    var n := x / size;
    assert x == n * size + x % size;
    if n == 0 {
      assert x == x % size;
    }
    assert (n - 1) * size == n * size - size;
  }

  ghost predicate Distinct(ch: seq<int>) {
    forall k, l :: 0 <= k < l < |ch| ==> ch[k] != ch[l]
  }

  /** Only clusters of the chain hold anything else than before. */
  ghost predicate OnlyIn(was: seq<seq<byte>>, now: seq<seq<byte>>, ch: seq<int>) {
    |now| == |was| && forall x {:trigger now[x]} :: 0 <= x < |now| && x !in ch ==> now[x] == was[x]
  }

  lemma {:induction false} OnlyInStep(was: seq<seq<byte>>, now: seq<seq<byte>>, ch: seq<int>, i: nat, chunk: seq<byte>)
    requires OnlyIn(was, now, ch) && i < |ch| && 0 <= ch[i] < |now|
    ensures OnlyIn(was, now[ch[i] := chunk], ch)
  {
  }

  lemma {:induction false} StillSized(data: seq<seq<byte>>, size: nat, c: nat, chunk: seq<byte>)
    requires Sized(data, size) && c < |data| && |chunk| == size
    ensures Sized(data[c := chunk], size)
  {
  }

  /** Filling the next cluster of a chain adds its bytes to what the chain holds. */
  lemma {:induction false} ChunkWritten(data: seq<seq<byte>>, data': seq<seq<byte>>, ch: seq<int>, i: nat,
                                        chunk: seq<byte>)
    requires i < |ch| && (forall k :: 0 <= k < |ch| ==> 0 <= ch[k] < |data|) && data' == data[ch[i] := chunk]
    requires Distinct(ch)
    ensures Contents(data', ch[..i + 1]) == Contents(data, ch[..i]) + chunk
  {
    ContentsStep(data', ch, i);
    ContentsFrame(data, data', ch[..i]);
  }

  /** The part of a file that goes into one cluster, zeros behind the end. */
  function Chunk(bytes: seq<byte>, off: nat, size: nat): seq<byte>
    requires off <= |bytes|
  {
    if |bytes| - off >= size then bytes[off..off + size] else bytes[off..] + Zeros(size - (|bytes| - off))
  }

  lemma {:induction false} ChunkHolds(bytes: seq<byte>, off: nat, size: nat)
    requires off <= |bytes|
    ensures |Chunk(bytes, off, size)| == size
    ensures off + size < |bytes| ==> bytes[..off] + Chunk(bytes, off, size) == bytes[..off + size]
    ensures off + size >= |bytes| ==> Chunk(bytes, off, size)[..|bytes| - off] == bytes[off..]
  {
  }

  lemma {:induction false} WriteStart(fat: seq<int>, data: seq<seq<byte>>, ch: seq<int>, head: seq<int>,
                                      bytes: seq<byte>, size: nat)
    requires size > 0 && |ch| >= ClustersFor(|bytes|, size) && (ch != [] ==> IsChain(fat, ch)) && |fat| == |data|
    requires head == ch[..ClustersFor(|bytes|, size)] && (|ch| == |head| || |head| > MaxChain())
    ensures InTable(fat, head) && InTable(fat, ch) && Distinct(head) && OnlyIn(data, data, head)
    ensures OnlyIn(data, data, ch)
    ensures bytes == [] <==> head == []
    ensures Contents(data, head[..0]) == bytes[..0] && Times(0, size) == 0
    ensures (bytes == [] ==> head == ch && FileData(data, ch, 0) == [])
  {
    hide ClustersFor;
    ClustersHold(|bytes|, size);
    if ch != [] {
      NoRepeats(fat, ch);
    }
  }

  lemma {:induction false} NothingYet(data: seq<seq<byte>>, ch: seq<int>, bytes: seq<byte>, size: nat)
    requires forall i :: 0 <= i < |ch| ==> 0 <= ch[i] < |data|
    ensures Contents(data, ch[..0]) == bytes[..0] && Times(0, size) == 0
  {
  }

  /** When the bytes run out the chain does too. */
  lemma {:induction false} LastChunk(data: seq<seq<byte>>, ch: seq<int>, steps: nat, size: nat, bytes: seq<byte>,
                                     off: nat, chunk: seq<byte>)
    requires size > 0 && steps < |ch| + 1 && (forall k :: 0 <= k < |ch| ==> 0 <= ch[k] < |data|)
    requires 0 < |bytes| <= Times(steps, size) && |ch| == ClustersFor(|bytes|, size) && off <= |bytes|
    requires |bytes| - off <= |chunk|
    requires Contents(data, ch[..steps]) == bytes[..off] + chunk && chunk[..|bytes| - off] == bytes[off..]
    ensures steps == |ch| && FileData(data, ch, |bytes|) == bytes
  {
    hide Times, ClustersFor;
    ClustersHold(|bytes|, size);
    if steps < |ch| {
      TimesGrow(steps, |ch| - 1, size);
    }
    assert ch[..steps] == ch;
    var all := bytes[..off] + chunk;
    assert all[..|bytes|] == bytes[..off] + chunk[..|bytes| - off] == bytes;
  }

  lemma {:induction false} OnlyInPart(was: seq<seq<byte>>, now: seq<seq<byte>>, ch: seq<int>, n: nat)
    requires n <= |ch| && OnlyIn(was, now, ch[..n])
    ensures OnlyIn(was, now, ch)
  {
  }

  ghost function FreeBelow(fat: seq<int>, c: int): set<int> {
    set x | 2 <= x < |fat| && x < c && fat[x] == 0
  }

  lemma {:induction false} FreeBelowNone(fat: seq<int>)
    ensures FreeBelow(fat, 2) == {}
  {
  }

  lemma {:induction false} FreeBelowStep(fat: seq<int>, c: int)
    requires 2 <= c < |fat|
    ensures |FreeBelow(fat, c + 1)| == |FreeBelow(fat, c)| + if fat[c] == 0 then 1 else 0
  {
    assert FreeBelow(fat, c + 1) == FreeBelow(fat, c) + if fat[c] == 0 then {c} else {};
  }

  lemma {:induction false} FreedStep(fat0: seq<int>, fat1: seq<int>, ch: seq<int>, i: nat)
    requires IsChain(fat0, ch) && i < |ch| && Freed(fat0, fat1, ch[..i])
    ensures 2 <= ch[i] < |fat0| && fat1[ch[i]] == fat0[ch[i]] && Freed(fat0, fat1[ch[i] := 0], ch[..i + 1])
  {
    NoRepeats(fat0, ch);
    assert ch[..i + 1] == ch[..i] + [ch[i]];
  }

  lemma {:induction false} CutKeepsStart(ch: seq<int>, n: nat)
    requires 0 < n <= |ch|
    ensures ch[..n] != [] && ch[..n][0] == ch[0]
  {
  }

  /** What becomes of a chain of more than 262144 clusters that is to have `needed`: freeing stops after
      so many, finding the last cluster does, and exactly one more is taken for an end. */
  ghost predicate LongChainSet(fat: seq<int>, fat': seq<int>, ch: seq<int>, needed: nat, r: Option<nat>)
    requires |ch| > MaxChain() && InTable(fat, ch)
  {
    if needed == 0 then r.None? && Freed(fat, fat', ch[..MaxChain()])
    else if needed > MaxChain() then fat' == fat && r == if needed == MaxChain() + 1 then Some(ch[0]) else None
    else if |ch| - needed <= MaxChain() then r == Some(ch[0]) && Resized(fat, fat', ch, ch[..needed])
    else r.None? && Freed(fat[ch[needed - 1] := 268435455], fat', ch[needed..needed + MaxChain()])
  }

  /** Freeing what a chain of `own` clusters has above `needed` stops before the end. */
  predicate GivesUp(own: nat, needed: nat) {
    needed <= MaxChain() && own > needed + MaxChain()
  }

  lemma {:induction false} LongUnchanged(fat: seq<int>, ch: seq<int>, needed: nat, r: Option<nat>)
    requires |ch| > MaxChain() && InTable(fat, ch) && needed > MaxChain() && r == if needed == MaxChain() + 1
               then Some(ch[0]) else None
    ensures LongChainSet(fat, fat, ch, needed, r)
  {
  }

  class FatVolume {
    const clusters: nat
    const size: nat
    var fats: seq<seq<int>>
    var data: seq<seq<byte>>
    var cursor: nat

    /** The geometry a FAT32 volume has, copies of the table that agree, and contents of full clusters. */
    ghost predicate Valid()
      reads this
    {
      && 1 <= clusters <= 268435445 && size > 0 && size % 512 == 0
      && Agree(fats, clusters + 2) && |data| == clusters + 2 && Sized(data, size)
    }

    /** The links, as every copy of the table gives them. */
    ghost function Fat(): (fat: seq<int>)
      requires Valid()
      reads this
      ensures |fat| == clusters + 2 && forall c :: 0 <= c < |fat| ==> 0 <= fat[c] < 268435456
    {
      Lows(fats[0])
    }

    method ReadFatEntry(c: nat) returns (v: nat)
      requires Valid() && c < clusters + 2
      ensures v == Fat()[c]
    {
      v := Low(fats[0][c]);
    }

    /** Every copy gets the entry; every copy keeps its top four bits. */
    method WriteFatEntry(c: nat, value: nat)
      requires Valid() && c < clusters + 2
      modifies `fats
      ensures Valid() && Fat() == old(Fat())[c := Low(value)] && Tops(fats) == old(Tops(fats))
    {
      ghost var was := fats;
      var i := 0;
      while i < |fats|
        invariant i <= |fats| == |was|
        invariant forall k :: 0 <= k < i ==> fats[k] == was[k][c := Patched(was[k][c], value)]
        invariant forall k :: i <= k < |was| ==> fats[k] == was[k]
      {
        hide Patched;
        fats := fats[i := fats[i][c := Patched(fats[i][c], value)]];
        i := i + 1;
      }
      PatchedCopies(was, fats, clusters + 2, c, value);
    }

    method NextCluster(c: nat) returns (next: Option<nat>)
      requires Valid() && c < clusters + 2
      ensures next == if Links(Fat()[c]) then Some(Fat()[c]) else None
    {
      var v := ReadFatEntry(c);
      if v < 2 || v >= 268435447 {
        return None;
      }
      return Some(v);
    }

    /** The first free cluster from the cursor on, going round once; none only if none is free. */
    method AllocCluster() returns (c: Option<nat>)
      requires Valid()
      modifies `cursor
      ensures c.Some? ==> 2 <= c.value < clusters + 2 && Fat()[c.value] == 0
      ensures c.None? ==> forall x :: 2 <= x < clusters + 2 ==> Fat()[x] != 0
      ensures var start := if old(cursor) < 2 then 2 else if old(cursor) > clusters + 1 then clusters + 1
                else old(cursor);
        c.Some? ==> forall x ::
            2 <= x < clusters + 2 && (if c.value >= start then start <= x < c.value else x >= start || x < c.value) ==>
            Fat()[x] != 0
    {
      hide Agree, Sized;
      var last := clusters + 1;
      var start := if cursor < 2 then 2 else if cursor > last then last else cursor;
      var x, tried := start, 0;
      while tried < last - 1
        invariant 2 <= x <= last && tried <= last - 1
        invariant x == (if start + tried <= last then start + tried else start + tried - (last - 1))
        invariant forall y ::
                    && 2 <= y <= last
                    && (if start + tried <= last then start <= y < start + tried else y >= start || y < x) ==>
                      Fat()[y] != 0
      {
        var v := ReadFatEntry(x);
        if v == 0 {
          cursor := if x == last then 2 else x + 1;
          return Some(x);
        }
        x := if x == last then 2 else x + 1;
        tried := tried + 1;
      }
      return None;
    }

    /** Free a whole chain. */
    method FreeChain(start: nat, ghost ch: seq<int>) returns (ok: bool)
      requires Valid() && IsChain(Fat(), ch) && ch[0] == start
      modifies `fats
      ensures Valid() && Tops(fats) == old(Tops(fats))
      ensures ok <==> |ch| <= MaxChain()
      ensures Freed(old(Fat()), Fat(), if ok then ch else ch[..MaxChain()])
    {
      hide Agree, Sized, Low;
      ghost var fat0 := Fat();
      NoRepeats(fat0, ch);
      LowSmall(0);
      var cluster, steps := start, 0;
      while cluster >= 2
        invariant Valid() && Tops(fats) == old(Tops(fats)) && steps < |ch| && cluster == ch[steps] && steps <= 262144
        invariant Freed(fat0, Fat(), ch[..steps])
        decreases |ch| - steps
      {
        if steps >= 262144 {
          return false;
        }
        ghost var fat1 := Fat();
        FreedStep(fat0, fat1, ch, steps);
        steps := steps + 1;
        var next := NextCluster(cluster);
        WriteFatEntry(cluster, 0);
        if next.None? {
          break;
        }
        cluster := next.value;
      }
      assert ch[..|ch|] == ch;
      return true;
    }

    /** Append clusters until there are `needed`, or until none is free. */
    method Extend(first: nat, ghost ch: seq<int>, have: nat, last0: nat, needed: nat)
      returns (head: nat, ok: bool, ghost ch': seq<int>)
      requires Valid() && (ch == [] || IsChain(Fat(), ch)) && have == |ch| <= needed
      requires (ch != [] ==> ch[0] == first && ch[|ch| - 1] == last0)
      modifies `fats, `cursor
      ensures Valid() && Tops(fats) == old(Tops(fats)) && Resized(old(Fat()), Fat(), ch, ch') && ch <= ch'
      ensures ok <==> needed - |ch| <= |FreeSet(old(Fat()))|
      ensures |ch'| == if ok then needed else |ch| + |FreeSet(old(Fat()))|
      ensures ch' != [] ==> head == ch'[0]
    {
      hide Agree, Sized, Low;
      ghost var fat0 := Fat();
      ch', head := ch, first;
      var n: nat, last: nat := have, last0;
      ResizedSelf(fat0, ch);
      while n < needed
        invariant Valid() && Tops(fats) == old(Tops(fats)) && n == |ch'| <= needed && ch <= ch'
        invariant Resized(fat0, Fat(), ch, ch')
        invariant ch' != [] ==> ch'[0] == head && ch'[|ch'| - 1] == last
        invariant |FreeSet(Fat())| + n == |FreeSet(fat0)| + have
      {
        var c := AllocCluster();
        if c.None? {
          assert FreeSet(Fat()) == {};
          ok := false;
          return;
        }
        Link(n, last, c.value, ch', fat0, ch);
        head := if n == 0 then c.value else head;
        ch' := ch' + [c.value];
        last, n := c.value, n + 1;
      }
      ok := true;
    }

    /** Put a free cluster behind the last one of a chain, or start one with it. */
    method Link(n: nat, last: nat, c: nat, ghost ch1: seq<int>, ghost fat0: seq<int>, ghost ch: seq<int>)
      requires Valid() && n == |ch1| && (ch1 != [] ==> ch1[n - 1] == last) && 2 <= c < clusters + 2 && Fat()[c] == 0
      requires |fat0| == clusters + 2 && ch <= ch1 && Resized(fat0, Fat(), ch, ch1)
      modifies `fats
      ensures Valid() && Tops(fats) == old(Tops(fats)) && Resized(fat0, Fat(), ch, ch1 + [c])
      ensures |FreeSet(Fat())| == |FreeSet(old(Fat()))| - 1
    {
      hide Agree, Sized, Low;
      ghost var fat1 := Fat();
      Grown(fat0, fat1, ch, ch1, c);
      AppendTakesOne(fat1, ch1, c);
      LowSmall(c);
      LowSmall(268435455);
      if n > 0 {
        WriteFatEntry(last, c);
      }
      WriteFatEntry(c, 268435455);
      assert Fat() == Appended(fat1, ch1, c);
    }

    /** Make a chain, or none, hold exactly `bytes`. It is refused only when there is no free cluster
        for what is missing; the chain then has every cluster that was free. Chains of more than 262144
        clusters are given up on, some half way. */
    method SetChainLength(first: nat, bytes: nat, ghost ch: seq<int>) returns (r: Option<nat>, ghost ch': seq<int>)
      requires Valid() && (if first < 2 then ch == [] else IsChain(Fat(), ch) && ch[0] == first)
      modifies `fats, `cursor
      ensures Valid() && Tops(fats) == old(Tops(fats))
      ensures |ch| <= MaxChain() ==>
                && Resized(old(Fat()), Fat(), ch, ch')
                && (r.Some? <==> ClustersFor(bytes, size) <= |ch| + |FreeSet(old(Fat()))|)
                && |ch'| == (if r.Some? then ClustersFor(bytes, size) else |ch| + |FreeSet(old(Fat()))|)
                && (r.Some? ==> r.value == if ch' == [] then 0 else ch'[0])
                && (r.None? ==> ch <= ch')
      ensures |ch| > MaxChain() ==> LongChainSet(old(Fat()), Fat(), ch, ClustersFor(bytes, size), r)
    {
      assert first >= 2 ==> ch != [];
      hide Agree, Sized, Resized, IsChain, LongChainSet;
      var needed := ClustersFor(bytes, size);
      hide ClustersFor;
      if needed == 0 {
        r, ch' := Drop(first, ch);
        return;
      }
      if first < 2 {
        var head, ok;
        head, ok, ch' := Extend(0, [], 0, 0, needed);
        return if ok then Some(head) else None, ch';
      }
      var have, last, ok := Walk(first, needed, ch);
      ch' := ch;
      if !ok {
        LongUnchanged(Fat(), ch, needed, None);
        return None, ch;
      }
      if have < needed {
        var head;
        head, ok, ch' := Extend(first, ch, have, last, needed);
        r := if ok then Some(first) else None;
        assert ch'[0] == ch[0];
      } else if have - 1 < 262144 {
        ok := CutAt(have, last, ch);
        ch' := ch[..have];
        r := if ok then Some(first) else None;
        CutKeepsStart(ch, have);
      } else {
        LongUnchanged(Fat(), ch, needed, Some(first));
        r := Some(first);
      }
    }

    method Drop(first: nat, ghost ch: seq<int>) returns (r: Option<nat>, ghost ch': seq<int>)
      requires Valid() && (if first < 2 then ch == [] else IsChain(Fat(), ch) && ch[0] == first)
      modifies `fats
      ensures Valid() && Tops(fats) == old(Tops(fats)) && ch' == []
      ensures |ch| <= MaxChain() ==> Resized(old(Fat()), Fat(), ch, []) && r == Some(0)
      ensures |ch| > MaxChain() ==> LongChainSet(old(Fat()), Fat(), ch, 0, r)
    {
      hide Agree, Sized, Resized, IsChain;
      ch' := [];
      r := Some(0);
      if first >= 2 {
        ghost var fat0 := Fat();
        var ok := FreeChain(first, ch);
        if ok {
          AllFreed(fat0, Fat(), ch);
        } else {
          r := None;
        }
      } else {
        ResizedSelf(Fat(), ch);
      }
    }

    /** Follow the links to the cluster that will be the last, or to the end. */
    method Walk(first: nat, needed: nat, ghost ch: seq<int>) returns (have: nat, last: nat, ok: bool)
      requires Valid() && IsChain(Fat(), ch) && ch[0] == first && needed > 0
      ensures ok <==> |ch| <= MaxChain() || needed <= MaxChain() + 1
      ensures ok ==> have == Min(|ch|, needed) && last == ch[have - 1]
    {
      have, last := 1, first;
      var steps := 0;
      while have < needed
        invariant 1 <= have <= Min(|ch|, needed) && last == ch[have - 1] && steps == have - 1 <= 262144
      {
        if steps >= 262144 {
          return have, last, false;
        }
        steps := steps + 1;
        var next := NextCluster(last);
        if next.None? {
          break;
        }
        last, have := next.value, have + 1;
      }
      ok := true;
    }

    /** End the chain at its `have`th cluster and free the rest. */
    method CutAt(have: nat, last: nat, ghost ch: seq<int>) returns (ok: bool)
      requires Valid() && IsChain(Fat(), ch) && 0 < have <= |ch| && have <= MaxChain() && last == ch[have - 1]
      modifies `fats
      ensures Valid() && Tops(fats) == old(Tops(fats))
      ensures ok <==> |ch| - have <= MaxChain()
      ensures ok ==> Resized(old(Fat()), Fat(), ch, ch[..have])
      ensures |ch| > MaxChain() ==> LongChainSet(old(Fat()), Fat(), ch, have, if ok then Some(ch[0]) else None)
    {
      hide Agree, Sized, Resized, Low;
      ghost var fat0 := Fat();
      var tail := NextCluster(last);
      if tail.Some? {
        CutTail(fat0, ch, have);
        LowSmall(268435455);
        WriteFatEntry(last, 268435455);
        ok := FreeChain(tail.value, ch[have..]);
        if ok {
          Cut(fat0, ch, have, Fat());
        } else {
          assert ch[have..][..262144] == ch[have..have + 262144];
        }
      } else {
        ResizedSelf(fat0, ch);
        assert ch[..have] == ch;
        ok := true;
      }
    }

    /** How many clusters are in use: all that are not free. */
    method Usage() returns (used: nat, total: nat)
      requires Valid()
      ensures used == clusters - |FreeSet(Fat())| && total == clusters
    {
      hide Agree, Sized;
      used := 0;
      var c := 2;
      FreeBelowNone(Fat());
      while c <= clusters + 1
        invariant 2 <= c <= clusters + 2 && used + |FreeBelow(Fat(), c)| == c - 2
      {
        var v := ReadFatEntry(c);
        FreeBelowStep(Fat(), c);
        if v != 0 {
          used := used + 1;
        }
        c := c + 1;
      }
      assert FreeBelow(Fat(), c) == FreeSet(Fat());
      total := clusters;
    }

    /** Write a file's bytes along its chain, the last cluster filled up with zeros. It stops after 262144
        clusters, and only then may the chain be longer than the bytes need. */
    method WriteFileChain(first: nat, bytes: seq<byte>, ghost ch: seq<int>) returns (ok: bool)
      requires Valid() && (ch != [] ==> IsChain(Fat(), ch) && ch[0] == first)
      requires |ch| == ClustersFor(|bytes|, size) || |ch| >= ClustersFor(|bytes|, size) > MaxChain()
      modifies `data
      ensures Valid() && OnlyIn(old(data), data, ch)
      ensures ok <==> ClustersFor(|bytes|, size) <= MaxChain()
      ensures forall i :: 0 <= i < |ch| ==> 0 <= ch[i] < |data|
      ensures ok ==> FileData(data, ch, |bytes|) == bytes
      ensures !ok ==>
                0 <= Times(MaxChain(), size) < |bytes|
                && Contents(data, ch[..MaxChain()]) == bytes[..Times(MaxChain(), size)]
    {
      hide Agree, Sized, ClustersFor, Times, Contents, FileData, Distinct, OnlyIn;
      ghost var head := ch[..ClustersFor(|bytes|, size)];
      WriteStart(Fat(), data, ch, head, bytes, size);
      if bytes == [] {
        return true;
      }
      hide IsChain;
      var cluster, off: nat, steps: nat := first, 0, 0;
      ghost var was := data;
      while true
        invariant Valid() && |data| == |was| && InTable(Fat(), head) && steps < |head| && cluster == head[steps]
        invariant steps <= 262144
        invariant off < |bytes| && off == Times(steps, size) && Contents(data, head[..steps]) == bytes[..off]
        invariant OnlyIn(was, data, head)
        decreases |head| - steps
      {
        if steps >= 262144 {
          OnlyInPart(was, data, ch, |head|);
          assert ch[..MaxChain()] == head[..MaxChain()];
          return false;
        }
        PutChunk(cluster, off, bytes, head, steps, was);
        steps := steps + 1;
        if off + size >= |bytes| {
          assert head == ch;
          return true;
        }
        off := off + size;
        cluster := NextOf(cluster, ch, steps - 1, |bytes|);
      }
    }

    /** Fill one cluster with its part of a file. */
    method PutChunk(cluster: nat, off: nat, bytes: seq<byte>, ghost ch: seq<int>, ghost i: nat,
                    ghost was: seq<seq<byte>>)
      requires Valid() && InTable(Fat(), ch) && Distinct(ch) && i < |ch| == ClustersFor(|bytes|, size)
      requires cluster == ch[i]
      requires off == Times(i, size) && off < |bytes| && Contents(data, ch[..i]) == bytes[..off]
      requires OnlyIn(was, data, ch)
      modifies `data
      ensures Valid() && OnlyIn(was, data, ch)
      ensures off + size < |bytes| ==>
                Times(i + 1, size) == off + size && Contents(data, ch[..i + 1]) == bytes[..off + size]
      ensures off + size >= |bytes| ==> i + 1 == |ch| && FileData(data, ch, |bytes|) == bytes
    {
      hide Agree, Sized, ClustersFor, Times, Contents, IsChain, FileData, Chunk, Distinct, OnlyIn;
      ghost var data1 := data;
      var chunk := Chunk(bytes, off, size);
      ChunkHolds(bytes, off, size);
      data := data[cluster := chunk];
      StillSized(data1, size, cluster, chunk);
      OnlyInStep(was, data1, ch, i, chunk);
      ChunkWritten(data1, data, ch, i, chunk);
      OneMore(i, size);
      if off + size >= |bytes| {
        LastChunk(data, ch, i + 1, size, bytes, off, chunk);
      }
    }

    /** A chain long enough goes on while bytes are left. */
    method NextOf(cluster: nat, ghost ch: seq<int>, ghost i: nat, ghost bytes: nat) returns (next: nat)
      requires Valid() && IsChain(Fat(), ch) && i < ClustersFor(bytes, size) <= |ch| && cluster == ch[i]
      requires Times(i + 1, size) < bytes
      ensures i + 1 < ClustersFor(bytes, size) && next == ch[i + 1]
    {
      hide Agree, Sized, ClustersFor, Times;
      ClustersHold(bytes, size);
      assert i + 1 != ClustersFor(bytes, size);
      var found := NextCluster(cluster);
      next := found.value;
    }

    /** The first `wanted` bytes along a chain, or all there are; nothing when they reach past the
        262144th cluster. */
    method ReadFileChain(first: nat, wanted: nat, ghost ch: seq<int>) returns (r: Option<seq<byte>>)
      requires Valid() && (if first < 2 then ch == [] else IsChain(Fat(), ch) && ch[0] == first)
      ensures forall i :: 0 <= i < |ch| ==> 0 <= ch[i] < |data|
      ensures r.Some? <==> |ch| <= MaxChain() || wanted <= Times(MaxChain(), size)
      ensures r.Some? ==> r.value == FileData(data, ch, wanted)
    {
      hide Agree, Times, FileData, Contents, ReadSoFar;
      assert InTable(Fat(), ch);
      ReadStart(data, ch, wanted, size);
      hide IsChain, Sized, Links;
      if wanted == 0 || first < 2 {
        return Some([]);
      }
      var bytes := [];
      var cluster, steps := first, 0;
      while |bytes| < wanted
        invariant InTable(Fat(), ch) && steps < |ch| && cluster == ch[steps] && steps <= 262144
        invariant ReadSoFar(data, ch, steps, wanted, size, bytes)
        decreases |ch| - steps
      {
        if steps >= 262144 {
          TooFar(data, ch, steps, wanted, size, bytes);
          return None;
        }
        ReadStep(data, ch, steps, wanted, size, bytes);
        Follow(Fat(), ch, steps);
        bytes := bytes + data[cluster][..Min(wanted - |bytes|, |data[cluster]|)];
        steps := steps + 1;
        var next := NextCluster(cluster);
        if next.None? {
          break;
        }
        cluster := next.value;
      }
      ReadDone(data, ch, steps, wanted, size, bytes);
      r := Some(bytes);
    }
  }
}
