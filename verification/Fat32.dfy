/**
 Files and directories of a mounted FAT32 volume: finding a directory by its path, reading a file, and
 writing one, with its chain, its record and, when the directory is full, one more directory cluster.
 */
module Fat32 {
  import opened Results
  import opened Bytes
  import opened FatChains
  import opened FatTable
  import opened FatNames
  import opened FatDirs
  import opened FatTree

  // ---- where a record's cluster is ----

  lemma {:induction false} WholeRecords(n: nat, size: nat)
    requires size % 512 == 0
    ensures Times(n, size) % 32 == 0
  {
    var m := size / 32;
    assert size == 32 * m;
    Regroup(n, m);
    assert Times(n, size) == 32 * Times(n, m);
    hide Times;
  }

  lemma {:induction false} Regroup(n: nat, m: nat)
    ensures Times(n, 32 * m) == 32 * Times(n, m)
  {
  }

  lemma {:induction false} Quotient(x: nat, size: nat)
    requires size > 0
    ensures x == Times(x / size, size) + x % size && 0 <= x % size < size && x / size >= 0
  {
  }

  /** A record lies within one cluster. */
  lemma {:induction false} RecordCluster(k: nat, n: nat, size: nat)
    requires size > 0 && size % 512 == 0 && 32 * k + 32 <= Times(n, size)
    ensures var i := 32 * k / size;
              0 <= i < n && 0 <= Times(i, size) <= 32 * k && 32 * k + 32 <= Times(i + 1, size) == Times(i, size) + size
  {
    Quotient(32 * k, size);
    var i, r := 32 * k / size, 32 * k % size;
    WholeRecords(i, size);
    hide Times;
    OneMore(i, size);
    OneMore(0, size);
    TimesGrow(0, i, size);
    WithinCluster(32 * k, Times(i, size), size, r);
    if i >= n {
      TimesGrow(n, i, size);
    }
  }

  lemma {:induction false} WithinCluster(x: nat, t: nat, size: nat, r: nat)
    requires x % 32 == 0 && t % 32 == 0 && size % 512 == 0 && x == t + r && r < size
    ensures r + 32 <= size
  {
  }

  lemma {:induction false} ContentsJoin(data: seq<seq<byte>>, a: seq<int>, b: seq<int>)
    requires InData(data, a) && InData(data, b)
    ensures InData(data, a + b) && Contents(data, a + b) == Contents(data, a) + Contents(data, b)
  {
    if b == [] {
      assert a + b == a;
    } else {
      ContentsJoin(data, a, b[..|b| - 1]);
      assert (a + b)[..|a + b| - 1] == a + b[..|b| - 1];
    }
  }

  /** Writing back the one cluster that differs brings the chain's contents up to date. */
  lemma {:induction false} OneClusterChanged(data: seq<seq<byte>>, ch: seq<int>, size: nat, i: nat, buf: seq<byte>)
    requires Sized(data, size) && InData(data, ch) && Distinct(ch) && i < |ch|
    requires |buf| == |Contents(data, ch)| == Times(|ch|, size)
    requires 0 <= Times(i, size) <= Times(i, size) + size == Times(i + 1, size) <= |buf|
    requires buf[..Times(i, size)] == Contents(data, ch)[..Times(i, size)]
    requires buf[Times(i + 1, size)..] == Contents(data, ch)[Times(i + 1, size)..]
    ensures Contents(data[ch[i] := buf[Times(i, size)..Times(i + 1, size)]], ch) == buf
  {
    hide Times, Contents;
    var chunk := buf[Times(i, size)..Times(i + 1, size)];
    var data' := data[ch[i] := chunk];
    var a, b := ch[..i], ch[i + 1..];
    assert ch == a + ([ch[i]] + b);
    ContentsParts(data, a, ch[i], b);
    ContentsParts(data', a, ch[i], b);
    ContentsFrame(data, data', a);
    ContentsFrame(data, data', b);
    ContentsLength(data, a, size);
    var x, y := Contents(data, a), Contents(data, b);
    assert Contents(data, ch) == x + data[ch[i]] + y;
    assert x == buf[..Times(i, size)];
    assert y == Contents(data, ch)[Times(i + 1, size)..];
    assert buf == buf[..Times(i, size)] + chunk + buf[Times(i + 1, size)..];
  }

  lemma {:induction false} ContentsParts(data: seq<seq<byte>>, a: seq<int>, c: int, b: seq<int>)
    requires InData(data, a) && InData(data, b) && 0 <= c < |data|
    ensures InData(data, a + ([c] + b))
    ensures Contents(data, a + ([c] + b)) == Contents(data, a) + data[c] + Contents(data, b)
  {
    ContentsJoin(data, a, [c] + b);
    ContentsJoin(data, [c], b);
    assert Contents(data, [c]) == Contents(data, []) + data[c];
  }

  lemma {:induction false} OutsideRecord(buf: seq<byte>, k: nat, rec: seq<byte>, lo: nat, hi: nat)
    requires InBuffer(buf, k) && |rec| == 32 && lo <= 32 * k && 32 * k + 32 <= hi <= |buf|
    ensures WithRec(buf, k, rec)[..lo] == buf[..lo] && WithRec(buf, k, rec)[hi..] == buf[hi..]
  {
  }

  lemma {:induction false} RecordFlushed(data: seq<seq<byte>>, ch: seq<int>, size: nat, k: nat, rec: seq<byte>)
    requires size > 0 && size % 512 == 0 && Sized(data, size) && InData(data, ch) && Distinct(ch) && |rec| == 32
    requires InBuffer(Contents(data, ch), k)
    ensures var i := 32 * k / size;
              0 <= i < |ch| && 0 <= Times(i, size) && Times(i, size) + size <= |Contents(data, ch)|
    ensures var i, buf := 32 * k / size, WithRec(Contents(data, ch), k, rec);
      var data' := data[ch[i] := buf[Times(i, size)..Times(i, size) + size]];
      Contents(data', ch) == buf && Sized(data', size) && OnlyIn(data, data', ch)
  {
    hide Times, Contents, WithRec;
    var before := Contents(data, ch);
    var buf := WithRec(before, k, rec);
    ContentsLength(data, ch, size);
    RecordCluster(k, |ch|, size);
    var i := 32 * k / size;
    TimesGrow(i + 1, |ch|, size);
    OutsideRecord(before, k, rec, Times(i, size), Times(i + 1, size));
    OneClusterChanged(data, ch, size, i, buf);
    StillSized(data, size, ch[i], buf[Times(i, size)..Times(i, size) + size]);
    OnlyInSelf(data, ch);
    OnlyInStep(data, data, ch, i, buf[Times(i, size)..Times(i, size) + size]);
  }

  // ---- from the volume's steps to the two kinds of change ----

  /** One chain, or none, has been resized and only its clusters have been written. */
  ghost predicate ChainStep(s: Snapshot, s': Snapshot, ch: seq<int>, ch': seq<int>) {
    && OneOf(s.chains, ch) && Resized(s.fat, s'.fat, ch, ch')
    && |s'.data| == |s.data| && Sized(s'.data, s.size) && OnlyIn(s.data, s'.data, ch')
    && s'.chains == Replaced(s.chains, ch, ch') && s'.dirs == s.dirs && s'.size == s.size
  }

  /** Every other chain has come through. */
  lemma {:induction false} OthersUntouched(s: Snapshot, s': Snapshot, ch: seq<int>, ch': seq<int>)
    requires SoundVolume(s) && ChainStep(s, s', ch, ch')
    requires ch == [] || ch[0] !in s.dirs || (ch' != [] && ch'[0] == ch[0])
    ensures SoundVolume(s') && OneOf(s'.chains, ch')
    ensures forall t {:trigger Untouched(s, s', t)} {:trigger s.chains[t]} ::
              t in s.chains && (ch == [] || t != ch[0]) ==> Untouched(s, s', t)
    ensures ch == [] && ch' != [] ==> ch'[0] !in s.chains
  {
    ResizedSound(s.fat, s'.fat, s.chains, ch, ch');
    forall t {:trigger Untouched(s, s', t)} {:trigger s.chains[t]} | t in s.chains && (ch == [] || t != ch[0])
      ensures Untouched(s, s', t)
    {
      OtherChainApart(s.fat, s'.fat, s.chains, ch, ch', t);
      ChainInData(s, t);
      ContentsFrame(s.data, s'.data, s.chains[t]);
    }
  }

  lemma {:induction false} OnlyInChain(a: seq<seq<byte>>, b: seq<seq<byte>>, c: seq<seq<byte>>, ch: seq<int>)
    requires OnlyIn(a, b, ch) && OnlyIn(b, c, ch)
    ensures OnlyIn(a, c, ch)
  {
  }

  /** A chain that was made longer without writing to it goes unnoticed, and so does a new one that no
      record names. */
  lemma {:induction false} GrowthUnnoticed(s: Snapshot, s': Snapshot, ch: seq<int>, ch': seq<int>)
    requires Tree(s) && ChainStep(s, s', ch, ch') && ch <= ch'
    requires ch == [] || (ch[0] !in s.dirs && s'.data == s.data)
    ensures Unnoticed(s, s', ch, ch')
  {
    OthersUntouched(s, s', ch, ch');
    hide Resized, Sized, OnlyIn, MaxChain;
    if ch != [] {
      ChainInData(s, ch[0]);
      ChainInData(s', ch[0]);
      ContentsPrefix(s.data, ch', |ch|);
      assert ch'[..|ch|] == ch;
    }
  }

  /** The file's chain, then the directory's: every other chain has come through both. */
  lemma {:induction false} BothSteps(s: Snapshot, s1: Snapshot, s2: Snapshot, d: int, ch: seq<int>, ch': seq<int>,
                                     dch': seq<int>, bytes: seq<byte>)
    requires SoundVolume(s) && d in s.dirs && (ch == [] || ch[0] !in s.dirs)
    requires ChainStep(s, s1, ch, ch') && ChainStep(s1, s2, s.chains[d], dch') && s.chains[d] <= dch'
    requires HoldsBytes(s1.data, s1.size, ch', bytes)
    ensures SoundVolume(s1) && SoundVolume(s2) && Untouched(s, s1, d) && d in s2.chains && s2.chains[d] == dch'
    ensures forall t {:trigger Untouched(s, s2, t)} {:trigger s.chains[t]} ::
              t in s.chains && t != d && (ch == [] || t != ch[0]) ==> Untouched(s, s2, t)
    ensures OneOf(s2.chains, ch')
    ensures (ch' != [] ==> ch'[0] !in s.dirs && (ch'[0] in s.chains ==> ch != [] && ch'[0] == ch[0]))
    ensures HoldsBytes(s2.data, s2.size, ch', bytes)
  {
    var dch := s.chains[d];
    ChainInData(s, d);
    OthersUntouched(s, s1, ch, ch');
    assert Untouched(s, s1, d);
    assert dch'[0] == dch[0] == d;
    OthersUntouched(s1, s2, dch, dch');
    forall t {:trigger Untouched(s, s2, t)} {:trigger s.chains[t]} | t in s.chains && t != d && (ch == [] || t != ch[0])
      ensures Untouched(s, s2, t)
    {
      assert Untouched(s, s1, t);
      assert Untouched(s1, s2, t);
    }
    if ch' != [] {
      FileStart(s, s1, ch, ch');
      assert Untouched(s1, s2, ch'[0]);
      SameFile(s1, s2, ch'[0], |bytes|);
    }
  }

  lemma {:induction false} FileStart(s: Snapshot, s1: Snapshot, ch: seq<int>, ch': seq<int>)
    requires SoundVolume(s) && ChainStep(s, s1, ch, ch') && ch' != [] && (ch == [] || ch[0] !in s.dirs)
    ensures ch'[0] !in s.dirs && (ch'[0] in s.chains ==> ch != [] && ch'[0] == ch[0])
  {
    ResizedSound(s.fat, s1.fat, s.chains, ch, ch');
  }

  /** Writing `bytes` as `name` in `d` did just that: the name reads as the bytes, every other name of
      every directory as before, and all paths lead where they led. A directory that has outgrown what
      the driver reads is the one exception. */
  ghost predicate Written(s: Snapshot, s': Snapshot, d: int, name: seq<int>, bytes: seq<byte>) {
    && Tree(s) && Tree(s') && s'.dirs == s.dirs && d in s.dirs
    && Read(s', d, name) == (if Readable(s', d) then Some(bytes) else None)
    && (forall e, n {:trigger ReadsAlike(s, s', e, n)} ::
         e in s.dirs && (e != d || (Readable(s', d) && !SameName(n, name))) ==> ReadsAlike(s, s', e, n))
    && (forall e, n {:trigger LeadsAlike(s, s', e, n)} :: e in s.dirs && (e != d || Readable(s', d)) ==>
         LeadsAlike(s, s', e, n))
  }

  /** What the file `name` reads as in the directory that a path of names leads to. */
  ghost function ReadAt(s: Snapshot, root: int, parts: seq<seq<int>>, name: seq<int>): Option<seq<byte>>
    requires Tree(s) && root in s.dirs
  {
    match Resolve(s, root, parts)
    case None => None
    case Some(d) => ResolvedIsDir(s, root, parts); Read(s, d, name)
  }

  /** The path names a directory. */
  ghost predicate TakenByDirectory(s: Snapshot, root: int, parts: seq<seq<int>>, name: seq<int>)
    requires Tree(s) && root in s.dirs
  {
    match Resolve(s, root, parts)
    case None => false
    case Some(d) => ResolvedIsDir(s, root, parts); exists k: nat :: Match(BufferOf(s, d), true, name, k)
  }

  lemma {:induction false} ResolvedIsDir(s: Snapshot, d: int, parts: seq<seq<int>>)
    requires Tree(s) && d in s.dirs
    ensures Resolve(s, d, parts).Some? ==> Resolve(s, d, parts).value in s.dirs
    decreases |parts|
  {
    hide Tree, SubDir;
    if parts != [] {
      SubDirIsDir(s, d, parts[0]);
      if SubDir(s, d, parts[0]).Some? {
        ResolvedIsDir(s, SubDir(s, d, parts[0]).value, parts[1..]);
      }
    }
  }

  /** Names that differ only in case read the same. */
  lemma {:induction false} ReadIgnoresCase(s: Snapshot, d: int, a: seq<int>, b: seq<int>)
    requires Tree(s) && d in s.dirs && SameName(a, b)
    ensures Read(s, d, a) == Read(s, d, b)
  {
    TreeSound(s);
    hide Tree, SoundVolume, BufferOf, Read, Lowered, Live, Rec, Text;
    forall k: nat ensures Named(s, d, false, a, k) <==> Named(s, d, false, b, k) {
      var buf := BufferOf(s, d);
      forall j: nat ensures Match(buf, false, a, j) <==> Match(buf, false, b, j) {
      }
    }
    hide Named;
    if k: nat :| Named(s, d, false, a, k) {
      ReadIs(s, d, a, k);
      ReadIs(s, d, b, k);
    } else {
      ReadNone(s, d, a);
      ReadNone(s, d, b);
    }
  }

  /** The volume as a map from paths to bytes: writing a file sets one key and no other. */
  lemma {:induction false} PathWritten(s: Snapshot, s': Snapshot, root: int, parts: seq<seq<int>>, d: int,
                                       name: seq<int>, bytes: seq<byte>)
    requires Written(s, s', d, name, bytes) && root in s.dirs && Resolve(s, root, parts) == Some(d)
    ensures Tree(s') && root in s'.dirs
    ensures Readable(s', d) ==> ReadAt(s', root, parts, name) == Some(bytes)
    ensures Readable(s', d) ==> forall ps, n {:trigger ReadAt(s', root, ps, n)} ::
      ReadAt(s', root, ps, n) == if Resolve(s, root, ps) == Some(d) && SameName(n, name) then Some(bytes)
          else ReadAt(s, root, ps, n)
  {
    TreeSound(s');
    hide Tree, SoundVolume, Read, Resolve, Lowered, Readable;
    if Readable(s', d) {
      forall ps, n {:trigger ReadAt(s', root, ps, n)} | true
        ensures ReadAt(s', root, ps, n) == if Resolve(s, root, ps) == Some(d) && SameName(n, name) then Some(bytes)
                  else ReadAt(s, root, ps, n)
      {
        ResolvesAlike(s, s', root, ps);
        ResolvedIsDir(s, root, ps);
        if Resolve(s, root, ps).Some? {
          var e := Resolve(s, root, ps).value;
          if e == d && SameName(n, name) {
            ReadIgnoresCase(s', d, n, name);
          } else {
            assert ReadsAlike(s, s', e, n);
          }
        }
      }
      assert SameName(name, name);
    }
  }

  /** Every name of every directory reads and leads as before. */
  ghost predicate Alike(s: Snapshot, s': Snapshot) {
    && Tree(s) && Tree(s') && s'.dirs == s.dirs
    && (forall e, n {:trigger ReadsAlike(s, s', e, n)} :: e in s.dirs ==> ReadsAlike(s, s', e, n))
    && (forall e, n {:trigger LeadsAlike(s, s', e, n)} :: e in s.dirs ==> LeadsAlike(s, s', e, n))
  }

  lemma {:induction false} UnnoticedAlike(s: Snapshot, s': Snapshot, ch: seq<int>, ch': seq<int>)
    requires Tree(s) && Unnoticed(s, s', ch, ch')
    ensures Alike(s, s')
  {
    UnnoticedTree(s, s', ch, ch');
    SameDirs(s, s', ch, ch');
    hide Unnoticed, Tree, ReadsAlike, LeadsAlike;
    forall e, n {:trigger ReadsAlike(s, s', e, n)} {:trigger LeadsAlike(s, s', e, n)} | e in s.dirs
      ensures ReadsAlike(s, s', e, n) && LeadsAlike(s, s', e, n)
    {
      UnnoticedReads(s, s', ch, ch', e, n);
    }
  }

  lemma {:induction false} TurnWritten(s: Snapshot, s': Snapshot, d: int, k: nat, name: seq<int>, ch: seq<int>,
                                       ch': seq<int>, bytes: seq<byte>)
    requires Tree(s) && FileTurn(s, s', d, k, name, ch, ch', bytes) && |bytes| <= 536870912 && Readable(s, d)
    requires Named(s, d, false, name, k) || forall j: nat :: !Match(BufferOf(s, d), false, name, j)
    ensures Written(s, s', d, name, bytes)
  {
    TurnItself(s, s', d, k, name, ch, ch', bytes);
    assert s'.dirs == s.dirs;
    hide FileTurn, Tree, ReadsAlike, LeadsAlike, Readable, Named, Match, Read;
    forall e, n {:trigger ReadsAlike(s, s', e, n)} {:trigger LeadsAlike(s, s', e, n)} | e in s.dirs
        && (e != d || Readable(s', d))
      ensures LeadsAlike(s, s', e, n) && (e != d || !SameName(n, name) ==> ReadsAlike(s, s', e, n))
    {
      TurnReads(s, s', d, k, name, ch, ch', bytes, e, n);
    }
  }

  /** An existing file's record, once its chain is set, makes the turn whole. */
  lemma {:induction false} OverwriteTurn(s: Snapshot, s1: Snapshot, s2: Snapshot, d: int, k: nat, name: seq<int>,
                                         ch: seq<int>, ch': seq<int>, bytes: seq<byte>)
    requires Tree(s) && d in s.dirs && Match(BufferOf(s, d), false, name, k)
    requires var rec := Rec(BufferOf(s, d), k);
               if FirstCluster(rec) < 2 then ch == [] else ch != [] && ch[0] == FirstCluster(rec)
    requires ChainStep(s, s1, ch, ch') && ChainStep(s1, s2, s.chains[d], s.chains[d])
    requires HoldsBytes(s1.data, s1.size, ch', bytes)
    requires |s.fat| <= 268435447 && |bytes| <= 536870912 && |bytes| <= Times(MaxChain(), s.size)
    requires InData(s2.data, s.chains[d])
    requires Contents(s2.data, s.chains[d])
               == WithRec(BufferOf(s, d), k, WithFields(Rec(BufferOf(s, d), k), StartOf(ch'), |bytes|))
    ensures FileTurn(s, s2, d, k, name, ch, ch', bytes)
  {
    EntryIsGood(s, d, k);
    hide Contents, WithRec, WithFields, Times, Resized, Sized, OnlyIn, FileData, Rec, FirstCluster, Size, Text, Lowered,
         IsDir;
    BothSteps(s, s1, s2, d, ch, ch', s.chains[d], bytes);
    StartInTable(s, s1, ch, ch');
    FieldsReadBack(Rec(BufferOf(s, d), k), StartOf(ch'), |bytes|);
    FieldsChanged(BufferOf(s, d), k, StartOf(ch'), |bytes|, name);
    RecAfter(BufferOf(s, d), k, WithFields(Rec(BufferOf(s, d), k), StartOf(ch'), |bytes|), k);
    assert BufferOf(s2, d) == Contents(s2.data, s.chains[d]);
  }

  /** A new file's record likewise. */
  lemma {:induction false} CreateTurn(s: Snapshot, s1: Snapshot, s2: Snapshot, d: int, k: nat, name: seq<int>,
                                      ch': seq<int>, dch': seq<int>, bytes: seq<byte>, buf1: seq<byte>, rec: seq<byte>)
    requires Tree(s) && d in s.dirs && forall j: nat :: !Match(BufferOf(s, d), false, name, j)
    requires ChainStep(s, s1, [], ch') && ChainStep(s1, s2, s.chains[d], dch') && s.chains[d] <= dch'
    requires HoldsBytes(s1.data, s1.size, ch', bytes)
    requires |s.fat| <= 268435447 && |bytes| <= Times(MaxChain(), s.size) && InData(s2.data, dch')
    requires SameEntries(BufferOf(s, d), buf1) && FreeSlot(buf1, k)
    requires |rec| == 32 && rec[0] != 0 && !Skipped(rec) && !IsDir(rec) && SameName(Text(rec), name)
    requires FirstCluster(rec) == StartOf(ch') && Size(rec) == |bytes|
    requires Contents(s2.data, dch') == WithRec(buf1, k, rec)
    ensures FileTurn(s, s2, d, k, name, [], ch', bytes)
  {
    hide Contents, WithRec, Times, Resized, Sized, OnlyIn, FileData, Rec, FirstCluster, Size, Text, Lowered, IsDir,
         Skipped;
    BothSteps(s, s1, s2, d, [], ch', dch', bytes);
    StartInTable(s, s1, [], ch');
    SlotFilled(buf1, k, rec, name);
    RecAfter(buf1, k, rec, k);
    ChangedAfterSame(BufferOf(s, d), buf1, WithRec(buf1, k, rec), k, name);
    assert BufferOf(s2, d) == Contents(s2.data, dch');
    assert !Match(BufferOf(s, d), false, name, k);
  }

  /** A file's chain was written and its record was not: the file now holds the start of the bytes. */
  lemma {:induction false} SpoiltTurn(s: Snapshot, s1: Snapshot, d: int, k: nat, name: seq<int>, ch: seq<int>,
                                      ch': seq<int>, bytes: seq<byte>)
    requires Tree(s) && d in s.dirs && Match(BufferOf(s, d), false, name, k) && ch != []
    requires ch[0] == FirstCluster(Rec(BufferOf(s, d), k)) >= 2
    requires ChainStep(s, s1, ch, ch') && ch <= ch' && HoldsStart(s1.data, s1.size, ch', bytes)
    ensures var n := Size(Rec(BufferOf(s, d), k)); n <= |bytes| && FileTurn(s, s1, d, k, name, ch, ch', bytes[..n])
  {
    EntryIsGood(s, d, k);
    hide Contents, Times, Resized, Sized, OnlyIn, Rec, FirstCluster, Size, Text, Lowered, IsDir, FileData, BufferOf,
         Live, LongAt;
    var n := Size(Rec(BufferOf(s, d), k));
    DirAfterStep(s, s1, ch, ch', d);
    OthersUntouched(s, s1, ch, ch');
    SameBuffer(s, s1, d);
    StartHolds(s1.data, s1.size, ch', bytes, n);
    TimesGrow(|ch|, |ch'|, s.size);
  }

  lemma {:induction false} SameBuffer(s: Snapshot, s1: Snapshot, d: int)
    requires SoundVolume(s) && SoundVolume(s1) && d in s.dirs && s1.dirs == s.dirs && Untouched(s, s1, d)
    ensures BufferOf(s1, d) == BufferOf(s, d)
  {
  }

  lemma {:induction false} StartHolds(data: seq<seq<byte>>, size: nat, ch: seq<int>, bytes: seq<byte>, n: nat)
    requires HoldsStart(data, size, ch, bytes) && n <= Times(MaxChain(), size)
    ensures n <= |bytes| && FileData(data, ch, n) == bytes[..n]
  {
    hide Times, Contents;
    ContentsPrefix(data, ch, MaxChain());
    var all, part := Contents(data, ch), Contents(data, ch[..MaxChain()]);
    assert all[..n] == part[..n] == bytes[..n];
  }

  function StartOf(ch: seq<int>): int {
    if ch == [] then 0 else ch[0]
  }

  lemma {:induction false} StartInTable(s: Snapshot, s1: Snapshot, ch: seq<int>, ch': seq<int>)
    requires ChainStep(s, s1, ch, ch')
    ensures StartOf(ch') == 0 || 2 <= StartOf(ch') < |s.fat|
    ensures ch' != [] ==> ch'[0] >= 2
  {
  }

  /** A directory record that a new entry can take, or the end mark. */
  ghost predicate HasSlot(buf: seq<byte>) {
    exists k: nat :: SlotAt(buf, k)
  }

  predicate SlotAt(buf: seq<byte>, k: nat) {
    InBuffer(buf, k) && (Rec(buf, k)[0] == 229 || Rec(buf, k)[0] == 0)
  }

  /** The chain has more than 262144 clusters, and so many of them hold the start of the bytes. */
  ghost predicate HoldsStart(data: seq<seq<byte>>, size: nat, ch: seq<int>, bytes: seq<byte>) {
    && |ch| > MaxChain() && InData(data, ch) && 0 <= Times(MaxChain(), size) < |bytes|
    && Contents(data, ch[..MaxChain()]) == bytes[..Times(MaxChain(), size)]
  }

  lemma {:induction false} LongerThan(fat: seq<int>, fat': seq<int>, ch: seq<int>, ch': seq<int>)
    requires Resized(fat, fat', ch, ch') && |ch| <= |ch'|
    ensures ch <= ch'
  {
  }

  // ---- when a write succeeds, and when it makes its directory unreadable ----

  /** The chain of the file that the name finds. */
  ghost function OwnChain(s: Snapshot, d: int, name: seq<int>): seq<int>
    requires Tree(s) && d in s.dirs
  {
    if k: nat :| Named(s, d, false, name, k) then
      OneName(s, d, false, name);
      EntryIsGood(s, d, k);
      ChainOf(s, Rec(BufferOf(s, d), k))
    else []
  }

  ghost function OwnClusters(s: Snapshot, d: int, name: seq<int>): nat
    requires Tree(s) && d in s.dirs
  {
    |OwnChain(s, d, name)|
  }

  ghost function ChainOf(s: Snapshot, rec: seq<byte>): seq<int>
    requires |rec| == 32 && GoodEntry(s, rec) && !IsDir(rec)
  {
    if FirstCluster(rec) < 2 then [] else s.chains[FirstCluster(rec)]
  }

  /** No file has the name, and the directory has no record left to put it in. */
  ghost predicate NeedsGrowth(s: Snapshot, d: int, name: seq<int>)
    requires SoundVolume(s) && d in s.dirs
  {
    !HasSlot(BufferOf(s, d)) && forall k: nat {:trigger Named(s, d, false, name, k)} :: !Named(s, d, false, name, k)
  }

  /** The bytes are not too many, in clusters neither, the driver can read the directory, and there are
      clusters for what is missing: of the file, and of the directory when it has to grow; and the file
      there already, if any, can be cut. */
  ghost predicate RoomFor(s: Snapshot, d: int, name: seq<int>, bytes: nat)
    requires Tree(s) && d in s.dirs && s.size > 0
  {
    && bytes <= 536870912 && ClustersFor(bytes, s.size) <= MaxChain() && Readable(s, d)
    && ClustersFor(bytes, s.size) + (if NeedsGrowth(s, d, name) then 1 else 0) <= OwnClusters(s, d, name)
         + |FreeSet(s.fat)|
    && !GivesUp(OwnClusters(s, d, name), ClustersFor(bytes, s.size))
  }

  /** Too many clusters, and room for them all: 262144 of them are written before the write is refused.
      With a chain that is too long already, it must be just one too many, or none is. */
  predicate Begun(own: nat, free: nat, needed: nat) {
    MaxChain() < needed <= own + free && (own <= MaxChain() || needed == MaxChain() + 1)
  }

  /** A write that is begun, and a file there already whose chain it goes into. */
  ghost predicate Spoils(s: Snapshot, d: int, name: seq<int>, bytes: nat)
    requires Tree(s) && d in s.dirs && s.size > 0
  {
    && bytes <= 536870912 && Readable(s, d) && OwnClusters(s, d, name) > 0
    && Begun(OwnClusters(s, d, name), |FreeSet(s.fat)|, ClustersFor(bytes, s.size))
  }

  /** A chain so long that the write is given up on while it is being cut. */
  ghost predicate Abandons(s: Snapshot, d: int, name: seq<int>, bytes: nat)
    requires Tree(s) && d in s.dirs && s.size > 0
  {
    bytes <= 536870912 && Readable(s, d) && GivesUp(OwnClusters(s, d, name), ClustersFor(bytes, s.size))
  }

  /** What is left then: part of the chain is freed, and nothing else has changed. */
  ghost predicate Abandoned(s: Snapshot, s': Snapshot, d: int, name: seq<int>, bytes: nat)
    requires Tree(s) && d in s.dirs && s.size > 0
  {
    var ch, needed := OwnChain(s, d, name), ClustersFor(bytes, s.size);
    && |ch| > MaxChain() && InTable(s.fat, ch) && LongChainSet(s.fat, s'.fat, ch, needed, None)
    && s' == s.(fat := s'.fat)
  }

  /** Every other chain is what it was, and the file's own is one no longer. */
  lemma {:induction false} AbandonedLoses(s: Snapshot, s': Snapshot, d: int, name: seq<int>, bytes: nat)
    requires Tree(s) && d in s.dirs && s.size > 0 && Abandons(s, d, name, bytes) && Abandoned(s, s', d, name, bytes)
    ensures var ch := OwnChain(s, d, name);
            && ch != [] && ch[0] in s.chains && s.chains[ch[0]] == ch && !IsChain(s'.fat, ch)
            && forall t {:trigger s.chains[t]} :: t in s.chains && t != ch[0] ==> IsChain(s'.fat, s.chains[t])
  {
    hide BufferOf, Rec, ClustersFor, LongChainSet, InTable, Readable;
    var ch, needed := OwnChain(s, d, name), ClustersFor(bytes, s.size);
    assert ch != [];
    var first := OwnChainThere(s, d, name);
    TreeSound(s);
    hide Tree, OwnChain, GivesUp;
    ChainInData(s, first);
    PartFreed(s.fat, s'.fat, ch, needed);
    forall t {:trigger s.chains[t]} | t in s.chains && t != ch[0] ensures IsChain(s'.fat, s.chains[t]) {
      ChainInData(s, t);
      OtherChainStays(s.fat, s'.fat, s.chains, first, t);
    }
  }

  lemma {:induction false} OwnChainThere(s: Snapshot, d: int, name: seq<int>) returns (first: int)
    requires Tree(s) && d in s.dirs && OwnChain(s, d, name) != []
    ensures first in s.chains && s.chains[first] == OwnChain(s, d, name)
  {
    var k: nat :| Named(s, d, false, name, k);
    OwnClustersIs(s, d, name, k);
    first := FirstCluster(Rec(BufferOf(s, d), k));
  }

  /** A chain that is too long, but can be cut, is cut; or it stays as it is. */
  lemma {:induction false} LongResized(fat: seq<int>, fat': seq<int>, ch: seq<int>, needed: nat, r: Option<nat>)
    returns (ch': seq<int>)
    requires IsChain(fat, ch) && |ch| > MaxChain() && !GivesUp(|ch|, needed) && LongChainSet(fat, fat', ch, needed, r)
    ensures Resized(fat, fat', ch, ch') && ch' == if needed > MaxChain() then ch else ch[..needed]
    ensures r == if needed > MaxChain() + 1 then None else Some(ch[0])
    ensures ch' != [] && ch'[0] == ch[0]
  {
    ResizedSelf(fat, ch);
    ch' := if needed > MaxChain() then ch else ch[..needed];
  }

  lemma {:induction false} GivenUp(fat: seq<int>, fat': seq<int>, ch: seq<int>, needed: nat, r: Option<nat>)
    requires GivesUp(|ch|, needed) && InTable(fat, ch) && LongChainSet(fat, fat', ch, needed, r)
    ensures r.None?
  {
  }

  lemma {:induction false} ChainInTable(fat: seq<int>, ch: seq<int>)
    requires ch == [] || IsChain(fat, ch)
    ensures InTable(fat, ch)
  {
  }

  lemma {:induction false} PartFreed(fat: seq<int>, fat': seq<int>, ch: seq<int>, needed: nat)
    requires IsChain(fat, ch) && GivesUp(|ch|, needed) && LongChainSet(fat, fat', ch, needed, None)
    ensures |fat'| == |fat| && !IsChain(fat', ch) && forall x :: 0 <= x < |fat| && x !in ch ==> fat'[x] == fat[x]
  {
    var part := ch[needed..needed + MaxChain()];
    assert part[0] == ch[needed] && ch[needed] in part;
    assert needed == 0 ==> part == ch[..MaxChain()];
    assert fat'[ch[needed]] == 0;
    assert !Links(0);
  }

  lemma {:induction false} OtherChainStays(fat: seq<int>, fat': seq<int>, chains: Chains, first: int, t: int)
    requires FatChains.Sound(fat, chains) && first in chains && t in chains && t != first && |fat'| == |fat|
    requires forall x :: 0 <= x < |fat| && x !in chains[first] ==> fat'[x] == fat[x]
    ensures IsChain(fat', chains[t])
  {
  }

  /** What the file then reads as: as many of the bytes as it had. */
  ghost function Spoilt(s: Snapshot, d: int, name: seq<int>, bytes: seq<byte>): seq<byte>
    requires Tree(s) && d in s.dirs
  {
    match Read(s, d, name)
    case None => bytes
    case Some(was) => if |was| < |bytes| then bytes[..|was|] else bytes
  }

  lemma {:induction false} SpoiltIs(s: Snapshot, d: int, name: seq<int>, k: nat, bytes: seq<byte>)
    requires Tree(s) && d in s.dirs && Readable(s, d) && Named(s, d, false, name, k) && |bytes| <= 536870912
    ensures InBuffer(BufferOf(s, d), k)
    ensures var n := Size(Rec(BufferOf(s, d), k)); n <= |bytes| ==> Spoilt(s, d, name, bytes) == bytes[..n]
  {
    ReadIs(s, d, name, k);
    var rec := Rec(BufferOf(s, d), k);
    if Size(rec) <= |bytes| {
      EntryLength(s, rec);
    }
  }

  lemma {:induction false} EntryLength(s: Snapshot, rec: seq<byte>)
    requires SoundVolume(s) && |rec| == 32 && !IsDir(rec) && GoodEntry(s, rec)
    ensures |EntryBytes(s, rec)| == Size(rec)
  {
    hide IsDir, FirstCluster, Size, Times, Contents;
    if FirstCluster(rec) >= 2 {
      ChainInData(s, FirstCluster(rec));
      ContentsLength(s.data, s.chains[FirstCluster(rec)], s.size);
    }
  }

  /** The new file takes its directory past what the driver reads. */
  ghost predicate Outgrows(s: Snapshot, d: int, name: seq<int>)
    requires SoundVolume(s) && d in s.dirs
  {
    NeedsGrowth(s, d, name) && Times(|s.chains[d]| + 1, s.size) > 2097152
  }

  lemma {:induction false} OwnClustersIs(s: Snapshot, d: int, name: seq<int>, k: nat)
    requires Tree(s) && d in s.dirs && Named(s, d, false, name, k)
    ensures Live(BufferOf(s, d), k) && GoodEntry(s, Rec(BufferOf(s, d), k)) && !IsDir(Rec(BufferOf(s, d), k))
    ensures OwnChain(s, d, name) == ChainOf(s, Rec(BufferOf(s, d), k)) && !NeedsGrowth(s, d, name)
  {
    OneName(s, d, false, name);
    EntryIsGood(s, d, k);
  }

  /** What writing `bytes` as `name` in `d` comes to: it succeeds exactly when there is room, and then the
      file has the bytes; refused, it has changed nothing, unless it spoils the file that was there. */
  ghost predicate Outcome(s: Snapshot, s': Snapshot, d: int, name: seq<int>, bytes: seq<byte>, ok: bool)
    requires Tree(s) && d in s.dirs && s.size > 0
  {
    && (ok <==> RoomFor(s, d, name, |bytes|))
    && d in s.chains && d in s'.chains
    && |s'.chains[d]| == |s.chains[d]| + (if ok && NeedsGrowth(s, d, name) then 1 else 0) && s'.size == s.size
    && (if ok then Written(s, s', d, name, bytes)
        else if Spoils(s, d, name, |bytes|) then Written(s, s', d, name, Spoilt(s, d, name, bytes))
        else Alike(s, s'))
  }

  /** The directory can be read afterwards unless the file made it outgrow the limit. */
  lemma {:induction false} OutcomeReadable(s: Snapshot, s': Snapshot, d: int, name: seq<int>, bytes: seq<byte>,
                                           ok: bool)
    requires Tree(s) && d in s.dirs && s.size > 0 && Outcome(s, s', d, name, bytes, ok)
    ensures Tree(s') && s'.dirs == s.dirs
    ensures ok ==> (Readable(s', d) <==> !Outgrows(s, d, name))
    ensures !ok ==> (Readable(s', d) <==> Readable(s, d))
  {
    hide Times, Tree, NeedsGrowth, OwnClusters, ClustersFor, ReadsAlike, LeadsAlike, Spoilt, Read;
  }

  lemma {:induction false} OutcomeWritten(s: Snapshot, s': Snapshot, d: int, name: seq<int>, bytes: seq<byte>)
    requires Tree(s) && d in s.dirs && s.size > 0 && Outcome(s, s', d, name, bytes, true)
    ensures Written(s, s', d, name, bytes)
  {
  }

  /** The record is as it was: nothing has changed but what the file's own chain holds, if that. */
  lemma {:induction false} NotOverwritten(s: Snapshot, s1: Snapshot, d: int, k: nat, name: seq<int>, ch: seq<int>,
                                          ch': seq<int>, bytes: seq<byte>)
    requires Tree(s) && d in s.dirs && s.size > 0 && Readable(s, d) && |bytes| <= 536870912
    requires Named(s, d, false, name, k)
    requires var rec := Rec(BufferOf(s, d), k);
               if FirstCluster(rec) < 2 then ch == [] else ch != [] && ch[0] == FirstCluster(rec)
    requires OwnClusters(s, d, name) == |ch| && (ch == [] || ch[0] !in s.dirs) && ChainStep(s, s1, ch, ch') && ch <= ch'
    requires var n := ClustersFor(|bytes|, s.size);
      (n > |ch| + |FreeSet(s.fat)| || n > MaxChain())
      && if Begun(|ch|, |FreeSet(s.fat)|, n) then HoldsStart(s1.data, s1.size, ch', bytes) else s1.data == s.data
    ensures Tree(s1) && Outcome(s, s1, d, name, bytes, false)
  {
    TreeSound(s);
    hide Tree, Alike, Written, ClustersFor, Times, FileTurn, HoldsStart, BufferOf, Rec, OwnClusters, Match,
         FirstCluster, Size, ChainStep, NeedsGrowth, Readable, Spoilt;
    DirAfterStep(s, s1, ch, ch', d);
    OwnClustersIs(s, d, name, k);
    SameSize(s, s1, ch, ch');
    assert d in s.chains;
    if ch != [] && Begun(|ch|, |FreeSet(s.fat)|, ClustersFor(|bytes|, s.size)) {
      SpoiltTurn(s, s1, d, k, name, ch, ch', bytes);
      var n := Size(Rec(BufferOf(s, d), k));
      SpoiltIs(s, d, name, k, bytes);
      TurnWritten(s, s1, d, k, name, ch, ch', bytes[..n]);
      WrittenTrees(s, s1, d, name, bytes[..n]);
    } else {
      GaveUp(s, s1, ch, ch');
    }
  }

  /** Record and chain are set. */
  lemma {:induction false} Overwritten(s: Snapshot, s1: Snapshot, s2: Snapshot, d: int, k: nat, name: seq<int>,
                                       ch: seq<int>, ch': seq<int>, bytes: seq<byte>)
    requires Tree(s) && d in s.dirs && s.size > 0 && Readable(s, d) && Named(s, d, false, name, k)
    requires var rec := Rec(BufferOf(s, d), k);
               if FirstCluster(rec) < 2 then ch == [] else ch != [] && ch[0] == FirstCluster(rec)
    requires ChainStep(s, s1, ch, ch') && ChainStep(s1, s2, s.chains[d], s.chains[d])
    requires HoldsBytes(s1.data, s1.size, ch', bytes)
    requires |s.fat| <= 268435447 && |bytes| <= 536870912 && |bytes| <= Times(MaxChain(), s.size)
    requires InData(s2.data, s.chains[d])
    requires Contents(s2.data, s.chains[d])
               == WithRec(BufferOf(s, d), k, WithFields(Rec(BufferOf(s, d), k), StartOf(ch'), |bytes|))
    requires d in s2.chains && s2.chains[d] == s.chains[d]
    requires OwnClusters(s, d, name) == |ch| && ClustersFor(|bytes|, s.size) <= |ch| + |FreeSet(s.fat)|
    requires ClustersFor(|bytes|, s.size) <= MaxChain() && !GivesUp(|ch|, ClustersFor(|bytes|, s.size))
    ensures Tree(s2) && Outcome(s, s2, d, name, bytes, true)
  {
    TreeSound(s);
    hide Tree, Written, ClustersFor, Times, FileTurn, HoldsBytes, BufferOf, Rec, OwnClusters, FirstCluster, ChainStep,
         NeedsGrowth, Readable, Contents, WithRec, WithFields, Live, Match;
    OwnClustersIs(s, d, name, k);
    OverwriteTurn(s, s1, s2, d, k, name, ch, ch', bytes);
    TurnWritten(s, s2, d, k, name, ch, ch', bytes);
    WrittenTrees(s, s2, d, name, bytes);
    TurnSize(s, s2, d, k, name, ch, ch', bytes);
  }

  lemma {:induction false} TurnSize(s: Snapshot, s': Snapshot, d: int, k: nat, name: seq<int>, ch: seq<int>,
                                    ch': seq<int>, bytes: seq<byte>)
    requires FileTurn(s, s', d, k, name, ch, ch', bytes)
    ensures s'.size == s.size
  {
  }

  /** No record was made. */
  lemma {:induction false} NotCreated(s: Snapshot, s1: Snapshot, d: int, name: seq<int>, ch': seq<int>,
                                      bytes: seq<byte>)
    requires Tree(s) && d in s.dirs && s.size > 0 && ChainStep(s, s1, [], ch') && forall k: nat ::
               !Match(BufferOf(s, d), false, name, k)
    requires ClustersFor(|bytes|, s.size) > MaxChain()
      || ClustersFor(|bytes|, s.size) + (if HasSlot(BufferOf(s, d)) then 0 else 1) > |FreeSet(s.fat)|
    ensures Tree(s1) && Outcome(s, s1, d, name, bytes, false)
  {
    TreeSound(s);
    hide Tree, Alike, ClustersFor, BufferOf, OwnClusters, ChainStep, NeedsGrowth, Readable, HasSlot, Match;
    NoOwnClusters(s, d, name);
    DirAfterStep(s, s1, [], ch', d);
    SameSize(s, s1, [], ch');
    GaveUp(s, s1, [], ch');
    assert d in s.chains;
  }

  lemma {:induction false} Created(s: Snapshot, s1: Snapshot, s2: Snapshot, d: int, k: nat, name: seq<int>,
                                   ch': seq<int>, dch': seq<int>, bytes: seq<byte>, buf1: seq<byte>, rec: seq<byte>)
    requires Tree(s) && d in s.dirs && s.size > 0 && Readable(s, d) && forall j: nat ::
               !Match(BufferOf(s, d), false, name, j)
    requires ChainStep(s, s1, [], ch') && ChainStep(s1, s2, s.chains[d], dch') && s.chains[d] <= dch'
    requires HoldsBytes(s1.data, s1.size, ch', bytes)
    requires |s.fat| <= 268435447 && |bytes| <= Times(MaxChain(), s.size) && |bytes| <= 536870912
    requires InData(s2.data, dch')
    requires SameEntries(BufferOf(s, d), buf1) && FreeSlot(buf1, k)
    requires |rec| == 32 && rec[0] != 0 && !Skipped(rec) && !IsDir(rec) && SameName(Text(rec), name)
    requires FirstCluster(rec) == StartOf(ch') && Size(rec) == |bytes|
    requires Contents(s2.data, dch') == WithRec(buf1, k, rec) && d in s2.chains && s2.chains[d] == dch'
    requires |dch'| == |s.chains[d]| + (if HasSlot(BufferOf(s, d)) then 0 else 1)
    requires ClustersFor(|bytes|, s.size) <= MaxChain()
    requires ClustersFor(|bytes|, s.size) + (if HasSlot(BufferOf(s, d)) then 0 else 1) <= |FreeSet(s.fat)|
    ensures Tree(s2) && Outcome(s, s2, d, name, bytes, true)
  {
    TreeSound(s);
    hide Tree, Written, ClustersFor, Times, FileTurn, HoldsBytes, BufferOf, OwnClusters, ChainStep, NeedsGrowth,
         Readable, Contents, WithRec, HasSlot, SameEntries, FreeSlot, Skipped, IsDir, Text, Lowered, FirstCluster, Size,
         Match;
    NoOwnClusters(s, d, name);
    CreateTurn(s, s1, s2, d, k, name, ch', dch', bytes, buf1, rec);
    TurnWritten(s, s2, d, k, name, [], ch', bytes);
    WrittenTrees(s, s2, d, name, bytes);
    TurnSize(s, s2, d, k, name, [], ch', bytes);
    assert d in s.chains;
  }

  lemma {:induction false} SameSize(s: Snapshot, s1: Snapshot, ch: seq<int>, ch': seq<int>)
    requires ChainStep(s, s1, ch, ch')
    ensures s1.size == s.size
  {
  }

  lemma {:induction false} NoOwnClusters(s: Snapshot, d: int, name: seq<int>)
    requires Tree(s) && d in s.dirs && forall k: nat :: !Match(BufferOf(s, d), false, name, k)
    ensures OwnClusters(s, d, name) == 0 && (NeedsGrowth(s, d, name) <==> !HasSlot(BufferOf(s, d)))
  {
    NoneNamed(s, d, false, name);
    hide Match, BufferOf, Named, HasSlot;
  }

  /** After that nothing in the directory can be read, nor can a path lead through it. */
  lemma {:induction false} OutgrownUnread(s: Snapshot, d: int)
    requires Tree(s) && d in s.dirs && !Readable(s, d)
    ensures forall name {:trigger Read(s, d, name)} :: Read(s, d, name) == None
    ensures forall name {:trigger SubDir(s, d, name)} :: SubDir(s, d, name) == None
  {
  }

  class Fat32Fs {
    const vol: FatVolume
    const root: nat
    ghost var chains: Chains
    ghost var dirs: set<int>

    ghost function Now(): Snapshot
      requires vol.Valid()
      reads this, vol
    {
      Snapshot(vol.Fat(), vol.data, chains, dirs, vol.size)
    }

    /** Chains whole and disjoint, every entry good: what a driver may expect of a volume that is not corrupt. */
    ghost predicate Valid()
      reads this, vol
    {
      vol.Valid() && root in dirs && Tree(Now())
    }

    /** A volume that has just been mounted, with the chains it holds. */
    constructor (volume: FatVolume, rootCluster: nat, ghost chains0: Chains, ghost dirs0: set<int>)
      requires volume.Valid() && rootCluster in dirs0
      requires Tree(Snapshot(volume.Fat(), volume.data, chains0, dirs0, volume.size))
      ensures Valid() && vol == volume && root == rootCluster && chains == chains0 && dirs == dirs0
    {
      vol, root, chains, dirs := volume, rootCluster, chains0, dirs0;
    }

    // ---- directory clusters ----

    /** All of a directory, unless it is larger than the driver takes. */
    method ReadDirClusters(first: nat, ghost ch: seq<int>) returns (r: Option<seq<byte>>, clusters: seq<int>)
      requires vol.Valid() && IsChain(vol.Fat(), ch) && ch[0] == first
      ensures InData(vol.data, ch)
      ensures r.Some? <==> Times(|ch|, vol.size) <= 2097152
      ensures r.Some? ==> r.value == Contents(vol.data, ch) && clusters == ch
    {
      hide Agree, Sized, Times;
      var cluster, steps, buf := first, 0, [];
      clusters := [];
      NothingYet(vol.data, ch, [], vol.size);
      hide Contents;
      assert InTable(vol.Fat(), ch);
      while true
        invariant steps < |ch| && cluster == ch[steps] && clusters == ch[..steps]
        invariant buf == Contents(vol.data, ch[..steps]) && |buf| == Times(steps, vol.size)
        decreases |ch| - steps
      {
        if steps >= 262144 || |buf| + vol.size > 2097152 {
          TooLarge(steps, |ch|, vol.size);
          return None, [];
        }
        ContentsStep(vol.data, ch, steps);
        ClusterSized(vol.data, vol.size, cluster);
        OneMore(steps, vol.size);
        buf := buf + vol.data[cluster];
        clusters := clusters + [cluster];
        steps := steps + 1;
        var next := vol.NextCluster(cluster);
        if next.None? {
          assert ch[..steps] == ch;
          return Some(buf), clusters;
        }
        cluster := next.value;
      }
    }

    /** Write back the cluster that holds record `k`. */
    method FlushDirRange(clusters: seq<int>, buf: seq<byte>, k: nat, ghost before: seq<byte>, ghost rec: seq<byte>)
      requires vol.Valid() && IsChain(vol.Fat(), clusters) && |rec| == 32
      requires (forall i :: 0 <= i < |clusters| ==> 0 <= clusters[i] < |vol.data|)
      requires before == Contents(vol.data, clusters)
      requires InBuffer(before, k) && buf == WithRec(before, k, rec)
      modifies vol`data
      ensures vol.Valid() && OnlyIn(old(vol.data), vol.data, clusters) && Contents(vol.data, clusters) == buf
    {
      hide Agree, Sized, Times, Contents, WithRec, OnlyIn;
      NoRepeats(vol.Fat(), clusters);
      assert Distinct(clusters);
      RecordFlushed(vol.data, clusters, vol.size, k, rec);
      var i := 32 * k / vol.size;
      var at := Times(i, vol.size);
      vol.data := vol.data[clusters[i] := buf[at..at + vol.size]];
    }

    /** Link one more cluster, all zeros, to a directory. */
    method AppendDirCluster(clusters: seq<int>, buf: seq<byte>) returns (ok: bool, clusters': seq<int>, buf': seq<byte>)
      requires vol.Valid() && IsChain(vol.Fat(), clusters)
      requires (forall i :: 0 <= i < |clusters| ==> 0 <= clusters[i] < |vol.data|)
      requires buf == Contents(vol.data, clusters)
      modifies vol`data, vol`fats, vol`cursor
      ensures vol.Valid() && Tops(vol.fats) == old(Tops(vol.fats))
      ensures Resized(old(vol.Fat()), vol.Fat(), clusters, clusters')
      ensures OnlyIn(old(vol.data), vol.data, clusters') && InData(vol.data, clusters')
      ensures Contents(vol.data, clusters') == buf'
      ensures ok <==> FreeSet(old(vol.Fat())) != {}
      ensures ok ==> |clusters'| == |clusters| + 1 && clusters <= clusters' && buf' == buf + Zeros(vol.size)
      ensures !ok ==> clusters' == clusters && buf' == buf && vol.data == old(vol.data) && vol.Fat() == old(vol.Fat())
    {
      hide Agree, Sized, Contents, Resized;
      ghost var fat0, data0 := vol.Fat(), vol.data;
      ResizedSelf(fat0, clusters);
      OnlyInSelf(data0, clusters);
      var c := vol.AllocCluster();
      if c.None? {
        return false, clusters, buf;
      }
      assert c.value in FreeSet(fat0);
      AppendedIsChain(fat0, clusters, c.value);
      vol.Link(|clusters|, clusters[|clusters| - 1], c.value, clusters, fat0, clusters);
      ZeroAppended(data0, clusters, c.value, vol.size);
      vol.data := vol.data[c.value := Zeros(vol.size)];
      return true, clusters + [c.value], buf + Zeros(vol.size);
    }

    /** Find a record for a new entry; make room when there is none. */
    method FindOrMakeFreeSlot(clusters: seq<int>, buf: seq<byte>)
      returns (slot: Option<nat>, clusters': seq<int>, buf': seq<byte>)
      requires vol.Valid() && IsChain(vol.Fat(), clusters)
      requires (forall i :: 0 <= i < |clusters| ==> 0 <= clusters[i] < |vol.data|)
      requires buf == Contents(vol.data, clusters)
      modifies vol`data, vol`fats, vol`cursor
      ensures vol.Valid() && Tops(vol.fats) == old(Tops(vol.fats))
      ensures Resized(old(vol.Fat()), vol.Fat(), clusters, clusters')
      ensures OnlyIn(old(vol.data), vol.data, clusters') && InData(vol.data, clusters')
      ensures Contents(vol.data, clusters') == buf'
      ensures slot.Some? ==>
                SameEntries(buf, buf') && FreeSlot(buf', slot.value) && clusters <= clusters'
                && IsChain(vol.Fat(), clusters')
      ensures slot.Some? ==> |clusters'| == if HasSlot(buf) then |clusters| else |clusters| + 1
      ensures slot.Some? <==> HasSlot(buf) || FreeSet(old(vol.Fat())) != {}
      ensures slot.None? ==> clusters' == clusters && vol.data == old(vol.data) && vol.Fat() == old(vol.Fat())
    {
      hide Agree, Sized, Contents, Resized, SameEntries, FreeSlot, Rec, OnlyIn;
      ResizedSelf(vol.Fat(), clusters);
      OnlyInSelf(vol.data, clusters);
      ghost var fat0 := vol.Fat();
      var k := ScanSlots(buf);
      if SlotAt(buf, k) {
        buf' := buf;
        clusters' := clusters;
        slot := Some(k);
        if Rec(buf, k)[0] == 229 {
          DeletedIsFree(buf, k);
        } else if InBuffer(buf, k + 1) {
          EndCleared(buf, k);
          buf' := WithRec(buf, k + 1, Zeros(32));
          FlushDirRange(clusters, buf', k + 1, buf, Zeros(32));
        } else {
          EndIsFree(buf, k);
        }
        return;
      }
      ContentsLength(vol.data, clusters, vol.size);
      WholeRecords(|clusters|, vol.size);
      ZerosAdded(buf, k, vol.size);
      var ok;
      ok, clusters', buf' := AppendDirCluster(clusters, buf);
      slot := if ok then Some(k) else None;
      StartOfResized(fat0, vol.Fat(), clusters, clusters');
    }

    // ---- files ----

    /** Fit a chain to the bytes and put them into it. Nothing is written when there is no room; of bytes
        for more than 262144 clusters those that go into so many are, if it is begun. */
    method PutData(first: nat, bytes: seq<byte>, ghost ch: seq<int>) returns (r: Option<nat>, ghost ch': seq<int>)
      requires vol.Valid() && (if first < 2 then ch == [] else IsChain(vol.Fat(), ch) && ch[0] == first)
      modifies vol`data, vol`fats, vol`cursor
      ensures vol.Valid() && Tops(vol.fats) == old(Tops(vol.fats)) && InTable(old(vol.Fat()), ch)
      ensures GivesUp(|ch|, ClustersFor(|bytes|, vol.size)) ==>
                && r.None? && vol.data == old(vol.data)
                && LongChainSet(old(vol.Fat()), vol.Fat(), ch, ClustersFor(|bytes|, vol.size), None)
      ensures !GivesUp(|ch|, ClustersFor(|bytes|, vol.size)) ==>
                var n, free := ClustersFor(|bytes|, vol.size), |FreeSet(old(vol.Fat()))|;
                && Resized(old(vol.Fat()), vol.Fat(), ch, ch') && (r.Some? <==> n <= |ch| + free && n <= MaxChain())
                && |FreeSet(vol.Fat())| + |ch'| == free + |ch| && OnlyIn(old(vol.data), vol.data, ch')
                && (r.Some? ==>
                     |ch'| == n && r.value == (if ch' == [] then 0 else ch'[0])
                     && HoldsBytes(vol.data, vol.size, ch', bytes)
                                && |bytes| <= Times(MaxChain(), vol.size))
                && (r.None? ==> ch <= ch')
                && (r.None? ==>
                     if Begun(|ch|, free, n) then HoldsStart(vol.data, vol.size, ch', bytes)
                     else vol.data == old(vol.data))
    {
      hide Agree, Sized, ClustersFor, Times, Resized, OnlyIn, FileData, LongChainSet, IsChain, InTable;
      ChainInTable(vol.Fat(), ch);
      var start;
      start, ch' := vol.SetChainLength(first, |bytes|, ch);
      ghost var n := ClustersFor(|bytes|, vol.size);
      if GivesUp(|ch|, n) {
        GivenUp(old(vol.Fat()), vol.Fat(), ch, n, start);
      }
      r := None;
      if !GivesUp(|ch|, n) {
        if |ch| > MaxChain() {
          ch' := LongResized(old(vol.Fat()), vol.Fat(), ch, n, start);
        }
        ResizedFree(old(vol.Fat()), vol.Fat(), ch, ch');
        OnlyInSelf(vol.data, ch');
      }
      if start.None? {
        return;
      }
      ClustersHold(|bytes|, vol.size);
      StartOfResized(old(vol.Fat()), vol.Fat(), ch, ch');
      var ok := vol.WriteFileChain(start.value, bytes, ch');
      if !ok {
        LongerThan(old(vol.Fat()), vol.Fat(), ch, ch');
        return;
      }
      TimesGrow(|ch'|, MaxChain(), vol.size);
      r := start;
    }

    /** What reading the file gives, for every name. */
    method ReadFile(d: nat, name: seq<int>) returns (r: Option<seq<byte>>)
      requires Valid() && d in dirs
      ensures r == Read(Now(), d, name)
    {
      hide Tree, Read, Entries, FirstMatch, Match, EntryOf, FileData, Times, BufferOf, GoodEntry;
      OpenDir(d);
      var buf, clusters := ReadDirClusters(d, chains[d]);
      if buf.None? {
        OutgrownUnread(Now(), d);
        return None;
      }
      var es := ParseDirEntries(buf.value);
      var e := FindEntry(es, false, name, buf.value);
      if e.None? {
        NoneNamed(Now(), d, false, name);
        ReadNone(Now(), d, name);
        return None;
      }
      r := ReadEntry(d, name, e.value);
    }

    method ReadEntry(d: nat, name: seq<int>, e: DirEntry) returns (r: Option<seq<byte>>)
      requires Valid() && d in dirs && Readable(Now(), d) && FirstMatch(BufferOf(Now(), d), false, name, e.slot)
      requires InBuffer(BufferOf(Now(), d), e.slot) && e == EntryOf(Rec(BufferOf(Now(), d), e.slot), e.slot)
      ensures r == Read(Now(), d, name)
    {
      hide Tree, Read, FirstMatch, FileData, Times, BufferOf, Rec, FirstCluster, Size, Text;
      ReadIs(Now(), d, name, e.slot);
      if e.size > 536870912 {
        return None;
      }
      ghost var ch := if e.first < 2 then [] else chains[e.first];
      if e.first >= 2 {
        FileChain(Now(), e.first);
      }
      r := vol.ReadFileChain(e.first, e.size, ch);
      NoBytes(vol.data, ch);
    }

    /** The directory that a path of names leads to, from the root. */
    method DirClusterFor(parts: seq<seq<int>>) returns (r: Option<nat>)
      requires Valid()
      ensures r.Some? <==> Resolve(Now(), root, parts).Some?
      ensures r.Some? ==> r.value in dirs && Resolve(Now(), root, parts) == Some(r.value)
    {
      hide Tree, SubDir, Entries, FirstMatch, Match, EntryOf, Times, BufferOf, GoodEntry;
      var d, i := root, 0;
      while i < |parts|
        invariant i <= |parts| && d in dirs && Resolve(Now(), root, parts) == Resolve(Now(), d, parts[i..])
      {
        var e := FindSubDir(d, parts[i]);
        assert parts[i..][0] == parts[i] && parts[i..][1..] == parts[i + 1..];
        SubDirIsDir(Now(), d, parts[i]);
        if e.None? {
          return None;
        }
        d, i := e.value, i + 1;
      }
      return Some(d);
    }

    method FindSubDir(d: nat, name: seq<int>) returns (r: Option<nat>)
      requires Valid() && d in dirs
      ensures r.Some? <==> SubDir(Now(), d, name).Some?
      ensures r.Some? ==> SubDir(Now(), d, name) == Some(r.value)
    {
      hide Tree, SubDir, Entries, FirstMatch, Match, EntryOf, Times, BufferOf, GoodEntry;
      OpenDir(d);
      var buf, clusters := ReadDirClusters(d, chains[d]);
      if buf.None? {
        OutgrownUnread(Now(), d);
        return None;
      }
      var es := ParseDirEntries(buf.value);
      var e := FindEntry(es, true, name, buf.value);
      if e.None? {
        NoneNamed(Now(), d, true, name);
        SubDirNone(Now(), d, name);
        return None;
      }
      SubDirIs(Now(), d, name, e.value.slot);
      FirstOf(Rec(buf.value, e.value.slot), e.value.slot);
      return Some(e.value.first);
    }

    /** Read a file by its path. */
    method ReadPath(parts: seq<seq<int>>, name: seq<int>) returns (r: Option<seq<byte>>)
      requires Valid()
      ensures r == ReadAt(Now(), root, parts, name)
    {
      hide Tree, Read, Resolve;
      var d := DirClusterFor(parts);
      if d.None? {
        return None;
      }
      r := ReadFile(d.value, name);
    }

    /** Write a file by its path: afterwards that path reads as the bytes and every other as before. */
    method WritePath(parts: seq<seq<int>>, name: seq<int>, bytes: seq<byte>) returns (ok: bool, ghost at: Option<int>)
      requires Valid() && Plain(name) && !TakenByDirectory(Now(), root, parts, name)
      modifies this`chains, vol
      ensures vol.Valid() && dirs == old(dirs) && Tops(vol.fats) == old(Tops(vol.fats))
      ensures at == old(Resolve(Now(), root, parts)) && (at.Some? ==> at.value in dirs)
      ensures at.None? ==> Valid() && !ok && Alike(old(Now()), Now())
      ensures at.Some? && old(Abandons(Now(), at.value, name, |bytes|)) ==>
                !ok && Abandoned(old(Now()), Now(), at.value, name, |bytes|)
      ensures at.Some? && !old(Abandons(Now(), at.value, name, |bytes|)) ==>
                Valid() && Outcome(old(Now()), Now(), at.value, name, bytes, ok)
      ensures ok && !old(Outgrows(Now(), at.value, name)) ==>
                Readable(Now(), at.value) && ReadAt(Now(), root, parts, name) == Some(bytes)
    {
      hide Tree, Alike, Written, Match, BufferOf, ClustersFor, Times, Plain, HasSlot, Agree, Sized, Resolve, Readable,
           Outcome, OwnClusters, Outgrows;
      ghost var s := Now();
      at := Resolve(s, root, parts);
      var d := DirClusterFor(parts);
      if d.None? {
        SelfAlike(s);
        return false, at;
      }
      TreeSound(s);
      assert forall k: nat :: !Match(BufferOf(s, d.value), true, name, k);
      ok := WriteFile(d.value, name, bytes);
      ghost var s' := Now();
      if !Abandons(s, d.value, name, |bytes|) {
        OutcomeReadable(s, s', d.value, name, bytes, ok);
      }
      if ok {
        OutcomeWritten(s, s', d.value, name, bytes);
        PathWritten(s, s', root, parts, d.value, name, bytes);
      }
    }

    /** Write a file in a directory: over the one that has the name, or as a new one. */
    method WriteFile(d: nat, name: seq<int>, bytes: seq<byte>) returns (ok: bool)
      requires Valid() && d in dirs && Plain(name)
      requires forall k: nat :: !Match(BufferOf(Now(), d), true, name, k)
      modifies this`chains, vol
      ensures vol.Valid() && dirs == old(dirs) && Tops(vol.fats) == old(Tops(vol.fats))
      ensures old(Abandons(Now(), d, name, |bytes|)) ==> !ok && Abandoned(old(Now()), Now(), d, name, |bytes|)
      ensures !old(Abandons(Now(), d, name, |bytes|)) ==> Valid() && Outcome(old(Now()), Now(), d, name, bytes, ok)
      ensures ok <==> old(RoomFor(Now(), d, name, |bytes|))
      ensures ok ==> (Readable(Now(), d) <==> !old(Outgrows(Now(), d, name)))
    {
      hide Tree, Alike, Written, Match, FirstMatch, BufferOf, ClustersFor, Times, Plain, HasSlot, EntryOf, Agree, Sized,
           OwnClusters, Rec, Outgrows, NeedsGrowth;
      ghost var s := Now();
      OpenDir(d);
      SelfAlike(s);
      if |bytes| > 536870912 {
        return false;
      }
      var buf, clusters := ReadDirClusters(d, chains[d]);
      if buf.None? {
        return false;
      }
      var es := ParseDirEntries(buf.value);
      var existing := FindEntry(es, false, name, buf.value);
      if existing.Some? {
        OwnClustersIs(s, d, name, existing.value.slot);
        ok := Overwrite(d, name, bytes, buf.value, clusters, existing.value);
      } else {
        NoOwnClusters(s, d, name);
        ok := Create(d, name, bytes, buf.value, clusters, es);
      }
      if !Abandons(s, d, name, |bytes|) {
        OutcomeReadable(s, Now(), d, name, bytes, ok);
      }
    }

    method Overwrite(d: nat, name: seq<int>, bytes: seq<byte>, buf: seq<byte>, clusters: seq<int>, e: DirEntry)
      returns (ok: bool)
      requires Valid() && d in dirs && clusters == chains[d] && Readable(Now(), d) && buf == BufferOf(Now(), d)
      requires |bytes| <= 536870912
      requires FirstMatch(buf, false, name, e.slot) && Live(buf, e.slot) && e == EntryOf(Rec(buf, e.slot), e.slot)
      modifies this`chains, vol
      ensures vol.Valid() && dirs == old(dirs) && Tops(vol.fats) == old(Tops(vol.fats))
      ensures old(Abandons(Now(), d, name, |bytes|)) ==> !ok && Abandoned(old(Now()), Now(), d, name, |bytes|)
      ensures !old(Abandons(Now(), d, name, |bytes|)) ==> Valid() && Outcome(old(Now()), Now(), d, name, bytes, ok)
    {
      hide Tree, Alike, Written, ClustersFor, Times, Agree, Sized, Resized, OnlyIn, FileTurn, Unnoticed, HoldsBytes,
           HoldsStart, BufferOf, WithRec, WithFields, Rec, OwnClusters, Outcome, Readable;
      ghost var s := Now();
      var k := e.slot;
      ghost var ch := ExistingChain(d, name, e);
      var first, ch' := PutData(e.first, bytes, ch);
      ghost var s1 := Snapshot(vol.Fat(), vol.data, Replaced(chains, ch, ch'), dirs, vol.size);
      assert !GivesUp(|ch|, ClustersFor(|bytes|, vol.size)) ==> ChainStep(s, s1, ch, ch');
      if first.None? {
        if !GivesUp(|ch|, ClustersFor(|bytes|, vol.size)) {
          NotOverwritten(s, s1, d, k, name, ch, ch', bytes);
          chains := s1.chains;
        }
        return false;
      }
      var rec := WithFields(Rec(buf, k), first.value, |bytes|);
      DirAfterStep(s, s1, ch, ch', d);
      SameDirStep(s1, d);
      Commit(d, clusters, buf, k, rec, s1);
      Overwritten(s, s1, Now(), d, k, name, ch, ch', bytes);
      return true;
    }

    method Create(d: nat, name: seq<int>, bytes: seq<byte>, buf: seq<byte>, clusters: seq<int>, es: seq<DirEntry>)
      returns (ok: bool)
      requires Valid() && d in dirs && clusters == chains[d] && Readable(Now(), d) && buf == BufferOf(Now(), d)
      requires Plain(name)
      requires |bytes| <= 536870912
      requires Entries(buf, es) && forall k: nat, dir: bool :: !Match(buf, dir, name, k)
      modifies this`chains, vol
      ensures Valid() && dirs == old(dirs) && Tops(vol.fats) == old(Tops(vol.fats))
      ensures Outcome(old(Now()), Now(), d, name, bytes, ok)
    {
      hide Tree, Alike, Written, ClustersFor, Times, Agree, Sized, Resized, OnlyIn, FileTurn, Unnoticed, HoldsBytes,
           HoldsStart, BufferOf, WithRec, NewFile;
      hide Rec, HasSlot, Entries, Match, Plain, SameEntries, FreeSlot, Contents, OwnClusters, Outcome, Readable;
      ghost var s := Now();
      OpenDir(d);
      var first, ch' := PutData(0, bytes, []);
      ghost var s1 := Snapshot(vol.Fat(), vol.data, Replaced(chains, [], ch'), dirs, vol.size);
      assert ChainStep(s, s1, [], ch');
      if first.None? {
        NotCreated(s, s1, d, name, ch', bytes);
        chains := s1.chains;
        return false;
      }
      DirAfterStep(s, s1, [], ch', d);
      var slot, clusters', buf1 := FindOrMakeFreeSlot(clusters, buf);
      if slot.None? {
        NotCreated(s, s1, d, name, ch', bytes);
        chains := s1.chains;
        return false;
      }
      StartInTable(s, s1, [], ch');
      var rec := NewRecord(name, first.value, |bytes|, es, buf);
      var k := slot.value;
      SlotInBuffer(buf1, k);
      Commit(d, clusters', buf1, k, rec, s1);
      Created(s, s1, Now(), d, k, name, ch', clusters', bytes, buf1, rec);
      return true;
    }

    /** Put a record into its directory cluster; the directory's chain is what it has become. */
    method Commit(d: nat, clusters: seq<int>, buf: seq<byte>, k: nat, rec: seq<byte>, ghost s1: Snapshot)
      requires vol.Valid() && IsChain(vol.Fat(), clusters) && InData(vol.data, clusters)
      requires buf == Contents(vol.data, clusters)
      requires InBuffer(buf, k) && |rec| == 32 && d in s1.chains && s1.dirs == dirs
      requires ChainStep(s1, Snapshot(vol.Fat(), vol.data, Replaced(s1.chains, s1.chains[d], clusters), dirs, vol.size),
                 s1.chains[d], clusters)
      modifies this`chains, vol`data
      ensures vol.Valid() && ChainStep(s1, Now(), s1.chains[d], clusters)
      ensures chains == Replaced(s1.chains, s1.chains[d], clusters)
      ensures InData(vol.data, clusters) && Contents(vol.data, clusters) == WithRec(buf, k, rec)
    {
      hide Agree, Sized, OnlyIn, Resized, Contents, WithRec, IsChain;
      ghost var data2 := vol.data;
      FlushDirRange(clusters, WithRec(buf, k, rec), k, buf, rec);
      chains := Replaced(s1.chains, s1.chains[d], clusters);
      OnlyInChain(s1.data, data2, vol.data, clusters);
    }

    lemma ExistingChain(d: int, name: seq<int>, e: DirEntry) returns (ch: seq<int>)
      requires Valid() && d in dirs && FirstMatch(BufferOf(Now(), d), false, name, e.slot)
      requires Live(BufferOf(Now(), d), e.slot) && e == EntryOf(Rec(BufferOf(Now(), d), e.slot), e.slot)
      ensures if e.first < 2 then ch == [] else IsChain(vol.Fat(), ch) && ch[0] == e.first
      ensures OneOf(chains, ch) && (ch == [] || ch[0] !in dirs)
      ensures var first := FirstCluster(Rec(BufferOf(Now(), d), e.slot));
                if first < 2 then ch == [] else ch != [] && ch[0] == first
      ensures ch == OwnChain(Now(), d, name) && |ch| == OwnClusters(Now(), d, name)
    {
      EntryIsGood(Now(), d, e.slot);
      OwnClustersIs(Now(), d, name, e.slot);
      ch := if e.first < 2 then [] else chains[e.first];
      if e.first >= 2 {
        FileChain(Now(), e.first);
      }
    }

    lemma OpenDir(d: int)
      requires Valid() && d in dirs
      ensures d in chains && IsChain(vol.Fat(), chains[d]) && chains[d][0] == d && InData(vol.data, chains[d]) && d >= 2
      ensures BufferOf(Now(), d) == Contents(vol.data, chains[d])
      ensures Readable(Now(), d) <==> Times(|chains[d]|, vol.size) <= 2097152
    {
      ChainInData(Now(), d);
    }
  }

  /** The first deleted record or end mark, or one past the last record. */
  method ScanSlots(buf: seq<byte>) returns (k: nat)
    ensures forall j: nat {:trigger Going(buf, j)} :: j < k ==> Going(buf, j)
    ensures SlotAt(buf, k) || (!HasSlot(buf) && 32 * k <= |buf| < 32 * k + 32)
  {
    hide Rec;
    k := 0;
    while 32 * k + 32 <= |buf|
      invariant 32 * k <= |buf| && forall j: nat {:trigger Going(buf, j)} :: j < k ==> Going(buf, j)
      invariant forall j: nat {:trigger SlotAt(buf, j)} :: j < k ==> !SlotAt(buf, j)
    {
      if Rec(buf, k)[0] == 229 || Rec(buf, k)[0] == 0 {
        return;
      }
      k := k + 1;
    }
  }

  lemma {:induction false} DeletedIsFree(buf: seq<byte>, k: nat)
    requires InBuffer(buf, k) && Rec(buf, k)[0] == 229 && forall j: nat {:trigger Going(buf, j)} :: j < k ==>
               Going(buf, j)
    ensures SameEntries(buf, buf) && FreeSlot(buf, k)
  {
  }

  lemma {:induction false} EndIsFree(buf: seq<byte>, k: nat)
    requires InBuffer(buf, k) && !InBuffer(buf, k + 1) && Rec(buf, k)[0] == 0
               && forall j: nat {:trigger Going(buf, j)} :: j < k ==> Going(buf, j)
    ensures SameEntries(buf, buf) && FreeSlot(buf, k)
  {
  }

  lemma {:induction false} OnlyInSelf(data: seq<seq<byte>>, ch: seq<int>)
    ensures OnlyIn(data, data, ch)
  {
  }

  lemma {:induction false} TooLarge(steps: nat, n: nat, size: nat)
    requires steps < n && size > 0 && size % 512 == 0 && (steps >= 262144 || Times(steps, size) + size > 2097152)
    ensures Times(n, size) > 2097152
  {
    hide Times;
    OneMore(steps, size);
    TimesGrow(steps + 1, n, size);
    if steps >= 262144 {
      TimesGrow(262144, n, size);
      Many(size);
    }
  }

  lemma {:induction false} Many(size: nat)
    requires size > 0
    ensures size >= 512 ==> Times(262144, size) > 2097152
  {
  }

  lemma {:induction false} ZeroAppended(data: seq<seq<byte>>, ch: seq<int>, c: int, size: nat)
    requires Sized(data, size) && InData(data, ch) && 0 <= c < |data| && c !in ch
    ensures var data' := data[c := Zeros(size)];
      Sized(data', size) && OnlyIn(data, data', ch + [c]) && InData(data', ch + [c])
          && Contents(data', ch + [c]) == Contents(data, ch) + Zeros(size)
  {
    var data' := data[c := Zeros(size)];
    ContentsFrame(data, data', ch);
    assert (ch + [c])[..|ch|] == ch;
  }

  lemma {:induction false} StartOfResized(fat: seq<int>, fat': seq<int>, ch: seq<int>, ch': seq<int>)
    requires Resized(fat, fat', ch, ch')
    ensures ch' == [] || IsChain(fat', ch')
  {
  }

  lemma {:induction false} NoneNamed(s: Snapshot, d: int, dir: bool, name: seq<int>)
    requires Tree(s) && d in s.dirs && forall k: nat :: !Match(BufferOf(s, d), dir, name, k)
    ensures forall k: nat :: !Named(s, d, dir, name, k)
  {
    hide Match, BufferOf;
  }

  lemma {:induction false} FileChain(s: Snapshot, first: int)
    requires Tree(s) && first in s.chains
    ensures IsChain(s.fat, s.chains[first]) && s.chains[first][0] == first
  {
  }

  lemma {:induction false} FirstOf(rec: seq<byte>, k: nat)
    requires |rec| == 32
    ensures EntryOf(rec, k).first == FirstCluster(rec)
  {
  }

  lemma {:induction false} NoBytes(data: seq<seq<byte>>, ch: seq<int>)
    requires InData(data, ch)
    ensures FileData(data, ch, 0) == []
  {
  }

  /** The record of a new file, its short name made from the long one. */
  method NewRecord(name: seq<int>, first: nat, size: nat, es: seq<DirEntry>, ghost buf: seq<byte>)
    returns (rec: seq<byte>)
    requires Plain(name) && Entries(buf, es) && (forall k: nat, dir: bool :: !Match(buf, dir, name, k))
    requires first < 0x1_0000_0000 && size < 0x1_0000_0000
    ensures |rec| == 32 && rec[0] != 0 && !Skipped(rec) && !IsDir(rec) && SameName(Text(rec), name)
    ensures FirstCluster(rec) == first && Size(rec) == size
  {
    hide Plain, Entries, Match, Candidate, NewFile, FirstCluster, Size, Text, Skipped, IsDir, Lowered, NeedsTail,
         Fallback;
    var taken := set i | 0 <= i < |es| :: es[i].short;
    forall i | 0 <= i < |es| ensures es[i].short != Candidate(name, 0) {
      NotTaken(buf, es, name, i);
    }
    PlainReadsBack(name, 0);
    PlainFirst(name);
    assert FirstUsable(name, taken, 0);
    var short := MakeShortName(name, taken);
    assert short == Candidate(name, 0);
    var bytes: seq<byte> := AsBytes(short);
    NewFileReads(name, bytes, first, size);
    rec := NewFile(bytes, first, size);
  }

  function AsBytes(s: seq<int>): (t: seq<byte>)
    requires forall i :: 0 <= i < |s| ==> 0 <= s[i] < 256
    ensures t == s
  {
    if s == [] then [] else AsBytes(s[..|s| - 1]) + [s[|s| - 1]]
  }

  lemma {:induction false} SlotInBuffer(buf: seq<byte>, k: nat)
    requires FreeSlot(buf, k)
    ensures InBuffer(buf, k)
  {
  }

  /** A directory is where it was after a file's chain has been set. */
  lemma {:induction false} DirAfterStep(s: Snapshot, s1: Snapshot, ch: seq<int>, ch': seq<int>, d: int)
    requires Tree(s) && ChainStep(s, s1, ch, ch') && d in s.dirs && (ch == [] || ch[0] !in s.dirs)
    ensures SoundVolume(s1) && d in s1.chains && s1.chains[d] == s.chains[d] && IsChain(s1.fat, s.chains[d])
    ensures InData(s1.data, s.chains[d])
    ensures Contents(s1.data, s.chains[d]) == BufferOf(s, d) && s.chains[d] != [] && s.chains[d][0] == d
  {
    OthersUntouched(s, s1, ch, ch');
    assert Untouched(s, s1, d);
    ChainInData(s1, d);
    ChainInData(s, d);
  }

  lemma {:induction false} SameDirStep(s: Snapshot, d: int)
    requires SoundVolume(s) && d in s.chains
    ensures s.chains[d] != []
    ensures ChainStep(s, s.(chains := Replaced(s.chains, s.chains[d], s.chains[d])), s.chains[d], s.chains[d])
  {
    ResizedSelf(s.fat, s.chains[d]);
  }

  lemma {:induction false} SelfAlike(s: Snapshot)
    requires Tree(s)
    ensures Alike(s, s)
  {
  }

  /** Stopping after the file's chain leaves everything readable as it was. */
  lemma {:induction false} GaveUp(s: Snapshot, s': Snapshot, ch: seq<int>, ch': seq<int>)
    requires Tree(s) && ChainStep(s, s', ch, ch') && ch <= ch'
    requires ch == [] || (ch[0] !in s.dirs && s'.data == s.data)
    ensures Alike(s, s') && Tree(s')
  {
    GrowthUnnoticed(s, s', ch, ch');
    UnnoticedAlike(s, s', ch, ch');
  }

  lemma {:induction false} WrittenTrees(s: Snapshot, s': Snapshot, d: int, name: seq<int>, bytes: seq<byte>)
    requires Written(s, s', d, name, bytes)
    ensures Tree(s') && s'.dirs == s.dirs
  {
  }
}
