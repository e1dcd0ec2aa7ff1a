/**
 The state of a FAT32 volume as a value: directories and files over disjoint chains, what every name
 reads as, and the two kinds of change that writing a file makes.
 */
module FatTree {
  import opened Results
  import opened Bytes
  import opened FatChains
  import opened FatTable
  import opened FatNames
  import opened FatDirs

  /** Links, contents, chains by first cluster, and which of those are directories. */
  datatype Snapshot = Snapshot(fat: seq<int>, data: seq<seq<byte>>, chains: Chains, dirs: set<int>, size: nat)

  ghost predicate InData(data: seq<seq<byte>>, ch: seq<int>) {
    forall i :: 0 <= i < |ch| ==> 0 <= ch[i] < |data|
  }

  ghost predicate SoundVolume(s: Snapshot) {
    && |s.data| == |s.fat| && Sized(s.data, s.size) && Sound(s.fat, s.chains)
    && (forall d :: d in s.dirs ==> d in s.chains)
  }

  lemma {:induction false} ChainInData(s: Snapshot, t: int)
    requires SoundVolume(s) && t in s.chains
    ensures InData(s.data, s.chains[t]) && IsChain(s.fat, s.chains[t]) && s.chains[t][0] == t && Distinct(s.chains[t])
  {
    NoRepeats(s.fat, s.chains[t]);
  }

  /** What the clusters of the chain that starts at `t` hold. */
  ghost function Held(s: Snapshot, t: int): seq<byte>
    requires SoundVolume(s) && t in s.chains
  {
    ChainInData(s, t);
    Contents(s.data, s.chains[t])
  }

  ghost function BufferOf(s: Snapshot, d: int): seq<byte>
    requires SoundVolume(s) && d in s.dirs
  {
    Held(s, d)
  }

  /** What an entry's record reads as. */
  ghost function EntryBytes(s: Snapshot, rec: seq<byte>): seq<byte>
    requires SoundVolume(s) && |rec| == 32 && (FirstCluster(rec) < 2 || FirstCluster(rec) in s.chains)
  {
    if Size(rec) == 0 || FirstCluster(rec) < 2 then []
    else
      ChainInData(s, FirstCluster(rec));
      FileData(s.data, s.chains[FirstCluster(rec)], Size(rec))
  }

  /** A subdirectory's record names a directory; a file's record names a chain that is no directory,
      long enough for its size, or no chain when it is empty; the driver walks that much of a chain. */
  ghost predicate GoodEntry(s: Snapshot, rec: seq<byte>)
    requires |rec| == 32
  {
    if IsDir(rec) then FirstCluster(rec) in s.dirs
    else if FirstCluster(rec) < 2 then Size(rec) == 0
    else
      && FirstCluster(rec) in s.chains && FirstCluster(rec) !in s.dirs
      && Size(rec) <= Times(|s.chains[FirstCluster(rec)]|, s.size) && Size(rec) <= Times(MaxChain(), s.size)
  }

  /** A record in a directory that is the entry of a file with a chain. */
  ghost predicate Owner(s: Snapshot, d: int, k: nat)
    requires SoundVolume(s)
  {
    d in s.dirs && Live(BufferOf(s, d), k) && !IsDir(Rec(BufferOf(s, d), k))
        && FirstCluster(Rec(BufferOf(s, d), k)) >= 2
  }

  ghost predicate SameOwned(s: Snapshot, d: int, k: nat, e: int, l: nat)
    requires SoundVolume(s)
  {
    Owner(s, d, k) && Owner(s, e, l) && FirstCluster(Rec(BufferOf(s, d), k)) == FirstCluster(Rec(BufferOf(s, e), l))
  }

  /** The walk over the directory meets no record of a long name. */
  ghost predicate ShortOnly(s: Snapshot, d: int)
    requires SoundVolume(s) && d in s.dirs
  {
    forall k: nat {:trigger LongAt(BufferOf(s, d), k)} :: !LongAt(BufferOf(s, d), k)
  }

  /** Every entry is good, no two files share a chain, and all names are short. */
  ghost predicate Tree(s: Snapshot) {
    && SoundVolume(s) && (forall d {:trigger ShortOnly(s, d)} :: d in s.dirs ==> ShortOnly(s, d))
    && (forall d, k: nat {:trigger Live(BufferOf(s, d), k)} :: d in s.dirs && Live(BufferOf(s, d), k) ==>
         GoodEntry(s, Rec(BufferOf(s, d), k)))
    && (forall d, k: nat, e, l: nat {:trigger SameOwned(s, d, k, e, l)} :: SameOwned(s, d, k, e, l) ==>
         d == e && k == l)
  }

  lemma {:induction false} TreeSound(s: Snapshot)
    requires Tree(s)
    ensures SoundVolume(s)
  {
  }

  /** Small enough a directory for the driver to read at all. */
  ghost predicate Readable(s: Snapshot, d: int)
    requires SoundVolume(s) && d in s.dirs
  {
    Times(|s.chains[d]|, s.size) <= 2097152
  }

  ghost predicate Named(s: Snapshot, d: int, dir: bool, name: seq<int>, k: nat)
    requires SoundVolume(s) && d in s.dirs
  {
    FirstMatch(BufferOf(s, d), dir, name, k)
  }

  /** What reading the file `name` of directory `d` gives. */
  ghost function Read(s: Snapshot, d: int, name: seq<int>): Option<seq<byte>>
    requires Tree(s) && d in s.dirs
  {
    if !Readable(s, d) then None
    else if k: nat :| Named(s, d, false, name, k) then
      OneName(s, d, false, name);
      var rec := Rec(BufferOf(s, d), k);
      EntryIsGood(s, d, k);
      if Size(rec) > 536870912 then None else Some(EntryBytes(s, rec))
    else None
  }

  /** Where the subdirectory `name` of directory `d` is. */
  ghost function SubDir(s: Snapshot, d: int, name: seq<int>): Option<int>
    requires Tree(s) && d in s.dirs
  {
    if !Readable(s, d) then None
    else if k: nat :| Named(s, d, true, name, k) then
      OneName(s, d, true, name);
      EntryIsGood(s, d, k);
      Some(FirstCluster(Rec(BufferOf(s, d), k)))
    else None
  }

  lemma {:induction false} OneName(s: Snapshot, d: int, dir: bool, name: seq<int>)
    requires SoundVolume(s) && d in s.dirs
    ensures forall j: nat, k: nat {:trigger Named(s, d, dir, name, j), Named(s, d, dir, name, k)} ::
      Named(s, d, dir, name, j) && Named(s, d, dir, name, k) ==> j == k
  {
    forall j: nat, k: nat {:trigger Named(s, d, dir, name, j), Named(s, d, dir, name, k)} | Named(s, d, dir, name, j)
        && Named(s, d, dir, name, k)
      ensures j == k
    {
      OneFirstMatch(BufferOf(s, d), dir, name, j, k);
    }
  }

  lemma {:induction false} EntryIsGood(s: Snapshot, d: int, k: nat)
    requires Tree(s) && d in s.dirs && Live(BufferOf(s, d), k)
    ensures GoodEntry(s, Rec(BufferOf(s, d), k))
  {
  }

  /** The directory at the end of a path of names, from `d` on. */
  ghost function Resolve(s: Snapshot, d: int, parts: seq<seq<int>>): Option<int>
    requires Tree(s) && d in s.dirs
    decreases |parts|
  {
    if parts == [] then Some(d)
    else
      match SubDir(s, d, parts[0])
      case None => None
      case Some(e) => SubDirIsDir(s, d, parts[0]); Resolve(s, e, parts[1..])
  }

  lemma {:induction false} SubDirIsDir(s: Snapshot, d: int, name: seq<int>)
    requires Tree(s) && d in s.dirs
    ensures SubDir(s, d, name).Some? ==> SubDir(s, d, name).value in s.dirs
  {
  }

  /** A name that finds entry `k` reads as that entry. */
  lemma {:induction false} ReadIs(s: Snapshot, d: int, name: seq<int>, k: nat)
    requires Tree(s) && d in s.dirs && Named(s, d, false, name, k)
    ensures Live(BufferOf(s, d), k) && InBuffer(BufferOf(s, d), k)
    ensures GoodEntry(s, Rec(BufferOf(s, d), k)) && !IsDir(Rec(BufferOf(s, d), k))
    ensures var rec := Rec(BufferOf(s, d), k);
      Read(s, d, name) == if !Readable(s, d) || Size(rec) > 536870912 then None else Some(EntryBytes(s, rec))
  {
    OneName(s, d, false, name);
    EntryIsGood(s, d, k);
  }

  lemma {:induction false} SubDirIs(s: Snapshot, d: int, name: seq<int>, k: nat)
    requires Tree(s) && d in s.dirs && Named(s, d, true, name, k)
    ensures Live(BufferOf(s, d), k) && InBuffer(BufferOf(s, d), k)
    ensures SubDir(s, d, name) == if !Readable(s, d) then None else Some(FirstCluster(Rec(BufferOf(s, d), k)))
  {
    OneName(s, d, true, name);
    EntryIsGood(s, d, k);
  }

  // ---- two kinds of change ----

  /** A chain other than the changed ones has come through, links and contents. */
  ghost predicate Untouched(s: Snapshot, s': Snapshot, t: int)
    requires SoundVolume(s) && SoundVolume(s') && t in s.chains
  {
    t in s'.chains && s'.chains[t] == s.chains[t] && Held(s', t) == Held(s, t)
  }

  /** One chain, or none, has been made longer; its bytes are where they were and nothing refers to the rest. */
  ghost predicate Unnoticed(s: Snapshot, s': Snapshot, ch: seq<int>, ch': seq<int>) {
    && SoundVolume(s) && SoundVolume(s') && s'.dirs == s.dirs && s'.size == s.size && OneOf(s.chains, ch)
    && (forall t {:trigger Untouched(s, s', t)} {:trigger s.chains[t]} :: t in s.chains && (ch == [] || t != ch[0]) ==>
         Untouched(s, s', t))
    && (ch != [] ==>
         ch[0] !in s.dirs && ch[0] in s'.chains && s'.chains[ch[0]] == ch' && ch <= ch'
         && Held(s, ch[0]) <= Held(s', ch[0]))
  }

  lemma {:induction false} DirsUntouched(s: Snapshot, s': Snapshot, ch: seq<int>, ch': seq<int>, d: int)
    requires Unnoticed(s, s', ch, ch') && d in s.dirs
    ensures BufferOf(s', d) == BufferOf(s, d) && (Readable(s', d) <==> Readable(s, d)) && s'.chains[d] == s.chains[d]
  {
    assert Untouched(s, s', d);
  }

  lemma {:induction false} EntryUnnoticed(s: Snapshot, s': Snapshot, ch: seq<int>, ch': seq<int>, rec: seq<byte>)
    requires Unnoticed(s, s', ch, ch') && |rec| == 32 && GoodEntry(s, rec)
    ensures GoodEntry(s', rec) && (!IsDir(rec) ==> EntryBytes(s', rec) == EntryBytes(s, rec))
  {
    hide IsDir, FirstCluster, Size, Times, FileData;
    if !IsDir(rec) && FirstCluster(rec) >= 2 {
      var t := FirstCluster(rec);
      if ch != [] && t == ch[0] {
        TimesGrow(|ch|, |ch'|, s.size);
        SamePrefix(s, s', ch, ch', Size(rec));
      } else {
        assert Untouched(s, s', t);
        SameFile(s, s', t, Size(rec));
      }
    }
  }

  lemma {:induction false} SameFile(s: Snapshot, s': Snapshot, t: int, n: nat)
    requires SoundVolume(s) && SoundVolume(s') && t in s.chains && Untouched(s, s', t)
    ensures InData(s.data, s.chains[t]) && InData(s'.data, s'.chains[t])
    ensures FileData(s'.data, s'.chains[t], n) == FileData(s.data, s.chains[t], n)
  {
    ChainInData(s, t);
    ChainInData(s', t);
  }

  lemma {:induction false} SamePrefix(s: Snapshot, s': Snapshot, ch: seq<int>, ch': seq<int>, n: nat)
    requires Unnoticed(s, s', ch, ch') && ch != [] && n <= Times(|ch|, s.size)
    ensures InData(s.data, ch) && InData(s'.data, ch') && FileData(s'.data, ch', n) == FileData(s.data, ch, n)
  {
    ChainInData(s, ch[0]);
    ChainInData(s', ch[0]);
    ContentsLength(s.data, ch, s.size);
    var all, more := Contents(s.data, ch), Contents(s'.data, ch');
    assert all == more[..|all|];
    assert more[..n] == all[..n];
  }

  /** Nobody can tell: every directory and every file reads as before. */
  lemma {:induction false} UnnoticedTree(s: Snapshot, s': Snapshot, ch: seq<int>, ch': seq<int>)
    requires Tree(s) && Unnoticed(s, s', ch, ch')
    ensures Tree(s')
  {
    hide Unnoticed, GoodEntry, BufferOf, Going, Skipped, Rec, IsDir, FirstCluster, SoundVolume, LongAt;
    SameDirs(s, s', ch, ch');
    forall d {:trigger ShortOnly(s', d)} | d in s'.dirs ensures ShortOnly(s', d) {
      DirsUntouched(s, s', ch, ch', d);
      assert ShortOnly(s, d);
    }
    forall d, k: nat {:trigger Live(BufferOf(s', d), k)} | d in s'.dirs && Live(BufferOf(s', d), k)
      ensures GoodEntry(s', Rec(BufferOf(s', d), k))
    {
      DirsUntouched(s, s', ch, ch', d);
      EntryUnnoticed(s, s', ch, ch', Rec(BufferOf(s, d), k));
    }
    forall d, k: nat, e, l: nat {:trigger SameOwned(s', d, k, e, l)} | SameOwned(s', d, k, e, l)
      ensures d == e && k == l
    {
      DirsUntouched(s, s', ch, ch', d);
      DirsUntouched(s, s', ch, ch', e);
      assert SameOwned(s, d, k, e, l);
    }
  }

  lemma {:induction false} SameDirs(s: Snapshot, s': Snapshot, ch: seq<int>, ch': seq<int>)
    requires Unnoticed(s, s', ch, ch')
    ensures SoundVolume(s) && SoundVolume(s') && s'.dirs == s.dirs && s'.size == s.size
  {
  }

  /** Each name in `d` finds in `s'` what it found in `s`. */
  ghost predicate ReadsAlike(s: Snapshot, s': Snapshot, d: int, name: seq<int>) {
    Tree(s) && Tree(s') && d in s.dirs && d in s'.dirs && Read(s', d, name) == Read(s, d, name)
  }

  ghost predicate LeadsAlike(s: Snapshot, s': Snapshot, d: int, name: seq<int>) {
    Tree(s) && Tree(s') && d in s.dirs && d in s'.dirs && SubDir(s', d, name) == SubDir(s, d, name)
  }

  lemma {:induction false} UnnoticedReads(s: Snapshot, s': Snapshot, ch: seq<int>, ch': seq<int>, d: int,
                                          name: seq<int>)
    requires Tree(s) && Unnoticed(s, s', ch, ch') && d in s.dirs
    ensures ReadsAlike(s, s', d, name) && LeadsAlike(s, s', d, name)
  {
    UnnoticedTree(s, s', ch, ch');
    UnnoticedRead(s, s', ch, ch', d, name);
    UnnoticedLead(s, s', ch, ch', d, name);
    hide Unnoticed, Tree, Read, SubDir;
    SameDirs(s, s', ch, ch');
  }

  lemma {:induction false} UnnoticedNames(s: Snapshot, s': Snapshot, ch: seq<int>, ch': seq<int>, d: int, dir: bool,
                                          name: seq<int>, k: nat)
    requires Unnoticed(s, s', ch, ch') && d in s.dirs
    ensures Named(s', d, dir, name, k) <==> Named(s, d, dir, name, k)
  {
    DirsUntouched(s, s', ch, ch', d);
  }

  lemma {:induction false} UnnoticedRead(s: Snapshot, s': Snapshot, ch: seq<int>, ch': seq<int>, d: int, name: seq<int>)
    requires Tree(s) && Tree(s') && Unnoticed(s, s', ch, ch') && d in s.dirs
    ensures d in s'.dirs && Read(s', d, name) == Read(s, d, name)
  {
    hide Unnoticed, GoodEntry, Live, Rec, IsDir, FirstCluster, SoundVolume, Size, EntryBytes, Named, Tree, Read,
         BufferOf;
    SameDirs(s, s', ch, ch');
    DirsUntouched(s, s', ch, ch', d);
    if k: nat :| Named(s, d, false, name, k) {
      UnnoticedNames(s, s', ch, ch', d, false, name, k);
      ReadIs(s, d, name, k);
      ReadIs(s', d, name, k);
      EntryUnnoticed(s, s', ch, ch', Rec(BufferOf(s, d), k));
    } else {
      forall k: nat ensures !Named(s', d, false, name, k) {
        UnnoticedNames(s, s', ch, ch', d, false, name, k);
      }
      ReadNone(s, d, name);
      ReadNone(s', d, name);
    }
  }

  lemma {:induction false} UnnoticedLead(s: Snapshot, s': Snapshot, ch: seq<int>, ch': seq<int>, d: int, name: seq<int>)
    requires Tree(s) && Tree(s') && Unnoticed(s, s', ch, ch') && d in s.dirs
    ensures d in s'.dirs && SubDir(s', d, name) == SubDir(s, d, name)
  {
    hide Unnoticed, GoodEntry, Live, Rec, IsDir, FirstCluster, SoundVolume, Size, EntryBytes, Named, Tree, SubDir,
         BufferOf;
    SameDirs(s, s', ch, ch');
    DirsUntouched(s, s', ch, ch', d);
    if k: nat :| Named(s, d, true, name, k) {
      UnnoticedNames(s, s', ch, ch', d, true, name, k);
      SubDirIs(s, d, name, k);
      SubDirIs(s', d, name, k);
    } else {
      forall k: nat ensures !Named(s', d, true, name, k) {
        UnnoticedNames(s, s', ch, ch', d, true, name, k);
      }
      SubDirNone(s, d, name);
      SubDirNone(s', d, name);
    }
  }

  lemma {:induction false} ReadNone(s: Snapshot, d: int, name: seq<int>)
    requires Tree(s) && d in s.dirs && forall k: nat :: !Named(s, d, false, name, k)
    ensures Read(s, d, name) == None
  {
  }

  lemma {:induction false} SubDirNone(s: Snapshot, d: int, name: seq<int>)
    requires Tree(s) && d in s.dirs && forall k: nat :: !Named(s, d, true, name, k)
    ensures SubDir(s, d, name) == None
  {
  }

  /** One file of directory `d` has got new bytes: its record, at `k`, and its chain have changed, the
      directory may have grown, and every other chain has come through. */
  ghost predicate FileTurn(s: Snapshot, s': Snapshot, d: int, k: nat, name: seq<int>, ch: seq<int>, ch': seq<int>,
                           bytes: seq<byte>) {
    && SoundVolume(s) && SoundVolume(s') && s'.dirs == s.dirs && s'.size == s.size && d in s.dirs
    && OneOf(s.chains, ch) && OneOf(s'.chains, ch')
    && (forall t {:trigger Untouched(s, s', t)} {:trigger s.chains[t]} ::
         t in s.chains && t != d && (ch == [] || t != ch[0]) ==> Untouched(s, s', t))
    && OneChanged(BufferOf(s, d), BufferOf(s', d), k, name)
    && (if Live(BufferOf(s, d), k)
         then (if FirstCluster(Rec(BufferOf(s, d), k)) < 2 then ch == []
         else ch != [] && ch[0] == FirstCluster(Rec(BufferOf(s, d), k)))
        else ch == [])
    && (ch' != [] ==>
         ch'[0] >= 2 && |bytes| <= Times(MaxChain(), s.size) && ch'[0] !in s.dirs
         && (ch'[0] in s.chains ==> ch != [] && ch'[0] == ch[0]))
    && Wrote(s', Rec(BufferOf(s', d), k), ch', bytes)
  }

  /** The chain holds the bytes, from its start. */
  ghost predicate HoldsBytes(data: seq<seq<byte>>, size: nat, ch: seq<int>, bytes: seq<byte>) {
    && (ch == [] ==> bytes == []) && |bytes| <= Times(|ch|, size)
    && InData(data, ch) && FileData(data, ch, |bytes|) == bytes
  }

  /** The record names the chain and its size, and the chain holds the bytes. */
  ghost predicate Wrote(s: Snapshot, rec: seq<byte>, ch: seq<int>, bytes: seq<byte>)
    requires SoundVolume(s) && |rec| == 32
  {
    FirstCluster(rec) == (if ch == [] then 0 else ch[0]) && Size(rec) == |bytes|
        && HoldsBytes(s.data, s.size, ch, bytes)
  }

  lemma {:induction false} TurnBuffers(s: Snapshot, s': Snapshot, d: int, k: nat, name: seq<int>, ch: seq<int>,
                                       ch': seq<int>, bytes: seq<byte>, e: int)
    requires Tree(s) && FileTurn(s, s', d, k, name, ch, ch', bytes) && e in s.dirs && e != d
    ensures BufferOf(s', e) == BufferOf(s, e) && s'.chains[e] == s.chains[e]
  {
    assert ch != [] ==> ch[0] !in s.dirs by {
      if ch != [] {
        EntryIsGood(s, d, k);
      }
    }
    assert Untouched(s, s', e);
  }

  /** Any other entry is good still and reads as before. */
  lemma {:induction false} TurnEntry(s: Snapshot, s': Snapshot, d: int, k: nat, name: seq<int>, ch: seq<int>,
                                     ch': seq<int>, bytes: seq<byte>, e: int, l: nat)
    requires Tree(s) && FileTurn(s, s', d, k, name, ch, ch', bytes) && e in s.dirs && Live(BufferOf(s, e), l)
    requires (e != d || l != k)
    ensures GoodEntry(s, Rec(BufferOf(s, e), l)) && GoodEntry(s', Rec(BufferOf(s, e), l))
    ensures !IsDir(Rec(BufferOf(s, e), l)) ==>
              EntryBytes(s', Rec(BufferOf(s, e), l)) == EntryBytes(s, Rec(BufferOf(s, e), l))
    ensures !IsDir(Rec(BufferOf(s, e), l)) ==> (ch' != [] ==> FirstCluster(Rec(BufferOf(s, e), l)) != ch'[0])
  {
    var rec := Rec(BufferOf(s, e), l);
    EntryIsGood(s, e, l);
    hide FileData, Size, IsDir, Times, OneChanged, Wrote, FirstCluster, BufferOf, Live, Rec;
    if !IsDir(rec) && FirstCluster(rec) >= 2 {
      var t := FirstCluster(rec);
      NotTheFile(s, s', d, k, name, ch, ch', bytes, e, l);
      assert Untouched(s, s', t);
      SameFile(s, s', t, Size(rec));
    }
  }

  lemma {:induction false} NotTheFile(s: Snapshot, s': Snapshot, d: int, k: nat, name: seq<int>, ch: seq<int>,
                                      ch': seq<int>, bytes: seq<byte>, e: int, l: nat)
    requires Tree(s) && FileTurn(s, s', d, k, name, ch, ch', bytes) && e in s.dirs && Live(BufferOf(s, e), l)
    requires (e != d || l != k)
    requires !IsDir(Rec(BufferOf(s, e), l)) && FirstCluster(Rec(BufferOf(s, e), l)) >= 2
    ensures ch == [] || FirstCluster(Rec(BufferOf(s, e), l)) != ch[0]
  {
    hide FileData, Size, IsDir, Times, Wrote, FirstCluster, BufferOf, Going, Skipped, Rec;
    assert !SameOwned(s, e, l, d, k);
  }

  lemma {:induction false} TurnNewEntry(s: Snapshot, s': Snapshot, d: int, k: nat, name: seq<int>, ch: seq<int>,
                                        ch': seq<int>, bytes: seq<byte>)
    requires FileTurn(s, s', d, k, name, ch, ch', bytes)
    ensures Live(BufferOf(s', d), k) && GoodEntry(s', Rec(BufferOf(s', d), k)) && !IsDir(Rec(BufferOf(s', d), k))
    ensures EntryBytes(s', Rec(BufferOf(s', d), k)) == bytes
  {
    hide Times, Live, Rec, Lowered, Text;
    assert ch' != [] ==> s'.chains[ch'[0]] == ch';
    assert bytes == [] ==> FileData(s'.data, ch', 0) == [];
  }

  lemma {:induction false} TurnTree(s: Snapshot, s': Snapshot, d: int, k: nat, name: seq<int>, ch: seq<int>,
                                    ch': seq<int>, bytes: seq<byte>)
    requires Tree(s) && FileTurn(s, s', d, k, name, ch, ch', bytes)
    ensures Tree(s')
  {
    TurnNewEntry(s, s', d, k, name, ch, ch', bytes);
    forall e, l: nat {:trigger Live(BufferOf(s', e), l)} | e in s'.dirs && Live(BufferOf(s', e), l)
      ensures GoodEntry(s', Rec(BufferOf(s', e), l))
      ensures (e != d || l != k) ==> Live(BufferOf(s, e), l) && Rec(BufferOf(s', e), l) == Rec(BufferOf(s, e), l)
      ensures (e != d || l != k) && ch' != [] && !IsDir(Rec(BufferOf(s', e), l)) ==>
                FirstCluster(Rec(BufferOf(s', e), l)) != ch'[0]
    {
      if e != d || l != k {
        TurnRecord(s, s', d, k, name, ch, ch', bytes, e, l);
        TurnEntry(s, s', d, k, name, ch, ch', bytes, e, l);
      }
    }
    forall e {:trigger ShortOnly(s', e)} | e in s'.dirs ensures ShortOnly(s', e) {
      TurnShort(s, s', d, k, name, ch, ch', bytes, e);
    }
    hide GoodEntry, BufferOf, Live, Rec, IsDir, FirstCluster, Untouched, OneChanged, MaxChain;
    forall e, l: nat, f, m: nat {:trigger SameOwned(s', e, l, f, m)} | SameOwned(s', e, l, f, m)
      ensures e == f && l == m
    {
      TurnOwners(s, s', d, k, name, ch, ch', bytes, e, l, f, m);
    }
  }

  lemma {:induction false} TurnShort(s: Snapshot, s': Snapshot, d: int, k: nat, name: seq<int>, ch: seq<int>,
                                     ch': seq<int>, bytes: seq<byte>, e: int)
    requires Tree(s) && FileTurn(s, s', d, k, name, ch, ch', bytes) && e in s.dirs
    ensures ShortOnly(s', e)
  {
    assert ShortOnly(s, e);
    if e != d {
      TurnBuffers(s, s', d, k, name, ch, ch', bytes, e);
    }
    hide BufferOf, Live, LongAt, Rec, IsDir, FirstCluster, Untouched, Tree;
  }

  lemma {:induction false} TurnRecord(s: Snapshot, s': Snapshot, d: int, k: nat, name: seq<int>, ch: seq<int>,
                                      ch': seq<int>, bytes: seq<byte>, e: int, l: nat)
    requires Tree(s) && FileTurn(s, s', d, k, name, ch, ch', bytes) && e in s.dirs && (e != d || l != k)
    ensures Live(BufferOf(s', e), l) <==> Live(BufferOf(s, e), l)
    ensures Live(BufferOf(s, e), l) ==> Rec(BufferOf(s', e), l) == Rec(BufferOf(s, e), l)
  {
    if e != d {
      TurnBuffers(s, s', d, k, name, ch, ch', bytes, e);
    }
    hide BufferOf, Live, Rec, IsDir, FirstCluster, Untouched, Tree;
  }

  lemma {:induction false} TurnOwners(s: Snapshot, s': Snapshot, d: int, k: nat, name: seq<int>, ch: seq<int>,
                                      ch': seq<int>, bytes: seq<byte>, e: int, l: nat, f: int, m: nat)
    requires Tree(s) && FileTurn(s, s', d, k, name, ch, ch', bytes) && SameOwned(s', e, l, f, m)
    ensures e == f && l == m
  {
    hide BufferOf, Live, Rec, IsDir, FirstCluster, Untouched, OneChanged, GoodEntry, EntryBytes;
    var one, two := e == d && l == k, f == d && m == k;
    if !one {
      TurnRecord(s, s', d, k, name, ch, ch', bytes, e, l);
      TurnEntry(s, s', d, k, name, ch, ch', bytes, e, l);
    }
    if !two {
      TurnRecord(s, s', d, k, name, ch, ch', bytes, f, m);
      TurnEntry(s, s', d, k, name, ch, ch', bytes, f, m);
    }
    if !one && !two {
      assert SameOwned(s, e, l, f, m);
    }
  }

  /** A directory the turn has not made unreadable. */
  lemma {:induction false} TurnReads(s: Snapshot, s': Snapshot, d: int, k: nat, name: seq<int>, ch: seq<int>,
                                     ch': seq<int>, bytes: seq<byte>, e: int, other: seq<int>)
    requires Tree(s) && FileTurn(s, s', d, k, name, ch, ch', bytes) && e in s.dirs
    requires e == d ==> (Readable(s', d) <==> Readable(s, d))
    ensures e != d || !SameName(other, name) ==> ReadsAlike(s, s', e, other)
    ensures LeadsAlike(s, s', e, other)
  {
    TurnTree(s, s', d, k, name, ch, ch', bytes);
    if e != d {
      TurnBuffers(s, s', d, k, name, ch, ch', bytes, e);
    }
    if e != d || !SameName(other, name) {
      TurnNames(s, s', d, k, name, ch, ch', bytes, e, false, other);
      ReadsSame(s, s', d, k, name, ch, ch', bytes, e, other);
    }
    TurnNames(s, s', d, k, name, ch, ch', bytes, e, true, other);
    LeadsSame(s, s', d, k, name, ch, ch', bytes, e, other);
  }

  /** Other names find the same records. */
  lemma {:induction false} TurnNames(s: Snapshot, s': Snapshot, d: int, k: nat, name: seq<int>, ch: seq<int>,
                                     ch': seq<int>, bytes: seq<byte>, e: int, dir: bool, other: seq<int>)
    requires Tree(s) && FileTurn(s, s', d, k, name, ch, ch', bytes) && e in s.dirs
    requires (e != d || dir || !SameName(other, name))
    ensures forall l: nat {:trigger Named(s, e, dir, other, l)} {:trigger Named(s', e, dir, other, l)} ::
              Named(s', e, dir, other, l) <==> Named(s, e, dir, other, l)
    ensures forall l: nat {:trigger Named(s, e, dir, other, l)} :: Named(s, e, dir, other, l) ==>
      (e != d || l != k) && Live(BufferOf(s, e), l) && Rec(BufferOf(s', e), l) == Rec(BufferOf(s, e), l)
  {
    if e != d {
      TurnBuffers(s, s', d, k, name, ch, ch', bytes, e);
    } else {
      hide BufferOf, Live, Rec, IsDir, FirstCluster, Untouched, OneChanged, Tree;
      forall l: nat {:trigger Named(s, e, dir, other, l)} {:trigger Named(s', e, dir, other, l)} | true
        ensures Named(s', e, dir, other, l) <==> Named(s, e, dir, other, l)
        ensures Named(s, e, dir, other, l) ==>
                  l != k && Live(BufferOf(s, e), l) && Rec(BufferOf(s', e), l) == Rec(BufferOf(s, e), l)
      {
        OthersFirst(BufferOf(s, d), BufferOf(s', d), k, name, dir, other, l);
        OthersFound(BufferOf(s, d), BufferOf(s', d), k, name, dir, other, l);
      }
    }
  }

  lemma {:induction false} ReadsSame(s: Snapshot, s': Snapshot, d: int, k: nat, name: seq<int>, ch: seq<int>,
                                     ch': seq<int>, bytes: seq<byte>, e: int, other: seq<int>)
    requires Tree(s) && Tree(s') && FileTurn(s, s', d, k, name, ch, ch', bytes) && e in s.dirs
    requires (Readable(s', e) <==> Readable(s, e))
    requires forall l: nat {:trigger Named(s, e, false, other, l)} {:trigger Named(s', e, false, other, l)} ::
               Named(s', e, false, other, l) <==> Named(s, e, false, other, l)
    requires forall l: nat {:trigger Named(s, e, false, other, l)} :: Named(s, e, false, other, l) ==>
      (e != d || l != k) && Live(BufferOf(s, e), l) && Rec(BufferOf(s', e), l) == Rec(BufferOf(s, e), l)
    ensures ReadsAlike(s, s', e, other)
  {
    hide GoodEntry, BufferOf, Live, Rec, IsDir, FirstCluster, SoundVolume, Size, EntryBytes, Named, Tree, Read,
         Readable;
    if l: nat :| Named(s, e, false, other, l) {
      ReadIs(s, e, other, l);
      ReadIs(s', e, other, l);
      TurnEntry(s, s', d, k, name, ch, ch', bytes, e, l);
    } else {
      ReadNone(s, e, other);
      ReadNone(s', e, other);
    }
  }

  lemma {:induction false} LeadsSame(s: Snapshot, s': Snapshot, d: int, k: nat, name: seq<int>, ch: seq<int>,
                                     ch': seq<int>, bytes: seq<byte>, e: int, other: seq<int>)
    requires Tree(s) && Tree(s') && FileTurn(s, s', d, k, name, ch, ch', bytes) && e in s.dirs
    requires (Readable(s', e) <==> Readable(s, e))
    requires forall l: nat {:trigger Named(s, e, true, other, l)} {:trigger Named(s', e, true, other, l)} ::
               Named(s', e, true, other, l) <==> Named(s, e, true, other, l)
    requires forall l: nat {:trigger Named(s, e, true, other, l)} :: Named(s, e, true, other, l) ==>
      (e != d || l != k) && Live(BufferOf(s, e), l) && Rec(BufferOf(s', e), l) == Rec(BufferOf(s, e), l)
    ensures LeadsAlike(s, s', e, other)
  {
    hide GoodEntry, BufferOf, Live, Rec, IsDir, FirstCluster, SoundVolume, Size, EntryBytes, Named, Tree, SubDir,
         Readable;
    if l: nat :| Named(s, e, true, other, l) {
      SubDirIs(s, e, other, l);
      SubDirIs(s', e, other, l);
    } else {
      SubDirNone(s, e, other);
      SubDirNone(s', e, other);
    }
  }

  /** The written name reads as the bytes. */
  lemma {:induction false} TurnItself(s: Snapshot, s': Snapshot, d: int, k: nat, name: seq<int>, ch: seq<int>,
                                      ch': seq<int>, bytes: seq<byte>)
    requires Tree(s) && FileTurn(s, s', d, k, name, ch, ch', bytes) && |bytes| <= 536870912
    requires Named(s, d, false, name, k) || forall j: nat :: !Match(BufferOf(s, d), false, name, j)
    ensures Tree(s') && Read(s', d, name) == if Readable(s', d) then Some(bytes) else None
  {
    TurnTree(s, s', d, k, name, ch, ch', bytes);
    TurnNewEntry(s, s', d, k, name, ch, ch', bytes);
    ItselfFound(BufferOf(s, d), BufferOf(s', d), k, name);
    hide GoodEntry, BufferOf, Live, Rec, IsDir, FirstCluster, EntryBytes, Tree, Read, Readable, OneChanged, FirstMatch;
    assert Named(s', d, false, name, k);
    ReadIs(s', d, name, k);
  }

  /** Paths lead where they led when every directory on them does. */
  lemma {:induction false} ResolvesAlike(s: Snapshot, s': Snapshot, d: int, parts: seq<seq<int>>)
    requires Tree(s) && Tree(s') && d in s.dirs && s'.dirs == s.dirs
    requires forall e, n {:trigger LeadsAlike(s, s', e, n)} :: e in s.dirs ==> LeadsAlike(s, s', e, n)
    ensures Resolve(s', d, parts) == Resolve(s, d, parts)
    decreases |parts|
  {
    hide Tree, SubDir;
    if parts != [] {
      assert LeadsAlike(s, s', d, parts[0]);
      SubDirIsDir(s, d, parts[0]);
      SubDirIsDir(s', d, parts[0]);
      if SubDir(s, d, parts[0]).Some? {
        ResolvesAlike(s, s', SubDir(s, d, parts[0]).value, parts[1..]);
      }
    }
  }
}
