/**
 Directories as buffers of 32-byte records: which records are entries, finding one by name, and what
 changing one record does to every other name. Records of long names are not part of this model.
 */
module FatDirs {
  import opened Results
  import opened Bytes
  import opened FatNames

  predicate InBuffer(buf: seq<byte>, k: nat) {
    32 * k + 32 <= |buf|
  }

  function Rec(buf: seq<byte>, k: nat): (rec: seq<byte>)
    requires InBuffer(buf, k)
    ensures |rec| == 32
  {
    buf[32 * k..32 * k + 32]
  }

  /** A buffer with one record replaced. */
  function WithRec(buf: seq<byte>, k: nat, rec: seq<byte>): (r: seq<byte>)
    requires InBuffer(buf, k) && |rec| == 32
    ensures |r| == |buf|
  {
    buf[..32 * k] + rec + buf[32 * k + 32..]
  }

  lemma {:induction false} RecAfter(buf: seq<byte>, k: nat, rec: seq<byte>, j: nat)
    requires InBuffer(buf, k) && InBuffer(buf, j) && |rec| == 32
    ensures InBuffer(WithRec(buf, k, rec), j) && Rec(WithRec(buf, k, rec), j) == if j == k then rec else Rec(buf, j)
  {
    var now := WithRec(buf, k, rec);
    if j < k {
      assert now[32 * j..32 * j + 32] == buf[32 * j..32 * j + 32];
    } else if j > k {
      assert now[32 * j..32 * j + 32] == buf[32 * j..32 * j + 32];
    }
  }

  // ---- records ----

  predicate IsDir(rec: seq<byte>)
    requires |rec| == 32
  {
    rec[11] / 16 % 2 == 1
  }

  /** Deleted, a dot entry, or a volume label. */
  predicate Skipped(rec: seq<byte>)
    requires |rec| == 32
  {
    rec[0] == 229 || rec[0] == 46 || rec[11] / 8 % 2 == 1
  }

  function FirstCluster(rec: seq<byte>): nat
    requires |rec| == 32
  {
    DecodeLe(rec[26..28] + rec[20..22])
  }

  function Size(rec: seq<byte>): nat
    requires |rec| == 32
  {
    DecodeLe(rec[28..32])
  }

  function Text(rec: seq<byte>): seq<int>
    requires |rec| == 32
  {
    ShortNameText(rec[..11], rec[12])
  }

  /** The record with its first cluster and size set. */
  function WithFields(rec: seq<byte>, first: nat, size: nat): (r: seq<byte>)
    requires |rec| == 32
    ensures |r| == 32
  {
    var f := EncodeLe(first, 4);
    rec[..20] + f[2..] + rec[22..26] + f[..2] + EncodeLe(size, 4)
  }

  lemma {:induction false} FieldsReadBack(rec: seq<byte>, first: nat, size: nat)
    requires |rec| == 32 && first < 0x1_0000_0000 && size < 0x1_0000_0000
    ensures var r := WithFields(rec, first, size);
      FirstCluster(r) == first && Size(r) == size && r[..20] == rec[..20] && Text(r) == Text(rec)
  {
    Spans();
    LeRoundTrip(first, 4);
    LeRoundTrip(size, 4);
    hide EncodeLe, DecodeLe, Span, ShortNameText;
    var r, f := WithFields(rec, first, size), EncodeLe(first, 4);
    assert r[26..28] == f[..2] && r[20..22] == f[2..] && r[28..32] == EncodeLe(size, 4);
    assert r[26..28] + r[20..22] == f;
    assert r[..20] == rec[..20];
    assert r[..11] == r[..20][..11] == rec[..20][..11] == rec[..11];
    assert r[12] == r[..20][12] == rec[..20][12] == rec[12];
  }

  /** A fresh record of a file. */
  function NewFile(short: seq<byte>, first: nat, size: nat): (r: seq<byte>)
    requires |short| == 11
    ensures |r| == 32
  {
    WithFields(short + [32] + Zeros(20), first, size)
  }

  // ---- which records are entries ----

  /** Not the end mark. */
  predicate Going(buf: seq<byte>, k: nat) {
    InBuffer(buf, k) && Rec(buf, k)[0] != 0
  }

  /** A record that the walk over a directory meets and takes for an entry. */
  ghost predicate Live(buf: seq<byte>, k: nat) {
    && InBuffer(buf, k) && (forall j: nat {:trigger Going(buf, j)} :: j <= k ==> Going(buf, j))
    && !Skipped(Rec(buf, k))
  }

  /** A record of a long name that the walk meets. */
  ghost predicate LongAt(buf: seq<byte>, k: nat) {
    && InBuffer(buf, k) && (forall j: nat {:trigger Going(buf, j)} :: j <= k ==> Going(buf, j))
    && Rec(buf, k)[0] != 229 && Rec(buf, k)[11] == 15
  }

  /** The first entry of its kind with a name. */
  ghost predicate FirstMatch(buf: seq<byte>, dir: bool, name: seq<int>, k: nat) {
    && Match(buf, dir, name, k)
    && forall j: nat {:trigger Match(buf, dir, name, j)} :: j < k ==> !Match(buf, dir, name, j)
  }

  ghost predicate Match(buf: seq<byte>, dir: bool, name: seq<int>, k: nat) {
    Live(buf, k) && IsDir(Rec(buf, k)) == dir && SameName(Text(Rec(buf, k)), name)
  }

  lemma {:induction false} OneFirstMatch(buf: seq<byte>, dir: bool, name: seq<int>, j: nat, k: nat)
    requires FirstMatch(buf, dir, name, j) && FirstMatch(buf, dir, name, k)
    ensures j == k
  {
  }

  datatype DirEntry = DirEntry(name: seq<int>, dir: bool, first: nat, size: nat, short: seq<byte>, slot: nat)

  function EntryOf(rec: seq<byte>, k: nat): DirEntry
    requires |rec| == 32
  {
    DirEntry(Text(rec), IsDir(rec), FirstCluster(rec), Size(rec), rec[..11], k)
  }

  ghost predicate EntriesBelow(buf: seq<byte>, n: nat, es: seq<DirEntry>) {
    && (forall i :: 0 <= i < |es| ==>
         Live(buf, es[i].slot) && es[i].slot < n && es[i] == EntryOf(Rec(buf, es[i].slot), es[i].slot))
    && (forall i, j :: 0 <= i < j < |es| ==> es[i].slot < es[j].slot)
    && (forall k: nat {:trigger Live(buf, k)} :: k < n && Live(buf, k) ==> exists i :: 0 <= i < |es| && es[i].slot == k)
  }

  /** The entries of a directory: all of them, in order. */
  ghost predicate Entries(buf: seq<byte>, es: seq<DirEntry>) {
    EntriesBelow(buf, |buf| / 32 + 1, es)
  }

  /** Walk the records up to the end mark. */
  method ParseDirEntries(buf: seq<byte>) returns (es: seq<DirEntry>)
    ensures Entries(buf, es)
  {
    es := [];
    var k := 0;
    while 32 * k + 32 <= |buf|
      invariant 32 * k <= |buf| + 32 && EntriesBelow(buf, k, es)
      invariant forall j: nat {:trigger Going(buf, j)} :: j < k ==> Going(buf, j)
    {
      var rec := Rec(buf, k);
      if rec[0] == 0 {
        EndReached(buf, k, es);
        return;
      }
      NextEntry(buf, k, es);
      if !Skipped(rec) {
        es := es + [EntryOf(rec, k)];
      }
      k := k + 1;
    }
    NoMore(buf, k, es);
  }

  lemma {:induction false} NextEntry(buf: seq<byte>, k: nat, es: seq<DirEntry>)
    requires InBuffer(buf, k) && EntriesBelow(buf, k, es)
    requires forall j: nat {:trigger Going(buf, j)} :: j <= k ==> Going(buf, j)
    ensures EntriesBelow(buf, k + 1, if Skipped(Rec(buf, k)) then es else es + [EntryOf(Rec(buf, k), k)])
  {
    hide Rec, EntryOf, Skipped, InBuffer;
    assert Going(buf, k);
    var e := EntryOf(Rec(buf, k), k);
    var es' := if Skipped(Rec(buf, k)) then es else es + [e];
    assert Live(buf, k) <==> !Skipped(Rec(buf, k));
    assert e.slot == k by {
      SlotOf(Rec(buf, k), k);
    }
    forall m: nat {:trigger Live(buf, m)} | m < k + 1 && Live(buf, m)
      ensures exists i :: 0 <= i < |es'| && es'[i].slot == m
    {
      if m < k {
        var i :| 0 <= i < |es| && es[i].slot == m;
        assert es'[i].slot == m;
      } else {
        assert es'[|es'| - 1].slot == m;
      }
    }
  }

  lemma {:induction false} SlotOf(rec: seq<byte>, k: nat)
    requires |rec| == 32
    ensures EntryOf(rec, k).slot == k
  {
  }

  lemma {:induction false} EndReached(buf: seq<byte>, k: nat, es: seq<DirEntry>)
    requires InBuffer(buf, k) && EntriesBelow(buf, k, es) && Rec(buf, k)[0] == 0
    ensures Entries(buf, es)
  {
    forall m: nat {:trigger Live(buf, m)} | Live(buf, m) ensures m < k {
      assert !Going(buf, k);
    }
  }

  lemma {:induction false} NoMore(buf: seq<byte>, k: nat, es: seq<DirEntry>)
    requires 32 * k + 32 > |buf| && 32 * k <= |buf| + 32 && EntriesBelow(buf, k, es)
    ensures Entries(buf, es)
  {
  }

  /** The first entry of a kind with a name, in the walk's order. */
  method FindEntry(es: seq<DirEntry>, dir: bool, name: seq<int>, ghost buf: seq<byte>) returns (r: Option<DirEntry>)
    requires Entries(buf, es)
    ensures r.Some? ==>
              FirstMatch(buf, dir, name, r.value.slot) && Live(buf, r.value.slot)
              && r.value == EntryOf(Rec(buf, r.value.slot), r.value.slot) && r.value in es
    ensures r.None? ==> forall k: nat :: !Match(buf, dir, name, k)
  {
    var i := 0;
    while i < |es|
      invariant i <= |es| && forall j :: 0 <= j < i ==> !(es[j].dir == dir && SameName(es[j].name, name))
    {
      if es[i].dir == dir && SameName(es[i].name, name) {
        FoundFirst(es, dir, name, buf, i);
        return Some(es[i]);
      }
      i := i + 1;
    }
    FoundNone(es, dir, name, buf);
    return None;
  }

  lemma {:induction false} FoundNone(es: seq<DirEntry>, dir: bool, name: seq<int>, buf: seq<byte>)
    requires Entries(buf, es) && forall j :: 0 <= j < |es| ==> !(es[j].dir == dir && SameName(es[j].name, name))
    ensures forall k: nat :: !Match(buf, dir, name, k)
  {
    hide SameName, Text, IsDir, Skipped, Rec, FirstCluster, Size;
    forall k: nat ensures !Match(buf, dir, name, k) {
      if Live(buf, k) {
        LiveInRange(buf, k);
        var i :| 0 <= i < |es| && es[i].slot == k;
        assert es[i] == EntryOf(Rec(buf, k), k);
      }
    }
  }

  lemma {:induction false} LiveInRange(buf: seq<byte>, k: nat)
    requires Live(buf, k)
    ensures k < |buf| / 32 + 1
  {
  }

  lemma {:induction false} FoundFirst(es: seq<DirEntry>, dir: bool, name: seq<int>, buf: seq<byte>, i: nat)
    requires Entries(buf, es) && i < |es| && es[i].dir == dir && SameName(es[i].name, name)
    requires forall j :: 0 <= j < i ==> !(es[j].dir == dir && SameName(es[j].name, name))
    ensures FirstMatch(buf, dir, name, es[i].slot)
  {
    hide SameName, Text, IsDir, Skipped, Rec, FirstCluster, Size;
    assert es[i] == EntryOf(Rec(buf, es[i].slot), es[i].slot);
    forall k: nat {:trigger Match(buf, dir, name, k)} | k < es[i].slot ensures !Match(buf, dir, name, k) {
      if Live(buf, k) {
        LiveInRange(buf, k);
        var j :| 0 <= j < |es| && es[j].slot == k;
        assert es[j] == EntryOf(Rec(buf, k), k);
        assert j < i;
      }
    }
  }

  // ---- what changing one record does ----

  /** Record `k` is now a live file named `name`, where it was that or no entry; all others are as before. */
  ghost predicate OneChanged(buf: seq<byte>, buf': seq<byte>, k: nat, name: seq<int>) {
    && Live(buf', k) && !IsDir(Rec(buf', k)) && SameName(Text(Rec(buf', k)), name)
    && (Live(buf, k) ==> !IsDir(Rec(buf, k)) && SameName(Text(Rec(buf, k)), name))
    && (forall j: nat {:trigger Live(buf', j)} {:trigger Live(buf, j)} :: j != k ==> (Live(buf', j) <==> Live(buf, j)))
    && (forall j: nat {:trigger Rec(buf', j)} :: j != k && Live(buf', j) ==>
         Live(buf, j) && Rec(buf', j) == Rec(buf, j))
    && (forall j: nat {:trigger LongAt(buf', j)} :: LongAt(buf', j) ==> LongAt(buf, j))
  }

  /** Every other name still finds what it found. */
  lemma {:induction false} OthersFound(buf: seq<byte>, buf': seq<byte>, k: nat, name: seq<int>, dir: bool,
                                       other: seq<int>, j: nat)
    requires OneChanged(buf, buf', k, name) && (dir || !SameName(other, name))
    ensures Match(buf', dir, other, j) <==> Match(buf, dir, other, j)
    ensures Match(buf, dir, other, j) ==> j != k && Rec(buf', j) == Rec(buf, j)
  {
    hide Text, Skipped, FirstCluster, Size, Rec, IsDir, Lowered;
  }

  lemma {:induction false} OthersFirst(buf: seq<byte>, buf': seq<byte>, k: nat, name: seq<int>, dir: bool,
                                       other: seq<int>, j: nat)
    requires OneChanged(buf, buf', k, name) && (dir || !SameName(other, name))
    ensures FirstMatch(buf', dir, other, j) <==> FirstMatch(buf, dir, other, j)
  {
    hide Match;
    forall i: nat ensures Match(buf', dir, other, i) <==> Match(buf, dir, other, i) {
      OthersFound(buf, buf', k, name, dir, other, i);
    }
  }

  /** And the name itself finds the record. */
  lemma {:induction false} ItselfFound(buf: seq<byte>, buf': seq<byte>, k: nat, name: seq<int>)
    requires OneChanged(buf, buf', k, name)
    requires FirstMatch(buf, false, name, k) || forall j: nat :: !Match(buf, false, name, j)
    ensures FirstMatch(buf', false, name, k)
  {
    hide Text, Skipped, FirstCluster, Size, Rec, IsDir, Lowered;
    forall j: nat {:trigger Match(buf', false, name, j)} | j < k ensures !Match(buf', false, name, j) {
      assert !Match(buf, false, name, j);
    }
  }

  /** Setting the fields of a live file's record. */
  lemma {:induction false} FieldsChanged(buf: seq<byte>, k: nat, first: nat, size: nat, name: seq<int>)
    requires Match(buf, false, name, k) && first < 0x1_0000_0000 && size < 0x1_0000_0000
    ensures OneChanged(buf, WithRec(buf, k, WithFields(Rec(buf, k), first, size)), k, name)
  {
    var rec := WithFields(Rec(buf, k), first, size);
    var now := WithRec(buf, k, rec);
    FieldsReadBack(Rec(buf, k), first, size);
    assert rec[0] == rec[..20][0] == Rec(buf, k)[0] && rec[11] == rec[..20][11] == Rec(buf, k)[11];
    assert Going(buf, k);
    SameMarks(buf, k, rec);
  }

  lemma {:induction false} SameMarks(buf: seq<byte>, k: nat, rec: seq<byte>)
    requires InBuffer(buf, k) && |rec| == 32 && Rec(buf, k)[0] != 0 && rec[0] != 0
    ensures var now := WithRec(buf, k, rec);
      (forall j: nat {:trigger Live(now, j)} {:trigger Live(buf, j)} :: j != k ==> (Live(now, j) <==> Live(buf, j)))
    ensures var now := WithRec(buf, k, rec);
      (Live(now, k) <==> !Skipped(rec) && forall j: nat {:trigger Going(buf, j)} :: j <= k ==> Going(buf, j))
    ensures var now := WithRec(buf, k, rec); InBuffer(now, k) && Rec(now, k) == rec
    ensures var now := WithRec(buf, k, rec);
      forall j: nat {:trigger Rec(now, j)} :: j != k && InBuffer(buf, j) ==>
          InBuffer(now, j) && Rec(now, j) == Rec(buf, j)
    ensures var now := WithRec(buf, k, rec);
      rec[11] != 15 ==> forall j: nat {:trigger LongAt(now, j)} :: LongAt(now, j) ==> LongAt(buf, j)
  {
    var now := WithRec(buf, k, rec);
    RecAfter(buf, k, rec, k);
    forall j: nat {:trigger Rec(now, j)} {:trigger Rec(buf, j)} | InBuffer(buf, j)
      ensures InBuffer(now, j) && Rec(now, j) == if j == k then rec else Rec(buf, j)
    {
      RecAfter(buf, k, rec, j);
    }
    assert forall j: nat :: InBuffer(buf, j) <==> InBuffer(now, j);
    assert forall j: nat {:trigger Going(buf, j)} {:trigger Going(now, j)} :: Going(now, j) <==> Going(buf, j);
    hide Rec, WithRec, Skipped, InBuffer, Going;
  }

  /** A slot for a new entry: deleted, or the end mark with, if there is a next record, a new end mark in it. */
  ghost predicate FreeSlot(buf: seq<byte>, k: nat) {
    && InBuffer(buf, k) && (forall j: nat {:trigger Going(buf, j)} :: j < k ==> Going(buf, j))
    && (Rec(buf, k)[0] == 229 || (Rec(buf, k)[0] == 0 && (InBuffer(buf, k + 1) ==> Rec(buf, k + 1)[0] == 0)))
  }

  lemma {:induction false} SlotFilled(buf: seq<byte>, k: nat, rec: seq<byte>, name: seq<int>)
    requires FreeSlot(buf, k) && |rec| == 32 && rec[0] != 0 && !Skipped(rec) && !IsDir(rec) && SameName(Text(rec), name)
    ensures OneChanged(buf, WithRec(buf, k, rec), k, name)
  {
    var now := WithRec(buf, k, rec);
    if Rec(buf, k)[0] == 229 {
      SameMarks(buf, k, rec);
    } else {
      EndMoved(buf, k, rec);
    }
  }

  lemma {:induction false} EndMoved(buf: seq<byte>, k: nat, rec: seq<byte>)
    requires FreeSlot(buf, k) && Rec(buf, k)[0] == 0 && |rec| == 32 && rec[0] != 0 && !Skipped(rec)
    ensures var now := WithRec(buf, k, rec);
      (forall j: nat {:trigger Live(now, j)} {:trigger Live(buf, j)} :: j != k ==> (Live(now, j) <==> Live(buf, j)))
    ensures var now := WithRec(buf, k, rec); !Live(buf, k) && Live(now, k) && InBuffer(now, k) && Rec(now, k) == rec
    ensures var now := WithRec(buf, k, rec);
      forall j: nat {:trigger Rec(now, j)} :: j != k && InBuffer(buf, j) ==>
          InBuffer(now, j) && Rec(now, j) == Rec(buf, j)
    ensures var now := WithRec(buf, k, rec);
      forall j: nat {:trigger LongAt(now, j)} :: LongAt(now, j) ==> LongAt(buf, j)
  {
    var now := WithRec(buf, k, rec);
    RecAfter(buf, k, rec, k);
    forall j: nat {:trigger Rec(now, j)} {:trigger Rec(buf, j)} | InBuffer(buf, j)
      ensures InBuffer(now, j) && Rec(now, j) == if j == k then rec else Rec(buf, j)
    {
      RecAfter(buf, k, rec, j);
    }
    assert forall j: nat :: InBuffer(buf, j) <==> InBuffer(now, j);
    assert forall j: nat :: j > k && InBuffer(buf, j) ==> InBuffer(buf, k + 1);
    assert forall j: nat {:trigger Going(buf, j)} {:trigger Going(now, j)} :: j != k ==>
        (Going(now, j) <==> Going(buf, j));
    assert !Going(buf, k) && Going(now, k) && !Going(now, k + 1) && rec[11] != 15;
    hide Rec, WithRec, Skipped, InBuffer, Going;
    forall j: nat {:trigger Live(now, j)} {:trigger Live(buf, j)} | j != k ensures Live(now, j) <==> Live(buf, j) {
      if j > k {
        assert !Live(buf, j) && !Live(now, j);
      }
    }
    forall j: nat {:trigger LongAt(now, j)} | LongAt(now, j) ensures LongAt(buf, j) {
      assert j <= k;
    }
  }

  // ---- room for one more ----

  /** Another buffer with the same entries in the same places. */
  ghost predicate SameEntries(buf: seq<byte>, buf': seq<byte>) {
    && (forall j: nat {:trigger Live(buf', j)} {:trigger Live(buf, j)} :: Live(buf', j) <==> Live(buf, j))
    && (forall j: nat {:trigger Rec(buf', j)} :: Live(buf', j) ==> Rec(buf', j) == Rec(buf, j))
    && (forall j: nat {:trigger LongAt(buf', j)} :: LongAt(buf', j) ==> LongAt(buf, j))
  }

  lemma {:induction false} ChangedAfterSame(buf: seq<byte>, buf1: seq<byte>, buf2: seq<byte>, k: nat, name: seq<int>)
    requires SameEntries(buf, buf1) && OneChanged(buf1, buf2, k, name)
    ensures OneChanged(buf, buf2, k, name)
  {
    hide Text, Skipped, Rec, IsDir, Lowered, InBuffer, Going;
    assert Live(buf, k) <==> Live(buf1, k);
    assert Live(buf1, k) ==> Rec(buf1, k) == Rec(buf, k);
  }

  /** Moving the end mark one record on shows no entry and hides none. */
  lemma {:induction false} EndCleared(buf: seq<byte>, k: nat)
    requires InBuffer(buf, k + 1) && Rec(buf, k)[0] == 0 && forall j: nat {:trigger Going(buf, j)} :: j < k ==>
               Going(buf, j)
    ensures SameEntries(buf, WithRec(buf, k + 1, Zeros(32))) && FreeSlot(WithRec(buf, k + 1, Zeros(32)), k)
  {
    var now := WithRec(buf, k + 1, Zeros(32));
    forall j: nat {:trigger Rec(now, j)} {:trigger Rec(buf, j)} | InBuffer(buf, j)
      ensures InBuffer(now, j) && Rec(now, j) == if j == k + 1 then Zeros(32) else Rec(buf, j)
    {
      RecAfter(buf, k + 1, Zeros(32), j);
    }
    assert forall j: nat :: InBuffer(buf, j) <==> InBuffer(now, j);
    assert forall j: nat {:trigger Going(now, j)} :: j < k ==> Going(buf, j) && Going(now, j);
    assert !Going(buf, k) && !Going(now, k);
    hide Rec, WithRec, Skipped, InBuffer, Going;
    forall j: nat {:trigger Live(now, j)} {:trigger Live(buf, j)} | true
      ensures (Live(now, j) <==> Live(buf, j)) && (Live(now, j) ==> j < k)
    {
      if j >= k {
        assert !Live(now, j) && !Live(buf, j);
      }
    }
  }

  /** A directory with no end mark, given another cluster of zeros. */
  lemma {:induction false} ZerosAdded(buf: seq<byte>, n: nat, extra: nat)
    requires |buf| == 32 * n && extra >= 64 && forall j: nat {:trigger Going(buf, j)} :: j < n ==> Going(buf, j)
    ensures SameEntries(buf, buf + Zeros(extra)) && FreeSlot(buf + Zeros(extra), n)
  {
    var now := buf + Zeros(extra);
    forall j: nat {:trigger Rec(now, j)} {:trigger Rec(buf, j)} | InBuffer(buf, j)
      ensures InBuffer(now, j) && Rec(now, j) == Rec(buf, j)
    {
      assert now[32 * j..32 * j + 32] == buf[32 * j..32 * j + 32];
    }
    assert Rec(now, n)[0] == 0 && Rec(now, n + 1)[0] == 0;
    assert forall j: nat :: InBuffer(buf, j) <==> j < n;
    assert forall j: nat {:trigger Going(now, j)} :: j < n ==> Going(buf, j) && Going(now, j);
    assert !Going(now, n);
    hide Rec, Skipped, Going;
    forall j: nat {:trigger Live(now, j)} {:trigger Live(buf, j)} | true
      ensures (Live(now, j) <==> Live(buf, j)) && (Live(now, j) ==> j < n)
    {
      if j >= n {
        assert !Live(now, j) && !Live(buf, j);
      }
    }
  }

  /** The new record of a plain name: no mark that means anything else, and it reads as the name. */
  lemma {:induction false} NewFileReads(name: seq<int>, short: seq<byte>, first: nat, size: nat)
    requires Plain(name) && short == Candidate(name, 0) && first < 0x1_0000_0000 && size < 0x1_0000_0000
    ensures var r := NewFile(short, first, size);
      r[0] != 0 && !Skipped(r) && !IsDir(r) && SameName(Text(r), name) && FirstCluster(r) == first && Size(r) == size
  {
    hide Plain, Candidate, ShortNameText, FirstCluster, Size, Lowered, NewFile;
    NewFileParts(short, first, size);
    PlainReadsBack(name, 0);
    PlainFirst(name);
  }

  lemma {:induction false} NewFileParts(short: seq<byte>, first: nat, size: nat)
    requires |short| == 11 && first < 0x1_0000_0000 && size < 0x1_0000_0000
    ensures var r := NewFile(short, first, size); r[0] == short[0] && r[11] == 32 && r[..11] == short && r[12] == 0
    ensures var r := NewFile(short, first, size); FirstCluster(r) == first && Size(r) == size
  {
    var base := short + [32] + Zeros(20);
    FieldsReadBack(base, first, size);
    hide ShortNameText, FirstCluster, Size, WithFields;
    var r := NewFile(short, first, size);
    assert r[..20] == base[..20];
    assert r[0] == r[..20][0] == base[..20][0] == short[0];
    assert r[11] == r[..20][11] == base[..20][11] == 32;
    assert r[12] == r[..20][12] == base[..20][12] == 0;
    assert r[..11] == r[..20][..11] == base[..20][..11] == short;
  }

  /** No entry holds a plain name's short form unless it has the name. */
  lemma {:induction false} NotTaken(buf: seq<byte>, es: seq<DirEntry>, name: seq<int>, i: nat)
    requires Entries(buf, es) && Plain(name) && i < |es|
    requires forall k: nat, dir :: !Match(buf, dir, name, k)
    ensures es[i].short != Candidate(name, 0)
  {
    hide FirstCluster, Size, Rec, Plain, Candidate, ShortNameText, Lowered, Skipped;
    var k := es[i].slot;
    var rec := Rec(buf, k);
    assert es[i] == EntryOf(rec, k);
    assert !Match(buf, IsDir(rec), name, k);
    if rec[..11] == Candidate(name, 0) {
      PlainReadsBack(name, rec[12]);
    }
  }
}
