/**
 A directory as large as the driver reads, every record of it a file: the next new file makes it
 unreadable.
 */
module FatFull {
  import opened Bytes
  import opened FatChains
  import opened FatTable
  import opened FatNames
  import opened FatDirs
  import opened FatTree
  import opened Fat32

  /** Four letters that tell the record's number. */
  function Letters(k: nat): (s: seq<byte>)
    ensures |s| == 4 && forall i :: 0 <= i < 4 ==> 65 <= s[i] <= 80
  {
    [65 + k / 4096 % 16, 65 + k / 256 % 16, 65 + k / 16 % 16, 65 + k % 16]
  }

  function Blanks(n: nat): (s: seq<byte>)
    ensures |s| == n && s == Spaces(n)
  {
    seq(n, _ => 32)
  }

  /** The record of an empty file. */
  function Record(k: nat): (rec: seq<byte>)
    ensures |rec| == 32
  {
    NewFile(Letters(k) + Blanks(7), 0, 0)
  }

  lemma {:induction false} RecordParts(k: nat)
    ensures var rec := Record(k); rec[0] != 0 && rec[0] != 229 && !Skipped(rec) && !IsDir(rec) && rec[11] == 32
    ensures var rec := Record(k);
              FirstCluster(rec) == 0 && Size(rec) == 0 && rec[..11] == Letters(k) + Blanks(7) && Text(rec) == Letters(k)
  {
    hide FirstCluster, Size, NewFile, Letters, TrimEnd, Blanks;
    var short := Letters(k) + Blanks(7);
    NewFileParts(short, 0, 0);
    assert short[0] == Letters(k)[0];
    TrimPadded(Letters(k), 4);
    TrimPadded([], 3);
    assert short[..8] == Letters(k) + Spaces(4);
    assert short[8..] == [] + Spaces(3);
  }

  /** No two records have the same name. */
  lemma {:induction false} RecordsDiffer(j: nat, k: nat)
    requires j < k < 65536
    ensures !SameName(Text(Record(j)), Text(Record(k)))
  {
    RecordParts(j);
    RecordParts(k);
    hide Record, Text;
    var a, b := Letters(j), Letters(k);
    if Lowered(a) == Lowered(b) {
      assert forall i :: 0 <= i < 4 ==> Lowered(a)[i] == a[i] + 32 && Lowered(b)[i] == b[i] + 32;
      assert a[0] == b[0] && a[1] == b[1] && a[2] == b[2] && a[3] == b[3];
      SixteenFold(j);
      SixteenFold(k);
    }
  }

  lemma {:induction false} SixteenFold(k: nat)
    requires k < 65536
    ensures k == 4096 * (k / 4096 % 16) + 256 * (k / 256 % 16) + 16 * (k / 16 % 16) + k % 16
  {
  }

  function FullBuffer(): (buf: seq<byte>)
    ensures |buf| == 2097152
  {
    seq(2097152, p requires 0 <= p => Record(p / 32)[p % 32])
  }

  lemma {:induction false} FullRecord(k: nat)
    requires k < 65536
    ensures InBuffer(FullBuffer(), k) && Rec(FullBuffer(), k) == Record(k)
  {
    hide Record;
    var rec := FullBuffer()[32 * k..32 * k + 32];
    forall i | 0 <= i < 32 ensures rec[i] == Record(k)[i] {
      assert (32 * k + i) / 32 == k && (32 * k + i) % 32 == i;
    }
  }

  // ---- the volume: 32 clusters of 64 KiB, one more free ----

  function FullChain(): (ch: seq<int>)
    ensures |ch| == 32
  {
    seq(32, i => i + 2)
  }

  function FullFat(): (fat: seq<int>)
    ensures |fat| == 35
  {
    seq(35, c => if 2 <= c < 33 then c + 1 else if c == 33 then 268435455 else 0)
  }

  function FullCluster(c: int): (chunk: seq<byte>)
    ensures |chunk| == 65536
  {
    if 2 <= c < 34 then FullBuffer()[65536 * (c - 2)..65536 * (c - 2) + 65536] else Zeros(65536)
  }

  function FullData(): (data: seq<seq<byte>>)
    ensures |data| == 35 && forall c :: 0 <= c < 35 ==> data[c] == FullCluster(c)
  {
    seq(35, c => FullCluster(c))
  }

  function FullVolume(): Snapshot {
    Snapshot(FullFat(), FullData(), map[2 := FullChain()], {2}, 65536)
  }

  lemma {:induction false} FullContents(i: nat)
    requires i <= 32
    ensures InData(FullData(), FullChain()) && Contents(FullData(), FullChain()[..i]) == FullBuffer()[..65536 * i]
  {
    assert InData(FullData(), FullChain());
    hide FullBuffer, FullData;
    if i > 0 {
      FullContents(i - 1);
      ContentsStep(FullData(), FullChain(), i - 1);
      assert FullData()[i + 1] == FullCluster(i + 1);
      hide Contents;
      SliceJoin(FullBuffer(), 65536 * (i - 1), 65536 * i);
    }
  }

  lemma {:induction false} SliceJoin(buf: seq<byte>, lo: nat, hi: nat)
    requires lo <= hi <= |buf|
    ensures buf[..lo] + buf[lo..hi] == buf[..hi]
  {
  }

  lemma {:induction false} FullSound()
    ensures SoundVolume(FullVolume()) && BufferOf(FullVolume(), 2) == FullBuffer() && Readable(FullVolume(), 2)
    ensures FreeSet(FullFat()) == {34}
  {
    hide FullBuffer, FullData;
    var fat, ch := FullFat(), FullChain();
    assert IsChain(fat, ch);
    FullContents(32);
    assert ch[..32] == ch;
  }

  /** No two entries have the same name. */
  ghost predicate NamesDiffer(buf: seq<byte>) {
    forall j: nat, k: nat {:trigger Live(buf, j), Live(buf, k)} :: j < k && Live(buf, j) && Live(buf, k) ==>
      !SameName(Text(Rec(buf, j)), Text(Rec(buf, k)))
  }

  lemma {:induction false} FullNames()
    ensures NamesDiffer(FullBuffer())
  {
    FullRecords();
    hide FullBuffer, Record, Rec, Text, Live, Lowered, Letters;
    forall j: nat, k: nat {:trigger Live(FullBuffer(), j), Live(FullBuffer(), k)} | j < k && Live(FullBuffer(), j)
        && Live(FullBuffer(), k)
      ensures InBuffer(FullBuffer(), j) && InBuffer(FullBuffer(), k)
      ensures !SameName(Text(Rec(FullBuffer(), j)), Text(Rec(FullBuffer(), k)))
    {
      FullRecord(j);
      FullRecord(k);
      RecordsDiffer(j, k);
    }
  }

  /** The directory is readable and full of files with different names, a file may still be made in it
      under any other name, and none of its files can be read after that. */
  lemma {:induction false} FullDirectory(name: seq<int>)
    ensures Tree(FullVolume()) && Readable(FullVolume(), 2)
    ensures forall k: nat {:trigger Live(BufferOf(FullVolume(), 2), k)} :: k < 65536 ==>
              Live(BufferOf(FullVolume(), 2), k)
    ensures NamesDiffer(BufferOf(FullVolume(), 2))
    ensures |name| != 4 ==> forall k: nat :: !Match(BufferOf(FullVolume(), 2), false, name, k)
    ensures (forall k: nat :: !Match(BufferOf(FullVolume(), 2), false, name, k)) ==>
              RoomFor(FullVolume(), 2, name, 0) && Outgrows(FullVolume(), 2, name)
  {
    FullTree();
    FullSound();
    FullRecords();
    FullNames();
    if |name| != 4 {
      OtherLength(name);
    }
    if forall k: nat :: !Match(BufferOf(FullVolume(), 2), false, name, k) {
      NoOwnClusters(FullVolume(), 2, name);
      hide Tree, Match, BufferOf, FullBuffer;
      NoSlot();
      ClustersHold(0, 65536);
    }
  }

  lemma {:induction false} FullRecords()
    ensures forall k: nat {:trigger Live(FullBuffer(), k)} :: Live(FullBuffer(), k) <==> k < 65536
    ensures forall k: nat {:trigger LongAt(FullBuffer(), k)} :: !LongAt(FullBuffer(), k)
  {
    hide FullBuffer, Record, Skipped, Rec;
    forall k: nat | k < 65536
      ensures Going(FullBuffer(), k) && !Skipped(Rec(FullBuffer(), k)) && Rec(FullBuffer(), k)[11] == 32
    {
      FullRecord(k);
      RecordParts(k);
    }
    assert forall k: nat :: k >= 65536 ==> !InBuffer(FullBuffer(), k);
  }

  lemma {:induction false} OtherLength(name: seq<int>)
    requires |name| != 4
    ensures forall k: nat :: !Match(FullBuffer(), false, name, k)
  {
    FullRecords();
    forall k: nat ensures !Match(FullBuffer(), false, name, k) {
      if k < 65536 {
        FullRecord(k);
        RecordParts(k);
        hide FullBuffer, Record, Rec, Text, Live;
        assert |Lowered(Text(Record(k)))| == 4;
      }
    }
  }

  lemma {:induction false} NoSlot()
    ensures !HasSlot(FullBuffer())
  {
    hide FullBuffer, Record, Rec;
    forall k: nat ensures !SlotAt(FullBuffer(), k) {
      if k < 65536 {
        FullRecord(k);
        RecordParts(k);
      }
    }
  }

  lemma {:induction false} FullTree()
    ensures Tree(FullVolume())
  {
    FullSound();
    FullRecords();
    hide FullBuffer, Record, Rec, FullVolume, SoundVolume, Live, LongAt, BufferOf, Skipped, FirstCluster, Size, IsDir;
    var s := FullVolume();
    assert s.dirs == {2} by {
      FullDirs();
    }
    forall d, k: nat {:trigger Live(BufferOf(s, d), k)} | d in s.dirs && Live(BufferOf(s, d), k)
      ensures GoodEntry(s, Rec(BufferOf(s, d), k)) && FirstCluster(Rec(BufferOf(s, d), k)) < 2
    {
      FullRecord(k);
      RecordParts(k);
    }
  }

  lemma {:induction false} FullDirs()
    ensures FullVolume().dirs == {2}
  {
  }
}
