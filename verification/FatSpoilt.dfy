/**
 A volume of 512-byte clusters with one small file: writing 262145 clusters over the file is refused, and
 the file then reads as the first byte of them.
 */
module FatSpoilt {
  import opened Results
  import opened Bytes
  import opened FatChains
  import opened FatTable
  import opened FatNames
  import opened FatDirs
  import opened FatTree
  import opened Fat32
  import opened FatFull

  function OneRecord(): (rec: seq<byte>)
    ensures |rec| == 32
  {
    NewFile([65] + Blanks(10), 3, 1)
  }

  lemma {:induction false} OneRecordParts()
    ensures var rec := OneRecord(); rec[0] != 0 && rec[0] != 229 && !Skipped(rec) && !IsDir(rec) && rec[11] == 32
    ensures var rec := OneRecord(); FirstCluster(rec) == 3 && Size(rec) == 1 && Text(rec) == [65]
  {
    hide FirstCluster, Size, NewFile, TrimEnd, Blanks;
    var short := [65] + Blanks(10);
    NewFileParts(short, 3, 1);
    TrimPadded([65], 7);
    TrimPadded([], 3);
    assert short[..8] == [65] + Spaces(7);
    assert short[8..] == [] + Spaces(3);
  }

  function SmallRoot(): (buf: seq<byte>)
    ensures |buf| == 512
  {
    OneRecord() + Zeros(480)
  }

  function SmallFat(): (fat: seq<int>)
    ensures |fat| == 262200
  {
    seq(262200, c => if c == 2 || c == 3 then 268435455 else 0)
  }

  function SmallCluster(c: int): (chunk: seq<byte>)
    ensures |chunk| == 512
  {
    if c == 2 then SmallRoot() else Zeros(512)
  }

  function SmallData(): (data: seq<seq<byte>>)
    ensures |data| == 262200 && forall c :: 0 <= c < 262200 ==> data[c] == SmallCluster(c)
  {
    seq(262200, c => SmallCluster(c))
  }

  function SmallVolume(): Snapshot {
    Snapshot(SmallFat(), SmallData(), map[2 := [2], 3 := [3]], {2}, 512)
  }

  lemma {:induction false} SmallChains()
    ensures IsChain(SmallFat(), [2]) && IsChain(SmallFat(), [3]) && Sized(SmallData(), 512)
  {
    hide SmallCluster;
  }

  lemma {:induction false} SmallSound()
    ensures SoundVolume(SmallVolume()) && BufferOf(SmallVolume(), 2) == SmallRoot() && Readable(SmallVolume(), 2)
    ensures Held(SmallVolume(), 3) == Zeros(512)
  {
    SmallChains();
    assert SmallCluster(2) == SmallRoot() && SmallCluster(3) == Zeros(512);
    assert SmallData()[2] == SmallCluster(2) && SmallData()[3] == SmallCluster(3);
    hide SmallRoot, SmallCluster, SmallFat, SmallData, IsChain, Contents, Sized;
    OneCluster(SmallData(), 2);
    OneCluster(SmallData(), 3);
  }

  lemma {:induction false} OneCluster(data: seq<seq<byte>>, c: nat)
    requires c < |data|
    ensures Contents(data, [c]) == data[c]
  {
    assert [c][..0] == [];
    assert Contents(data, []) + data[c] == data[c];
  }

  lemma {:induction false} SmallRecords()
    ensures forall k: nat {:trigger Live(SmallRoot(), k)} :: Live(SmallRoot(), k) <==> k == 0
    ensures forall k: nat {:trigger LongAt(SmallRoot(), k)} :: !LongAt(SmallRoot(), k)
    ensures InBuffer(SmallRoot(), 0) && Rec(SmallRoot(), 0) == OneRecord()
  {
    OneRecordParts();
    hide OneRecord, Skipped;
    var buf := SmallRoot();
    assert Rec(buf, 0) == OneRecord();
    assert Rec(buf, 1)[0] == buf[32] == 0;
    assert Going(buf, 0) && !Going(buf, 1);
    hide SmallRoot, Rec, Going;
  }

  lemma {:induction false} SmallTree()
    ensures Tree(SmallVolume())
  {
    SmallSound();
    SmallRecords();
    OneRecordParts();
    hide SmallRoot, OneRecord, Rec, SoundVolume, Live, LongAt, BufferOf, Skipped, FirstCluster, Size, IsDir, SmallFat,
         SmallData;
  }

  ghost function Range(lo: int, hi: int): (s: set<int>)
    requires lo <= hi
    ensures |s| == hi - lo && forall x :: x in s <==> lo <= x < hi
    decreases hi - lo
  {
    if lo == hi then {} else Range(lo, hi - 1) + {hi - 1}
  }

  lemma {:induction false} SmallFree()
    ensures |FreeSet(SmallFat())| == 262196
  {
    hide Range;
    assert FreeSet(SmallFat()) == Range(4, 262200);
  }

  /** Refused, and yet the file has lost what it held. */
  lemma {:induction false} RefusedAndSpoilt(bytes: seq<byte>)
    requires |bytes| == 134218240
    ensures Tree(SmallVolume()) && Read(SmallVolume(), 2, [65]) == Some([0])
    ensures !RoomFor(SmallVolume(), 2, [65], |bytes|) && Spoils(SmallVolume(), 2, [65], |bytes|)
    ensures Spoilt(SmallVolume(), 2, [65], bytes) == [bytes[0]]
  {
    SmallTree();
    SmallSound();
    SmallRecords();
    SmallFree();
    OneRecordParts();
    var s := SmallVolume();
    assert ClustersFor(134218240, 512) == 262145;
    hide SmallRoot, OneRecord, Rec, Live, LongAt, BufferOf, Skipped, FirstCluster, Size, IsDir, SmallFat, SmallData,
         Tree, FreeSet, Lowered, Text;
    assert Named(s, 2, false, [65], 0);
    OwnClustersIs(s, 2, [65], 0);
    ReadIs(s, 2, [65], 0);
    SpoiltIs(s, 2, [65], 0, bytes);
    OneByte(s);
  }

  lemma {:induction false} OneByte(s: Snapshot)
    requires s == SmallVolume() && SoundVolume(s) && Held(s, 3) == Zeros(512)
    ensures GoodEntry(s, OneRecord()) && EntryBytes(s, OneRecord()) == [0]
  {
    OneRecordParts();
    hide OneRecord, FirstCluster, Size, IsDir;
    ChainInData(s, 3);
  }
}
