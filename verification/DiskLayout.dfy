/**
 The on-disk layout of the data disk: path syntax, the superblock and directory entries.
 */
module DiskLayout {
  import opened Results
  import opened Bytes

  // ---- paths ----

  predicate Continuation(b: byte) {
    0x80 <= b <= 0xbf
  }

  /** Well-formed UTF-8, by the table of well-formed byte sequences of the Unicode Standard. */
  predicate Utf8(s: seq<byte>) {
    if s == [] then true
    else if s[0] < 0x80 then Utf8(s[1..])
    else if 0xc2 <= s[0] <= 0xdf then |s| >= 2 && Continuation(s[1]) && Utf8(s[2..])
    else if 0xe0 <= s[0] <= 0xef then
      && |s| >= 3 && Continuation(s[1]) && Continuation(s[2])
      && (s[0] == 0xe0 ==> s[1] >= 0xa0) && (s[0] == 0xed ==> s[1] <= 0x9f)
      && Utf8(s[3..])
    else if 0xf0 <= s[0] <= 0xf4 then
      && |s| >= 4 && Continuation(s[1]) && Continuation(s[2]) && Continuation(s[3])
      && (s[0] == 0xf0 ==> s[1] >= 0x90) && (s[0] == 0xf4 ==> s[1] <= 0x8f)
      && Utf8(s[4..])
    else false
  }

  /** The part of a path from `i` up to the next slash, and what follows it. */
  function PartEnd(path: seq<byte>, i: nat): (e: nat)
    requires i <= |path|
    ensures i <= e <= |path|
    decreases |path| - i
  {
    if i == |path| || path[i] == 47 then i else PartEnd(path, i + 1)
  }

  function CheckParts(path: seq<byte>, i: nat): Result<()>
    requires i <= |path|
    decreases |path| - i
  {
    var e := PartEnd(path, i);
    var part := path[i..e];
    if part == [] then Err("path has an empty component")
    else if part == [46] || part == [46, 46] then Err("path contains . or ..")
    else if e < |path| then CheckParts(path, e + 1)
    else Ok(())
  }

  function ValidatePath(path: seq<byte>): Result<()> {
    if path == [] then Err("empty path")
    else if |path| > 96 then Err("path is longer than 96 bytes")
    else if path[0] == 47 then Err("path must be relative")
    else if path[|path| - 1] == 47 then Err("path names a directory")
    else if 0 in path then Err("path contains a NUL")
    else CheckParts(path, 0)
  }

  predicate GoodPath(path: seq<byte>) {
    ValidatePath(path).Ok? && Utf8(path)
  }

  // ---- superblock ----

  datatype Superblock = Superblock(totalBlocks: nat, directoryBlocks: nat, bitmapBlocks: nat) {
    function DirStart(): nat {
      1 + bitmapBlocks
    }

    function DataStart(): nat {
      1 + bitmapBlocks + directoryBlocks
    }

    function EntryCount(): nat {
      32 * directoryBlocks
    }
  }

  function CeilDiv(a: nat, b: nat): nat {
    if b == 0 then 0 else a / b + if a % b != 0 then 1 else 0
  }

  function BlocksFor(len: nat): nat {
    CeilDiv(len, 4096)
  }

  /** What a geometry read from a disk must satisfy before it is used. */
  function Validate(sb: Superblock, deviceSectors: nat): Result<()> {
    var metadata := sb.bitmapBlocks + sb.directoryBlocks + 1;
    if sb.totalBlocks < 8 then Err("OS101FS volume is impossibly small")
    else if sb.totalBlocks > deviceSectors / 8 then Err("OS101FS volume is larger than its disk")
    else if sb.bitmapBlocks == 0 || sb.directoryBlocks == 0 then Err("OS101FS volume has no bitmap or directory")
    else if metadata >= 0x1_0000_0000 then Err("OS101FS metadata size overflows")
    else if metadata > 1024 then Err("OS101FS metadata is implausibly large")
    else if metadata >= sb.totalBlocks then Err("OS101FS metadata leaves no room for data")
    else if sb.bitmapBlocks * 32768 >= 0x1_0000_0000 then Err("OS101FS bitmap size overflows")
    else if sb.bitmapBlocks * 32768 < sb.totalBlocks then Err("OS101FS bitmap cannot cover the volume")
    else Ok(())
  }

  function FreshGeometry(deviceSectors: nat): Superblock {
    var total := deviceSectors / 8;
    var bitmap := CeilDiv(total, 32768);
    var directory := total / 64;
    Superblock(total, if directory < 1 then 1 else if directory > 64 then 64 else directory,
               if bitmap < 1 then 1 else bitmap)
  }

  /** Geometry for a new volume. */
  function Fresh(deviceSectors: nat): Result<Superblock> {
    var sb := FreshGeometry(deviceSectors);
    if deviceSectors / 8 < 8 then Err("disk is too small for OS101FS")
    else match Validate(sb, deviceSectors)
      case Ok(_) => Ok(sb)
      case Err(e) => Err(e)
  }

  /** A device can be formatted exactly when it has between 8 and 959 * 32768 blocks. */
  lemma FreshIff(deviceSectors: nat)
    ensures Fresh(deviceSectors).Ok? <==> 8 <= deviceSectors / 8 <= 31424512
  {
    var total, sb := deviceSectors / 8, FreshGeometry(deviceSectors);
    assert total > 0 ==> (sb.bitmapBlocks - 1) * 32768 < total <= sb.bitmapBlocks * 32768;
  }

  function Magic(): (m: seq<byte>)
    ensures |m| == 8
  {
    [0x4f, 0x53, 0x31, 0x30, 0x31, 0x46, 0x53, 0x31]
  }

  function EncodeSuperblock(sb: Superblock): (block: seq<byte>)
    ensures |block| == 4096
  {
    Magic() + EncodeFields([1, 4096, sb.totalBlocks, sb.directoryBlocks, sb.bitmapBlocks]) + Zeros(4068)
  }

  function Parse(sector: seq<byte>, deviceSectors: nat): Result<Superblock>
    requires |sector| == 512
  {
    if sector[0..8] != Magic() then Err("not an OS101FS volume")
    else if DecodeLe(sector[8..12]) != 1 then Err("unsupported OS101FS version")
    else if DecodeLe(sector[12..16]) != 4096 then Err("unsupported OS101FS block size")
    else
      var sb := Superblock(DecodeLe(sector[16..20]), DecodeLe(sector[20..24]), DecodeLe(sector[24..28]));
      match Validate(sb, deviceSectors)
      case Ok(_) => Ok(sb)
      case Err(e) => Err(e)
  }

  /** A geometry that passes the checks survives the trip through block 0. */
  lemma SuperblockRoundTrip(sb: Superblock, deviceSectors: nat)
    requires deviceSectors < 0x1_0000_0000 && Validate(sb, deviceSectors).Ok?
    ensures Parse(EncodeSuperblock(sb)[..512], deviceSectors) == Ok(sb)
  {
    var fields := [1, 4096, sb.totalBlocks, sb.directoryBlocks, sb.bitmapBlocks];
    var s := EncodeSuperblock(sb)[0..512];
    assert s[0..8] == Magic();
    hide Magic, EncodeFields, DecodeLe;
    forall i | 0 <= i < 5 ensures DecodeLe(s[8 + 4 * i..12 + 4 * i]) == fields[i] {
      FieldAt(fields, i);
      MiddlePart(Magic(), EncodeFields(fields), Zeros(4068), 4 * i, 4 * i + 4);
      SliceSlice(EncodeSuperblock(sb), 0, 512, 8 + 4 * i, 12 + 4 * i);
    }
    hide Validate, EncodeSuperblock;
    assert EncodeSuperblock(sb)[..512] == s;
    assert DecodeLe(s[8 + 4 * 0..12 + 4 * 0]) == fields[0];
    assert DecodeLe(s[8 + 4 * 1..12 + 4 * 1]) == fields[1];
    assert DecodeLe(s[8 + 4 * 2..12 + 4 * 2]) == fields[2];
    assert DecodeLe(s[8 + 4 * 3..12 + 4 * 3]) == fields[3];
    assert DecodeLe(s[8 + 4 * 4..12 + 4 * 4]) == fields[4];
  }

  // ---- directory entries ----

  datatype DirEnt = DirEnt(used: bool, path: seq<byte>, firstBlock: nat, length: nat, sequence: nat)

  function FreeEntry(): DirEnt {
    DirEnt(false, [], 0, 0, 0)
  }

  function NulPosition(name: seq<byte>, i: nat): (e: nat)
    requires i <= |name|
    ensures i <= e <= |name| && (e < |name| ==> name[e] == 0)
    ensures forall k :: i <= k < e ==> name[k] != 0
    decreases |name| - i
  {
    if i == |name| || name[i] == 0 then i else NulPosition(name, i + 1)
  }

  /** Read one slot. Whatever would not have been written reads as a free entry. */
  function Decode(raw: seq<byte>): DirEnt
    requires |raw| == 128
  {
    var path := raw[..NulPosition(raw[..96], 0)];
    if raw[96] % 2 == 0 then FreeEntry()
    else if !Utf8(path) then FreeEntry()
    else if ValidatePath(path).Err? then FreeEntry()
    else DirEnt(true, path, DecodeLe(raw[100..104]), DecodeLe(raw[104..108]), DecodeLe(raw[108..116]))
  }

  function Encode(e: DirEnt): (raw: seq<byte>)
    requires |e.path| <= 96
    ensures |raw| == 128
  {
    if !e.used then Zeros(128)
    else
      (e.path + Zeros(96 - |e.path|) + [1, 0, 0, 0])
      + (EncodeFields([e.firstBlock, e.length]) + EncodeLe(e.sequence, 8)) + Zeros(12)
  }

  /** An entry that can be written: free, or with a proper path and numbers that fit their fields. */
  predicate Writable(e: DirEnt) {
    if e.used then
      && GoodPath(e.path) && e.firstBlock < 0x1_0000_0000 && e.length < 0x1_0000_0000
      && e.sequence < 0x1_0000_0000_0000_0000
    else e == FreeEntry()
  }

  lemma GoodPathPlain(path: seq<byte>)
    requires GoodPath(path)
    ensures 0 < |path| <= 96 && 0 !in path
  {
  }

  /** What is written to a slot is what is read from it. */
  lemma EntryRoundTrip(e: DirEnt)
    requires Writable(e)
    ensures |e.path| <= 96 && Decode(Encode(e)) == e
  {
    if e.used {
      GoodPathPlain(e.path);
      Spans();
      LeRoundTrip(e.sequence, 8);
      FieldAt([e.firstBlock, e.length], 0);
      FieldAt([e.firstBlock, e.length], 1);
      hide EncodeLe, DecodeLe, Span, ValidatePath, Utf8, EncodeFields;
      var name, numbers := e.path + Zeros(96 - |e.path|) + [1, 0, 0, 0], EncodeFields([e.firstBlock, e.length]);
      EntryParts(name, numbers, EncodeLe(e.sequence, 8), Zeros(12));
      var raw := Encode(e);
      assert raw == name + (numbers + EncodeLe(e.sequence, 8)) + Zeros(12);
      assert numbers[0..4] == numbers[4 * 0..4 * 0 + 4] && numbers[4..8] == numbers[4 * 1..4 * 1 + 4];
      hide Encode;
      NameRead(raw, e.path);
    }
  }

  lemma EntryParts(name: seq<byte>, numbers: seq<byte>, sequence: seq<byte>, rest: seq<byte>)
    requires |name| == 100 && |numbers| == 8 && |sequence| == 8 && |rest| == 12
    ensures var raw := name + (numbers + sequence) + rest;
            && raw[..100] == name && raw[100..104] == numbers[0..4] && raw[104..108] == numbers[4..8]
            && raw[108..116] == sequence
  {
    var raw := name + (numbers + sequence) + rest;
    MiddlePart(name, numbers + sequence, rest, 0, 4);
    MiddlePart(name, numbers + sequence, rest, 4, 8);
    MiddlePart(name, numbers + sequence, rest, 8, 16);
  }

  lemma NameRead(raw: seq<byte>, path: seq<byte>)
    requires |raw| == 128 && |path| <= 96 && 0 !in path && raw[..100] == path + Zeros(96 - |path|) + [1, 0, 0, 0]
    ensures raw[..NulPosition(raw[..96], 0)] == path && raw[96] == 1
  {
    var name := raw[..100];
    assert raw[96] == name[96];
    assert forall k :: 0 <= k < |path| ==> raw[..96][k] == name[k] == path[k];
    assert |path| < 96 ==> raw[..96][|path|] == name[|path|] == 0;
    var e := NulPosition(raw[..96], 0);
    assert e == |path|;
  }

  /** Whatever is in a slot, what is read from it can be written back. */
  lemma DecodeWritable(raw: seq<byte>)
    requires |raw| == 128
    ensures Writable(Decode(raw))
  {
    Spans();
    LeBound(raw[100..104]);
    LeBound(raw[104..108]);
    LeBound(raw[108..116]);
    hide DecodeLe, Span, ValidatePath, Utf8;
  }
}
