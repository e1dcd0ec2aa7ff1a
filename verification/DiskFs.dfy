/**
 The filesystem on the data disk: a device of 512-byte sectors, and a volume kept in memory and
 written through. Each operation is described by what it does to the files, by what is on the disk
 afterwards, and by what a mount would find after any prefix of its sector writes.
 */
module DiskFs {
  import opened Results
  import opened Bytes
  import opened Bitmap
  import opened DiskLayout
  import opened Volume
  import opened DiskSteps

  /** A block device. `trail` is every image it has had, one for each sector written: what it can be left
      with when the power fails. */
  class Device {
    const sectors: nat
    var image: seq<byte>
    var trail: seq<seq<byte>>

    ghost predicate Valid()
      reads this
    {
      && |image| == 512 * sectors && sectors < 0x1_0000_0000
      && trail != [] && trail[|trail| - 1] == image
      && forall k :: 0 <= k < |trail| ==> |trail[k]| == |image|
    }

    constructor (bytes: seq<byte>)
      requires |bytes| % 512 == 0 && |bytes| / 512 < 0x1_0000_0000
      ensures Valid() && image == bytes
    {
      sectors, image, trail := |bytes| / 512, bytes, [bytes];
    }

    method Read(lba: nat, sectors: nat) returns (buf: seq<byte>)
      requires 512 * (lba + sectors) <= |image|
      ensures buf == image[512 * lba..512 * (lba + sectors)]
    {
      buf := image[512 * lba..512 * (lba + sectors)];
    }

    /** The power has failed, and only the first `n` images of the trail ever were. */
    method PowerCut(n: nat)
      requires Valid() && 0 < n <= |trail|
      modifies this
      ensures Valid() && image == old(trail)[n - 1]
    {
      image, trail := trail[n - 1], trail[..n];
    }

    /** Sectors are written one after another, each of them whole. */
    method Write(lba: nat, buf: seq<byte>, n: nat)
      requires Valid() && |buf| == 512 * n && 512 * lba + |buf| <= |image|
      modifies this
      ensures Valid() && image == Splice(old(image), 512 * lba, buf)
      ensures Written(old(trail), trail, old(image), 512 * lba, buf)
    {
      hide Splice, Written;
      var k := 0;
      WrittenNone(trail, image, 512 * lba, buf[..0]);
      while k < n
        invariant k <= n && Valid() && |image| == |old(image)|
        invariant image == Splice(old(image), 512 * lba, buf[..512 * k])
        invariant Written(old(trail), trail, old(image), 512 * lba, buf[..512 * k])
      {
        var sector := buf[512 * k..512 * (k + 1)];
        SpliceNext(old(image), 512 * lba, buf[..512 * k], sector);
        assert buf[..512 * k] + sector == buf[..512 * (k + 1)];
        image := Splice(image, 512 * (lba + k), sector);
        WrittenNext(old(trail), trail, old(image), 512 * lba, buf[..512 * k], sector);
        trail := trail + [image];
        k := k + 1;
      }
      assert buf[..512 * k] == buf;
    }
  }

  class DiskFs {
    const dev: Device
    const sb: Superblock
    var bitmap: seq<byte>
    var dir: seq<DirEnt>
    var nextSeq: nat

    /** The disk holds what is in memory, the volume is sound, and numbering goes on above every live
        entry. */
    ghost predicate Valid()
      reads this, dev
    {
      && dev.Valid() && Coherent(dev.image, sb, bitmap, dir) && Sound(sb, bitmap, dir)
      && Numbered(dir, nextSeq)
    }

    ghost function Contents(): map<seq<byte>, seq<byte>>
      requires Fits(sb, dev.image)
      reads this, dev
    {
      Files(dev.image, sb, dir)
    }

    /** What is on the volume. */
    ghost function Volume(): Held
      requires Fits(sb, dev.image)
      reads this, dev
    {
      Held(bitmap, dir, Contents())
    }

    constructor (d: Device, s: Superblock, b: seq<byte>, entries: seq<DirEnt>, n: nat)
      ensures dev == d && sb == s && bitmap == b && dir == entries && nextSeq == n
    {
      dev, sb, bitmap, dir, nextSeq := d, s, b, entries, n;
    }

    // ---- flushing ----

    /** Write back every bitmap sector touching the bytes [low, high). */
    method FlushBitmap(low: nat, high: nat)
      requires dev.Valid() && |bitmap| == 4096 * sb.bitmapBlocks && low < high
      requires 4096 + |bitmap| <= |dev.image|
      requires CleanOutside(dev.image, bitmap, low, high)
      modifies dev
      ensures dev.Valid() && dev.image == Splice(old(dev.image), 4096, bitmap)
      ensures old(dev.trail) <= dev.trail
      ensures (high <= |bitmap| ==> |dev.trail| == |old(dev.trail)| + SpanSize(low, high))
      ensures Between(dev.trail, |old(dev.trail)|, old(dev.image), dev.image, 4096, 4096 * sb.DirStart())
    {
      hide Sound, Splice, Validate, Between, Flushed, Written, CleanOutside, SectorSpan;
      ghost var before, target := dev.image, Splice(dev.image, 4096, bitmap);
      var (first, last) := SectorSpan(low, high);
      var sector := first;
      SpanCovers(low, high);
      FlushStart(dev.trail, before, bitmap, first);
      while sector <= last && 512 * (sector + 1) <= |bitmap|
        invariant first <= sector <= last + 1
        invariant dev.Valid() && old(dev.trail) <= dev.trail && |dev.image| == |before|
        invariant |dev.trail| == |old(dev.trail)| + sector - first
        invariant Flushed(before, dev.image, bitmap, first, sector)
        invariant Between(dev.trail, |old(dev.trail)|, before, target, 4096, 4096 + |bitmap|)
      {
        ghost var trail, was := dev.trail, dev.image;
        dev.Write(8 + sector, bitmap[512 * sector..512 * (sector + 1)], 1);
        OneSector(trail, dev.trail, was, 512 * (8 + sector), bitmap[512 * sector..512 * (sector + 1)]);
        FlushStep(before, was, dev.image, bitmap, first, sector);
        BetweenNext(trail, |old(dev.trail)|, before, target, dev.image, 4096, 4096 + |bitmap|);
        sector := sector + 1;
      }
      FlushDone(before, dev.image, bitmap, low, high, first, sector);
    }

    method DirSector(base: nat) returns (buf: seq<byte>)
      requires base + 4 <= |dir| && forall i :: 0 <= i < |dir| ==> Writable(dir[i])
      ensures |buf| == 512
      ensures forall j :: 0 <= j < 4 ==> Decode(buf[128 * j..128 * j + 128]) == dir[base + j]
    {
      hide Decode, Encode, Writable;
      buf := [];
      var slot := 0;
      while slot < 4
        invariant slot <= 4 && |buf| == 128 * slot
        invariant forall j :: 0 <= j < slot ==> Decode(buf[128 * j..128 * j + 128]) == dir[base + j]
      {
        EntryRoundTrip(dir[base + slot]);
        ghost var before := buf;
        buf := buf + Encode(dir[base + slot]);
        assert forall j :: 0 <= j < slot ==> buf[128 * j..128 * j + 128] == before[128 * j..128 * j + 128];
        assert buf[128 * slot..128 * slot + 128] == Encode(dir[base + slot]);
        slot := slot + 1;
      }
    }

    /** Write back the directory sector holding a slot, rebuilt from the four entries that share it. */
    method FlushDirEntry(index: nat)
      requires dev.Valid() && 4096 * sb.DataStart() <= |dev.image|
      requires |dir| == sb.EntryCount() && index < |dir| && forall i :: 0 <= i < |dir| ==> Writable(dir[i])
      requires forall i :: 0 <= i < |dir| && i != index ==> SlotOf(dev.image, sb, i) == dir[i]
      modifies dev
      ensures dev.Valid() && SameOutside(old(dev.image), dev.image, 4096 * sb.DirStart(), 4096 * sb.DataStart())
      ensures DirOf(dev.image, sb) == dir && dev.trail == old(dev.trail) + [dev.image]
    {
      hide Decode, Writable, SlotOf, SectorOfSlot, Splice, Written, DirOf, Superblock.DirStart, Superblock.DataStart,
           Superblock.EntryCount;
      var sector := SectorOfSlot(index);
      SectorHolds(sb, index);
      var buf := DirSector(4 * sector);
      dev.Write(8 * sb.DirStart() + sector, buf, 1);
      OneSector(old(dev.trail), dev.trail, old(dev.image), 512 * (8 * sb.DirStart() + sector), buf);
      DirAfterFlush(old(dev.image), dev.image, sb, dir, buf, sector);
    }

    // ---- reading ----

    method ReadFile(path: seq<byte>) returns (r: Result<seq<byte>>)
      requires Valid()
      ensures r == ReadPath(dev.image, sb, dir, path)
    {
      hide ValidatePath, Validate, EntrySound, BitmapOf, DirOf, FindFrom, Content;
      FitsBounds(sb, dev.image);
      if ValidatePath(path).Err? {
        return Err(ValidatePath(path).error);
      }
      var index := Find(dir, path);
      if index.None? {
        return Err("file not found");
      }
      var entry := dir[index.value];
      var blocks := BlocksFor(entry.length);
      if blocks > 0 && (entry.firstBlock < sb.DataStart() || entry.firstBlock + blocks > sb.totalBlocks) {
        return Err("corrupt directory entry");
      }
      ContentOnDisk(sb, dev.image, entry);
      var out := ReadBlocks(entry, blocks);
      return Ok(out);
    }

    method ReadBlocks(entry: DirEnt, blocks: nat) returns (out: seq<byte>)
      requires blocks == BlocksFor(entry.length) && (blocks > 0 ==> 4096 * (entry.firstBlock + blocks) <= |dev.image|)
      ensures entry.length > 0 ==> 4096 * entry.firstBlock + entry.length <= |dev.image|
      ensures out == Content(dev.image, entry)
    {
      BlocksCover(entry.length);
      hide BlocksFor, Content, ReadSoFar;
      out := [];
      var i := 0;
      ReadNothing(dev.image, entry);
      while i < blocks
        invariant i <= blocks && ReadSoFar(dev.image, entry, i, out)
      {
        var block := dev.Read(8 * (entry.firstBlock + i), 8);
        ReadStep(dev.image, entry, i, out, block);
        out := out + block[..Min(entry.length - |out|, 4096)];
        i := i + 1;
      }
      ReadAll(dev.image, entry, out);
    }

    // ---- writing ----

    /** Where the blocks of a file are to go: the lowest room there is, its old blocks counted free. */
    method Allocate(path: seq<byte>, needed: nat) returns (freed: seq<byte>, first: Option<nat>)
      requires Valid()
      ensures Freed(bitmap, dir, path, freed)
      ensures needed == 0 ==> first == Some(0)
      ensures needed > 0 && first.Some? ==>
                && Room(sb, bitmap, dir, path, first.value, needed)
                && forall s: nat :: s < first.value ==> !Room(sb, bitmap, dir, path, s, needed)
      ensures needed > 0 && first.None? ==> forall s: nat :: !Room(sb, bitmap, dir, path, s, needed)
    {
      FitsBounds(sb, dev.image);
      hide Bit, ValidatePath, Validate, BitmapOf, DirOf, Writable, FindFrom, FreeRun, Room, BlocksFor;
      freed := bitmap;
      var existing := Find(dir, path);
      if existing.Some? {
        var entry := dir[existing.value];
        assert EntrySound(sb, bitmap, entry);
        BlocksCover(entry.length);
        if BlocksFor(entry.length) > 0 {
          freed := MarkRun(freed, entry.firstBlock, BlocksFor(entry.length), false);
        }
      }
      assert Freed(bitmap, dir, path, freed);
      if needed == 0 {
        first := Some(0);
      } else {
        first := FindRun(freed, sb.DataStart(), sb.totalBlocks, needed);
        forall s: nat
          ensures Room(sb, bitmap, dir, path, s, needed)
             <==> sb.DataStart() <= s && FreeRun(freed, sb.totalBlocks, s, needed)
        {
          FreedRoom(sb, bitmap, dir, path, freed, s, needed);
        }
      }
    }

    /** The next block of the data, in a buffer that still holds the one before it. */
    method NextBlock(buffer: seq<byte>, data: seq<byte>, i: nat) returns (block: seq<byte>)
      requires |buffer| == 4096 && i < BlocksFor(|data|)
      ensures |block| == 4096 && 4096 * (i + 1) <= |Padded(data)|
      ensures block == Padded(data)[4096 * i..4096 * (i + 1)]
      ensures Padded(data)[..4096 * i] + block == Padded(data)[..4096 * (i + 1)]
    {
      BlocksCover(|data|);
      hide BlocksFor;
      var chunk := data[4096 * i..Min(4096 * (i + 1), |data|)];
      block := buffer;
      if |chunk| < 4096 {
        block := Zeros(4096);
      }
      block := chunk + block[|chunk|..];
      PaddedBlock(data, i, block);
    }

    /** Put the data down, block by block, the last one filled up with zeros. */
    method WriteData(first: nat, data: seq<byte>)
      requires dev.Valid() && 4096 * (first + BlocksFor(|data|)) <= |dev.image|
      modifies dev
      ensures dev.Valid() && dev.image == Splice(old(dev.image), 4096 * first, Padded(data))
      ensures old(dev.trail) <= dev.trail && |dev.trail| == |old(dev.trail)| + 8 * BlocksFor(|data|)
      ensures Within(dev.trail, |old(dev.trail)|, old(dev.image), 4096 * first, 4096 * (first + BlocksFor(|data|)))
    {
      hide BlocksFor, Splice, Within, Written, Padded;
      var blocks := BlocksFor(|data|);
      ghost var before, padded, low, high := dev.image, Padded(data), 4096 * first, 4096 * (first + blocks);
      ghost var n := |dev.trail|;
      var block := Zeros(4096);
      var i := 0;
      NothingWritten(dev.trail, before, low, high, padded[..0]);
      while i < blocks
        invariant i <= blocks && |block| == 4096
        invariant dev.Valid() && |dev.image| == |before| && old(dev.trail) <= dev.trail && |dev.trail| == n + 8 * i
        invariant dev.image == Splice(before, low, padded[..4096 * i])
        invariant Within(dev.trail, n, before, low, high)
      {
        block := NextBlock(block, data, i);
        ghost var trail := dev.trail;
        dev.Write(8 * (first + i), block, 8);
        DataStep(before, low, high, padded[..4096 * i], block, trail, dev.trail, n);
        i := i + 1;
      }
      assert padded[..4096 * i] == padded;
    }

    /** Write back the bitmap bytes in which the plan differs, and make it the bitmap. */
    method CommitBitmap(plan: seq<byte>)
      requires dev.Valid() && Coherent(dev.image, sb, bitmap, dir) && |plan| == |bitmap|
      modifies this`bitmap, dev
      ensures dev.Valid() && bitmap == plan && old(dev.trail) <= dev.trail
      ensures SameOutside(old(dev.image), dev.image, 4096, 4096 * sb.DirStart()) && BitmapOf(dev.image, sb) == plan
      ensures Between(dev.trail, |old(dev.trail)|, old(dev.image), dev.image, 4096, 4096 * sb.DirStart())
      ensures plan == old(bitmap) ==> dev.trail == old(dev.trail)
      ensures forall l: nat, h: nat :: Extent(old(bitmap), plan, l, h) ==>
                |dev.trail| == |old(dev.trail)| + SpanSize(l, h)
    {
      hide Validate, DirOf, Parse, SpanSize;
      var low, high := |plan|, 0;
      var i := 0;
      while i < |plan|
        invariant i <= |plan| && high <= i && 0 <= low && ((low == |plan| && high == 0) || low < high)
        invariant forall k :: 0 <= k < i && !(low <= k < high) ==> bitmap[k] == plan[k]
        invariant low < high ==> bitmap[low] != plan[low] && bitmap[high - 1] != plan[high - 1]
      {
        if bitmap[i] != plan[i] {
          if i < low {
            low := i;
          }
          high := i + 1;
        }
        i := i + 1;
      }
      assert forall k :: 0 <= k < |bitmap| ==> dev.image[4096 + k] == BitmapOf(dev.image, sb)[k] == bitmap[k];
      bitmap := plan;
      if low < high {
        assert Extent(old(bitmap), plan, low, high);
        forall l: nat, h: nat | Extent(old(bitmap), plan, l, h) ensures l == low && h == high {
          ExtentUnique(old(bitmap), plan, low, high, l, h);
        }
        FlushBitmap(low, high);
        SpliceSlice(old(dev.image), 4096, plan);
      } else {
        assert BitmapOf(dev.image, sb) == plan;
      }
    }

    /** Write a file whole. It is refused for exactly the reasons `WriteError` gives, and then nothing
        has changed; otherwise one file has been set. A mount after any prefix of the sector writes
        reads every other path as before, and when the path is new it finds a sound volume, with the file
        whole or not at all. */
    method WriteFile(path: seq<byte>, data: seq<byte>) returns (r: Result<()>)
      requires Valid() && Utf8(path)
      modifies this, dev
      ensures Valid()
      ensures r == match old(WriteError(sb, bitmap, dir, path, |data|)) case Some(e) => Err(e) case None => Ok(())
      ensures r.Err? ==> unchanged(this) && unchanged(dev)
      ensures r.Ok? ==> Contents() == old(Contents())[path := data]
      ensures old(Tight(sb, bitmap, dir)) ==> Tight(sb, bitmap, dir)
      ensures old(dev.trail) <= dev.trail
      ensures Safe(dev.trail, |old(dev.trail)|, old(dev.image), sb, path, old(Find(dir, path)).None?)
      ensures r.Ok? && old(Find(dir, path)).None? ==>
                Turns(dev.trail, |old(dev.trail)|, |dev.trail| - 1, sb, old(Volume()), Volume())
      ensures r.Ok? ==>
                exists first: nat, slot: nat ::
                  && Stored(sb, old(bitmap), old(dir), path, |data|, bitmap, dir, first, slot)
                  && (old(Find(dir, path)).None? ==> |dev.trail| == |old(dev.trail)| + SectorsFor(first, |data|))
    {
      hide ValidatePath, Utf8, Validate, Parse, Find, FindFrom, BlocksFor, Sound, Tight, BitmapOf, DirOf, Files,
           ReadPath, ReadBack, OthersSame, SoundImage, Freed, Room, Planned, Splice, Between, Within, EntrySound, Safe,
           Turns, Stored, SectorsFor;
      NothingSafe(dev.trail, dev.image, sb, path);
      if ValidatePath(path).Err? {
        return Err(ValidatePath(path).error);
      }
      if |data| > 0xffff_ffff {
        return Err("file is too large");
      }
      var needed := BlocksFor(|data|);
      var existing := Find(dir, path);
      assert data == [] <==> needed == 0 by {
        BlocksCover(|data|);
      }
      var freed, first := Allocate(path, needed);
      if first.None? {
        return Err("disk full");
      }
      var slot := existing;
      if slot.None? {
        slot := FreeSlot();
        if slot.None? {
          return Err("directory full");
        }
      }
      Store(path, data, freed, first.value, slot.value);
      return Ok(());
    }

    /** Carry out a planned write: data, then bitmap, then directory. */
    method Store(path: seq<byte>, data: seq<byte>, freed: seq<byte>, first: nat, slot: nat)
      requires Valid() && GoodPath(path) && |data| <= 0xffff_ffff && Freed(bitmap, dir, path, freed)
      requires if data == [] then first == 0 else Room(sb, bitmap, dir, path, first, BlocksFor(|data|))
      requires Lowest(sb, bitmap, dir, path, BlocksFor(|data|), first) && slot < |dir|
      requires if Find(dir, path).Some? then slot == Find(dir, path).value
               else !dir[slot].used && forall i :: 0 <= i < slot ==> dir[i].used
      modifies this, dev
      ensures Valid() && Contents() == old(Contents())[path := data]
      ensures old(Tight(sb, bitmap, dir)) ==> Tight(sb, bitmap, dir)
      ensures old(dev.trail) <= dev.trail
      ensures Safe(dev.trail, |old(dev.trail)|, old(dev.image), sb, path, old(Find(dir, path)).None?)
      ensures Stored(sb, old(bitmap), old(dir), path, |data|, bitmap, dir, first, slot)
      ensures old(Find(dir, path)).None? ==>
                && Turns(dev.trail, |old(dev.trail)|, |dev.trail| - 1, sb, old(Volume()), Volume())
                && |dev.trail| == |old(dev.trail)| + SectorsFor(first, |data|)
    {
      hide ValidatePath, Utf8, Validate, Parse, Find, FindFrom, BlocksFor, Sound, Tight, BitmapOf, DirOf, Files,
           ReadPath, ReadBack, OthersSame, SoundImage, Freed, Room, Planned, Splice, Between, Within, EntrySound, Safe,
           Numbered, Coherent, Fits, SameOutside, Padded, Writable, Turns, DirStays, Lowest, SpanSize, SectorsFor,
           Extent;
      var needed := BlocksFor(|data|);
      var existing := Find(dir, path).Some?;
      ghost var bitmap0, dir0, image0, n0 := bitmap, dir, dev.image, |dev.trail|;
      RoomFits(sb, dev.image, bitmap, dir, path, first, |data|);
      LiveWritable(sb, bitmap, dir);
      var plan := MarkRun(freed, first, needed, true);
      MarkedIsPlan(bitmap0, dir0, path, freed, first, needed, plan);

      WriteData(first, data);
      ghost var image1, trail1 := dev.image, dev.trail;
      DataSafe(trail1, n0, image0, image1, sb, bitmap0, dir0, path, first, data);

      CommitBitmap(plan);
      ghost var image2, trail2 := dev.image, dev.trail;
      BitmapSafe(trail2, |trail1|, image0, image1, image2, sb, bitmap0, dir0, path, first, needed, plan);

      ghost var e := SetEntry(slot, path, first, |data|);
      ghost var image3 := dev.image;
      StoreDone(image0, image1, image2, image3, sb, bitmap0, dir0, plan, slot, e, data);
      LastSafe(trail2, image3, image0, sb, path);
      SafeJoin(trail1, trail2, dev.trail, n0, image0, sb, path, !existing);
      if !existing {
        CoherentFits(image0, sb, bitmap0, dir0);
        CoherentFits(image3, sb, plan, dir);
        RoomDirs(trail1, n0, image0, sb, bitmap0, dir0, path, first, |data|, plan);
        BitmapDirs(trail2, |trail1|, image1, image2, sb, bitmap0, dir0, plan);
        CreateAtomic(trail1, trail2, n0, image0, image3, sb, bitmap0, dir0, path, plan, dir);
        NewExtent(sb, image0, bitmap0, dir0, path, first, |data|, plan);
      }
    }

    /** Point a slot at its new run. An overwritten file keeps its number, a new one takes the next. */
    method SetEntry(slot: nat, path: seq<byte>, first: nat, length: nat) returns (ghost e: DirEnt)
      requires dev.Valid() && Coherent(dev.image, sb, bitmap, dir) && slot < |dir| && Numbered(dir, nextSeq)
      requires GoodPath(path) && first < 0x1_0000_0000 && length < 0x1_0000_0000
      requires forall i :: 0 <= i < |dir| ==> Writable(dir[i])
      modifies this`dir, this`nextSeq, dev
      ensures dev.Valid() && Writable(e) && dir == old(dir)[slot := e] && Numbered(dir, nextSeq)
      ensures e == DirEnt(true, path, first, length,
                if old(dir)[slot].used then old(dir)[slot].sequence else old(nextSeq))
      ensures SameOutside(old(dev.image), dev.image, 4096 * sb.DirStart(), 4096 * sb.DataStart())
      ensures DirOf(dev.image, sb) == dir && dev.trail == old(dev.trail) + [dev.image]
    {
      hide GoodPath, Validate, Parse, BitmapOf, SlotOf;
      var sequence := nextSeq;
      if dir[slot].used {
        sequence := dir[slot].sequence;
      } else {
        nextSeq := if nextSeq == 0xffff_ffff_ffff_ffff then nextSeq else nextSeq + 1;
      }
      dir := dir[slot := DirEnt(true, path, first, length, sequence)];
      e := dir[slot];
      SlotsCoherent(dev.image, sb, bitmap, old(dir));
      FlushDirEntry(slot);
    }

    /** The first entry not in use. */
    method FreeSlot() returns (r: Option<nat>)
      ensures r.Some? ==> r.value < |dir| && !dir[r.value].used && forall i :: 0 <= i < r.value ==> dir[i].used
      ensures r.None? ==> forall i :: 0 <= i < |dir| ==> dir[i].used
    {
      var i := 0;
      while i < |dir|
        invariant i <= |dir| && forall j :: 0 <= j < i ==> dir[j].used
      {
        if !dir[i].used {
          return Some(i);
        }
        i := i + 1;
      }
      return None;
    }

    /** Remove a file: its entry first, its blocks after. A mount after any prefix of the sector
        writes reads every other path as before and finds a sound volume. */
    method Remove(path: seq<byte>) returns (r: Result<()>)
      requires Valid()
      modifies this, dev
      ensures Valid()
      ensures r == if ValidatePath(path).Err? then Err(ValidatePath(path).error)
                   else if old(Find(dir, path)).None? then Err("file not found") else Ok(())
      ensures r.Err? ==> unchanged(this) && unchanged(dev)
      ensures r.Ok? ==> Contents() == old(Contents()) - {path}
      ensures old(Tight(sb, bitmap, dir)) ==> Tight(sb, bitmap, dir)
      ensures old(dev.trail) <= dev.trail
      ensures Safe(dev.trail, |old(dev.trail)|, old(dev.image), sb, path, true)
      ensures Turns(dev.trail, |old(dev.trail)|, |old(dev.trail)|, sb, old(Volume()), Volume())
      ensures r.Ok? ==> |dev.trail| > |old(dev.trail)| && Dropped(old(bitmap), old(dir), path, bitmap, dir)
    {
      hide ValidatePath, Utf8, Validate, Parse, Find, FindFrom, BlocksFor, Sound, Tight, BitmapOf, DirOf, Files,
           ReadPath, ReadBack, OthersSame, SoundImage, Splice, Between, EntrySound, Safe, Numbered, Marked, DirStays,
           Freed;
      NothingSafe(dev.trail, dev.image, sb, path);
      if ValidatePath(path).Err? {
        return Err(ValidatePath(path).error);
      }
      var slot := Find(dir, path);
      if slot.None? {
        return Err("file not found");
      }
      ghost var bitmap0, dir0, image0, n0 := bitmap, dir, dev.image, |dev.trail|;
      var firstBlock, blocks := dir[slot.value].firstBlock, BlocksFor(dir[slot.value].length);
      LiveWritable(sb, bitmap, dir);
      SlotsCoherent(dev.image, sb, bitmap, dir);
      FitsBounds(sb, dev.image);
      RunOnDevice(sb, bitmap, dir, slot.value);
      dir := dir[slot.value := FreeEntry()];
      FlushDirEntry(slot.value);
      ghost var image1, trail1 := dev.image, dev.trail;
      StillNumbered(dir0, slot.value, nextSeq);
      EntryGone(image0, image1, sb, bitmap, dir0, slot.value, path);
      LastSafe(old(dev.trail), image1, image0, sb, path);
      if blocks == 0 {
        FreedByMark(sb, image0, bitmap0, dir0, path, bitmap);
        LastDirs(old(dev.trail), image1, sb, bitmap0, dir, bitmap);
        RemoveAtomic(trail1, trail1, n0, image0, sb, bitmap0, dir0, path, bitmap, dir);
        return Ok(());
      }
      bitmap := MarkRun(bitmap, firstBlock, blocks, false);
      OnlyRunChanged(image1, sb, bitmap0, dir, bitmap, firstBlock, blocks);
      FlushBitmap(firstBlock / 8, (firstBlock + blocks) / 8 + 1);
      BlocksGone(dev.trail, |trail1|, image0, image1, dev.image, sb, bitmap0, dir0, slot.value, bitmap, path);
      SafeExtends(trail1, dev.trail, n0, image0, sb, path, true);
      FreedByMark(sb, image0, bitmap0, dir0, path, bitmap);
      LastDirs(old(dev.trail), image1, sb, bitmap0, dir, bitmap);
      BitmapDirs(dev.trail, |trail1|, image1, dev.image, sb, bitmap0, dir, bitmap);
      RemoveAtomic(trail1, dev.trail, n0, image0, sb, bitmap0, dir0, path, bitmap, dir);
      return Ok(());
    }

    // ---- formatting and mounting ----

    /** Whole blocks, one write each. */
    static method WriteBlocks(dev: Device, first: nat, content: seq<byte>, blocks: nat)
      requires dev.Valid() && |content| == 4096 * blocks && 4096 * (first + blocks) <= |dev.image|
      modifies dev
      ensures dev.Valid() && dev.image == Splice(old(dev.image), 4096 * first, content)
      ensures old(dev.trail) <= dev.trail
      ensures Within(dev.trail, |old(dev.trail)|, old(dev.image), 4096 * first, 4096 * (first + blocks))
    {
      hide Splice, Within, Written;
      ghost var before, low, high, n := dev.image, 4096 * first, 4096 * (first + blocks), |dev.trail|;
      var i := 0;
      NothingWritten(dev.trail, before, low, high, content[..0]);
      while i < blocks
        invariant i <= blocks && dev.Valid() && |dev.image| == |before| && old(dev.trail) <= dev.trail
        invariant dev.image == Splice(before, low, content[..4096 * i])
        invariant Within(dev.trail, n, before, low, high)
      {
        var block := content[4096 * i..4096 * (i + 1)];
        assert content[..4096 * i] + block == content[..4096 * (i + 1)];
        ghost var trail := dev.trail;
        dev.Write(8 * (first + i), block, 8);
        DataStep(before, low, high, content[..4096 * i], block, trail, dev.trail, n);
        i := i + 1;
      }
      assert content[..4096 * i] == content;
    }

    /** Make a new volume. The superblock goes down last: whenever the power fails, either the first
        sector is the old one or a mount finds the new, empty volume. */
    static method Format(dev: Device) returns (r: Result<DiskFs>)
      requires dev.Valid()
      modifies dev
      ensures dev.Valid() && old(dev.trail) <= dev.trail
      ensures r.Ok? <==> Fresh(dev.sectors).Ok?
      ensures r.Err? ==> r.error == Fresh(dev.sectors).error && unchanged(dev)
      ensures r.Ok? ==>
                && fresh(r.value) && r.value.dev == dev && r.value.Valid() && r.value.sb == FreshGeometry(dev.sectors)
                && r.value.Contents() == map[] && Tight(r.value.sb, r.value.bitmap, r.value.dir)
                && Blank(r.value.sb, r.value.bitmap, r.value.dir)
                && forall k :: |old(dev.trail)| <= k < |dev.trail| ==>
                     Unformatted(old(dev.image), dev.trail[k]) || BlankImage(dev.trail[k], r.value.sb)
    {
      hide Validate, Parse, DirOf, Splice, Marked, Between, Within, Written, Files, Sound, Tight, Unformatted,
           BlankImage, Fits;
      var geometry := Fresh(dev.sectors);
      if geometry.Err? {
        return Err(geometry.error);
      }
      var sb := geometry.value;
      FreshFits(sb, dev.image, dev.sectors);
      var bitmap := Zeros(4096 * sb.bitmapBlocks);
      bitmap := MarkRun(bitmap, 0, sb.DataStart(), true);
      ghost var marked := bitmap;
      bitmap := MarkRun(bitmap, sb.totalBlocks, 32768 * sb.bitmapBlocks - sb.totalBlocks, true);
      NewBitmap(sb, Zeros(4096 * sb.bitmapBlocks), marked, bitmap);
      ghost var image0, n0 := dev.image, |dev.trail|;

      WriteBlocks(dev, 1, bitmap, sb.bitmapBlocks);
      ghost var image1, trail1 := dev.image, dev.trail;
      WriteBlocks(dev, sb.DirStart(), Zeros(4096 * sb.directoryBlocks), sb.directoryBlocks);
      ghost var image2, trail2 := dev.image, dev.trail;
      StillUnformatted(image0, image1, trail1, trail2, n0, bitmap, sb);
      dev.Write(0, EncodeSuperblock(sb), 8);
      NewVolume(image0, image1, image2, dev.image, trail2, dev.trail, bitmap, sb);
      FormatTrail(image0, trail2, dev.trail, n0, sb);
      var fs := new DiskFs(dev, sb, bitmap, FreeSlots(sb.EntryCount()), 0);
      EmptyFiles(dev.image, sb);
      return Ok(fs);
    }

    static method ReadRegion(dev: Device, first: nat, blocks: nat) returns (out: seq<byte>)
      requires 4096 * (first + blocks) <= |dev.image|
      ensures out == dev.image[4096 * first..4096 * (first + blocks)]
    {
      out := [];
      var i := 0;
      while i < blocks
        invariant i <= blocks && out == dev.image[4096 * first..4096 * (first + i)]
      {
        var block := dev.Read(8 * (first + i), 8);
        out := out + block;
        i := i + 1;
      }
    }

    /** Read an existing volume. What is in memory is then what is on the disk, so on a sound image the
        result is a valid filesystem with the same files. */
    static method Mount(dev: Device) returns (r: Result<DiskFs>)
      requires dev.Valid()
      ensures r.Err? <==> |dev.image| < 512 || Mounted(dev.image).Err?
      ensures r.Ok? ==>
                var fs := r.value;
                && fresh(fs) && fs.dev == dev && Coherent(dev.image, fs.sb, fs.bitmap, fs.dir)
                && Numbered(fs.dir, fs.nextSeq)
                && (SoundImage(dev.image, fs.sb) ==> fs.Valid())
    {
      hide Validate, DirOf, Decode, Sound, Numbered;
      if |dev.image| < 512 {
        return Err("transfer runs past the end of the disk");
      }
      var sector := dev.Read(0, 1);
      assert dev.image[..512] == sector;
      var parsed := Parse(sector, dev.sectors);
      if parsed.Err? {
        return Err(parsed.error);
      }
      var sb := parsed.value;
      ParsedFits(sb, dev.image);
      hide Parse;
      var bitmap := ReadRegion(dev, 1, sb.bitmapBlocks);
      var raw := ReadRegion(dev, sb.DirStart(), sb.directoryBlocks);
      var dir, next := DecodeAll(raw, sb.EntryCount());
      DecodedIsDir(dev.image, sb, raw, dir);
      var fs := new DiskFs(dev, sb, bitmap, dir, next);
      return Ok(fs);
    }

    /** Every slot decoded, and the number to go on from: one above the highest in use. */
    static method DecodeAll(raw: seq<byte>, count: nat) returns (dir: seq<DirEnt>, next: nat)
      requires |raw| == 128 * count
      ensures |dir| == count && forall i :: 0 <= i < count ==> dir[i] == Decode(raw[128 * i..128 * i + 128])
      ensures Numbered(dir, next)
      ensures next == 0 || exists i ::
                0 <= i < count && dir[i].used && next == Min(dir[i].sequence + 1, 0xffff_ffff_ffff_ffff)
    {
      hide Decode;
      dir, next := [], 0;
      while |dir| < count
        invariant |dir| <= count && forall i :: 0 <= i < |dir| ==> dir[i] == Decode(raw[128 * i..128 * i + 128])
        invariant Numbered(dir, next)
        invariant next == 0 || exists i ::
                    0 <= i < |dir| && dir[i].used && next == Min(dir[i].sequence + 1, 0xffff_ffff_ffff_ffff)
      {
        var at := 128 * |dir|;
        var e := Decode(raw[at..at + 128]);
        DecodeWritable(raw[at..at + 128]);
        ghost var before := dir;
        dir := dir + [e];
        assert forall i :: 0 <= i < |before| ==> dir[i] == before[i];
        if e.used && Min(e.sequence + 1, 0xffff_ffff_ffff_ffff) > next {
          next := Min(e.sequence + 1, 0xffff_ffff_ffff_ffff);
          assert dir[|before|] == e;
        }
      }
    }

    /** Bytes in use, and bytes there are, of the data area. */
    method Usage() returns (used: nat, total: nat)
      requires Valid()
      ensures used == 4096 * |UsedBlocks(sb, bitmap)| && total == 4096 * (sb.totalBlocks - sb.DataStart())
    {
      hide BitGet, Sound, BitmapOf, DirOf;
      FitsBounds(sb, dev.image);
      var count, block := 0, sb.DataStart();
      assert UsedUpTo(sb, bitmap, block) == {};
      while block < sb.totalBlocks
        invariant sb.DataStart() <= block <= sb.totalBlocks && count == |UsedUpTo(sb, bitmap, block)|
      {
        assert UsedUpTo(sb, bitmap, block + 1)
            == UsedUpTo(sb, bitmap, block) + if BitGet(bitmap, block) then {block} else {};
        if BitGet(bitmap, block) {
          count := count + 1;
        }
        block := block + 1;
      }
      used, total := 4096 * count, 4096 * (sb.totalBlocks - sb.DataStart());
    }
  }
}
