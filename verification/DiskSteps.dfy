/**
 What each step of an operation on the data disk does to the image, and that a crash during the step
 is harmless.
 */
module DiskSteps {
  import opened Results
  import opened Bytes
  import opened Bitmap
  import opened DiskLayout
  import opened Volume

  /** The trail has grown by one image for each sector of `buf`, written at `at` in order. */
  ghost predicate Written(t0: seq<seq<byte>>, t1: seq<seq<byte>>, image: seq<byte>, at: nat, buf: seq<byte>)
    requires at + |buf| <= |image|
  {
    && t0 <= t1 && 512 * (|t1| - |t0|) == |buf|
    && forall k :: |t0| <= k < |t1| ==> t1[k] == Splice(image, at, buf[..512 * (k + 1 - |t0|)])
  }

  lemma WrittenNext(t0: seq<seq<byte>>, t1: seq<seq<byte>>, image: seq<byte>, at: nat, buf: seq<byte>,
                    sector: seq<byte>)
    requires at + |buf| + 512 <= |image| && |sector| == 512 && Written(t0, t1, image, at, buf)
    ensures Written(t0, t1 + [Splice(image, at, buf + sector)], image, at, buf + sector)
  {
    hide Splice;
    var whole := buf + sector;
    assert whole[..|whole|] == whole;
    var t2 := t1 + [Splice(image, at, whole)];
    forall k | |t0| <= k < |t2| ensures t2[k] == Splice(image, at, whole[..512 * (k + 1 - |t0|)]) {
      if k < |t1| {
        assert whole[..512 * (k + 1 - |t0|)] == buf[..512 * (k + 1 - |t0|)];
      }
    }
  }

  lemma OneSector(t0: seq<seq<byte>>, t1: seq<seq<byte>>, image: seq<byte>, at: nat, buf: seq<byte>)
    requires at + |buf| <= |image| && |buf| == 512 && Written(t0, t1, image, at, buf)
    ensures t1 == t0 + [Splice(image, at, buf)]
  {
    assert buf[..512] == buf;
  }

  lemma WrittenNone(trail: seq<seq<byte>>, a: seq<byte>, at: nat, none: seq<byte>)
    requires at <= |a| && none == []
    ensures Splice(a, at, none) == a && Written(trail, trail, a, at, none)
  {
  }

  /** Every image between two points of a trail differs from the first only in a range of bytes, and
      there has the old byte or the new one. */
  ghost predicate Between(trail: seq<seq<byte>>, from: nat, a: seq<byte>, b: seq<byte>, low: int, high: int) {
    forall k :: from <= k < |trail| ==> Mixture(a, b, trail[k], low, high)
  }

  ghost predicate Mixture(a: seq<byte>, b: seq<byte>, x: seq<byte>, low: int, high: int) {
    SameOutside(a, x, low, high) && |b| == |x| && forall i :: 0 <= i < |x| ==> x[i] == a[i] || x[i] == b[i]
  }

  /** The data of a file, filled up to whole blocks. */
  function Padded(data: seq<byte>): (p: seq<byte>)
    ensures |p| == 4096 * BlocksFor(|data|)
  {
    BlocksCover(|data|);
    data + Zeros(4096 * BlocksFor(|data|) - |data|)
  }

  /** The next number is above that of every live entry, until the 64-bit count is used up. */
  ghost predicate Numbered(dir: seq<DirEnt>, nextSeq: nat) {
    && nextSeq < 0x1_0000_0000_0000_0000
    && forall i :: 0 <= i < |dir| && dir[i].used ==> dir[i].sequence < nextSeq || nextSeq == 0xffff_ffff_ffff_ffff
  }

  function UsedUpTo(sb: Superblock, bitmap: seq<byte>, to: nat): set<nat> {
    set b: nat | sb.DataStart() <= b < to && BitGet(bitmap, b)
  }

  function UsedBlocks(sb: Superblock, bitmap: seq<byte>): set<nat> {
    UsedUpTo(sb, bitmap, sb.totalBlocks)
  }

  /** Every image from a point of a trail on agrees with `a` outside a range. */
  ghost predicate Within(trail: seq<seq<byte>>, from: nat, a: seq<byte>, low: int, high: int) {
    forall k :: from <= k < |trail| ==> SameOutside(a, trail[k], low, high)
  }

  lemma NothingWritten(trail: seq<seq<byte>>, a: seq<byte>, low: nat, high: int, none: seq<byte>)
    requires low <= |a| && none == []
    ensures Splice(a, low, none) == a && Within(trail, |trail|, a, low, high)
  {
  }

  lemma PaddedBlock(data: seq<byte>, i: nat, block: seq<byte>)
    requires 4096 * i < |data| && |block| == 4096
    requires var n := Min(4096 * (i + 1), |data|) - 4096 * i;
             block == data[4096 * i..4096 * i + n] + if n < 4096 then Zeros(4096)[n..] else block[n..]
    ensures 4096 * (i + 1) <= |Padded(data)| && block == Padded(data)[4096 * i..4096 * (i + 1)]
    ensures Padded(data)[..4096 * i] + block == Padded(data)[..4096 * (i + 1)]
  {
    BlocksCover(|data|);
    hide BlocksFor;
    var p := Padded(data);
    assert |p| >= 4096 * (i + 1);
    assert block == p[4096 * i..4096 * (i + 1)];
    assert p[..4096 * (i + 1)] == p[..4096 * i] + p[4096 * i..4096 * (i + 1)];
  }

  /** One more block of data: the image has grown by it, and every image on the way differs from the
      first only where the data goes. */
  lemma DataStep(before: seq<byte>, low: nat, high: nat, x: seq<byte>, block: seq<byte>,
                 trail: seq<seq<byte>>, trail': seq<seq<byte>>, from: nat)
    requires low + |x| + |block| <= high <= |before| && |block| == 4096
    requires Within(trail, from, before, low, high)
    requires Written(trail, trail', Splice(before, low, x), low + |x|, block)
    ensures trail <= trail' && |trail'| == |trail| + 8
    ensures Splice(Splice(before, low, x), low + |x|, block) == Splice(before, low, x + block)
    ensures Within(trail', from, before, low, high)
  {
    SpliceNext(before, low, x, block);
    forall k | from <= k < |trail'| ensures SameOutside(before, trail'[k], low, high) {
      if k >= |trail| {
        SpliceWithin(before, Splice(before, low, x), low, high, x, block[..512 * (k + 1 - |trail|)]);
      }
    }
  }

  lemma SpliceWithin(before: seq<byte>, was: seq<byte>, low: nat, high: nat, x: seq<byte>, y: seq<byte>)
    requires low + |x| + |y| <= high <= |before| && was == Splice(before, low, x)
    ensures SameOutside(before, Splice(was, low + |x|, y), low, high)
  {
  }

  /** Every image from a point of a trail on is one from which all paths but `p` read as before, and,
      if so promised, one on which a mount finds a sound volume. */
  ghost predicate Safe(trail: seq<seq<byte>>, from: nat, before: seq<byte>, sb: Superblock, p: seq<byte>, sound: bool) {
    forall k :: from <= k < |trail| ==> OthersSame(before, trail[k], p) && (sound ==> SoundImage(trail[k], sb))
  }

  lemma SafeExtends(t0: seq<seq<byte>>, t1: seq<seq<byte>>, from: nat, before: seq<byte>, sb: Superblock, p: seq<byte>,
                    sound: bool)
    requires t0 <= t1 && Safe(t0, from, before, sb, p, sound) && Safe(t1, |t0|, before, sb, p, sound)
    ensures Safe(t1, from, before, sb, p, sound)
  {
    hide OthersSame, SoundImage;
    forall k | from <= k < |t1| ensures OthersSame(before, t1[k], p) && (sound ==> SoundImage(t1[k], sb)) {
      assert k < |t0| ==> t1[k] == t0[k];
    }
  }

  lemma OthersSameChain(a: seq<byte>, b: seq<byte>, c: seq<byte>, p: seq<byte>)
    requires OthersSame(a, b, p) && OthersSame(b, c, p)
    ensures OthersSame(a, c, p)
  {
    hide ReadBack;
  }

  lemma OthersSameSelf(a: seq<byte>, p: seq<byte>)
    ensures OthersSame(a, a, p)
  {
  }

  /** A run with room is on the device, and so is what is written to it. */
  lemma RoomFits(sb: Superblock, image: seq<byte>, bitmap: seq<byte>, dir: seq<DirEnt>, p: seq<byte>, first: nat,
                 len: nat)
    requires Coherent(image, sb, bitmap, dir) && if len == 0 then first == 0
               else Room(sb, bitmap, dir, p, first, BlocksFor(len))
    ensures 4096 * (first + BlocksFor(len)) <= |image| && first + BlocksFor(len) < 0x1_0000_0000
    ensures len == 0 <==> BlocksFor(len) == 0
  {
    BlocksCover(len);
    FitsBounds(sb, image);
  }

  lemma MarkedIsPlan(bitmap: seq<byte>, dir: seq<DirEnt>, p: seq<byte>, freed: seq<byte>, first: nat, blocks: nat,
                     plan: seq<byte>)
    requires Freed(bitmap, dir, p, freed) && Marked(freed, plan, first, blocks, true)
    ensures Planned(bitmap, dir, p, first, blocks, plan) && |plan| == |bitmap|
  {
    hide Owned, Bit;
  }

  /** While the data goes down. */
  lemma DataSafe(trail: seq<seq<byte>>, from: nat, a: seq<byte>, b: seq<byte>, sb: Superblock, bitmap: seq<byte>,
                 dir: seq<DirEnt>, p: seq<byte>, first: nat, data: seq<byte>)
    requires Coherent(a, sb, bitmap, dir) && Sound(sb, bitmap, dir) && 4096 * (first + BlocksFor(|data|)) <= |a|
    requires if data == [] then first == 0 else Room(sb, bitmap, dir, p, first, BlocksFor(|data|))
    requires Within(trail, from, a, 4096 * first, 4096 * (first + BlocksFor(|data|)))
    requires b == Splice(a, 4096 * first, Padded(data)) && (BlocksFor(|data|) == 0 ==> from >= |trail|)
    ensures Safe(trail, from, a, sb, p, true)
    ensures Coherent(b, sb, bitmap, dir) && OthersSame(a, b, p)
    ensures 4096 * first + |data| <= |b| && b[4096 * first..4096 * first + |data|] == data
  {
    BlocksCover(|data|);
    hide BlocksFor, Sound, OthersSame, SoundImage, Coherent, Splice, RunFor;
    var low, blocks := 4096 * first, BlocksFor(|data|);
    SpliceSlice(a, low, Padded(data));
    assert b[low..low + |data|] == b[low..low + |Padded(data)|][..|data|];
    if blocks > 0 {
      DataPhase(a, b, sb, bitmap, dir, p, first, blocks);
      forall k | from <= k < |trail| ensures OthersSame(a, trail[k], p) && SoundImage(trail[k], sb) {
        DataPhase(a, trail[k], sb, bitmap, dir, p, first, blocks);
        CoherentIsSoundImage(trail[k], sb, bitmap, dir);
      }
    } else {
      WrittenNone([], a, low, Padded(data));
      OthersSameSelf(a, p);
    }
  }

  /** While the bitmap goes from one that suits the live entries to another that does. */
  lemma MixedSafe(trail: seq<seq<byte>>, from: nat, a: seq<byte>, b: seq<byte>, sb: Superblock, bitmap: seq<byte>,
                  dir: seq<DirEnt>, p: seq<byte>, before: seq<byte>, sound: bool)
    requires Coherent(a, sb, bitmap, dir) && Sound(sb, bitmap, dir) && OthersSame(before, a, p)
    requires Between(trail, from, a, b, 4096, 4096 * sb.DirStart()) && SameOutside(a, b, 4096, 4096 * sb.DirStart())
    requires sound ==> forall i :: 0 <= i < |dir| && dir[i].used ==> EntrySound(sb, BitmapOf(b, sb), dir[i])
    ensures Safe(trail, from, before, sb, p, sound)
    ensures Coherent(b, sb, BitmapOf(b, sb), dir) && OthersSame(before, b, p)
  {
    hide Sound, SoundImage, EntrySound, ReadBack, Validate, Parse, DirOf;
    BitmapPhase(a, b, sb, bitmap, dir);
    OthersSameChain(before, a, b, p);
    forall k | from <= k < |trail| ensures OthersSame(before, trail[k], p) && (sound ==> SoundImage(trail[k], sb)) {
      var x := trail[k];
      assert Mixture(a, b, x, 4096, 4096 * sb.DirStart());
      BitmapPhase(a, x, sb, bitmap, dir);
      OthersSameChain(before, a, x, p);
      if sound {
        MixedBitmapSound(sb, bitmap, BitmapOf(b, sb), BitmapOf(x, sb), dir);
        CoherentIsSoundImage(x, sb, BitmapOf(x, sb), dir);
      }
    }
  }

  lemma BitmapSafe(trail: seq<seq<byte>>, from: nat, before: seq<byte>, a: seq<byte>, b: seq<byte>, sb: Superblock,
                   bitmap: seq<byte>, dir: seq<DirEnt>, p: seq<byte>, first: nat, blocks: nat, plan: seq<byte>)
    requires Coherent(a, sb, bitmap, dir) && Sound(sb, bitmap, dir) && OthersSame(before, a, p)
    requires Between(trail, from, a, b, 4096, 4096 * sb.DirStart()) && SameOutside(a, b, 4096, 4096 * sb.DirStart())
    requires Planned(bitmap, dir, p, first, blocks, plan) && BitmapOf(b, sb) == plan
    ensures Safe(trail, from, before, sb, p, Find(dir, p).None?)
    ensures Coherent(b, sb, plan, dir) && OthersSame(before, b, p)
  {
    hide Sound, Coherent, OthersSame, Between, Safe, Planned, EntrySound, FindFrom, BitmapOf;
    var sound := Find(dir, p).None?;
    if sound {
      forall i | 0 <= i < |dir| && dir[i].used ensures EntrySound(sb, plan, dir[i]) {
        PlanKeeps(sb, bitmap, dir, p, first, blocks, plan, i);
      }
    }
    MixedSafe(trail, from, a, b, sb, bitmap, dir, p, before, sound);
  }

  /** All three phases of a write are safe. */
  lemma SafeJoin(t1: seq<seq<byte>>, t2: seq<seq<byte>>, t3: seq<seq<byte>>, from: nat, before: seq<byte>,
                 sb: Superblock, p: seq<byte>, sound: bool)
    requires t1 <= t2 <= t3 && Safe(t1, from, before, sb, p, true) && Safe(t2, |t1|, before, sb, p, sound)
    requires Safe(t3, |t2|, before, sb, p, true)
    ensures Safe(t3, from, before, sb, p, sound)
  {
    hide OthersSame, SoundImage;
    forall k | from <= k < |t3| ensures OthersSame(before, t3[k], p) && (sound ==> SoundImage(t3[k], sb)) {
      assert k < |t1| ==> t3[k] == t1[k];
      assert k < |t2| ==> t3[k] == t2[k];
    }
  }

  lemma StillNumbered(dir: seq<DirEnt>, slot: nat, nextSeq: nat)
    requires slot < |dir| && Numbered(dir, nextSeq)
    ensures Numbered(dir[slot := FreeEntry()], nextSeq)
  {
  }

  lemma RunOnDevice(sb: Superblock, bitmap: seq<byte>, dir: seq<DirEnt>, slot: nat)
    requires Sound(sb, bitmap, dir) && slot < |dir| && dir[slot].used && sb.totalBlocks < 0x1_0000_0000
    ensures dir[slot].firstBlock + BlocksFor(dir[slot].length) < 0x1_0000_0000 || BlocksFor(dir[slot].length) == 0
  {
    assert EntrySound(sb, bitmap, dir[slot]);
  }

  /** When the entry of `p` is off the disk, only `p` is gone. */
  lemma EntryGone(a: seq<byte>, b: seq<byte>, sb: Superblock, bitmap: seq<byte>, dir: seq<DirEnt>, slot: nat,
                  p: seq<byte>)
    requires Coherent(a, sb, bitmap, dir) && Sound(sb, bitmap, dir) && Find(dir, p) == Some(slot)
    requires SameOutside(a, b, 4096 * sb.DirStart(), 4096 * sb.DataStart())
    requires slot < |dir| && DirOf(b, sb) == dir[slot := FreeEntry()]
    ensures Coherent(b, sb, bitmap, dir[slot := FreeEntry()]) && Sound(sb, bitmap, dir[slot := FreeEntry()])
    ensures OthersSame(a, b, p) && SoundImage(b, sb)
    ensures Files(b, sb, dir[slot := FreeEntry()]) == Files(a, sb, dir) - {p}
    ensures Find(dir[slot := FreeEntry()], p).None?
    ensures Tight(sb, bitmap, dir) && BlocksFor(dir[slot].length) == 0 ==> Tight(sb, bitmap, dir[slot := FreeEntry()])
  {
    var now := dir[slot := FreeEntry()];
    hide Validate, Parse, FindFrom, DirOf, BitmapOf, Files, ReadBack, ReadPath, OthersSame, SoundImage, Tight, Writable,
         Utf8;
    forall i | 0 <= i < |dir| && i != slot && dir[i].used ensures dir[i].path != p {
      assert if i < slot then Apart(dir[i], dir[slot]) else Apart(dir[slot], dir[i]);
    }
    LiveInData(sb, bitmap, dir);
    hide Sound, BlocksFor, InData;
    DirPhase(a, b, sb, bitmap, dir, slot, FreeEntry(), p);
    ClearedSound(sb, bitmap, dir, slot);
    CoherentIsSoundImage(b, sb, bitmap, now);
    FindGone(dir, slot, p);
    FilesDropped(a, b, sb, bitmap, dir, bitmap, now, p);
    FitsBounds(sb, a);
    if Tight(sb, bitmap, dir) && BlocksFor(dir[slot].length) == 0 {
      RemovedTight(sb, bitmap, dir, slot, bitmap);
    }
  }

  lemma OnlyRunChanged(image: seq<byte>, sb: Superblock, bitmap: seq<byte>, dir: seq<DirEnt>, after: seq<byte>,
                       first: nat, blocks: nat)
    requires Coherent(image, sb, bitmap, dir) && Marked(bitmap, after, first, blocks, false)
    ensures |after| == 4096 * sb.bitmapBlocks && 4096 + |after| <= |image|
    ensures CleanOutside(image, after, first / 8, (first + blocks) / 8 + 1)
  {
    hide Validate, Parse, DirOf, BitGet;
    forall k | 0 <= k < |after| && !(first / 8 <= k < (first + blocks) / 8 + 1) ensures image[4096 + k] == after[k] {
      assert BitmapOf(image, sb)[k] == image[4096 + k];
    }
  }

  /** While the blocks of the removed file are given back. */
  lemma BlocksGone(trail: seq<seq<byte>>, from: nat, before: seq<byte>, a: seq<byte>, b: seq<byte>, sb: Superblock,
                   bitmap: seq<byte>, dir: seq<DirEnt>, slot: nat, after: seq<byte>, p: seq<byte>)
    requires slot < |dir| && dir[slot].used && Sound(sb, bitmap, dir) && Coherent(before, sb, bitmap, dir)
    requires Marked(bitmap, after, dir[slot].firstBlock, BlocksFor(dir[slot].length), false)
    requires Coherent(a, sb, bitmap, dir[slot := FreeEntry()]) && Sound(sb, bitmap, dir[slot := FreeEntry()])
    requires OthersSame(before, a, p) && Find(dir[slot := FreeEntry()], p).None?
    requires 4096 + |after| <= |a| && b == Splice(a, 4096, after) && |after| == 4096 * sb.bitmapBlocks
    requires Between(trail, from, a, b, 4096, 4096 * sb.DirStart())
    ensures Safe(trail, from, before, sb, p, true)
    ensures Coherent(b, sb, after, dir[slot := FreeEntry()]) && Sound(sb, after, dir[slot := FreeEntry()])
    ensures Files(b, sb, dir[slot := FreeEntry()]) == Files(before, sb, dir) - {p}
    ensures Tight(sb, bitmap, dir) ==> Tight(sb, after, dir[slot := FreeEntry()])
  {
    var now := dir[slot := FreeEntry()];
    SpliceSlice(a, 4096, after);
    assert BitmapOf(b, sb) == after;
    hide Validate, Parse, FindFrom, DirOf, BitmapOf, Files, ReadBack, ReadPath, OthersSame, SoundImage, Tight, Sound,
         BlocksFor, Splice, Marked, EntrySound, Safe, Between;
    RemovedSound(sb, bitmap, dir, slot, after);
    MixedSafe(trail, from, a, b, sb, bitmap, now, p, before, true);
    FilesDropped(before, b, sb, bitmap, dir, after, now, p);
    FitsBounds(sb, a);
    if Tight(sb, bitmap, dir) {
      RemovedTight(sb, bitmap, dir, slot, after);
    }
  }

  // ---- all or nothing ----

  /** What is on a volume. */
  datatype Held = Held(bitmap: seq<byte>, dir: seq<DirEnt>, files: map<seq<byte>, seq<byte>>)

  /** Every byte is from one of two bitmaps. */
  ghost predicate MixedBytes(a: seq<byte>, x: seq<byte>, b: seq<byte>) {
    |a| == |x| == |b| && forall k :: 0 <= k < |x| ==> x[k] == a[k] || x[k] == b[k]
  }

  /** A mount of the image finds a sound volume with this directory and these files. */
  ghost predicate Holds(image: seq<byte>, sb: Superblock, dir: seq<DirEnt>, files: map<seq<byte>, seq<byte>>) {
    SoundImage(image, sb) && DirOf(image, sb) == dir && Files(image, sb, dir) == files
  }

  /** So does one of every image from a point of a trail on: with what was on the volume before the image
      `at`, and with what is to be on it from there on. The bitmap is on its way. */
  ghost predicate Turns(trail: seq<seq<byte>>, from: nat, at: nat, sb: Superblock, v: Held, w: Held) {
    forall k :: from <= k < |trail| ==>
      && Holds(trail[k], sb, if k < at then v.dir else w.dir, if k < at then v.files else w.files)
      && MixedBytes(v.bitmap, BitmapOf(trail[k], sb), w.bitmap)
  }

  /** The directory on the disk is this one all along, and the bitmap is on its way. */
  ghost predicate DirStays(trail: seq<seq<byte>>, from: nat, sb: Superblock, dir: seq<DirEnt>, a: seq<byte>,
                           b: seq<byte>) {
    forall k :: from <= k < |trail| ==>
      4096 * sb.DataStart() <= |trail[k]| && DirOf(trail[k], sb) == dir && MixedBytes(a, BitmapOf(trail[k], sb), b)
  }

  lemma DataDirs(trail: seq<seq<byte>>, from: nat, a: seq<byte>, sb: Superblock, bitmap: seq<byte>, dir: seq<DirEnt>,
                 first: nat, blocks: nat, plan: seq<byte>)
    requires Coherent(a, sb, bitmap, dir) && Within(trail, from, a, 4096 * first, 4096 * (first + blocks))
    requires (if blocks == 0 then from >= |trail| else sb.DataStart() <= first) && |plan| == |bitmap|
    ensures DirStays(trail, from, sb, dir, bitmap, plan)
  {
    hide Validate, Parse, DirOf, BitmapOf;
    forall k | from <= k < |trail|
      ensures 4096 * sb.DataStart() <= |trail[k]| && DirOf(trail[k], sb) == dir && BitmapOf(trail[k], sb) == bitmap
    {
      SameMetadata(a, trail[k], sb, 4096 * first, 4096 * (first + blocks));
    }
  }

  lemma RoomDirs(trail: seq<seq<byte>>, from: nat, a: seq<byte>, sb: Superblock, bitmap: seq<byte>, dir: seq<DirEnt>,
                 p: seq<byte>, first: nat, len: nat, plan: seq<byte>)
    requires Coherent(a, sb, bitmap, dir) && Within(trail, from, a, 4096 * first, 4096 * (first + BlocksFor(len)))
    requires if len == 0 then first == 0 else Room(sb, bitmap, dir, p, first, BlocksFor(len))
    requires (BlocksFor(len) == 0 ==> from >= |trail|) && |plan| == |bitmap|
    ensures DirStays(trail, from, sb, dir, bitmap, plan)
  {
    BlocksCover(len);
    hide BlocksFor;
    DataDirs(trail, from, a, sb, bitmap, dir, first, BlocksFor(len), plan);
  }

  lemma LastDirs(trail: seq<seq<byte>>, x: seq<byte>, sb: Superblock, bitmap: seq<byte>, dir: seq<DirEnt>,
                 plan: seq<byte>)
    requires Coherent(x, sb, bitmap, dir) && |plan| == |bitmap|
    ensures DirStays(trail + [x], |trail|, sb, dir, bitmap, plan)
    ensures DirStays(trail + [x], |trail| + 1, sb, dir, bitmap, plan)
  {
    hide Validate, Parse, DirOf, BitmapOf;
  }

  lemma BitmapDirs(trail: seq<seq<byte>>, from: nat, a: seq<byte>, b: seq<byte>, sb: Superblock, bitmap: seq<byte>,
                   dir: seq<DirEnt>, plan: seq<byte>)
    requires Coherent(a, sb, bitmap, dir) && Between(trail, from, a, b, 4096, 4096 * sb.DirStart())
    requires |b| == |a| && BitmapOf(b, sb) == plan
    ensures DirStays(trail, from, sb, dir, bitmap, plan)
  {
    hide Validate, Parse, DirOf;
    forall k | from <= k < |trail|
      ensures 4096 * sb.DataStart() <= |trail[k]| && DirOf(trail[k], sb) == dir
      ensures MixedBytes(bitmap, BitmapOf(trail[k], sb), plan)
    {
      assert Mixture(a, b, trail[k], 4096, 4096 * sb.DirStart());
      SameMetadata(a, trail[k], sb, 4096, 4096 * sb.DirStart());
    }
  }

  /** Where a path is in no entry, the other files are what they were. */
  lemma PathAbsent(x: seq<byte>, a: seq<byte>, sb: Superblock, bitmap: seq<byte>, dir: seq<DirEnt>, p: seq<byte>)
    requires Coherent(a, sb, bitmap, dir) && Sound(sb, bitmap, dir) && SoundImage(x, sb) && OthersSame(a, x, p)
    requires Find(DirOf(x, sb), p).None?
    ensures Files(x, sb, DirOf(x, sb)) == Files(a, sb, dir) - {p}
  {
    hide Validate, Parse, Find, FindFrom, DirOf, BitmapOf, Files, ReadBack, ReadPath, OthersSame, Sound;
    FilesDropped(a, x, sb, bitmap, dir, BitmapOf(x, sb), DirOf(x, sb), p);
  }

  lemma NotAFile(a: seq<byte>, sb: Superblock, dir: seq<DirEnt>, p: seq<byte>)
    requires Fits(sb, a) && Find(dir, p).None?
    ensures Files(a, sb, dir) - {p} == Files(a, sb, dir)
  {
  }

  /** A new file is there after the last sector, the directory's, and not before. */
  lemma CreateAtomic(t1: seq<seq<byte>>, t2: seq<seq<byte>>, from: nat, a: seq<byte>, last: seq<byte>, sb: Superblock,
                     bitmap: seq<byte>, dir: seq<DirEnt>, p: seq<byte>, bitmap': seq<byte>, dir': seq<DirEnt>)
    requires Coherent(a, sb, bitmap, dir) && Sound(sb, bitmap, dir) && Find(dir, p).None?
    requires Coherent(last, sb, bitmap', dir') && Sound(sb, bitmap', dir') && |bitmap| == |bitmap'|
    requires t1 <= t2 && Safe(t2 + [last], from, a, sb, p, true) && from <= |t2|
    requires DirStays(t1, from, sb, dir, bitmap, bitmap') && DirStays(t2, |t1|, sb, dir, bitmap, bitmap')
    ensures Turns(t2 + [last], from, |t2|, sb, Held(bitmap, dir, Files(a, sb, dir)),
              Held(bitmap', dir', Files(last, sb, dir')))
  {
    hide Validate, Parse, Find, FindFrom, DirOf, BitmapOf, Files, OthersSame, Sound, SoundImage, MixedBytes;
    NotAFile(a, sb, dir, p);
    var t3 := t2 + [last];
    CoherentIsSoundImage(last, sb, bitmap', dir');
    MixedEnd(bitmap, bitmap');
    forall k | from <= k < |t2|
      ensures Holds(t3[k], sb, dir, Files(a, sb, dir)) && MixedBytes(bitmap, BitmapOf(t3[k], sb), bitmap')
    {
      assert t3[k] == t2[k] && (k < |t1| ==> t2[k] == t1[k]);
      PathAbsent(t3[k], a, sb, bitmap, dir, p);
    }
  }

  lemma MixedEnd(a: seq<byte>, b: seq<byte>)
    requires |a| == |b|
    ensures MixedBytes(a, b, b)
  {
  }

  lemma CoherentFits(a: seq<byte>, sb: Superblock, bitmap: seq<byte>, dir: seq<DirEnt>)
    requires Coherent(a, sb, bitmap, dir)
    ensures Fits(sb, a)
  {
  }

  /** A removed file is gone after the first sector, the directory's. */
  lemma RemoveAtomic(t1: seq<seq<byte>>, t2: seq<seq<byte>>, from: nat, a: seq<byte>, sb: Superblock, bitmap: seq<byte>,
                     dir: seq<DirEnt>, p: seq<byte>, bitmap': seq<byte>, dir': seq<DirEnt>)
    requires Coherent(a, sb, bitmap, dir) && Sound(sb, bitmap, dir) && Find(dir', p).None?
    requires t1 <= t2 && Safe(t2, from, a, sb, p, true)
    requires DirStays(t1, from, sb, dir', bitmap, bitmap') && DirStays(t2, |t1|, sb, dir', bitmap, bitmap')
    ensures Turns(t2, from, from, sb, Held(bitmap, dir, Files(a, sb, dir)),
              Held(bitmap', dir', Files(a, sb, dir) - {p}))
  {
    hide Validate, Parse, Find, FindFrom, DirOf, BitmapOf, Files, OthersSame, Sound, SoundImage, MixedBytes;
    forall k | from <= k < |t2|
      ensures Holds(t2[k], sb, dir', Files(a, sb, dir) - {p}) && MixedBytes(bitmap, BitmapOf(t2[k], sb), bitmap')
    {
      assert k < |t1| ==> t2[k] == t1[k];
      PathAbsent(t2[k], a, sb, bitmap, dir, p);
    }
  }

  /** Giving back the run of a removed file gives back its blocks. */
  lemma FreedByMark(sb: Superblock, image: seq<byte>, bitmap: seq<byte>, dir: seq<DirEnt>, p: seq<byte>,
                    after: seq<byte>)
    requires Coherent(image, sb, bitmap, dir) && Sound(sb, bitmap, dir) && Find(dir, p).Some?
    requires var e := dir[Find(dir, p).value];
             if BlocksFor(e.length) == 0 then after == bitmap
                  else Marked(bitmap, after, e.firstBlock, BlocksFor(e.length), false)
    ensures Freed(bitmap, dir, p, after)
  {
    FitsBounds(sb, image);
    assert EntrySound(sb, bitmap, dir[Find(dir, p).value]);
    hide BitGet, Find, FindFrom, BlocksFor, Validate, Parse, DirOf, BitmapOf;
  }

  /** The sectors it takes to mark the run of a new file. */
  lemma NewExtent(sb: Superblock, image: seq<byte>, bitmap: seq<byte>, dir: seq<DirEnt>, p: seq<byte>, first: nat,
                  len: nat, plan: seq<byte>)
    requires Coherent(image, sb, bitmap, dir) && Find(dir, p).None?
    requires Planned(bitmap, dir, p, first, BlocksFor(len), plan) && |plan| == |bitmap|
    requires if len == 0 then first == 0 else Room(sb, bitmap, dir, p, first, BlocksFor(len))
    ensures SectorsFor(first, len) ==
              8 * BlocksFor(len) + 1
              + if len == 0 then 0 else SpanSize(first / 8, (first + BlocksFor(len) - 1) / 8 + 1)
    ensures len > 0 ==> Extent(bitmap, plan, first / 8, (first + BlocksFor(len) - 1) / 8 + 1)
    ensures len == 0 ==> plan == bitmap
  {
    SectorsForSpan(first, len);
    BitmapHolds(sb, image, bitmap, dir);
    hide BlocksFor, SectorsFor, Coherent, Planned, Room, SpanSize, Extent, Find, Superblock.DataStart;
    if len > 0 {
      NewRunExtent(sb, bitmap, dir, p, first, BlocksFor(len), plan);
    } else {
      NoRunSame(bitmap, dir, p, first, plan);
    }
  }

  lemma SectorsForSpan(first: nat, len: nat)
    ensures SectorsFor(first, len) ==
              8 * BlocksFor(len) + 1
              + if len == 0 then 0 else SpanSize(first / 8, (first + BlocksFor(len) - 1) / 8 + 1)
    ensures BlocksFor(len) == 0 <==> len == 0
  {
    BlocksCover(len);
    hide BlocksFor;
    if len > 0 {
      RunSpan(first, BlocksFor(len));
    }
    hide SpanSize;
  }

  lemma BitmapHolds(sb: Superblock, image: seq<byte>, bitmap: seq<byte>, dir: seq<DirEnt>)
    requires Coherent(image, sb, bitmap, dir)
    ensures sb.totalBlocks <= 8 * |bitmap|
  {
    FitsBounds(sb, image);
    hide Validate, Parse, DirOf;
  }

  lemma NewRunExtent(sb: Superblock, bitmap: seq<byte>, dir: seq<DirEnt>, p: seq<byte>, first: nat, blocks: nat,
                     plan: seq<byte>)
    requires Find(dir, p).None? && Planned(bitmap, dir, p, first, blocks, plan) && blocks > 0
    requires Room(sb, bitmap, dir, p, first, blocks) && sb.totalBlocks <= 8 * |bitmap|
    ensures Extent(bitmap, plan, first / 8, (first + blocks - 1) / 8 + 1)
  {
    hide BlocksFor, BitGet, FindFrom, Extent, Superblock.DataStart;
    MarkedExtent(bitmap, plan, first, blocks);
  }

  lemma NoRunSame(bitmap: seq<byte>, dir: seq<DirEnt>, p: seq<byte>, first: nat, plan: seq<byte>)
    requires Find(dir, p).None? && Planned(bitmap, dir, p, first, 0, plan)
    ensures plan == bitmap
  {
    hide BlocksFor, BitGet, FindFrom;
    SameBitmap(bitmap, plan);
  }

  lemma NothingSafe(trail: seq<seq<byte>>, before: seq<byte>, sb: Superblock, p: seq<byte>)
    ensures Safe(trail, |trail|, before, sb, p, true) && Safe(trail, |trail|, before, sb, p, false)
  {
  }

  lemma LastSafe(trail: seq<seq<byte>>, x: seq<byte>, before: seq<byte>, sb: Superblock, p: seq<byte>)
    requires OthersSame(before, x, p) && SoundImage(x, sb)
    ensures Safe(trail + [x], |trail|, before, sb, p, true)
  {
    hide OthersSame, SoundImage;
  }

  lemma LiveWritable(sb: Superblock, bitmap: seq<byte>, dir: seq<DirEnt>)
    requires Sound(sb, bitmap, dir)
    ensures forall i :: 0 <= i < |dir| ==> Writable(dir[i])
  {
  }

  lemma SlotsCoherent(image: seq<byte>, sb: Superblock, bitmap: seq<byte>, dir: seq<DirEnt>)
    requires Coherent(image, sb, bitmap, dir)
    ensures |dir| == sb.EntryCount() && 4096 * sb.DataStart() <= |image|
    ensures forall i :: 0 <= i < |dir| ==> SlotOf(image, sb, i) == dir[i]
  {
    hide SlotOf, Validate, Parse;
  }

  /** What a write has done when the directory sector is down. */
  lemma StoreDone(image0: seq<byte>, image1: seq<byte>, image2: seq<byte>, image3: seq<byte>, sb: Superblock,
                  bitmap0: seq<byte>, dir0: seq<DirEnt>, plan: seq<byte>, slot: nat, e: DirEnt, data: seq<byte>)
    requires Coherent(image0, sb, bitmap0, dir0) && Sound(sb, bitmap0, dir0)
    requires slot < |dir0| && Writable(e) && e.used && e.length == |data|
    requires if Find(dir0, e.path).Some? then slot == Find(dir0, e.path).value else !dir0[slot].used
    requires if data == [] then e.firstBlock == 0 else Room(sb, bitmap0, dir0, e.path, e.firstBlock, BlocksFor(|data|))
    requires Planned(bitmap0, dir0, e.path, e.firstBlock, BlocksFor(|data|), plan)
    requires 4096 * e.firstBlock + |data| <= |image1|
    requires image1[4096 * e.firstBlock..4096 * e.firstBlock + |data|] == data
    requires SameOutside(image1, image2, 4096, 4096 * sb.DirStart()) && Coherent(image2, sb, plan, dir0)
    requires OthersSame(image0, image2, e.path)
    requires SameOutside(image2, image3, 4096 * sb.DirStart(), 4096 * sb.DataStart())
    requires DirOf(image3, sb) == dir0[slot := e]
    ensures Coherent(image3, sb, plan, dir0[slot := e]) && Sound(sb, plan, dir0[slot := e])
    ensures OthersSame(image0, image3, e.path) && SoundImage(image3, sb)
    ensures Files(image3, sb, dir0[slot := e]) == Files(image0, sb, dir0)[e.path := data]
    ensures Tight(sb, bitmap0, dir0) ==> Tight(sb, plan, dir0[slot := e])
  {
    var dir := dir0[slot := e];
    BlocksCover(|data|);
    assert InData(sb, e);
    hide Validate, Parse, FindFrom, BlocksFor, DirOf, BitmapOf, Files, ReadBack, ReadPath, OthersSame, SoundImage,
         Sound, Tight, Planned, Room, ValidatePath, Utf8;
    LiveInData(sb, bitmap0, dir0);
    DirPhase(image2, image3, sb, plan, dir0, slot, e, e.path);
    OthersSameChain(image0, image2, image3, e.path);
    PlanSound(sb, bitmap0, dir0, e.path, e.firstBlock, plan, slot, e);
    CoherentIsSoundImage(image3, sb, plan, dir);
    DataReads(image1, image2, image3, sb, dir, slot, e, data);
    FilesSet(image0, image3, sb, bitmap0, dir0, plan, dir, e.path, data);
    if Tight(sb, bitmap0, dir0) {
      PlanTight(sb, bitmap0, dir0, e.path, plan, slot, e);
    }
  }

  /** The data written is what the entry points at when all is done. */
  lemma DataReads(image1: seq<byte>, image2: seq<byte>, image3: seq<byte>, sb: Superblock, dir: seq<DirEnt>, slot: nat,
                  e: DirEnt, data: seq<byte>)
    requires Fits(sb, image3) && Find(dir, e.path) == Some(slot) && dir[slot] == e && GoodPath(e.path)
    requires e.length == |data| && 4096 * e.firstBlock + |data| <= |image1|
    requires image1[4096 * e.firstBlock..4096 * e.firstBlock + |data|] == data
    requires InData(sb, e)
    requires SameOutside(image1, image2, 4096, 4096 * sb.DirStart())
    requires SameOutside(image2, image3, 4096 * sb.DirStart(), 4096 * sb.DataStart())
    ensures ReadPath(image3, sb, dir, e.path) == Ok(data)
  {
    hide Validate, FindFrom, Utf8, ValidatePath;
    BlocksCover(|data|);
    ContentOnDisk(sb, image3, e);
    hide BlocksFor;
    if |data| > 0 {
      SameSlice(image1, image2, 4096, 4096 * sb.DirStart(), 4096 * e.firstBlock, 4096 * e.firstBlock + |data|);
      SameSlice(image2, image3, 4096 * sb.DirStart(), 4096 * sb.DataStart(),
                4096 * e.firstBlock, 4096 * e.firstBlock + |data|);
    }
  }

  /** Outside [low, high) the bitmap on the disk is the one in memory. */
  ghost predicate CleanOutside(image: seq<byte>, bitmap: seq<byte>, low: nat, high: nat)
    requires 4096 + |bitmap| <= |image|
  {
    forall k :: 0 <= k < |bitmap| && !(low <= k < high) ==> image[4096 + k] == bitmap[k]
  }

  /** Sectors [first, sector) of the bitmap are on the disk, and nothing else has changed. */
  ghost predicate Flushed(before: seq<byte>, now: seq<byte>, bitmap: seq<byte>, first: nat, sector: nat) {
    && |now| == |before| && 4096 + |bitmap| <= |before|
    && (forall k :: 0 <= k < |now| ==>
          now[k] == if 0 <= k - 4096 < |bitmap| && 512 * first <= k - 4096 < 512 * sector then bitmap[k - 4096]
              else before[k])
  }

  lemma FlushStep(before: seq<byte>, was: seq<byte>, now: seq<byte>, bitmap: seq<byte>, first: nat, sector: nat)
    requires Flushed(before, was, bitmap, first, sector) && first <= sector && 512 * (sector + 1) <= |bitmap|
    requires now == Splice(was, 512 * (8 + sector), bitmap[512 * sector..512 * (sector + 1)])
    ensures Flushed(before, now, bitmap, first, sector + 1)
    ensures Mixture(before, Splice(before, 4096, bitmap), now, 4096, 4096 + |bitmap|)
  {
  }

  lemma FlushStart(trail: seq<seq<byte>>, before: seq<byte>, bitmap: seq<byte>, first: nat)
    requires 4096 + |bitmap| <= |before|
    ensures Flushed(before, before, bitmap, first, first)
    ensures Between(trail, |trail|, before, Splice(before, 4096, bitmap), 4096, 4096 + |bitmap|)
  {
  }

  lemma BetweenNext(trail: seq<seq<byte>>, from: nat, a: seq<byte>, b: seq<byte>, x: seq<byte>, low: int, high: int)
    requires Between(trail, from, a, b, low, high) && Mixture(a, b, x, low, high)
    ensures Between(trail + [x], from, a, b, low, high)
  {
  }

  lemma FlushDone(before: seq<byte>, now: seq<byte>, bitmap: seq<byte>, low: nat, high: nat,
                  first: nat, sector: nat)
    requires Flushed(before, now, bitmap, first, sector) && 512 * first <= low
    requires high <= 512 * sector || |bitmap| <= 512 * sector
    requires 4096 + |bitmap| <= |before| && CleanOutside(before, bitmap, low, high)
    ensures now == Splice(before, 4096, bitmap)
  {
    forall k | 4096 <= k < 4096 + |bitmap| ensures now[k] == bitmap[k - 4096] {
      assert before[4096 + (k - 4096)] == bitmap[k - 4096] || low <= k - 4096 < high;
    }
    hide Flushed;
    assert now == Splice(before, 4096, bitmap) by {
      FlushedOutside(before, now, bitmap, first, sector);
    }
  }

  lemma FlushedOutside(before: seq<byte>, now: seq<byte>, bitmap: seq<byte>, first: nat, sector: nat)
    requires Flushed(before, now, bitmap, first, sector)
    ensures SameOutside(before, now, 4096, 4096 + |bitmap|)
  {
  }

  /** `out` is what the first `i` blocks of a file hold of it. */
  ghost predicate ReadSoFar(image: seq<byte>, e: DirEnt, i: nat, out: seq<byte>)
    requires e.length > 0 ==> 4096 * e.firstBlock + e.length <= |image|
  {
    |out| == Min(4096 * i, e.length) && out == Content(image, e)[..|out|]
  }

  lemma ReadNothing(image: seq<byte>, e: DirEnt)
    requires e.length > 0 ==> 4096 * e.firstBlock + e.length <= |image|
    ensures ReadSoFar(image, e, 0, [])
  {
  }

  lemma ReadStep(image: seq<byte>, e: DirEnt, i: nat, out: seq<byte>, block: seq<byte>)
    requires i < BlocksFor(e.length) && 4096 * (e.firstBlock + BlocksFor(e.length)) <= |image|
    requires e.length > 0 ==> 4096 * e.firstBlock + e.length <= |image|
    requires ReadSoFar(image, e, i, out)
    requires block == image[512 * (8 * (e.firstBlock + i))..512 * (8 * (e.firstBlock + i) + 8)]
    ensures |out| <= e.length && |block| == 4096
    ensures ReadSoFar(image, e, i + 1, out + block[..Min(e.length - |out|, 4096)])
  {
    BlocksCover(e.length);
    hide BlocksFor;
    var n := Min(e.length - |out|, 4096);
    assert |out| == 4096 * i && |out| + n == Min(4096 * (i + 1), e.length);
    var content := Content(image, e);
    SliceSlice(image, 4096 * e.firstBlock, 4096 * e.firstBlock + e.length, |out|, |out| + n);
    SliceSlice(image, 4096 * (e.firstBlock + i), 4096 * (e.firstBlock + i + 1), 0, n);
    assert content[|out|..|out| + n] == block[..n];
    Extended(content, out, block[..n]);
  }

  lemma Extended<T>(s: seq<T>, a: seq<T>, b: seq<T>)
    requires |a| + |b| <= |s| && a == s[..|a|] && b == s[|a|..|a| + |b|]
    ensures a + b == s[..|a + b|]
  {
  }

  lemma ReadAll(image: seq<byte>, e: DirEnt, out: seq<byte>)
    requires e.length > 0 ==> 4096 * e.firstBlock + e.length <= |image|
    requires ReadSoFar(image, e, BlocksFor(e.length), out)
    ensures out == Content(image, e)
  {
    BlocksCover(e.length);
  }

  lemma DirAfterFlush(a: seq<byte>, b: seq<byte>, sb: Superblock, dir: seq<DirEnt>, buf: seq<byte>, sector: nat)
    requires |buf| == 512 && |dir| == sb.EntryCount() && 4 * sector + 4 <= |dir| && 4096 * sb.DataStart() <= |a|
    requires b == Splice(a, 512 * (8 * sb.DirStart() + sector), buf)
    requires forall i :: 0 <= i < |dir| && !(4 * sector <= i < 4 * sector + 4) ==> SlotOf(a, sb, i) == dir[i]
    requires forall j :: 0 <= j < 4 ==> Decode(buf[128 * j..128 * j + 128]) == dir[4 * sector + j]
    ensures DirOf(b, sb) == dir && SameOutside(a, b, 4096 * sb.DirStart(), 4096 * sb.DataStart())
  {
    hide Decode, Splice;
    var base := 4096 * sb.DirStart();
    assert 512 * (8 * sb.DirStart() + sector) == base + 512 * sector;
    assert base + 512 * sector + 512 <= 4096 * sb.DataStart();
    forall i | 0 <= i < |dir| ensures SlotOf(b, sb, i) == dir[i] {
      assert base + 128 * i + 128 <= |a|;
      SlotAfterFlush(a, b, base, buf, sector, i);
      assert 0 <= i - 4 * sector < 4 ==> dir[4 * sector + (i - 4 * sector)] == dir[i];
    }
    hide SlotOf;
    SpliceSlice(a, base + 512 * sector, buf);
  }

  function SectorOfSlot(index: nat): nat {
    index / 4
  }

  lemma SectorHolds(sb: Superblock, index: nat)
    requires index < sb.EntryCount()
    ensures var sector := SectorOfSlot(index);
            && 4 * sector <= index < 4 * sector + 4 <= sb.EntryCount()
            && 512 * (8 * sb.DirStart() + sector) + 512 <= 4096 * sb.DataStart()
  {
  }

  /** Slots inside the rewritten sector hold the new bytes, the others the old. */
  lemma SlotAfterFlush(a: seq<byte>, b: seq<byte>, base: nat, buf: seq<byte>, sector: nat, i: nat)
    requires |buf| == 512 && base + 512 * sector + 512 <= |a| && base + 128 * i + 128 <= |a|
    requires b == Splice(a, base + 512 * sector, buf)
    ensures var j := i - 4 * sector;
            b[base + 128 * i..base + 128 * i + 128] == if 0 <= j < 4 then buf[128 * j..128 * j + 128]
                                                       else a[base + 128 * i..base + 128 * i + 128]
  {
    var j := i - 4 * sector;
    if 0 <= j < 4 {
      assert base + 128 * i == base + 512 * sector + 128 * j;
    }
  }

  // ---- formatting ----

  /** Nothing is on the volume: only the blocks of the metadata are in use. */
  ghost predicate Blank(sb: Superblock, bitmap: seq<byte>, dir: seq<DirEnt>) {
    && dir == FreeSlots(sb.EntryCount())
    && forall b: nat :: BitGet(bitmap, b) <==> b < sb.DataStart() || sb.totalBlocks <= b
  }

  /** The first sector is as it was, so a mount sees what it saw before or nothing. */
  ghost predicate Unformatted(before: seq<byte>, x: seq<byte>) {
    |x| == |before| >= 512 && x[..512] == before[..512]
  }

  /** A mount finds an empty, sound volume. */
  ghost predicate BlankImage(x: seq<byte>, sb: Superblock) {
    SoundImage(x, sb) && DirOf(x, sb) == FreeSlots(sb.EntryCount())
  }

  lemma FreshFits(sb: Superblock, image: seq<byte>, sectors: nat)
    requires Fresh(sectors) == Ok(sb) && |image| == 512 * sectors && sectors < 0x1_0000_0000
    ensures Fits(sb, image) && sb == FreshGeometry(sectors) && 4096 * sb.totalBlocks <= |image| && 512 <= |image|
    ensures sb.DataStart() < sb.totalBlocks <= 32768 * sb.bitmapBlocks < 0x1_0000_0000
    ensures 1 <= sb.bitmapBlocks && 1 <= sb.directoryBlocks
  {
  }

  lemma NewBitmap(sb: Superblock, zeros: seq<byte>, marked: seq<byte>, bitmap: seq<byte>)
    requires zeros == Zeros(4096 * sb.bitmapBlocks) && sb.totalBlocks <= 32768 * sb.bitmapBlocks
    requires Marked(zeros, marked, 0, sb.DataStart(), true)
    requires Marked(marked, bitmap, sb.totalBlocks, 32768 * sb.bitmapBlocks - sb.totalBlocks, true)
    ensures |bitmap| == 4096 * sb.bitmapBlocks
    ensures forall b: nat :: BitGet(bitmap, b) <==> b < sb.DataStart() || sb.totalBlocks <= b
    ensures forall dir: seq<DirEnt> :: Tight(sb, bitmap, dir)
  {
    forall b: nat | b < 32768 * sb.bitmapBlocks ensures !BitGet(zeros, b) {
      ZerosFree(4096 * sb.bitmapBlocks, b);
    }
    hide Bit;
  }

  lemma StillUnformatted(image0: seq<byte>, image1: seq<byte>, trail1: seq<seq<byte>>, trail2: seq<seq<byte>>,
                         from: nat, bitmap: seq<byte>, sb: Superblock)
    requires 4096 * sb.DataStart() <= |image0| && |bitmap| == 4096 * sb.bitmapBlocks
    requires trail1 <= trail2 && image1 == Splice(image0, 4096, bitmap)
    requires Within(trail1, from, image0, 4096, 4096 * (1 + sb.bitmapBlocks))
    requires Within(trail2, |trail1|, image1, 4096 * sb.DirStart(), 4096 * (sb.DirStart() + sb.directoryBlocks))
    ensures forall k :: from <= k < |trail2| ==> Unformatted(image0, trail2[k])
  {
    SpliceSlice(image0, 4096, bitmap);
    hide Splice;
    assert image1[..512] == image0[..512];
    forall k | from <= k < |trail2| ensures Unformatted(image0, trail2[k]) {
      if k < |trail1| {
        assert SameOutside(image0, trail1[k], 4096, 4096 * (1 + sb.bitmapBlocks));
        assert trail2[k] == trail1[k];
      } else {
        assert SameOutside(image1, trail2[k], 4096 * sb.DirStart(), 4096 * (sb.DirStart() + sb.directoryBlocks));
        assert trail2[k][..512] == image1[..512];
      }
    }
  }

  /** From the first sector of the superblock on, the new volume is there. */
  lemma BlankWhen(image: seq<byte>, bitmap: seq<byte>, sb: Superblock)
    requires Fits(sb, image) && 4096 * sb.DataStart() <= |image| && 512 <= |image|
    requires image[..512] == EncodeSuperblock(sb)[..512] && BitmapOf(image, sb) == bitmap
    requires image[4096 * sb.DirStart()..4096 * sb.DataStart()] == Zeros(4096 * sb.directoryBlocks)
    ensures Coherent(image, sb, bitmap, FreeSlots(sb.EntryCount())) && BlankImage(image, sb)
    ensures Sound(sb, bitmap, FreeSlots(sb.EntryCount())) && Numbered(FreeSlots(sb.EntryCount()), 0)
  {
    ZerosDecode(image, sb);
    SuperblockRoundTrip(sb, |image| / 512);
    hide Parse, Validate, EncodeSuperblock, DirOf, BitmapOf;
  }

  lemma NewVolume(image0: seq<byte>, image1: seq<byte>, image2: seq<byte>, image3: seq<byte>, trail2: seq<seq<byte>>,
                  trail3: seq<seq<byte>>, bitmap: seq<byte>, sb: Superblock)
    requires Fits(sb, image0) && 4096 * sb.DataStart() <= |image0| && 4096 <= |image0|
    requires |bitmap| == 4096 * sb.bitmapBlocks
    requires image1 == Splice(image0, 4096, bitmap)
    requires image2 == Splice(image1, 4096 * sb.DirStart(), Zeros(4096 * sb.directoryBlocks))
    requires image3 == Splice(image2, 0, EncodeSuperblock(sb))
    requires Written(trail2, trail3, image2, 0, EncodeSuperblock(sb))
    ensures trail2 <= trail3 && forall k :: |trail2| <= k < |trail3| ==> BlankImage(trail3[k], sb)
    ensures Coherent(image3, sb, bitmap, FreeSlots(sb.EntryCount()))
    ensures Sound(sb, bitmap, FreeSlots(sb.EntryCount())) && Numbered(FreeSlots(sb.EntryCount()), 0)
  {
    var dirLow, dirHigh, encoded := 4096 * sb.DirStart(), 4096 * sb.DataStart(), EncodeSuperblock(sb);
    SpliceSlice(image0, 4096, bitmap);
    SpliceSlice(image1, dirLow, Zeros(4096 * sb.directoryBlocks));
    SameSlice(image1, image2, dirLow, dirHigh, 4096, dirLow);
    hide Splice, EncodeSuperblock, BlankImage, DirOf, Validate, Written;
    forall n: nat | 1 <= n <= 8
      ensures var x := Splice(image2, 0, encoded[..512 * n]);
              BlankImage(x, sb) && Coherent(x, sb, bitmap, FreeSlots(sb.EntryCount()))
    {
      var x := Splice(image2, 0, encoded[..512 * n]);
      SpliceSlice(image2, 0, encoded[..512 * n]);
      SameSlice(image2, x, 0, 4096, 4096, dirLow);
      SameSlice(image2, x, 0, 4096, dirLow, dirHigh);
      assert x[..512] == x[0..512 * n][..512] == encoded[..512];
      FitsSame(sb, image0, x);
      BlankWhen(x, bitmap, sb);
    }
    assert encoded[..512 * 8] == encoded;
    assert Sound(sb, bitmap, FreeSlots(sb.EntryCount()));
    WrittenAt(trail2, trail3, image2, encoded);
    forall k | |trail2| <= k < |trail3| ensures BlankImage(trail3[k], sb) {
      var n: nat := k + 1 - |trail2|;
      assert trail3[k] == Splice(image2, 0, encoded[..512 * n]);
    }
  }

  lemma FitsSame(sb: Superblock, a: seq<byte>, b: seq<byte>)
    requires Fits(sb, a) && |a| == |b|
    ensures Fits(sb, b)
  {
  }

  lemma WrittenAt(t0: seq<seq<byte>>, t1: seq<seq<byte>>, image: seq<byte>, buf: seq<byte>)
    requires |buf| == 4096 <= |image| && Written(t0, t1, image, 0, buf)
    ensures t0 <= t1 && |t1| == |t0| + 8
    ensures forall k :: |t0| <= k < |t1| ==> t1[k] == Splice(image, 0, buf[..512 * (k + 1 - |t0|)])
  {
  }

  lemma FormatTrail(image0: seq<byte>, trail2: seq<seq<byte>>, trail3: seq<seq<byte>>, from: nat, sb: Superblock)
    requires trail2 <= trail3 && forall k :: from <= k < |trail2| ==> Unformatted(image0, trail2[k])
    requires forall k :: |trail2| <= k < |trail3| ==> BlankImage(trail3[k], sb)
    ensures forall k :: from <= k < |trail3| ==> Unformatted(image0, trail3[k]) || BlankImage(trail3[k], sb)
  {
    hide Unformatted, BlankImage;
    forall k | from <= k < |trail3| ensures Unformatted(image0, trail3[k]) || BlankImage(trail3[k], sb) {
      assert k < |trail2| ==> trail3[k] == trail2[k];
    }
  }

  lemma EmptyFiles(image: seq<byte>, sb: Superblock)
    requires Fits(sb, image)
    ensures Files(image, sb, FreeSlots(sb.EntryCount())) == map[]
  {
    assert Paths(FreeSlots(sb.EntryCount())) == {};
  }

  // ---- mounting ----

  lemma ParsedFits(sb: Superblock, image: seq<byte>)
    requires |image| % 512 == 0 && 512 <= |image| && |image| / 512 < 0x1_0000_0000 && Mounted(image) == Ok(sb)
    ensures Fits(sb, image) && 4096 * sb.DataStart() <= |image|
  {
  }

  lemma DecodedIsDir(image: seq<byte>, sb: Superblock, raw: seq<byte>, dir: seq<DirEnt>)
    requires 4096 * sb.DataStart() <= |image| && raw == image[4096 * sb.DirStart()..4096 * sb.DataStart()]
    requires |dir| == sb.EntryCount()
    requires forall i :: 0 <= i < |dir| ==> dir[i] == Decode(raw[128 * i..128 * i + 128])
    ensures dir == DirOf(image, sb)
  {
    hide Decode;
    forall i | 0 <= i < |dir| ensures dir[i] == SlotOf(image, sb, i) {
      SliceSlice(image, 4096 * sb.DirStart(), 4096 * sb.DataStart(), 128 * i, 128 * i + 128);
    }
  }
}
