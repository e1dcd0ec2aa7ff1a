/**
 What an image of the data disk means: its bitmap, its directory, and the files a mount would find.
 Lemmas say which parts of the image a file depends on.
 */
module Volume {
  import opened Results
  import opened Bytes
  import opened Bitmap
  import opened DiskLayout

  // ---- regions ----

  /** The geometry passed its checks, so every block it names is on the device. */
  ghost predicate Fits(sb: Superblock, image: seq<byte>) {
    |image| % 512 == 0 && |image| / 512 < 0x1_0000_0000 && Validate(sb, |image| / 512).Ok?
  }

  lemma FitsBounds(sb: Superblock, image: seq<byte>)
    requires Fits(sb, image)
    ensures 4096 * sb.totalBlocks <= |image| && 512 <= |image|
    ensures 1 <= sb.bitmapBlocks && 1 <= sb.directoryBlocks && sb.DataStart() < sb.totalBlocks < 0x1_0000_0000
    ensures sb.totalBlocks <= 8 * (4096 * sb.bitmapBlocks)
    ensures forall other: seq<byte> :: |other| == |image| ==> Fits(sb, other)
  {
  }

  function BitmapOf(image: seq<byte>, sb: Superblock): (r: seq<byte>)
    requires 4096 * sb.DirStart() <= |image|
    ensures |r| == 4096 * sb.bitmapBlocks
  {
    image[4096..4096 * sb.DirStart()]
  }

  function SlotAt(sb: Superblock, i: nat): nat {
    4096 * sb.DirStart() + 128 * i
  }

  function SlotOf(image: seq<byte>, sb: Superblock, i: nat): (r: DirEnt)
    requires SlotAt(sb, i) + 128 <= |image|
  {
    Decode(image[SlotAt(sb, i)..SlotAt(sb, i) + 128])
  }

  function DirOf(image: seq<byte>, sb: Superblock): (dir: seq<DirEnt>)
    requires 4096 * sb.DataStart() <= |image|
    ensures |dir| == sb.EntryCount()
    ensures forall i :: 0 <= i < |dir| ==> dir[i] == SlotOf(image, sb, i)
  {
    seq(sb.EntryCount(), i requires 0 <= i < sb.EntryCount() => SlotOf(image, sb, i))
  }

  // ---- lookup ----

  /** The first entry in use with this path. */
  function Find(dir: seq<DirEnt>, path: seq<byte>): (r: Option<nat>)
    ensures r.Some? ==> r.value < |dir| && dir[r.value].used && dir[r.value].path == path
    ensures r.Some? ==> forall i :: 0 <= i < r.value ==> !(dir[i].used && dir[i].path == path)
    ensures r.None? ==> forall i :: 0 <= i < |dir| ==> !(dir[i].used && dir[i].path == path)
  {
    FindFrom(dir, path, 0)
  }

  function FindFrom(dir: seq<DirEnt>, path: seq<byte>, i: nat): (r: Option<nat>)
    requires i <= |dir|
    ensures r.Some? ==> i <= r.value < |dir| && dir[r.value].used && dir[r.value].path == path
    ensures r.Some? ==> forall j :: i <= j < r.value ==> !(dir[j].used && dir[j].path == path)
    ensures r.None? ==> forall j :: i <= j < |dir| ==> !(dir[j].used && dir[j].path == path)
    decreases |dir| - i
  {
    if i == |dir| then None
    else if dir[i].used && dir[i].path == path then Some(i)
    else FindFrom(dir, path, i + 1)
  }

  predicate InData(sb: Superblock, e: DirEnt) {
    BlocksFor(e.length) > 0 ==>
      sb.DataStart() <= e.firstBlock && e.firstBlock + BlocksFor(e.length) <= sb.totalBlocks
  }

  /** The bytes an entry points at. */
  function Content(image: seq<byte>, e: DirEnt): seq<byte>
    requires e.length > 0 ==> 4096 * e.firstBlock + e.length <= |image|
  {
    if e.length == 0 then [] else image[4096 * e.firstBlock..4096 * e.firstBlock + e.length]
  }

  lemma BlocksCover(len: nat)
    ensures len <= 4096 * BlocksFor(len) < len + 4096
    ensures BlocksFor(len) == 0 <==> len == 0
  {
  }

  lemma ContentOnDisk(sb: Superblock, image: seq<byte>, e: DirEnt)
    requires Fits(sb, image) && InData(sb, e)
    ensures e.length > 0 ==>
              4096 * sb.DataStart() <= 4096 * e.firstBlock
              && 4096 * e.firstBlock + e.length <= 4096 * (e.firstBlock + BlocksFor(e.length)) <= |image|
  {
    BlocksCover(e.length);
  }

  /** What reading a path gives. */
  ghost function ReadPath(image: seq<byte>, sb: Superblock, dir: seq<DirEnt>, path: seq<byte>): Result<seq<byte>>
    requires Fits(sb, image)
  {
    if ValidatePath(path).Err? then Err(ValidatePath(path).error)
    else match Find(dir, path)
      case None => Err("file not found")
      case Some(i) =>
        if !InData(sb, dir[i]) then Err("corrupt directory entry")
        else ContentOnDisk(sb, image, dir[i]); Ok(Content(image, dir[i]))
  }

  ghost function Mounted(image: seq<byte>): Result<Superblock>
    requires |image| >= 512
  {
    Parse(image[..512], |image| / 512)
  }

  /** What reading a path gives after mounting the image. */
  ghost function ReadBack(image: seq<byte>, path: seq<byte>): Result<seq<byte>> {
    if |image| < 512 || Mounted(image).Err? || !Fits(Mounted(image).value, image) then Err("not mounted")
    else
      var sb := Mounted(image).value;
      FitsBounds(sb, image);
      ReadPath(image, sb, DirOf(image, sb), path)
  }

  // ---- what holds of a volume ----

  /** The image holds this geometry, bitmap and directory. */
  ghost predicate Coherent(image: seq<byte>, sb: Superblock, bitmap: seq<byte>, dir: seq<DirEnt>) {
    && Fits(sb, image)
    && 4096 * sb.DataStart() <= |image| && 512 <= |image|
    && Mounted(image) == Ok(sb)
    && BitmapOf(image, sb) == bitmap
    && DirOf(image, sb) == dir
  }

  /** A live entry's run is in the data area and every block of it is marked used. */
  ghost predicate EntrySound(sb: Superblock, bitmap: seq<byte>, e: DirEnt) {
    && Writable(e) && InData(sb, e)
    && forall b: nat :: InRun(b, e.firstBlock, BlocksFor(e.length)) ==> BitGet(bitmap, b)
  }

  /** Two live entries have different paths and share no block. */
  predicate Apart(d: DirEnt, e: DirEnt) {
    && d.path != e.path
    && (d.length == 0 || e.length == 0
        || d.firstBlock + BlocksFor(d.length) <= e.firstBlock
        || e.firstBlock + BlocksFor(e.length) <= d.firstBlock)
  }

  ghost predicate Sound(sb: Superblock, bitmap: seq<byte>, dir: seq<DirEnt>) {
    && (forall i :: 0 <= i < |dir| ==> if dir[i].used then EntrySound(sb, bitmap, dir[i]) else dir[i] == FreeEntry())
    && (forall i, j :: 0 <= i < j < |dir| && dir[i].used && dir[j].used ==> Apart(dir[i], dir[j]))
  }

  /** Every data block marked used belongs to a live file. */
  ghost predicate Tight(sb: Superblock, bitmap: seq<byte>, dir: seq<DirEnt>) {
    forall b: nat :: sb.DataStart() <= b < sb.totalBlocks && BitGet(bitmap, b) ==> Claimed(dir, b)
  }

  ghost predicate Claimed(dir: seq<DirEnt>, b: nat) {
    exists i :: 0 <= i < |dir| && dir[i].used && InRun(b, dir[i].firstBlock, BlocksFor(dir[i].length))
  }

  /** A mount of the image finds a sound volume. */
  ghost predicate SoundImage(image: seq<byte>, sb: Superblock) {
    && Fits(sb, image) && 4096 * sb.DataStart() <= |image| && 512 <= |image| && Mounted(image) == Ok(sb)
    && Sound(sb, BitmapOf(image, sb), DirOf(image, sb))
  }

  function Paths(dir: seq<DirEnt>): set<seq<byte>> {
    set i | 0 <= i < |dir| && dir[i].used :: dir[i].path
  }

  /** The files of a volume. */
  ghost function Files(image: seq<byte>, sb: Superblock, dir: seq<DirEnt>): map<seq<byte>, seq<byte>>
    requires Fits(sb, image)
  {
    map p | p in Paths(dir) && ReadPath(image, sb, dir, p).Ok? :: ReadPath(image, sb, dir, p).value
  }

  // ---- what reading depends on ----

  /** Metadata untouched is metadata read the same. */
  lemma SameMetadata(a: seq<byte>, b: seq<byte>, sb: Superblock, low: int, high: int)
    requires Fits(sb, a) && SameOutside(a, b, low, high)
    ensures Fits(sb, b) && 4096 * sb.DataStart() <= |a| && 512 <= |a|
    ensures 512 <= low ==> Mounted(b) == Mounted(a)
    ensures high <= 4096 || 4096 * sb.DirStart() <= low ==> BitmapOf(b, sb) == BitmapOf(a, sb)
    ensures high <= 4096 * sb.DirStart() || 4096 * sb.DataStart() <= low ==> DirOf(b, sb) == DirOf(a, sb)
  {
    FitsBounds(sb, a);
    if 512 <= low {
      SameSlice(a, b, low, high, 0, 512);
      assert a[..512] == a[0..512] && b[..512] == b[0..512];
    }
    if high <= 4096 * sb.DirStart() || 4096 * sb.DataStart() <= low {
      forall i | 0 <= i < sb.EntryCount() ensures SlotOf(b, sb, i) == SlotOf(a, sb, i) {
        SameSlice(a, b, low, high, SlotAt(sb, i), SlotAt(sb, i) + 128);
      }
    }
  }

  /** A path reads the same from two images when both directories find it in the same slot, the slots
      are equal, and so are the bytes it points at. */
  lemma SameRead(a: seq<byte>, b: seq<byte>, sb: Superblock, dirA: seq<DirEnt>, dirB: seq<DirEnt>, q: seq<byte>,
                 low: int, high: int)
    requires Fits(sb, a) && Fits(sb, b) && SameOutside(a, b, low, high)
    requires var i := Find(dirA, q);
             && Find(dirB, q) == i
             && (i.Some? ==>
                  dirB[i.value] == dirA[i.value] && (InData(sb, dirA[i.value]) ==> Avoids(dirA[i.value], low, high)))
    ensures ReadPath(b, sb, dirB, q) == ReadPath(a, sb, dirA, q)
  {
    hide ValidatePath, Validate, Find, BlocksFor;
    var i := Find(dirA, q);
    if i.Some? && InData(sb, dirA[i.value]) && dirA[i.value].length > 0 {
      var e := dirA[i.value];
      ContentOnDisk(sb, a, e);
      SameSlice(a, b, low, high, 4096 * e.firstBlock, 4096 * e.firstBlock + e.length);
    }
  }

  /** The entry's blocks are outside a range of bytes. */
  predicate Avoids(e: DirEnt, low: int, high: int) {
    e.length == 0 || 4096 * (e.firstBlock + BlocksFor(e.length)) <= low || high <= 4096 * e.firstBlock
  }

  /** Replacing a slot that is free or holds `p` does not move any other path. */
  lemma FindOther(dir: seq<DirEnt>, slot: nat, e: DirEnt, p: seq<byte>, q: seq<byte>)
    requires slot < |dir| && q != p && (dir[slot].used ==> dir[slot].path == p) && (e.used ==> e.path == p)
    ensures Find(dir[slot := e], q) == Find(dir, q)
  {
    hide FindFrom;
    var r, r' := Find(dir, q), Find(dir[slot := e], q);
    assert forall i :: 0 <= i < |dir| ==>
      (dir[slot := e][i].used && dir[slot := e][i].path == q <==> dir[i].used && dir[i].path == q);
  }

  lemma FindIt(dir: seq<DirEnt>, slot: nat, e: DirEnt)
    requires slot < |dir| && e.used
    requires forall i :: 0 <= i < |dir| && i != slot && dir[i].used ==> dir[i].path != e.path
    ensures Find(dir[slot := e], e.path) == Some(slot)
  {
    hide FindFrom;
    assert dir[slot := e][slot] == e;
  }

  lemma FindGone(dir: seq<DirEnt>, slot: nat, p: seq<byte>)
    requires slot < |dir|
    requires forall i :: 0 <= i < |dir| && i != slot && dir[i].used ==> dir[i].path != p
    ensures Find(dir[slot := FreeEntry()], p) == None
  {
    hide FindFrom;
  }

  // ---- soundness through each step ----

  /** In a sound volume every path in use reads. */
  lemma FilesReads(image: seq<byte>, sb: Superblock, bitmap: seq<byte>, dir: seq<DirEnt>, p: seq<byte>)
    requires Fits(sb, image) && Sound(sb, bitmap, dir)
    ensures p in Files(image, sb, dir) <==> Find(dir, p).Some?
    ensures Find(dir, p).Some? ==> ReadPath(image, sb, dir, p) == Ok(Files(image, sb, dir)[p])
    ensures Find(dir, p).None? ==> ReadPath(image, sb, dir, p).Err?
  {
    hide ValidatePath, Utf8, Validate, FindFrom, BitGet, Content, BlocksFor;
    if p in Paths(dir) {
      var i :| 0 <= i < |dir| && dir[i].used && dir[i].path == p;
    }
  }

  /** Marking more blocks keeps a volume sound, as does any mixture of the two bitmaps. */
  lemma MixedBitmapSound(sb: Superblock, before: seq<byte>, after: seq<byte>, mixed: seq<byte>, dir: seq<DirEnt>)
    requires Sound(sb, before, dir) && |mixed| == |before| == |after|
    requires forall i :: 0 <= i < |dir| && dir[i].used ==> EntrySound(sb, after, dir[i])
    requires forall k :: 0 <= k < |mixed| ==> mixed[k] == before[k] || mixed[k] == after[k]
    ensures Sound(sb, mixed, dir)
  {
    hide Bit, BlocksFor, Writable, InData;
    forall i | 0 <= i < |dir| && dir[i].used ensures EntrySound(sb, mixed, dir[i]) {
      var e := dir[i];
      assert EntrySound(sb, before, e) && EntrySound(sb, after, e);
      forall b: nat | InRun(b, e.firstBlock, BlocksFor(e.length)) ensures BitGet(mixed, b) {
        assert BitGet(before, b) && BitGet(after, b);
      }
    }
  }

  /** Marking a run keeps every entry that avoids it, and marking it used keeps every entry. */
  lemma MarkedKeepsEntry(sb: Superblock, before: seq<byte>, after: seq<byte>, first: nat, blocks: nat, used: bool,
                         e: DirEnt)
    requires Marked(before, after, first, blocks, used) && EntrySound(sb, before, e)
    requires used || forall b: nat :: InRun(b, e.firstBlock, BlocksFor(e.length)) ==> !InRun(b, first, blocks)
    ensures EntrySound(sb, after, e)
  {
    hide BitGet, BlocksFor, Writable, InData;
  }

  /** A slot may be cleared. */
  lemma ClearedSound(sb: Superblock, bitmap: seq<byte>, dir: seq<DirEnt>, slot: nat)
    requires slot < |dir| && Sound(sb, bitmap, dir)
    ensures Sound(sb, bitmap, dir[slot := FreeEntry()])
  {
    hide EntrySound, Apart;
  }

  /** A slot may be set to an entry that is sound and apart from the others. */
  lemma SetSound(sb: Superblock, bitmap: seq<byte>, dir: seq<DirEnt>, slot: nat, e: DirEnt)
    requires slot < |dir| && e.used && EntrySound(sb, bitmap, e)
    requires forall i :: 0 <= i < |dir| && i != slot ==>
               if dir[i].used then EntrySound(sb, bitmap, dir[i]) else dir[i] == FreeEntry()
    requires forall i, j :: 0 <= i < j < |dir| && dir[i].used && dir[j].used ==> Apart(dir[i], dir[j])
    requires forall i :: 0 <= i < |dir| && i != slot && dir[i].used ==> Apart(dir[i], e)
    ensures Sound(sb, bitmap, dir[slot := e])
  {
    hide EntrySound, BlocksFor;
    var now := dir[slot := e];
    forall i, j | 0 <= i < j < |dir| && now[i].used && now[j].used
      ensures Apart(now[i], now[j])
    {
      if i == slot {
        ApartSymmetric(dir[j], e);
      } else if j != slot {
        assert Apart(dir[i], dir[j]);
      }
    }
  }

  lemma ApartSymmetric(d: DirEnt, e: DirEnt)
    requires Apart(d, e)
    ensures Apart(e, d)
  {
  }

  // ---- crash safety of each phase ----

  /** Mounting either image and reading any path but `p` gives the same. */
  ghost predicate OthersSame(a: seq<byte>, b: seq<byte>, p: seq<byte>) {
    forall q: seq<byte> :: q != p ==> ReadBack(b, q) == ReadBack(a, q)
  }

  lemma ReadBackIs(image: seq<byte>, sb: Superblock, bitmap: seq<byte>, dir: seq<DirEnt>, q: seq<byte>)
    requires Coherent(image, sb, bitmap, dir)
    ensures ReadBack(image, q) == ReadPath(image, sb, dir, q)
  {
  }

  /** A run of blocks that are free or belong to `p` is apart from every other live entry. */
  ghost predicate RunFor(bitmap: seq<byte>, dir: seq<DirEnt>, p: seq<byte>, first: nat, blocks: nat) {
    forall b: nat :: InRun(b, first, blocks) && BitGet(bitmap, b) ==> Owned(dir, p, b)
  }

  predicate Owned(dir: seq<DirEnt>, p: seq<byte>, b: nat) {
    var i := Find(dir, p);
    i.Some? && InRun(b, dir[i.value].firstBlock, BlocksFor(dir[i.value].length))
  }

  lemma RunApart(sb: Superblock, bitmap: seq<byte>, dir: seq<DirEnt>, p: seq<byte>, first: nat, blocks: nat, i: nat)
    requires Sound(sb, bitmap, dir) && RunFor(bitmap, dir, p, first, blocks)
    requires i < |dir| && dir[i].used && dir[i].path != p
    ensures blocks == 0 || dir[i].length == 0
            || dir[i].firstBlock + BlocksFor(dir[i].length) <= first || first + blocks <= dir[i].firstBlock
  {
    hide BitGet, FindFrom, Writable;
    var e := dir[i];
    BlocksCover(e.length);
    hide BlocksFor;
    var b := if e.firstBlock < first then first else e.firstBlock;
    if InRun(b, first, blocks) && InRun(b, e.firstBlock, BlocksFor(e.length)) {
      assert EntrySound(sb, bitmap, e);
      var j := Find(dir, p).value;
      assert if i < j then Apart(dir[i], dir[j]) else Apart(dir[j], dir[i]);
      BlocksCover(dir[j].length);
    }
  }

  /** Writing data into blocks that are free or belong to `p` disturbs no other file. */
  lemma DataPhase(a: seq<byte>, b: seq<byte>, sb: Superblock, bitmap: seq<byte>, dir: seq<DirEnt>, p: seq<byte>,
                  first: nat, blocks: nat)
    requires Coherent(a, sb, bitmap, dir) && Sound(sb, bitmap, dir) && RunFor(bitmap, dir, p, first, blocks)
    requires sb.DataStart() <= first && blocks > 0 && SameOutside(a, b, 4096 * first, 4096 * (first + blocks))
    ensures Coherent(b, sb, bitmap, dir) && OthersSame(a, b, p)
  {
    var low, high := 4096 * first, 4096 * (first + blocks);
    SameMetadata(a, b, sb, low, high);
    hide Validate, ValidatePath, FindFrom, BlocksFor, EntrySound, BitmapOf, DirOf, ReadBack, ReadPath;
    forall q: seq<byte> | q != p ensures ReadBack(b, q) == ReadBack(a, q) {
      ReadBackIs(a, sb, bitmap, dir, q);
      ReadBackIs(b, sb, bitmap, dir, q);
      var i := Find(dir, q);
      if i.Some? {
        RunApart(sb, bitmap, dir, p, first, blocks, i.value);
      }
      SameRead(a, b, sb, dir, dir, q, low, high);
    }
  }

  /** Changing the bitmap on the disk changes no file. */
  lemma BitmapPhase(a: seq<byte>, b: seq<byte>, sb: Superblock, bitmap: seq<byte>, dir: seq<DirEnt>)
    requires Coherent(a, sb, bitmap, dir) && Sound(sb, bitmap, dir) && SameOutside(a, b, 4096, 4096 * sb.DirStart())
    ensures Coherent(b, sb, BitmapOf(b, sb), dir)
    ensures forall q: seq<byte> :: ReadBack(b, q) == ReadBack(a, q)
  {
    SameMetadata(a, b, sb, 4096, 4096 * sb.DirStart());
    hide Validate, ValidatePath, FindFrom, BlocksFor, BitmapOf, DirOf, ReadBack, ReadPath, Writable;
    forall q: seq<byte> ensures ReadBack(b, q) == ReadBack(a, q) {
      ReadBackIs(a, sb, bitmap, dir, q);
      ReadBackIs(b, sb, BitmapOf(b, sb), dir, q);
      var i := Find(dir, q);
      if i.Some? {
        BlocksCover(dir[i.value].length);
        assert EntrySound(sb, bitmap, dir[i.value]);
      }
      SameRead(a, b, sb, dir, dir, q, 4096, 4096 * sb.DirStart());
    }
  }

  /** Rewriting the directory sector of one slot changes only the path of that slot. */
  lemma DirPhase(a: seq<byte>, b: seq<byte>, sb: Superblock, bitmap: seq<byte>, dir: seq<DirEnt>, slot: nat, e: DirEnt,
                 p: seq<byte>)
    requires Coherent(a, sb, bitmap, dir) && forall i :: 0 <= i < |dir| && dir[i].used ==> InData(sb, dir[i])
    requires slot < |dir| && (dir[slot].used ==> dir[slot].path == p) && (e.used ==> e.path == p)
    requires SameOutside(a, b, 4096 * sb.DirStart(), 4096 * sb.DataStart()) && DirOf(b, sb) == dir[slot := e]
    ensures Coherent(b, sb, bitmap, dir[slot := e]) && OthersSame(a, b, p)
  {
    SameMetadata(a, b, sb, 4096 * sb.DirStart(), 4096 * sb.DataStart());
    hide Validate, ValidatePath, FindFrom, BlocksFor, BitmapOf, DirOf, ReadBack, ReadPath, Writable;
    forall q: seq<byte> | q != p ensures ReadBack(b, q) == ReadBack(a, q) {
      ReadBackIs(a, sb, bitmap, dir, q);
      ReadBackIs(b, sb, bitmap, dir[slot := e], q);
      FindOther(dir, slot, e, p, q);
      var i := Find(dir, q);
      if i.Some? {
        BlocksCover(dir[i.value].length);
      }
      SameRead(a, b, sb, dir, dir[slot := e], q, 4096 * sb.DirStart(), 4096 * sb.DataStart());
    }
  }

  /** A coherent, sound volume is one a mount finds sound. */
  lemma CoherentIsSoundImage(image: seq<byte>, sb: Superblock, bitmap: seq<byte>, dir: seq<DirEnt>)
    requires Coherent(image, sb, bitmap, dir) && Sound(sb, bitmap, dir)
    ensures SoundImage(image, sb)
  {
  }

  lemma LiveInData(sb: Superblock, bitmap: seq<byte>, dir: seq<DirEnt>)
    requires Sound(sb, bitmap, dir)
    ensures forall i :: 0 <= i < |dir| && dir[i].used ==> InData(sb, dir[i])
  {
    hide InData, Writable;
  }

  // ---- what the operations do to the files ----

  /** All other paths read the same, and `p` reads `data`: one file has been set. */
  lemma FilesSet(a: seq<byte>, b: seq<byte>, sb: Superblock, bitmapA: seq<byte>, dirA: seq<DirEnt>,
                 bitmapB: seq<byte>, dirB: seq<DirEnt>, p: seq<byte>, data: seq<byte>)
    requires Coherent(a, sb, bitmapA, dirA) && Sound(sb, bitmapA, dirA)
    requires Coherent(b, sb, bitmapB, dirB) && Sound(sb, bitmapB, dirB)
    requires OthersSame(a, b, p) && ReadPath(b, sb, dirB, p) == Ok(data)
    ensures Files(b, sb, dirB) == Files(a, sb, dirA)[p := data]
  {
    hide Sound, ReadPath, Files, ReadBack, Find, Validate, Parse, BitmapOf, DirOf;
    var fa, fb := Files(a, sb, dirA), Files(b, sb, dirB);
    FilesReads(b, sb, bitmapB, dirB, p);
    forall q: seq<byte> | q != p ensures (q in fb <==> q in fa) && (q in fa ==> fb[q] == fa[q]) {
      SameFile(a, b, sb, bitmapA, dirA, bitmapB, dirB, p, q);
    }
    assert fb.Keys == fa[p := data].Keys;
  }

  lemma FilesDropped(a: seq<byte>, b: seq<byte>, sb: Superblock, bitmapA: seq<byte>, dirA: seq<DirEnt>,
                     bitmapB: seq<byte>, dirB: seq<DirEnt>, p: seq<byte>)
    requires Coherent(a, sb, bitmapA, dirA) && Sound(sb, bitmapA, dirA)
    requires Coherent(b, sb, bitmapB, dirB) && Sound(sb, bitmapB, dirB)
    requires OthersSame(a, b, p) && Find(dirB, p).None?
    ensures Files(b, sb, dirB) == Files(a, sb, dirA) - {p}
  {
    hide Sound, ReadPath, Files, ReadBack, Find, Validate, Parse, BitmapOf, DirOf;
    var fa, fb := Files(a, sb, dirA), Files(b, sb, dirB);
    FilesReads(b, sb, bitmapB, dirB, p);
    forall q: seq<byte> | q != p ensures (q in fb <==> q in fa) && (q in fa ==> fb[q] == fa[q]) {
      SameFile(a, b, sb, bitmapA, dirA, bitmapB, dirB, p, q);
    }
    assert fb.Keys == (fa - {p}).Keys;
  }

  lemma SameFile(a: seq<byte>, b: seq<byte>, sb: Superblock, bitmapA: seq<byte>, dirA: seq<DirEnt>,
                 bitmapB: seq<byte>, dirB: seq<DirEnt>, p: seq<byte>, q: seq<byte>)
    requires Coherent(a, sb, bitmapA, dirA) && Sound(sb, bitmapA, dirA)
    requires Coherent(b, sb, bitmapB, dirB) && Sound(sb, bitmapB, dirB)
    requires OthersSame(a, b, p) && q != p
    ensures q in Files(b, sb, dirB) <==> q in Files(a, sb, dirA)
    ensures q in Files(a, sb, dirA) ==> Files(b, sb, dirB)[q] == Files(a, sb, dirA)[q]
  {
    FilesReads(a, sb, bitmapA, dirA, q);
    FilesReads(b, sb, bitmapB, dirB, q);
    ReadBackIs(a, sb, bitmapA, dirA, q);
    ReadBackIs(b, sb, bitmapB, dirB, q);
    hide Sound, ReadPath, Files, ReadBack, Find, OthersSame, Validate, BitmapOf, DirOf;
    assert ReadBack(b, q) == ReadBack(a, q) by {
      assert OthersSame(a, b, p);
      OthersSameAt(a, b, p, q);
    }
  }

  lemma OthersSameAt(a: seq<byte>, b: seq<byte>, p: seq<byte>, q: seq<byte>)
    requires OthersSame(a, b, p) && q != p
    ensures ReadBack(b, q) == ReadBack(a, q)
  {
  }

  // ---- allocation ----

  /** Room for `blocks` blocks at `first`, counting the blocks of `p` as free. */
  ghost predicate Room(sb: Superblock, bitmap: seq<byte>, dir: seq<DirEnt>, p: seq<byte>, first: nat, blocks: nat) {
    sb.DataStart() <= first && first + blocks <= sb.totalBlocks && RunFor(bitmap, dir, p, first, blocks)
  }

  /** The lowest place for so many blocks of `p`. */
  ghost predicate Lowest(sb: Superblock, bitmap: seq<byte>, dir: seq<DirEnt>, p: seq<byte>, blocks: nat, first: nat) {
    if blocks == 0 then first == 0
    else Room(sb, bitmap, dir, p, first, blocks) && forall s: nat :: s < first ==> !Room(sb, bitmap, dir, p, s, blocks)
  }

  /** What a write of `len` bytes makes of the bitmap and the directory: the file has the lowest room there
      is, in its old slot or the first free one. */
  ghost predicate Stored(sb: Superblock, bitmap: seq<byte>, dir: seq<DirEnt>, p: seq<byte>, len: nat,
                         bitmap': seq<byte>, dir': seq<DirEnt>, first: nat, slot: nat) {
    && Lowest(sb, bitmap, dir, p, BlocksFor(len), first) && Planned(bitmap, dir, p, first, BlocksFor(len), bitmap')
    && slot < |dir| && (Find(dir, p).Some? ==> slot == Find(dir, p).value)
    && (Find(dir, p).None? ==> !dir[slot].used && forall i :: 0 <= i < slot ==> dir[i].used)
    && exists sequence: nat :: dir' == dir[slot := DirEnt(true, p, first, len, sequence)]
  }

  /** What a removal makes of them. */
  ghost predicate Dropped(bitmap: seq<byte>, dir: seq<DirEnt>, p: seq<byte>, bitmap': seq<byte>, dir': seq<DirEnt>) {
    Find(dir, p).Some? && dir' == dir[Find(dir, p).value := FreeEntry()] && Freed(bitmap, dir, p, bitmap')
  }

  /** How many sectors it takes to write a new file: its blocks, the part of the bitmap that marks them,
      and one of the directory. */
  function SectorsFor(first: nat, len: nat): nat {
    var blocks := BlocksFor(len);
    8 * blocks + (if blocks == 0 then 0 else (first + blocks - 1) / 4096 - first / 4096 + 1) + 1
  }

  /** Why a write is refused, if it is. */
  ghost function WriteError(sb: Superblock, bitmap: seq<byte>, dir: seq<DirEnt>, p: seq<byte>,
                            len: nat): Option<string> {
    if ValidatePath(p).Err? then Some(ValidatePath(p).error)
    else if len > 0xffff_ffff then Some("file is too large")
    else if len > 0 && !exists first: nat :: Room(sb, bitmap, dir, p, first, BlocksFor(len)) then Some("disk full")
    else if Find(dir, p).None? && forall i :: 0 <= i < |dir| ==> dir[i].used then Some("directory full")
    else None
  }

  /** The bitmap with the blocks of `p` given back. */
  ghost predicate Freed(bitmap: seq<byte>, dir: seq<DirEnt>, p: seq<byte>, freed: seq<byte>) {
    |freed| == |bitmap| && forall b: nat :: BitGet(freed, b) <==> BitGet(bitmap, b) && !Owned(dir, p, b)
  }

  /** The bitmap in which `p` has moved to a new run. */
  ghost predicate Planned(bitmap: seq<byte>, dir: seq<DirEnt>, p: seq<byte>, first: nat, blocks: nat, plan: seq<byte>) {
    && |plan| == |bitmap|
    && forall b: nat :: BitGet(plan, b) <==> InRun(b, first, blocks) || (BitGet(bitmap, b) && !Owned(dir, p, b))
  }

  lemma FreedRoom(sb: Superblock, bitmap: seq<byte>, dir: seq<DirEnt>, p: seq<byte>, freed: seq<byte>, first: nat,
                  blocks: nat)
    requires Freed(bitmap, dir, p, freed)
    ensures Room(sb, bitmap, dir, p, first, blocks)
       <==> sb.DataStart() <= first && FreeRun(freed, sb.totalBlocks, first, blocks)
  {
    hide BitGet, Owned;
  }

  /** Another file keeps all its blocks in the plan. */
  lemma PlanKeeps(sb: Superblock, bitmap: seq<byte>, dir: seq<DirEnt>, p: seq<byte>, first: nat, blocks: nat,
                  plan: seq<byte>, i: nat)
    requires Sound(sb, bitmap, dir) && Planned(bitmap, dir, p, first, blocks, plan)
    requires i < |dir| && dir[i].used && dir[i].path != p
    ensures EntrySound(sb, plan, dir[i])
  {
    hide BitGet, FindFrom, Writable, InData;
    var e := dir[i];
    assert EntrySound(sb, bitmap, e);
    var r := Find(dir, p);
    if r.Some? {
      var j := r.value;
      assert if i < j then Apart(dir[i], dir[j]) else Apart(dir[j], dir[i]);
      BlocksCover(dir[j].length);
    }
    BlocksCover(e.length);
    hide BlocksFor;
    forall b: nat | InRun(b, e.firstBlock, BlocksFor(e.length)) ensures BitGet(plan, b) {
      assert BitGet(bitmap, b);
    }
  }

  /** The new entry of `p` fits into the plan. */
  lemma PlanSound(sb: Superblock, bitmap: seq<byte>, dir: seq<DirEnt>, p: seq<byte>, first: nat, plan: seq<byte>,
                  slot: nat, e: DirEnt)
    requires Sound(sb, bitmap, dir) && slot < |dir| && Writable(e) && e.used && e.path == p && e.firstBlock == first
    requires Planned(bitmap, dir, p, first, BlocksFor(e.length), plan)
    requires e.length > 0 ==> Room(sb, bitmap, dir, p, first, BlocksFor(e.length))
    requires if Find(dir, p).Some? then slot == Find(dir, p).value else !dir[slot].used
    ensures Sound(sb, plan, dir[slot := e])
    ensures Find(dir[slot := e], p) == Some(slot)
  {
    hide FindFrom, Writable, BitGet, Owned;
    BlocksCover(e.length);
    forall i | 0 <= i < |dir| && i != slot && dir[i].used ensures dir[i].path != p {
      if Find(dir, p).Some? {
        assert if i < slot then Apart(dir[i], dir[slot]) else Apart(dir[slot], dir[i]);
      }
    }
    hide BlocksFor;
    forall i | 0 <= i < |dir| && i != slot
      ensures if dir[i].used then EntrySound(sb, plan, dir[i]) else dir[i] == FreeEntry()
      ensures dir[i].used ==> Apart(dir[i], e)
    {
      if dir[i].used {
        PlanKeeps(sb, bitmap, dir, p, first, BlocksFor(e.length), plan, i);
        if e.length > 0 {
          RunApart(sb, bitmap, dir, p, first, BlocksFor(e.length), i);
        }
      }
    }
    assert EntrySound(sb, plan, e);
    SetSound(sb, plan, dir, slot, e);
    FindIt(dir, slot, e);
  }

  lemma PlanTight(sb: Superblock, bitmap: seq<byte>, dir: seq<DirEnt>, p: seq<byte>, plan: seq<byte>, slot: nat,
                  e: DirEnt)
    requires Tight(sb, bitmap, dir) && slot < |dir| && e.used
    requires Planned(bitmap, dir, p, e.firstBlock, BlocksFor(e.length), plan)
    requires if Find(dir, p).Some? then slot == Find(dir, p).value else !dir[slot].used
    ensures Tight(sb, plan, dir[slot := e])
  {
    hide BitGet, BlocksFor, FindFrom;
    forall b: nat | sb.DataStart() <= b < sb.totalBlocks && BitGet(plan, b) ensures Claimed(dir[slot := e], b) {
      if InRun(b, e.firstBlock, BlocksFor(e.length)) {
        assert dir[slot := e][slot] == e;
      } else {
        var i :| 0 <= i < |dir| && dir[i].used && InRun(b, dir[i].firstBlock, BlocksFor(dir[i].length));
        assert i != slot;
        assert dir[slot := e][i] == dir[i];
      }
    }
  }

  // ---- removal ----

  /** The bitmap once the run of a removed entry has been given back. */
  lemma RemovedSound(sb: Superblock, bitmap: seq<byte>, dir: seq<DirEnt>, slot: nat, after: seq<byte>)
    requires Sound(sb, bitmap, dir) && slot < |dir| && dir[slot].used
    requires Marked(bitmap, after, dir[slot].firstBlock, BlocksFor(dir[slot].length), false)
    ensures forall i :: 0 <= i < |dir| && i != slot && dir[i].used ==> EntrySound(sb, after, dir[i])
    ensures Sound(sb, after, dir[slot := FreeEntry()])
  {
    hide BitGet, Writable, InData, Marked, BlocksFor, Apart;
    forall i | 0 <= i < |dir| && i != slot && dir[i].used ensures EntrySound(sb, after, dir[i]) {
      assert if i < slot then Apart(dir[i], dir[slot]) else Apart(dir[slot], dir[i]);
      ApartRuns(dir[i], dir[slot]);
      assert EntrySound(sb, bitmap, dir[i]);
      MarkedKeepsEntry(sb, bitmap, after, dir[slot].firstBlock, BlocksFor(dir[slot].length), false, dir[i]);
    }
  }

  lemma ApartRuns(d: DirEnt, e: DirEnt)
    requires Apart(d, e) || Apart(e, d)
    ensures forall b: nat :: InRun(b, d.firstBlock, BlocksFor(d.length)) ==>
              !InRun(b, e.firstBlock, BlocksFor(e.length))
    ensures d.path != e.path
  {
    BlocksCover(d.length);
    BlocksCover(e.length);
    hide BlocksFor;
  }

  lemma RemovedTight(sb: Superblock, bitmap: seq<byte>, dir: seq<DirEnt>, slot: nat, after: seq<byte>)
    requires Tight(sb, bitmap, dir) && slot < |dir| && dir[slot].used
    requires Marked(bitmap, after, dir[slot].firstBlock, BlocksFor(dir[slot].length), false)
             || (BlocksFor(dir[slot].length) == 0 && after == bitmap)
    requires sb.totalBlocks <= 8 * |bitmap|
    ensures Tight(sb, after, dir[slot := FreeEntry()])
  {
    hide BitGet, BlocksFor;
    var now := dir[slot := FreeEntry()];
    forall b: nat | sb.DataStart() <= b < sb.totalBlocks && BitGet(after, b) ensures Claimed(now, b) {
      assert BitGet(bitmap, b) && !InRun(b, dir[slot].firstBlock, BlocksFor(dir[slot].length));
      var i :| 0 <= i < |dir| && dir[i].used && InRun(b, dir[i].firstBlock, BlocksFor(dir[i].length));
      assert now[i] == dir[i];
    }
  }

  // ---- a new volume ----

  lemma {:induction false} NoBits(k: nat)
    ensures !Bit(0, k)
  {
    if k > 0 {
      NoBits(k - 1);
    }
  }

  lemma ZerosFree(n: nat, b: nat)
    requires b / 8 < n
    ensures !BitGet(Zeros(n), b)
  {
    NoBits(b % 8);
  }

  function FreeSlots(n: nat): (dir: seq<DirEnt>)
    ensures |dir| == n && forall i :: 0 <= i < n ==> dir[i] == FreeEntry()
  {
    seq(n, _ => FreeEntry())
  }

  /** An empty directory on the disk reads as free slots. */
  lemma ZerosDecode(image: seq<byte>, sb: Superblock)
    requires 4096 * sb.DataStart() <= |image|
    requires image[4096 * sb.DirStart()..4096 * sb.DataStart()] == Zeros(4096 * sb.directoryBlocks)
    ensures DirOf(image, sb) == FreeSlots(sb.EntryCount())
  {
    var region := image[4096 * sb.DirStart()..4096 * sb.DataStart()];
    forall i | 0 <= i < sb.EntryCount() ensures SlotOf(image, sb, i) == FreeEntry() {
      SliceSlice(image, 4096 * sb.DirStart(), 4096 * sb.DataStart(), 128 * i, 128 * i + 128);
      ZeroSlot(region[128 * i..128 * i + 128]);
    }
  }

  lemma ZeroSlot(raw: seq<byte>)
    requires |raw| == 128 && raw[96] == 0
    ensures Decode(raw) == FreeEntry()
  {
    hide Utf8, ValidatePath;
  }
}
