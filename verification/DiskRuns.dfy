/**
 What holds over whole runs of the filesystem on the data disk: the files after any sequence of
 operations and reboots, the space in use, and when the disk is full.
 */
module DiskRuns {
  import opened Results
  import opened Bytes
  import opened Bitmap
  import opened DiskLayout
  import opened Volume
  import opened DiskSteps
  import opened DiskFs

  // ---- space ----

  /** The blocks all live files need. */
  function BlocksNeeded(dir: seq<DirEnt>): nat {
    if dir == [] then 0
    else
      var e := dir[|dir| - 1];
      BlocksNeeded(dir[..|dir| - 1]) + if e.used then BlocksFor(e.length) else 0
  }

  function BlockSet(first: nat, n: nat): set<nat> {
    set b: nat | first <= b < first + n && InRun(b, first, n)
  }

  function RunOf(e: DirEnt): set<nat> {
    BlockSet(e.firstBlock, BlocksFor(e.length))
  }

  lemma {:induction false} RunSize(first: nat, n: nat)
    ensures |BlockSet(first, n)| == n
  {
    if n == 0 {
      assert BlockSet(first, n) == {};
    } else {
      RunSize(first, n - 1);
      assert BlockSet(first, n) == BlockSet(first, n - 1) + {first + n - 1};
    }
  }

  function ClaimedBlocks(dir: seq<DirEnt>): set<nat> {
    if dir == [] then {}
    else
      var e := dir[|dir| - 1];
      ClaimedBlocks(dir[..|dir| - 1]) + if e.used then RunOf(e) else {}
  }

  lemma {:induction false} ClaimedBlocksAre(dir: seq<DirEnt>, b: nat)
    ensures b in ClaimedBlocks(dir) <==> Claimed(dir, b)
  {
    hide BlocksFor;
    if dir != [] {
      var n := |dir| - 1;
      ClaimedBlocksAre(dir[..n], b);
      if Claimed(dir[..n], b) {
        var i :| 0 <= i < n && dir[..n][i].used && InRun(b, dir[..n][i].firstBlock, BlocksFor(dir[..n][i].length));
        assert dir[i] == dir[..n][i];
      }
      if Claimed(dir, b) && !(dir[n].used && b in RunOf(dir[n])) {
        var i :| 0 <= i < |dir| && dir[i].used && InRun(b, dir[i].firstBlock, BlocksFor(dir[i].length));
        assert dir[..n][i] == dir[i];
      }
    }
  }

  lemma {:induction false} ClaimedSize(sb: Superblock, bitmap: seq<byte>, dir: seq<DirEnt>)
    requires Sound(sb, bitmap, dir)
    ensures |ClaimedBlocks(dir)| == BlocksNeeded(dir)
  {
    if dir != [] {
      var n := |dir| - 1;
      var before, e := dir[..n], dir[n];
      assert Sound(sb, bitmap, before) by {
        hide EntrySound, Apart;
      }
      ClaimedSize(sb, bitmap, before);
      if e.used {
        RunSize(e.firstBlock, BlocksFor(e.length));
        forall b | b in ClaimedBlocks(before) ensures b !in RunOf(e) {
          ClaimedBlocksAre(before, b);
          hide BlocksFor;
          var i :| 0 <= i < n && before[i].used && InRun(b, before[i].firstBlock, BlocksFor(before[i].length));
          assert Apart(dir[i], dir[n]);
          ApartRuns(dir[i], dir[n]);
          assert dir[i] == before[i];
        }
        assert ClaimedBlocks(before) !! RunOf(e);
      }
    }
  }

  /** As long as nothing has leaked, the space in use is what the live files need. */
  lemma UsageIsNeeded(sb: Superblock, bitmap: seq<byte>, dir: seq<DirEnt>)
    requires Sound(sb, bitmap, dir) && Tight(sb, bitmap, dir)
    ensures |UsedBlocks(sb, bitmap)| == BlocksNeeded(dir)
  {
    ClaimedSize(sb, bitmap, dir);
    forall b: nat ensures b in UsedBlocks(sb, bitmap) <==> b in ClaimedBlocks(dir) {
      ClaimedBlocksAre(dir, b);
      hide BlocksFor, BitGet, Writable;
      if Claimed(dir, b) {
        var i :| 0 <= i < |dir| && dir[i].used && InRun(b, dir[i].firstBlock, BlocksFor(dir[i].length));
        assert EntrySound(sb, bitmap, dir[i]);
      }
    }
    assert UsedBlocks(sb, bitmap) == ClaimedBlocks(dir);
  }

  /** The block belongs to a live file other than `p`. */
  ghost predicate OthersClaim(dir: seq<DirEnt>, p: seq<byte>, b: nat) {
    exists i :: 0 <= i < |dir| && dir[i].used && dir[i].path != p
        && InRun(b, dir[i].firstBlock, BlocksFor(dir[i].length))
  }

  /** As long as nothing has leaked, there is room for a file exactly where no other file has a block. */
  lemma RoomIsSpace(sb: Superblock, bitmap: seq<byte>, dir: seq<DirEnt>, p: seq<byte>, first: nat, blocks: nat)
    requires Sound(sb, bitmap, dir) && Tight(sb, bitmap, dir)
    ensures Room(sb, bitmap, dir, p, first, blocks)
       <==> && sb.DataStart() <= first && first + blocks <= sb.totalBlocks
            && forall b: nat :: InRun(b, first, blocks) ==> !OthersClaim(dir, p, b)
  {
    if sb.DataStart() <= first && first + blocks <= sb.totalBlocks {
      forall b: nat | InRun(b, first, blocks)
        ensures BitGet(bitmap, b) && !Owned(dir, p, b) <==> OthersClaim(dir, p, b)
      {
        BlockHeld(sb, bitmap, dir, p, b);
      }
    }
  }

  lemma OneSlotEach(sb: Superblock, bitmap: seq<byte>, dir: seq<DirEnt>, i: nat, j: nat)
    requires Sound(sb, bitmap, dir) && i < |dir| && j < |dir| && dir[i].used && dir[j].used
    requires dir[i].path == dir[j].path
    ensures i == j
  {
    hide EntrySound;
  }

  lemma BlockHeld(sb: Superblock, bitmap: seq<byte>, dir: seq<DirEnt>, p: seq<byte>, b: nat)
    requires Sound(sb, bitmap, dir) && Tight(sb, bitmap, dir) && sb.DataStart() <= b < sb.totalBlocks
    ensures BitGet(bitmap, b) && !Owned(dir, p, b) <==> OthersClaim(dir, p, b)
  {
    hide BlocksFor, BitGet, Writable, InData, FindFrom, Apart;
    if OthersClaim(dir, p, b) {
      var i :| 0 <= i < |dir| && dir[i].used && dir[i].path != p
          && InRun(b, dir[i].firstBlock, BlocksFor(dir[i].length));
      assert EntrySound(sb, bitmap, dir[i]);
      if Owned(dir, p, b) {
        var j := Find(dir, p).value;
        assert if i < j then Apart(dir[i], dir[j]) else Apart(dir[j], dir[i]);
        ApartRuns(dir[i], dir[j]);
      }
    }
    if BitGet(bitmap, b) && !Owned(dir, p, b) {
      assert Claimed(dir, b);
      var i :| 0 <= i < |dir| && dir[i].used && InRun(b, dir[i].firstBlock, BlocksFor(dir[i].length));
      if dir[i].path == p {
        var j := Find(dir, p).value;
        OneSlotEach(sb, bitmap, dir, i, j);
      }
    }
  }

  // ---- runs ----

  /** One step of a run; a reboot mounts the disk afresh. The last two are cut short: the power fails
      when so many sectors have been written, or before the first when the file is there already, and
      the disk is mounted afterwards. */
  datatype Op = Write(path: seq<byte>, data: seq<byte>) | Remove(path: seq<byte>) | Reboot
              | CutWrite(path: seq<byte>, data: seq<byte>, sectors: nat) | CutRemove(path: seq<byte>, sectors: nat)

  predicate WholeOp(op: Op) {
    !op.CutWrite? && !op.CutRemove?
  }

  function After(files: map<seq<byte>, seq<byte>>, op: Op): map<seq<byte>, seq<byte>> {
    match op
    case Write(path, data) => files[path := data]
    case CutWrite(path, data, _) => files[path := data]
    case Remove(path) => files - {path}
    case CutRemove(path, _) => files - {path}
    case Reboot => files
  }

  /** The files after a run, given which of its operations took effect. */
  ghost function Replay(ops: seq<Op>, done: seq<bool>): map<seq<byte>, seq<byte>>
    requires |ops| == |done|
  {
    if ops == [] then map[]
    else
      var n := |ops| - 1;
      var files := Replay(ops[..n], done[..n]);
      if done[n] then After(files, ops[n]) else files
  }

  /** When an operation takes effect: when it is not refused and, if it is cut short, a new file has all
      of its sectors and a removal has its first. */
  ghost predicate Effective(sb: Superblock, v: Held, op: Op) {
    match op
    case Write(path, data) => WriteError(sb, v.bitmap, v.dir, path, |data|).None?
    case Remove(path) => ValidatePath(path).Ok? && Find(v.dir, path).Some?
    case Reboot => true
    case CutWrite(path, data, sectors) =>
      && WriteError(sb, v.bitmap, v.dir, path, |data|).None? && Find(v.dir, path).None?
      && forall first: nat :: Lowest(sb, v.bitmap, v.dir, path, BlocksFor(|data|), first) ==>
           sectors >= SectorsFor(first, |data|)
    case CutRemove(path, sectors) => ValidatePath(path).Ok? && Find(v.dir, path).Some? && sectors > 0
  }

  /** What is on the volume when a whole write or a whole removal has taken effect. */
  ghost predicate Wrote(sb: Superblock, v: Held, path: seq<byte>, data: seq<byte>, w: Held) {
    && w.files == v.files[path := data]
    && exists first: nat, slot: nat :: Stored(sb, v.bitmap, v.dir, path, |data|, w.bitmap, w.dir, first, slot)
  }

  ghost predicate Removed(v: Held, path: seq<byte>, w: Held) {
    w.files == v.files - {path} && Dropped(v.bitmap, v.dir, path, w.bitmap, w.dir)
  }

  /** A step cut short leaves the directory and files of one side, and of the bitmap a part of each. */
  ghost predicate Cut(v: Held, x: Held, ok: bool, w: Held) {
    && MixedBytes(v.bitmap, w.bitmap, x.bitmap)
    && (if ok then w.dir == x.dir && w.files == x.files else w.dir == v.dir && w.files == v.files)
  }

  /** What one step makes of a volume, and whether it takes effect. */
  ghost predicate Next(sb: Superblock, v: Held, op: Op, w: Held, ok: bool) {
    && (ok <==> Effective(sb, v, op)) && Sound(sb, w.bitmap, w.dir)
    && match op
       case Write(path, data) => if ok then Wrote(sb, v, path, data, w) else w == v
       case Remove(path) => if ok then Removed(v, path, w) else w == v
       case Reboot => w == v
       case CutWrite(path, data, sectors) =>
         if Effective(sb, v, Write(path, data)) && Find(v.dir, path).None? then
           exists x :: Wrote(sb, v, path, data, x) && Cut(v, x, ok, w) && (ok ==> w == x) && (sectors == 0 ==> w == v)
         else w == v
       case CutRemove(path, sectors) =>
         if Effective(sb, v, Remove(path)) then exists x :: Removed(v, path, x) && Cut(v, x, ok, w) && (!ok ==> w == v)
         else w == v
  }

  /** From a new volume on, through any operations, reboots and power failures: each step finds the
      volume as the one before has left it, takes effect exactly when it should, and makes of the volume
      what it says. So the files are those that the operations that took effect put there, and the disk
      is coherent and sound. What is in use covers the files, and is no more when no operation was cut
      short. */
  method Run(dev: Device, ops: seq<Op>) returns (r: Result<DiskFs>, done: seq<bool>, ghost trace: seq<Held>)
    requires dev.Valid()
    requires forall i :: 0 <= i < |ops| && (ops[i].Write? || ops[i].CutWrite?) ==> Utf8(ops[i].path)
    modifies dev
    ensures dev.Valid() && (r.Ok? <==> Fresh(dev.sectors).Ok?)
    ensures r.Ok? ==>
              var fs := r.value;
              && fs.dev == dev && fs.Valid() && |done| == |ops| && fs.Contents() == Replay(ops, done)
              && |trace| == |ops| + 1 && Blank(fs.sb, trace[0].bitmap, trace[0].dir) && trace[|ops|] == fs.Volume()
              && (forall i :: 0 <= i < |ops| ==> Next(fs.sb, trace[i], ops[i], trace[i + 1], done[i]))
              && |UsedBlocks(fs.sb, fs.bitmap)| >= BlocksNeeded(fs.dir)
              && ((forall op :: op in ops ==> WholeOp(op)) ==>
                    Tight(fs.sb, fs.bitmap, fs.dir) && |UsedBlocks(fs.sb, fs.bitmap)| == BlocksNeeded(fs.dir))
  {
    hide Sound, Tight, Files, Numbered, Validate, Replay, WriteError, Utf8, Parse, BitmapOf, DirOf, WholeOp, Find, Next,
         Blank;
    done, trace := [], [];
    r := DiskFs.Format(dev);
    if r.Err? {
      return;
    }
    var fs := r.value;
    ghost var sb := fs.sb;
    trace := [fs.Volume()];
    ReplayNone();
    var i := 0;
    while i < |ops|
      invariant i <= |ops| && |done| == i && fs.dev == dev && fs.Valid() && fresh(fs) && dev.Valid() && fs.sb == sb
      invariant |trace| == i + 1 && trace[i] == fs.Volume() && Blank(sb, trace[0].bitmap, trace[0].dir)
      invariant forall k :: 0 <= k < i ==> Next(sb, trace[k], ops[k], trace[k + 1], done[k])
      invariant fs.Contents() == Replay(ops[..i], done)
      invariant (forall op :: op in ops[..i] ==> WholeOp(op)) ==> Tight(fs.sb, fs.bitmap, fs.dir)
    {
      var ok;
      fs, ok := Step(fs, ops[i]);
      ReplayStep(ops, done, i, ok);
      WholeSoFar(ops, i);
      done, trace := done + [ok], trace + [fs.Volume()];
      i := i + 1;
    }
    assert ops[..i] == ops;
    UsageCovers(fs.sb, fs.bitmap, fs.dir);
    if forall op :: op in ops ==> WholeOp(op) {
      UsageIsNeeded(fs.sb, fs.bitmap, fs.dir);
    }
    r := Ok(fs);
  }

  /** One operation, and a fresh mount where the power has failed. */
  method Step(was: DiskFs, op: Op) returns (fs: DiskFs, ok: bool)
    requires was.Valid() && (op.Write? || op.CutWrite? ==> Utf8(op.path))
    modifies was, was.dev
    ensures (fs == was || fresh(fs)) && fs.dev == was.dev && fs.Valid() && fs.sb == was.sb
    ensures Next(was.sb, old(was.Volume()), op, fs.Volume(), ok)
    ensures fs.Contents() == if ok then After(old(was.Contents()), op) else old(was.Contents())
    ensures WholeOp(op) && old(Tight(was.sb, was.bitmap, was.dir)) ==> Tight(fs.sb, fs.bitmap, fs.dir)
  {
    hide Sound, Tight, Files, Numbered, Validate, WriteError, Utf8, Parse, BitmapOf, DirOf, Find, FindFrom, SoundImage,
         Coherent, Safe, Stored, Dropped, ValidatePath, SectorsFor, Lowest, BlocksFor, MixedBytes, Turns;
    CoherentFits(was.dev.image, was.sb, was.bitmap, was.dir);
    match op {
      case Write(path, data) =>
        var w := was.WriteFile(path, data);
        fs, ok := was, w.Ok?;
      case Remove(path) =>
        var w := was.Remove(path);
        fs, ok := was, w.Ok?;
      case Reboot =>
        fs := Remount(was.dev, was.sb, was.bitmap, was.dir);
        ok := true;
      case CutWrite(path, data, sectors) =>
        fs, ok := StepCutWrite(was, path, data, sectors);
      case CutRemove(path, sectors) =>
        fs, ok := StepCutRemove(was, path, sectors);
    }
  }

  method StepCutWrite(was: DiskFs, path: seq<byte>, data: seq<byte>, sectors: nat) returns (fs: DiskFs, ok: bool)
    requires was.Valid() && Utf8(path)
    modifies was, was.dev
    ensures fresh(fs) && fs.dev == was.dev && fs.Valid() && fs.sb == was.sb
    ensures Next(was.sb, old(was.Volume()), CutWrite(path, data, sectors), fs.Volume(), ok)
    ensures fs.Contents() == if ok then old(was.Contents())[path := data] else old(was.Contents())
  {
    hide Sound, Tight, Files, Numbered, Validate, WriteError, Utf8, Parse, BitmapOf, DirOf, Find, FindFrom, SoundImage,
         Coherent, Safe, Stored, ValidatePath, SectorsFor, Lowest, BlocksFor, MixedBytes, Turns, Fits;
    var dev := was.dev;
    CoherentFits(dev.image, was.sb, was.bitmap, was.dir);
    if Find(was.dir, path).Some? {
      fs := Remount(dev, was.sb, was.bitmap, was.dir);
      return fs, false;
    }
    ghost var v, mark := was.Volume(), |dev.trail|;
    StartHolds(dev.image, was.sb, was.bitmap, was.dir);
    var n := |dev.trail| + sectors;
    var w := was.WriteFile(path, data);
    if w.Err? {
      fs := Remount(dev, was.sb, was.bitmap, was.dir);
      return fs, false;
    }
    StartHolds(dev.image, was.sb, was.bitmap, was.dir);
    ghost var x, at := was.Volume(), |dev.trail| - 1;
    ok := n >= |dev.trail|;
    ghost var first: nat, slot: nat :|
      && Stored(was.sb, v.bitmap, v.dir, path, |data|, x.bitmap, x.dir, first, slot)
      && |dev.trail| == mark + SectorsFor(first, |data|);
    StoredLowest(was.sb, v.bitmap, v.dir, path, |data|, x.bitmap, x.dir, first, slot);
    fs := CutAt(dev, was.sb, n, mark, at, v, x);
    CoherentFits(dev.image, fs.sb, fs.bitmap, fs.dir);
    assert Wrote(was.sb, v, path, data, x) && Cut(v, x, ok, fs.Volume());
  }

  method StepCutRemove(was: DiskFs, path: seq<byte>, sectors: nat) returns (fs: DiskFs, ok: bool)
    requires was.Valid()
    modifies was, was.dev
    ensures fresh(fs) && fs.dev == was.dev && fs.Valid() && fs.sb == was.sb
    ensures Next(was.sb, old(was.Volume()), CutRemove(path, sectors), fs.Volume(), ok)
    ensures fs.Contents() == if ok then old(was.Contents()) - {path} else old(was.Contents())
  {
    hide Sound, Tight, Files, Numbered, Validate, Utf8, Parse, BitmapOf, DirOf, Find, FindFrom, SoundImage, Coherent,
         Safe, Dropped, ValidatePath, MixedBytes, Turns, Fits;
    var dev := was.dev;
    CoherentFits(dev.image, was.sb, was.bitmap, was.dir);
    ghost var v, mark := was.Volume(), |dev.trail|;
    StartHolds(dev.image, was.sb, was.bitmap, was.dir);
    var n := |dev.trail| + sectors;
    var w := was.Remove(path);
    if w.Err? {
      fs := Remount(dev, was.sb, was.bitmap, was.dir);
      return fs, false;
    }
    StartHolds(dev.image, was.sb, was.bitmap, was.dir);
    ghost var x := was.Volume();
    ok := sectors > 0;
    DroppedSize(v.bitmap, v.dir, path, x.bitmap, x.dir);
    fs := CutAt(dev, was.sb, n, mark, mark, v, x);
    CoherentFits(dev.image, fs.sb, fs.bitmap, fs.dir);
    assert Removed(v, path, x) && Cut(v, x, ok, fs.Volume());
  }

  lemma StoredLowest(sb: Superblock, bitmap: seq<byte>, dir: seq<DirEnt>, p: seq<byte>, len: nat, bitmap': seq<byte>,
                     dir': seq<DirEnt>, first: nat, slot: nat)
    requires Stored(sb, bitmap, dir, p, len, bitmap', dir', first, slot)
    ensures |bitmap'| == |bitmap| && SectorsFor(first, len) > 0
    ensures forall f: nat :: Lowest(sb, bitmap, dir, p, BlocksFor(len), f) <==> f == first
  {
    hide Room, BlocksFor, Find, FindFrom;
  }

  lemma DroppedSize(bitmap: seq<byte>, dir: seq<DirEnt>, p: seq<byte>, bitmap': seq<byte>, dir': seq<DirEnt>)
    requires Dropped(bitmap, dir, p, bitmap', dir')
    ensures |bitmap'| == |bitmap|
  {
  }

  /** What the image with the number `k` of the trail holds: the first one considered is that before the step. */
  lemma TurnAt(trail: seq<seq<byte>>, mark: nat, at: nat, sb: Superblock, v: Held, x: Held, k: nat)
    requires 0 < mark <= at < |trail| && mark <= k + 1 <= |trail| && |v.bitmap| == |x.bitmap|
    requires Holds(trail[mark - 1], sb, v.dir, v.files) && BitmapOf(trail[mark - 1], sb) == v.bitmap
    requires Turns(trail, mark, at, sb, v, x)
    ensures Holds(trail[k], sb, if k < at then v.dir else x.dir, if k < at then v.files else x.files)
    ensures SoundImage(trail[k], sb) && MixedBytes(v.bitmap, BitmapOf(trail[k], sb), x.bitmap)
  {
    hide Files, DirOf, Sound, Validate, Parse;
  }

  lemma LastImage(dev: Device)
    requires dev.Valid()
    ensures dev.trail != [] && dev.trail[|dev.trail| - 1] == dev.image
  {
  }

  /** The power fails at the `n`th image, and the disk is mounted: up to the image `at` it holds what it
      held before, and from there on what it is to hold. */
  method CutAt(dev: Device, sb: Superblock, n: nat, ghost mark: nat, ghost at: nat, ghost v: Held, ghost x: Held)
    returns (fs: DiskFs)
    requires dev.Valid() && 0 < mark <= n && mark <= at < |dev.trail| && |v.bitmap| == |x.bitmap|
    requires Holds(dev.trail[mark - 1], sb, v.dir, v.files) && BitmapOf(dev.trail[mark - 1], sb) == v.bitmap
    requires Turns(dev.trail, mark, at, sb, v, x) && SoundImage(dev.image, sb) && BitmapOf(dev.image, sb) == x.bitmap
    modifies dev
    ensures fresh(fs) && fs.dev == dev && fs.Valid() && fs.sb == sb
    ensures Fits(fs.sb, dev.image) && Cut(v, x, n > at, fs.Volume())
    ensures (n == mark ==> fs.bitmap == v.bitmap) && (n >= |old(dev.trail)| ==> fs.bitmap == x.bitmap)
  {
    hide Sound, Files, Numbered, Validate, Parse, BitmapOf, DirOf, Turns, SoundImage, MixedBytes, Fits, Coherent,
         Mounted, Holds, Device.Valid, DiskFs.Valid;
    assert dev.trail[|dev.trail| - 1] == dev.image by {
      LastImage(dev);
    }
    var upTo := if n < |dev.trail| then n else |dev.trail|;
    TurnAt(dev.trail, mark, at, sb, v, x, upTo - 1);
    dev.PowerCut(upTo);
    fs := MountHeld(dev, sb, if upTo - 1 < at then v.dir else x.dir, if upTo - 1 < at then v.files else x.files);
  }

  /** Mount a disk on which there is a sound volume. */
  method MountHeld(dev: Device, ghost sb: Superblock, ghost dir: seq<DirEnt>, ghost files: map<seq<byte>, seq<byte>>)
    returns (fs: DiskFs)
    requires dev.Valid() && Holds(dev.image, sb, dir, files)
    ensures fresh(fs) && fs.dev == dev && fs.Valid() && fs.sb == sb && Fits(sb, dev.image)
    ensures 4096 * sb.DirStart() <= |dev.image|
    ensures fs.dir == dir && fs.Contents() == files && fs.bitmap == BitmapOf(dev.image, sb)
  {
    hide Sound, Files, Numbered, Validate, Parse, BitmapOf, DirOf;
    var m := DiskFs.Mount(dev);
    fs := m.value;
    CoherentIs(dev.image, fs.sb, fs.bitmap, fs.dir);
  }

  method Remount(dev: Device, ghost sb: Superblock, ghost bitmap: seq<byte>, ghost dir: seq<DirEnt>)
    returns (fs: DiskFs)
    requires dev.Valid() && Coherent(dev.image, sb, bitmap, dir) && Sound(sb, bitmap, dir)
    ensures fresh(fs) && fs.dev == dev && fs.Valid() && fs.sb == sb && fs.bitmap == bitmap && fs.dir == dir
  {
    hide Sound, Tight, Files, Numbered, Validate, Parse, BitmapOf, DirOf;
    CoherentIsSoundImage(dev.image, sb, bitmap, dir);
    SoundMounts(dev.image, sb, bitmap, dir);
    var m := DiskFs.Mount(dev);
    SameMount(dev.image, sb, bitmap, dir, m.value.sb, m.value.bitmap, m.value.dir);
    fs := m.value;
  }

  lemma StartHolds(image: seq<byte>, sb: Superblock, bitmap: seq<byte>, dir: seq<DirEnt>)
    requires Coherent(image, sb, bitmap, dir) && Sound(sb, bitmap, dir)
    ensures Fits(sb, image) && 4096 * sb.DirStart() <= |image| && BitmapOf(image, sb) == bitmap
    ensures SoundImage(image, sb) && Holds(image, sb, dir, Files(image, sb, dir))
  {
    hide Validate, Parse, BitmapOf, DirOf, Files, Sound;
    CoherentIsSoundImage(image, sb, bitmap, dir);
  }

  lemma CoherentIs(image: seq<byte>, sb: Superblock, bitmap: seq<byte>, dir: seq<DirEnt>)
    requires Coherent(image, sb, bitmap, dir)
    ensures 512 <= |image| && Mounted(image) == Ok(sb) && Fits(sb, image) && dir == DirOf(image, sb)
    ensures bitmap == BitmapOf(image, sb)
  {
  }

  /** Every live file's blocks are in use. */
  lemma UsageCovers(sb: Superblock, bitmap: seq<byte>, dir: seq<DirEnt>)
    requires Sound(sb, bitmap, dir)
    ensures |UsedBlocks(sb, bitmap)| >= BlocksNeeded(dir)
  {
    ClaimedSize(sb, bitmap, dir);
    forall b: nat | b in ClaimedBlocks(dir) ensures b in UsedBlocks(sb, bitmap) {
      ClaimedBlocksAre(dir, b);
      hide BlocksFor, BitGet, Writable;
      var i :| 0 <= i < |dir| && dir[i].used && InRun(b, dir[i].firstBlock, BlocksFor(dir[i].length));
      assert EntrySound(sb, bitmap, dir[i]);
    }
    SubsetSize(ClaimedBlocks(dir), UsedBlocks(sb, bitmap));
  }

  lemma SubsetSize(a: set<nat>, b: set<nat>)
    requires a <= b
    ensures |a| <= |b|
  {
    assert b == a + (b - a);
    assert |b| == |a| + |b - a|;
  }

  lemma ReplayNone()
    ensures Replay([], []) == map[]
  {
  }

  lemma ReplayStep(ops: seq<Op>, done: seq<bool>, i: nat, ok: bool)
    requires i < |ops| && |done| == i
    ensures Replay(ops[..i + 1], done + [ok]) ==
              var files := Replay(ops[..i], done);
              if ok then After(files, ops[i]) else files
  {
    assert ops[..i + 1][..i] == ops[..i] && (done + [ok])[..i] == done;
  }

  lemma WholeSoFar(ops: seq<Op>, i: nat)
    requires i < |ops|
    ensures (forall op :: op in ops[..i + 1] ==> WholeOp(op)) ==> WholeOp(ops[i]) && forall op :: op in ops[..i] ==>
              WholeOp(op)
  {
    assert ops[..i + 1] == ops[..i] + [ops[i]];
  }

  lemma SoundMounts(image: seq<byte>, sb: Superblock, bitmap: seq<byte>, dir: seq<DirEnt>)
    requires Coherent(image, sb, bitmap, dir)
    ensures 512 <= |image| && Mounted(image) == Ok(sb)
  {
  }

  lemma SameMount(image: seq<byte>, sb: Superblock, bitmap: seq<byte>, dir: seq<DirEnt>, sb': Superblock,
                  bitmap': seq<byte>, dir': seq<DirEnt>)
    requires Coherent(image, sb, bitmap, dir) && Coherent(image, sb', bitmap', dir')
    ensures sb' == sb && bitmap' == bitmap && dir' == dir
  {
  }
}
