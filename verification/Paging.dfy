/**
 The frame allocator and the mapping of user pages: frames come from a free list or are carved from
 the usable regions, tables are built on the way down, and an address space is torn down whole.
 */
module Paging {
  import opened Results
  import opened FrameTree

  // ---- regions ----

  datatype Region = Region(start: nat, end: nat, usable: bool)

  predicate PageAligned(a: nat) {
    a % 4096 == 0
  }

  /** The region's start, rounded up to a page. */
  function BaseOf(r: Region): (base: nat)
    ensures r.start <= base < r.start + 4096 && PageAligned(base)
  {
    (r.start + 4095) / 4096 * 4096
  }

  /** Regions do not overlap, and none of them holds the frame at address zero. */
  ghost predicate RegionsApart(rs: seq<Region>) {
    && (forall i :: 0 <= i < |rs| ==> 0 < rs[i].start)
    && (forall i, j :: 0 <= i < j < |rs| ==> rs[i].end <= rs[j].start || rs[j].end <= rs[i].start)
  }

  /** The region has room for `span` bytes, `cursor` bytes after its base. */
  predicate Fits(r: Region, cursor: nat, span: nat) {
    r.usable && BaseOf(r) + cursor + span <= r.end
  }

  /** So has some region that is not used up. */
  ghost predicate HasRoom(rs: seq<Region>, idx: nat, cursor: nat, span: nat) {
    exists j :: idx <= j < |rs| && Fits(rs[j], if j == idx then cursor else 0, span)
  }

  /** How many frames are left in a region. */
  function RoomIn(r: Region, cursor: nat): nat {
    if r.usable && BaseOf(r) + cursor <= r.end then (r.end - BaseOf(r) - cursor) / 4096 else 0
  }

  /** How many frames are left in all regions. */
  function Room(rs: seq<Region>, idx: nat, cursor: nat): nat
    decreases |rs| - idx
  {
    if idx >= |rs| then 0 else RoomIn(rs[idx], cursor) + Room(rs, idx + 1, 0)
  }

  /** How many frames have been carved or can be, without the kernel's. */
  ghost function AllFrames(carved: set<Frame>, kernel: set<Frame>, rs: seq<Region>, idx: nat, cursor: nat): int {
    |carved| - |kernel| + Room(rs, idx, cursor)
  }

  lemma OneCarved(carved: set<Frame>, kernel: set<Frame>, f: Frame, rs: seq<Region>, idx: nat, cursor: nat)
    requires idx < |rs| && Fits(rs[idx], cursor, 4096) && f !in carved
    ensures AllFrames(carved + {f}, kernel, rs, idx, cursor + 4096) == AllFrames(carved, kernel, rs, idx, cursor)
  {
    TakeRoom(rs, idx, cursor);
  }

  lemma SkipRegion(rs: seq<Region>, idx: nat, cursor: nat, span: nat)
    requires idx < |rs| && !Fits(rs[idx], cursor, span)
    ensures HasRoom(rs, idx, cursor, span) <==> HasRoom(rs, idx + 1, 0, span)
    ensures Room(rs, idx + 1, 0) <= Room(rs, idx, cursor)
    ensures span == 4096 ==> Room(rs, idx + 1, 0) == Room(rs, idx, cursor)
  {
    hide BaseOf;
    if HasRoom(rs, idx + 1, 0, span) {
      var j :| idx + 1 <= j < |rs| && Fits(rs[j], if j == idx + 1 then 0 else 0, span);
      assert Fits(rs[j], 0, span);
    }
  }

  lemma TakeRoom(rs: seq<Region>, idx: nat, cursor: nat)
    requires idx < |rs| && Fits(rs[idx], cursor, 4096)
    ensures Room(rs, idx, cursor) == Room(rs, idx, cursor + 4096) + 1
  {
    hide BaseOf;
  }

  lemma TakeRun(rs: seq<Region>, idx: nat, cursor: nat, span: nat)
    requires idx < |rs|
    ensures Room(rs, idx, cursor + span) <= Room(rs, idx, cursor)
  {
    hide BaseOf;
  }

  /** Flags a page is mapped with. */
  datatype Flags = Flags(writable: bool, user: bool, noExec: bool)

  function Elements(s: seq<Frame>): set<Frame> {
    set f | f in s
  }

  ghost predicate NoRepeats(s: seq<Frame>) {
    forall i, j :: 0 <= i < j < |s| ==> s[i] != s[j]
  }

  /** How a mapping ends; the kernel stops when it has no frame for a table. */
  datatype Outcome = Done | OutOfFrames | Halted

  class Memory {
    const regions: seq<Region>
    var regionIdx: nat
    var cursor: nat
    var freeList: seq<Frame>
    var mem: map<Frame, Table>
    var slot: Entry

    ghost var places: Places
    ghost var carved: set<Frame>
    ghost var kernel: set<Frame>
    ghost var leaked: set<Frame>

    ghost predicate Valid(held: set<Frame>)
      reads this
    {
      && RegionsApart(regions) && AllBelow(regions, regionIdx, cursor, carved)
      && Partition(freeList, places.Keys, kernel, leaked, held, carved) && Tree(mem, places)
    }

    /** At boot: nothing has been handed out. */
    constructor (rs: seq<Region>)
      requires RegionsApart(rs)
      ensures Valid({}) && regions == rs && regionIdx == 0 && cursor == 0 && freeList == [] && slot == Absent()
      ensures mem == map[] && places == map[] && carved == {} && kernel == {} && leaked == {}
    {
      regions, regionIdx, cursor, freeList, mem, slot := rs, 0, 0, [], map[], Absent();
      places, carved, kernel, leaked := map[], {}, {}, {};
    }

    // ---- frames ----

    /** How many frames can still be had, one by one. */
    ghost function Supply(): (n: nat)
      reads this
      ensures n >= |freeList|
    {
      |freeList| + Room(regions, regionIdx, cursor)
    }

    /** How many frames there are in all, those still to be carved included and the kernel's left out. */
    ghost function Whole(): int
      reads this
    {
      AllFrames(carved, kernel, regions, regionIdx, cursor)
    }

    /** A frame can still be had, or belongs to a space or the kernel, or is lost. */
    lemma SupplyIsRest()
      requires Valid({})
      ensures Supply() + |places| + |leaked| == Whole()
    {
      hide AllBelow, Tree, RegionsApart;
      CardOfElements(freeList);
      assert carved == Elements(freeList) + places.Keys + kernel + leaked;
    }

    /** At most `n` of so many frames, and of so many on the free list, have been used. */
    ghost predicate Spent(free: nat, supply: nat, n: nat)
      reads this
    {
      |freeList| + n >= free && Supply() + n >= supply
    }

    /** Carve `count` consecutive frames that were never handed out. */
    method CarveContiguous(count: nat, ghost held: set<Frame>) returns (r: Option<Frame>)
      requires Valid(held)
      modifies this`regionIdx, this`cursor, this`carved
      ensures r.None? ==> Valid(held) && carved == old(carved)
      ensures r.Some? ==>
                var run := RunOf(r.value, count);
                && 0 < r.value && PageAligned(r.value) && run !! old(carved) && carved == old(carved) + run
                && Valid(held + run)
      ensures r.Some? <==> count > 0 && HasRoom(regions, old(regionIdx), old(cursor), 4096 * count)
      ensures Supply() <= old(Supply())
    {
      if count == 0 {
        return None;
      }
      hide AllBelow, RegionsApart, Partition, Tree, BaseOf, PageAligned, RunOf, HasRoom, Room;
      var found := FindRoom(4096 * count);
      if !found {
        return None;
      }
      var start := BaseOf(regions[regionIdx]) + cursor;
      FreshRun(regions, regionIdx, cursor, carved, start, count);
      CarvedMore(freeList, places.Keys, kernel, leaked, held, carved, RunOf(start, count));
      TakeRun(regions, regionIdx, cursor, 4096 * count);
      cursor := cursor + 4096 * count;
      carved := carved + RunOf(start, count);
      return Some(start);
    }

    /** Move the cursor to the first usable region with room for `span` bytes at it. */
    method FindRoom(span: nat) returns (found: bool)
      requires AllBelow(regions, regionIdx, cursor, carved)
      modifies this`regionIdx, this`cursor
      ensures AllBelow(regions, regionIdx, cursor, carved)
      ensures found <==> HasRoom(regions, old(regionIdx), old(cursor), span)
      ensures found <==> regionIdx < |regions|
      ensures Room(regions, regionIdx, cursor) <= old(Room(regions, regionIdx, cursor))
      ensures span == 4096 ==>
                Room(regions, regionIdx, cursor) == old(Room(regions, regionIdx, cursor)) && Whole() == old(Whole())
      ensures found ==> Fits(regions[regionIdx], cursor, span)
    {
      hide AllBelow, BaseOf, RoomIn;
      while regionIdx < |regions|
        invariant AllBelow(regions, regionIdx, cursor, carved)
        invariant HasRoom(regions, regionIdx, cursor, span) <==> HasRoom(regions, old(regionIdx), old(cursor), span)
        invariant Room(regions, regionIdx, cursor) <= old(Room(regions, regionIdx, cursor))
        invariant span == 4096 ==> Room(regions, regionIdx, cursor) == old(Room(regions, regionIdx, cursor))
        decreases |regions| - regionIdx
      {
        var region := regions[regionIdx];
        if !region.usable {
          Advance(regions, regionIdx, cursor, carved);
          SkipRegion(regions, regionIdx, cursor, span);
          regionIdx := regionIdx + 1;
          cursor := 0;
          continue;
        }
        var start := BaseOf(region) + cursor;
        if start + span > region.end {
          Advance(regions, regionIdx, cursor, carved);
          SkipRegion(regions, regionIdx, cursor, span);
          regionIdx := regionIdx + 1;
          cursor := 0;
          continue;
        }
        return true;
      }
      return false;
    }

    /** A frame for whoever asks: one handed back, or else the next new one. */
    method AllocateFrame(ghost held: set<Frame>) returns (r: Option<Frame>)
      requires Valid(held)
      modifies this`regionIdx, this`cursor, this`carved, this`freeList
      ensures r.None? ==> Valid(held) && carved == old(carved)
      ensures r.Some? ==>
                && 0 < r.value && PageAligned(r.value) && r.value !in held && r.value !in places
                && Valid(held + {r.value})
                && r.value !in kernel && r.value !in leaked
      ensures r.Some? <==> old(Supply()) > 0
      ensures Supply() == if r.Some? then old(Supply()) - 1 else 0
      ensures Whole() == old(Whole())
      ensures |freeList| == if |old(freeList)| > 0 then |old(freeList)| - 1 else 0
    {
      hide AllBelow, RegionsApart, Tree, PageAligned, Room, AllFrames;
      if |freeList| > 0 {
        var frame := freeList[|freeList| - 1];
        TakenFrame(freeList, places.Keys, kernel, leaked, held, carved);
        CarvedAligned(regions, regionIdx, cursor, carved, frame);
        freeList := freeList[..|freeList| - 1];
        return Some(frame);
      }
      r := CarveFrame(held);
    }

    /** The next frame never handed out. */
    method CarveFrame(ghost held: set<Frame>) returns (r: Option<Frame>)
      requires Valid(held)
      modifies this`regionIdx, this`cursor, this`carved
      ensures r.None? ==> Valid(held) && carved == old(carved)
      ensures r.Some? ==>
                && 0 < r.value && PageAligned(r.value) && r.value !in old(carved) && Valid(held + {r.value})
                && carved == old(carved) + {r.value} && r.value !in held + places.Keys + kernel + leaked
      ensures r.Some? <==> old(Room(regions, regionIdx, cursor)) > 0
      ensures r.Some? ==> Room(regions, regionIdx, cursor) == old(Room(regions, regionIdx, cursor)) - 1
      ensures r.None? ==> Room(regions, regionIdx, cursor) == 0
      ensures Whole() == old(Whole())
    {
      hide AllBelow, RegionsApart, Tree, BaseOf, PageAligned, RoomIn, HasRoom, AllFrames;
      var found := FindRoom(4096);
      if !found {
        return None;
      }
      var start := BaseOf(regions[regionIdx]) + cursor;
      FreshRun(regions, regionIdx, cursor, carved, start, 1);
      RunOfOne(start);
      CarvedMore(freeList, places.Keys, kernel, leaked, held, carved, {start});
      TakeRoom(regions, regionIdx, cursor);
      RunOfOne(start);
      OneCarved(carved, kernel, start, regions, regionIdx, cursor);
      cursor := cursor + 4096;
      carved := carved + {start};
      return Some(start);
    }

    /** Hand a frame back. */
    method FreeFrame(frame: Frame, ghost held: set<Frame>)
      requires Valid(held) && frame in held
      modifies this`freeList
      ensures Valid(held - {frame}) && freeList == old(freeList) + [frame]
    {
      hide AllBelow, RegionsApart, Tree;
      ReturnedFrame(freeList, places.Keys, kernel, leaked, held, carved, frame);
      CarvedAligned(regions, regionIdx, cursor, carved, frame);
      freeList := freeList + [frame - frame % 4096];
    }

    /** Contiguous memory for a device. It is never freed. */
    method AllocDma(bytes: nat) returns (r: Option<Frame>)
      requires Valid({})
      modifies this`regionIdx, this`cursor, this`carved, this`kernel
      ensures Valid({})
      ensures r.Some? ==>
                var run := RunOf(r.value, (bytes + 4095) / 4096);
                run !! old(carved) && kernel == old(kernel) + run && bytes <= 4096 * ((bytes + 4095) / 4096)
      ensures r.Some? <==> bytes > 0 && HasRoom(regions, old(regionIdx), old(cursor), 4096 * ((bytes + 4095) / 4096))
      ensures r.None? ==> kernel == old(kernel) && carved == old(carved)
      ensures Supply() <= old(Supply())
    {
      hide AllBelow, RegionsApart, Tree, RunOf, HasRoom, Room;
      r := CarveContiguous((bytes + 4095) / 4096, {});
      if r.Some? {
        kernel := kernel + RunOf(r.value, (bytes + 4095) / 4096);
      }
    }

    // ---- address spaces ----

    /** The entry by which a space is installed. */
    function SpaceEntry(root: Frame): Entry {
      Entry(true, true, true, false, false, root)
    }

    /** The roots of all spaces. */
    ghost predicate IsSpace(root: Frame)
      reads this`places
    {
      root in places && places[root].level == 3
    }

    /** A new, empty space. */
    method CreateAddressSpace() returns (r: Option<Frame>)
      requires Valid({})
      modifies this`regionIdx, this`cursor, this`carved, this`freeList, this`mem, this`places
      ensures Valid({})
      ensures r.None? ==> places == old(places) && mem == old(mem)
      ensures r.Some? ==>
                && 0 < r.value && r.value !in old(places) && places == old(places)[r.value := Place(3, 0, 0)]
                && SameEverywhere(old(mem), mem, old(places)) && SameOwners(old(mem), old(places), mem, places, {})
                && forall q :: Translate(mem, r.value, 3, q) == None
      ensures r.Some? <==> old(Supply()) > 0
      ensures Spent(|old(freeList)|, old(Supply()), 1)
      ensures Whole() == old(Whole())
    {
      hide AllBelow, RegionsApart, PageAligned, Tree, Room, AllFrames;
      var frame := AllocateFrame({});
      if frame.None? {
        return None;
      }
      assert {} + {frame.value} == {frame.value};
      OwnedMore(freeList, places.Keys, kernel, leaked, {frame.value}, carved, frame.value);
      RootAdded(mem, places, frame.value);
      mem := mem[frame.value := EmptyTable()];
      places := places[frame.value := Place(3, 0, 0)];
      assert {frame.value} - {frame.value} == {};
      r := frame;
    }

    /** Install a space, or with zero none. */
    method Activate(space: Frame)
      modifies this`slot
      ensures slot == if space == 0 then Absent() else SpaceEntry(space)
    {
      slot := if space == 0 then Absent() else SpaceEntry(space);
    }

    /** What a user page leads to while the processor runs: the walk starts at the user slot, and what
        the slot forbids no table below allows. */
    ghost function Reached(page: nat): Option<Mapping>
      reads this`slot, this`mem
    {
      if !slot.present then None
      else
        match Translate(mem, slot.frame, 3, page)
        case None => None
        case Some(m) => Some(Mapping(m.frame, m.writable && slot.writable, m.user && slot.user,
            m.noExec || slot.noExec))
    }

    /** With a space active a user page reaches exactly what that space maps, with that permission, and
        always a frame of that space; with none active it reaches nothing. */
    lemma ActiveReachesOwn(space: Frame, page: nat)
      requires Tree(mem, places) && UserPage(page) && (space != 0 ==> IsSpace(space))
      requires slot == if space == 0 then Absent() else SpaceEntry(space)
      ensures Reached(page) == if space == 0 then None else Translate(mem, space, 3, page)
      ensures Reached(page).Some? ==>
                Reached(page).value.frame in places && RootOf(mem, places, Reached(page).value.frame) == space
    {
      if space != 0 {
        ReachableIsOwn(mem, places, space, 3, page);
        assert RootOf(mem, places, space) == space;
      }
    }

    // ---- mapping ----

    /** The active space: the slot holds the entry of a root. */
    ghost predicate Active(root: Frame)
      reads this`slot, this`places
    {
      slot == SpaceEntry(root) && IsSpace(root)
    }

    /** What mapping `page` in the space of `root` has changed: the page leads to the frame with exactly
        these permissions, no other page of any space has moved, and every frame is still in its space,
        but for the one the page led to before, which is lost. */
    ghost predicate Mapped(before: map<Frame, Table>, owned: Places, lost: set<Frame>, root: Frame, page: nat,
                           frame: Frame, fl: Flags)
      requires Tree(before, owned) && Tree(mem, places)
      reads this
    {
      && frame in places && RootOf(mem, places, frame) == root
      && Translate(mem, root, 3, page) == Some(Mapping(frame, fl.writable, fl.user, fl.noExec))
      && SameElsewhere(before, mem, owned, root, page) && SameRoots(owned, places)
      && leaked == lost + Replaced(before, root, page)
      && SameOwners(before, owned, mem, places, Replaced(before, root, page))
    }

    /** Map a page of the user slot to a frame in hand, building the tables it needs. */
    method MapPage(page: nat, frame: Frame, fl: Flags, ghost held: set<Frame>, ghost root: Frame) returns (done: bool)
      requires Valid(held) && frame in held && UserPage(page) && fl.user && Active(root)
      modifies this
      ensures slot == old(slot)
      ensures Valid(if done then held - {frame} else held)
      ensures done ==> Mapped(old(mem), old(places), old(leaked), root, page, frame, fl)
      ensures !done ==> SameEverywhere(old(mem), mem, old(places)) && SameOwners(old(mem), old(places), mem, places, {})
                        && leaked == old(leaked) && SameRoots(old(places), places)
      ensures old(Supply()) >= 2 ==> done
      ensures !done ==> Supply() == 0
      ensures Spent(|old(freeList)|, old(Supply()), 2)
      ensures Whole() == old(Whole())
    {
      hide AllBelow, RegionsApart, PageAligned, Tree, Partition, Room, AllFrames;
      slot := Widened(slot, fl);
      var table := slot.frame;
      ghost var mem0, places0 := mem, places;
      SameOwnersSelf(mem, places);
      var level := 3;
      while level > 1
        invariant 1 <= level <= 3 && Valid(held) && frame in held && slot == old(slot) && leaked == old(leaked)
        invariant Spent(|old(freeList)|, old(Supply()), 3 - level) && Whole() == old(Whole())
        invariant table in places && places[table].level == level && RootOf(mem, places, table) == root
        invariant Follows(mem, places, table, page)
        invariant SameEverywhere(mem0, mem, places0) && SameOwners(mem0, places0, mem, places, {})
        invariant SameRoots(places0, places)
        decreases level
      {
        var idx := Index(page, level);
        TableThere(mem, places, table, idx);
        var entry := mem[table][idx];
        if !entry.present {
          var newFrame := AllocateFrame(held);
          if newFrame.None? {
            return false;
          }
          table := AddTable(table, idx, newFrame.value, held, root, page, mem0, places0);
        } else {
          WidenedSame(mem, places, table, idx, fl);
          NextTable(mem, places, table, idx, page);
          var updated := Widened(entry, fl);
          SameEntry(mem, table, idx);
          mem := SetEntry(mem, table, idx, updated);
          table := updated.frame;
        }
        level := level - 1;
      }
      SetLeaf(table, page, frame, fl, held, root, mem0, places0);
      return true;
    }

    /** Hang a fresh, empty table under an absent entry. */
    method AddTable(table: Frame, idx: nat, added: Frame, ghost held: set<Frame>, ghost root: Frame, ghost page: nat,
                    ghost mem0: map<Frame, Table>, ghost places0: Places)
      returns (next: Frame)
      requires Valid(held + {added}) && added !in held && table in places && 2 <= places[table].level <= 3
      requires added !in places && table in mem && |mem[table]| == 512 && idx < 512 && !mem[table][idx].present
      requires RootOf(mem, places, table) == root && Follows(mem, places, table, page)
      requires idx == Index(page, places[table].level)
      requires Tree(mem0, places0) && SameEverywhere(mem0, mem, places0) && SameOwners(mem0, places0, mem, places, {})
      requires SameRoots(places0, places)
      modifies this`mem, this`places
      ensures Valid(held) && next == added && next in places && places[next].level == old(places)[table].level - 1
      ensures RootOf(mem, places, next) == root && Follows(mem, places, next, page)
      ensures SameEverywhere(mem0, mem, places0) && SameOwners(mem0, places0, mem, places, {})
      ensures SameRoots(places0, places)
    {
      var e := Entry(true, true, true, false, false, added);
      ghost var mem1, places1 := mem, places;
      OwnedMore(freeList, places.Keys, kernel, leaked, held + {added}, carved, added);
      assert held + {added} - {added} == held;
      mem := SetEntry(mem[added := EmptyTable()], table, idx, e);
      places := places[added := Place(places[table].level - 1, table, idx)];
      assert places.Keys == places1.Keys + {added};
      HangTable(mem1, places1, table, idx, e, mem, places);
      hide AllBelow, RegionsApart, PageAligned, Tree, Partition, SameOwners, Follows, Translate;
      SameOwnersChain(mem0, places0, mem1, places1, mem, places, {});
      SameEverywhereChain(mem0, places0, mem1, places1, mem);
      next := added;
    }

    /** Point the lowest-level entry of the page at the frame. */
    method SetLeaf(table: Frame, page: nat, frame: Frame, fl: Flags, ghost held: set<Frame>, ghost root: Frame,
                   ghost mem0: map<Frame, Table>, ghost places0: Places)
      requires Valid(held) && frame in held && UserPage(page) && root in places0 && places0[root].level == 3
      requires table in places && places[table].level == 1 && RootOf(mem, places, table) == root
      requires Follows(mem, places, table, page)
      requires Tree(mem0, places0) && SameEverywhere(mem0, mem, places0) && SameOwners(mem0, places0, mem, places, {})
      requires SameRoots(places0, places)
      modifies this`mem, this`places, this`leaked
      ensures Valid(held - {frame}) && Mapped(mem0, places0, old(leaked), root, page, frame, fl)
    {
      hide AllBelow, RegionsApart, PageAligned, Tree, Partition, Translate, Follows, RootOf, SameOwners, SameElsewhere,
           SameEverywhere, Room, AllFrames;
      var idx := Index(page, 1);
      TableThere(mem, places, table, idx);
      ghost var mem1, places1, e := mem, places, Entry(true, fl.writable, fl.user, fl.noExec, false, frame);
      HeldNotOwned(freeList, places.Keys, kernel, leaked, held, carved, frame);
      LeafPlaced(freeList, places, kernel, leaked, held, carved, frame, mem[table][idx], table, idx);
      FromRoot(mem, places, table, page);
      if mem[table][idx].present {
        leaked := leaked + {mem[table][idx].frame};
        places := places - {mem[table][idx].frame};
      }
      places := places[frame := Place(0, table, idx)];
      mem := SetEntry(mem, table, idx, Entry(true, fl.writable, fl.user, fl.noExec, false, frame));
      LeafMaps(mem1, places1, table, e, mem, places, root, page);
      SameElsewhereChain(mem0, places0, mem1, places1, mem, root, page);
      SameOwnersChain(mem0, places0, mem1, places1, mem, places,
          if mem1[table][idx].present then {mem1[table][idx].frame} else {});
    }

    /** Map one user page to a frame of its own. Without a frame for the page nothing changes; without
        one for a table the kernel stops. */
    method MapUserPage(page: nat, writable: bool, executable: bool, ghost root: Frame)
      returns (r: Outcome, ghost frame: Frame)
      requires Valid({}) && UserPage(page) && Active(root)
      modifies this
      ensures Valid({}) && slot == old(slot)
      ensures r == OutOfFrames ==> mem == old(mem) && places == old(places) && leaked == old(leaked)
      ensures r == Done ==>
                Mapped(old(mem), old(places), old(leaked), root, page, frame, Flags(writable, true, !executable))
      ensures r == Halted ==>
                SameEverywhere(old(mem), mem, old(places)) && SameOwners(old(mem), old(places), mem, places, {})
                              && leaked == old(leaked) + {frame} && SameRoots(old(places), places)
      ensures old(Supply()) >= 3 ==> r == Done
      ensures r != Done ==> Supply() == 0
      ensures Spent(|old(freeList)|, old(Supply()), 3)
      ensures Whole() == old(Whole())
    {
      hide AllBelow, RegionsApart, PageAligned, Tree, Partition, Mapped, Room, AllFrames;
      frame := 0;
      var got := AllocateFrame({});
      if got.None? {
        r := OutOfFrames;
        return;
      }
      frame := got.value;
      assert {} + {frame} == {frame} && {frame} - {frame} == {};
      var done := MapPage(page, got.value, Flags(writable, true, !executable), {frame}, root);
      if done {
        r := Done;
      } else {
        LostMore(freeList, places.Keys, kernel, leaked, {frame}, carved, frame);
        leaked := leaked + {frame};
        r := Halted;
      }
    }

    // ---- tearing down ----

    /** Everything below a table, each frame after what is below it. */
    method Collect(t: Frame, level: nat) returns (frames: seq<Frame>)
      requires Tree(mem, places) && t in places && places[t].level == level && 1 <= level <= 3
      ensures NoRepeats(frames) && forall c :: c in frames <==> Under(places, t, 512, c)
      decreases level
    {
      hide Tree, Under;
      frames := [];
      UnderNone(places, t);
      TableThere(mem, places, t, 0);
      var i := 0;
      while i < 512
        invariant i <= 512 && NoRepeats(frames) && t in mem && |mem[t]| == 512
        invariant forall c :: c in frames <==> Under(places, t, i, c)
      {
        TableThere(mem, places, t, i);
        var entry := mem[t][i];
        ghost var before, inner := frames, [];
        forall c
          ensures Under(places, t, i + 1, c)
             <==> Under(places, t, i, c) || (entry.present && (c == entry.frame || Under(places, entry.frame, 512, c)))
          ensures entry.present && (c == entry.frame || Under(places, entry.frame, 512, c)) ==> !Under(places, t, i, c)
        {
          UnderNext(mem, places, t, i, c);
        }
        UnderNext(mem, places, t, i, entry.frame);
        if entry.present && (level == 1 || !entry.huge) {
          if level > 1 {
            var below := Collect(entry.frame, level - 1);
            frames := frames + below;
            inner := below;
          } else {
            UnderPage(places, entry.frame);
          }
          Joined(before, inner, entry.frame);
          frames := frames + [entry.frame];
        }
        i := i + 1;
      }
    }

    /** Give back every frame of a space, each once, and with them the space. */
    method DestroyAddressSpace(space: Frame)
      requires Valid({}) && (space != 0 ==> IsSpace(space))
      modifies this`freeList, this`places
      ensures Valid({})
      ensures space == 0 ==> places == old(places) && freeList == old(freeList)
      ensures space != 0 ==>
                var gone := Owned(mem, old(places), space);
                && places == old(places) - gone && SameOwners(mem, old(places), mem, places, gone)
                && old(freeList) <= freeList && NoRepeats(freeList[|old(freeList)|..])
                && Elements(freeList[|old(freeList)|..]) == gone
    {
      if space == 0 {
        return;
      }
      hide AllBelow, RegionsApart, PageAligned, Tree, Partition, Under, Owned, SameOwners;
      var frames := Collect(space, 3);
      UnderRoot(mem, places, space, frames);
      frames := frames + [space];
      ghost var gone := Owned(mem, places, space);
      SpaceGone(mem, places, space);
      OwnedInHand(freeList, places, kernel, leaked, carved, gone);
      places := places - gone;
      ghost var n := |freeList|;
      FreeAll(frames, gone);
      assert freeList[n..] == frames;
    }

    method FreeAll(frames: seq<Frame>, ghost gone: set<Frame>)
      requires Valid(gone) && NoRepeats(frames) && Elements(frames) == gone
      modifies this`freeList
      ensures Valid({}) && freeList == old(freeList) + frames
    {
      hide AllBelow, RegionsApart, PageAligned, Tree, Partition, Elements, NoRepeats;
      ghost var held := gone;
      var k := 0;
      AllInHand(frames, gone);
      while k < |frames|
        invariant k <= |frames| && Valid(held) && held == Elements(frames[k..])
        invariant freeList == old(freeList) + frames[..k]
      {
        RestInHand(frames, k);
        FrameInHand(held, frames[k]);
        FreeFrame(frames[k], held);
        held := held - {frames[k]};
        k := k + 1;
      }
      NoneInHand(frames, k);
    }

    lemma FrameInHand(held: set<Frame>, frame: Frame)
      requires Valid(held) && frame in held
      ensures frame - frame % 4096 == frame
    {
      HeldCarved(freeList, places.Keys, kernel, leaked, held, carved, frame);
      CarvedAligned(regions, regionIdx, cursor, carved, frame);
    }
  }

  lemma {:induction false} CardOfElements(s: seq<Frame>)
    requires NoRepeats(s)
    ensures |Elements(s)| == |s|
  {
    if s == [] {
    } else {
      var n := |s| - 1;
      CardOfElements(s[..n]);
      assert s == s[..n] + [s[n]];
      assert Elements(s) == Elements(s[..n]) + {s[n]};
    }
  }

  /** The frame a page leads to, if any, which mapping the page anew loses. */
  ghost function Replaced(mem: map<Frame, Table>, root: Frame, page: nat): set<Frame> {
    var was := Translate(mem, root, 3, page);
    if was.Some? then {was.value.frame} else {}
  }

  // ---- accounting ----

  /** Free, owned, kernel and leaked frames, and those in hand, are all that was ever carved, and no
      frame is two of them, or free twice. */
  ghost predicate Partition(free: seq<Frame>, owned: set<Frame>, kernel: set<Frame>, leaked: set<Frame>,
                            held: set<Frame>, carved: set<Frame>) {
    && NoRepeats(free) && carved == Elements(free) + owned + kernel + leaked + held
    && Elements(free) !! owned !! kernel !! leaked !! held
  }

  lemma CarvedMore(free: seq<Frame>, owned: set<Frame>, kernel: set<Frame>, leaked: set<Frame>, held: set<Frame>,
                   carved: set<Frame>, run: set<Frame>)
    requires Partition(free, owned, kernel, leaked, held, carved) && run !! carved
    ensures Partition(free, owned, kernel, leaked, held + run, carved + run)
  {
  }

  /** The last free frame is taken into hand. */
  lemma TakenFrame(free: seq<Frame>, owned: set<Frame>, kernel: set<Frame>, leaked: set<Frame>, held: set<Frame>,
                   carved: set<Frame>)
    requires Partition(free, owned, kernel, leaked, held, carved) && |free| > 0
    ensures var frame := free[|free| - 1];
            && frame in carved && frame !in held + owned + kernel + leaked
            && Partition(free[..|free| - 1], owned, kernel, leaked, held + {frame}, carved)
  {
    var n := |free| - 1;
    assert free == free[..n] + [free[n]];
    assert Elements(free) == Elements(free[..n]) + {free[n]};
  }

  lemma ReturnedFrame(free: seq<Frame>, owned: set<Frame>, kernel: set<Frame>, leaked: set<Frame>, held: set<Frame>,
                      carved: set<Frame>, frame: Frame)
    requires Partition(free, owned, kernel, leaked, held, carved) && frame in held
    ensures frame in carved && Partition(free + [frame], owned, kernel, leaked, held - {frame}, carved)
  {
    assert Elements(free + [frame]) == Elements(free) + {frame};
  }

  lemma OwnedMore(free: seq<Frame>, owned: set<Frame>, kernel: set<Frame>, leaked: set<Frame>, held: set<Frame>,
                  carved: set<Frame>, frame: Frame)
    requires Partition(free, owned, kernel, leaked, held, carved) && frame in held
    ensures Partition(free, owned + {frame}, kernel, leaked, held - {frame}, carved)
  {
  }

  lemma RunOfOne(start: Frame)
    ensures RunOf(start, 1) == {start}
  {
    assert start + 4096 * 0 in RunOf(start, 1);
  }

  lemma CarvedAligned(rs: seq<Region>, idx: nat, cursor: nat, carved: set<Frame>, f: Frame)
    requires RegionsApart(rs) && AllBelow(rs, idx, cursor, carved) && f in carved
    ensures 0 < f && PageAligned(f) && f - f % 4096 == f
  {
    assert Below(rs, idx, cursor, f);
  }

  /** The permissions a mapping needs, added to an entry above it. */
  function Widened(e: Entry, fl: Flags): Entry {
    e.(user := e.user || fl.user, writable := e.writable || fl.writable, noExec := e.noExec && fl.noExec)
  }

  lemma LostMore(free: seq<Frame>, owned: set<Frame>, kernel: set<Frame>, leaked: set<Frame>, held: set<Frame>,
                 carved: set<Frame>, frame: Frame)
    requires Partition(free, owned, kernel, leaked, held, carved) && frame in held
    ensures Partition(free, owned, kernel, leaked + {frame}, held - {frame}, carved)
  {
  }

  lemma HeldCarved(free: seq<Frame>, owned: set<Frame>, kernel: set<Frame>, leaked: set<Frame>, held: set<Frame>,
                   carved: set<Frame>, frame: Frame)
    requires Partition(free, owned, kernel, leaked, held, carved) && frame in held
    ensures frame in carved
  {
  }

  lemma OwnedInHand(free: seq<Frame>, ps: Places, kernel: set<Frame>, leaked: set<Frame>, carved: set<Frame>,
                    gone: set<Frame>)
    requires Partition(free, ps.Keys, kernel, leaked, {}, carved) && gone <= ps.Keys
    ensures Partition(free, (ps - gone).Keys, kernel, leaked, gone, carved)
  {
    assert (ps - gone).Keys == ps.Keys - gone;
  }

  /** What is collected below a root, and the root, is what the space owns. */
  lemma UnderRoot(mem: map<Frame, Table>, ps: Places, root: Frame, frames: seq<Frame>)
    requires Tree(mem, ps) && root in ps && ps[root].level == 3 && NoRepeats(frames)
    requires forall c :: c in frames <==> Under(ps, root, 512, c)
    ensures NoRepeats(frames + [root]) && Elements(frames + [root]) == Owned(mem, ps, root)
    ensures Owned(mem, ps, root) <= ps.Keys
  {
    hide Tree;
    forall c ensures c in frames + [root] <==> c in Owned(mem, ps, root) {
      if c in ps {
        UnderIsOwned(mem, ps, root, c);
      }
    }
    assert root !in frames;
  }

  lemma AllInHand(frames: seq<Frame>, gone: set<Frame>)
    requires Elements(frames) == gone
    ensures Elements(frames[0..]) == gone && frames[..0] == []
  {
    assert frames[0..] == frames;
  }

  lemma NoneInHand(frames: seq<Frame>, k: nat)
    requires k == |frames|
    ensures Elements(frames[k..]) == {} && frames[..k] == frames
  {
  }

  lemma RestInHand(frames: seq<Frame>, k: nat)
    requires k < |frames| && NoRepeats(frames)
    ensures frames[k] in Elements(frames[k..]) && Elements(frames[k + 1..]) == Elements(frames[k..]) - {frames[k]}
    ensures frames[..k + 1] == frames[..k] + [frames[k]]
  {
    assert frames[k..] == [frames[k]] + frames[k + 1..];
    assert frames[k] !in frames[k + 1..];
  }

  lemma Joined(frames: seq<Frame>, inner: seq<Frame>, last: Frame)
    requires NoRepeats(frames) && NoRepeats(inner) && last !in frames && last !in inner
    requires forall k :: 0 <= k < |inner| ==> inner[k] !in frames
    ensures NoRepeats(frames + inner + [last])
  {
    var all := frames + inner + [last];
    forall i, j | 0 <= i < j < |all| ensures all[i] != all[j] {
      assert i < |frames| ==> all[i] == frames[i];
      assert |frames| <= i < |frames| + |inner| ==> all[i] == inner[i - |frames|];
      assert j < |frames| ==> all[j] == frames[j];
      assert |frames| <= j < |frames| + |inner| ==> all[j] == inner[j - |frames|];
    }
  }

  lemma UnderNone(ps: Places, t: Frame)
    requires t in ps
    ensures forall c :: !Under(ps, t, 0, c)
  {
  }

  /** Nothing is below a page. */
  lemma UnderPage(ps: Places, t: Frame)
    requires t in ps && ps[t].level == 0
    ensures forall c :: !Under(ps, t, 512, c)
  {
  }

  // ---- the cursor ----

  /** Every carved frame lies in a usable region, before the cursor. */
  ghost predicate AllBelow(rs: seq<Region>, idx: nat, cursor: nat, carved: set<Frame>) {
    PageAligned(cursor) && forall f :: f in carved ==> Below(rs, idx, cursor, f)
  }

  ghost predicate Below(rs: seq<Region>, idx: nat, cursor: nat, f: Frame) {
    exists r :: 0 <= r < |rs| && InRegion(rs, idx, cursor, f, r)
  }

  ghost predicate InRegion(rs: seq<Region>, idx: nat, cursor: nat, f: Frame, r: int)
    requires 0 <= r < |rs|
  {
    && r <= idx && rs[r].usable && rs[r].start <= f && f + 4096 <= rs[r].end && PageAligned(f)
    && (r == idx ==> f + 4096 <= BaseOf(rs[r]) + cursor)
  }

  lemma Advance(rs: seq<Region>, idx: nat, cursor: nat, carved: set<Frame>)
    requires AllBelow(rs, idx, cursor, carved)
    ensures AllBelow(rs, idx + 1, 0, carved)
  {
    forall f | f in carved ensures Below(rs, idx + 1, 0, f) {
      assert Below(rs, idx, cursor, f);
      var r :| 0 <= r < |rs| && InRegion(rs, idx, cursor, f, r);
      assert InRegion(rs, idx + 1, 0, f, r);
    }
  }

  /** The frames at the cursor are new, and stay below it once it has moved past them. */
  lemma FreshRun(rs: seq<Region>, idx: nat, cursor: nat, carved: set<Frame>, start: Frame, count: nat)
    requires RegionsApart(rs) && AllBelow(rs, idx, cursor, carved) && idx < |rs| && rs[idx].usable
    requires start == BaseOf(rs[idx]) + cursor && start + 4096 * count <= rs[idx].end
    ensures RunOf(start, count) !! carved && 0 < start && PageAligned(start)
    ensures AllBelow(rs, idx, cursor + 4096 * count, carved + RunOf(start, count))
  {
    PageSpan(count);
    hide PageAligned;
    var cursor' := cursor + 4096 * count;
    PageSum(BaseOf(rs[idx]), cursor);
    forall f | f in carved ensures f !in RunOf(start, count) && Below(rs, idx, cursor', f) {
      assert Below(rs, idx, cursor, f);
      var r :| 0 <= r < |rs| && InRegion(rs, idx, cursor, f, r);
      assert InRegion(rs, idx, cursor', f, r);
    }
    forall f | f in RunOf(start, count) ensures Below(rs, idx, cursor', f) {
      var k :| 0 <= k < count && f == start + 4096 * k;
      PageSpan(k);
      PageSum(start, 4096 * k);
      assert InRegion(rs, idx, cursor', f, idx);
    }
    PageSum(cursor, 4096 * count);
  }

  lemma PageSpan(n: nat)
    ensures PageAligned(4096 * n)
  {
  }

  lemma PageSum(a: nat, b: nat)
    requires PageAligned(a) && PageAligned(b)
    ensures PageAligned(a + b)
  {
  }

  function RunOf(start: Frame, count: nat): set<Frame> {
    set k | 0 <= k < count :: start + 4096 * k
  }

  /** Entries above the leaf allow everything already, so widening them does nothing. */
  lemma WidenedSame(mem: map<Frame, Table>, ps: Places, t: Frame, i: nat, fl: Flags)
    requires Tree(mem, ps) && t in ps && 2 <= ps[t].level <= 3 && i < 512 && t in mem && |mem[t]| == 512
    requires mem[t][i].present
    ensures Widened(mem[t][i], fl) == mem[t][i]
  {
    TableThere(mem, ps, t, i);
  }

  lemma HeldNotOwned(free: seq<Frame>, owned: set<Frame>, kernel: set<Frame>, leaked: set<Frame>, held: set<Frame>,
                     carved: set<Frame>, frame: Frame)
    requires Partition(free, owned, kernel, leaked, held, carved) && frame in held
    ensures frame !in owned
  {
  }

  /** A frame in hand becomes a page; the page it replaces, if any, is lost. */
  lemma LeafPlaced(free: seq<Frame>, ps: Places, kernel: set<Frame>, leaked: set<Frame>, held: set<Frame>,
                   carved: set<Frame>, frame: Frame, was: Entry, t: Frame, i: nat)
    requires Partition(free, ps.Keys, kernel, leaked, held, carved) && frame in held
    requires (was.present ==> was.frame in ps)
    ensures var ps1 := if was.present then ps - {was.frame} else ps;
            var lost := if was.present then leaked + {was.frame} else leaked;
            Partition(free, ps1[frame := Place(0, t, i)].Keys, kernel, lost, held - {frame}, carved)
  {
    var ps1 := if was.present then ps - {was.frame} else ps;
    assert ps1[frame := Place(0, t, i)].Keys == (if was.present then ps.Keys - {was.frame} else ps.Keys) + {frame};
  }

  lemma SameEntry(mem: map<Frame, Table>, t: Frame, i: nat)
    requires t in mem && i < |mem[t]|
    ensures SetEntry(mem, t, i, mem[t][i]) == mem
  {
    assert mem[t][i := mem[t][i]] == mem[t];
  }
}
