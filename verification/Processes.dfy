/**
 Processes and their address spaces: spawning, scheduling, sleeping and waking, growing a heap, and the
 three ways a process ends.
 */
module Processes {
  import opened Results
  import opened FrameTree
  import opened Paging

  /** A process that is not running: where to resume, what it waits for, and its space. */
  datatype Process = Process(pid: nat, rip: nat, rsp: nat, rax: nat, waiting: nat, callee: seq<nat>, space: Frame)

  /** The value that stands for not waiting. */
  function NotWaiting(): nat {
    0xffff_ffff_ffff_ffff
  }

  // ---- queues ----

  /** A pid with its space. */
  datatype Id = Id(pid: nat, space: Frame)

  function Is(p: Process, id: Id): nat {
    if p.pid == id.pid && p.space == id.space then 1 else 0
  }

  /** How often a process is in a queue. */
  function Count(s: seq<Process>, id: Id): nat {
    if s == [] then 0 else Is(s[0], id) + Count(s[1..], id)
  }

  function CountOne(p: Option<Process>, id: Id): nat {
    if p.None? then 0 else Is(p.value, id)
  }

  lemma {:induction false} CountJoin(s: seq<Process>, t: seq<Process>, id: Id)
    ensures Count(s + t, id) == Count(s, id) + Count(t, id)
  {
    if s == [] {
      assert s + t == t;
    } else {
      CountJoin(s[1..], t, id);
      assert (s + t)[1..] == s[1..] + t;
    }
  }

  lemma CountLast(s: seq<Process>, p: Process, id: Id)
    ensures Count(s + [p], id) == Count(s, id) + Is(p, id)
  {
    CountJoin(s, [p], id);
    assert [p][1..] == [];
  }

  /** The processes waiting on a window, ready to run. */
  function Woken(s: seq<Process>, win: nat): seq<Process> {
    if s == [] then []
    else (if s[0].waiting == win then [s[0].(waiting := NotWaiting())] else []) + Woken(s[1..], win)
  }

  function StillAsleep(s: seq<Process>, win: nat): seq<Process> {
    if s == [] then [] else (if s[0].waiting == win then [] else [s[0]]) + StillAsleep(s[1..], win)
  }

  lemma {:induction false} WakingSplits(s: seq<Process>, win: nat, id: Id)
    ensures Count(Woken(s, win), id) + Count(StillAsleep(s, win), id) == Count(s, id)
  {
    if s != [] {
      WakingSplits(s[1..], win, id);
      if s[0].waiting == win {
        assert Woken(s, win)[1..] == Woken(s[1..], win);
        assert StillAsleep(s, win) == StillAsleep(s[1..], win);
      } else {
        assert StillAsleep(s, win)[1..] == StillAsleep(s[1..], win);
        assert Woken(s, win) == Woken(s[1..], win);
      }
    }
  }

  /** The queue without a process. */
  function Retain(s: seq<Process>, pid: nat): seq<Process> {
    if s == [] then [] else (if s[0].pid == pid then [] else [s[0]]) + Retain(s[1..], pid)
  }

  lemma {:induction false} RetainedCount(s: seq<Process>, pid: nat, id: Id)
    ensures Count(Retain(s, pid), id) == if id.pid == pid then 0 else Count(s, id)
  {
    if s != [] {
      RetainedCount(s[1..], pid, id);
      if s[0].pid == pid {
        assert Retain(s, pid) == Retain(s[1..], pid);
      } else {
        assert Retain(s, pid)[1..] == Retain(s[1..], pid);
      }
    }
  }

  /** What each pid with a space must be: somewhere once, with that space, unless it is being torn down. */
  function Expected(spaces: map<nat, (Frame, nat)>, dying: set<nat>, id: Id): nat {
    if id.pid in spaces && id.pid !in dying && spaces[id.pid].0 == id.space then 1 else 0
  }

  ghost predicate Placed(run: seq<Process>, sleeping: seq<Process>, current: Option<Process>,
                         spaces: map<nat, (Frame, nat)>, dying: set<nat>) {
    forall id: Id :: Count(run, id) + Count(sleeping, id) + CountOne(current, id) == Expected(spaces, dying, id)
  }

  // ---- the system ----

  /** A page an image wants, and how. */
  datatype Wanted = Wanted(page: nat, writable: bool, executable: bool)

  datatype Spawned = Pid(pid: nat) | Failed | Stopped

  /** Where the heap of a process starts, and how far it may grow. */
  function HeapBase(): nat {
    0x80_2000_0000
  }

  function HeapMax(): nat {
    0x1000_0000
  }

  predicate Root(ps: Places, f: Frame) {
    f in ps && ps[f].level == 3
  }

  /** Spaces and roots belong together, one to one, but for the orphans, which are no one's space. */
  ghost predicate SpacesOwn(spaces: map<nat, (Frame, nat)>, ps: Places, orphans: set<Frame>, nextPid: nat) {
    && (forall p :: p in spaces ==> p < nextPid && spaces[p].0 != 0 && Root(ps, spaces[p].0) && spaces[p].0 !in orphans)
    && (forall p, q :: p in spaces && q in spaces && p != q ==> spaces[p].0 != spaces[q].0)
    && (forall f :: Root(ps, f) ==> f in orphans || exists p :: p in spaces && spaces[p].0 == f)
    && (forall f :: f in orphans ==> Root(ps, f))
  }

  /** How many frames the space of a process has. */
  ghost function HeldBy(mem: map<Frame, Table>, ps: Places, spaces: map<nat, (Frame, nat)>, pid: nat): nat
    requires Tree(mem, ps)
  {
    if pid in spaces then |Owned(mem, ps, spaces[pid].0)| else 0
  }

  ghost predicate BreaksIn(breaks: map<nat, nat>, spaces: map<nat, (Frame, nat)>) {
    forall p :: p in breaks ==> p in spaces && breaks[p] <= HeapMax()
  }

  // ---- heap pages ----

  function HeapPage(k: nat): nat {
    HeapBase() + 4096 * k
  }

  /** How many pages it takes to hold the first `v` bytes. */
  function PagesIn(v: nat): nat {
    (v + 4095) / 4096
  }

  /** The pages between one break and another that no break below the first has needed. */
  function HeapPages(from: nat, to: nat): (pages: seq<Wanted>) {
    seq(if PagesIn(from) < PagesIn(to) then PagesIn(to) - PagesIn(from) else 0,
        k requires 0 <= k => Wanted(HeapPage(PagesIn(from) + k), true, false))
  }

  /** A process has got `more` pages. */
  function Counted(spaces: map<nat, (Frame, nat)>, pid: nat, more: nat): map<nat, (Frame, nat)>
    requires pid in spaces
  {
    spaces[pid := (spaces[pid].0, spaces[pid].1 + more)]
  }

  function BreakOf(breaks: map<nat, nat>, pid: nat): nat {
    if pid in breaks then breaks[pid] else 0
  }

  /** Exactly the first `m` heap pages are mapped. */
  ghost predicate Backed(mem: map<Frame, Table>, root: Frame, m: nat) {
    forall k: nat {:trigger HeapPage(k)} :: k < 0x1_0000 ==> (Translate(mem, root, 3, HeapPage(k)).Some? <==> k < m)
  }

  /** The marks are right, and no break is above its mark. */
  ghost predicate HeapsMarked(marks: map<nat, nat>, breaks: map<nat, nat>, spaces: map<nat, (Frame, nat)>,
                              mem: map<Frame, Table>) {
    forall p {:trigger marks[p]} :: p in marks ==>
      p in spaces && PagesIn(BreakOf(breaks, p)) <= marks[p] <= 0x1_0000 && Backed(mem, spaces[p].0, marks[p])
  }

  ghost predicate AllLevel(marks: map<nat, nat>, spaces: map<nat, (Frame, nat)>, breaks: map<nat, nat>) {
    marks.Keys == spaces.Keys && forall p :: p in marks ==> marks[p] == PagesIn(BreakOf(breaks, p))
  }

  /** No page of an image lies where a heap may grow. */
  ghost predicate HeapFree(pages: seq<Wanted>) {
    forall i, k: nat {:trigger pages[i], HeapPage(k)} :: 0 <= i < |pages| && k < 0x1_0000 ==>
        pages[i].page != HeapPage(k)
  }

  class System {
    const memory: Memory
    var nextPid: nat
    var run: seq<Process>
    var sleeping: seq<Process>
    var current: Option<Process>
    var spaces: map<nat, (Frame, nat)>
    var breaks: map<nat, nat>

    /** For each process whose image keeps out of the heap range: how many heap pages, from the first on,
        have ever been mapped. */
    ghost var marks: map<nat, nat>

    /** Every pid with a space is in exactly one place, exactly once, with that space, except for those
        that are being torn down; every space but the orphans belongs to one pid; and memory is
        accounted for. */
    ghost predicate Inv(dying: set<nat>, orphans: set<Frame>)
      reads this, memory
    {
      && memory.Valid({})
      && Placed(run, sleeping, current, spaces, dying)
      && SpacesOwn(spaces, memory.places, orphans, nextPid) && BreaksIn(breaks, spaces)
      && dying <= spaces.Keys && HeapsMarked(marks, breaks, spaces, memory.mem)
    }

    /** What is mapped is the space of the process that runs, or nothing. */
    ghost predicate SlotRight()
      reads this, memory
    {
      memory.slot == if current.Some? then memory.SpaceEntry(current.value.space) else Absent()
    }

    /** The kernel loop, between processes. */
    ghost predicate Idle()
      reads this, memory
    {
      Inv({}, {}) && current.None? && SlotRight()
    }

    /** A process runs. */
    ghost predicate InUser()
      reads this, memory
    {
      Inv({}, {}) && current.Some? && SlotRight()
    }

    constructor (m: Memory)
      requires m.Valid({}) && m.places == map[]
      ensures Inv({}, {}) && current.None? && memory == m && spaces == map[] && run == [] && sleeping == []
      ensures marks == map[] && breaks == map[]
    {
      memory := m;
      nextPid, run, sleeping, current, spaces, breaks, marks := 1, [], [], None, map[], map[], map[];
    }

    // ---- the queues ----

    /** Move everyone parked on a window from the sleepers to the run queue, in order. */
    method WakeOnWindow(win: nat)
      requires Inv({}, {})
      modifies this`run, this`sleeping
      ensures Inv({}, {}) && run == old(run) + Woken(old(sleeping), win) && sleeping == StillAsleep(old(sleeping), win)
    {
      hide Placed, Count, Woken, StillAsleep, SpacesOwn, BreaksIn, HeapsMarked, Tree, AllBelow, Partition, RegionsApart;
      ghost var sleep0, run0 := sleeping, run;
      WakeScan(win);
      WakePlaced(run0, sleep0, current, spaces, {}, win);
    }

    method WakeScan(win: nat)
      modifies this`run, this`sleeping
      ensures run == old(run) + Woken(old(sleeping), win) && sleeping == StillAsleep(old(sleeping), win)
    {
      ghost var sleep0 := sleeping;
      ghost var kept: seq<Process> := [];
      var i := 0;
      assert sleeping[i..] == sleeping;
      while i < |sleeping|
        invariant 0 <= i <= |sleeping| && kept == sleeping[..i]
        invariant run + Woken(sleeping[i..], win) == old(run) + Woken(sleep0, win)
        invariant kept + StillAsleep(sleeping[i..], win) == StillAsleep(sleep0, win)
        decreases |sleeping| - i
      {
        ghost var rest := sleeping[i..];
        assert rest[1..] == sleeping[i + 1..];
        if sleeping[i].waiting == win {
          var p := sleeping[i];
          sleeping := sleeping[..i] + sleeping[i + 1..];
          assert sleeping[i..] == rest[1..] && sleeping[..i] == kept;
          run := run + [p.(waiting := NotWaiting())];
        } else {
          kept := kept + [sleeping[i]];
          i := i + 1;
        }
      }
      assert sleeping[i..] == [] && sleeping[..i] == sleeping;
    }

    // ---- scheduling ----

    /** The first half of a turn: the process at the head of the queue runs in its own space. */
    method Dispatch() returns (ran: bool)
      requires Idle()
      modifies this`run, this`current, memory`slot
      ensures ran <==> old(run) != []
      ensures !ran ==> Idle() && run == old(run)
      ensures ran ==> InUser() && current == Some(old(run)[0]) && run == old(run)[1..]
    {
      if run == [] {
        return false;
      }
      hide Count, SpacesOwn, BreaksIn, HeapsMarked, Placed, Tree, AllBelow, Partition, RegionsApart, Owned, Released;
      var proc := run[0];
      HeadMoves(run, sleeping, spaces, {});
      HeadSpace(run, sleeping, current, spaces);
      run := run[1..];
      current := Some(proc);
      memory.Activate(proc.space);
      return true;
    }

    /** The end of a turn: nothing of userspace stays mapped. */
    method Resume()
      requires Inv({}, {}) && current.None?
      modifies memory`slot
      ensures Idle()
    {
      memory.Activate(0);
    }

    /** Park the running process at the end of the run queue. */
    method YieldCurrent(rip: nat, rsp: nat, rax: nat, callee: seq<nat>)
      requires Inv({}, {})
      modifies this`run, this`current
      ensures Inv({}, {}) && current.None?
      ensures run == old(run) + if old(current).Some?
                                then [Process(old(current).value.pid, rip, rsp, rax, NotWaiting(), callee,
                                    old(current).value.space)]
                                else []
    {
      if current.Some? {
        hide Count, SpacesOwn, BreaksIn, HeapsMarked, Placed, Tree, AllBelow, Partition, RegionsApart, Owned, Released;
        var proc := current.value.(rip := rip, rsp := rsp, rax := rax, callee := callee, waiting := NotWaiting());
        TailMoves(run, sleeping, current.value, proc, spaces, {});
        current := None;
        run := run + [proc];
      }
    }

    /** Park the running process until something happens in a window. */
    method SleepOnWindow(rip: nat, rsp: nat, rax: nat, callee: seq<nat>, win: nat)
      requires Inv({}, {})
      modifies this`sleeping, this`current
      ensures Inv({}, {}) && current.None?
      ensures sleeping == old(sleeping) + if old(current).Some?
                                          then [Process(old(current).value.pid, rip, rsp, rax, win, callee,
                                              old(current).value.space)]
                                          else []
    {
      if current.Some? {
        hide Count, SpacesOwn, BreaksIn, HeapsMarked, Placed, Tree, AllBelow, Partition, RegionsApart, Owned, Released;
        var proc := current.value.(rip := rip, rsp := rsp, rax := rax, callee := callee, waiting := win);
        TailSleeps(run, sleeping, current.value, proc, spaces, {});
        current := None;
        sleeping := sleeping + [proc];
      }
    }

    // ---- ends ----

    /** Free all a process owned, which is done when it is in no queue any more. A second call for the
        same pid does nothing. */
    method FreeProcessMemory(pid: nat)
      requires Inv(if pid in spaces then {pid} else {}, {})
      modifies this`breaks, this`spaces, this`marks, memory
      ensures Inv({}, {}) && spaces == old(spaces) - {pid} && memory.slot == old(memory.slot)
      ensures memory.mem == old(memory.mem)
      ensures pid !in old(spaces) ==> memory.freeList == old(memory.freeList) && memory.places == old(memory.places)
      ensures pid in old(spaces) ==> Released(old(spaces)[pid].0, old(memory.freeList), old(memory.places))
      ensures memory.leaked == old(memory.leaked) && memory.carved == old(memory.carved)
      ensures memory.kernel == old(memory.kernel)
      ensures memory.Supply() == old(memory.Supply() + HeldBy(memory.mem, memory.places, spaces, pid))
      ensures memory.Spent(|old(memory.freeList)|, old(memory.Supply()), 0) && memory.Whole() == old(memory.Whole())
      ensures marks == old(marks) - {pid} && breaks == old(breaks) - {pid}
    {
      hide SpacesOwn, BreaksIn, HeapsMarked, Placed, Tree, AllBelow, Partition, RegionsApart, Owned, SameOwners, Room,
           AllFrames, Elements, NoRepeats;
      BreakGone(breaks, spaces, pid);
      MarkGone(marks, breaks, spaces, memory.mem, pid);
      breaks := breaks - {pid};
      marks := marks - {pid};
      if pid !in spaces {
        NoneGone(spaces, pid);
        return;
      }
      var space := spaces[pid].0;
      ghost var spaces0 := spaces;
      DyingGone(run, sleeping, current, spaces, pid);
      OrphanLeft(spaces, memory.places, nextPid, pid);
      spaces := spaces - {pid};
      if CurrentSpace() == space {
        memory.Activate(0);
      }
      CurrentElsewhere(run, sleeping, current, spaces0, memory.places, nextPid, pid);
      ghost var places0 := memory.places;
      ghost var free := memory.freeList;
      memory.DestroyAddressSpace(space);
      CardOfElements(memory.freeList[|free|..]);
      OrphanGone(memory.mem, spaces, places0, nextPid, space);
    }

    /** The space installed for the running process, or zero. */
    function CurrentSpace(): Frame
      reads this`current
    {
      if current.Some? then current.value.space else 0
    }

    /** Every frame of the space is back on the free list, once, and no frame of another has moved. */
    ghost predicate Released(space: Frame, free: seq<Frame>, owned: Places)
      requires Tree(memory.mem, owned)
      reads this, memory
    {
      var gone := Owned(memory.mem, owned, space);
      && free <= memory.freeList && NoRepeats(memory.freeList[|free|..]) && Elements(memory.freeList[|free|..]) == gone
      && memory.places == owned - gone
    }

    /** The running process ends itself. */
    method ExitCurrent()
      requires Inv({}, {})
      modifies this`current, this`breaks, this`spaces, this`marks, memory
      ensures Inv({}, {}) && current.None? && memory.mem == old(memory.mem) && memory.leaked == old(memory.leaked)
      ensures old(current).Some? ==>
                && old(current).value.pid in old(spaces) && spaces == old(spaces) - {old(current).value.pid}
                && Released(old(current).value.space, old(memory.freeList), old(memory.places))
      ensures old(current).None? ==>
                spaces == old(spaces) && memory.places == old(memory.places) && marks == old(marks)
                && breaks == old(breaks)
      ensures old(current).Some? ==>
                marks == old(marks) - {old(current).value.pid} && breaks == old(breaks) - {old(current).value.pid}
      ensures old(current).None? ==> memory.Supply() == old(memory.Supply())
      ensures old(current).Some? ==>
                memory.Supply() == old(memory.Supply() + HeldBy(memory.mem, memory.places, spaces, current.value.pid))
      ensures memory.Spent(|old(memory.freeList)|, old(memory.Supply()), 0) && memory.Whole() == old(memory.Whole())
    {
      if current.Some? {
        hide Count, SpacesOwn, BreaksIn, HeapsMarked, Placed, Tree, AllBelow, Partition, RegionsApart, Owned, Released,
             Room, AllFrames;
        var proc := current.value;
        CurrentLeaves(run, sleeping, proc, spaces);
        current := None;
        FreeProcessMemory(proc.pid);
      }
    }

    /** A process ends because its window was closed: it leaves whatever queue it is in. */
    method Terminate(pid: nat)
      requires Inv({}, {})
      modifies this`run, this`sleeping, this`current, this`breaks, this`spaces, this`marks, memory
      ensures Inv({}, {}) && run == Retain(old(run), pid) && sleeping == Retain(old(sleeping), pid)
      ensures current == if old(current).Some? && old(current).value.pid == pid then None else old(current)
      ensures spaces == old(spaces) - {pid} && memory.slot == old(memory.slot) && memory.mem == old(memory.mem)
      ensures pid in old(spaces) ==> Released(old(spaces)[pid].0, old(memory.freeList), old(memory.places))
      ensures pid !in old(spaces) ==> memory.places == old(memory.places)
      ensures memory.leaked == old(memory.leaked) && marks == old(marks) - {pid} && breaks == old(breaks) - {pid}
      ensures memory.Supply() == old(memory.Supply() + HeldBy(memory.mem, memory.places, spaces, pid))
      ensures memory.Spent(|old(memory.freeList)|, old(memory.Supply()), 0) && memory.Whole() == old(memory.Whole())
    {
      hide Count, Retain, SpacesOwn, BreaksIn, HeapsMarked, Placed, Tree, AllBelow, Partition, RegionsApart, Owned,
           SameOwners, Released, Room, AllFrames;
      AllRetained(run, sleeping, current, spaces, pid);
      run := Retain(run, pid);
      sleeping := Retain(sleeping, pid);
      if current.Some? && current.value.pid == pid {
        current := None;
      }
      FreeProcessMemory(pid);
    }

    // ---- mapping ----

    /** Map pages into the active space, one after another, up to the first that cannot be mapped. What
        is lost is what the pages led to before. */
    method LoadPages(pages: seq<Wanted>, ghost root: Frame) returns (r: Outcome, ghost done: nat)
      requires memory.Valid({}) && memory.Active(root) && forall k :: 0 <= k < |pages| ==> UserPage(pages[k].page)
      modifies memory
      ensures memory.Valid({}) && memory.slot == old(memory.slot) && SameRoots(old(memory.places), memory.places)
      ensures OtherSpacesSame(old(memory.mem), memory.mem, old(memory.places), root)
      ensures done <= |pages| && (r == Done ==> done == |pages|) && (r == OutOfFrames ==> done < |pages|)
      ensures r != Halted ==> Loaded(old(memory.mem), memory.mem, root, pages[..done])
      ensures r != Halted && Different(pages) ==>
                && memory.leaked == old(memory.leaked) + FramesAt(old(memory.mem), root, pages[..done])
                && (memory.leaked == old(memory.leaked) <==> NoneMapped(old(memory.mem), root, pages[..done]))
      ensures old(memory.Supply()) >= 3 * |pages| ==> r == Done
      ensures r != Done ==> memory.Supply() == 0
      ensures memory.Spent(|old(memory.freeList)|, old(memory.Supply()), 3 * |pages|)
      ensures memory.Whole() == old(memory.Whole())
    {
      hide Tree, AllBelow, Partition, RegionsApart, Translate, OtherSpacesSame, Loaded, SameRoots, SameElsewhere,
           SameOwners, Different, UserPage, NoneMapped, FramesAt, Replaced, Room, AllFrames;
      ghost var mem0, places0, leaked0 := memory.mem, memory.places, memory.leaked;
      NothingLoaded(mem0, places0, root);
      LostIff(memory.freeList, mem0, places0, memory.kernel, leaked0, memory.carved, root, pages);
      done := 0;
      var k := 0;
      assert pages[..0] == [];
      NoFrames(mem0, root);
      while k < |pages|
        invariant k == done <= |pages| && memory.Valid({}) && memory.Active(root) && memory.slot == old(memory.slot)
        invariant SameRoots(places0, memory.places) && OtherSpacesSame(mem0, memory.mem, places0, root)
        invariant Loaded(mem0, memory.mem, root, pages[..k])
        invariant Different(pages) ==> memory.leaked == leaked0 + FramesAt(mem0, root, pages[..k])
        invariant memory.Spent(|old(memory.freeList)|, old(memory.Supply()), 3 * k)
        invariant memory.Whole() == old(memory.Whole())
      {
        var w := pages[k];
        ghost var mem1, places1, leaked1 := memory.mem, memory.places, memory.leaked;
        ghost var frame;
        r, frame := memory.MapUserPage(w.page, w.writable, w.executable, root);
        StillActive(places1, memory.places, root);
        SameRootsChain(places0, places1, memory.places);
        if r == Done {
          OneMapped(mem0, places0, mem1, places1, memory.mem, root, w, frame);
          OneLoaded(mem0, mem1, places1, memory.mem, root, pages, k, frame);
          FramesStep(mem0, mem1, root, pages, k, leaked0, leaked1);
        } else {
          if r == Halted {
            OtherSpacesHalted(mem0, places0, mem1, places1, memory.mem, root);
          }
          return;
        }
        k := k + 1;
        done := k;
      }
      assert pages[..k] == pages;
      r := Done;
    }

    /** Build a space, load an image into it, and queue the process. Whatever was mapped before is mapped
        again afterwards. A spawn that fails gives back every frame it took. */
    method SpawnIntoNewSpace(pages: seq<Wanted>, entry: nat, stack: nat, loads: bool) returns (r: Spawned)
      requires Inv({}, {}) && SlotRight() && forall k :: 0 <= k < |pages| ==> UserPage(pages[k].page)
      modifies this`run, this`spaces, this`nextPid, this`marks, memory
      ensures r != Stopped ==>
                && Inv({}, {}) && SlotRight() && OtherSpacesSame(old(memory.mem), memory.mem, old(memory.places), 0)
                && (Different(pages) ==> memory.leaked == old(memory.leaked))
      ensures r.Pid? ==>
                && r.pid == old(nextPid) && r.pid in spaces
                && spaces == old(spaces)[r.pid := (spaces[r.pid].0, |pages|)]
                && run == old(run) + [Process(r.pid, entry, stack, 0, NotWaiting(), [], spaces[r.pid].0)]
                && !Root(old(memory.places), spaces[r.pid].0)
                && (forall k :: 0 <= k < |pages| && LastOf(pages, k) ==> Serves(memory.mem, spaces[r.pid].0, pages[k]))
                && marks == if HeapFree(pages) then old(marks)[r.pid := 0] else old(marks)
      ensures r.Pid? ==> loads && nextPid == old(nextPid) + 1
      ensures r.Failed? ==> run == old(run) && spaces == old(spaces) && marks == old(marks) && nextPid == old(nextPid)
      ensures old(memory.Supply()) > 3 * |pages| ==> r == if loads then Pid(old(nextPid)) else Failed
      ensures r.Stopped? ==> memory.Supply() == 0
      ensures memory.Spent(|old(memory.freeList)|, old(memory.Supply()), 3 * |pages| + 1)
      ensures memory.Whole() == old(memory.Whole())
    {
      hide Tree, AllBelow, Partition, RegionsApart, Translate, OtherSpacesSame, Loaded, SameRoots, SameElsewhere,
           SameOwners, UserPage, SpacesOwn, Placed, BreaksIn, SameEverywhere, Owned, Root, Serves, LastOf, HeapsMarked,
           NoneMapped, FramesAt, Different, HeapFree, Backed, Room, AllFrames;
      ghost var mem0, places0 := memory.mem, memory.places;
      NothingLoaded(mem0, places0, 0);
      MarkedSpaces(marks, breaks, spaces, mem0, places0, nextPid);
      var space := memory.CreateAddressSpace();
      if space.None? {
        return Failed;
      }
      ghost var root, mem1, places1 := space.value, memory.mem, memory.places;
      OrphanAdded(mem0, mem1, spaces, places0, nextPid, root);
      var previous := CurrentSpace();
      memory.Activate(space.value);
      NewUnmapped(mem1, root, pages);
      var result;
      ghost var done;
      result, done := LoadPages(pages, root);
      if result == Halted {
        return Stopped;
      }
      PreviousSpace(run, sleeping, current, spaces, places1, nextPid, root);
      memory.Activate(previous);
      SpacesKept(spaces, places1, memory.places, {root}, nextPid);
      OthersKept(mem0, places0, mem1, places1, memory.mem, root);
      RootThere(places1, memory.places, root);
      MarksSurvive(marks, breaks, spaces, mem0, memory.mem, places0, 0);
      if result == Done {
        assert pages[..done] == pages;
        LoadedServes(mem1, memory.mem, root, pages);
        FreshHeap(mem1, memory.mem, root, pages);
      }
      if result == Done && loads {
        var pid := PushRunQueue(entry, stack, |pages|, space.value, HeapFree(pages));
        return Pid(pid);
      }
      ghost var places2 := memory.places;
      memory.DestroyAddressSpace(space.value);
      OrphanGone(memory.mem, spaces, places2, nextPid, root);
      return Failed;
    }

    /** Give a loaded space a pid and a place at the end of the run queue. */
    method PushRunQueue(rip: nat, rsp: nat, pages: nat, space: Frame, ghost marked: bool) returns (pid: nat)
      requires Inv({}, {space}) && space != 0 && (marked ==> Backed(memory.mem, space, 0))
      modifies this`run, this`spaces, this`nextPid, this`marks
      ensures Inv({}, {}) && pid == old(nextPid) && nextPid == pid + 1 && spaces == old(spaces)[pid := (space, pages)]
      ensures run == old(run) + [Process(pid, rip, rsp, 0, NotWaiting(), [], space)]
      ensures marks == if marked then old(marks)[pid := 0] else old(marks)
    {
      hide Tree, AllBelow, Partition, RegionsApart, SpacesOwn, Placed, BreaksIn, HeapsMarked, Backed;
      pid := nextPid;
      var p := Process(pid, rip, rsp, 0, NotWaiting(), [], space);
      NewProcess(run, sleeping, current, spaces, memory.places, nextPid, p, pages);
      BreaksKept(breaks, spaces, pid, (space, pages));
      NewMark(marks, breaks, spaces, memory.mem, memory.places, nextPid, (space, pages), marked);
      nextPid := nextPid + 1;
      spaces := spaces[pid := (space, pages)];
      run := run + [p];
      if marked {
        marks := marks[pid := 0];
      }
    }

    // ---- growing the heap ----

    /** Move the heap break of the running process, and say where it was. A grown heap is mapped,
        writable and not executable; a shrunk one stays mapped. A refusal leaves the break where it
        was. Of the `done` pages mapped, those that were mapped already lose the frames they had: for a
        marked process there are some exactly when the old break is below the mark, that is, when the
        heap has been shrunk, or failed to grow part of the way, since. */
    method Sbrk(increment: int) returns (r: Option<nat>, stopped: bool, ghost done: nat)
      requires Inv({}, {}) && SlotRight() && -0x8000_0000_0000_0000 <= increment < 0x8000_0000_0000_0000
      modifies this`spaces, this`breaks, this`marks, memory
      ensures !stopped ==>
                && Inv({}, {}) && SlotRight()
                && OtherSpacesSame(old(memory.mem), memory.mem, old(memory.places),
                     if current.Some? then current.value.space else 0)
                && spaces.Keys == old(spaces).Keys && (forall p :: p in spaces ==> spaces[p].0 == old(spaces)[p].0)
      ensures !stopped && r.None? ==> breaks == old(breaks) && spaces == old(spaces)
      ensures stopped ==> memory.Supply() == 0
      ensures !stopped && r.Some? ==>
                && current.Some? && r.value == HeapBase() + old(Break()) && 0 <= old(Break()) + increment <= HeapMax()
                && breaks == old(breaks)[current.value.pid := old(Break()) + increment]
                && done == |HeapPages(old(Break()), old(Break()) + increment)|
                && spaces == Counted(old(spaces), current.value.pid, done)
      ensures current.None? || !(0 <= old(Break()) + increment <= HeapMax()) ==>
                !stopped && r.None? && done == 0 && marks == old(marks) && unchanged(memory)
      ensures !stopped && current.Some? && 0 <= old(Break()) + increment <= HeapMax() ==>
                && Grew(old(memory.mem), current.value.space, old(memory.leaked), memory.leaked, old(marks), marks,
                        current.value.pid, old(Break()), old(Break()) + increment, done)
                && Loaded(old(memory.mem), memory.mem, current.value.space,
                     HeapPages(old(Break()), old(Break()) + increment)[..done])
                && (r.None? ==> done < |HeapPages(old(Break()), old(Break()) + increment)| && memory.Supply() == 0)
      ensures (current.Some? && 0 <= old(Break()) + increment <= HeapMax()
               && old(memory.Supply()) >= 3 * |HeapPages(old(Break()), old(Break()) + increment)|) ==>
                    r.Some? && !stopped
      ensures 0 <= old(Break()) + increment <= HeapMax() ==>
                memory.Spent(|old(memory.freeList)|, old(memory.Supply()),
                    3 * |HeapPages(old(Break()), old(Break()) + increment)|)
      ensures memory.Whole() == old(memory.Whole())
    {
      hide Tree, AllBelow, Partition, RegionsApart, Translate, OtherSpacesSame, Loaded, SameRoots, SameElsewhere,
           SameOwners, UserPage, SpacesOwn, Placed, BreaksIn, SameEverywhere, Owned, HeapPages, HeapsMarked, Backed,
           NoneMapped, FramesAt, PagesIn, Room, AllFrames;
      r, stopped, done := None, false, 0;
      NothingLoaded(memory.mem, memory.places, if current.Some? then current.value.space else 0);
      if current.None? {
        return;
      }
      var pid, space := current.value.pid, current.value.space;
      var was := Break();
      var requested := was + increment;
      if requested < 0 || requested > HeapMax() {
        MarkStays(marks, breaks, spaces, memory.mem, pid);
        return;
      }
      var result;
      result, done := Extend(pid, space, was, requested);
      if result == Halted {
        stopped := true;
      } else if result == Done {
        breaks := breaks[pid := requested];
        r := Some(HeapBase() + was);
      }
    }

    /** Map what lies between the old break and the new one. */
    method Extend(pid: nat, space: Frame, was: nat, requested: nat) returns (result: Outcome, ghost done: nat)
      requires Inv({}, {}) && SlotRight() && current.Some? && pid == current.value.pid && space == current.value.space
      requires was == Break() && requested <= HeapMax()
      modifies this`spaces, this`marks, memory
      ensures result != Halted ==>
                && Inv({}, {}) && SlotRight() && BreaksIn(breaks[pid := requested], spaces)
                && OtherSpacesSame(old(memory.mem), memory.mem, old(memory.places), space)
                && spaces.Keys == old(spaces).Keys && (forall p :: p in spaces ==> spaces[p].0 == old(spaces)[p].0)
      ensures result == Done ==> HeapsMarked(marks, breaks[pid := requested], spaces, memory.mem)
      ensures result == OutOfFrames ==> spaces == old(spaces)
      ensures result == Done ==> spaces == Counted(old(spaces), pid, done)
      ensures result != Halted ==>
                Grew(old(memory.mem), space, old(memory.leaked), memory.leaked, old(marks), marks, pid, was, requested,
                    done)
      ensures (result == Done ==> done == |HeapPages(was, requested)|)
      ensures (result == OutOfFrames ==> done < |HeapPages(was, requested)|)
      ensures result != Halted ==>
                done <= |HeapPages(was, requested)|
                    && Loaded(old(memory.mem), memory.mem, space, HeapPages(was, requested)[..done])
      ensures old(memory.Supply()) >= 3 * |HeapPages(was, requested)| ==> result == Done
      ensures result != Done ==> memory.Supply() == 0
      ensures memory.Spent(|old(memory.freeList)|, old(memory.Supply()), 3 * |HeapPages(was, requested)|)
      ensures memory.Whole() == old(memory.Whole())
    {
      hide Tree, AllBelow, Partition, RegionsApart, Translate, OtherSpacesSame, Loaded, SameRoots, SameElsewhere,
           SameOwners, UserPage, SpacesOwn, Placed, BreaksIn, SameEverywhere, Owned, HeapPages, HeapsMarked, Backed,
           NoneMapped, FramesAt, PagesIn, Different, Grew, Room, AllFrames;
      RunningSpace(run, sleeping, current.value, spaces, memory.places, nextPid);
      var pages := HeapPages(was, requested);
      BreakBounded(breaks, spaces, pid);
      HeapPagesUser(was, requested);
      ghost var mem0, places0, leaked0 := memory.mem, memory.places, memory.leaked;
      MarkedSpaces(marks, breaks, spaces, mem0, places0, nextPid);
      result, done := LoadPages(pages, space);
      if result == Halted {
        return;
      }
      HeapGrown(marks, breaks, spaces, mem0, memory.mem, places0, pid, was, requested, done);
      GrewBy(mem0, space, leaked0, memory.leaked, marks, pid, was, requested, done);
      if pid in marks {
        marks := marks[pid := Max(marks[pid], PagesIn(was) + done)];
      }
      SpacesKept(spaces, places0, memory.places, {}, nextPid);
      BreakAll(breaks, spaces);
      BreakSet(breaks, spaces, pid, requested);
      if result == Done {
        assert pages[..done] == pages;
        AddPages(pid, requested, |pages|);
      }
    }

    /** Count the pages a process has got. */
    method AddPages(pid: nat, ghost requested: nat, more: nat)
      requires Inv({}, {}) && SlotRight() && pid in spaces && requested <= HeapMax()
      requires HeapsMarked(marks, breaks[pid := requested], spaces, memory.mem)
      modifies this`spaces
      ensures Inv({}, {}) && SlotRight() && BreaksIn(breaks[pid := requested], spaces)
      ensures HeapsMarked(marks, breaks[pid := requested], spaces, memory.mem)
      ensures spaces == Counted(old(spaces), pid, more)
    {
      hide Tree, AllBelow, Partition, RegionsApart, SpacesOwn, Placed, BreaksIn, HeapsMarked;
      BreakAll(breaks, spaces);
      BreakSet(breaks, spaces, pid, requested);
      if more == 0 {
        assert spaces == Counted(spaces, pid, 0);
      } else {
        CountPlaced(run, sleeping, current, spaces, pid, more);
        CountSpaces(spaces, memory.places, nextPid, pid, more);
        BreakSet(breaks, spaces[pid := (spaces[pid].0, spaces[pid].1 + more)], pid, requested);
        CountMarks(marks, breaks, spaces, memory.mem, pid, more);
        CountMarks(marks, breaks[pid := requested], spaces, memory.mem, pid, more);
        spaces := Counted(spaces, pid, more);
      }
    }

    /** How far the running process has grown its heap. */
    function Break(): nat
      reads this`current, this`breaks
    {
      if current.Some? && current.value.pid in breaks then breaks[current.value.pid] else 0
    }

    // ---- turns ----

    /** Every heap is mapped exactly as far as its break reaches. */
    ghost predicate Level()
      reads this`marks, this`spaces, this`breaks
    {
      AllLevel(marks, spaces, breaks)
    }

    /** What can be seen of the system. */
    ghost function Seen(): Snapshot
      reads this, memory
    {
      Snapshot(run, sleeping, current, nextPid, spaces, breaks, marks, memory.mem, memory.places, memory.leaked,
               memory.Supply())
    }

    /** What a process does during its turn that reaches the kernel and comes back: exactly these calls
        happen, one after another. `short` says that a heap was grown part of the way and the rest
        refused. Neither that nor a stop happens with enough frames, and without them gentle calls lose
        no frame. */
    method RunSchedulerOnce(calls: seq<Call>, last: End) returns (ran: bool, stopped: bool, ghost short: bool)
      requires Idle() && forall k :: 0 <= k < |calls| ==> CallOk(calls[k])
      modifies this, memory
      ensures !stopped ==> Idle() && (ran <==> old(run) != []) && Turned(old(Seen()), calls, last, Seen(), short)
      ensures !ran ==> !stopped && run == old(run) && spaces == old(spaces)
      ensures stopped ==> memory.Supply() == 0 && TurnStops(old(Seen()), calls)
      ensures old(memory.Supply()) >= NeedCalls(calls) ==> !stopped && !short
      ensures memory.Spent(|old(memory.freeList)|, old(memory.Supply()), NeedCalls(calls))
      ensures memory.Whole() == old(memory.Whole())
      ensures !stopped && !short && old(Level()) && (forall k :: 0 <= k < |calls| ==> GentleCall(calls[k])) ==>
                Level() && memory.leaked == old(memory.leaked)
    {
      hide Tree, AllBelow, Partition, RegionsApart, SpacesOwn, Placed, BreaksIn, OtherSpacesSame, Loaded, Released,
           HeapsMarked, FramesAt, NoneMapped, HeapFree, Different, Level, AllLevel, GentleCall, CallOk, Room, AllFrames,
           Called, Calls, NeedCalls, NeedCall, Ended, Turned;
      NoCalls(calls);
      stopped, short := false, false;
      ran := Dispatch();
      if !ran {
        NoTurn(old(Seen()), calls, last);
        return;
      }
      ghost var start := Seen();
      Calls0(start);
      var k := 0;
      while k < |calls|
        invariant k <= |calls| && InUser() && Calls(start, calls[..k], Seen(), short)
        invariant memory.Spent(|old(memory.freeList)|, old(memory.Supply()), NeedCalls(calls[..k]))
        invariant memory.Whole() == old(memory.Whole())
        invariant old(memory.Supply()) >= NeedCalls(calls) ==> !short
        invariant !short && old(Level()) && (forall j :: 0 <= j < |calls| ==> GentleCall(calls[j])) ==>
                    Level() && memory.leaked == old(memory.leaked)
      {
        ghost var part;
        ghost var before := Seen();
        NeedMore(calls, k);
        stopped, part := OneCall(calls[k]);
        if stopped {
          assert Calls(start, calls[..k], before, short) && before.supply < NeedCall(calls[k]);
          return;
        }
        CallsMore(start, calls, k, before, short, Seen(), part);
        short := short || part;
        k := k + 1;
      }
      assert calls[..k] == calls;
      ghost var mid := Seen();
      EndTurn(last);
      Resume();
      OneTurn(old(Seen()), calls, last, mid, short, Seen());
    }

    /** One call of the running process. */
    method OneCall(call: Call) returns (stopped: bool, ghost short: bool)
      requires InUser() && CallOk(call)
      modifies this`run, this`sleeping, this`spaces, this`breaks, this`nextPid, this`marks, memory
      ensures !stopped ==>
                InUser() && (!short && old(Level()) && GentleCall(call) ==>
                Level() && memory.leaked == old(memory.leaked))
      ensures !stopped ==> Called(old(Seen()), call, Seen(), short)
      ensures stopped ==> memory.Supply() == 0
      ensures old(memory.Supply()) >= NeedCall(call) ==> !stopped && !short
      ensures memory.Spent(|old(memory.freeList)|, old(memory.Supply()), NeedCall(call))
      ensures memory.Whole() == old(memory.Whole())
    {
      hide Tree, AllBelow, Partition, RegionsApart, SpacesOwn, Placed, BreaksIn, OtherSpacesSame, Loaded, Released,
           HeapsMarked, FramesAt, NoneMapped, HeapFree, Different, HeapPages, PagesIn, Room, AllFrames, Grows, AllLevel,
           InLimits;
      stopped, short := false, false;
      match call {
        case Grow(increment) =>
          stopped, short := GrowHeap(increment);
        case Spawn(pages, entry, stack, loads) =>
          stopped := StartProcess(pages, entry, stack, loads);
        case Wake(win) =>
          WakeOnWindow(win);
      }
    }

    /** A process is started, by another or by the kernel. */
    method StartProcess(pages: seq<Wanted>, entry: nat, stack: nat, loads: bool) returns (stopped: bool)
      requires Inv({}, {}) && SlotRight() && forall k :: 0 <= k < |pages| ==> UserPage(pages[k].page)
      modifies this`run, this`spaces, this`nextPid, this`marks, memory
      ensures !stopped ==>
                && Inv({}, {}) && SlotRight()
                && (old(Level()) && Different(pages) && HeapFree(pages) ==>
                     Level() && memory.leaked == old(memory.leaked))
                && Started(old(Seen()), pages, entry, stack, loads, Seen())
      ensures stopped ==> memory.Supply() == 0
      ensures old(memory.Supply()) > 3 * |pages| ==> !stopped
      ensures memory.Spent(|old(memory.freeList)|, old(memory.Supply()), 3 * |pages| + 1)
      ensures memory.Whole() == old(memory.Whole())
    {
      hide Tree, AllBelow, Partition, RegionsApart, SpacesOwn, Placed, BreaksIn, OtherSpacesSame, Serves, LastOf, Root,
           HeapsMarked, HeapFree, Different, Room, AllFrames, AllLevel;
      ghost var before := Seen();
      NextPidUnused();
      var r := SpawnIntoNewSpace(pages, entry, stack, loads);
      stopped := r.Stopped?;
      if !stopped {
        StartedLevel(before, pages, entry, stack, loads, Seen());
      }
    }

    /** The running process moves its heap break. */
    method GrowHeap(increment: int) returns (stopped: bool, ghost short: bool)
      requires InUser() && CallOk(Grow(increment))
      modifies this`spaces, this`breaks, this`marks, memory
      ensures !stopped ==>
                InUser() && (!short && old(Level()) && increment >= 0 ==>
                Level() && memory.leaked == old(memory.leaked))
      ensures !stopped ==> Called(old(Seen()), Grow(increment), Seen(), short)
      ensures stopped ==> memory.Supply() == 0
      ensures old(memory.Supply()) >= NeedCall(Grow(increment)) ==> !stopped && !short
      ensures memory.Spent(|old(memory.freeList)|, old(memory.Supply()), NeedCall(Grow(increment)))
      ensures memory.Whole() == old(memory.Whole())
    {
      hide Tree, AllBelow, Partition, RegionsApart, SpacesOwn, Placed, BreaksIn, OtherSpacesSame, Loaded, Released,
           HeapsMarked, FramesAt, NoneMapped, HeapFree, Different, HeapPages, PagesIn, Room, AllFrames, Grew, AllLevel,
           NeedCall, HeapMax;
      ghost var was, before := Break(), Seen();
      RunningMarked();
      NeedGrow(was, increment);
      var r;
      ghost var done;
      r, stopped, done := Sbrk(increment);
      short := r.None? && done > 0;
      if !stopped && InLimits(before, increment) {
        assert Grows(before, increment, Seen(), done);
        GrowsLevel(before, increment, Seen(), done);
      }
    }

    /** The running process gives up the processor, one way or another. */
    method EndTurn(last: End)
      requires InUser()
      modifies this`run, this`sleeping, this`current, this`breaks, this`spaces, this`marks, memory
      ensures Inv({}, {}) && current.None? && memory.leaked == old(memory.leaked) && (old(Level()) ==> Level())
      ensures Ended(old(Seen()), last, Seen())
      ensures memory.Spent(|old(memory.freeList)|, old(memory.Supply()), 0) && memory.Whole() == old(memory.Whole())
    {
      hide Tree, AllBelow, Partition, RegionsApart, SpacesOwn, Placed, BreaksIn, HeapsMarked, Room, AllFrames, AllLevel;
      StillLevel(marks, spaces, breaks);
      match last {
        case Yield(rip, rsp, rax, callee) => YieldCurrent(rip, rsp, rax, callee);
        case Sleep(rip, rsp, rax, callee, win) => SleepOnWindow(rip, rsp, rax, callee, win);
        case Exit =>
          RunningMarked();
          ExitCurrent();
      }
    }

    lemma RunningMarked()
      requires Inv({}, {}) && current.Some?
      ensures current.value.pid in spaces && spaces[current.value.pid].0 == current.value.space
    {
      RunningSpace(run, sleeping, current.value, spaces, memory.places, nextPid);
    }

    lemma NextPidUnused()
      requires Inv({}, {})
      ensures nextPid !in spaces && nextPid !in breaks
    {
    }

    /** Whole runs of the kernel loop, from an idle system on: turns, spawns, wake-ups, closed windows and
        drivers asking for memory happen one after another, and keep every promise of `Idle`. With
        enough frames in the beginning a run does not stop and no heap is grown only part of the way;
        and then a run loses no frame in which images keep out of the heap and name no page twice, and
        no heap is shrunk. */
    method Run(events: seq<Event>) returns (stopped: bool, ghost short: bool)
      requires Idle() && forall k :: 0 <= k < |events| ==> EventOk(events[k])
      modifies this, memory
      ensures !stopped ==> Idle() && Happened(old(Seen()), events, Seen(), short)
      ensures stopped ==> memory.Supply() == 0 && RunStops(old(Seen()), events)
      ensures Enough(events, |old(memory.freeList)|, old(memory.Supply())) ==> !stopped && !short
      ensures NoDriver(events) ==> memory.Supply() + Need(events) >= old(memory.Supply())
      ensures !stopped && NoDriver(events) ==>
                memory.Supply() + |memory.places| + |memory.leaked|
                    == old(memory.Supply() + |memory.places| + |memory.leaked|)
      ensures !stopped && !short && old(Level()) && (forall k :: 0 <= k < |events| ==> GentleEvent(events[k])) ==>
                Level() && memory.leaked == old(memory.leaked)
    {
      hide Tree, AllBelow, Partition, RegionsApart, SpacesOwn, Placed, BreaksIn, OtherSpacesSame, Loaded, Released,
           HeapsMarked, Level, GentleEvent, Moved, Happened, Need, NeedEvent, Room, AllFrames;
      NoEvents(Seen(), events);
      memory.SupplyIsRest();
      stopped, short := false, false;
      var k := 0;
      while k < |events|
        invariant k <= |events| && Idle() && Happened(old(Seen()), events[..k], Seen(), short)
        invariant |memory.freeList| + Need(events[..k]) >= |old(memory.freeList)|
        invariant NoDriver(events) ==>
                    memory.Supply() + Need(events[..k]) >= old(memory.Supply()) && memory.Whole() == old(memory.Whole())
        invariant Enough(events, |old(memory.freeList)|, old(memory.Supply())) ==> !short
        invariant !short && old(Level()) && (forall j :: 0 <= j < |events| ==> GentleEvent(events[j])) ==>
                    Level() && memory.leaked == old(memory.leaked)
      {
        ghost var part;
        ghost var before := Seen();
        NeedMoreEvents(events, k);
        stopped, part := OneEvent(events[k]);
        if stopped {
          assert Happened(old(Seen()), events[..k], before, short) && before.supply < NeedEvent(events[k]);
          return;
        }
        HappenedMore(old(Seen()), events, k, before, short, Seen(), part);
        short := short || part;
        k := k + 1;
      }
      assert events[..k] == events;
      memory.SupplyIsRest();
    }

    method OneEvent(event: Event) returns (stopped: bool, ghost short: bool)
      requires Idle() && EventOk(event)
      modifies this, memory
      ensures !stopped ==>
                Idle() && (!short && old(Level()) && GentleEvent(event) ==>
                Level() && memory.leaked == old(memory.leaked))
      ensures !stopped ==> Moved(old(Seen()), event, Seen(), short)
      ensures stopped ==> memory.Supply() == 0
      ensures old(memory.Supply()) >= NeedEvent(event) ==> !stopped && !short
      ensures |memory.freeList| + NeedEvent(event) >= |old(memory.freeList)|
      ensures !event.Driver? ==>
                memory.Supply() + NeedEvent(event) >= old(memory.Supply()) && memory.Whole() == old(memory.Whole())
    {
      hide Tree, AllBelow, Partition, RegionsApart, SpacesOwn, Placed, BreaksIn, OtherSpacesSame, Loaded, HeapsMarked,
           HeapFree, Different, Room, AllFrames, Turned, NeedCalls, NoRepeats, Elements, Owned, AllLevel, Started;
      stopped, short := false, false;
      match event {
        case Turn(calls, last) =>
          var ran;
          ran, stopped, short := RunSchedulerOnce(calls, last);
        case Start(pages, entry, stack, loads) =>
          stopped := StartProcess(pages, entry, stack, loads);
        case Close(pid) =>
          StillLevel(marks, spaces, breaks);
          Terminate(pid);
        case Event(win) => WakeOnWindow(win);
        case Driver(bytes) =>
          var r := memory.AllocDma(bytes);
      }
    }

    /** In a system at rest every pid with a space is in exactly one of the two queues, exactly once. */
    lemma EachOnce(pid: nat)
      requires Idle() && pid in spaces
      ensures var id := Id(pid, spaces[pid].0); Count(run, id) + Count(sleeping, id) == 1
      ensures forall space :: space != spaces[pid].0 ==>
                Count(run, Id(pid, space)) == 0 == Count(sleeping, Id(pid, space))
    {
      forall space
        ensures Count(run, Id(pid, space)) + Count(sleeping, Id(pid, space)) == if space == spaces[pid].0 then 1 else 0
      {
        var id := Id(pid, space);
        assert Count(run, id) + Count(sleeping, id) + CountOne(current, id) == Expected(spaces, {}, id);
      }
    }
  }

  /** From boot on: a process grows its heap by a page, shrinks it and grows it again. Each call succeeds,
      and a frame is lost, because the page was mapped still when it was mapped anew. */
  method RegrowLoses() returns (m: Memory, ghost frame: Frame)
    ensures m.Valid({}) && m.regions == EightFrames() && m.leaked == {frame}
  {
    hide Tree, AllBelow, Partition, RegionsApart, SpacesOwn, Placed, BreaksIn, OtherSpacesSame, Loaded, HeapsMarked,
         NoneMapped, Translate, HeapPages, Room, AllFrames, FramesAt, AllLevel;
    var system := FirstProcess();
    m := system.memory;
    PageByPage();
    GrowAndShrink(system);
    ghost var mem, space := m.mem, system.current.value.space;
    var r, stopped;
    ghost var done;
    r, stopped, done := system.Sbrk(4096);
    frame := OnePageLost(mem, space, {}, m.leaked);
  }

  /** A level heap grows by a page and shrinks again: now its mark is above its break. */
  method GrowAndShrink(system: System)
    requires system.InUser() && system.Break() == 0 && system.current.value.pid in system.marks
    requires system.marks[system.current.value.pid] == 0 && system.memory.Supply() >= 3
    modifies system, system.memory
    ensures system.InUser() && system.Break() == 0 && system.current.value.pid in system.marks
    ensures system.marks[system.current.value.pid] == 1 && system.memory.leaked == old(system.memory.leaked)
    ensures system.memory.Supply() + 3 >= old(system.memory.Supply())
  {
    hide Tree, AllBelow, Partition, RegionsApart, SpacesOwn, Placed, BreaksIn, OtherSpacesSame, Loaded, HeapsMarked,
         NoneMapped, Translate, HeapPages, Room, AllFrames, FramesAt;
    PageByPage();
    var r, stopped;
    ghost var done;
    r, stopped, done := system.Sbrk(4096);
    r, stopped, done := system.Sbrk(-4096);
  }

  /** A machine with eight frames boots and runs its first process, which has no page yet. */
  method FirstProcess() returns (system: System)
    ensures fresh(system) && fresh(system.memory) && system.memory.regions == EightFrames()
    ensures system.InUser() && system.Break() == 0 && system.current.value.pid in system.marks
    ensures system.marks[system.current.value.pid] == 0 && system.memory.leaked == {} && system.memory.Supply() >= 7
  {
    hide Tree, AllBelow, Partition, RegionsApart, SpacesOwn, Placed, BreaksIn, OtherSpacesSame, Loaded, HeapsMarked,
         NoneMapped, Translate, HeapPages, Room, AllFrames;
    EightApart();
    var m := new Memory(EightFrames());
    system := new System(m);
    var spawned := system.SpawnIntoNewSpace([], 0, 0, true);
    var ran := system.Dispatch();
  }

  /** A machine with eight frames. */
  function EightFrames(): seq<Region> {
    [Region(4096, 4096 * 9, true)]
  }

  lemma EightApart()
    ensures RegionsApart(EightFrames()) && Room(EightFrames(), 0, 0) == 8
  {
    var rs := EightFrames();
    assert BaseOf(rs[0]) == 4096;
    assert Room(rs, 1, 0) == 0;
  }

  lemma PageByPage()
    ensures PagesIn(0) == 0 && PagesIn(4096) == 1
    ensures HeapPages(0, 4096) == [Wanted(HeapPage(0), true, false)] && HeapPages(4096, 0) == []
  {
  }

  lemma OnePageLost(mem: map<Frame, Table>, space: Frame, lost: set<Frame>, lost': set<Frame>) returns (frame: Frame)
    requires lost' != lost && lost' == lost + FramesAt(mem, space, HeapPages(0, 4096)[..1])
    ensures frame !in lost && lost' == lost + {frame}
  {
    PageByPage();
    var pages := HeapPages(0, 4096)[..1];
    assert pages[..0] == [];
    assert FramesAt(mem, space, pages) == FramesAt(mem, space, []) + Replaced(mem, space, HeapPage(0));
    var found := Translate(mem, space, 3, HeapPage(0));
    frame := found.value.frame;
  }

  /** What a running process asks of the kernel. */
  datatype Call = Grow(increment: int) | Spawn(pages: seq<Wanted>, entry: nat, stack: nat, loads: bool) | Wake(win: nat)

  /** How a turn ends; a fault ends it as an exit does. */
  datatype End = Yield(rip: nat, rsp: nat, rax: nat, callee: seq<nat>)
               | Sleep(rip: nat, rsp: nat, rax: nat, callee: seq<nat>, win: nat)
               | Exit

  datatype Event = Turn(calls: seq<Call>, last: End)
                 | Start(pages: seq<Wanted>, entry: nat, stack: nat, loads: bool)
                 | Close(pid: nat)
                 | Event(win: nat)
                 | Driver(bytes: nat)

  /** The loader only maps pages of the user range, and an increment is a signed number. */
  predicate CallOk(c: Call) {
    match c
    case Grow(increment) => -0x8000_0000_0000_0000 <= increment < 0x8000_0000_0000_0000
    case Spawn(pages, _, _, _) => forall k :: 0 <= k < |pages| ==> UserPage(pages[k].page)
    case Wake(_) => true
  }

  predicate EventOk(e: Event) {
    match e
    case Turn(calls, _) => forall k :: 0 <= k < |calls| ==> CallOk(calls[k])
    case Start(pages, _, _, _) => forall k :: 0 <= k < |pages| ==> UserPage(pages[k].page)
    case Close(_) => true
    case Event(_) => true
    case Driver(_) => true
  }

  /** No heap is shrunk, and images name each page once and none of the heap. */
  ghost predicate GentleCall(c: Call) {
    match c
    case Grow(increment) => increment >= 0
    case Spawn(pages, _, _, _) => Different(pages) && HeapFree(pages)
    case Wake(_) => true
  }

  ghost predicate GentleEvent(e: Event) {
    match e
    case Turn(calls, _) => forall k :: 0 <= k < |calls| ==> GentleCall(calls[k])
    case Start(pages, _, _, _) => Different(pages) && HeapFree(pages)
    case Close(_) => true
    case Event(_) => true
    case Driver(_) => true
  }

  // ---- what happens ----

  /** What can be seen of a system: its queues, its spaces with their breaks, what is mapped, the frames
      lost, and how many frames can still be had. */
  datatype Snapshot = Snapshot(run: seq<Process>, sleeping: seq<Process>, current: Option<Process>, nextPid: nat,
                               spaces: map<nat, (Frame, nat)>, breaks: map<nat, nat>, marks: map<nat, nat>,
                               mem: map<Frame, Table>, places: Places, leaked: set<Frame>, supply: nat)

  function BreakIn(s: Snapshot): nat {
    if s.current.Some? then BreakOf(s.breaks, s.current.value.pid) else 0
  }

  /** The running process may move its break so far. */
  predicate InLimits(s: Snapshot, increment: int) {
    s.current.Some? && 0 <= BreakIn(s) + increment <= HeapMax()
  }

  function NewPages(s: Snapshot, increment: int): seq<Wanted>
    requires InLimits(s, increment)
  {
    HeapPages(BreakIn(s), BreakIn(s) + increment)
  }

  /** The heap has got `done` of the new pages, and moved its break only if it has got them all. */
  ghost predicate Grows(s: Snapshot, increment: int, s': Snapshot, done: nat)
    requires InLimits(s, increment)
  {
    var pages, p, requested := NewPages(s, increment), s.current.value, BreakIn(s) + increment;
    && done <= |pages| && p.pid in s.spaces
    && Loaded(s.mem, s'.mem, p.space, pages[..done]) && OtherSpacesSame(s.mem, s'.mem, s.places, p.space)
    && Grew(s.mem, p.space, s.leaked, s'.leaked, s.marks, s'.marks, p.pid, BreakIn(s), requested, done)
    && s'.breaks == (if done == |pages| then s.breaks[p.pid := requested] else s.breaks)
    && s'.spaces == (if done == |pages| then Counted(s.spaces, p.pid, done) else s.spaces)
    && (done < |pages| ==> s.supply < 3 * |pages| && s'.supply == 0)
    && s' == s.(breaks := s'.breaks, marks := s'.marks, spaces := s'.spaces, mem := s'.mem, places := s'.places,
                leaked := s'.leaked, supply := s'.supply)
  }

  /** There is a new process with the image, at the end of the run queue; or there is none, for want of
      an image that loads, or of frames. */
  ghost predicate Started(s: Snapshot, pages: seq<Wanted>, entry: nat, stack: nat, loads: bool, s': Snapshot) {
    && OtherSpacesSame(s.mem, s'.mem, s.places, 0) && (Different(pages) ==> s'.leaked == s.leaked)
    && (s.supply > 3 * |pages| ==> (s'.nextPid != s.nextPid <==> loads))
    && s'.supply + 3 * |pages| + 1 >= s.supply
    && if s'.nextPid == s.nextPid then
         s' == s.(mem := s'.mem, places := s'.places, leaked := s'.leaked, supply := s'.supply)
       else
         && loads && s.nextPid in s'.spaces
         && var space := s'.spaces[s.nextPid].0;
         && !Root(s.places, space)
         && (forall k :: 0 <= k < |pages| && LastOf(pages, k) ==> Serves(s'.mem, space, pages[k]))
         && s' == s.(run := s.run + [Process(s.nextPid, entry, stack, 0, NotWaiting(), [], space)],
                     spaces := s.spaces[s.nextPid := (space, |pages|)], nextPid := s.nextPid + 1,
                     marks := if HeapFree(pages) then s.marks[s.nextPid := 0] else s.marks,
                     mem := s'.mem, places := s'.places, leaked := s'.leaked, supply := s'.supply)
  }

  function Awakened(s: Snapshot, win: nat): Snapshot {
    s.(run := s.run + Woken(s.sleeping, win), sleeping := StillAsleep(s.sleeping, win))
  }

  /** A process is gone, and its frames can be had again. */
  ghost predicate Gone(s: Snapshot, pid: nat, s': Snapshot) {
    && Tree(s.mem, s.places)
    && s' == s.(spaces := s.spaces - {pid}, breaks := s.breaks - {pid}, marks := s.marks - {pid},
                places := if pid in s.spaces then s.places - Owned(s.mem, s.places, s.spaces[pid].0) else s.places,
                supply := s.supply + HeldBy(s.mem, s.places, s.spaces, pid))
  }

  /** What one call does; `short` says that it grew a heap part of the way. */
  ghost predicate Called(s: Snapshot, call: Call, s': Snapshot, short: bool) {
    match call
    case Grow(increment) =>
      if InLimits(s, increment) then
        exists done: nat :: Grows(s, increment, s', done) && (short <==> 0 < done < |NewPages(s, increment)|)
      else
        s' == s && !short
    case Spawn(pages, entry, stack, loads) => Started(s, pages, entry, stack, loads, s') && !short
    case Wake(win) => s' == Awakened(s, win) && !short
  }

  ghost predicate Calls(s: Snapshot, calls: seq<Call>, s': Snapshot, short: bool) {
    if calls == [] then s' == s && !short
    else
      var n := |calls| - 1;
      exists mid: Snapshot, before: bool, now: bool ::
        Calls(s, calls[..n], mid, before) && Called(mid, calls[n], s', now) && (short <==> before || now)
  }

  ghost predicate Ended(s: Snapshot, last: End, s': Snapshot) {
    && s.current.Some?
    && var p, rest := s.current.value, s.(current := None);
       match last
       case Yield(rip, rsp, rax, callee) =>
         s' == rest.(run := s.run + [Process(p.pid, rip, rsp, rax, NotWaiting(), callee, p.space)])
       case Sleep(rip, rsp, rax, callee, win) =>
         s' == rest.(sleeping := s.sleeping + [Process(p.pid, rip, rsp, rax, win, callee, p.space)])
       case Exit => Gone(rest, p.pid, s')
  }

  /** What a turn does: the head of the run queue makes its calls and gives up the processor. */
  ghost predicate Turned(s: Snapshot, calls: seq<Call>, last: End, s': Snapshot, short: bool) {
    if s.run == [] then s' == s && !short
    else
      var turn := s.(run := s.run[1..], current := Some(s.run[0]));
      exists mid :: Calls(turn, calls, mid, short) && Ended(mid, last, s')
  }

  /** What one event does. */
  ghost predicate Moved(s: Snapshot, event: Event, s': Snapshot, short: bool) {
    match event
    case Turn(calls, last) => Turned(s, calls, last, s', short)
    case Start(pages, entry, stack, loads) => Started(s, pages, entry, stack, loads, s') && !short
    case Close(pid) => Gone(s.(run := Retain(s.run, pid), sleeping := Retain(s.sleeping, pid)), pid, s') && !short
    case Event(win) => s' == Awakened(s, win) && !short
    case Driver(_) => s' == s.(supply := s'.supply) && s'.supply <= s.supply && !short
  }

  ghost predicate Happened(s: Snapshot, events: seq<Event>, s': Snapshot, short: bool) {
    if events == [] then s' == s && !short
    else
      var n := |events| - 1;
      exists mid: Snapshot, before: bool, now: bool ::
        Happened(s, events[..n], mid, before) && Moved(mid, events[n], s', now) && (short <==> before || now)
  }

  /** A turn in which a call finds fewer frames than it may need, when all before it have been made. */
  ghost predicate TurnStops(s: Snapshot, calls: seq<Call>) {
    && s.run != []
    && var turn := s.(run := s.run[1..], current := Some(s.run[0]));
       exists k: nat, mid: Snapshot, short: bool {:trigger Calls(turn, calls[..k], mid, short)} ::
         k < |calls| && Calls(turn, calls[..k], mid, short) && mid.supply < NeedCall(calls[k])
  }

  /** A run in which an event does, when all before it have happened. */
  ghost predicate RunStops(s: Snapshot, events: seq<Event>) {
    exists k: nat, mid: Snapshot, short: bool {:trigger Happened(s, events[..k], mid, short)} ::
      k < |events| && Happened(s, events[..k], mid, short) && mid.supply < NeedEvent(events[k])
  }

  lemma NoTurn(s: Snapshot, calls: seq<Call>, last: End)
    requires s.run == []
    ensures Turned(s, calls, last, s, false)
  {
  }

  lemma OneTurn(s: Snapshot, calls: seq<Call>, last: End, mid: Snapshot, short: bool, s': Snapshot)
    requires s.run != [] && Calls(s.(run := s.run[1..], current := Some(s.run[0])), calls, mid, short)
    requires Ended(mid, last, s')
    ensures Turned(s, calls, last, s', short)
  {
    hide Calls, Ended;
  }

  lemma Calls0(s: Snapshot)
    ensures Calls(s, [], s, false)
  {
  }

  lemma CallsMore(s: Snapshot, calls: seq<Call>, k: nat, mid: Snapshot, before: bool, s': Snapshot, now: bool)
    requires k < |calls| && Calls(s, calls[..k], mid, before) && Called(mid, calls[k], s', now)
    ensures Calls(s, calls[..k + 1], s', before || now)
  {
    hide Called;
    assert calls[..k + 1][..k] == calls[..k];
  }

  lemma HappenedMore(s: Snapshot, events: seq<Event>, k: nat, mid: Snapshot, before: bool, s': Snapshot, now: bool)
    requires k < |events| && Happened(s, events[..k], mid, before) && Moved(mid, events[k], s', now)
    ensures Happened(s, events[..k + 1], s', before || now)
  {
    hide Moved;
    assert events[..k + 1][..k] == events[..k];
  }

  // ---- how many frames it takes ----

  /** The frames a call may take: one for each page, and two for tables above it. */
  function NeedCall(c: Call): nat {
    match c
    case Grow(increment) => if increment > 0 then 3 * PagesIn(increment) else 0
    case Spawn(pages, _, _, _) => 3 * |pages| + 1
    case Wake(_) => 0
  }

  function NeedCalls(calls: seq<Call>): nat {
    if calls == [] then 0 else NeedCalls(calls[..|calls| - 1]) + NeedCall(calls[|calls| - 1])
  }

  function NeedEvent(e: Event): nat {
    match e
    case Turn(calls, _) => NeedCalls(calls)
    case Start(pages, _, _, _) => 3 * |pages| + 1
    case Close(_) => 0
    case Event(_) => 0
    case Driver(_) => 0
  }

  function Need(events: seq<Event>): nat {
    if events == [] then 0 else Need(events[..|events| - 1]) + NeedEvent(events[|events| - 1])
  }

  predicate NoDriver(events: seq<Event>) {
    forall k :: 0 <= k < |events| ==> !events[k].Driver?
  }

  /** Enough frames for a run: on the free list, or in all if no driver takes any. */
  predicate Enough(events: seq<Event>, free: nat, supply: nat) {
    free >= Need(events) || (NoDriver(events) && supply >= Need(events))
  }

  lemma NoCalls(calls: seq<Call>)
    ensures calls[..0] == [] && NeedCalls([]) == 0
  {
  }

  lemma {:induction false} NeedMore(calls: seq<Call>, k: nat)
    requires k < |calls|
    ensures NeedCalls(calls[..k + 1]) == NeedCalls(calls[..k]) + NeedCall(calls[k]) <= NeedCalls(calls)
    decreases |calls|
  {
    hide NeedCall;
    var n := |calls| - 1;
    assert calls[..k + 1][..k] == calls[..k];
    if k == n {
      assert calls[..k + 1] == calls;
    } else {
      NeedMore(calls[..n], k);
      assert calls[..n][..k + 1] == calls[..k + 1] && calls[..n][..k] == calls[..k];
    }
  }

  lemma NoEvents(s: Snapshot, events: seq<Event>)
    ensures events[..0] == [] && Need([]) == 0 && Happened(s, [], s, false)
  {
  }

  lemma {:induction false} NeedMoreEvents(events: seq<Event>, k: nat)
    requires k < |events|
    ensures Need(events[..k + 1]) == Need(events[..k]) + NeedEvent(events[k]) <= Need(events)
    decreases |events|
  {
    hide NeedEvent;
    var n := |events| - 1;
    assert events[..k + 1][..k] == events[..k];
    if k == n {
      assert events[..k + 1] == events;
    } else {
      NeedMoreEvents(events[..n], k);
      assert events[..n][..k + 1] == events[..k + 1] && events[..n][..k] == events[..k];
    }
  }

  lemma NeedGrow(was: nat, increment: int)
    ensures was + increment >= 0 ==> 3 * |HeapPages(was, was + increment)| <= NeedCall(Grow(increment))
  {
  }

  // ---- growing ----

  lemma HeapPagesUser(from: nat, to: nat)
    requires from <= HeapMax() && to <= HeapMax()
    ensures forall k :: 0 <= k < |HeapPages(from, to)| ==> UserPage(HeapPages(from, to)[k].page)
    ensures Different(HeapPages(from, to)) && PagesIn(from) <= 0x1_0000
    ensures PagesIn(from) + |HeapPages(from, to)| <= 0x1_0000
  {
    var pages := HeapPages(from, to);
    forall k | 0 <= k < |pages| ensures UserPage(pages[k].page) {
      HeapPageUser(PagesIn(from) + k);
    }
    forall i, j | 0 <= i < j < |pages| ensures pages[i].page != pages[j].page {
      assert pages[i].page == HeapPage(PagesIn(from) + i) && pages[j].page == HeapPage(PagesIn(from) + j);
    }
  }

  lemma HeapPageUser(k: nat)
    requires k < 0x1_0000
    ensures UserPage(HeapPage(k))
  {
  }

  /** A level heap is level after it has grown all the way, or not at all, and nothing is lost. */
  lemma GrowsLevel(s: Snapshot, increment: int, s': Snapshot, done: nat)
    requires InLimits(s, increment) && Grows(s, increment, s', done)
    ensures increment >= 0 && AllLevel(s.marks, s.spaces, s.breaks) && !(0 < done < |NewPages(s, increment)|) ==>
              AllLevel(s'.marks, s'.spaces, s'.breaks) && s'.leaked == s.leaked
  {
    hide Loaded, OtherSpacesSame, FramesAt, NoneMapped;
    if increment >= 0 {
      PagesGrow(BreakIn(s), BreakIn(s) + increment);
    }
    hide HeapPages, PagesIn;
  }

  lemma PagesGrow(from: nat, to: nat)
    requires from <= to
    ensures PagesIn(from) + |HeapPages(from, to)| == PagesIn(to)
  {
  }

  lemma StartedLevel(s: Snapshot, pages: seq<Wanted>, entry: nat, stack: nat, loads: bool, s': Snapshot)
    requires Started(s, pages, entry, stack, loads, s') && s.nextPid !in s.spaces && s.nextPid !in s.breaks
    ensures AllLevel(s.marks, s.spaces, s.breaks) && Different(pages) && HeapFree(pages) ==>
              AllLevel(s'.marks, s'.spaces, s'.breaks) && s'.leaked == s.leaked
  {
    hide Serves, OtherSpacesSame, LastOf, Root, HeapFree, Different;
    assert PagesIn(0) == 0;
  }

  /** A process less, and all heaps are still level. */
  lemma StillLevel(marks: map<nat, nat>, spaces: map<nat, (Frame, nat)>, breaks: map<nat, nat>)
    ensures AllLevel(marks, spaces, breaks) ==>
              forall pid: nat :: AllLevel(marks - {pid}, spaces - {pid}, breaks - {pid})
  {
  }

  function Max(a: int, b: int): int {
    if a < b then b else a
  }

  /** The spaces of marked processes are roots, and no process uses the next pid yet. */
  ghost predicate MarkRoots(marks: map<nat, nat>, spaces: map<nat, (Frame, nat)>, ps: Places) {
    && (forall p {:trigger marks[p]} :: p in marks ==> p in spaces && Root(ps, spaces[p].0) && spaces[p].0 != 0)
    && (forall p, q :: p in spaces && q in spaces && p != q ==> spaces[p].0 != spaces[q].0)
  }

  lemma MarkedSpaces(marks: map<nat, nat>, breaks: map<nat, nat>, spaces: map<nat, (Frame, nat)>,
                     mem: map<Frame, Table>, ps: Places, nextPid: nat)
    requires HeapsMarked(marks, breaks, spaces, mem) && SpacesOwn(spaces, ps, {}, nextPid)
    ensures MarkRoots(marks, spaces, ps)
  {
  }

  lemma BackedSame(mem: map<Frame, Table>, mem': map<Frame, Table>, ps: Places, root: Frame, x: Frame, m: nat)
    requires Backed(mem, x, m) && OtherSpacesSame(mem, mem', ps, root) && Root(ps, x) && x != root
    ensures Backed(mem', x, m)
  {
    hide Translate, UserPage;
    forall k: nat {:trigger HeapPage(k)} | k < 0x1_0000 ensures Translate(mem', x, 3, HeapPage(k)).Some? <==> k < m {
      HeapPageUser(k);
      assert Translate(mem', x, 3, HeapPage(k)) == Translate(mem, x, 3, HeapPage(k));
    }
  }

  /** What happens in another space does not touch a heap. */
  lemma MarksSurvive(marks: map<nat, nat>, breaks: map<nat, nat>, spaces: map<nat, (Frame, nat)>,
                     mem: map<Frame, Table>, mem': map<Frame, Table>, ps: Places, root: Frame)
    requires HeapsMarked(marks, breaks, spaces, mem) && MarkRoots(marks, spaces, ps)
    requires OtherSpacesSame(mem, mem', ps, root)
    requires forall p :: p in marks ==> p in spaces && spaces[p].0 != root
    ensures HeapsMarked(marks, breaks, spaces, mem')
  {
    hide Backed, OtherSpacesSame, PagesIn;
    forall p {:trigger marks[p]} | p in marks
      ensures p in spaces && PagesIn(BreakOf(breaks, p)) <= marks[p] <= 0x1_0000 && Backed(mem', spaces[p].0, marks[p])
    {
      BackedSame(mem, mem', ps, root, spaces[p].0, marks[p]);
    }
  }

  /** An image that keeps out of the heap range leaves the heap empty. */
  lemma FreshHeap(mem: map<Frame, Table>, mem': map<Frame, Table>, root: Frame, pages: seq<Wanted>)
    requires (forall q :: Translate(mem, root, 3, q) == None) && Loaded(mem, mem', root, pages)
    ensures HeapFree(pages) ==> Backed(mem', root, 0)
  {
    hide Translate, UserPage;
    if HeapFree(pages) {
      forall k: nat {:trigger HeapPage(k)} | k < 0x1_0000 ensures !Translate(mem', root, 3, HeapPage(k)).Some? {
        HeapPageUser(k);
        assert !Named(pages, HeapPage(k));
      }
    }
  }

  lemma NewMark(marks: map<nat, nat>, breaks: map<nat, nat>, spaces: map<nat, (Frame, nat)>, mem: map<Frame, Table>,
                ps: Places, nextPid: nat, v: (Frame, nat), marked: bool)
    requires HeapsMarked(marks, breaks, spaces, mem) && SpacesOwn(spaces, ps, {v.0}, nextPid)
    requires BreaksIn(breaks, spaces)
    requires marked ==> Backed(mem, v.0, 0)
    ensures HeapsMarked(if marked then marks[nextPid := 0] else marks, breaks, spaces[nextPid := v], mem)
  {
    hide Backed;
  }

  lemma CountMarks(marks: map<nat, nat>, breaks: map<nat, nat>, spaces: map<nat, (Frame, nat)>, mem: map<Frame, Table>,
                   pid: nat, more: nat)
    requires HeapsMarked(marks, breaks, spaces, mem) && pid in spaces
    ensures HeapsMarked(marks, breaks, spaces[pid := (spaces[pid].0, spaces[pid].1 + more)], mem)
  {
    hide Backed;
  }

  lemma MarkStays(marks: map<nat, nat>, breaks: map<nat, nat>, spaces: map<nat, (Frame, nat)>, mem: map<Frame, Table>,
                  pid: nat)
    requires HeapsMarked(marks, breaks, spaces, mem)
    ensures pid in marks ==>
              PagesIn(BreakOf(breaks, pid)) <= marks[pid]
              && marks == marks[pid := Max(marks[pid], PagesIn(BreakOf(breaks, pid)) + 0)]
  {
    hide Backed;
  }

  /** Growing by `done` pages from the old break on: the mark moves up if it must, and a page was mapped
      before exactly if the old break was below the mark. */
  lemma HeapGrown(marks: map<nat, nat>, breaks: map<nat, nat>, spaces: map<nat, (Frame, nat)>, mem: map<Frame, Table>,
                  mem': map<Frame, Table>, ps: Places, pid: nat, was: nat, requested: nat, done: nat)
    requires HeapsMarked(marks, breaks, spaces, mem) && MarkRoots(marks, spaces, ps) && pid in spaces
    requires was == BreakOf(breaks, pid) <= HeapMax() && requested <= HeapMax()
    requires done <= |HeapPages(was, requested)| && PagesIn(was) + |HeapPages(was, requested)| <= 0x1_0000
    requires OtherSpacesSame(mem, mem', ps, spaces[pid].0)
    requires Loaded(mem, mem', spaces[pid].0, HeapPages(was, requested)[..done])
    ensures pid !in marks ==>
              HeapsMarked(marks, breaks, spaces, mem') && HeapsMarked(marks, breaks[pid := requested], spaces, mem')
    ensures pid in marks ==>
              var m := Max(marks[pid], PagesIn(was) + done);
              && HeapsMarked(marks[pid := m], breaks, spaces, mem')
              && (done == |HeapPages(was, requested)| ==>
                   HeapsMarked(marks[pid := m], breaks[pid := requested], spaces, mem'))
              && (NoneMapped(mem, spaces[pid].0, HeapPages(was, requested)[..done]) <==>
                    done == 0 || PagesIn(was) == marks[pid])
  {
    var root, pages := spaces[pid].0, HeapPages(was, requested)[..done];
    if pid in marks {
      var m := Max(marks[pid], PagesIn(was) + done);
      assert PagesIn(was) <= marks[pid] && Backed(mem, root, marks[pid]);
      BackedMore(mem, mem', root, marks[pid], was, requested, done);
      assert done == |HeapPages(was, requested)| ==> PagesIn(requested) <= m;
    }
    hide Backed, OtherSpacesSame, PagesIn, Loaded, NoneMapped, HeapPages;
    forall p {:trigger marks[p]} | p in marks && p != pid
      ensures p in spaces && PagesIn(BreakOf(breaks, p)) <= marks[p] <= 0x1_0000 && Backed(mem', spaces[p].0, marks[p])
      ensures BreakOf(breaks[pid := requested], p) == BreakOf(breaks, p)
    {
      BackedSame(mem, mem', ps, root, spaces[p].0, marks[p]);
    }
  }

  lemma BackedMore(mem: map<Frame, Table>, mem': map<Frame, Table>, root: Frame, mark: nat, was: nat, requested: nat,
                   done: nat)
    requires Backed(mem, root, mark) && PagesIn(was) <= mark && done <= |HeapPages(was, requested)|
    requires PagesIn(was) + |HeapPages(was, requested)| <= 0x1_0000
    requires Loaded(mem, mem', root, HeapPages(was, requested)[..done])
    ensures Backed(mem', root, Max(mark, PagesIn(was) + done))
    ensures NoneMapped(mem, root, HeapPages(was, requested)[..done]) <==> done == 0 || PagesIn(was) == mark
  {
    var start, pages := PagesIn(was), HeapPages(was, requested)[..done];
    assert forall i :: 0 <= i < done ==> pages[i].page == HeapPage(start + i);
    hide Translate, UserPage, HeapPages, PagesIn;
    forall k: nat {:trigger HeapPage(k)} | k < 0x1_0000
      ensures Translate(mem', root, 3, HeapPage(k)).Some? <==> k < mark || k < start + done
    {
      HeapPageUser(k);
      if start <= k < start + done {
        assert pages[k - start].page == HeapPage(k);
        assert LastOf(pages, k - start);
        assert Serves(mem', root, pages[k - start]);
      } else {
        assert !Named(pages, HeapPage(k));
      }
    }
    if done > 0 {
      assert pages[0].page == HeapPage(start);
      assert Translate(mem, root, 3, HeapPage(start)).Some? <==> start < mark;
      if start == mark {
        forall i | 0 <= i < done ensures Translate(mem, root, 3, pages[i].page) == None {
          assert Translate(mem, root, 3, HeapPage(start + i)).Some? <==> start + i < mark;
        }
      }
    }
  }

  lemma RunningSpace(run: seq<Process>, sleeping: seq<Process>, p: Process, spaces: map<nat, (Frame, nat)>, ps: Places,
                     nextPid: nat)
    requires Placed(run, sleeping, Some(p), spaces, {}) && SpacesOwn(spaces, ps, {}, nextPid)
    ensures p.pid in spaces && spaces[p.pid].0 == p.space && Root(ps, p.space) && p.space != 0
  {
    var id := Id(p.pid, p.space);
    assert Count(run, id) + Count(sleeping, id) + CountOne(Some(p), id) == Expected(spaces, {}, id);
  }

  lemma BreakBounded(breaks: map<nat, nat>, spaces: map<nat, (Frame, nat)>, pid: nat)
    requires BreaksIn(breaks, spaces)
    ensures pid in breaks ==> breaks[pid] <= HeapMax()
  {
  }

  /** Only the page count of a process changes. */
  lemma CountPlaced(run: seq<Process>, sleeping: seq<Process>, current: Option<Process>, spaces: map<nat, (Frame, nat)>,
                    pid: nat, more: nat)
    requires Placed(run, sleeping, current, spaces, {}) && pid in spaces
    ensures Placed(run, sleeping, current, spaces[pid := (spaces[pid].0, spaces[pid].1 + more)], {})
  {
    var spaces' := spaces[pid := (spaces[pid].0, spaces[pid].1 + more)];
    forall id: Id ensures Count(run, id) + Count(sleeping, id) + CountOne(current, id) == Expected(spaces', {}, id) {
      assert Count(run, id) + Count(sleeping, id) + CountOne(current, id) == Expected(spaces, {}, id);
    }
  }

  lemma CountSpaces(spaces: map<nat, (Frame, nat)>, ps: Places, nextPid: nat, pid: nat, more: nat)
    requires SpacesOwn(spaces, ps, {}, nextPid) && pid in spaces
    ensures SpacesOwn(spaces[pid := (spaces[pid].0, spaces[pid].1 + more)], ps, {}, nextPid)
  {
    var spaces' := spaces[pid := (spaces[pid].0, spaces[pid].1 + more)];
    forall f | Root(ps, f) ensures exists q :: q in spaces' && spaces'[q].0 == f {
      var q :| q in spaces && spaces[q].0 == f;
      assert spaces'[q].0 == f;
    }
  }

  lemma BreakAll(breaks: map<nat, nat>, spaces: map<nat, (Frame, nat)>)
    requires BreaksIn(breaks, spaces)
    ensures forall p :: p in breaks ==> p in spaces && breaks[p] <= HeapMax()
  {
  }

  lemma BreakSet(breaks: map<nat, nat>, spaces: map<nat, (Frame, nat)>, pid: nat, requested: nat)
    requires pid in spaces && requested <= HeapMax() && forall p :: p in breaks ==>
               p in spaces && breaks[p] <= HeapMax()
    ensures BreaksIn(breaks[pid := requested], spaces) && BreaksIn(breaks, spaces)
  {
  }

  // ---- loading ----

  /** Every user page of every other space translates as before. */
  ghost predicate OtherSpacesSame(mem: map<Frame, Table>, mem': map<Frame, Table>, ps: Places, root: Frame) {
    forall x, q :: Root(ps, x) && x != root && UserPage(q) ==> Translate(mem', x, 3, q) == Translate(mem, x, 3, q)
  }

  /** The page is mapped as the image wants it. */
  ghost predicate Serves(mem: map<Frame, Table>, root: Frame, w: Wanted) {
    var m := Translate(mem, root, 3, w.page);
    m.Some? && m.value.writable == w.writable && m.value.user && m.value.noExec == !w.executable
  }

  predicate LastOf(pages: seq<Wanted>, k: nat)
    requires k < |pages|
  {
    forall j :: k < j < |pages| ==> pages[j].page != pages[k].page
  }

  predicate Named(pages: seq<Wanted>, q: nat) {
    exists k :: 0 <= k < |pages| && pages[k].page == q
  }

  /** Each page wanted is mapped as it was wanted last, and no other page has moved. */
  ghost predicate Loaded(mem: map<Frame, Table>, mem': map<Frame, Table>, root: Frame, pages: seq<Wanted>) {
    && (forall k :: 0 <= k < |pages| && LastOf(pages, k) ==> Serves(mem', root, pages[k]))
    && (forall q :: UserPage(q) && !Named(pages, q) ==> Translate(mem', root, 3, q) == Translate(mem, root, 3, q))
  }

  ghost predicate NoneMapped(mem: map<Frame, Table>, root: Frame, pages: seq<Wanted>) {
    forall k :: 0 <= k < |pages| ==> Translate(mem, root, 3, pages[k].page) == None
  }

  /** The frames that pages lead to. */
  ghost function FramesAt(mem: map<Frame, Table>, root: Frame, pages: seq<Wanted>): set<Frame> {
    if pages == [] then {} else FramesAt(mem, root, pages[..|pages| - 1]) + Replaced(mem, root, pages[|pages| - 1].page)
  }

  /** What growing a heap by `done` pages has lost: the frames those pages had. For a marked process
      there are some exactly when the old break was below the mark. */
  ghost predicate Grew(mem: map<Frame, Table>, space: Frame, leaked: set<Frame>, leaked': set<Frame>,
                       marks: map<nat, nat>, marks': map<nat, nat>, pid: nat, was: nat, requested: nat, done: nat) {
    && done <= |HeapPages(was, requested)|
    && leaked' == leaked + FramesAt(mem, space, HeapPages(was, requested)[..done])
    && (leaked' == leaked <==> NoneMapped(mem, space, HeapPages(was, requested)[..done]))
    && (pid in marks ==>
          && (leaked' == leaked <==> done == 0 || PagesIn(was) == marks[pid])
          && marks' == marks[pid := Max(marks[pid], PagesIn(was) + done)])
    && (pid !in marks ==> marks' == marks)
  }

  lemma GrewBy(mem: map<Frame, Table>, space: Frame, leaked: set<Frame>, leaked': set<Frame>, marks: map<nat, nat>,
               pid: nat, was: nat, requested: nat, done: nat)
    requires done <= |HeapPages(was, requested)|
    requires leaked' == leaked + FramesAt(mem, space, HeapPages(was, requested)[..done])
    requires leaked' == leaked <==> NoneMapped(mem, space, HeapPages(was, requested)[..done])
    requires pid in marks ==>
               (NoneMapped(mem, space, HeapPages(was, requested)[..done]) <==> done == 0 || PagesIn(was) == marks[pid])
    ensures pid in marks ==>
              Grew(mem, space, leaked, leaked', marks, marks[pid := Max(marks[pid], PagesIn(was) + done)], pid, was,
                  requested, done)
    ensures pid !in marks ==> Grew(mem, space, leaked, leaked', marks, marks, pid, was, requested, done)
  {
  }

  lemma NoFrames(mem: map<Frame, Table>, root: Frame)
    ensures FramesAt(mem, root, []) == {}
  {
  }

  lemma FramesStep(mem: map<Frame, Table>, mem1: map<Frame, Table>, root: Frame, pages: seq<Wanted>, k: nat,
                   lost: set<Frame>, lost1: set<Frame>)
    requires k < |pages|
    requires (Different(pages) ==> Replaced(mem1, root, pages[k].page) == Replaced(mem, root, pages[k].page))
    requires Different(pages) ==> lost1 == lost + FramesAt(mem, root, pages[..k])
    ensures Different(pages) ==>
              lost1 + Replaced(mem1, root, pages[k].page) == lost + FramesAt(mem, root, pages[..k + 1])
  {
    assert pages[..k + 1][..k] == pages[..k];
  }

  /** No frame that is in use has been lost, so losing those the pages lead to loses none only if there
      are none. */
  lemma {:induction false} LostIff(free: seq<Frame>, mem: map<Frame, Table>, ps: Places, kernel: set<Frame>,
                                   leaked: set<Frame>, carved: set<Frame>, root: Frame, pages: seq<Wanted>)
    requires Tree(mem, ps) && Partition(free, ps.Keys, kernel, leaked, {}, carved) && Root(ps, root)
    ensures forall n: nat :: n <= |pages| ==>
              (leaked + FramesAt(mem, root, pages[..n]) == leaked <==> NoneMapped(mem, root, pages[..n]))
  {
    forall n: nat | n <= |pages|
      ensures leaked + FramesAt(mem, root, pages[..n]) == leaked <==> NoneMapped(mem, root, pages[..n])
    {
      FramesOwned(mem, ps, root, pages[..n]);
      assert leaked + FramesAt(mem, root, pages[..n]) == leaked <==> FramesAt(mem, root, pages[..n]) == {};
    }
  }

  lemma {:induction false} FramesOwned(mem: map<Frame, Table>, ps: Places, root: Frame, pages: seq<Wanted>)
    requires Tree(mem, ps) && Root(ps, root)
    ensures FramesAt(mem, root, pages) <= ps.Keys
    ensures FramesAt(mem, root, pages) == {} <==> NoneMapped(mem, root, pages)
  {
    hide Tree;
    if pages != [] {
      var rest, q := pages[..|pages| - 1], pages[|pages| - 1].page;
      FramesOwned(mem, ps, root, rest);
      ReachableIsOwn(mem, ps, root, 3, q);
      assert NoneMapped(mem, root, pages) <==> NoneMapped(mem, root, rest) && Translate(mem, root, 3, q) == None by {
        assert forall k :: 0 <= k < |rest| ==> pages[k] == rest[k];
      }
    }
  }

  predicate Different(pages: seq<Wanted>) {
    forall i, j :: 0 <= i < j < |pages| ==> pages[i].page != pages[j].page
  }

  /** A root that has just been made is no one's space yet. */
  lemma OrphanAdded(mem: map<Frame, Table>, mem': map<Frame, Table>, spaces: map<nat, (Frame, nat)>, ps: Places,
                    nextPid: nat, root: Frame)
    requires SpacesOwn(spaces, ps, {}, nextPid) && root !in ps && SameEverywhere(mem, mem', ps)
    ensures SpacesOwn(spaces, ps[root := Place(3, 0, 0)], {root}, nextPid)
    ensures !Root(ps, root) && Root(ps[root := Place(3, 0, 0)], root)
  {
    var ps' := ps[root := Place(3, 0, 0)];
    forall f | Root(ps', f) ensures f in {root} || exists p :: p in spaces && spaces[p].0 == f {
      assert f != root ==> Root(ps, f);
    }
    forall p | p in spaces ensures Root(ps', spaces[p].0) && spaces[p].0 !in {root} {
      assert Root(ps, spaces[p].0);
    }
  }

  lemma RootThere(ps: Places, ps': Places, root: Frame)
    requires Root(ps, root) && SameRoots(ps, ps')
    ensures root in ps' && ps'[root].level == 3 && Root(ps', root)
  {
  }

  lemma LoadedServes(mem: map<Frame, Table>, mem': map<Frame, Table>, root: Frame, pages: seq<Wanted>)
    requires Loaded(mem, mem', root, pages)
    ensures forall k :: 0 <= k < |pages| && LastOf(pages, k) ==> Serves(mem', root, pages[k])
  {
  }

  lemma NewUnmapped(mem: map<Frame, Table>, root: Frame, pages: seq<Wanted>)
    requires forall q :: Translate(mem, root, 3, q) == None
    ensures forall n: nat :: n <= |pages| ==> NoneMapped(mem, root, pages[..n])
  {
  }

  lemma SpacesKept(spaces: map<nat, (Frame, nat)>, ps: Places, ps': Places, orphans: set<Frame>, nextPid: nat)
    requires SpacesOwn(spaces, ps, orphans, nextPid) && SameRoots(ps, ps')
    ensures SpacesOwn(spaces, ps', orphans, nextPid)
  {
    assert forall f :: Root(ps', f) <==> Root(ps, f);
  }

  lemma OthersKept(mem: map<Frame, Table>, ps: Places, mem1: map<Frame, Table>, ps1: Places, mem2: map<Frame, Table>,
                   root: Frame)
    requires SameEverywhere(mem, mem1, ps) && ps1 == ps[root := Place(3, 0, 0)] && root !in ps
    requires OtherSpacesSame(mem1, mem2, ps1, root)
    ensures OtherSpacesSame(mem, mem2, ps, 0)
  {
    hide Translate;
    forall x, q | Root(ps, x) && x != 0 && UserPage(q) ensures Translate(mem2, x, 3, q) == Translate(mem, x, 3, q) {
      assert Root(ps1, x) && x != root;
      assert Translate(mem1, x, 3, q) == Translate(mem, x, 3, q);
    }
  }

  /** What ran before is a space other than the new one, or nothing. */
  lemma PreviousSpace(run: seq<Process>, sleeping: seq<Process>, current: Option<Process>,
                      spaces: map<nat, (Frame, nat)>, ps: Places, nextPid: nat, root: Frame)
    requires Placed(run, sleeping, current, spaces, {}) && SpacesOwn(spaces, ps, {root}, nextPid)
    ensures current.Some? ==> current.value.space != 0
  {
    if current.Some? {
      var id := Id(current.value.pid, current.value.space);
      assert Count(run, id) + Count(sleeping, id) + CountOne(current, id) == Expected(spaces, {}, id);
    }
  }

  lemma NewProcess(run: seq<Process>, sleeping: seq<Process>, current: Option<Process>, spaces: map<nat, (Frame, nat)>,
                   ps: Places, nextPid: nat, p: Process, pages: nat)
    requires Placed(run, sleeping, current, spaces, {}) && SpacesOwn(spaces, ps, {p.space}, nextPid) && p.pid == nextPid
    requires p.space != 0
    ensures Placed(run + [p], sleeping, current, spaces[p.pid := (p.space, pages)], {})
    ensures SpacesOwn(spaces[p.pid := (p.space, pages)], ps, {}, nextPid + 1)
  {
    var spaces' := spaces[p.pid := (p.space, pages)];
    forall id: Id
      ensures Count(run + [p], id) + Count(sleeping, id) + CountOne(current, id) == Expected(spaces', {}, id)
    {
      CountLast(run, p, id);
      assert Count(run, id) + Count(sleeping, id) + CountOne(current, id) == Expected(spaces, {}, id);
    }
    forall f | Root(ps, f) ensures exists q :: q in spaces' && spaces'[q].0 == f {
      if f == p.space {
        assert spaces'[p.pid].0 == f;
      } else {
        var q :| q in spaces && spaces[q].0 == f;
        assert spaces'[q].0 == f;
      }
    }
  }

  lemma BreaksKept(breaks: map<nat, nat>, spaces: map<nat, (Frame, nat)>, pid: nat, v: (Frame, nat))
    requires BreaksIn(breaks, spaces)
    ensures BreaksIn(breaks, spaces[pid := v])
  {
  }

  lemma NothingLoaded(mem: map<Frame, Table>, ps: Places, root: Frame)
    ensures Loaded(mem, mem, root, []) && OtherSpacesSame(mem, mem, ps, root) && SameRoots(ps, ps)
  {
  }

  lemma StillActive(ps: Places, ps': Places, root: Frame)
    requires SameRoots(ps, ps') || ps == ps'
    ensures Root(ps, root) <==> Root(ps', root)
  {
  }

  lemma SameRootsChain(ps: Places, ps1: Places, ps2: Places)
    requires SameRoots(ps, ps1) && (SameRoots(ps1, ps2) || ps1 == ps2)
    ensures SameRoots(ps, ps2)
  {
  }

  lemma OneMapped(mem: map<Frame, Table>, ps: Places, mem1: map<Frame, Table>, ps1: Places, mem2: map<Frame, Table>,
                  root: Frame, w: Wanted, frame: Frame)
    requires OtherSpacesSame(mem, mem1, ps, root) && SameRoots(ps, ps1) && SameElsewhere(mem1, mem2, ps1, root, w.page)
    ensures OtherSpacesSame(mem, mem2, ps, root)
  {
    hide Translate;
    forall x, q | Root(ps, x) && x != root && UserPage(q) ensures Translate(mem2, x, 3, q) == Translate(mem, x, 3, q) {
      assert Root(ps1, x);
      assert Translate(mem1, x, 3, q) == Translate(mem, x, 3, q);
    }
  }

  lemma OtherSpacesHalted(mem: map<Frame, Table>, ps: Places, mem1: map<Frame, Table>, ps1: Places,
                          mem2: map<Frame, Table>, root: Frame)
    requires OtherSpacesSame(mem, mem1, ps, root) && SameRoots(ps, ps1) && SameEverywhere(mem1, mem2, ps1)
    ensures OtherSpacesSame(mem, mem2, ps, root)
  {
    hide Translate;
    forall x, q | Root(ps, x) && x != root && UserPage(q) ensures Translate(mem2, x, 3, q) == Translate(mem, x, 3, q) {
      assert Root(ps1, x);
      assert Translate(mem1, x, 3, q) == Translate(mem, x, 3, q);
    }
  }

  lemma OneLoaded(mem: map<Frame, Table>, mem1: map<Frame, Table>, ps1: Places, mem2: map<Frame, Table>, root: Frame,
                  pages: seq<Wanted>, k: nat, frame: Frame)
    requires k < |pages| && Loaded(mem, mem1, root, pages[..k]) && UserPage(pages[k].page) && Root(ps1, root)
    requires forall j :: 0 <= j < |pages| ==> UserPage(pages[j].page)
    requires SameElsewhere(mem1, mem2, ps1, root, pages[k].page)
    requires Translate(mem2, root, 3, pages[k].page)
               == Some(Mapping(frame, pages[k].writable, true, !pages[k].executable))
    ensures Loaded(mem, mem2, root, pages[..k + 1])
    ensures Different(pages) ==> Replaced(mem1, root, pages[k].page) == Replaced(mem, root, pages[k].page)
  {
    hide Translate, UserPage;
    var now, before := pages[..k + 1], pages[..k];
    forall j | 0 <= j < |now| && LastOf(now, j) ensures Serves(mem2, root, now[j]) {
      if j < k {
        assert now[j] == before[j] && now[k] == pages[k] && now[k].page != now[j].page;
        forall i | j < i < |before| ensures before[i].page != before[j].page {
          assert now[i] == before[i];
        }
        assert LastOf(before, j);
        assert Translate(mem2, root, 3, now[j].page) == Translate(mem1, root, 3, now[j].page);
      }
    }
    forall q | UserPage(q) && !Named(now, q) ensures Translate(mem2, root, 3, q) == Translate(mem, root, 3, q) {
      assert now[k].page != q;
      forall j | 0 <= j < |before| ensures before[j].page != q {
        assert now[j] == before[j];
      }
      assert !Named(before, q);
    }
    if Different(pages) {
      var q := pages[k].page;
      assert !Named(before, q);
      assert Translate(mem1, root, 3, q) == Translate(mem, root, 3, q);
    }
  }

  /** The running process does not run in a space that is being torn down. */
  lemma CurrentElsewhere(run: seq<Process>, sleeping: seq<Process>, current: Option<Process>,
                         spaces: map<nat, (Frame, nat)>, ps: Places, nextPid: nat, pid: nat)
    requires Placed(run, sleeping, current, spaces, {pid}) && SpacesOwn(spaces, ps, {}, nextPid) && pid in spaces
    ensures current.Some? ==> current.value.space != spaces[pid].0
    ensures spaces[pid].0 != 0
  {
    if current.Some? {
      var id := Id(current.value.pid, current.value.space);
      assert Count(run, id) + Count(sleeping, id) + CountOne(current, id) == Expected(spaces, {pid}, id);
    }
  }

  lemma BreakGone(breaks: map<nat, nat>, spaces: map<nat, (Frame, nat)>, pid: nat)
    requires BreaksIn(breaks, spaces)
    ensures BreaksIn(breaks - {pid}, spaces - {pid}) && BreaksIn(breaks - {pid}, spaces)
  {
  }

  lemma MarkGone(marks: map<nat, nat>, breaks: map<nat, nat>, spaces: map<nat, (Frame, nat)>, mem: map<Frame, Table>,
                 pid: nat)
    requires HeapsMarked(marks, breaks, spaces, mem)
    ensures HeapsMarked(marks - {pid}, breaks - {pid}, spaces - {pid}, mem)
    ensures HeapsMarked(marks - {pid}, breaks - {pid}, spaces, mem)
  {
    hide Backed, PagesIn;
    forall p {:trigger marks[p]} | p in marks - {pid}
      ensures marks[p] == (marks - {pid})[p] && BreakOf(breaks - {pid}, p) == BreakOf(breaks, p)
    {
    }
  }

  lemma NoneGone(spaces: map<nat, (Frame, nat)>, pid: nat)
    requires pid !in spaces
    ensures spaces - {pid} == spaces
  {
  }

  lemma OrphanLeft(spaces: map<nat, (Frame, nat)>, ps: Places, nextPid: nat, pid: nat)
    requires SpacesOwn(spaces, ps, {}, nextPid) && pid in spaces
    ensures SpacesOwn(spaces - {pid}, ps, {spaces[pid].0}, nextPid) && spaces[pid].0 != 0 && Root(ps, spaces[pid].0)
  {
    forall f | Root(ps, f)
      ensures f in {spaces[pid].0} || exists p :: p in spaces - {pid} && (spaces - {pid})[p].0 == f
    {
      var p :| p in spaces && spaces[p].0 == f;
      assert p != pid ==> p in spaces - {pid};
    }
  }

  lemma OrphanGone(mem: map<Frame, Table>, spaces: map<nat, (Frame, nat)>, ps: Places, nextPid: nat, root: Frame)
    requires Tree(mem, ps) && SpacesOwn(spaces, ps, {root}, nextPid)
    ensures SpacesOwn(spaces, ps - Owned(mem, ps, root), {}, nextPid)
  {
    var ps' := ps - Owned(mem, ps, root);
    forall f | Root(ps, f) ensures Root(ps', f) <==> f != root {
      assert RootOf(mem, ps, f) == f;
    }
    forall f | Root(ps', f) ensures exists p :: p in spaces && spaces[p].0 == f {
      assert Root(ps, f) && f !in {root};
    }
  }

  /** The head of the queue runs. */
  lemma HeadMoves(run: seq<Process>, sleeping: seq<Process>, spaces: map<nat, (Frame, nat)>, dying: set<nat>)
    requires Placed(run, sleeping, None, spaces, dying) && run != []
    ensures Placed(run[1..], sleeping, Some(run[0]), spaces, dying)
  {
    forall id: Id
      ensures Count(run[1..], id) + Count(sleeping, id) + CountOne(Some(run[0]), id) == Expected(spaces, dying, id)
    {
      assert Count(run, id) + Count(sleeping, id) + CountOne(None, id) == Expected(spaces, dying, id);
    }
  }

  lemma HeadSpace(run: seq<Process>, sleeping: seq<Process>, current: Option<Process>, spaces: map<nat, (Frame, nat)>)
    requires Placed(run, sleeping, current, spaces, {}) && run != []
    ensures run[0].pid in spaces && spaces[run[0].pid].0 == run[0].space
  {
    var id := Id(run[0].pid, run[0].space);
    assert Count(run, id) + Count(sleeping, id) + CountOne(current, id) == Expected(spaces, {}, id);
  }

  lemma TailMoves(run: seq<Process>, sleeping: seq<Process>, was: Process, p: Process, spaces: map<nat, (Frame, nat)>,
                  dying: set<nat>)
    requires Placed(run, sleeping, Some(was), spaces, dying) && p.pid == was.pid && p.space == was.space
    ensures Placed(run + [p], sleeping, None, spaces, dying)
  {
    forall id: Id
      ensures Count(run + [p], id) + Count(sleeping, id) + CountOne(None, id) == Expected(spaces, dying, id)
    {
      CountLast(run, p, id);
      assert Count(run, id) + Count(sleeping, id) + CountOne(Some(was), id) == Expected(spaces, dying, id);
    }
  }

  lemma TailSleeps(run: seq<Process>, sleeping: seq<Process>, was: Process, p: Process, spaces: map<nat, (Frame, nat)>,
                   dying: set<nat>)
    requires Placed(run, sleeping, Some(was), spaces, dying) && p.pid == was.pid && p.space == was.space
    ensures Placed(run, sleeping + [p], None, spaces, dying)
  {
    forall id: Id
      ensures Count(run, id) + Count(sleeping + [p], id) + CountOne(None, id) == Expected(spaces, dying, id)
    {
      CountLast(sleeping, p, id);
      assert Count(run, id) + Count(sleeping, id) + CountOne(Some(was), id) == Expected(spaces, dying, id);
    }
  }

  lemma CurrentLeaves(run: seq<Process>, sleeping: seq<Process>, p: Process, spaces: map<nat, (Frame, nat)>)
    requires Placed(run, sleeping, Some(p), spaces, {})
    ensures p.pid in spaces && spaces[p.pid].0 == p.space && Placed(run, sleeping, None, spaces, {p.pid})
  {
    var me := Id(p.pid, p.space);
    assert Count(run, me) + Count(sleeping, me) + CountOne(Some(p), me) == Expected(spaces, {}, me);
    forall id: Id ensures Count(run, id) + Count(sleeping, id) + CountOne(None, id) == Expected(spaces, {p.pid}, id) {
      assert Count(run, id) + Count(sleeping, id) + CountOne(Some(p), id) == Expected(spaces, {}, id);
    }
  }

  lemma DyingGone(run: seq<Process>, sleeping: seq<Process>, current: Option<Process>, spaces: map<nat, (Frame, nat)>,
                  pid: nat)
    requires Placed(run, sleeping, current, spaces, {pid})
    ensures Placed(run, sleeping, current, spaces - {pid}, {})
  {
    forall id: Id
      ensures Count(run, id) + Count(sleeping, id) + CountOne(current, id) == Expected(spaces - {pid}, {}, id)
    {
      assert Count(run, id) + Count(sleeping, id) + CountOne(current, id) == Expected(spaces, {pid}, id);
    }
  }

  lemma AllRetained(run: seq<Process>, sleeping: seq<Process>, current: Option<Process>, spaces: map<nat, (Frame, nat)>,
                    pid: nat)
    requires Placed(run, sleeping, current, spaces, {})
    ensures Placed(Retain(run, pid), Retain(sleeping, pid),
                   if current.Some? && current.value.pid == pid then None else current, spaces,
                   if pid in spaces then {pid} else {})
  {
    var current' := if current.Some? && current.value.pid == pid then None else current;
    forall id: Id
      ensures Count(Retain(run, pid), id) + Count(Retain(sleeping, pid), id) + CountOne(current', id)
           == Expected(spaces, if pid in spaces then {pid} else {}, id)
    {
      RetainedCount(run, pid, id);
      RetainedCount(sleeping, pid, id);
      assert Count(run, id) + Count(sleeping, id) + CountOne(current, id) == Expected(spaces, {}, id);
    }
  }

  lemma WakePlaced(run: seq<Process>, sleeping: seq<Process>, current: Option<Process>, spaces: map<nat, (Frame, nat)>,
                   dying: set<nat>, win: nat)
    requires Placed(run, sleeping, current, spaces, dying)
    ensures Placed(run + Woken(sleeping, win), StillAsleep(sleeping, win), current, spaces, dying)
  {
    forall id: Id
      ensures Count(run + Woken(sleeping, win), id) + Count(StillAsleep(sleeping, win), id) + CountOne(current, id)
           == Expected(spaces, dying, id)
    {
      CountJoin(run, Woken(sleeping, win), id);
      WakingSplits(sleeping, win, id);
      assert Count(run, id) + Count(sleeping, id) + CountOne(current, id) == Expected(spaces, dying, id);
    }
  }
}
