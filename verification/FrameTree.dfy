/**
 Page tables of user address spaces as trees of frames: a level-3 table is the root, its entries lead
 to level-2 tables, theirs to level-1 tables, and theirs to the pages.
 */
module FrameTree {
  import opened Results

  type Frame = nat

  /** A page-table entry: the bits that matter and the frame it points at. */
  datatype Entry = Entry(present: bool, writable: bool, user: bool, noExec: bool, huge: bool, frame: Frame)

  type Table = seq<Entry>

  function Absent(): Entry {
    Entry(false, false, false, false, false, 0)
  }

  function EmptyTable(): (t: Table)
    ensures |t| == 512 && forall i :: 0 <= i < 512 ==> t[i] == Absent()
  {
    seq(512, _ => Absent())
  }

  // ---- virtual addresses ----

  /** The index into the table of a level: nine bits each, above the twelve of the page offset. */
  function Index(page: nat, level: nat): (i: nat)
    requires 1 <= level <= 4
    ensures i < 512
  {
    match level
    case 1 => page / 0x1000 % 512
    case 2 => page / 0x20_0000 % 512
    case 3 => page / 0x4000_0000 % 512
    case _ => page / 0x80_0000_0000 % 512
  }

  predicate IsPage(page: nat) {
    page % 4096 == 0 && page < 0x1_0000_0000_0000
  }

  /** A page of the user slot: the level-4 index is 1. */
  predicate UserPage(page: nat) {
    IsPage(page) && Index(page, 4) == 1
  }

  /** Different pages differ in some index. */
  lemma IndexesIdentify(p: nat, q: nat)
    requires IsPage(p) && IsPage(q)
    requires forall level :: 1 <= level <= 4 ==> Index(p, level) == Index(q, level)
    ensures p == q
  {
    assert Index(p, 1) == Index(q, 1) && Index(p, 2) == Index(q, 2) && Index(p, 3) == Index(q, 3)
        && Index(p, 4) == Index(q, 4);
    Rebuilt(p);
    Rebuilt(q);
  }

  lemma Rebuilt(p: nat)
    requires IsPage(p)
    ensures p == 0x1000 * Index(p, 1) + 0x20_0000 * Index(p, 2) + 0x4000_0000 * Index(p, 3)
              + 0x80_0000_0000 * Index(p, 4)
  {
    var a, b, c := p / 0x1000, p / 0x20_0000, p / 0x4000_0000;
    assert p == 0x1000 * a;
    assert b == a / 512 && c == b / 512 && p / 0x80_0000_0000 == c / 512;
  }

  // ---- translation ----

  /** Where a page leads, and what it may be used for: the most restrictive of the entries passed. */
  datatype Mapping = Mapping(frame: Frame, writable: bool, user: bool, noExec: bool)

  ghost function Translate(mem: map<Frame, Table>, t: Frame, level: nat, page: nat): Option<Mapping>
    requires 1 <= level <= 3
    decreases level
  {
    if t !in mem || |mem[t]| != 512 then None
    else
      var e := mem[t][Index(page, level)];
      if !e.present then None
      else if level == 1 then Some(Mapping(e.frame, e.writable, e.user, e.noExec))
      else
        match Translate(mem, e.frame, level - 1, page)
        case None => None
        case Some(m) => Some(Mapping(m.frame, m.writable && e.writable, m.user && e.user, m.noExec || e.noExec))
  }

  // ---- the tree ----

  /** Where an owned frame hangs: its level (3 for a root, 0 for a page), and the entry that points at
      it. */
  datatype Place = Place(level: nat, parent: Frame, index: nat)

  type Places = map<Frame, Place>

  /** Every present entry of a table points at a frame that hangs there, one level down; entries above
      the lowest level allow everything. */
  ghost predicate EntryHangs(mem: map<Frame, Table>, ps: Places, t: Frame, i: nat)
    requires t in ps && t in mem && |mem[t]| == 512 && i < 512 && ps[t].level >= 1
  {
    var e := mem[t][i];
    e.present ==>
      && e.frame in ps && ps[e.frame] == Place(ps[t].level - 1, t, i)
      && (ps[t].level > 1 ==> e.writable && e.user && !e.noExec && !e.huge)
  }

  ghost predicate TableHangs(mem: map<Frame, Table>, ps: Places, t: Frame)
    requires t in ps
  {
    1 <= ps[t].level <= 3 ==> t in mem && |mem[t]| == 512 && forall i :: 0 <= i < 512 ==> EntryHangs(mem, ps, t, i)
  }

  /** An owned frame that is no root is pointed at by the entry of its place. */
  ghost predicate FrameHangs(mem: map<Frame, Table>, ps: Places, c: Frame)
    requires c in ps
  {
    && ps[c].level <= 3
    && (ps[c].level < 3 ==>
          var t, i := ps[c].parent, ps[c].index;
          && t in ps && ps[t].level == ps[c].level + 1 && i < 512
          && t in mem && |mem[t]| == 512 && mem[t][i].present && mem[t][i].frame == c)
  }

  /** The owned frames form trees: each but the roots has exactly one parent entry. */
  ghost predicate Tree(mem: map<Frame, Table>, ps: Places) {
    && (forall t {:trigger TableHangs(mem, ps, t)} :: t in ps ==> TableHangs(mem, ps, t))
    && (forall c {:trigger FrameHangs(mem, ps, c)} :: c in ps ==> FrameHangs(mem, ps, c))
  }

  /** The root a frame belongs to. */
  ghost function RootOf(mem: map<Frame, Table>, ps: Places, c: Frame): Frame
    requires Tree(mem, ps) && c in ps
    decreases 3 - ps[c].level
  {
    assert FrameHangs(mem, ps, c);
    if ps[c].level >= 3 then c else RootOf(mem, ps, ps[c].parent)
  }

  /** A frame has one parent entry: two entries that point at it are the same entry. */
  lemma OneParent(mem: map<Frame, Table>, ps: Places, t: Frame, i: nat, t': Frame, i': nat)
    requires Tree(mem, ps) && t in ps && t' in ps && 1 <= ps[t].level <= 3 && 1 <= ps[t'].level <= 3 && i < 512
    requires i' < 512
    requires t in mem && |mem[t]| == 512 && t' in mem && |mem[t']| == 512
    requires mem[t][i].present && mem[t'][i'].present && mem[t][i].frame == mem[t'][i'].frame
    ensures t == t' && i == i'
  {
    assert TableHangs(mem, ps, t) && TableHangs(mem, ps, t');
    assert EntryHangs(mem, ps, t, i) && EntryHangs(mem, ps, t', i');
  }

  /** Frames of two spaces are never the same: no frame is reachable from two address spaces. */
  lemma {:induction false} ReachableIsOwn(mem: map<Frame, Table>, ps: Places, t: Frame, level: nat, page: nat)
    requires Tree(mem, ps) && t in ps && ps[t].level == level && 1 <= level <= 3
    ensures match Translate(mem, t, level, page)
            case None => true
            case Some(m) => m.frame in ps && ps[m.frame].level == 0 && RootOf(mem, ps, m.frame) == RootOf(mem, ps, t)
    decreases level
  {
    assert TableHangs(mem, ps, t);
    var i := Index(page, level);
    assert EntryHangs(mem, ps, t, i);
    var e := mem[t][i];
    if e.present {
      assert RootOf(mem, ps, e.frame) == RootOf(mem, ps, t);
      if level > 1 {
        ReachableIsOwn(mem, ps, e.frame, level - 1, page);
      }
    }
  }

  /** What a page was mapped with is what it effectively has: the tables above restrict nothing. */
  lemma {:induction false} LeafDecides(mem: map<Frame, Table>, ps: Places, t: Frame, level: nat, page: nat)
    requires Tree(mem, ps) && t in ps && ps[t].level == level && 1 <= level <= 3
    ensures match Translate(mem, t, level, page)
            case None => true
            case Some(m) =>
              && m.frame in ps && FrameHangs(mem, ps, m.frame) && ps[m.frame].level == 0
              && var e := mem[ps[m.frame].parent][ps[m.frame].index];
                 m == Mapping(e.frame, e.writable, e.user, e.noExec)
    decreases level
  {
    assert TableHangs(mem, ps, t);
    var i := Index(page, level);
    assert EntryHangs(mem, ps, t, i);
    var e := mem[t][i];
    if e.present {
      if level > 1 {
        LeafDecides(mem, ps, e.frame, level - 1, page);
      } else {
        assert FrameHangs(mem, ps, e.frame);
      }
    }
  }

  // ---- changing the tree ----

  function SetEntry(mem: map<Frame, Table>, t: Frame, i: nat, e: Entry): map<Frame, Table>
    requires t in mem && i < |mem[t]|
  {
    mem[t := mem[t][i := e]]
  }

  /** A new frame under an absent entry: an empty table, or a page. */
  ghost predicate Hung(mem: map<Frame, Table>, ps: Places, t: Frame, i: nat, e: Entry, mem': map<Frame, Table>,
                       ps': Places)
    requires t in ps && t in mem && |mem[t]| == 512 && i < 512 && 1 <= ps[t].level
  {
    && ps' == ps[e.frame := Place(ps[t].level - 1, t, i)]
    && mem' == SetEntry(if ps[t].level > 1 then mem[e.frame := EmptyTable()] else mem, t, i, e)
  }

  lemma HangKeepsTree(mem: map<Frame, Table>, ps: Places, t: Frame, i: nat, e: Entry, mem': map<Frame, Table>,
                      ps': Places)
    requires Tree(mem, ps) && t in ps && t in mem && |mem[t]| == 512 && i < 512 && 1 <= ps[t].level <= 3
    requires !mem[t][i].present && e.present && e.frame !in ps && e.frame != t
    requires ps[t].level > 1 ==> e.writable && e.user && !e.noExec && !e.huge
    requires Hung(mem, ps, t, i, e, mem', ps')
    ensures Tree(mem', ps')
  {
    forall c {:trigger FrameHangs(mem', ps', c)} | c in ps' ensures FrameHangs(mem', ps', c) {
      assert c in ps ==> FrameHangs(mem, ps, c);
    }
    forall x {:trigger TableHangs(mem', ps', x)} | x in ps' ensures TableHangs(mem', ps', x) {
      if x in ps {
        assert TableHangs(mem, ps, x);
        if 1 <= ps[x].level <= 3 {
          forall j | 0 <= j < 512 ensures EntryHangs(mem', ps', x, j) {
            assert EntryHangs(mem, ps, x, j);
          }
        }
      }
    }
  }

  /** Roots stay roots, and owners stay owners. */
  lemma HangKeepsRoots(mem: map<Frame, Table>, ps: Places, t: Frame, i: nat, e: Entry, mem': map<Frame, Table>,
                       ps': Places, c: Frame)
    requires Tree(mem, ps) && t in ps && t in mem && |mem[t]| == 512 && i < 512 && 1 <= ps[t].level <= 3
    requires e.frame !in ps && Hung(mem, ps, t, i, e, mem', ps') && Tree(mem', ps') && c in ps
    ensures RootOf(mem', ps', c) == RootOf(mem, ps, c)
    decreases 3 - ps[c].level
  {
    assert FrameHangs(mem, ps, c);
    if ps[c].level < 3 {
      HangKeepsRoots(mem, ps, t, i, e, mem', ps', ps[c].parent);
    }
  }

  /** The page passes through entry `i` of table `t` on its way down from `x`. */
  ghost predicate Passes(mem: map<Frame, Table>, x: Frame, level: nat, q: nat, t: Frame, i: nat)
    requires 1 <= level <= 3
    decreases level
  {
    x in mem && |mem[x]| == 512 &&
    ((x == t && Index(q, level) == i)
     || (level > 1 && mem[x][Index(q, level)].present
          && Passes(mem, mem[x][Index(q, level)].frame, level - 1, q, t, i)))
  }

  /** The entries above a table are those a page's indexes choose. */
  ghost predicate Follows(mem: map<Frame, Table>, ps: Places, t: Frame, page: nat)
    requires Tree(mem, ps) && t in ps && 1 <= ps[t].level
    decreases 3 - ps[t].level
  {
    assert FrameHangs(mem, ps, t);
    ps[t].level == 3 || (ps[t].index == Index(page, ps[t].level + 1) && Follows(mem, ps, ps[t].parent, page))
  }

  /** Tables and entries that stay, stay. */
  ghost predicate SameBut(mem: map<Frame, Table>, mem': map<Frame, Table>, ps: Places, t: Frame, i: nat) {
    forall x {:trigger TableSame(mem, mem', x, t, i)} :: x in ps && ps[x].level >= 1 && x in mem ==>
        TableSame(mem, mem', x, t, i)
  }

  ghost predicate TableSame(mem: map<Frame, Table>, mem': map<Frame, Table>, x: Frame, t: Frame, i: nat)
    requires x in mem
  {
    x in mem' && |mem'[x]| == |mem[x]| && forall j :: 0 <= j < |mem[x]| && !(x == t && j == i) ==>
        mem'[x][j] == mem[x][j]
  }

  /** A page that does not pass the changed entry translates as before. */
  lemma {:induction false} TranslateSame(mem: map<Frame, Table>, mem': map<Frame, Table>, ps: Places, x: Frame,
                                         level: nat, q: nat, t: Frame, i: nat)
    requires Tree(mem, ps) && SameBut(mem, mem', ps, t, i) && x in ps && ps[x].level == level && 1 <= level <= 3
    requires !Passes(mem, x, level, q, t, i)
    ensures Translate(mem', x, level, q) == Translate(mem, x, level, q)
    decreases level
  {
    assert TableHangs(mem, ps, x);
    var j := Index(q, level);
    assert EntryHangs(mem, ps, x, j);
    assert TableSame(mem, mem', x, t, i);
    assert mem'[x][j] == mem[x][j] || (x == t && j == i);
    if mem[x][j].present && level > 1 {
      TranslateSame(mem, mem', ps, mem[x][j].frame, level - 1, q, t, i);
    }
  }

  /** A page that passes an entry of a table from a root follows the table, and the root is its root. */
  lemma {:induction false} PassesFollows(mem: map<Frame, Table>, ps: Places, x: Frame, level: nat, q: nat, t: Frame,
                                         i: nat, r: Frame)
    requires Tree(mem, ps) && x in ps && ps[x].level == level && 1 <= level <= 3 && t in ps && 1 <= ps[t].level
    requires Passes(mem, x, level, q, t, i) && Follows(mem, ps, x, q) && RootOf(mem, ps, x) == r
    ensures Follows(mem, ps, t, q) && RootOf(mem, ps, t) == r && ps[t].level <= level && Index(q, ps[t].level) == i
    decreases level
  {
    if !(x == t && Index(q, level) == i) {
      assert TableHangs(mem, ps, x);
      var j := Index(q, level);
      assert EntryHangs(mem, ps, x, j);
      PassesFollows(mem, ps, mem[x][j].frame, level - 1, q, t, i, r);
    }
  }

  /** Seen from the root, a page that follows a table translates as it does from the table. */
  lemma {:induction false} FromRoot(mem: map<Frame, Table>, ps: Places, t: Frame, page: nat)
    requires Tree(mem, ps) && t in ps && 1 <= ps[t].level <= 3 && Follows(mem, ps, t, page)
    ensures RootOf(mem, ps, t) in ps && ps[RootOf(mem, ps, t)].level == 3
    ensures Translate(mem, RootOf(mem, ps, t), 3, page) == Translate(mem, t, ps[t].level, page)
    decreases 3 - ps[t].level
  {
    assert FrameHangs(mem, ps, t);
    if ps[t].level < 3 {
      var u, i := ps[t].parent, ps[t].index;
      FromRoot(mem, ps, u, page);
      assert TableHangs(mem, ps, u);
      assert EntryHangs(mem, ps, u, i);
    }
  }

  /** Two pages of the user slot that follow a lowest-level table to the same entry are the same. */
  lemma SamePath(mem: map<Frame, Table>, ps: Places, t: Frame, p: nat, q: nat)
    requires Tree(mem, ps) && t in ps && ps[t].level == 1 && Follows(mem, ps, t, p) && Follows(mem, ps, t, q)
    requires UserPage(p) && UserPage(q) && Index(p, 1) == Index(q, 1)
    ensures p == q
  {
    assert FrameHangs(mem, ps, t);
    var u := ps[t].parent;
    assert FrameHangs(mem, ps, u);
    assert Follows(mem, ps, u, p) && Follows(mem, ps, u, q);
    forall level | 1 <= level <= 4 ensures Index(p, level) == Index(q, level) {
    }
    IndexesIdentify(p, q);
  }

  // ---- what mapping does to translations and owners ----

  /** Every user page of every space translates as before, but possibly `page` in the space of `r`. */
  ghost predicate SameElsewhere(mem: map<Frame, Table>, mem': map<Frame, Table>, ps: Places, r: Frame, page: nat) {
    forall x, q :: x in ps && ps[x].level == 3 && UserPage(q) && (x != r || q != page) ==>
      Translate(mem', x, 3, q) == Translate(mem, x, 3, q)
  }

  /** No page translates differently. */
  ghost predicate SameEverywhere(mem: map<Frame, Table>, mem': map<Frame, Table>, ps: Places) {
    forall x, q :: x in ps && ps[x].level == 3 ==> Translate(mem', x, 3, q) == Translate(mem, x, 3, q)
  }

  /** Frames keep their place and their space, but for `gone`. */
  ghost predicate SameOwners(mem: map<Frame, Table>, ps: Places, mem': map<Frame, Table>, ps': Places, gone: set<Frame>)
    requires Tree(mem, ps) && Tree(mem', ps')
  {
    forall c :: c in ps && c !in gone ==> c in ps' && ps'[c] == ps[c] && RootOf(mem', ps', c) == RootOf(mem, ps, c)
  }

  /** The same frames are roots. */
  ghost predicate SameRoots(ps: Places, ps': Places) {
    forall x :: (x in ps' && ps'[x].level == 3) <==> (x in ps && ps[x].level == 3)
  }

  lemma SameOwnersChain(mem: map<Frame, Table>, ps: Places, mem1: map<Frame, Table>, ps1: Places,
                        mem2: map<Frame, Table>, ps2: Places, gone: set<Frame>)
    requires Tree(mem, ps) && Tree(mem1, ps1) && Tree(mem2, ps2)
    requires SameOwners(mem, ps, mem1, ps1, {}) && SameOwners(mem1, ps1, mem2, ps2, gone)
    ensures SameOwners(mem, ps, mem2, ps2, gone)
  {
  }

  /** A new, empty table changes no translation. */
  lemma HangTable(mem: map<Frame, Table>, ps: Places, t: Frame, i: nat, e: Entry, mem': map<Frame, Table>, ps': Places)
    requires Tree(mem, ps) && t in ps && t in mem && |mem[t]| == 512 && i < 512 && 2 <= ps[t].level <= 3
    requires !mem[t][i].present && e == Entry(true, true, true, false, false, e.frame) && e.frame !in ps && e.frame != t
    requires Hung(mem, ps, t, i, e, mem', ps')
    ensures Tree(mem', ps') && SameEverywhere(mem, mem', ps) && SameOwners(mem, ps, mem', ps', {})
    ensures RootOf(mem', ps', e.frame) == RootOf(mem, ps, t)
    ensures forall page :: Follows(mem, ps, t, page) && Index(page, ps[t].level) == i ==>
              Follows(mem', ps', e.frame, page)
  {
    HangKeepsTree(mem, ps, t, i, e, mem', ps');
    hide Tree;
    forall c | c in ps ensures c in ps' && ps'[c] == ps[c] && RootOf(mem', ps', c) == RootOf(mem, ps, c) {
      HangKeepsRoots(mem, ps, t, i, e, mem', ps', c);
    }
    forall x, q | x in ps && ps[x].level == 3 ensures Translate(mem', x, 3, q) == Translate(mem, x, 3, q) {
      HangTranslates(mem, ps, t, i, e, mem', ps', x, 3, q);
    }
    forall page | Follows(mem, ps, t, page) && Index(page, ps[t].level) == i ensures Follows(mem', ps', e.frame, page) {
      HangKeepsFollows(mem, ps, t, i, e, mem', ps', t, page);
    }
  }

  lemma HangKeepsFollows(mem: map<Frame, Table>, ps: Places, t: Frame, i: nat, e: Entry, mem': map<Frame, Table>,
                         ps': Places, x: Frame, page: nat)
    requires Tree(mem, ps) && t in ps && t in mem && |mem[t]| == 512 && i < 512 && 1 <= ps[t].level <= 3
    requires e.frame !in ps && Hung(mem, ps, t, i, e, mem', ps') && Tree(mem', ps') && x in ps && 1 <= ps[x].level
    ensures Follows(mem', ps', x, page) == Follows(mem, ps, x, page)
    decreases 3 - ps[x].level
  {
    assert FrameHangs(mem, ps, x);
    if ps[x].level < 3 {
      HangKeepsFollows(mem, ps, t, i, e, mem', ps', ps[x].parent, page);
    }
  }

  lemma {:induction false} HangTranslates(mem: map<Frame, Table>, ps: Places, t: Frame, i: nat, e: Entry,
                                          mem': map<Frame, Table>, ps': Places, x: Frame, level: nat, q: nat)
    requires Tree(mem, ps) && t in ps && t in mem && |mem[t]| == 512 && i < 512 && 2 <= ps[t].level <= 3
    requires !mem[t][i].present && e.frame !in ps && e.frame != t && Hung(mem, ps, t, i, e, mem', ps')
    requires x in ps && ps[x].level == level && 1 <= level <= 3
    ensures Translate(mem', x, level, q) == Translate(mem, x, level, q)
    decreases level
  {
    assert TableHangs(mem, ps, x);
    var j := Index(q, level);
    assert EntryHangs(mem, ps, x, j);
    if x == t && j == i {
      var e' := mem'[t][i];
      assert e'.frame == e.frame;
      assert mem'[e.frame][Index(q, level - 1)] == Absent();
    } else if mem[x][j].present && level > 1 {
      HangTranslates(mem, ps, t, i, e, mem', ps', mem[x][j].frame, level - 1, q);
    }
  }

  /** Setting the leaf of a page. What was there before hangs nowhere any more. */
  ghost predicate LeafSet(mem: map<Frame, Table>, ps: Places, t: Frame, i: nat, e: Entry, mem': map<Frame, Table>,
                          ps': Places)
    requires t in mem && |mem[t]| == 512 && i < 512
  {
    && mem' == SetEntry(mem, t, i, e)
    && ps' == (if mem[t][i].present then ps - {mem[t][i].frame} else ps)[e.frame := Place(0, t, i)]
  }

  lemma LeafKeepsTree(mem: map<Frame, Table>, ps: Places, t: Frame, i: nat, e: Entry, mem': map<Frame, Table>,
                      ps': Places)
    requires Tree(mem, ps) && t in ps && t in mem && |mem[t]| == 512 && i < 512 && ps[t].level == 1
    requires e.present && e.frame !in ps && LeafSet(mem, ps, t, i, e, mem', ps')
    ensures Tree(mem', ps') && (mem[t][i].present ==> mem[t][i].frame in ps && ps[mem[t][i].frame] == Place(0, t, i))
  {
    assert TableHangs(mem, ps, t) && EntryHangs(mem, ps, t, i);
    forall c {:trigger FrameHangs(mem', ps', c)} | c in ps' ensures FrameHangs(mem', ps', c) {
      assert c in ps ==> FrameHangs(mem, ps, c);
    }
    forall x {:trigger TableHangs(mem', ps', x)} | x in ps' ensures TableHangs(mem', ps', x) {
      if x in ps && x != e.frame {
        assert TableHangs(mem, ps, x);
        if 1 <= ps[x].level <= 3 {
          forall j | 0 <= j < 512 ensures EntryHangs(mem', ps', x, j) {
            assert EntryHangs(mem, ps, x, j);
          }
        }
      }
    }
  }

  lemma LeafKeepsRoots(mem: map<Frame, Table>, ps: Places, t: Frame, i: nat, e: Entry, mem': map<Frame, Table>,
                       ps': Places, c: Frame)
    requires Tree(mem, ps) && t in ps && t in mem && |mem[t]| == 512 && i < 512 && ps[t].level == 1
    requires e.present && e.frame !in ps && LeafSet(mem, ps, t, i, e, mem', ps') && Tree(mem', ps')
    requires c in ps && !(mem[t][i].present && c == mem[t][i].frame)
    ensures c in ps' && ps'[c] == ps[c] && RootOf(mem', ps', c) == RootOf(mem, ps, c)
    decreases 3 - ps[c].level
  {
    assert FrameHangs(mem, ps, c);
    assert TableHangs(mem, ps, t) && EntryHangs(mem, ps, t, i);
    if ps[c].level < 3 {
      LeafKeepsRoots(mem, ps, t, i, e, mem', ps', ps[c].parent);
    }
  }

  lemma LeafKeepsFollows(mem: map<Frame, Table>, ps: Places, t: Frame, i: nat, e: Entry, mem': map<Frame, Table>,
                         ps': Places, x: Frame, page: nat)
    requires Tree(mem, ps) && t in ps && t in mem && |mem[t]| == 512 && i < 512 && ps[t].level == 1
    requires e.present && e.frame !in ps && LeafSet(mem, ps, t, i, e, mem', ps') && Tree(mem', ps')
    requires x in ps && 1 <= ps[x].level
    ensures x in ps' && ps'[x] == ps[x] && Follows(mem', ps', x, page) == Follows(mem, ps, x, page)
    decreases 3 - ps[x].level
  {
    assert FrameHangs(mem, ps, x);
    assert TableHangs(mem, ps, t) && EntryHangs(mem, ps, t, i);
    if ps[x].level < 3 {
      LeafKeepsFollows(mem, ps, t, i, e, mem', ps', ps[x].parent, page);
    }
  }

  /** Setting the leaf of `page` in the space of `r` makes it translate to the new frame, with exactly
      the permissions given, and changes nothing else. */
  lemma LeafMaps(mem: map<Frame, Table>, ps: Places, t: Frame, e: Entry, mem': map<Frame, Table>, ps': Places, r: Frame,
                 page: nat)
    requires Tree(mem, ps) && t in ps && t in mem && |mem[t]| == 512 && ps[t].level == 1 && RootOf(mem, ps, t) == r
    requires UserPage(page) && Follows(mem, ps, t, page)
    requires e.present && e.frame !in ps && LeafSet(mem, ps, t, Index(page, 1), e, mem', ps')
    ensures var was := mem[t][Index(page, 1)];
            && Tree(mem', ps') && r in ps' && RootOf(mem', ps', e.frame) == r
            && Translate(mem, r, 3, page)
                 == (if was.present then Some(Mapping(was.frame, was.writable, was.user, was.noExec)) else None)
            && Translate(mem', r, 3, page) == Some(Mapping(e.frame, e.writable, e.user, e.noExec))
            && SameElsewhere(mem, mem', ps, r, page)
            && SameOwners(mem, ps, mem', ps', if was.present then {was.frame} else {})
  {
    var i := Index(page, 1);
    LeafKeepsTree(mem, ps, t, i, e, mem', ps');
    FromRoot(mem, ps, t, page);
    LeafKeepsFollows(mem, ps, t, i, e, mem', ps', t, page);
    LeafKeepsRoots(mem, ps, t, i, e, mem', ps', t);
    FromRoot(mem', ps', t, page);
    assert RootOf(mem', ps', e.frame) == r by {
      assert FrameHangs(mem', ps', e.frame);
    }
    forall c | c in ps && !(mem[t][i].present && c == mem[t][i].frame)
      ensures c in ps' && ps'[c] == ps[c] && RootOf(mem', ps', c) == RootOf(mem, ps, c)
    {
      LeafKeepsRoots(mem, ps, t, i, e, mem', ps', c);
    }
    assert SameBut(mem, mem', ps, t, i);
    forall x, q | x in ps && ps[x].level == 3 && UserPage(q) && (x != r || q != page)
      ensures Translate(mem', x, 3, q) == Translate(mem, x, 3, q)
    {
      if Passes(mem, x, 3, q, t, i) {
        PassesFollows(mem, ps, x, 3, q, t, i, x);
        SamePath(mem, ps, t, page, q);
      } else {
        TranslateSame(mem, mem', ps, x, 3, q, t, i);
      }
    }
  }

  /** A new space disturbs no other and translates nothing. */
  lemma RootAdded(mem: map<Frame, Table>, ps: Places, root: Frame)
    requires Tree(mem, ps) && root !in ps
    ensures var mem', ps' := mem[root := EmptyTable()], ps[root := Place(3, 0, 0)];
            && Tree(mem', ps') && SameEverywhere(mem, mem', ps) && SameOwners(mem, ps, mem', ps', {})
            && forall q :: Translate(mem', root, 3, q) == None
  {
    var mem', ps' := mem[root := EmptyTable()], ps[root := Place(3, 0, 0)];
    forall c {:trigger FrameHangs(mem', ps', c)} | c in ps' ensures FrameHangs(mem', ps', c) {
      assert c in ps ==> FrameHangs(mem, ps, c);
    }
    forall x {:trigger TableHangs(mem', ps', x)} | x in ps' ensures TableHangs(mem', ps', x) {
      if x in ps {
        assert TableHangs(mem, ps, x);
        if 1 <= ps[x].level <= 3 {
          forall j | 0 <= j < 512 ensures EntryHangs(mem', ps', x, j) {
            assert EntryHangs(mem, ps, x, j);
          }
        }
      }
    }
    forall c | c in ps ensures RootOf(mem', ps', c) == RootOf(mem, ps, c) {
      RootAddedRoots(mem, ps, root, c);
    }
    forall x, q | x in ps && ps[x].level == 3 ensures Translate(mem', x, 3, q) == Translate(mem, x, 3, q) {
      RootAddedTranslates(mem, ps, root, x, 3, q);
    }
    forall q ensures Translate(mem', root, 3, q) == None {
      assert mem'[root][Index(q, 3)] == Absent();
    }
  }

  lemma RootAddedRoots(mem: map<Frame, Table>, ps: Places, root: Frame, c: Frame)
    requires Tree(mem, ps) && root !in ps && c in ps && Tree(mem[root := EmptyTable()], ps[root := Place(3, 0, 0)])
    ensures RootOf(mem[root := EmptyTable()], ps[root := Place(3, 0, 0)], c) == RootOf(mem, ps, c)
    decreases 3 - ps[c].level
  {
    assert FrameHangs(mem, ps, c);
    if ps[c].level < 3 {
      RootAddedRoots(mem, ps, root, ps[c].parent);
    }
  }

  lemma {:induction false} RootAddedTranslates(mem: map<Frame, Table>, ps: Places, root: Frame, x: Frame, level: nat,
                                               q: nat)
    requires Tree(mem, ps) && root !in ps && x in ps && ps[x].level == level && 1 <= level <= 3
    ensures Translate(mem[root := EmptyTable()], x, level, q) == Translate(mem, x, level, q)
    decreases level
  {
    assert TableHangs(mem, ps, x);
    var j := Index(q, level);
    assert EntryHangs(mem, ps, x, j);
    if mem[x][j].present && level > 1 {
      RootAddedTranslates(mem, ps, root, mem[x][j].frame, level - 1, q);
    }
  }

  lemma SameOwnersSelf(mem: map<Frame, Table>, ps: Places)
    requires Tree(mem, ps)
    ensures SameOwners(mem, ps, mem, ps, {}) && SameEverywhere(mem, mem, ps)
    ensures forall c :: c in ps && ps[c].level == 3 ==>
              RootOf(mem, ps, c) == c && forall page :: Follows(mem, ps, c, page)
  {
  }

  lemma SameEverywhereChain(mem: map<Frame, Table>, ps: Places, mem1: map<Frame, Table>, ps1: Places,
                            mem2: map<Frame, Table>)
    requires Tree(mem, ps) && Tree(mem1, ps1) && SameOwners(mem, ps, mem1, ps1, {})
    requires SameEverywhere(mem, mem1, ps) && SameEverywhere(mem1, mem2, ps1)
    ensures SameEverywhere(mem, mem2, ps)
  {
    forall x, q | x in ps && ps[x].level == 3 ensures Translate(mem2, x, 3, q) == Translate(mem, x, 3, q) {
      assert Translate(mem1, x, 3, q) == Translate(mem, x, 3, q);
    }
  }

  lemma TableThere(mem: map<Frame, Table>, ps: Places, t: Frame, i: nat)
    requires Tree(mem, ps) && t in ps && 1 <= ps[t].level <= 3 && i < 512
    ensures t in mem && |mem[t]| == 512 && EntryHangs(mem, ps, t, i)
  {
    assert TableHangs(mem, ps, t);
  }

  /** The table an entry leads to is one level down, in the same space, on the way of the page. */
  lemma NextTable(mem: map<Frame, Table>, ps: Places, t: Frame, i: nat, page: nat)
    requires Tree(mem, ps) && t in ps && 2 <= ps[t].level <= 3 && i == Index(page, ps[t].level)
    requires t in mem && |mem[t]| == 512 && mem[t][i].present && Follows(mem, ps, t, page)
    ensures var next := mem[t][i].frame;
            && next in ps && ps[next].level == ps[t].level - 1 && RootOf(mem, ps, next) == RootOf(mem, ps, t)
            && Follows(mem, ps, next, page)
  {
    assert TableHangs(mem, ps, t);
    assert EntryHangs(mem, ps, t, i);
    assert FrameHangs(mem, ps, mem[t][i].frame);
  }

  lemma SameElsewhereChain(mem: map<Frame, Table>, ps: Places, mem1: map<Frame, Table>, ps1: Places,
                           mem2: map<Frame, Table>, r: Frame, page: nat)
    requires Tree(mem, ps) && Tree(mem1, ps1) && SameOwners(mem, ps, mem1, ps1, {}) && r in ps && ps[r].level == 3
    requires SameEverywhere(mem, mem1, ps) && SameElsewhere(mem1, mem2, ps1, r, page)
    ensures SameElsewhere(mem, mem2, ps, r, page) && Translate(mem1, r, 3, page) == Translate(mem, r, 3, page)
  {
    hide Tree, Translate;
    forall x, q | x in ps && ps[x].level == 3 && UserPage(q) && (x != r || q != page)
      ensures Translate(mem2, x, 3, q) == Translate(mem, x, 3, q)
    {
      assert Translate(mem1, x, 3, q) == Translate(mem, x, 3, q);
    }
  }

  // ---- tearing down ----

  /** The frames of a space. */
  ghost function Owned(mem: map<Frame, Table>, ps: Places, root: Frame): set<Frame>
    requires Tree(mem, ps)
  {
    set c | c in ps && RootOf(mem, ps, c) == root
  }

  /** Below a table, counting only what hangs on its first `n` entries: pages of a level-1 table; tables
      and their pages for a level-2 table; all of that for a root. */
  ghost predicate Under(ps: Places, t: Frame, n: nat, c: Frame)
    requires t in ps
    decreases ps[t].level
  {
    c in ps && ps[c].level < ps[t].level &&
    if ps[c].level + 1 == ps[t].level then ps[c].parent == t && ps[c].index < n
    else
      var u := ps[c].parent;
      && u in ps && ps[u].level == ps[c].level + 1
      && if ps[u].level + 1 == ps[t].level then ps[u].parent == t && ps[u].index < n
         else
           var v := ps[u].parent;
           v in ps && ps[v].level == ps[u].level + 1 && ps[v].level + 1 == ps[t].level && ps[v].parent == t
               && ps[v].index < n
  }

  /** What hangs on the next entry: the frame it points at, and what is below that. */
  lemma UnderNext(mem: map<Frame, Table>, ps: Places, t: Frame, n: nat, c: Frame)
    requires Tree(mem, ps) && t in ps && 1 <= ps[t].level <= 3 && n < 512 && t in mem && |mem[t]| == 512
    ensures mem[t][n].present ==> mem[t][n].frame in ps && ps[mem[t][n].frame] == Place(ps[t].level - 1, t, n)
    ensures var e := mem[t][n];
            Under(ps, t, n + 1, c) <==>
              Under(ps, t, n, c) || (e.present && (c == e.frame || Under(ps, e.frame, 512, c)))
    ensures mem[t][n].present && (c == mem[t][n].frame || Under(ps, mem[t][n].frame, 512, c)) ==> !Under(ps, t, n, c)
    ensures mem[t][n].present ==> !Under(ps, mem[t][n].frame, 512, mem[t][n].frame)
  {
    assert TableHangs(mem, ps, t) && EntryHangs(mem, ps, t, n);
    if c in ps {
      assert FrameHangs(mem, ps, c);
      if ps[c].level < 3 {
        var u := ps[c].parent;
        assert FrameHangs(mem, ps, u);
        if ps[u].level < 3 {
          assert FrameHangs(mem, ps, ps[u].parent);
        }
      }
    }
  }

  /** All that is under a root, and the root, are its frames. */
  lemma UnderIsOwned(mem: map<Frame, Table>, ps: Places, root: Frame, c: Frame)
    requires Tree(mem, ps) && root in ps && ps[root].level == 3 && c in ps
    ensures RootOf(mem, ps, c) == root <==> c == root || Under(ps, root, 512, c)
  {
    assert FrameHangs(mem, ps, c);
    if ps[c].level < 3 {
      var u := ps[c].parent;
      assert FrameHangs(mem, ps, u);
      assert RootOf(mem, ps, c) == RootOf(mem, ps, u);
      if ps[u].level < 3 {
        var v := ps[u].parent;
        assert FrameHangs(mem, ps, v);
        assert RootOf(mem, ps, u) == RootOf(mem, ps, v);
        if ps[v].level < 3 {
          assert FrameHangs(mem, ps, ps[v].parent);
          assert RootOf(mem, ps, v) == RootOf(mem, ps, ps[v].parent);
        }
      }
    }
  }

  /** A space that goes takes its frames with it and leaves the other trees as they are. */
  lemma SpaceGone(mem: map<Frame, Table>, ps: Places, root: Frame)
    requires Tree(mem, ps)
    ensures var gone := Owned(mem, ps, root);
            Tree(mem, ps - gone) && SameOwners(mem, ps, mem, ps - gone, gone)
  {
    var gone := Owned(mem, ps, root);
    var ps' := ps - gone;
    forall c {:trigger FrameHangs(mem, ps', c)} | c in ps' ensures FrameHangs(mem, ps', c) {
      assert FrameHangs(mem, ps, c);
    }
    forall x {:trigger TableHangs(mem, ps', x)} | x in ps' ensures TableHangs(mem, ps', x) {
      assert TableHangs(mem, ps, x);
      if 1 <= ps[x].level <= 3 {
        forall j | 0 <= j < 512 ensures EntryHangs(mem, ps', x, j) {
          assert EntryHangs(mem, ps, x, j);
          assert mem[x][j].present ==> RootOf(mem, ps, mem[x][j].frame) == RootOf(mem, ps, x);
        }
      }
    }
    forall c | c in ps' ensures RootOf(mem, ps', c) == RootOf(mem, ps, c) {
      SpaceGoneRoots(mem, ps, root, c);
    }
  }

  lemma SpaceGoneRoots(mem: map<Frame, Table>, ps: Places, root: Frame, c: Frame)
    requires Tree(mem, ps) && Tree(mem, ps - Owned(mem, ps, root)) && c in ps - Owned(mem, ps, root)
    ensures RootOf(mem, ps - Owned(mem, ps, root), c) == RootOf(mem, ps, c)
    decreases 3 - ps[c].level
  {
    assert FrameHangs(mem, ps, c);
    if ps[c].level < 3 {
      SpaceGoneRoots(mem, ps, root, ps[c].parent);
    }
  }
}
