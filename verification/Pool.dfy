/** Exact accounting of the page pool: which tables level-1 inserts allocate.

    `Tight(c, s, used)` says that the tables in use, the root aside, are exactly one for each label
    in `used`.  A level-1 insert adds the labels of the way to its address, so the pages allocated
    are counted by the distinct address prefixes.
 */
module Pool {
  import opened Bitfield
  import opened Hpt
  import opened PageWalk

  function Count(alloc: seq<bool>): (n: nat)
    ensures n <= |alloc|
  {
    if alloc == [] then 0 else (if alloc[0] then 1 else 0) + Count(alloc[1..])
  }

  lemma {:induction false} CountSet(alloc: seq<bool>, i: nat)
    requires i < |alloc| && !alloc[i]
    ensures Count(alloc[i := true]) == Count(alloc) + 1
  {
    var b := alloc[i := true];
    if i == 0 {
      assert b[1..] == alloc[1..];
    } else {
      assert b[1..] == alloc[1..][i - 1 := true];
      CountSet(alloc[1..], i - 1);
    }
  }

  lemma {:induction false} CountAll(alloc: seq<bool>)
    ensures (forall j :: 0 <= j < |alloc| ==> alloc[j]) <==> Count(alloc) == |alloc|
  {
    if alloc == [] {
    } else {
      CountAll(alloc[1..]);
      assert (forall j :: 0 <= j < |alloc| ==> alloc[j]) <==>
        alloc[0] && (forall j :: 0 <= j < |alloc[1..]| ==> alloc[1..][j]) by {
        if alloc[0] && (forall j :: 0 <= j < |alloc[1..]| ==> alloc[1..][j]) {
          forall j | 0 <= j < |alloc| ensures alloc[j] { if j > 0 { assert alloc[1..][j - 1]; } }
        }
      }
    }
  }

  lemma {:induction false} CountNone(alloc: seq<bool>)
    requires forall j :: 0 <= j < |alloc| ==> !alloc[j]
    ensures Count(alloc) == 0
  {
    if alloc == [] {
    } else {
      CountNone(alloc[1..]);
    }
  }

  /** Below level 1 of the tree there are tables only, one for each label in `used`. */
  ghost predicate Tight(c: Config, s: State, used: set<Label>) {
    && IsTree(c, s)
    && Count(s.alloc) == |used|
    && Closed(c.t, used)
    && (forall p :: p in s.own && p != c.root ==> s.own[p] in used)
    && (forall p, q :: p in s.own && q in s.own && p != q ==> s.own[p] != s.own[q])
    && (forall p, k :: p in s.own && s.own[p].lvl > 1 && 0 <= k < |s.tabs[p]| ==> TightEntry(c, s, used, p, k))
  }

  /** Label of the table that holds the pointer to the table labelled `b`. */
  function Parent(t: HptType, b: Label): Label {
    Label(b.lvl + 1, b.num / Entries(t, b.lvl + 1))
  }

  /** Labels lie below the root, and with a label its parent is in use, unless that is the root. */
  predicate Closed(t: HptType, used: set<Label>) {
    forall b :: b in used ==> 1 <= b.lvl < MaxLvl(t) && (b.lvl + 1 == MaxLvl(t) || Parent(t, b) in used)
  }

  lemma ParentOfUnder(t: HptType, b: Label, k: nat)
    requires b.lvl > 0 && k < Entries(t, b.lvl)
    ensures Parent(t, Under(t, b, k)) == b
  {
    ModUnique(b.num * Entries(t, b.lvl) + k, Entries(t, b.lvl), b.num, k);
  }

  /** An entry above level 1 is no page, and is a pointer iff its label is in use. */
  ghost predicate TightEntry(c: Config, s: State, used: set<Label>, p: u64, k: nat)
    requires IsTree(c, s) && p in s.own && s.own[p].lvl > 1 && k < |s.tabs[p]|
  {
    InTree(c, s, p);
    var e := s.tabs[p][k];
    !IsPage(c.t, s.own[p].lvl, e) && (Under(c.t, s.own[p], k) in used ==> IsPresent(c.t, s.own[p].lvl, e))
  }

  /** Labels of the tables on the way to `va` below a table of level `lvl`. */
  function Way(t: HptType, lvl: nat, va: u64): set<Label>
    requires lvl <= MaxLvl(t)
  {
    if lvl <= 1 then {} else Way(t, lvl - 1, va) + {Label(lvl - 1, Region(t, lvl, va))}
  }

  lemma {:induction false} WayLevels(t: HptType, lvl: nat, va: u64, b: Label)
    requires lvl <= MaxLvl(t)
    ensures b in Way(t, lvl, va) <==> 1 <= b.lvl < lvl && b.num == Region(t, b.lvl + 1, va)
  {
    hide Region;
    if lvl <= 1 {
    } else {
      WayLevels(t, lvl - 1, va, b);
    }
  }

  /** Labels of distinct regions are distinct. */
  lemma UnderInjective(t: HptType, a: Label, b: Label, j: nat, k: nat)
    requires a.lvl > 0 && b.lvl > 0 && j < Entries(t, a.lvl) && k < Entries(t, b.lvl)
    requires Under(t, a, j) == Under(t, b, k)
    ensures a == b && j == k
  {
    DigitSplit(a.num, b.num, Entries(t, a.lvl), j, k);
  }

  lemma LinkTight(c: Config, s: State, used: set<Label>, pm: u64, k: nat, i: nat)
    requires Tight(c, s, used) && CanLink(c, s, pm, k, i)
    ensures Under(c.t, s.own[pm], k) !in used
    ensures Tight(c, Link(c, s, pm, k, i), used + {Under(c.t, s.own[pm], k)})
  {
    hide GetAddress, IsPage, IsPresent, Link, Under, GetProt, GetUser, IsTree, IsPointer, TightEntry;
    var s', b := Link(c, s, pm, k, i), Under(c.t, s.own[pm], k);
    InTree(c, s, pm);
    Linked(c, s, pm, k, i);
    LinkIsTree(c, s, pm, k, i);
    CountSet(s.alloc, i);
    EmptyUnused(c, s, used, pm, k, i);
    RootServes(c, s, 0);
    ParentOfUnder(c.t, s.own[pm], k);
    forall p, j | p in s'.own && s'.own[p].lvl > 1 && 0 <= j < |s'.tabs[p]|
      ensures TightEntry(c, s', used + {b}, p, j)
    {
      LinkTightEntry(c, s, used, pm, k, i, p, j);
    }
  }

  lemma EmptyUnused(c: Config, s: State, used: set<Label>, pm: u64, k: nat, i: nat)
    requires Tight(c, s, used) && CanLink(c, s, pm, k, i)
    ensures Under(c.t, s.own[pm], k) !in used
  {
    hide IsPage, IsPresent, Under, IsTree;
    assert TightEntry(c, s, used, pm, k);
  }

  lemma LinkTightEntry(c: Config, s: State, used: set<Label>, pm: u64, k: nat, i: nat, p: u64, j: nat)
    requires Tight(c, s, used) && CanLink(c, s, pm, k, i)
    requires var s' := Link(c, s, pm, k, i);
      IsTree(c, s') && p in s'.own && s'.own[p].lvl > 1 && p in s'.tabs && j < |s'.tabs[p]|
    ensures TightEntry(c, Link(c, s, pm, k, i), used + {Under(c.t, s.own[pm], k)}, p, j)
  {
    hide GetAddress, IsPage, IsPresent, Link, Under, GetProt, GetUser, IsTree, IsPointer;
    var s', b := Link(c, s, pm, k, i), Under(c.t, s.own[pm], k);
    InTree(c, s, pm);
    InTree(c, s', p);
    Linked(c, s, pm, k, i);
    if p == c.pool[i] {
      ZeroEntry(c.t, s'.own[p].lvl);
      EmptyUnused(c, s, used, pm, k, i);
      ParentOfUnder(c.t, b, j);
    } else {
      assert TightEntry(c, s, used, p, j);
      InTree(c, s, p);
      if p == pm && j == k {
        PointerPresent(c.t, s.own[pm].lvl, s'.tabs[pm][k]);
      } else if Under(c.t, s.own[p], j) == b {
        UnderInjective(c.t, s.own[p], s.own[pm], j, k);
      }
    }
  }

  lemma PointerPresent(t: HptType, lvl: nat, e: u64)
    requires LvlIsValid(t, lvl) && IsPointer(t, lvl, e)
    ensures IsPresent(t, lvl, e) && !IsPage(t, lvl, e)
  {
  }

  /** Allocating the whole way down to level 1 adds exactly the labels of the way, and it succeeds
      if a set that contains all labels, old and new, is no larger than the pool. */
  lemma {:induction false} AllocPathCounts(c: Config, s: State, used: set<Label>, pm: u64, va: u64, bound: set<Label>)
    requires Tight(c, s, used) && Serves(c, s, pm, va)
    ensures var (s', r) := AllocPath(c, s, pm, 1, va);
      && (r.Some? ==> Tight(c, s', used + Way(c.t, s.own[pm].lvl, va)))
      && (used + Way(c.t, s.own[pm].lvl, va) <= bound && |bound| <= |c.pool| ==> r.Some?)
    decreases s.own[pm].lvl
  {
    hide GetAddress, IsPage, IsPresent, Link, Under, GetPmIdx, IsTree, Region, Tight, AllocPath, Closed;
    TightIsTree(c, s, used);
    var l := s.own[pm].lvl;
    InTree(c, s, pm);
    AllocStep(c, s, pm, 1, va);
    if l <= 1 {
      assert used + Way(c.t, l, va) == used;
    } else {
      var k, e := GetPmIdx(c.t, l, va), EntryOf(c.t, s.tabs, pm, l, va);
      var b := Label(l - 1, Region(c.t, l, va));
      UnderRegion(c.t, s.own[pm], va);
      TightAt(c, s, used, pm, k);
      assert (used + {b}) + Way(c.t, l - 1, va) == used + Way(c.t, l, va);
      if IsPresent(c.t, l, e) {
        var next := GetAddress(c.t, l, e);
        NextInUse(c, s, pm, k);
        NextServes(c, s, pm, va);
        TightOwn(c, s, used, next);
        assert used + {b} == used;
        AllocPathCounts(c, s, used, next, va, bound);
      } else if FirstFree(s.alloc).Some? {
        var i := FirstFree(s.alloc).value;
        LinkTight(c, s, used, pm, k, i);
        LinkIsTree(c, s, pm, k, i);
        LinkServes(c, s, pm, i, va);
        Linked(c, s, pm, k, i);
        AllocPathCounts(c, Link(c, s, pm, k, i), used + {b}, c.pool[i], va, bound);
      } else {
        TightFull(c, s, used);
        assert b !in used;
        if used + Way(c.t, l, va) <= bound {
          assert used + {b} <= bound;
          SubsetSize(used + {b}, bound);
          assert |used + {b}| == |used| + 1;
        }
      }
    }
  }

  lemma TightIsTree(c: Config, s: State, used: set<Label>)
    requires Tight(c, s, used)
    ensures IsTree(c, s)
  {
  }

  lemma UnderRegion(t: HptType, b: Label, va: u64)
    requires LvlIsValid(t, b.lvl) && b.num == Region(t, b.lvl + 1, va)
    ensures Under(t, b, GetPmIdx(t, b.lvl, va)) == Label(b.lvl - 1, Region(t, b.lvl, va))
  {
    hide Region;
    IdxSplits(t, b.lvl, va);
  }

  lemma TightAt(c: Config, s: State, used: set<Label>, pm: u64, k: nat)
    requires Tight(c, s, used) && pm in s.own && s.own[pm].lvl > 1 && k < |s.tabs[pm]|
    ensures LvlIsValid(c.t, s.own[pm].lvl) && !IsPage(c.t, s.own[pm].lvl, s.tabs[pm][k])
    ensures Under(c.t, s.own[pm], k) in used ==> IsPresent(c.t, s.own[pm].lvl, s.tabs[pm][k])
  {
    hide IsPage, IsPresent, Under, IsTree;
    InTree(c, s, pm);
    assert TightEntry(c, s, used, pm, k);
  }

  lemma TightOwn(c: Config, s: State, used: set<Label>, p: u64)
    requires Tight(c, s, used) && p in s.own && s.own[p].lvl < MaxLvl(c.t)
    ensures s.own[p] in used
  {
    hide IsTree;
    RootServes(c, s, 0);
  }

  lemma TightFull(c: Config, s: State, used: set<Label>)
    requires Tight(c, s, used) && FirstFree(s.alloc).None?
    ensures |used| == |c.pool|
  {
    hide IsTree;
    CountAll(s.alloc);
    InTreeSize(c, s);
  }

  lemma InTreeSize(c: Config, s: State)
    requires IsTree(c, s)
    ensures |s.alloc| == |c.pool|
  {
  }

  lemma {:induction false} SubsetSize<T>(a: set<T>, b: set<T>)
    requires a <= b
    ensures |a| <= |b|
    decreases a
  {
    if a != {} {
      var x :| x in a;
      SubsetSize(a - {x}, b - {x});
    }
  }

  /** One step of AllocPath. */
  lemma AllocStep(c: Config, s: State, pm: u64, endLvl: int, va: u64)
    requires IsTree(c, s) && pm in s.own && LvlIsValid(c.t, s.own[pm].lvl) && Accessible(c.t, s.tabs, pm, s.own[pm].lvl)
    ensures var l := s.own[pm].lvl;
      var k, e := GetPmIdx(c.t, l, va), EntryOf(c.t, s.tabs, pm, l, va);
      && (l <= endLvl ==> AllocPath(c, s, pm, endLvl, va) == (s, Some(Pmo(pm, l))))
      && (l > endLvl && IsPage(c.t, l, e) ==> AllocPath(c, s, pm, endLvl, va) == (s, None))
      && (l > endLvl && IsPointer(c.t, l, e) ==>
            && GetAddress(c.t, l, e) in s.own
            && AllocPath(c, s, pm, endLvl, va) == AllocPath(c, s, GetAddress(c.t, l, e), endLvl, va))
      && (l > endLvl && !IsPage(c.t, l, e) && !IsPresent(c.t, l, e) ==>
            match FirstFree(s.alloc)
            case None => AllocPath(c, s, pm, endLvl, va) == (s, None)
            case Some(i) =>
              && CanLink(c, s, pm, k, i) && IsTree(c, Link(c, s, pm, k, i)) && c.pool[i] in Link(c, s, pm, k, i).own
              && AllocPath(c, s, pm, endLvl, va) == AllocPath(c, Link(c, s, pm, k, i), c.pool[i], endLvl, va))
  {
    hide GetAddress, IsPage, IsPresent, Under, GetPmIdx, IsTree, Stored, TablePointer;
    var l := s.own[pm].lvl;
    InTreeSize(c, s);
    var k, e := GetPmIdx(c.t, l, va), EntryOf(c.t, s.tabs, pm, l, va);
    if !IsPage(c.t, l, e) {
      if IsPresent(c.t, l, e) {
        NextInUse(c, s, pm, k);
      } else if FirstFree(s.alloc).Some? {
        PageLevels(c.t, l, e);
        LinkIsTree(c, s, pm, k, FirstFree(s.alloc).value);
      }
    }
  }

  function Free(s: State): nat {
    |s.alloc| - Count(s.alloc)
  }

  /** What allocation down to level `endLvl` needs: the walk gets there by itself, or it stops at an empty
      entry and the pool has a page for each level that is missing. */
  predicate HasRoom(t: HptType, w: Walked, endLvl: int, free: nat) {
    w.Stop? && LvlIsValid(t, w.lvl) && (w.lvl <= endLvl || (!IsPage(t, w.lvl, w.entry) && w.lvl - endLvl <= free))
  }

  /** Allocation succeeds exactly then, from any table of any tree. */
  lemma {:induction false} AllocPathSucceeds(c: Config, s: State, pm: u64, endLvl: int, va: u64)
    requires IsTree(c, s) && pm in s.own && endLvl >= 1
    ensures LvlIsValid(c.t, s.own[pm].lvl)
    ensures AllocPath(c, s, pm, endLvl, va).1.Some? <==>
      HasRoom(c.t, Walk(c.t, s.tabs, pm, s.own[pm].lvl, va), endLvl, Free(s))
    decreases s.own[pm].lvl
  {
    hide GetAddress, IsPage, IsPresent, GetPmIdx, IsTree, Link, Under, GetProt, GetUser, And, AllocPath;
    InTree(c, s, pm);
    AllocStep(c, s, pm, endLvl, va);
    var l := s.own[pm].lvl;
    var k, e := GetPmIdx(c.t, l, va), EntryOf(c.t, s.tabs, pm, l, va);
    if IsPointer(c.t, l, e) {
      var next := GetAddress(c.t, l, e);
      NextInUse(c, s, pm, k);
      InTree(c, s, next);
      AllocStep(c, s, next, endLvl, va);
      AllocPathSucceeds(c, s, next, endLvl, va);
    } else if l > endLvl && !IsPage(c.t, l, e) {
      match FirstFree(s.alloc)
      case None => CountAll(s.alloc);
      case Some(i) =>
        LinkTakesOne(c, s, pm, k, i, va);
        AllocPathSucceeds(c, Link(c, s, pm, k, i), c.pool[i], endLvl, va);
    }
  }

  /** After a link one page less is free, and the walk below stops at once at an empty entry. */
  lemma LinkTakesOne(c: Config, s: State, pm: u64, k: nat, i: nat, va: u64)
    requires CanLink(c, s, pm, k, i)
    ensures var s', l := Link(c, s, pm, k, i), s.own[pm].lvl;
      && Free(s') + 1 == Free(s)
      && s'.own[c.pool[i]].lvl == l - 1
      && var w := Walk(c.t, s'.tabs, c.pool[i], l - 1, va);
         w.Stop? && w.lvl == l - 1 && !IsPresent(c.t, l - 1, w.entry) && (l - 1 > 1 ==> !IsPage(c.t, l - 1, w.entry))
  {
    hide GetAddress, IsPage, IsPresent, GetPmIdx, IsTree, Link, GetProt, GetUser, And;
    InTree(c, s, pm);
    Linked(c, s, pm, k, i);
    ZeroEntry(c.t, s.own[pm].lvl - 1);
    CountSet(s.alloc, i);
  }

  /** An insert succeeds exactly if the level is one of the format and there is room. */
  ghost predicate InsertFits(c: Config, s: State, lvl: int, va: u64) {
    LvlIsValid(c.t, lvl) && HasRoom(c.t, Walk(c.t, s.tabs, c.root, MaxLvl(c.t), va), lvl, Free(s))
  }

  lemma InsertSucceeds(c: Config, s: State, lvl: int, e: u64, va: u64)
    requires IsTree(c, s)
    ensures Insert(c, s, lvl, e, va).1 <==> InsertFits(c, s, lvl, va)
  {
    hide AllocPath, IsTree, Walk, HasRoom;
    RootServes(c, s, va);
    AllocPathGoal(c, s, c.root, lvl, va);
    var (s1, r) := AllocPath(c, s, c.root, lvl, va);
    if r.Some? { InTree(c, s1, r.value.pm); }
    if lvl >= 1 { AllocPathSucceeds(c, s, c.root, lvl, va); }
  }

  /** Writing an entry of level 1 changes nothing above level 1. */
  lemma PutTight(c: Config, s: State, used: set<Label>, pm: u64, k: nat, e: u64)
    requires Tight(c, s, used) && pm in s.own && s.own[pm].lvl == 1 && k < |s.tabs[pm]|
    requires IsTree(c, Put(s, pm, k, e))
    ensures Tight(c, Put(s, pm, k, e), used)
  {
    hide IsPage, IsPresent, Under, PointsWell, ConfigOk, InUse, Closed;
    var s' := Put(s, pm, k, e);
    forall p, j | p in s'.own && s'.own[p].lvl > 1 && 0 <= j < |s'.tabs[p]| ensures TightEntry(c, s', used, p, j) {
      assert TightEntry(c, s, used, p, j);
    }
  }

  lemma LevelOneIsPage(t: HptType, e: u64)
    ensures !IsPointer(t, 1, e)
  {
  }

  /** A level-1 insert: exact accounting, and success while the pool can hold all labels. */
  lemma InsertCounts(c: Config, s: State, used: set<Label>, e: u64, va: u64, bound: set<Label>)
    requires Tight(c, s, used)
    ensures var (s', ok) := Insert(c, s, 1, e, va);
      && (ok ==> Tight(c, s', used + Way(c.t, MaxLvl(c.t), va)))
      && (used + Way(c.t, MaxLvl(c.t), va) <= bound && |bound| <= |c.pool| ==> ok)
  {
    hide AllocPath, IsTree, Way, GetPmIdx, Put, Stored, Tight;
    TightIsTree(c, s, used);
    RootServes(c, s, va);
    AllocPathCounts(c, s, used, c.root, va, bound);
    var (s1, r) := AllocPath(c, s, c.root, 1, va);
    AllocPathGoal(c, s, c.root, 1, va);
    if r.Some? {
      InTree(c, s1, r.value.pm);
      LevelOneIsPage(c.t, Stored(c.t, e));
      PutIsTree(c, s1, r.value.pm, GetPmIdx(c.t, 1, va), Stored(c.t, e));
      PutTight(c, s1, used + Way(c.t, MaxLvl(c.t), va), r.value.pm, GetPmIdx(c.t, 1, va), Stored(c.t, e));
    }
  }

  // ----- sequences of inserts -----

  /** Nothing mapped, nothing allocated. */
  ghost predicate Empty(c: Config, s: State) {
    && IsTree(c, s)
    && (forall i :: 0 <= i < |s.alloc| ==> !s.alloc[i])
    && c.root in s.tabs && forall k :: 0 <= k < |s.tabs[c.root]| ==> s.tabs[c.root][k] == 0
  }

  lemma EmptyIsTight(c: Config, s: State)
    requires Empty(c, s)
    ensures Tight(c, s, {})
  {
    hide IsPage, IsPresent, Under, PointsWell;
    CountNone(s.alloc);
    forall p, k | p in s.own && s.own[p].lvl > 1 && 0 <= k < |s.tabs[p]| ensures TightEntry(c, s, {}, p, k) {
      assert InUse(c, s, p);
      ZeroEntry(c.t, s.own[p].lvl);
    }
  }

  datatype Ins = Ins(entry: u64, va: u64)

  /** Level-1 inserts one after the other; whether all succeeded. */
  ghost function InsertAll(c: Config, s: State, ins: seq<Ins>): (r: (State, bool))
    requires IsTree(c, s)
    ensures IsTree(c, r.0)
    decreases |ins|
  {
    if ins == [] then (s, true)
    else
      var (s1, ok) := InsertAll(c, s, ins[..|ins| - 1]);
      var last := ins[|ins| - 1];
      LevelOneIsPage(c.t, last.entry);
      InsertRefinesUpdate(c, s1, 1, last.entry, last.va, 0);
      var (s2, ok2) := Insert(c, s1, 1, last.entry, last.va);
      (s2, ok && ok2)
  }

  function Ways(t: HptType, ins: seq<Ins>): set<Label>
    decreases |ins|
  {
    if ins == [] then {} else Ways(t, ins[..|ins| - 1]) + Way(t, MaxLvl(t), ins[|ins| - 1].va)
  }

  lemma {:induction false} InsertAllCounts(c: Config, s: State, used: set<Label>, ins: seq<Ins>)
    requires Tight(c, s, used)
    ensures InsertAll(c, s, ins).1 ==> Tight(c, InsertAll(c, s, ins).0, used + Ways(c.t, ins))
    decreases |ins|
  {
    hide Insert, IsTree, Way, Tight;
    TightIsTree(c, s, used);
    if ins == [] {
      assert used + Ways(c.t, ins) == used;
    } else {
      var init, last := ins[..|ins| - 1], ins[|ins| - 1];
      InsertAllCounts(c, s, used, init);
      var (s1, ok) := InsertAll(c, s, init);
      if ok {
        InsertCounts(c, s1, used + Ways(c.t, init), last.entry, last.va, {});
        assert used + Ways(c.t, ins) == (used + Ways(c.t, init)) + Way(c.t, MaxLvl(c.t), last.va);
      }
    }
  }

  /** The distinct prefixes of the addresses: numbers of the regions that tables of level `l` map. */
  function Prefixes(t: HptType, l: nat, ins: seq<Ins>): set<nat>
    requires LvlIsValid(t, l)
  {
    set i | 0 <= i < |ins| :: Region(t, l + 1, ins[i].va)
  }

  function PrefixCount(t: HptType, lvl: nat, ins: seq<Ins>): nat
    requires lvl <= MaxLvl(t)
  {
    if lvl <= 1 then 0 else PrefixCount(t, lvl - 1, ins) + |Prefixes(t, lvl - 1, ins)|
  }

  function LabelsBelow(t: HptType, lvl: nat, ins: seq<Ins>): set<Label>
    requires lvl <= MaxLvl(t)
  {
    if lvl <= 1 then {} else LabelsBelow(t, lvl - 1, ins) + AtLevel(lvl - 1, Prefixes(t, lvl - 1, ins))
  }

  function AtLevel(l: nat, nums: set<nat>): set<Label> {
    set n | n in nums :: Label(l, n)
  }

  lemma {:induction false} AtLevelSize(l: nat, nums: set<nat>)
    ensures |AtLevel(l, nums)| == |nums|
    decreases nums
  {
    if nums != {} {
      var x :| x in nums;
      AtLevelSize(l, nums - {x});
      assert AtLevel(l, nums) == AtLevel(l, nums - {x}) + {Label(l, x)};
    } else {
      assert AtLevel(l, nums) == {};
    }
  }

  lemma {:induction false} LabelsBelowSize(t: HptType, lvl: nat, ins: seq<Ins>)
    requires lvl <= MaxLvl(t)
    ensures |LabelsBelow(t, lvl, ins)| == PrefixCount(t, lvl, ins)
    ensures forall b :: b in LabelsBelow(t, lvl, ins) ==> b.lvl < lvl
    decreases lvl
  {
    hide Prefixes, AtLevel, MaxLvl;
    if lvl <= 1 {
    } else {
      LabelsBelowSize(t, lvl - 1, ins);
      OneLevelMore(LabelsBelow(t, lvl - 1, ins), lvl - 1, Prefixes(t, lvl - 1, ins));
    }
  }

  lemma OneLevelMore(lower: set<Label>, l: nat, nums: set<nat>)
    requires forall b :: b in lower ==> b.lvl < l
    ensures |lower + AtLevel(l, nums)| == |lower| + |nums|
    ensures forall b :: b in lower + AtLevel(l, nums) ==> b.lvl < l + 1
  {
    AtLevelSize(l, nums);
    assert lower !! AtLevel(l, nums);
  }

  lemma {:induction false} LabelsBelowMembers(t: HptType, lvl: nat, ins: seq<Ins>, b: Label)
    requires lvl <= MaxLvl(t)
    ensures b in LabelsBelow(t, lvl, ins) <==> 1 <= b.lvl < lvl && b.num in Prefixes(t, b.lvl, ins)
    decreases lvl
  {
    hide Region;
    if lvl <= 1 {
    } else {
      LabelsBelowMembers(t, lvl - 1, ins, b);
    }
  }

  lemma {:induction false} WaysMembers(t: HptType, ins: seq<Ins>, b: Label)
    ensures b in Ways(t, ins) <==> 1 <= b.lvl < MaxLvl(t) && b.num in Prefixes(t, b.lvl, ins)
    decreases |ins|
  {
    hide Region, Way;
    if ins == [] {
    } else {
      var init, last := ins[..|ins| - 1], ins[|ins| - 1];
      WaysMembers(t, init, b);
      WayLevels(t, MaxLvl(t), last.va, b);
      if 1 <= b.lvl < MaxLvl(t) {
        assert Prefixes(t, b.lvl, ins) == Prefixes(t, b.lvl, init) + {Region(t, b.lvl + 1, last.va)};
      }
    }
  }

  /** From an empty root, any sequence of successful level-1 inserts allocates exactly as many pages
      as there are distinct prefixes of the addresses, summed over the levels below the root. */
  lemma InsertAllExact(c: Config, s: State, ins: seq<Ins>)
    requires Empty(c, s) && InsertAll(c, s, ins).1
    ensures Count(InsertAll(c, s, ins).0.alloc) == PrefixCount(c.t, MaxLvl(c.t), ins)
  {
    hide InsertAll, IsTree;
    EmptyIsTight(c, s);
    InsertAllCounts(c, s, {}, ins);
    assert {} + Ways(c.t, ins) == Ways(c.t, ins);
    forall b: Label ensures b in Ways(c.t, ins) <==> b in LabelsBelow(c.t, MaxLvl(c.t), ins) {
      WaysMembers(c.t, ins, b);
      LabelsBelowMembers(c.t, MaxLvl(c.t), ins, b);
    }
    assert Ways(c.t, ins) == LabelsBelow(c.t, MaxLvl(c.t), ins);
    LabelsBelowSize(c.t, MaxLvl(c.t), ins);
  }

  /** For EPT and 4-level paging the prefixes are the address shifted by 39, 30 and 21. */
  lemma InsertAllExactShifts(c: Config, s: State, ins: seq<Ins>)
    requires Empty(c, s) && InsertAll(c, s, ins).1 && (c.t == Ept || c.t == Long)
    requires forall i :: 0 <= i < |ins| ==> ins[i].va < 0x1_0000_0000_0000
    ensures Count(InsertAll(c, s, ins).0.alloc) ==
            |set i | 0 <= i < |ins| :: ins[i].va / 0x80_0000_0000|
            + |set i | 0 <= i < |ins| :: ins[i].va / 0x4000_0000|
            + |set i | 0 <= i < |ins| :: ins[i].va / 0x20_0000|
  {
    hide InsertAll, Empty, Region;
    InsertAllExact(c, s, ins);
    forall i | 0 <= i < |ins| ensures Shifts(c.t, ins[i].va) { RegionIsShift(c.t, ins[i].va); }
    assert PrefixCount(c.t, 4, ins) ==
      |Prefixes(c.t, 3, ins)| + |Prefixes(c.t, 2, ins)| + |Prefixes(c.t, 1, ins)| by {
      assert PrefixCount(c.t, 2, ins) == |Prefixes(c.t, 1, ins)|;
      assert PrefixCount(c.t, 3, ins) == |Prefixes(c.t, 2, ins)| + |Prefixes(c.t, 1, ins)|;
    }
    assert Prefixes(c.t, 3, ins) == set i | 0 <= i < |ins| :: ins[i].va / 0x80_0000_0000;
    assert Prefixes(c.t, 2, ins) == set i | 0 <= i < |ins| :: ins[i].va / 0x4000_0000;
    assert Prefixes(c.t, 1, ins) == set i | 0 <= i < |ins| :: ins[i].va / 0x20_0000;
  }

  ghost predicate Shifts(t: HptType, va: u64)
    requires t == Ept || t == Long
  {
    && Region(t, 4, va) == va / 0x80_0000_0000
    && Region(t, 3, va) == va / 0x4000_0000
    && Region(t, 2, va) == va / 0x20_0000
    && Region(t, 1, va) == va / 0x1000
  }

  lemma RegionIsShift(t: HptType, va: u64)
    requires (t == Ept || t == Long) && va < 0x1_0000_0000_0000
    ensures Shifts(t, va)
  {
    assert Span(t, 5) == 0x1_0000_0000_0000 && Span(t, 4) == 0x80_0000_0000 && Span(t, 3) == 0x4000_0000;
    assert Span(t, 2) == 0x20_0000 && Span(t, 1) == 0x1000;
    assert va % 0x1_0000_0000_0000 == va;
  }
}
