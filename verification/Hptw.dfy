/** The page-table library as it runs (src/hptw.c with the allocator of src/shv-ept.c): tables are
    arrays in memory, found by physical address and changed in place.  Each method is proved
    against the functions of module PageWalk on the snapshot `Snap()` of the tables.
 */
module Hptw {
  import opened Bitfield
  import opened Hpt
  import opened PageWalk
  import Pool

  /** An entry and the level it is meant for. */
  datatype Pmeo = Pmeo(pme: u64, lvl: int)

  /** An entry of a valid level that is no table pointer. */
  predicate IsLeaf(t: HptType, pmeo: Pmeo) {
    LvlIsValid(t, pmeo.lvl) && !IsPointer(t, pmeo.lvl, pmeo.pme)
  }

  class Context {
    const t: HptType
    const root: u64
    const tables: map<u64, array<u64>>
    const pool: seq<u64>
    const pageAlloc: array<bool>
    ghost var own: map<u64, Label>

    ghost function Arrays(): set<object> {
      set p | p in tables :: tables[p]
    }

    ghost function Footprint(): set<object> {
      {this, pageAlloc} + Arrays()
    }

    ghost function Cfg(): Config {
      Config(t, root, pool)
    }

    ghost function Tabs(): Tables
      reads Arrays()
    {
      map p | p in tables :: tables[p][..]
    }

    ghost function Snap(): State
      reads Footprint()
    {
      State(Tabs(), pageAlloc[..], own)
    }

    /** Distinct addresses hold distinct tables. */
    ghost predicate Separate() {
      forall p, q | p in tables && q in tables && p != q :: tables[p] != tables[q]
    }

    ghost predicate Valid()
      reads Footprint()
    {
      Separate() && IsTree(Cfg(), Snap())
    }

    /** Memory as the loader leaves it: root and pool pages zero, nothing allocated. */
    constructor (t: HptType, root: u64, pool: seq<u64>, tables: map<u64, array<u64>>, pageAlloc: array<bool>)
      requires ConfigOk(Config(t, root, pool))
      requires forall p, q | p in tables && q in tables && p != q :: tables[p] != tables[q]
      requires root in tables && tables[root].Length == Entries(t, MaxLvl(t))
      requires forall k :: 0 <= k < tables[root].Length ==> tables[root][k] == 0
      requires forall i :: 0 <= i < |pool| ==> pool[i] in tables && Zeroed(t, tables[pool[i]][..])
      requires pageAlloc.Length == |pool| && forall i :: 0 <= i < |pool| ==> !pageAlloc[i]
      ensures Valid() && this.t == t && this.root == root && this.pool == pool && this.tables == tables
      ensures this.pageAlloc == pageAlloc && own == map[root := Label(MaxLvl(t), 0)]
      ensures Snap().tabs == map p | p in tables :: tables[p][..]
    {
      hide IsPage, IsPresent, AddressFits;
      this.t, this.root, this.pool, this.tables, this.pageAlloc := t, root, pool, tables, pageAlloc;
      own := map[root := Label(MaxLvl(t), 0)];
      new;
      ZeroEntry(t, MaxLvl(t));
    }

    predicate TableReadable(pm: u64, lvl: nat)
      reads Arrays()
    {
      pm in tables && tables[pm].Length == Entries(t, lvl)
    }

    // ----- entries -----

    method GetPmeByVa(pmo: Pmo, va: u64) returns (pme: u64)
      requires LvlIsValid(t, pmo.lvl) && TableReadable(pmo.pm, pmo.lvl)
      ensures pme == EntryOf(t, Tabs(), pmo.pm, pmo.lvl, va)
    {
      pme := tables[pmo.pm][GetPmIdx(t, pmo.lvl, va)];
    }

    method SetPmeByVa(pmo: Pmo, pme: u64, va: u64)
      requires Separate() && LvlIsValid(t, pmo.lvl) && TableReadable(pmo.pm, pmo.lvl)
      modifies tables[pmo.pm]
      ensures Snap() == Put(old(Snap()), pmo.pm, GetPmIdx(t, pmo.lvl, va), Stored(t, pme))
    {
      hide GetPmIdx, Stored;
      var a, k := tables[pmo.pm], GetPmIdx(t, pmo.lvl, va);
      a[k] := Stored(t, pme);
      assert Tabs() == Put(old(Snap()), pmo.pm, k, Stored(t, pme)).tabs;
    }

    // ----- the allocator -----

    /** First fit over the flags (shv_ept_gzp). */
    method Gzp() returns (page: Option<nat>)
      requires Separate() && pageAlloc.Length == |pool|
      modifies pageAlloc
      ensures page == FirstFree(old(pageAlloc[..]))
      ensures page.None? ==> pageAlloc[..] == old(pageAlloc[..])
      ensures page.Some? ==> page.value < |pool| && pageAlloc[..] == old(pageAlloc[..])[page.value := true]
    {
      var i := 0;
      while i < |pool|
        invariant 0 <= i <= |pool| && pageAlloc[..] == old(pageAlloc[..])
        invariant forall j :: 0 <= j < i ==> pageAlloc[j]
      {
        if !pageAlloc[i] {
          FirstFreeIs(pageAlloc[..], i);
          pageAlloc[i] := true;
          return Some(i);
        }
        i := i + 1;
      }
      page := None;
    }

    // ----- walking -----

    /** One step down; None stands for a table that cannot be read. */
    method NextLvl(pmo: Pmo, va: u64) returns (walked: bool, next: Option<Pmo>)
      requires LvlIsValid(t, pmo.lvl) && TableReadable(pmo.pm, pmo.lvl)
      ensures var e := EntryOf(t, Tabs(), pmo.pm, pmo.lvl, va);
        if !IsPointer(t, pmo.lvl, e) then !walked && next == Some(pmo)
        else
          && pmo.lvl > 1
          && var down := Pmo(GetAddress(t, pmo.lvl, e), pmo.lvl - 1);
          if TableReadable(down.pm, down.lvl) then walked && next == Some(down) else !walked && next == None
    {
      hide GetAddress, IsPage, IsPresent, GetPmIdx;
      var pme := GetPmeByVa(pmo, va);
      if !IsPresent(t, pmo.lvl, pme) || IsPage(t, pmo.lvl, pme) {
        return false, Some(pmo);
      }
      PointerAboveOne(t, pmo.lvl, pme);
      var down := Pmo(GetAddress(t, pmo.lvl, pme), pmo.lvl - 1);
      if !(down.pm in tables && tables[down.pm].Length == Entries(t, down.lvl)) {
        return false, None;
      }
      return true, Some(down);
    }

    /** Allocates a table for the empty entry `pme` of `pmo` and links it. */
    method LinkTable(pmo: Pmo, pme: u64, va: u64) returns (ok: bool)
      requires Valid() && pmo.pm in own && own[pmo.pm].lvl == pmo.lvl > 1
      requires LvlIsValid(t, pmo.lvl) && TableReadable(pmo.pm, pmo.lvl)
      requires pme == EntryOf(t, Tabs(), pmo.pm, pmo.lvl, va)
      requires !IsPage(t, pmo.lvl, pme) && !IsPresent(t, pmo.lvl, pme)
      modifies this`own, pageAlloc, Arrays()
      ensures ok == FirstFree(old(pageAlloc[..])).Some?
      ensures !ok ==> Snap() == old(Snap())
      ensures ok ==>
        var k, i := GetPmIdx(t, pmo.lvl, va), FirstFree(old(pageAlloc[..])).value;
        CanLink(Cfg(), old(Snap()), pmo.pm, k, i) && Snap() == Link(Cfg(), old(Snap()), pmo.pm, k, i)
    {
      hide IsPage, IsPresent, GetPmIdx, Stored, TablePointer, IsTree, Under, Put, Link;
      ghost var s0 := Snap();
      InTree(Cfg(), s0, pmo.pm);
      var page := Gzp();
      if page.None? { return false; }
      var i := page.value;
      ghost var k := GetPmIdx(t, pmo.lvl, va);
      LinkIsPut(Cfg(), s0, pmo.pm, k, i);
      SetPmeByVa(pmo, TablePointer(t, pmo.lvl, pme, pool[i]), va);
      own := own[pool[i] := Under(t, own[pmo.pm], k)];
      PutThenAlloc(s0, pmo.pm, k, Stored(t, TablePointer(t, pmo.lvl, pme, pool[i])), pageAlloc[..]);
      ok := true;
    }

    /** hptw_get_pmo_alloc: the table of level `endLvl` for `va`, allocating what is missing. */
    method GetPmoAlloc(endLvl: int, va: u64) returns (err: bool, pmo: Pmo)
      requires Valid()
      modifies this`own, pageAlloc, Arrays()
      ensures Valid()
      ensures var (s, r) := AllocPath(Cfg(), old(Snap()), root, endLvl, va);
        Snap() == s && err == r.None? && (!err ==> Some(pmo) == r)
    {
      hide GetAddress, IsPage, IsPresent, GetPmIdx, IsTree, Link;
      RootServes(Cfg(), Snap(), va);
      pmo := Pmo(root, MaxLvl(t));
      err := true;
      while pmo.lvl > endLvl
        invariant Valid() && pmo.pm in own && own[pmo.pm].lvl == pmo.lvl
        invariant AllocPath(Cfg(), Snap(), pmo.pm, endLvl, va) == AllocPath(Cfg(), old(Snap()), root, endLvl, va)
        decreases pmo.lvl
      {
        ghost var s0 := Snap();
        InTree(Cfg(), s0, pmo.pm);
        var pme := GetPmeByVa(pmo, va);
        ghost var k := GetPmIdx(t, pmo.lvl, va);
        if IsPage(t, pmo.lvl, pme) { return; }
        PageLevels(t, pmo.lvl, pme);
        if !IsPresent(t, pmo.lvl, pme) {
          var ok := LinkTable(pmo, pme, va);
          if !ok { return; }
          ghost var i := FirstFree(s0.alloc).value;
          LinkIsTree(Cfg(), s0, pmo.pm, k, i);
          Linked(Cfg(), s0, pmo.pm, k, i);
        }
        NextTable(Cfg(), Snap(), pmo.pm, k);
        var walked, next := NextLvl(pmo, va);
        assert walked;
        pmo := next.value;
      }
      err := false;
    }

    /** hptw_insert_pmeo_alloc.  Unless the entry grafts a table of the caller's (a present entry that
        is no page), the tables stay a tree, and the translations change as InsertRefinesUpdate says. */
    method InsertPmeoAlloc(pmeo: Pmeo, va: u64) returns (err: bool)
      requires Valid()
      modifies this`own, pageAlloc, Arrays()
      ensures (Snap(), !err) == Insert(Cfg(), old(Snap()), pmeo.lvl, pmeo.pme, va)
      ensures !err <==> Pool.InsertFits(Cfg(), old(Snap()), pmeo.lvl, va)
      ensures (LvlIsValid(t, pmeo.lvl) ==> !IsPointer(t, pmeo.lvl, pmeo.pme)) ==>
        && Valid()
        && (!err ==> LeafUpdated(old(Snap()), pmeo, va))
        && (err ==> forall va0: u64 :: LookupRoot(Cfg(), Snap(), va0) == LookupRoot(Cfg(), old(Snap()), va0))
    {
      hide IsPage, IsPresent, GetPmIdx, Stored, IsTree, Put, AllocPath, LookupRoot, EntryLookup, RootRights, Region,
           Insert, Pool.InsertFits;
      ghost var s0 := Snap();
      InsertIs(Cfg(), s0, pmeo.lvl, pmeo.pme, va);
      Pool.InsertSucceeds(Cfg(), s0, pmeo.lvl, pmeo.pme, va);
      var e, pmo := GetPmoAlloc(pmeo.lvl, va);
      err := true;
      if !e && pmo.lvl == pmeo.lvl {
        SetPmeByVa(pmo, pmeo.pme, va);
        err := false;
      }
      if LvlIsValid(t, pmeo.lvl) ==> !IsPointer(t, pmeo.lvl, pmeo.pme) {
        InsertRefinesUpdate(Cfg(), s0, pmeo.lvl, pmeo.pme, va, va);
        forall va0: u64
          ensures LookupRoot(Cfg(), Snap(), va0) ==
             if !err && Region(t, pmeo.lvl, va0) == Region(t, pmeo.lvl, va)
             then EntryLookup(t, pmeo.lvl, Stored(t, pmeo.pme), RootRights(Cfg(), s0, va0, pmeo.lvl))
             else LookupRoot(Cfg(), s0, va0)
        {
          InsertRefinesUpdate(Cfg(), s0, pmeo.lvl, pmeo.pme, va, va0);
        }
      }
    }

    /** The table of level `lvl` on the way to `va`, if there is one. */
    ghost function TableFor(va: u64, lvl: nat): Option<u64>
      reads Arrays()
    {
      TableAt(t, Tabs(), root, MaxLvl(t), va, lvl)
    }

    /** `pmo` is a readable table on the way to `va`, that of its level. */
    ghost predicate OnWay(pmo: Pmo, va: u64)
      reads Arrays()
    {
      LvlIsValid(t, pmo.lvl) && TableReadable(pmo.pm, pmo.lvl) && TableFor(va, pmo.lvl) == Some(pmo.pm)
    }

    /** There is a readable table of level `lvl`, which may be no level at all, on the way to `va`. */
    ghost predicate HasTable(va: u64, lvl: int)
      reads Arrays()
    {
      LvlIsValid(t, lvl) && TableFor(va, lvl).Some? && TableReadable(TableFor(va, lvl).value, lvl)
    }

    /** In a tree, the table of the way serves the address. */
    ghost predicate InPlace(pmo: Pmo, va: u64)
      reads Footprint()
    {
      Valid() ==> Serves(Cfg(), Snap(), pmo.pm, va) && own[pmo.pm].lvl == pmo.lvl
    }

    /** hptw_get_pmo: as far down as the tables go, at most to level `endLvl`; None if a table on the way cannot
        be read, which does not happen in a tree. */
    method GetPmo(endLvl: int, va: u64) returns (r: Option<Pmo>)
      requires TableReadable(root, MaxLvl(t))
      ensures r.Some? ==> OnWay(r.value, va) && InPlace(r.value, va)
      ensures r.Some? && LvlIsValid(t, endLvl) ==> (r.value.lvl == endLvl <==> HasTable(va, endLvl))
      ensures r.None? ==> !Valid() && !HasTable(va, endLvl)
    {
      hide GetAddress, IsPage, IsPresent, GetPmIdx, IsTree, IsPointer, TableAt;
      if Valid() { RootServes(Cfg(), Snap(), va); }
      PathStep(t, Tabs(), root, MaxLvl(t), va, MaxLvl(t));
      var pmo := Pmo(root, MaxLvl(t));
      while pmo.lvl > endLvl
        invariant OnWay(pmo, va) && InPlace(pmo, va)
        invariant LvlIsValid(t, endLvl) ==> endLvl <= pmo.lvl
        decreases pmo.lvl
      {
        StepDown(pmo, va);
        ghost var s := Snap();
        var walked, next := NextLvl(pmo, va);
        assert Snap() == s;
        if next.None? {
          Unreadable(pmo, va, endLvl);
          return None;
        }
        if !walked {
          if LvlIsValid(t, endLvl) { Blocked(t, Tabs(), root, MaxLvl(t), va, pmo, endLvl); }
          return Some(pmo);
        }
        pmo := next.value;
      }
      r := Some(pmo);
    }

    /** Below a table that cannot be read there is none. */
    lemma Unreadable(pmo: Pmo, va: u64, endLvl: int)
      requires OnWay(pmo, va) && endLvl < pmo.lvl && IsPointer(t, pmo.lvl, EntryOf(t, Tabs(), pmo.pm, pmo.lvl, va))
      requires pmo.lvl > 1
      requires !TableReadable(GetAddress(t, pmo.lvl, EntryOf(t, Tabs(), pmo.pm, pmo.lvl, va)), pmo.lvl - 1)
      ensures !HasTable(va, endLvl)
    {
      hide GetAddress, IsPage, IsPresent, GetPmIdx, IsPointer, TableAt;
      if LvlIsValid(t, endLvl) {
        WayExtends(t, Tabs(), root, MaxLvl(t), va, pmo);
        var down := Pmo(GetAddress(t, pmo.lvl, EntryOf(t, Tabs(), pmo.pm, pmo.lvl, va)), pmo.lvl - 1);
        if endLvl < down.lvl { CutOff(t, Tabs(), root, MaxLvl(t), va, down, endLvl); }
      }
    }

    /** A pointer entry leads to the next table of the way; in a tree it can be read. */
    lemma StepDown(pmo: Pmo, va: u64)
      requires OnWay(pmo, va) && InPlace(pmo, va)
      ensures var e := EntryOf(t, Tabs(), pmo.pm, pmo.lvl, va);
        IsPointer(t, pmo.lvl, e) ==>
          && pmo.lvl > 1
          && var down := Pmo(GetAddress(t, pmo.lvl, e), pmo.lvl - 1);
          && InPlace(down, va)
          && (Valid() || TableReadable(down.pm, down.lvl) ==> OnWay(down, va))
    {
      hide GetAddress, IsPage, IsPresent, GetPmIdx, IsTree, IsPointer, TableAt;
      if IsPointer(t, pmo.lvl, EntryOf(t, Tabs(), pmo.pm, pmo.lvl, va)) {
        WayExtends(t, Tabs(), root, MaxLvl(t), va, pmo);
        if Valid() {
          NextServes(Cfg(), Snap(), pmo.pm, va);
          NextTable(Cfg(), Snap(), pmo.pm, GetPmIdx(t, pmo.lvl, va));
        }
      }
    }

    /** The state in which `pmo` was on the way to `va`. */
    ghost predicate WasOnWay(s0: State, pmo: Pmo, va: u64) {
      && IsTree(Cfg(), s0) && Serves(Cfg(), s0, pmo.pm, va) && s0.own[pmo.pm].lvl == pmo.lvl
      && LvlIsValid(t, pmo.lvl) && Accessible(t, s0.tabs, pmo.pm, pmo.lvl)
      && TableAt(t, s0.tabs, root, MaxLvl(t), va, pmo.lvl) == Some(pmo.pm)
    }

    /** Writing an entry that is no pointer where the walk is. */
    lemma Overwritten(s0: State, pmo: Pmo, pme: u64, va: u64)
      requires WasOnWay(s0, pmo, va) && !IsPointer(t, pmo.lvl, pme) && Separate()
      requires Snap() == Put(s0, pmo.pm, GetPmIdx(t, pmo.lvl, va), Stored(t, pme))
      ensures Valid()
      ensures Updated(Cfg(), s0, Snap(), pmo.lvl, va, Stored(t, pme))
    {
      hide IsPointer, GetPmIdx, Stored, IsTree, Put, LookupRoot, EntryLookup, RootRights, Region, TableAt;
      StoredPointer(t, pmo.lvl, pme);
      PutIsTree(Cfg(), s0, pmo.pm, GetPmIdx(t, pmo.lvl, va), Stored(t, pme));
      forall va0: u64
        ensures LookupRoot(Cfg(), Snap(), va0) ==
          if Region(t, pmo.lvl, va0) == Region(t, pmo.lvl, va)
          then EntryLookup(t, pmo.lvl, Stored(t, pme), RootRights(Cfg(), s0, va0, pmo.lvl))
          else LookupRoot(Cfg(), s0, va0)
      {
        PutRefinesUpdate(Cfg(), s0, pmo, Stored(t, pme), va, va0);
      }
    }

    /** The translations are those of state `s0` updated with the entry `pmeo`. */
    ghost predicate LeafUpdated(s0: State, pmeo: Pmeo, va: u64)
      reads Footprint()
    {
      LvlIsValid(t, pmeo.lvl) && Updated(Cfg(), s0, Snap(), pmeo.lvl, va, Stored(t, pmeo.pme))
    }

    /** hptw_insert_pmeo, which allocates nothing: succeeds iff the table of the level is there, and then
        writes one entry.  If the tables are a tree and it is no table pointer, the translations are updated. */
    method InsertPmeo(pmeo: Pmeo, va: u64) returns (err: bool)
      requires Separate() && TableReadable(root, MaxLvl(t))
      modifies Arrays()
      ensures err <==> !old(HasTable(va, pmeo.lvl))
      ensures err ==> Snap() == old(Snap())
      ensures !err ==>
        var pm, k := old(TableFor(va, pmeo.lvl)).value, GetPmIdx(t, pmeo.lvl, va);
        pm in old(Tabs()) && k < |old(Tabs())[pm]| && Snap() == Put(old(Snap()), pm, k, Stored(t, pmeo.pme))
      ensures old(Valid()) && !err && IsLeaf(t, pmeo) ==> Valid() && LeafUpdated(old(Snap()), pmeo, va)
    {
      hide IsPointer, Stored, IsTree, LookupRoot, EntryLookup, RootRights, Region, TableAt, GetPmIdx;
      var r := GetPmo(pmeo.lvl, va);
      if r.None? || r.value.lvl != pmeo.lvl { return true; }
      var pmo := r.value;
      ghost var s0 := Snap();
      SetPmeByVa(pmo, pmeo.pme, va);
      if IsTree(Cfg(), s0) && IsLeaf(t, pmeo) { Overwritten(s0, pmo, pmeo.pme, va); }
      return false;
    }

    /** The level-1 entry for `va`; 0 if its table is missing. */
    ghost function LeafFor(va: u64): u64
      reads Arrays()
    {
      if HasTable(va, 1) then EntryOf(t, Tabs(), TableFor(va, 1).value, 1, va) else 0
    }

    /** hptw_set_prot: new rights for the 4 KB page of `va`; the source asserts that its level-1 table
        is there. */
    method SetProtVa(va: u64, prot: Prot)
      requires Separate() && TableReadable(root, MaxLvl(t)) && HasTable(va, 1) && ProtIsValid(t, 1, prot)
      modifies Arrays()
      ensures var pm, k := old(TableFor(va, 1)).value, GetPmIdx(t, 1, va);
        && pm in old(Tabs()) && k < |old(Tabs())[pm]|
        && Snap() == Put(old(Snap()), pm, k, Stored(t, SetProt(t, 1, old(LeafFor(va)), prot)))
      ensures old(Valid()) ==>
        Valid() && Updated(Cfg(), old(Snap()), Snap(), 1, va, Stored(t, SetProt(t, 1, old(LeafFor(va)), prot)))
    {
      hide IsPointer, Stored, IsTree, LookupRoot, EntryLookup, RootRights, Region, TableAt, SetProt, GetPmIdx;
      var r := GetPmo(1, va);
      var pmo := r.value;
      var pme := GetPmeByVa(pmo, va);
      pme := SetProt(t, 1, pme, prot);
      LevelOneNoPointer(t, pme);
      ghost var s0 := Snap();
      SetPmeByVa(pmo, pme, va);
      if IsTree(Cfg(), s0) { Overwritten(s0, pmo, pme, va); }
    }
  }

  lemma LevelOneNoPointer(t: HptType, e: u64)
    ensures !IsPointer(t, 1, e)
  {
  }

  lemma {:induction false} FirstFreeIs(alloc: seq<bool>, i: nat)
    requires i < |alloc| && !alloc[i] && forall j :: 0 <= j < i ==> alloc[j]
    ensures FirstFree(alloc) == Some(i)
  {
  }

  lemma PutThenAlloc(s: State, pm: u64, k: nat, e: u64, alloc: seq<bool>)
    requires pm in s.tabs && k < |s.tabs[pm]|
    ensures Put(s.(alloc := alloc), pm, k, e) == Put(s, pm, k, e).(alloc := alloc)
  {
  }

  lemma LinkIsPut(c: Config, s: State, pm: u64, k: nat, i: nat)
    requires CanLink(c, s, pm, k, i)
    ensures Link(c, s, pm, k, i) ==
            Put(s, pm, k, Stored(c.t, TablePointer(c.t, s.own[pm].lvl, s.tabs[pm][k], c.pool[i]))).(
              alloc := s.alloc[i := true], own := s.own[c.pool[i] := Under(c.t, s.own[pm], k)])
  {
    hide Stored, TablePointer, Under, IsTree;
    InTree(c, s, pm);
  }

  /** After a pointer entry, the next table can be read. */
  lemma NextTable(c: Config, s: State, pm: u64, k: nat)
    requires IsTree(c, s) && pm in s.own && k < |s.tabs[pm]| && IsPointer(c.t, s.own[pm].lvl, s.tabs[pm][k])
    ensures var next := GetAddress(c.t, s.own[pm].lvl, s.tabs[pm][k]);
      next in s.own && s.own[next].lvl == s.own[pm].lvl - 1 >= 1 && Accessible(c.t, s.tabs, next, s.own[next].lvl)
  {
    hide GetAddress, IsPage, IsPresent;
    NextInUse(c, s, pm, k);
    InTree(c, s, GetAddress(c.t, s.own[pm].lvl, s.tabs[pm][k]));
  }

  lemma InsertIs(c: Config, s: State, lvl: int, e: u64, va: u64)
    requires IsTree(c, s)
    ensures var (s1, r) := AllocPath(c, s, c.root, lvl, va);
      if r.None? || r.value.lvl != lvl then Insert(c, s, lvl, e, va) == (s1, false)
      else
        && LvlIsValid(c.t, lvl) && Accessible(c.t, s1.tabs, r.value.pm, lvl)
        && Insert(c, s, lvl, e, va) == (Put(s1, r.value.pm, GetPmIdx(c.t, lvl, va), Stored(c.t, e)), true)
  {
    hide GetPmIdx, Stored, AllocPath;
    InTreeAt(c, s, lvl, va);
  }

  lemma InTreeAt(c: Config, s: State, lvl: int, va: u64)
    requires IsTree(c, s)
    ensures var (s1, r) := AllocPath(c, s, c.root, lvl, va);
      r.Some? && r.value.lvl == lvl ==>
        LvlIsValid(c.t, lvl) && r.value.pm in s1.tabs && |s1.tabs[r.value.pm]| == Entries(c.t, lvl)
        && r.value.pm in s1.own && s1.own[r.value.pm].lvl == lvl
  {
    hide AllocPath;
    RootServes(c, s, va);
    AllocPathGoal(c, s, c.root, lvl, va);
    var (s1, r) := AllocPath(c, s, c.root, lvl, va);
    if r.Some? { InTree(c, s1, r.value.pm); }
  }
}
