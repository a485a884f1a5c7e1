/** What a page table means, on values: the walk of src/hptw.c over a snapshot of the tables, the
    tree invariant, and the effect of allocating and inserting entries.

    A snapshot maps the physical address of each table to its entries.  `own` records, for each
    table in use, its level and which region it maps; that every pointer entry leads to the table
    of the matching region is a local condition (`PointsWell`), and it makes the tables a tree.
 */
module PageWalk {
  import opened Bitfield
  import opened Hpt

  datatype Option<+T> = None | Some(value: T) {
    function GetOr(default: T): T {
      match this
      case None => default
      case Some(v) => v
    }
  }

  type Table = seq<u64>

  type Tables = map<u64, Table>

  /** Level of a table and number of the region (of the level above) that it maps. */
  datatype Label = Label(lvl: nat, num: nat)

  /** Paging type, root table and the pages from which tables are allocated. */
  datatype Config = Config(t: HptType, root: u64, pool: seq<u64>)

  datatype State = State(tabs: Tables, alloc: seq<bool>, own: map<u64, Label>)

  /** Label of the table under entry `k` of a table with label `b`. */
  function Under(t: HptType, b: Label, k: nat): (r: Label)
    requires b.lvl > 0
    ensures r.lvl == b.lvl - 1
  {
    Label(b.lvl - 1, b.num * Entries(t, b.lvl) + k)
  }

  // ----- walking -----

  /** A table can be read if it is there with the size of its level. */
  predicate Accessible(t: HptType, tabs: Tables, pm: u64, lvl: nat) {
    pm in tabs && |tabs[pm]| == Entries(t, lvl)
  }

  /** Where a walk stops: the last entry, and the rights and user access of all entries on the way. */
  datatype Walked = NoTable | Stop(lvl: nat, entry: u64, prot: Prot, user: bool)

  predicate IsPointer(t: HptType, lvl: nat, e: u64)
    requires LvlIsValid(t, lvl)
  {
    IsPresent(t, lvl, e) && !IsPage(t, lvl, e)
  }

  function EntryOf(t: HptType, tabs: Tables, pm: u64, lvl: nat, va: u64): u64
    requires LvlIsValid(t, lvl) && Accessible(t, tabs, pm, lvl)
  {
    tabs[pm][GetPmIdx(t, lvl, va)]
  }

  function Walk(t: HptType, tabs: Tables, pm: u64, lvl: nat, va: u64): Walked
    requires LvlIsValid(t, lvl)
    decreases lvl
  {
    if !Accessible(t, tabs, pm, lvl) then NoTable
    else
      var e := EntryOf(t, tabs, pm, lvl, va);
      if !IsPointer(t, lvl, e) then Stop(lvl, e, GetProt(t, lvl, e), GetUser(t, lvl, e))
      else match Walk(t, tabs, GetAddress(t, lvl, e), lvl - 1, va)
        case NoTable => NoTable
        case Stop(l, last, p, u) => Stop(l, last, And(GetProt(t, lvl, e), p), GetUser(t, lvl, e) && u)
  }

  /** A translation: the page entry with its level, and the effective rights. */
  datatype Mapping = Mapping(lvl: nat, entry: u64, prot: Prot, user: bool)

  function Found(t: HptType, w: Walked): Option<Mapping> {
    if w.Stop? && LvlIsValid(t, w.lvl) && IsPresent(t, w.lvl, w.entry)
    then Some(Mapping(w.lvl, w.entry, w.prot, w.user)) else None
  }

  /** The translation of `va` below table `pm`, if any. */
  function Lookup(t: HptType, tabs: Tables, pm: u64, lvl: nat, va: u64): Option<Mapping>
    requires LvlIsValid(t, lvl)
  {
    Found(t, Walk(t, tabs, pm, lvl, va))
  }

  lemma {:induction false} WalkStops(t: HptType, tabs: Tables, pm: u64, lvl: nat, va: u64)
    requires LvlIsValid(t, lvl)
    ensures var w := Walk(t, tabs, pm, lvl, va);
      w.Stop? ==> 1 <= w.lvl <= lvl && !IsPointer(t, w.lvl, w.entry)
    decreases lvl
  {
    if Accessible(t, tabs, pm, lvl) && IsPointer(t, lvl, EntryOf(t, tabs, pm, lvl, va)) {
      WalkStops(t, tabs, GetAddress(t, lvl, EntryOf(t, tabs, pm, lvl, va)), lvl - 1, va);
    }
  }

  /** A translation unfolds over a pointer entry. */
  lemma LookupStep(t: HptType, tabs: Tables, pm: u64, lvl: nat, va: u64)
    requires LvlIsValid(t, lvl) && Accessible(t, tabs, pm, lvl)
    ensures var e := EntryOf(t, tabs, pm, lvl, va);
      Lookup(t, tabs, pm, lvl, va) ==
      if !IsPresent(t, lvl, e) then None
      else if IsPage(t, lvl, e) then Some(Mapping(lvl, e, GetProt(t, lvl, e), GetUser(t, lvl, e)))
      else match Lookup(t, tabs, GetAddress(t, lvl, e), lvl - 1, va)
        case None => None
        case Some(m) => Some(m.(prot := And(GetProt(t, lvl, e), m.prot), user := GetUser(t, lvl, e) && m.user))
  {
  }

  /** The table of level `l` on the walk for `va`, if the walk gets there. */
  function TableAt(t: HptType, tabs: Tables, pm: u64, lvl: nat, va: u64, l: nat): Option<u64>
    requires LvlIsValid(t, lvl)
    decreases lvl
  {
    if l == lvl then Some(pm)
    else if !Accessible(t, tabs, pm, lvl) || !IsPointer(t, lvl, EntryOf(t, tabs, pm, lvl, va)) then None
    else TableAt(t, tabs, GetAddress(t, lvl, EntryOf(t, tabs, pm, lvl, va)), lvl - 1, va, l)
  }

  datatype Rights = Rights(prot: Prot, user: bool)

  /** Rights of the pointer entries on the way to level `l`; where the way is missing, all. */
  function PathRights(t: HptType, tabs: Tables, pm: u64, lvl: nat, va: u64, l: nat): Rights
    requires LvlIsValid(t, lvl)
    decreases lvl
  {
    if lvl <= l || !Accessible(t, tabs, pm, lvl) || !IsPointer(t, lvl, EntryOf(t, tabs, pm, lvl, va))
    then Rights(PROT_RWX, true)
    else
      var e := EntryOf(t, tabs, pm, lvl, va);
      var r := PathRights(t, tabs, GetAddress(t, lvl, e), lvl - 1, va, l);
      Rights(And(GetProt(t, lvl, e), r.prot), GetUser(t, lvl, e) && r.user)
  }

  // ----- the tree invariant -----

  /** Distinct pages, each usable as a table. */
  ghost predicate ConfigOk(c: Config) {
    && (forall i, j :: 0 <= i < j < |c.pool| ==> c.pool[i] != c.pool[j])
    && c.root !in c.pool
    && (forall i :: 0 <= i < |c.pool| ==> AddressFits(c.t, MaxLvl(c.t), false, c.pool[i]))
  }

  ghost predicate Zeroed(t: HptType, tab: Table) {
    |tab| == Entries(t, 1) && forall k :: 0 <= k < |tab| ==> tab[k] == 0
  }

  /** A pointer entry leads to the table labelled with the region of the entry. */
  ghost predicate PointsWell(c: Config, s: State, pm: u64, k: nat)
    requires pm in s.own && pm in s.tabs && k < |s.tabs[pm]|
    requires LvlIsValid(c.t, s.own[pm].lvl)
  {
    var l, e := s.own[pm].lvl, s.tabs[pm][k];
    IsPointer(c.t, l, e) ==>
      var next := GetAddress(c.t, l, e);
      next in s.own && s.own[next] == Under(c.t, s.own[pm], k)
  }

  ghost predicate InUse(c: Config, s: State, pm: u64) {
    pm == c.root || exists i :: 0 <= i < |c.pool| && i < |s.alloc| && s.alloc[i] && c.pool[i] == pm
  }

  /** The tables in use form a tree under the root, and the pages not in use are all zero. */
  ghost predicate IsTree(c: Config, s: State) {
    && ConfigOk(c)
    && |s.alloc| == |c.pool|
    && (forall pm :: pm in s.own <==> InUse(c, s, pm))
    && s.own[c.root] == Label(MaxLvl(c.t), 0)
    && (forall pm :: pm in s.own ==>
          LvlIsValid(c.t, s.own[pm].lvl) && Accessible(c.t, s.tabs, pm, s.own[pm].lvl)
          && (pm != c.root ==> s.own[pm].lvl < MaxLvl(c.t)))
    && (forall pm, k | pm in s.own && 0 <= k < |s.tabs[pm]| :: PointsWell(c, s, pm, k))
    && (forall i :: 0 <= i < |c.pool| && !s.alloc[i] ==> c.pool[i] in s.tabs && Zeroed(c.t, s.tabs[c.pool[i]]))
  }

  function LookupRoot(c: Config, s: State, va: u64): Option<Mapping> {
    Lookup(c.t, s.tabs, c.root, MaxLvl(c.t), va)
  }

  // ----- one allocation -----

  /** Entry `k` of table `pm` is empty and page `i` of the pool is free. */
  ghost predicate CanLink(c: Config, s: State, pm: u64, k: nat, i: nat) {
    && IsTree(c, s) && pm in s.own && s.own[pm].lvl > 1 && k < |s.tabs[pm]|
    && !IsPage(c.t, s.own[pm].lvl, s.tabs[pm][k]) && !IsPresent(c.t, s.own[pm].lvl, s.tabs[pm][k])
    && i < |c.pool| && !s.alloc[i]
  }

  /** Page `i` of the pool becomes the table under entry `k` of table `pm`. */
  ghost function Link(c: Config, s: State, pm: u64, k: nat, i: nat): State
    requires CanLink(c, s, pm, k, i)
  {
    var l := s.own[pm].lvl;
    var e: u64 := Stored(c.t, TablePointer(c.t, l, s.tabs[pm][k], c.pool[i]));
    var tab: Table := s.tabs[pm];
    var tab': Table := tab[k := e];
    State(
      s.tabs[pm := tab'],
      s.alloc[i := true],
      s.own[c.pool[i] := Under(c.t, s.own[pm], k)])
  }

  lemma LinkIsTree(c: Config, s: State, pm: u64, k: nat, i: nat)
    requires CanLink(c, s, pm, k, i)
    ensures IsTree(c, Link(c, s, pm, k, i))
  {
    hide GetAddress, GetProt, IsPage, IsPresent, Stored, TablePointer, Under, AddressFits, ProtIsValid, Entries;
    var s' := Link(c, s, pm, k, i);
    TablesBelowRoot(c.t, s.own[pm].lvl - 1);
    NotInUse(c, s, i);
    forall p ensures p in s'.own <==> InUse(c, s', p) { LinkInUse(c, s, pm, k, i, p); }
    forall p, j | p in s'.own && 0 <= j < |s'.tabs[p]| ensures PointsWell(c, s', p, j) {
      LinkPointsWell(c, s, pm, k, i, p, j);
    }
  }

  lemma NotInUse(c: Config, s: State, i: nat)
    requires IsTree(c, s) && i < |c.pool| && !s.alloc[i]
    ensures c.pool[i] !in s.own
  {
    hide PointsWell, Accessible, AddressFits;
  }

  lemma LinkInUse(c: Config, s: State, pm: u64, k: nat, i: nat, p: u64)
    requires CanLink(c, s, pm, k, i)
    ensures p in Link(c, s, pm, k, i).own <==> InUse(c, Link(c, s, pm, k, i), p)
  {
    hide PointsWell, Accessible, AddressFits, IsPage, Stored, TablePointer, Under;
    var s' := Link(c, s, pm, k, i);
    if p in s.own && p != c.root {
      var j :| 0 <= j < |c.pool| && j < |s.alloc| && s.alloc[j] && c.pool[j] == p;
      assert s'.alloc[j];
    }
    if p == c.pool[i] { assert s'.alloc[i]; }
    if InUse(c, s', p) && p != c.pool[i] && p != c.root {
      var j :| 0 <= j < |c.pool| && j < |s'.alloc| && s'.alloc[j] && c.pool[j] == p;
      assert s.alloc[j];
    }
  }

  lemma LinkPointsWell(c: Config, s: State, pm: u64, k: nat, i: nat, p: u64, j: nat)
    requires CanLink(c, s, pm, k, i)
    requires var s' := Link(c, s, pm, k, i); p in s'.own && p in s'.tabs && j < |s'.tabs[p]|
    ensures PointsWell(c, Link(c, s, pm, k, i), p, j)
  {
    hide GetAddress, IsPage, IsPresent, Stored, TablePointer, Under, AddressFits, ProtIsValid, GetProt, GetUser;
    var s' := Link(c, s, pm, k, i);
    NotInUse(c, s, i);
    if p == c.pool[i] {
      ZeroEntry(c.t, s.own[pm].lvl - 1);
    } else {
      assert PointsWell(c, s, p, j);
      if p == pm && j == k {
        FitsAnyLevel(c.t, s.own[pm].lvl, c.pool[i]);
        TablePointerLaw(c.t, s.own[pm].lvl, s.tabs[pm][k], c.pool[i]);
      }
    }
  }

  lemma TablesBelowRoot(t: HptType, lvl: nat)
    requires 1 <= lvl < MaxLvl(t)
    ensures Entries(t, lvl) == Entries(t, 1)
  {
  }

  lemma FitsAnyLevel(t: HptType, lvl: nat, a: u64)
    requires LvlIsValid(t, lvl) && AddressFits(t, MaxLvl(t), false, a)
    ensures AddressFits(t, lvl, false, a)
  {
  }

  /** Linking an empty table changes no translation. */
  lemma {:induction false} LinkLookup(c: Config, s: State, pm: u64, k: nat, i: nat, pm0: u64, va: u64)
    requires CanLink(c, s, pm, k, i) && pm0 in s.own
    ensures Lookup(c.t, Link(c, s, pm, k, i).tabs, pm0, s.own[pm0].lvl, va) ==
            Lookup(c.t, s.tabs, pm0, s.own[pm0].lvl, va)
    decreases s.own[pm0].lvl
  {
    hide GetAddress, IsPage, IsPresent, Link, Under, GetProt, GetUser, GetPmIdx, IsTree, Lookup, And;
    var s', l0 := Link(c, s, pm, k, i), s.own[pm0].lvl;
    Linked(c, s, pm, k, i);
    InTree(c, s, pm0);
    var k0, e := GetPmIdx(c.t, l0, va), EntryOf(c.t, s.tabs, pm0, l0, va);
    LookupStep(c.t, s.tabs, pm0, l0, va);
    LookupStep(c.t, s'.tabs, pm0, l0, va);
    if pm0 == pm && k0 == k {
      ZeroEntry(c.t, l0 - 1);
      LookupStep(c.t, s'.tabs, c.pool[i], l0 - 1, va);
    } else {
      assert EntryOf(c.t, s'.tabs, pm0, l0, va) == e;
      if IsPointer(c.t, l0, e) {
        NextInUse(c, s, pm0, k0);
        LinkLookup(c, s, pm, k, i, GetAddress(c.t, l0, e), va);
      }
    }
  }

  lemma AndAll(p: Prot)
    ensures And(PROT_RWX, p) == p && And(p, PROT_RWX) == p
  {
    assert And(p / 2 / 2, 7 / 2 / 2) == p / 2 / 2 == And(7 / 2 / 2, p / 2 / 2);
    assert And(p / 2, 7 / 2) == p / 2 == And(7 / 2, p / 2);
  }

  lemma InTree(c: Config, s: State, pm: u64)
    requires IsTree(c, s) && pm in s.own
    ensures LvlIsValid(c.t, s.own[pm].lvl) && Accessible(c.t, s.tabs, pm, s.own[pm].lvl)
    ensures pm != c.root ==> s.own[pm].lvl < MaxLvl(c.t)
    ensures |s.alloc| == |c.pool|
  {
  }

  /** Ways and rights unfold over a pointer entry. */
  lemma PathStep(t: HptType, tabs: Tables, pm: u64, lvl: nat, va: u64, l: nat)
    requires LvlIsValid(t, lvl) && Accessible(t, tabs, pm, lvl)
    ensures var e := EntryOf(t, tabs, pm, lvl, va);
      && TableAt(t, tabs, pm, lvl, va, l) ==
         (if l == lvl then Some(pm)
          else if !IsPointer(t, lvl, e) then None
          else TableAt(t, tabs, GetAddress(t, lvl, e), lvl - 1, va, l))
      && PathRights(t, tabs, pm, lvl, va, l) ==
         if lvl <= l || !IsPointer(t, lvl, e) then Rights(PROT_RWX, true)
         else
           var r := PathRights(t, tabs, GetAddress(t, lvl, e), lvl - 1, va, l);
           Rights(And(GetProt(t, lvl, e), r.prot), GetUser(t, lvl, e) && r.user)
  {
    hide GetAddress, IsPage, IsPresent, GetPmIdx, GetProt, GetUser, And;
  }

  /** What a link writes: a pointer with all rights to an empty table. */
  lemma Linked(c: Config, s: State, pm: u64, k: nat, i: nat)
    requires CanLink(c, s, pm, k, i)
    ensures var s', l := Link(c, s, pm, k, i), s.own[pm].lvl;
      && pm in s.tabs && pm in s'.tabs && k < |s.tabs[pm]| && |s'.tabs[pm]| == |s.tabs[pm]|
      && s'.own == s.own[c.pool[i] := Under(c.t, s.own[pm], k)]
      && s'.alloc == s.alloc[i := true]
      && (forall j :: 0 <= j < |s.tabs[pm]| && j != k ==> s'.tabs[pm][j] == s.tabs[pm][j])
      && IsPointer(c.t, l, s'.tabs[pm][k])
      && GetAddress(c.t, l, s'.tabs[pm][k]) == c.pool[i]
      && GetProt(c.t, l, s'.tabs[pm][k]) == PROT_RWX && GetUser(c.t, l, s'.tabs[pm][k])
      && c.pool[i] !in s.own && l > 1
      && Accessible(c.t, s'.tabs, c.pool[i], l - 1)
      && (forall j :: 0 <= j < Entries(c.t, l - 1) ==> s'.tabs[c.pool[i]][j] == 0)
      && (forall p :: p in s.own && p != pm ==> p in s.tabs && p in s'.tabs && s'.tabs[p] == s.tabs[p])
  {
    hide GetAddress, IsPage, IsPresent, Stored, TablePointer, Under, AddressFits, ProtIsValid, GetProt, GetUser,
         PointsWell;
    NotInUse(c, s, i);
    FitsAnyLevel(c.t, s.own[pm].lvl, c.pool[i]);
    TablePointerLaw(c.t, s.own[pm].lvl, s.tabs[pm][k], c.pool[i]);
    TablesBelowRoot(c.t, s.own[pm].lvl - 1);
  }

  /** Linking an empty table keeps every way that is there, and the rights along every way. */
  lemma {:induction false} LinkPath(c: Config, s: State, pm: u64, k: nat, i: nat, pm0: u64, va: u64, l: nat)
    requires CanLink(c, s, pm, k, i) && pm0 in s.own
    ensures var s', l0 := Link(c, s, pm, k, i), s.own[pm0].lvl;
      && PathRights(c.t, s'.tabs, pm0, l0, va, l) == PathRights(c.t, s.tabs, pm0, l0, va, l)
      && (TableAt(c.t, s.tabs, pm0, l0, va, l).Some? ==>
            TableAt(c.t, s'.tabs, pm0, l0, va, l) == TableAt(c.t, s.tabs, pm0, l0, va, l))
    decreases s.own[pm0].lvl
  {
    hide GetAddress, IsPage, IsPresent, Link, Under, GetProt, GetUser, GetPmIdx, IsTree, PathRights, TableAt,
         IsPointer, And;
    var s', l0 := Link(c, s, pm, k, i), s.own[pm0].lvl;
    Linked(c, s, pm, k, i);
    InTree(c, s, pm0);
    var k0, e := GetPmIdx(c.t, l0, va), EntryOf(c.t, s.tabs, pm0, l0, va);
    PathStep(c.t, s.tabs, pm0, l0, va, l);
    PathStep(c.t, s'.tabs, pm0, l0, va, l);
    if pm0 == pm && k0 == k {
      EmptyIsNoPointer(c.t, l0, e);
      ZeroEntry(c.t, l0 - 1);
      EmptyIsNoPointer(c.t, l0 - 1, 0);
      PathStep(c.t, s'.tabs, c.pool[i], l0 - 1, va, l);
      AndAll(PROT_RWX);
    } else {
      assert EntryOf(c.t, s'.tabs, pm0, l0, va) == e;
      if IsPointer(c.t, l0, e) {
        NextInUse(c, s, pm0, k0);
        LinkPath(c, s, pm, k, i, GetAddress(c.t, l0, e), va, l);
      }
    }
  }

  lemma EmptyIsNoPointer(t: HptType, lvl: nat, e: u64)
    requires LvlIsValid(t, lvl) && !IsPresent(t, lvl, e)
    ensures !IsPointer(t, lvl, e)
  {
    hide IsPresent, IsPage;
  }

  /** A walk never goes up. */
  lemma {:induction false} LevelUp(t: HptType, tabs: Tables, pm: u64, lvl: nat, va: u64, l: nat)
    requires LvlIsValid(t, lvl) && lvl < l
    ensures TableAt(t, tabs, pm, lvl, va, l) == None
    decreases lvl
  {
    hide GetAddress, IsPage, IsPresent, GetPmIdx;
    if Accessible(t, tabs, pm, lvl) {
      var e := EntryOf(t, tabs, pm, lvl, va);
      if IsPointer(t, lvl, e) {
        PointerAboveOne(t, lvl, e);
        LevelUp(t, tabs, GetAddress(t, lvl, e), lvl - 1, va, l);
      }
    }
  }

  lemma PointerAboveOne(t: HptType, lvl: nat, e: u64)
    requires LvlIsValid(t, lvl) && IsPointer(t, lvl, e)
    ensures lvl > 1
  {
    hide IsPresent;
  }

  // ----- allocation along a path (hptw_get_pmo_alloc) -----

  /** First free page of the pool. */
  function FirstFree(alloc: seq<bool>): (r: Option<nat>)
    ensures r.Some? ==> r.value < |alloc| && !alloc[r.value] && forall j :: 0 <= j < r.value ==> alloc[j]
    ensures r.None? ==> forall j :: 0 <= j < |alloc| ==> alloc[j]
  {
    if alloc == [] then None
    else if !alloc[0] then Some(0)
    else match FirstFree(alloc[1..])
      case None => None
      case Some(j) => Some(j + 1)
  }

  /** A table and its level. */
  datatype Pmo = Pmo(pm: u64, lvl: nat)

  /** From table `pm` down to level `endLvl` on the way of `va`, allocating missing tables.  Stops
      without a table at a page entry or when the pool is empty. */
  ghost function AllocPath(c: Config, s: State, pm: u64, endLvl: int, va: u64): (r: (State, Option<Pmo>))
    requires IsTree(c, s) && pm in s.own
    ensures IsTree(c, r.0)
    decreases s.own[pm].lvl
  {
    hide GetAddress, IsPage, IsPresent, Stored, TablePointer, GetPmIdx, PointsWell, AddressFits, ConfigOk;
    var l := s.own[pm].lvl;
    if l <= endLvl then (s, Some(Pmo(pm, l)))
    else
      var k := GetPmIdx(c.t, l, va);
      var e := s.tabs[pm][k];
      if IsPage(c.t, l, e) then (s, None)
      else if IsPresent(c.t, l, e) then
        NextInUse(c, s, pm, k);
        AllocPath(c, s, GetAddress(c.t, l, e), endLvl, va)
      else match FirstFree(s.alloc)
        case None => (s, None)
        case Some(i) =>
          PageLevels(c.t, l, e);
          LinkIsTree(c, s, pm, k, i);
          AllocPath(c, Link(c, s, pm, k, i), c.pool[i], endLvl, va)
  }

  lemma PageLevels(t: HptType, lvl: nat, e: u64)
    requires LvlIsValid(t, lvl) && !IsPage(t, lvl, e)
    ensures lvl > 1
  {
  }

  lemma NextInUse(c: Config, s: State, pm: u64, k: nat)
    requires IsTree(c, s) && pm in s.own && k < |s.tabs[pm]| && IsPointer(c.t, s.own[pm].lvl, s.tabs[pm][k])
    ensures s.own[pm].lvl > 1
    ensures var next := GetAddress(c.t, s.own[pm].lvl, s.tabs[pm][k]);
      next in s.own && s.own[next] == Under(c.t, s.own[pm], k)
  {
    hide GetAddress, IsPage, IsPresent, ConfigOk, Under, Zeroed;
    assert PointsWell(c, s, pm, k);
    PointerAboveOne(c.t, s.own[pm].lvl, s.tabs[pm][k]);
  }

  /** Allocation along a path changes no translation and no rights, and keeps every way. */
  lemma {:induction false} AllocPathKeeps(c: Config, s: State, pm: u64, endLvl: int, va: u64, pm0: u64, va0: u64,
                                          l: nat)
    requires IsTree(c, s) && pm in s.own && pm0 in s.own
    ensures var s', l0 := AllocPath(c, s, pm, endLvl, va).0, s.own[pm0].lvl;
      && pm0 in s'.own && s'.own[pm0] == s.own[pm0]
      && (l0 > s.own[pm].lvl ==> s'.tabs[pm0] == s.tabs[pm0])
      && Lookup(c.t, s'.tabs, pm0, l0, va0) == Lookup(c.t, s.tabs, pm0, l0, va0)
      && PathRights(c.t, s'.tabs, pm0, l0, va0, l) == PathRights(c.t, s.tabs, pm0, l0, va0, l)
      && (TableAt(c.t, s.tabs, pm0, l0, va0, l).Some? ==>
            TableAt(c.t, s'.tabs, pm0, l0, va0, l) == TableAt(c.t, s.tabs, pm0, l0, va0, l))
    decreases s.own[pm].lvl
  {
    hide GetAddress, IsPage, IsPresent, Stored, TablePointer, GetPmIdx, PointsWell, AddressFits, ConfigOk;
    hide Lookup, PathRights, TableAt, Under;
    var lvl := s.own[pm].lvl;
    if lvl <= endLvl {
    } else {
      var k := GetPmIdx(c.t, lvl, va);
      var e := s.tabs[pm][k];
      if !IsPage(c.t, lvl, e) {
        if IsPresent(c.t, lvl, e) {
          NextInUse(c, s, pm, k);
          AllocPathKeeps(c, s, GetAddress(c.t, lvl, e), endLvl, va, pm0, va0, l);
        } else if FirstFree(s.alloc).Some? {
          var i := FirstFree(s.alloc).value;
          PageLevels(c.t, lvl, e);
          LinkIsTree(c, s, pm, k, i);
          NotInUse(c, s, i);
          LinkLookup(c, s, pm, k, i, pm0, va0);
          LinkPath(c, s, pm, k, i, pm0, va0, l);
          AllocPathKeeps(c, Link(c, s, pm, k, i), c.pool[i], endLvl, va, pm0, va0, l);
        }
      }
    }
  }

  /** Table `pm` serves the region of `va`. */
  ghost predicate Serves(c: Config, s: State, pm: u64, va: u64)
    requires IsTree(c, s)
  {
    pm in s.own && s.own[pm].num == Region(c.t, s.own[pm].lvl + 1, va)
  }

  lemma NextServes(c: Config, s: State, pm: u64, va: u64)
    requires IsTree(c, s) && Serves(c, s, pm, va)
    requires IsPointer(c.t, s.own[pm].lvl, EntryOf(c.t, s.tabs, pm, s.own[pm].lvl, va))
    ensures Serves(c, s, GetAddress(c.t, s.own[pm].lvl, EntryOf(c.t, s.tabs, pm, s.own[pm].lvl, va)), va)
  {
    hide GetAddress, IsPage, IsPresent, PointsWell, ConfigOk, Region, Zeroed;
    NextInUse(c, s, pm, GetPmIdx(c.t, s.own[pm].lvl, va));
    IdxSplits(c.t, s.own[pm].lvl, va);
  }

  lemma LinkServes(c: Config, s: State, pm: u64, i: nat, va: u64)
    requires IsTree(c, s) && Serves(c, s, pm, va)
    requires CanLink(c, s, pm, GetPmIdx(c.t, s.own[pm].lvl, va), i)
    requires IsTree(c, Link(c, s, pm, GetPmIdx(c.t, s.own[pm].lvl, va), i))
    ensures Serves(c, Link(c, s, pm, GetPmIdx(c.t, s.own[pm].lvl, va), i), c.pool[i], va)
  {
    hide GetAddress, IsPage, IsPresent, PointsWell, ConfigOk, Region, Zeroed, Stored, TablePointer;
    IdxSplits(c.t, s.own[pm].lvl, va);
  }

  /** Where allocation ends: at the table of level `endLvl` that serves `va`, on its way. */
  lemma {:induction false} AllocPathGoal(c: Config, s: State, pm: u64, endLvl: int, va: u64)
    requires IsTree(c, s) && Serves(c, s, pm, va)
    ensures var (s', r) := AllocPath(c, s, pm, endLvl, va);
      r.Some? ==>
        && r.value.lvl == (if s.own[pm].lvl <= endLvl then s.own[pm].lvl else endLvl)
        && Serves(c, s', r.value.pm, va) && s'.own[r.value.pm].lvl == r.value.lvl
        && TableAt(c.t, s'.tabs, pm, s.own[pm].lvl, va, r.value.lvl) == Some(r.value.pm)
    decreases s.own[pm].lvl
  {
    hide GetAddress, IsPage, IsPresent, Stored, TablePointer, GetPmIdx, PointsWell, AddressFits, ConfigOk;
    hide Under, Lookup, PathRights, Region, GetProt, GetUser, TableAt, Link, IsTree, And;
    var lvl := s.own[pm].lvl;
    InTree(c, s, pm);
    PathStep(c.t, s.tabs, pm, lvl, va, lvl);
    if lvl <= endLvl {
    } else {
      var k := GetPmIdx(c.t, lvl, va);
      var e := EntryOf(c.t, s.tabs, pm, lvl, va);
      var s' := AllocPath(c, s, pm, endLvl, va).0;
      if !IsPage(c.t, lvl, e) {
        if IsPresent(c.t, lvl, e) {
          NextServes(c, s, pm, va);
          var next := GetAddress(c.t, lvl, e);
          NextInUse(c, s, pm, k);
          AllocPathGoal(c, s, next, endLvl, va);
          AllocPathKeeps(c, s, next, endLvl, va, pm, va, lvl);
        } else if FirstFree(s.alloc).Some? {
          var i := FirstFree(s.alloc).value;
          PageLevels(c.t, lvl, e);
          LinkIsTree(c, s, pm, k, i);
          LinkServes(c, s, pm, i, va);
          Linked(c, s, pm, k, i);
          var s1 := Link(c, s, pm, k, i);
          AllocPathGoal(c, s1, c.pool[i], endLvl, va);
          AllocPathKeeps(c, s1, c.pool[i], endLvl, va, pm, va, lvl);
        }
        var r := AllocPath(c, s, pm, endLvl, va).1;
        if r.Some? {
          InTree(c, s', pm);
          PathStep(c.t, s'.tabs, pm, lvl, va, r.value.lvl);
        }
      }
    }
  }

  // ----- overwriting one entry -----

  ghost function Put(s: State, pm: u64, k: nat, e: u64): State
    requires pm in s.tabs && k < |s.tabs[pm]|
  {
    var tab: Table := s.tabs[pm];
    var tab': Table := tab[k := e];
    s.(tabs := s.tabs[pm := tab'])
  }

  /** Writing an entry that is no pointer keeps the tree, even if a whole subtree is cut off. */
  lemma PutIsTree(c: Config, s: State, pm: u64, k: nat, e: u64)
    requires IsTree(c, s) && pm in s.own && k < |s.tabs[pm]| && !IsPointer(c.t, s.own[pm].lvl, e)
    ensures IsTree(c, Put(s, pm, k, e))
  {
    hide GetAddress, IsPointer, Under, AddressFits;
    var s' := Put(s, pm, k, e);
    forall p ensures p in s'.own <==> InUse(c, s', p) {
      assert InUse(c, s, p) <==> InUse(c, s', p);
    }
    forall i | 0 <= i < |c.pool| && !s'.alloc[i] ensures c.pool[i] in s'.tabs && Zeroed(c.t, s'.tabs[c.pool[i]]) {
      NotInUse(c, s, i);
    }
    forall p, j | p in s'.own && 0 <= j < |s'.tabs[p]| ensures PointsWell(c, s', p, j) {
      assert PointsWell(c, s, p, j);
    }
  }

  /** The translation of an entry that is no pointer. */
  function EntryLookup(t: HptType, lvl: nat, e: u64, r: Rights): Option<Mapping>
    requires LvlIsValid(t, lvl)
  {
    if IsPresent(t, lvl, e)
    then Some(Mapping(lvl, e, And(r.prot, GetProt(t, lvl, e)), r.user && GetUser(t, lvl, e))) else None
  }

  lemma EntryLookupStep(t: HptType, lvl: nat, e: u64, r: Rights, p: Prot, u: bool)
    requires LvlIsValid(t, lvl)
    ensures EntryLookup(t, lvl, e, Rights(And(p, r.prot), u && r.user)) ==
            match EntryLookup(t, lvl, e, r)
            case None => None
            case Some(m) => Some(m.(prot := And(p, m.prot), user := u && m.user))
  {
    hide IsPresent, GetUser, GetProt;
    AndAssoc(p, r.prot, GetProt(t, lvl, e));
  }

  lemma {:induction false} AndAssoc(x: nat, y: nat, z: nat)
    ensures And(And(x, y), z) == And(x, And(y, z))
  {
    forall i: nat
      ensures Bit(And(And(x, y), z), i) <==> Bit(And(x, And(y, z)), i)
    {
      AndBit(And(x, y), z, i); AndBit(x, y, i); AndBit(x, And(y, z), i); AndBit(y, z, i);
    }
    SameBits(And(And(x, y), z), And(x, And(y, z)));
  }

  /** Writing entry `e` for `va` into the table `pm` of level `l` changes the translations of the
      region of that entry, and no other. */
  lemma {:induction false} PutLookup(c: Config, s: State, pm: u64, va: u64, e: u64, pm0: u64, va0: u64)
    requires IsTree(c, s) && Serves(c, s, pm, va) && Serves(c, s, pm0, va0)
    requires !IsPointer(c.t, s.own[pm].lvl, e)
    ensures var l, l0 := s.own[pm].lvl, s.own[pm0].lvl;
      var s' := Put(s, pm, GetPmIdx(c.t, l, va), e);
      && (Region(c.t, l, va0) != Region(c.t, l, va) ==>
            Lookup(c.t, s'.tabs, pm0, l0, va0) == Lookup(c.t, s.tabs, pm0, l0, va0))
      && (Region(c.t, l, va0) == Region(c.t, l, va) && TableAt(c.t, s.tabs, pm0, l0, va0, l) == Some(pm) ==>
            Lookup(c.t, s'.tabs, pm0, l0, va0) == EntryLookup(c.t, l, e, PathRights(c.t, s.tabs, pm0, l0, va0, l)))
    decreases s.own[pm0].lvl
  {
    hide GetAddress, IsPage, IsPresent, Under, GetProt, GetUser, GetPmIdx, IsTree, PathRights, TableAt, And;
    hide EntryLookup, Lookup, Region;
    InTree(c, s, pm);
    InTree(c, s, pm0);
    var l, l0 := s.own[pm].lvl, s.own[pm0].lvl;
    var k := GetPmIdx(c.t, l, va);
    var s' := Put(s, pm, k, e);
    var e0 := EntryOf(c.t, s.tabs, pm0, l0, va0);
    LookupStep(c.t, s.tabs, pm0, l0, va0);
    LookupStep(c.t, s'.tabs, pm0, l0, va0);
    PathStep(c.t, s.tabs, pm0, l0, va0, l);
    if pm0 == pm && GetPmIdx(c.t, l, va0) == k {
      SameRegion(c.t, l, va, va0);
      PutHere(c.t, l, e);
    } else {
      if pm0 == pm { SameRegion(c.t, l, va, va0); }
      assert EntryOf(c.t, s'.tabs, pm0, l0, va0) == e0;
      if IsPointer(c.t, l0, e0) {
        NextServes(c, s, pm0, va0);
        NextInUse(c, s, pm0, GetPmIdx(c.t, l0, va0));
        var next := GetAddress(c.t, l0, e0);
        PutLookup(c, s, pm, va, e, next, va0);
        if l0 < l {
          LevelUp(c.t, s.tabs, pm0, l0, va0, l);
        } else if l0 > l {
          var r := PathRights(c.t, s.tabs, next, l0 - 1, va0, l);
          EntryLookupStep(c.t, l, e, r, GetProt(c.t, l0, e0), GetUser(c.t, l0, e0));
        }
      }
    }
  }

  lemma PutHere(t: HptType, l: nat, e: u64)
    requires LvlIsValid(t, l) && !IsPointer(t, l, e)
    ensures EntryLookup(t, l, e, Rights(PROT_RWX, true)) ==
            if !IsPresent(t, l, e) then None else Some(Mapping(l, e, GetProt(t, l, e), GetUser(t, l, e)))
  {
    hide IsPresent, IsPage, GetProt, GetUser, And;
    AndAll(GetProt(t, l, e));
  }

  /** Two addresses under one table share a region iff they share an index. */
  lemma SameRegion(t: HptType, l: nat, va: u64, va0: u64)
    requires LvlIsValid(t, l) && Region(t, l + 1, va) == Region(t, l + 1, va0)
    ensures Region(t, l, va) == Region(t, l, va0) <==> GetPmIdx(t, l, va) == GetPmIdx(t, l, va0)
  {
    hide Region;
    IdxSplits(t, l, va);
    IdxSplits(t, l, va0);
  }

  // ----- inserting (hptw_insert_pmeo_alloc) -----

  /** The state after an insert and whether it succeeded. */
  ghost function Insert(c: Config, s: State, lvl: int, e: u64, va: u64): (State, bool)
    requires IsTree(c, s)
  {
    RootServes(c, s, va);
    AllocPathGoal(c, s, c.root, lvl, va);
    var (s1, r) := AllocPath(c, s, c.root, lvl, va);
    if r.None? || r.value.lvl != lvl then (s1, false)
    else (Put(s1, r.value.pm, GetPmIdx(c.t, lvl, va), Stored(c.t, e)), true)
  }

  lemma RootServes(c: Config, s: State, va: u64)
    requires IsTree(c, s)
    ensures Serves(c, s, c.root, va) && s.own[c.root].lvl == MaxLvl(c.t)
  {
    hide PointsWell, ConfigOk, Zeroed;
    assert InUse(c, s, c.root);
  }

  function RootRights(c: Config, s: State, va: u64, l: nat): Rights {
    PathRights(c.t, s.tabs, c.root, MaxLvl(c.t), va, l)
  }

  /** The translations of `s1` are those of `s0`, updated to entry `e` for the region of `va`. */
  ghost predicate Updated(c: Config, s0: State, s1: State, lvl: nat, va: u64, e: u64)
    requires LvlIsValid(c.t, lvl)
  {
    forall va0: u64 :: LookupRoot(c, s1, va0) ==
      if Region(c.t, lvl, va0) == Region(c.t, lvl, va)
      then EntryLookup(c.t, lvl, e, RootRights(c, s0, va0, lvl))
      else LookupRoot(c, s0, va0)
  }

  /** Overwriting the entry of `va` in the table of level `lvl` on its way refines updating a map
      from addresses to translations: exactly the addresses of the entry's region get the entry, with
      the rights of the way to it. */
  lemma PutRefinesUpdate(c: Config, s: State, pmo: Pmo, e: u64, va: u64, va0: u64)
    requires IsTree(c, s) && Serves(c, s, pmo.pm, va) && s.own[pmo.pm].lvl == pmo.lvl && !IsPointer(c.t, pmo.lvl, e)
    requires TableAt(c.t, s.tabs, c.root, MaxLvl(c.t), va, pmo.lvl) == Some(pmo.pm)
    ensures LookupRoot(c, Put(s, pmo.pm, GetPmIdx(c.t, pmo.lvl, va), e), va0) ==
            if Region(c.t, pmo.lvl, va0) == Region(c.t, pmo.lvl, va)
            then EntryLookup(c.t, pmo.lvl, e, RootRights(c, s, va0, pmo.lvl))
            else LookupRoot(c, s, va0)
  {
    hide GetAddress, IsPage, IsPresent, GetPmIdx, IsTree, PathRights, TableAt, EntryLookup, Lookup, Region, Put;
    InTree(c, s, pmo.pm);
    RootServes(c, s, va0);
    PutLookup(c, s, pmo.pm, va, e, c.root, va0);
    if Region(c.t, pmo.lvl, va0) == Region(c.t, pmo.lvl, va) {
      SameWay(c.t, s.tabs, c.root, MaxLvl(c.t), va, va0, pmo.lvl);
    }
  }

  /** Inserting with allocation refines updating a map from addresses to translations.  On failure
      no translation changes, whatever was allocated. */
  lemma InsertRefinesUpdate(c: Config, s: State, lvl: int, e: u64, va: u64, va0: u64)
    requires IsTree(c, s) && (LvlIsValid(c.t, lvl) ==> !IsPointer(c.t, lvl, e))
    ensures var (s', ok) := Insert(c, s, lvl, e, va);
      && IsTree(c, s')
      && (ok ==> LvlIsValid(c.t, lvl))
      && LookupRoot(c, s', va0) ==
         if ok && Region(c.t, lvl, va0) == Region(c.t, lvl, va)
         then EntryLookup(c.t, lvl, Stored(c.t, e), RootRights(c, s, va0, lvl))
         else LookupRoot(c, s, va0)
  {
    hide GetAddress, IsPage, IsPresent, Under, GetProt, GetUser, GetPmIdx, IsTree, PathRights, TableAt, And;
    hide EntryLookup, Lookup, Region, AllocPath, Put, Stored;
    RootServes(c, s, va);
    var (s1, r) := AllocPath(c, s, c.root, lvl, va);
    AllocPathGoal(c, s, c.root, lvl, va);
    AllocPathKeeps(c, s, c.root, lvl, va, c.root, va0, if lvl < 0 then 0 else lvl);
    if r.Some? && r.value.lvl == lvl {
      InTree(c, s1, r.value.pm);
      StoredPointer(c.t, lvl, e);
      PutIsTree(c, s1, r.value.pm, GetPmIdx(c.t, lvl, va), Stored(c.t, e));
      PutRefinesUpdate(c, s1, r.value, Stored(c.t, e), va, va0);
    }
  }

  lemma StoredPointer(t: HptType, lvl: nat, e: u64)
    requires LvlIsValid(t, lvl)
    ensures IsPointer(t, lvl, Stored(t, e)) == IsPointer(t, lvl, e)
  {
    hide IsPage, IsPresent, Stored;
    StoredLaw(t, lvl, e);
  }

  /** Addresses of one region share all regions above it. */
  lemma {:induction false} RegionsAbove(t: HptType, lvl: nat, l: nat, va: u64, va0: u64)
    requires 1 <= l <= lvl <= MaxLvl(t) + 1 && Region(t, l, va) == Region(t, l, va0)
    ensures Region(t, lvl, va) == Region(t, lvl, va0)
    decreases lvl - l
  {
    hide Region;
    if l >= lvl {
    } else {
      IdxSplits(t, l, va);
      IdxSplits(t, l, va0);
      DigitSplit(Region(t, l + 1, va), Region(t, l + 1, va0), Entries(t, l), GetPmIdx(t, l, va), GetPmIdx(t, l, va0));
      RegionsAbove(t, lvl, l + 1, va, va0);
    }
  }

  lemma DigitSplit(a: nat, b: nat, n: nat, i: nat, j: nat)
    requires i < n && j < n && a * n + i == b * n + j
    ensures a == b && i == j
  {
    ModUnique(a * n + i, n, a, i);
    ModUnique(b * n + j, n, b, j);
  }

  /** Addresses of one region go the same way down to the table that serves it. */
  lemma {:induction false} SameWay(t: HptType, tabs: Tables, pm: u64, lvl: nat, va: u64, va0: u64, l: nat)
    requires LvlIsValid(t, lvl) && LvlIsValid(t, l) && Region(t, l, va) == Region(t, l, va0)
    ensures TableAt(t, tabs, pm, lvl, va, l) == TableAt(t, tabs, pm, lvl, va0, l)
    decreases lvl
  {
    hide GetAddress, IsPage, IsPresent, GetPmIdx, Region, TableAt;
    if l < lvl && Accessible(t, tabs, pm, lvl) {
      RegionsAbove(t, lvl, l, va, va0);
      RegionsAbove(t, lvl + 1, l, va, va0);
      SameRegion(t, lvl, va, va0);
      PathStep(t, tabs, pm, lvl, va, l);
      PathStep(t, tabs, pm, lvl, va0, l);
      var e := EntryOf(t, tabs, pm, lvl, va);
      if IsPointer(t, lvl, e) {
        SameWay(t, tabs, GetAddress(t, lvl, e), lvl - 1, va, va0, l);
      }
    } else if l > lvl {
      LevelUp(t, tabs, pm, lvl, va, l);
      LevelUp(t, tabs, pm, lvl, va0, l);
    } else {
      TableAtEdge(t, tabs, pm, lvl, va, l);
      TableAtEdge(t, tabs, pm, lvl, va0, l);
    }
  }

  lemma TableAtEdge(t: HptType, tabs: Tables, pm: u64, lvl: nat, va: u64, l: nat)
    requires LvlIsValid(t, lvl) && (l == lvl || !Accessible(t, tabs, pm, lvl))
    ensures TableAt(t, tabs, pm, lvl, va, l) == if l == lvl then Some(pm) else None
  {
  }

  /** Where a way is blocked, no table below exists. */
  lemma {:induction false} Blocked(t: HptType, tabs: Tables, pm: u64, lvl: nat, va: u64, at: Pmo, l: nat)
    requires LvlIsValid(t, lvl) && l < at.lvl && TableAt(t, tabs, pm, lvl, va, at.lvl) == Some(at.pm)
    requires LvlIsValid(t, at.lvl) && Accessible(t, tabs, at.pm, at.lvl)
      && !IsPointer(t, at.lvl, EntryOf(t, tabs, at.pm, at.lvl, va))
    ensures TableAt(t, tabs, pm, lvl, va, l) == None
    decreases lvl
  {
    hide GetAddress, IsPage, IsPresent, GetPmIdx;
    if lvl > at.lvl {
      Blocked(t, tabs, GetAddress(t, lvl, EntryOf(t, tabs, pm, lvl, va)), lvl - 1, va, at, l);
    } else if lvl < at.lvl {
      LevelUp(t, tabs, pm, lvl, va, at.lvl);
    }
  }

  /** A table that cannot be read ends the way. */
  lemma {:induction false} CutOff(t: HptType, tabs: Tables, pm: u64, lvl: nat, va: u64, at: Pmo, l: nat)
    requires LvlIsValid(t, lvl) && l < at.lvl && TableAt(t, tabs, pm, lvl, va, at.lvl) == Some(at.pm)
    requires LvlIsValid(t, at.lvl) && !Accessible(t, tabs, at.pm, at.lvl)
    ensures TableAt(t, tabs, pm, lvl, va, l) == None
    decreases lvl
  {
    hide GetAddress, IsPage, IsPresent, GetPmIdx;
    if lvl > at.lvl {
      CutOff(t, tabs, GetAddress(t, lvl, EntryOf(t, tabs, pm, lvl, va)), lvl - 1, va, at, l);
    } else if lvl < at.lvl {
      LevelUp(t, tabs, pm, lvl, va, at.lvl);
    }
  }

  /** One more pointer on the way. */
  lemma {:induction false} WayExtends(t: HptType, tabs: Tables, pm: u64, lvl: nat, va: u64, at: Pmo)
    requires LvlIsValid(t, lvl) && TableAt(t, tabs, pm, lvl, va, at.lvl) == Some(at.pm)
    requires LvlIsValid(t, at.lvl) && Accessible(t, tabs, at.pm, at.lvl)
      && IsPointer(t, at.lvl, EntryOf(t, tabs, at.pm, at.lvl, va))
    ensures at.lvl > 1
    ensures var next := GetAddress(t, at.lvl, EntryOf(t, tabs, at.pm, at.lvl, va));
      TableAt(t, tabs, pm, lvl, va, at.lvl - 1) == Some(next)
    decreases lvl
  {
    hide GetAddress, IsPage, IsPresent, GetPmIdx;
    PointerAboveOne(t, at.lvl, EntryOf(t, tabs, at.pm, at.lvl, va));
    if lvl > at.lvl {
      WayExtends(t, tabs, GetAddress(t, lvl, EntryOf(t, tabs, pm, lvl, va)), lvl - 1, va, at);
    } else if lvl < at.lvl {
      LevelUp(t, tabs, pm, lvl, va, at.lvl);
    }
  }
}
