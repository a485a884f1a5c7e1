/** What the EPT builder of src/shv-ept.c aims at, on values: the guest-physical map of one root,
    and how inserts of page entries change it.
 */
module EptSpec {
  import opened Bitfield
  import opened Hpt
  import opened PageWalk
  import opened Pool

  const PAGE_4K: nat := 0x1000
  const PAGE_2M: nat := 0x20_0000
  const LAPIC: nat := 0xfee0_0000
  const REAL_MODE_END: nat := 0x10_0000
  const TARGET_VA: nat := 0x1234_0000
  const VA_LIMIT: nat := 0x1_0000_0000_0000

  // ----- rights along pointers -----

  /** All pointer entries grant everything. */
  ghost predicate FullRights(c: Config, s: State) {
    IsTree(c, s) && forall p, k :: p in s.own && 0 <= k < |s.tabs[p]| ==> FullEntry(c, s, p, k)
  }

  ghost predicate FullEntry(c: Config, s: State, p: u64, k: nat)
    requires IsTree(c, s) && p in s.own && k < |s.tabs[p]|
  {
    IsPointer(c.t, s.own[p].lvl, s.tabs[p][k]) ==>
      GetProt(c.t, s.own[p].lvl, s.tabs[p][k]) == PROT_RWX && GetUser(c.t, s.own[p].lvl, s.tabs[p][k])
  }

  lemma LinkFull(c: Config, s: State, pm: u64, k: nat, i: nat)
    requires FullRights(c, s) && CanLink(c, s, pm, k, i)
    ensures FullRights(c, Link(c, s, pm, k, i))
  {
    hide GetAddress, IsPage, IsPresent, Link, Under, GetProt, GetUser, IsTree;
    var s' := Link(c, s, pm, k, i);
    LinkIsTree(c, s, pm, k, i);
    Linked(c, s, pm, k, i);
    InTree(c, s, pm);
    forall p, j | p in s'.own && 0 <= j < |s'.tabs[p]| ensures FullEntry(c, s', p, j) {
      InTree(c, s', p);
      if p == c.pool[i] {
        ZeroEntry(c.t, s'.own[p].lvl);
      } else {
        InTree(c, s, p);
        assert FullEntry(c, s, p, j);
      }
    }
  }

  lemma PutFull(c: Config, s: State, pm: u64, k: nat, e: u64)
    requires FullRights(c, s) && pm in s.own && k < |s.tabs[pm]| && !IsPointer(c.t, s.own[pm].lvl, e)
    ensures FullRights(c, Put(s, pm, k, e))
  {
    hide IsPointer, GetProt, GetUser, PointsWell, ConfigOk, InUse;
    var s' := Put(s, pm, k, e);
    PutIsTree(c, s, pm, k, e);
    forall p, j | p in s'.own && 0 <= j < |s'.tabs[p]| ensures FullEntry(c, s', p, j) {
      assert FullEntry(c, s, p, j);
    }
  }

  lemma {:induction false} AllocPathFull(c: Config, s: State, pm: u64, endLvl: int, va: u64)
    requires FullRights(c, s) && pm in s.own
    ensures FullRights(c, AllocPath(c, s, pm, endLvl, va).0)
    decreases s.own[pm].lvl
  {
    hide GetAddress, IsPage, IsPresent, Link, GetPmIdx, IsTree, FullEntry, Under;
    FullIsTree(c, s);
    InTree(c, s, pm);
    AllocStep(c, s, pm, endLvl, va);
    var l := s.own[pm].lvl;
    var k, e := GetPmIdx(c.t, l, va), EntryOf(c.t, s.tabs, pm, l, va);
    if l > endLvl && !IsPage(c.t, l, e) {
      if IsPresent(c.t, l, e) {
        NextInUse(c, s, pm, k);
        AllocPathFull(c, s, GetAddress(c.t, l, e), endLvl, va);
      } else if FirstFree(s.alloc).Some? {
        var i := FirstFree(s.alloc).value;
        LinkFull(c, s, pm, k, i);
        Linked(c, s, pm, k, i);
        AllocPathFull(c, Link(c, s, pm, k, i), c.pool[i], endLvl, va);
      }
    }
  }

  lemma FullIsTree(c: Config, s: State)
    requires FullRights(c, s)
    ensures IsTree(c, s)
  {
  }

  lemma {:induction false} FullPath(c: Config, s: State, pm: u64, va: u64, l: nat)
    requires FullRights(c, s) && pm in s.own
    ensures PathRights(c.t, s.tabs, pm, s.own[pm].lvl, va, l) == Rights(PROT_RWX, true)
    decreases s.own[pm].lvl
  {
    hide GetAddress, IsPage, IsPresent, GetPmIdx, IsTree, GetProt, GetUser, And, Under;
    FullIsTree(c, s);
    InTree(c, s, pm);
    var lvl := s.own[pm].lvl;
    PathStep(c.t, s.tabs, pm, lvl, va, l);
    var k, e := GetPmIdx(c.t, lvl, va), EntryOf(c.t, s.tabs, pm, lvl, va);
    if lvl > l && IsPointer(c.t, lvl, e) {
      assert FullEntry(c, s, pm, k);
      NextInUse(c, s, pm, k);
      FullPath(c, s, GetAddress(c.t, lvl, e), va, l);
      AndAll(PROT_RWX);
    }
  }

  // ----- ways that are open -----

  /** The table of level `l` for `va` exists. */
  ghost predicate Open(c: Config, s: State, va: u64, l: nat) {
    TableAt(c.t, s.tabs, c.root, MaxLvl(c.t), va, l).Some?
  }

  /** An insert at level `l` for `va` can succeed. */
  ghost predicate CanInsert(c: Config, s: State, l: nat, va: u64)
    requires IsTree(c, s)
  {
    InTree0(c, s);
    AllocPath(c, s, c.root, l, va).1.Some?
  }

  lemma InTree0(c: Config, s: State)
    requires IsTree(c, s)
    ensures c.root in s.own
  {
    RootServes(c, s, 0);
  }

  lemma {:induction false} OpenAllocates(c: Config, s: State, pm: u64, va: u64, l: nat)
    requires IsTree(c, s) && pm in s.own
    requires TableAt(c.t, s.tabs, pm, s.own[pm].lvl, va, l).Some?
    ensures AllocPath(c, s, pm, l, va).0 == s && AllocPath(c, s, pm, l, va).1.Some?
    decreases s.own[pm].lvl
  {
    hide GetAddress, IsPage, IsPresent, GetPmIdx, IsTree, AllocPath, TableAt, Under;
    InTree(c, s, pm);
    AllocStep(c, s, pm, l, va);
    var lvl := s.own[pm].lvl;
    PathStep(c.t, s.tabs, pm, lvl, va, l);
    if lvl <= l {
    } else {
      NextInUse(c, s, pm, GetPmIdx(c.t, lvl, va));
      OpenAllocates(c, s, GetAddress(c.t, lvl, EntryOf(c.t, s.tabs, pm, lvl, va)), va, l);
    }
  }

  /** An open way needs no allocation. */
  lemma OpenCanInsert(c: Config, s: State, va: u64, l: nat)
    requires IsTree(c, s) && Open(c, s, va, l)
    ensures CanInsert(c, s, l, va) && AllocPath(c, s, c.root, l, va).0 == s
  {
    hide AllocPath, IsTree, TableAt;
    RootServes(c, s, va);
    OpenAllocates(c, s, c.root, va, l);
  }

  /** Writing an entry keeps every way that does not lead through it. */
  lemma {:induction false} PutOpen(c: Config, s: State, pm: u64, va: u64, e: u64, pm0: u64, va0: u64, l0: nat)
    requires IsTree(c, s) && Serves(c, s, pm, va) && Serves(c, s, pm0, va0)
    requires l0 >= s.own[pm].lvl || Region(c.t, s.own[pm].lvl, va0) != Region(c.t, s.own[pm].lvl, va)
    ensures TableAt(c.t, s.tabs, pm0, s.own[pm0].lvl, va0, l0).Some? ==>
      TableAt(c.t, Put(s, pm, GetPmIdx(c.t, s.own[pm].lvl, va), e).tabs, pm0, s.own[pm0].lvl, va0, l0).Some?
    decreases s.own[pm0].lvl
  {
    hide GetAddress, IsPage, IsPresent, GetPmIdx, IsTree, TableAt, Under, Region, PathRights, And, GetProt, GetUser,
         IsPointer;
    InTree(c, s, pm);
    InTree(c, s, pm0);
    var l, lvl := s.own[pm].lvl, s.own[pm0].lvl;
    var s' := Put(s, pm, GetPmIdx(c.t, l, va), e);
    var e0 := EntryOf(c.t, s.tabs, pm0, lvl, va0);
    PathStep(c.t, s.tabs, pm0, lvl, va0, l0);
    PathStep(c.t, s'.tabs, pm0, lvl, va0, l0);
    if lvl > l0 && IsPointer(c.t, lvl, e0) {
      if pm0 == pm { SameRegion(c.t, l, va, va0); }
      assert EntryOf(c.t, s'.tabs, pm0, lvl, va0) == e0;
      NextServes(c, s, pm0, va0);
      NextInUse(c, s, pm0, GetPmIdx(c.t, lvl, va0));
      PutOpen(c, s, pm, va, e, GetAddress(c.t, lvl, e0), va0, l0);
    } else if lvl < l0 {
      LevelUp(c.t, s.tabs, pm0, lvl, va0, l0);
    }
  }

  // ----- inserts of leaf entries -----

  /** Physical address, effective rights and memory type. */
  datatype Phys = Phys(pa: u64, prot: Prot, pmt: nat)

  /** What the builder wants of a page: address and memory type. */
  datatype Frame = Frame(pa: nat, pmt: nat)

  function PhysOf(t: HptType, m: Mapping, va: u64): Option<Phys> {
    if LvlIsValid(t, m.lvl) && IsPage(t, m.lvl, m.entry)
    then Some(Phys(VaToPa(t, m.lvl, m.entry, va), m.prot, GetPmt(t, m.lvl, m.entry))) else None
  }

  /** Guest-physical to physical. */
  function Maps(c: Config, s: State, va: u64): Option<Phys> {
    match LookupRoot(c, s, va)
    case None => None
    case Some(m) => PhysOf(c.t, m, va)
  }

  /** A page entry for a frame that grants everything. */
  ghost predicate PageEntry(t: HptType, lvl: nat, e: u64, f: Frame) {
    && LvlIsValid(t, lvl) && IsPage(t, lvl, e) && IsPresent(t, lvl, e) && GetProt(t, lvl, e) == PROT_RWX
    && GetAddress(t, lvl, e) == f.pa && GetPmt(t, lvl, e) == f.pmt
  }

  lemma PageEntryFacts(t: HptType, lvl: nat, e: u64, f: Frame)
    requires PageEntry(t, lvl, e, f)
    ensures LvlIsValid(t, lvl) && IsPage(t, lvl, e) && IsPresent(t, lvl, e) && !IsPointer(t, lvl, e)
    ensures (t == Ept ==> lvl <= 3) && f.pa < 0x1_0000_0000_0000_0000
    ensures GetProt(t, lvl, e) == PROT_RWX && GetAddress(t, lvl, e) == f.pa && GetPmt(t, lvl, e) == f.pmt
  {
    hide GetAddress, IsPresent, GetProt, GetPmt;
  }

  /** What an address of the region of an inserted entry maps to. */
  function Placed(t: HptType, lvl: nat, value: Option<Frame>, va: u64): Option<Phys>
    requires LvlIsValid(t, lvl)
  {
    match value
    case None => None
    case Some(f) => Some(Phys((f.pa + va % Span(t, lvl)) % 0x1_0000_0000_0000_0000, PROT_RWX, f.pmt))
  }

  /** All facts about one insert by the builder. */
  ghost predicate Inserted(c: Config, s: State, s': State, lvl: nat, va: u64, value: Option<Frame>)
    requires LvlIsValid(c.t, lvl)
  {
    && FullRights(c, s')
    && (forall va0: u64 :: Maps(c, s', va0) ==
          if Region(c.t, lvl, va0) == Region(c.t, lvl, va)
          then Placed(c.t, lvl, value, va0)
          else Maps(c, s, va0))
    && (forall va0: u64, l0: nat ::
          Open(c, s, va0, l0) && (l0 >= lvl || Region(c.t, lvl, va0) != Region(c.t, lvl, va)) ==>
          Open(c, s', va0, l0))
    && Open(c, s', va, lvl)
    && (Open(c, s, va, lvl) ==> s'.alloc == s.alloc)
  }

  lemma BuilderInsert(c: Config, s: State, lvl: nat, e: u64, va: u64, value: Option<Frame>)
    requires c.t == Ept && FullRights(c, s) && LvlIsValid(c.t, lvl) && CanInsert(c, s, lvl, va)
    requires match value case None => e == 0 case Some(f) => PageEntry(c.t, lvl, e, f)
    ensures Insert(c, s, lvl, e, va).1
    ensures Inserted(c, s, Insert(c, s, lvl, e, va).0, lvl, va, value)
  {
    hide GetAddress, IsPage, IsPresent, GetPmIdx, IsTree, GetProt, GetUser, And, Under, AllocPath, Put, Region, Maps,
         FullRights;
    FullIsTree(c, s);
    var (s', ok) := Insert(c, s, lvl, e, va);
    RootServes(c, s, va);
    AllocPathGoal(c, s, c.root, lvl, va);
    var (s1, r) := AllocPath(c, s, c.root, lvl, va);
    if value.None? { ZeroEntry(c.t, lvl); }
    AllocPathFull(c, s, c.root, lvl, va);
    InTree(c, s1, r.value.pm);
    var k := GetPmIdx(c.t, lvl, va);
    PutFull(c, s1, r.value.pm, k, e);
    forall va0: u64
      ensures Maps(c, s', va0) ==
          if Region(c.t, lvl, va0) == Region(c.t, lvl, va)
          then Placed(c.t, lvl, value, va0)
          else Maps(c, s, va0)
    {
      InsertMaps(c, s, lvl, e, va, value, va0);
    }
    forall va0: u64, l0: nat | Open(c, s, va0, l0) && (l0 >= lvl || Region(c.t, lvl, va0) != Region(c.t, lvl, va))
      ensures Open(c, s', va0, l0)
    {
      AllocPathKeeps(c, s, c.root, lvl, va, c.root, va0, l0);
      RootServes(c, s1, va0);
      PutOpen(c, s1, r.value.pm, va, e, c.root, va0, l0);
    }
    RootServes(c, s1, va);
    PutOpen(c, s1, r.value.pm, va, e, c.root, va, lvl);
    if Open(c, s, va, lvl) { OpenCanInsert(c, s, va, lvl); PutAlloc(s1, r.value.pm, k, e); }
  }

  lemma PutAlloc(s: State, pm: u64, k: nat, e: u64)
    requires pm in s.tabs && k < |s.tabs[pm]|
    ensures Put(s, pm, k, e).alloc == s.alloc
  {
  }

  lemma InsertMaps(c: Config, s: State, lvl: nat, e: u64, va: u64, value: Option<Frame>, va0: u64)
    requires c.t == Ept && FullRights(c, s) && LvlIsValid(c.t, lvl)
    requires CanInsert(c, s, lvl, va) && Insert(c, s, lvl, e, va).1
    requires match value case None => e == 0 case Some(f) => PageEntry(c.t, lvl, e, f)
    ensures Maps(c, Insert(c, s, lvl, e, va).0, va0) ==
          if Region(c.t, lvl, va0) == Region(c.t, lvl, va)
          then Placed(c.t, lvl, value, va0)
          else Maps(c, s, va0)
  {
    hide GetAddress, IsPage, IsPresent, GetPmIdx, IsTree, GetProt, GetUser, And, Under, Region, FullRights,
         LookupRoot, Insert;
    hide OffsetIn, PathRights, AllocPath, Serves, PageEntry, Span, ProtIsValid;
    FullIsTree(c, s);
    RootServes(c, s, va0);
    if value.None? { ZeroEntry(c.t, lvl); } else { PageEntryFacts(c.t, lvl, e, value.value); }
    InsertRefinesUpdate(c, s, lvl, e, va, va0);
    InTree0(c, s);
    FullPath(c, s, c.root, va0, lvl);
    OffsetIsRemainder(c.t, lvl, va0);
    AndAll(PROT_RWX);
  }

  // ----- entries as the builder makes them -----

  /** Setting memory type and address of a page entry that grants everything. */
  lemma Remapped(lvl: nat, e: u64, memType: nat, pa: u64)
    requires 1 <= lvl <= 3 && IsPage(Ept, lvl, e) && GetProt(Ept, lvl, e) == PROT_RWX
    requires memType < 8 && pa % PAGE_4K == 0 && pa < 0x10_0000_0000_0000
    ensures PageEntry(Ept, lvl, SetAddress(Ept, lvl, SetPmt(Ept, lvl, e, memType), pa), Frame(pa, memType))
  {
    hide GetAddress, IsPage, IsPresent, GetProt, GetUser, SetPmt, SetAddress, GetPmt;
    SetPmtLaw(Ept, lvl, e, memType);
    var e1 := SetPmt(Ept, lvl, e, memType);
    SetAddressLaw(Ept, lvl, e1, pa);
    var lo, hi := 12, 52;
    Pow2Is(lo);
    Pow2Is(hi);
    PresentIsDigits(Ept, lvl, SetAddress(Ept, lvl, e1, pa));
  }

  /** The address of a page entry of the builder can be changed again. */
  lemma Readdressed(lvl: nat, e: u64, pa: u64)
    requires 1 <= lvl <= 3 && IsPage(Ept, lvl, e) && GetProt(Ept, lvl, e) == PROT_RWX
    requires pa % PAGE_4K == 0 && pa < 0x10_0000_0000_0000
    ensures PageEntry(Ept, lvl, SetAddress(Ept, lvl, e, pa), Frame(pa, GetPmt(Ept, lvl, e)))
  {
    hide GetAddress, IsPage, IsPresent, GetProt, GetUser, SetAddress, GetPmt;
    SetAddressLaw(Ept, lvl, e, pa);
    var lo, hi := 12, 52;
    Pow2Is(lo);
    Pow2Is(hi);
    PresentIsDigits(Ept, lvl, SetAddress(Ept, lvl, e, pa));
  }

  // ----- the pool is large enough -----

  /** Labels of all tables that a build can need: one of level 3, two of level 2, and of level 1
      those of the first 246 MiB, of the LAPIC page and of TARGET_VA. */
  ghost function Budget(): set<Label> {
    BudgetFor(123)
  }

  ghost function BudgetFor(lowRegions: nat): set<Label> {
    {Label(3, 0), Label(2, 0), Label(2, 3), Label(1, 0x7F7), Label(1, 0x91)} + AtLevel(1, Below(lowRegions))
  }

  function Below(n: nat): (r: set<nat>)
    ensures |r| == n && forall j: nat :: j in r <==> j < n
  {
    if n == 0 then {} else Below(n - 1) + {n - 1}
  }

  lemma BudgetSize()
    ensures |Budget()| == 128
  {
    hide Below;
    AtLevelSize(1, Below(123));
    var a := {Label(3, 0), Label(2, 0), Label(2, 3), Label(1, 0x7F7), Label(1, 0x91)};
    assert a !! AtLevel(1, Below(123));
  }

  /** The addresses that a build inserts. */
  ghost predicate BuilderVa(va: u64) {
    va < 246 * 0x10_0000 || LAPIC <= va < LAPIC + PAGE_4K || TARGET_VA <= va < TARGET_VA + PAGE_4K
  }

  lemma WithinBudget(va: u64)
    requires BuilderVa(va)
    ensures Way(Ept, 4, va) <= Budget()
  {
    hide Region, Way, Below;
    RegionIsShift(Ept, va);
    forall b | b in Way(Ept, 4, va) ensures b in Budget() {
      WayLevels(Ept, 4, va, b);
    }
  }

  /** While the tables in use are within the budget, a level-1 insert cannot fail. */
  lemma BudgetCanInsert(c: Config, s: State, used: set<Label>, va: u64)
    requires c.t == Ept && |c.pool| == 128 && Tight(c, s, used) && used <= Budget() && BuilderVa(va)
    ensures IsTree(c, s) && CanInsert(c, s, 1, va)
    ensures used + Way(Ept, 4, va) <= Budget()
  {
    hide AllocPath, IsTree, Way, Budget, BuilderVa, Tight;
    TightIsTree(c, s, used);
    BudgetSize();
    WithinBudget(va);
    RootServes(c, s, va);
    AllocPathCounts(c, s, used, c.root, va, Budget());
  }

  // ----- the map of a root -----

  /** Where things are: the kernel image [low, high), the 256 target pages, and the two 2 MB pages
      that are swapped if large pages are on; `memType` stands for ept_get_mem_type. */
  datatype Layout = Layout(low: u64, high: u64, targets: u64, bigOn: bool, big0: u64, big1: u64, memType: u64 -> nat)

  ghost predicate LayoutOk(y: Layout) {
    && y.low % PAGE_4K == 0 && y.high % PAGE_4K == 0 && y.low <= y.high <= 246 * 0x10_0000
    && y.targets % PAGE_4K == 0 && y.targets + 256 * PAGE_4K <= y.high
    && (y.bigOn ==>
          && y.big0 % PAGE_2M == 0 && y.big1 == y.big0 + PAGE_2M
          && y.low <= y.big0 && y.big1 + PAGE_2M <= y.high)
    && MemTypeOk(y.memType)
  }

  /** Memory types fit the field of an entry. */
  ghost predicate MemTypeOk(memType: u64 -> nat) {
    forall a :: memType(a) < 8
  }

  /** The 4 KB page of an address. */
  function PageOf(va: u64): u64 {
    va - va % PAGE_4K
  }

  function TargetPage(y: Layout, n: nat): nat {
    y.targets + n * PAGE_4K
  }

  /** Every number has a page of its own, `n` pages after the first. */
  lemma TargetsApart(y: Layout, m: nat, n: nat)
    ensures TargetPage(y, n) == TargetPage(y, 0) + n * 0x1000 && TargetPage(y, 0) == y.targets
    ensures m < n ==> TargetPage(y, m) + 0x1000 <= TargetPage(y, n)
  {
  }

  /** The identity part of the map. */
  predicate IdentityVa(y: Layout, va: u64) {
    y.low <= va < y.high || LAPIC <= va < LAPIC + PAGE_4K || va < REAL_MODE_END
  }

  /** Identity pages have the memory type of their own address. */
  function Identity(y: Layout, va: u64): Option<Frame> {
    if IdentityVa(y, va) then Some(Itself(y.memType, va)) else None
  }

  function Itself(memType: u64 -> nat, va: u64): Frame {
    Frame(va, memType(PageOf(va)))
  }

  /** The map of a root whose last build had number `n`. */
  function Expected(y: Layout, n: nat, va: u64): Option<Frame> {
    if y.bigOn && y.big0 <= va < y.big0 + PAGE_2M then Some(Frame(y.big1 + (va - y.big0), PMT_WB))
    else if y.bigOn && y.big1 <= va < y.big1 + PAGE_2M then Some(Frame(y.big0 + (va - y.big1), PMT_WB))
    else if TARGET_VA <= va < TARGET_VA + PAGE_4K then
      if n == 0 then None else Some(Frame(TargetPage(y, n) + va % PAGE_4K, PMT_WB))
    else Identity(y, va)
  }

  /** `s` maps exactly as expected: address, memory type, and all rights. */
  ghost predicate MapsAs(c: Config, s: State, y: Layout, n: nat) {
    forall va: u64 | va < VA_LIMIT :: MapsTo(c, s, va, Expected(y, n, va))
  }

  ghost predicate MapsTo(c: Config, s: State, va: u64, to: Option<Frame>) {
    match to
    case None => Maps(c, s, va) == None
    case Some(f) => f.pa < 0x1_0000_0000_0000_0000 && Maps(c, s, va) == Some(Phys(f.pa, PROT_RWX, f.pmt))
  }
}
