/** The EPT builder of one CPU (src/shv-ept.c): two roots with a pool of 128 pages each, built on
    first use and changed by every later build.
 */
module ShvEpt {
  import opened Bitfield
  import opened Hpt
  import opened PageWalk
  import opened Pool
  import opened EptSpec
  import opened Hptw
  import opened LibcString

  /** One root is set up but not built. */
  ghost predicate Unbuilt(c: Config, s: State) {
    FullRights(c, s) && Tight(c, s, {}) && forall va: u64 :: Maps(c, s, va) == None
  }

  /** One root is built and its last build had number `n`. */
  ghost predicate Built(c: Config, s: State, y: Layout, n: nat) {
    && FullRights(c, s)
    && MapsAs(c, s, y, n)
    && Open(c, s, TARGET_VA, 1)
    && (y.bigOn ==> Open(c, s, y.big0, 2) && Open(c, s, y.big1, 2))
  }

  /** The map while the identity part below `upto` of a range is being entered. */
  ghost predicate Entered(c: Config, s0: State, s: State, memType: u64 -> nat, low: u64, upto: nat) {
    forall va: u64 | va < VA_LIMIT ::
      if low <= va < upto then MapsTo(c, s, va, Some(Itself(memType, va))) else Maps(c, s, va) == Maps(c, s0, va)
  }

  ghost predicate StillOpen(c: Config, s0: State, s: State) {
    forall va: u64, l: nat :: 1 <= l && Open(c, s0, va, l) ==> Open(c, s, va, l)
  }

  /** All pages of [low, high) have their tables. */
  ghost predicate PagesOpen(c: Config, s: State, low: u64, high: nat) {
    forall page: u64 | low <= page < high && page % PAGE_4K == 0 :: Open(c, s, page, 1)
  }

  lemma EnterPage(c: Config, s0: State, s: State, s': State, memType: u64 -> nat, low: u64, paddr: u64)
    requires c.t == Ept && Entered(c, s0, s, memType, low, paddr) && StillOpen(c, s0, s)
    requires Inserted(c, s, s', 1, paddr, Some(Frame(paddr, memType(paddr))))
    requires paddr % PAGE_4K == 0 && low <= paddr < VA_LIMIT - PAGE_4K
    ensures Entered(c, s0, s', memType, low, paddr + PAGE_4K) && StillOpen(c, s0, s')
  {
    hide Maps, Open, Region;
    forall va: u64 | va < VA_LIMIT
      ensures if low <= va < paddr + PAGE_4K then MapsTo(c, s', va, Some(Itself(memType, va)))
              else Maps(c, s', va) == Maps(c, s0, va)
    {
      PageRegion(va, paddr);
    }
  }

  /** Addresses share a level-1 region iff they lie in the same page. */
  lemma PageRegion(va: u64, page: u64)
    requires va < VA_LIMIT && page < VA_LIMIT && page % PAGE_4K == 0
    ensures Region(Ept, 1, va) == Region(Ept, 1, page) <==> page <= va < page + PAGE_4K
    ensures page <= va < page + PAGE_4K ==>
      page + va % Span(Ept, 1) == va && va % PAGE_4K == va - page && PageOf(va) == page
  {
    hide Region;
    RegionIsShift(Ept, va);
    RegionIsShift(Ept, page);
    assert Span(Ept, 1) == PAGE_4K;
  }

  lemma BigRegion(va: u64, page: u64)
    requires va < VA_LIMIT && page < VA_LIMIT && page % PAGE_2M == 0
    ensures Region(Ept, 2, va) == Region(Ept, 2, page) <==> page <= va < page + PAGE_2M
    ensures page <= va < page + PAGE_2M ==> page + va % Span(Ept, 2) == va
  {
    hide Region;
    RegionIsShift(Ept, va);
    RegionIsShift(Ept, page);
    assert Span(Ept, 2) == PAGE_2M;
  }

  /** An EPT context whose tables in use are the labels `used`, all within the budget. */
  ghost predicate Ready(ctx: Context, used: set<Label>)
    reads ctx.Footprint()
  {
    && ctx.Valid() && ctx.t == Ept && |ctx.pool| == 128
    && FullRights(ctx.Cfg(), ctx.Snap()) && Tight(ctx.Cfg(), ctx.Snap(), used) && used <= Budget()
  }

  /** A page address that the builder may insert. */
  ghost predicate PageAddress(paddr: u64) {
    paddr % PAGE_4K == 0 && paddr < VA_LIMIT && BuilderVa(paddr)
  }

  function WithWay(used: set<Label>, va: u64): set<Label> {
    used + Way(Ept, 4, va)
  }

  ghost predicate PageEntered(c: Config, s: State, s': State, page: u64, memType: nat) {
    c.t == Ept && Inserted(c, s, s', 1, page, Some(Frame(page, memType)))
  }

  /** A level-1 page entry that grants everything. */
  ghost predicate FullLeaf(pme: u64) {
    IsPage(Ept, 1, pme) && GetProt(Ept, 1, pme) == PROT_RWX
  }

  lemma OpenMore(c: Config, s: State, s': State, pmt: nat, low: u64, paddr: u64)
    requires c.t == Ept && PagesOpen(c, s, low, paddr) && paddr % PAGE_4K == 0
    requires Inserted(c, s, s', 1, paddr, Some(Frame(paddr, pmt)))
    ensures PagesOpen(c, s', low, paddr + PAGE_4K)
  {
    hide Maps, Open, Region, Inserted;
    InsertedOpen(c, s, s', paddr, pmt);
  }

  lemma NothingEntered(c: Config, s: State, memType: u64 -> nat, low: u64)
    ensures Entered(c, s, s, memType, low, low) && StillOpen(c, s, s) && PagesOpen(c, s, low, low)
  {
    hide Maps, Open;
  }

  /** One page of ept_map_continuous_addr. */
  method MapPage(ctx: Context, pme: u64, memType: nat, paddr: u64, ghost used: set<Label>) returns (pme': u64)
    requires Ready(ctx, used)
    requires PageAddress(paddr) && memType < 8 && FullLeaf(pme)
    modifies ctx`own, ctx.pageAlloc, ctx.Arrays()
    ensures FullLeaf(pme') && Ready(ctx, WithWay(used, paddr))
    ensures PageEntered(ctx.Cfg(), old(ctx.Snap()), ctx.Snap(), paddr, memType)
  {
    hide IsPage, GetProt, IsTree, Budget, FullRights, Tight, Insert, Inserted, BuilderVa, Way, CanInsert, PageEntry,
         SetPmt, SetAddress;
    hide LookupRoot, EntryLookup, RootRights, Region;
    ghost var c, s := ctx.Cfg(), ctx.Snap();
    Remapped(1, pme, memType, paddr);
    pme' := SetPmt(Ept, 1, pme, memType);
    pme' := SetAddress(Ept, 1, pme', paddr);
    BudgetCanInsert(c, s, used, paddr);
    BuilderInsert(c, s, 1, pme', paddr, Some(Frame(paddr, memType)));
    InsertCounts(c, s, used, pme', paddr, Budget());
    PageEntryFacts(Ept, 1, pme', Frame(paddr, memType));
    var err := ctx.InsertPmeoAlloc(Pmeo(pme', 1), paddr);
    assert !err;
    InsertedOpen(c, s, ctx.Snap(), paddr, memType);
  }

  /** ept_map_continuous_addr: identity map of [low, high), page by page.  `memType` stands for
      ept_get_mem_type; it must fit the field of the entry. */
  method MapContinuous(ctx: Context, pme: u64, memType: u64 -> nat, low: u64, high: u64, ghost used: set<Label>)
    returns (pme': u64, ghost used': set<Label>)
    requires Ready(ctx, used)
    requires low % PAGE_4K == 0 && high % PAGE_4K == 0 && low <= high <= 0x1_0000_0000
    requires forall va: u64 | low <= va < high :: BuilderVa(va)
    requires MemTypeOk(memType) && FullLeaf(pme)
    modifies ctx`own, ctx.pageAlloc, ctx.Arrays()
    ensures Ready(ctx, used') && FullLeaf(pme')
    ensures Entered(ctx.Cfg(), old(ctx.Snap()), ctx.Snap(), memType, low, high)
    ensures StillOpen(ctx.Cfg(), old(ctx.Snap()), ctx.Snap())
    ensures PagesOpen(ctx.Cfg(), ctx.Snap(), low, high)
  {
    hide IsPage, GetProt, IsTree, Budget, FullRights, Tight, Maps, Open, Inserted, BuilderVa, Way, PageEntry,
         IsPresent, GetAddress, PagesOpen, StillOpen;
    pme', used' := pme, used;
    ghost var s0, c := ctx.Snap(), ctx.Cfg();
    var paddr: u64 := low;
    NothingEntered(c, s0, memType, low);
    while paddr < high
      invariant low <= paddr <= high && paddr % PAGE_4K == 0
      invariant Ready(ctx, used') && FullLeaf(pme')
      invariant Entered(c, s0, ctx.Snap(), memType, low, paddr) && StillOpen(c, s0, ctx.Snap())
      invariant PagesOpen(c, ctx.Snap(), low, paddr)
    {
      ghost var s := ctx.Snap();
      pme' := MapPage(ctx, pme', memType(paddr), paddr, used');
      used' := WithWay(used', paddr);
      EnterPage(c, s0, s, ctx.Snap(), memType, low, paddr);
      OpenMore(c, s, ctx.Snap(), memType(paddr), low, paddr);
      paddr := paddr + PAGE_4K;
    }
  }

  lemma InsertedOpen(c: Config, s: State, s': State, va: u64, pmt: nat)
    requires c.t == Ept && Inserted(c, s, s', 1, va, Some(Frame(va, pmt)))
    ensures Open(c, s', va, 1) && FullRights(c, s')
    ensures forall va0: u64 :: Open(c, s, va0, 1) ==> Open(c, s', va0, 1)
  {
    hide Open, FullRights, Maps, Region;
  }

  // ----- the stages of a build -----

  /** Outside the pages that every build rewrites, the map is the identity part. */
  ghost predicate Base(c: Config, s: State, y: Layout) {
    forall va: u64 | va < VA_LIMIT && !Rewritten(y, va) :: MapsTo(c, s, va, Identity(y, va))
  }

  predicate Rewritten(y: Layout, va: u64) {
    || TARGET_VA <= va < TARGET_VA + PAGE_4K
    || (y.bigOn && (y.big0 <= va < y.big0 + PAGE_2M || y.big1 <= va < y.big1 + PAGE_2M))
  }

  lemma BuiltIsBase(c: Config, s: State, y: Layout, n: nat)
    requires Built(c, s, y, n) && LayoutOk(y)
    ensures Base(c, s, y)
  {
    hide Maps, Open, FullRights;
    forall va: u64 | va < VA_LIMIT && !Rewritten(y, va)
      ensures MapsTo(c, s, va, Identity(y, va))
    {
      assert MapsTo(c, s, va, Expected(y, n, va));
    }
  }

  /** The target page in a state after its insert. */
  function TargetValue(y: Layout, n: nat): Option<Frame> {
    if n == 0 then None else Some(Frame(TargetPage(y, n), PMT_WB))
  }

  ghost predicate SwapDone(c: Config, s1: State, s3: State, y: Layout) {
    if y.bigOn then
      exists s2: State ::
        && Inserted(c, s1, s2, 2, y.big1, Some(Frame(y.big0, PMT_WB)))
        && Inserted(c, s2, s3, 2, y.big0, Some(Frame(y.big1, PMT_WB)))
    else s3 == s1
  }

  /** From the identity part, the two last stages give the expected map. */
  lemma StagesGiveMap(c: Config, s: State, s1: State, s3: State, y: Layout, n: nat)
    requires c.t == Ept && LayoutOk(y) && n < 256 && Base(c, s, y)
    requires Inserted(c, s, s1, 1, TARGET_VA, TargetValue(y, n)) && SwapDone(c, s1, s3, y)
    ensures MapsAs(c, s3, y, n)
  {
    hide Maps, Open, Region, FullRights, SwapDone, Inserted;
    forall va: u64 | va < VA_LIMIT ensures MapsTo(c, s3, va, Expected(y, n, va)) {
      AfterTarget(c, s, s1, y, n, va);
      AfterSwap(c, s1, s3, y, va);
    }
  }

  lemma AfterTarget(c: Config, s: State, s1: State, y: Layout, n: nat, va: u64)
    requires c.t == Ept && LayoutOk(y) && n < 256 && Base(c, s, y) && va < VA_LIMIT
    requires Inserted(c, s, s1, 1, TARGET_VA, TargetValue(y, n))
    ensures TARGET_VA <= va < TARGET_VA + PAGE_4K ==>
      MapsTo(c, s1, va, if n == 0 then None else Some(Frame(TargetPage(y, n) + va % PAGE_4K, PMT_WB)))
    ensures !Rewritten(y, va) ==> MapsTo(c, s1, va, Identity(y, va))
  {
    hide Maps, Open, Region, FullRights;
    PageRegion(va, TARGET_VA);
    assert Span(Ept, 1) == PAGE_4K;
  }

  lemma AfterSwap(c: Config, s1: State, s3: State, y: Layout, va: u64)
    requires c.t == Ept && LayoutOk(y) && va < VA_LIMIT && SwapDone(c, s1, s3, y)
    ensures Maps(c, s3, va) ==
      if y.bigOn && y.big0 <= va < y.big0 + PAGE_2M then Some(Phys(y.big1 + (va - y.big0), PROT_RWX, PMT_WB))
      else if y.bigOn && y.big1 <= va < y.big1 + PAGE_2M then Some(Phys(y.big0 + (va - y.big1), PROT_RWX, PMT_WB))
      else Maps(c, s1, va)
  {
    hide Maps, Open, Region, FullRights;
    if y.bigOn {
      BigRegion(va, y.big0);
      BigRegion(va, y.big1);
    }
  }

  /** The ways that later builds use stay open. */
  lemma StagesOpen(c: Config, s: State, s1: State, s3: State, y: Layout, n: nat)
    requires c.t == Ept && LayoutOk(y) && n < 256
    requires Inserted(c, s, s1, 1, TARGET_VA, TargetValue(y, n)) && SwapDone(c, s1, s3, y)
    requires y.bigOn ==> Open(c, s, y.big0, 2) && Open(c, s, y.big1, 2)
    ensures FullRights(c, s3) && Open(c, s3, TARGET_VA, 1)
    ensures y.bigOn ==> Open(c, s3, y.big0, 2) && Open(c, s3, y.big1, 2)
    ensures Open(c, s, TARGET_VA, 1) ==> s3.alloc == s.alloc
  {
    hide Maps, Open, Region, FullRights;
    if y.bigOn {
      BigRegion(TARGET_VA, y.big0);
      BigRegion(TARGET_VA, y.big1);
      assert Open(c, s1, y.big0, 2) && Open(c, s1, y.big1, 2);
    }
  }

  /** A way to level 1 passes level 2. */
  lemma {:induction false} OpenAbove(t: HptType, tabs: Tables, pm: u64, lvl: nat, va: u64)
    requires LvlIsValid(t, lvl) && lvl >= 2 && TableAt(t, tabs, pm, lvl, va, 1).Some?
    ensures TableAt(t, tabs, pm, lvl, va, 2).Some?
    decreases lvl
  {
    hide GetAddress, IsPointer, GetPmIdx;
    if lvl <= 2 {
    } else {
      OpenAbove(t, tabs, GetAddress(t, lvl, EntryOf(t, tabs, pm, lvl, va)), lvl - 1, va);
    }
  }

  /** First build of a root: kernel image, LAPIC, console and real-mode memory. */
  method MapIdentity(ctx: Context, pme: u64, y: Layout) returns (pme': u64, ghost used: set<Label>)
    requires ctx.Valid() && ctx.t == Ept && |ctx.pool| == 128 && LayoutOk(y) && Unbuilt(ctx.Cfg(), ctx.Snap())
    requires FullLeaf(pme)
    modifies ctx`own, ctx.pageAlloc, ctx.Arrays()
    ensures Ready(ctx, used) && Base(ctx.Cfg(), ctx.Snap(), y) && FullLeaf(pme')
    ensures y.bigOn ==> Open(ctx.Cfg(), ctx.Snap(), y.big0, 2) && Open(ctx.Cfg(), ctx.Snap(), y.big1, 2)
  {
    hide IsPage, GetProt, IsTree, Budget, FullRights, Tight, Maps, Open, Insert, Inserted, Base, Context.Tabs,
         Context.Separate;
    ghost var c, s0 := ctx.Cfg(), ctx.Snap();
    pme', used := MapContinuous(ctx, pme, y.memType, y.low, y.high, {});
    ghost var s1 := ctx.Snap();
    pme', used := MapContinuous(ctx, pme', y.memType, LAPIC, LAPIC + PAGE_4K, used);
    ghost var s2 := ctx.Snap();
    pme', used := MapContinuous(ctx, pme', y.memType, 0xb8000, 0xb9000, used);
    ghost var s3 := ctx.Snap();
    pme', used := MapContinuous(ctx, pme', y.memType, 0, REAL_MODE_END, used);
    IdentityStages(c, s0, s1, s2, s3, ctx.Snap(), y);
    if y.bigOn {
      assert Open(c, s1, y.big0, 1) && Open(c, s1, y.big1, 1);
      OpenTwo(c, ctx.Snap(), y.big0);
      OpenTwo(c, ctx.Snap(), y.big1);
    }
  }

  lemma IdentityStages(c: Config, s0: State, s1: State, s2: State, s3: State, s4: State, y: Layout)
    requires Unbuilt(c, s0) && LayoutOk(y)
    requires Entered(c, s0, s1, y.memType, y.low, y.high) && Entered(c, s1, s2, y.memType, LAPIC, LAPIC + PAGE_4K)
    requires Entered(c, s2, s3, y.memType, 0xb8000, 0xb9000) && Entered(c, s3, s4, y.memType, 0, REAL_MODE_END)
    ensures Base(c, s4, y)
  {
    hide Maps, FullRights, Tight;
    forall va: u64 | va < VA_LIMIT && !Rewritten(y, va)
      ensures MapsTo(c, s4, va, Identity(y, va))
    {
      assert Maps(c, s0, va) == None;
    }
  }

  lemma OpenTwo(c: Config, s: State, va: u64)
    requires Open(c, s, va, 1)
    ensures Open(c, s, va, 2)
  {
    OpenAbove(c.t, s.tabs, c.root, MaxLvl(c.t), va);
  }

  /** TARGET_VA goes to target page `n`, or nowhere if `n` is 0. */
  method MapTarget(ctx: Context, pme: u64, y: Layout, n: nat)
    requires ctx.Valid() && ctx.t == Ept && LayoutOk(y) && n < 256
    requires FullRights(ctx.Cfg(), ctx.Snap()) && CanInsert(ctx.Cfg(), ctx.Snap(), 1, TARGET_VA)
    requires FullLeaf(pme)
    modifies ctx`own, ctx.pageAlloc, ctx.Arrays()
    ensures ctx.Valid() && Inserted(ctx.Cfg(), old(ctx.Snap()), ctx.Snap(), 1, TARGET_VA, TargetValue(y, n))
  {
    hide IsPage, GetProt, IsTree, FullRights, Insert, Inserted, CanInsert, PageEntry, SetPmt, SetAddress, GetAddress;
    hide LookupRoot, EntryLookup, RootRights, Region;
    var e := 0;
    if n != 0 {
      Remapped(1, pme, PMT_WB, TargetPage(y, n));
      e := SetPmt(Ept, 1, pme, PMT_WB);
      e := SetAddress(Ept, 1, e, TargetPage(y, n));
      PageEntryFacts(Ept, 1, e, Frame(TargetPage(y, n), PMT_WB));
    } else {
      ZeroEntry(Ept, 1);
      NoPointer(1, 0);
    }
    BuilderInsert(ctx.Cfg(), ctx.Snap(), 1, e, TARGET_VA, TargetValue(y, n));
    var err := ctx.InsertPmeoAlloc(Pmeo(e, 1), TARGET_VA);
    assert !err;
  }

  lemma NoPointer(lvl: nat, e: u64)
    requires LvlIsValid(Ept, lvl) && !IsPresent(Ept, lvl, e)
    ensures !IsPointer(Ept, lvl, e)
  {
  }

  /** The entry for a large page: present, all rights, 2 MB. */
  function BigEntry(): u64 {
    var e := SetPage(Ept, 2, 0, true);
    SetPageLaw(Ept, 2, 0, true);
    SetUserLaw(Ept, 2, e, true);
    SetProtLaw(Ept, 2, SetUser(Ept, 2, e, true), PROT_RWX);
    SetPmt(Ept, 2, SetProt(Ept, 2, SetUser(Ept, 2, e, true), PROT_RWX), PMT_WB)
  }

  lemma BigEntryIs()
    ensures FullBig(BigEntry())
  {
    hide IsPage, GetProt, SetPage, SetUser, SetProt, SetPmt, GetAddress, IsPresent, GetPmt;
    var e := SetPage(Ept, 2, 0, true);
    SetPageLaw(Ept, 2, 0, true);
    SetUserLaw(Ept, 2, e, true);
    var e1 := SetProt(Ept, 2, SetUser(Ept, 2, e, true), PROT_RWX);
    SetProtLaw(Ept, 2, SetUser(Ept, 2, e, true), PROT_RWX);
    SetPmtLaw(Ept, 2, e1, PMT_WB);
  }

  /** A large page of type WB that grants everything. */
  ghost predicate FullBig(e: u64) {
    IsPage(Ept, 2, e) && GetProt(Ept, 2, e) == PROT_RWX && GetPmt(Ept, 2, e) == PMT_WB
  }

  /** Maps the 2 MB region of `va` to `pa`, over the 4 KB table that is there. */
  method EnterBig(ctx: Context, e0: u64, va: u64, pa: u64) returns (e: u64)
    requires ctx.Valid() && ctx.t == Ept && FullRights(ctx.Cfg(), ctx.Snap()) && Open(ctx.Cfg(), ctx.Snap(), va, 2)
    requires FullBig(e0) && pa % PAGE_4K == 0 && pa < 0x10_0000_0000_0000
    modifies ctx`own, ctx.pageAlloc, ctx.Arrays()
    ensures FullBig(e)
    ensures ctx.Valid() && Inserted(ctx.Cfg(), old(ctx.Snap()), ctx.Snap(), 2, va, Some(Frame(pa, PMT_WB)))
  {
    hide IsPage, GetProt, IsTree, FullRights, Insert, Inserted, CanInsert, PageEntry, SetAddress, GetAddress, Open,
         Maps;
    hide LookupRoot, EntryLookup, RootRights, Region;
    Readdressed(2, e0, pa);
    e := SetAddress(Ept, 2, e0, pa);
    PageEntryFacts(Ept, 2, e, Frame(pa, PMT_WB));
    OpenCanInsert(ctx.Cfg(), ctx.Snap(), va, 2);
    BuilderInsert(ctx.Cfg(), ctx.Snap(), 2, e, va, Some(Frame(pa, PMT_WB)));
    var err := ctx.InsertPmeoAlloc(Pmeo(e, 2), va);
    assert !err;
  }

  /** The two large pages are mapped onto each other. */
  method SwapBig(ctx: Context, y: Layout)
    requires ctx.Valid() && ctx.t == Ept && LayoutOk(y)
    requires FullRights(ctx.Cfg(), ctx.Snap())
    requires y.bigOn && Open(ctx.Cfg(), ctx.Snap(), y.big0, 2) && Open(ctx.Cfg(), ctx.Snap(), y.big1, 2)
    modifies ctx`own, ctx.pageAlloc, ctx.Arrays()
    ensures ctx.Valid() && SwapDone(ctx.Cfg(), old(ctx.Snap()), ctx.Snap(), y)
  {
    hide IsPage, GetProt, IsTree, FullRights, BigEntry, Open, Maps, Region;
    BigEntryIs();
    ghost var c, s1 := ctx.Cfg(), ctx.Snap();
    var e := EnterBig(ctx, BigEntry(), y.big1, y.big0);
    assert Inserted(c, s1, ctx.Snap(), 2, y.big1, Some(Frame(y.big0, PMT_WB)));
    e := EnterBig(ctx, e, y.big0, y.big1);
  }

  const ASCII_A: byte := 65
  const ASCII_B: byte := 66

  ghost predicate Marked(mem: seq<byte>, y: Layout, n: nat) {
    && TargetPage(y, n) + 16 <= |mem| && (forall i :: TargetPage(y, n) <= i < TargetPage(y, n) + 16 ==> mem[i] == n)
    && (y.bigOn ==> y.big0 < |mem| && y.big1 < |mem| && mem[y.big0] == ASCII_A && mem[y.big1] == ASCII_B)
  }

  /** What a build leaves at address `p` of the data memory. */
  function MarkedByte(y: Layout, n: byte, p: nat, was: byte): byte {
    if TargetPage(y, n) <= p < TargetPage(y, n) + 16 then n
    else if y.bigOn && y.big0 <= p < y.big0 + 16 then ASCII_A
    else if y.bigOn && y.big1 <= p < y.big1 + 16 then ASCII_B
    else was
  }

  /** The 16-byte marks are written and nothing else. */
  ghost predicate MarkedFrom(was: seq<byte>, now: seq<byte>, y: Layout, n: nat) {
    n < 256 && |now| == |was| && forall p :: 0 <= p < |was| ==> now[p] == MarkedByte(y, n, p, was[p])
  }

  /** What the marks leave, seen from the guest. */
  lemma MarksAreSeen(was: seq<byte>, now: seq<byte>, y: Layout, n: nat)
    requires LayoutOk(y) && y.high <= |was| && MarkedFrom(was, now, y, n)
    requires y.bigOn ==> y.targets + 256 * PAGE_4K <= y.big0 || y.big1 + PAGE_2M <= y.targets
    ensures Marked(now, y, n)
  {
  }

  /** `now` is `was` with `c` from `p` on, 16 times. */
  ghost predicate Mark(was: seq<byte>, now: seq<byte>, p: nat, c: byte) {
    |now| == |was| && forall q :: 0 <= q < |was| ==> now[q] == if p <= q < p + 16 then c else was[q]
  }

  lemma FilledIsMark(was: seq<byte>, p: nat, c: byte)
    requires p + 16 <= |was|
    ensures Mark(was, Filled(was, p, 16, c), p, c)
  {
  }

  lemma MarksCompose(m0: seq<byte>, m1: seq<byte>, m2: seq<byte>, m3: seq<byte>, y: Layout, n: byte)
    requires Mark(m0, m1, TargetPage(y, n), n)
    requires if y.bigOn then Mark(m1, m2, y.big0, ASCII_A) && Mark(m2, m3, y.big1, ASCII_B) else m3 == m1
    requires y.bigOn ==> y.big0 + 16 <= y.big1
    requires y.bigOn ==> TargetPage(y, n) + 16 <= y.big0 || y.big1 + 16 <= TargetPage(y, n)
    ensures MarkedFrom(m0, m3, y, n)
  {
    hide TargetPage;
  }

  lemma MarksFit(y: Layout, n: nat)
    requires LayoutOk(y) && n < 256
    requires y.bigOn ==> y.targets + 256 * PAGE_4K <= y.big0 || y.big1 + PAGE_2M <= y.targets
    ensures TargetPage(y, n) + 16 <= y.high && (y.bigOn ==> y.big0 + 16 <= y.big1 && y.big1 + 16 <= y.high)
    ensures y.bigOn ==> TargetPage(y, n) + 16 <= y.big0 || y.big1 + 16 <= TargetPage(y, n)
  {
  }

  /** The memset calls of shv_build_ept. */
  method FillMarks(ram: array<byte>, y: Layout, n: nat)
    requires LayoutOk(y) && y.high <= ram.Length && n < 256
    requires y.bigOn ==> y.targets + 256 * PAGE_4K <= y.big0 || y.big1 + PAGE_2M <= y.targets
    modifies ram
    ensures MarkedFrom(old(ram[..]), ram[..], y, n) && Marked(ram[..], y, n)
  {
    hide Marked, LayoutOk, TargetPage, Mark, MarkedFrom, Filled;
    MarksFit(y, n);
    ghost var m0 := ram[..];
    FilledIsMark(m0, TargetPage(y, n), n);
    Memset(ram, TargetPage(y, n), n, 16);
    ghost var m1, m2 := ram[..], ram[..];
    if y.bigOn {
      FilledIsMark(m1, y.big0, ASCII_A);
      Memset(ram, y.big0, ASCII_A, 16);
      m2 := ram[..];
      FilledIsMark(m2, y.big1, ASCII_B);
      Memset(ram, y.big1, ASCII_B, 16);
    }
    MarksCompose(m0, m1, m2, ram[..], y, n);
    MarksAreSeen(m0, ram[..], y, n);
  }

  /** The marks of a number survive the marks of another. */
  lemma MarksStay(was: seq<byte>, now: seq<byte>, y: Layout, n: nat, m: nat)
    requires LayoutOk(y) && y.high <= |was| && MarkedFrom(was, now, y, n) && Marked(was, y, m) && m < 256
    requires y.bigOn ==> y.targets + 256 * PAGE_4K <= y.big0 || y.big1 + PAGE_2M <= y.targets
    ensures Marked(now, y, m)
  {
    hide LayoutOk;
    MarksFit(y, m);
    MarksFit(y, n);
    if m < n { TargetsApart(y, m, n); } else if n < m { TargetsApart(y, n, m); }
    if m == n { MarksAreSeen(was, now, y, n); }
  }

  /** The static memory of a CPU before the first build: two empty roots, neither marked as built. */
  ghost predicate AtBoot(ctx0: Context, ctx1: Context, eptValid: array<bool>, ram: array<byte>, layout: Layout)
    reads ctx0.Footprint(), ctx1.Footprint(), eptValid
  {
    && ctx0.Footprint() !! ctx1.Footprint()
    && {eptValid, ram} !! ctx0.Footprint() + ctx1.Footprint()
    && eptValid.Length == 2 && !eptValid[0] && !eptValid[1] && LayoutOk(layout) && layout.high <= ram.Length
    && (layout.bigOn ==> layout.targets + 256 * PAGE_4K <= layout.big0 || layout.big1 + PAGE_2M <= layout.targets)
    && EmptyRoot(ctx0) && EmptyRoot(ctx1)
  }

  ghost predicate EmptyRoot(ctx: Context)
    reads ctx.Footprint()
  {
    ctx.t == Ept && |ctx.pool| == 128 && ctx.Valid() && Empty(ctx.Cfg(), ctx.Snap())
  }

  /** A translation to `pa` with all rights and the memory type `pmt`. */
  ghost predicate GoesTo(m: Option<Phys>, pa: int, pmt: nat) {
    m.Some? && m.value.pa == pa && m.value.prot == PROT_RWX && m.value.pmt == pmt
  }

  /** What number `n` demands of the translation `m` of `va`. */
  ghost predicate Demanded(y: Layout, n: nat, va: u64, m: Option<Phys>) {
    if y.bigOn && y.big0 <= va < y.big0 + 0x20_0000 then GoesTo(m, va + 0x20_0000, 6)
    else if y.bigOn && y.big1 <= va < y.big1 + 0x20_0000 then GoesTo(m, va - 0x20_0000, 6)
    else if 0x1234_0000 <= va < 0x1234_1000 then
      if n == 0 then m == None else GoesTo(m, y.targets + n * 0x1000 + (va - 0x1234_0000), 6)
    else if y.low <= va < y.high || 0xFEE0_0000 <= va < 0xFEE0_1000 || va < 0x10_0000 then
      GoesTo(m, va, y.memType(va - va % 0x1000))
    else m == None
  }

  class EptCpu {
    const ctx0: Context
    const ctx1: Context
    const eptValid: array<bool>
    const ram: array<byte>
    const layout: Layout
    // Numbers of all builds so far.
    ghost var history: seq<nat>

    function Ctx(k: nat): Context {
      if k == 0 then ctx0 else ctx1
    }

    /** Number of the last build of root `k`, if it was built. */
    static ghost function LastBuild(h: seq<nat>, k: nat): Option<nat>
      decreases |h|
    {
      if h == [] then None
      else if h[|h| - 1] / 16 == k then Some(h[|h| - 1])
      else LastBuild(h[..|h| - 1], k)
    }

    ghost function Footprint(): set<object> {
      {this, eptValid, ram} + ctx0.Footprint() + ctx1.Footprint()
    }

    ghost predicate Static() {
      && ctx0.Footprint() !! ctx1.Footprint()
      && {this, eptValid, ram} !! ctx0.Footprint() + ctx1.Footprint()
      && eptValid.Length == 2 && LayoutOk(layout) && layout.high <= ram.Length
      && (layout.bigOn ==> layout.targets + 256 * PAGE_4K <= layout.big0 || layout.big1 + PAGE_2M <= layout.targets)
      && ctx0.t == ctx1.t == Ept && |ctx0.pool| == |ctx1.pool| == 128
    }

    /** Root `k` is as all builds so far left it. */
    ghost predicate RootOk(k: nat)
      requires k < 2 && Static()
      reads Footprint()
    {
      Ctx(k).Valid() && AsBuilt(Ctx(k).Cfg(), Ctx(k).Snap(), layout, eptValid[k], LastBuild(history, k))
    }

    /** Every number built so far has its marks. */
    ghost predicate MarksKept()
      reads this, ram
    {
      forall n :: n in history ==> n < 256 && Marked(ram[..], layout, n)
    }

    ghost predicate Valid()
      reads Footprint()
    {
      Static() && RootOk(0) && RootOk(1) && MarksKept()
    }

    /** The address translation of root `k`, as its tables in memory give it. */
    ghost function GuestMaps(k: nat, va: u64): Option<Phys>
      reads Footprint()
    {
      Maps(Ctx(k).Cfg(), Ctx(k).Snap(), va)
    }

    /** A byte that the guest reads under root `k`. */
    ghost function GuestReads(k: nat, va: u64): Option<byte>
      reads Footprint()
    {
      match GuestMaps(k, va)
      case None => None
      case Some(m) => if m.pa < ram.Length then Some(ram[m.pa]) else None
    }

    constructor (ctx0: Context, ctx1: Context, eptValid: array<bool>, ram: array<byte>, layout: Layout)
      requires AtBoot(ctx0, ctx1, eptValid, ram, layout)
      ensures Valid() && history == []
      ensures this.ctx0 == ctx0 && this.ctx1 == ctx1 && this.layout == layout
    {
      hide Empty, Unbuilt, IsTree, LayoutOk, Context.Tabs, Context.Separate;
      this.ctx0, this.ctx1, this.eptValid, this.ram := ctx0, ctx1, eptValid, ram;
      this.layout, this.history := layout, [];
      new;
      EmptyIsUnbuilt(ctx0.Cfg(), ctx0.Snap());
      EmptyIsUnbuilt(ctx1.Cfg(), ctx1.Snap());
    }

    /** Records the build and marks the pages that the guest will read. */
    method WriteMarks(n: nat)
      requires Static() && n < 256 && MarksKept()
      modifies ram, this`history
      ensures history == old(history) + [n] && Marked(ram[..], layout, n) && MarksKept()
      ensures MarkedFrom(old(ram[..]), ram[..], layout, n)
      ensures ctx0.Snap() == old(ctx0.Snap()) && ctx1.Snap() == old(ctx1.Snap())
    {
      hide LayoutOk, Marked, MarkedFrom;
      history := history + [n];
      FillMarks(ram, layout, n);
      forall m | m in old(history) ensures Marked(ram[..], layout, m) {
        MarksStay(old(ram[..]), ram[..], layout, n, m);
      }
    }

    /** shv_build_ept.  Never fails; root `n / 16` then maps as number `n` demands, whatever was
        built before, and the other root is untouched; a root built earlier allocates nothing. */
    method BuildEpt(n: nat) returns (rootPa: u64)
      requires Valid() && n < 32
      modifies eptValid, ram, this`history
      modifies Ctx(n / 16)`own, Ctx(n / 16).pageAlloc, Ctx(n / 16).Arrays()
      ensures Valid() && history == old(history) + [n] && rootPa == Ctx(n / 16).root
      ensures Ctx(1 - n / 16).Snap() == old(Ctx(1 - n / 16).Snap())
      ensures old(eptValid[n / 16]) ==> Ctx(n / 16).pageAlloc[..] == old(Ctx(n / 16).pageAlloc[..])
      ensures MapsAs(Ctx(n / 16).Cfg(), Ctx(n / 16).Snap(), layout, n)
      ensures MarkedFrom(old(ram[..]), ram[..], layout, n) && GuestTest(n)
    {
      hide MarkedFrom, Unbuilt, Built, IsTree, MapsAs, Expected, Maps, GuestTest, LayoutOk, AsBuilt;
      var k := n / 16;
      ghost var other, s1 := Ctx(1 - k), Ctx(1 - k).Snap();
      ghost var bytes := ram[..];
      Rebuild(k, n);
      assert ram[..] == bytes;
      ghost var s := Ctx(k).Snap();
      WriteMarks(n);
      assert Ctx(k).Snap() == s && other.Snap() == s1;
      Recorded(old(history), n);
      assert RootOk(k) && RootOk(1 - k);
      GuestBytes(n);
      rootPa := Ctx(k).root;
    }

    lemma Recorded(h: seq<nat>, n: nat)
      ensures LastBuild(h + [n], n / 16) == Some(n)
      ensures forall k :: 0 <= k < 2 && k != n / 16 ==> LastBuild(h + [n], k) == LastBuild(h, k)
    {
      assert (h + [n])[..|h|] == h;
    }

    /** The part of a build that changes tables. */
    method Rebuild(k: nat, n: nat)
      requires Static() && k < 2 && n < 256 && RootOk(k) && Ctx(1 - k).Valid()
      modifies eptValid, Ctx(k)`own, Ctx(k).pageAlloc, Ctx(k).Arrays()
      ensures Ctx(k).Valid() && AsBuilt(Ctx(k).Cfg(), Ctx(k).Snap(), layout, eptValid[k], Some(n))
      ensures MapsAs(Ctx(k).Cfg(), Ctx(k).Snap(), layout, n)
      ensures Ctx(1 - k).Valid() && Ctx(1 - k).Snap() == old(Ctx(1 - k).Snap())
      ensures eptValid[1 - k] == old(eptValid[1 - k])
      ensures old(eptValid[k]) ==> Ctx(k).pageAlloc[..] == old(Ctx(k).pageAlloc[..])
    {
      hide Unbuilt, Built, IsTree, MapsAs, Expected, Maps, LayoutOk, Context.Tabs, Context.Separate;
      var ctx := Ctx(k);
      ghost var other, s0, s1 := Ctx(1 - k), ctx.Snap(), Ctx(1 - k).Snap();
      ghost var last := LastBuild(history, k);
      var built := eptValid[k];
      eptValid[k] := true;
      assert ctx.Snap() == s0 && other.Snap() == s1;
      BuildTables(ctx, layout, built, last.GetOr(0), n);
      assert other.Snap() == s1;
      BuiltMaps(ctx.Cfg(), ctx.Snap(), layout, n);
    }

    /** What the guest test asserts after switching to number `n`: four bytes of TARGET_VA read as
        `n` (or the page is not mapped, for 0), and the first bytes of the large pages are swapped. */
    ghost predicate GuestTest(n: nat)
      reads Footprint()
    {
      && (n == 0 ==> GuestMaps(0, TARGET_VA) == None)
      && (0 < n < 256 ==> forall va: u64 | TARGET_VA <= va < TARGET_VA + 4 :: GuestReads(n / 16, va) == Some(n))
      && (layout.bigOn ==>
            GuestReads(n / 16, layout.big0) == Some(ASCII_B) && GuestReads(n / 16, layout.big1) == Some(ASCII_A))
    }

    lemma GuestBytes(n: nat)
      requires Static() && n < 32
      requires MapsAs(Ctx(n / 16).Cfg(), Ctx(n / 16).Snap(), layout, n)
      requires Marked(ram[..], layout, n)
      ensures GuestTest(n)
    {
      hide Maps;
      var c, s := Ctx(n / 16).Cfg(), Ctx(n / 16).Snap();
      assert MapsTo(c, s, TARGET_VA, Expected(layout, n, TARGET_VA));
      forall va: u64 | n != 0 && TARGET_VA <= va < TARGET_VA + 4 ensures GuestReads(n / 16, va) == Some(n) {
        assert MapsTo(c, s, va, Expected(layout, n, va));
      }
      if layout.bigOn {
        assert MapsTo(c, s, layout.big0, Expected(layout, n, layout.big0));
        assert MapsTo(c, s, layout.big1, Expected(layout, n, layout.big1));
      }
    }

    lemma {:induction false} LastIsBuilt(h: seq<nat>, k: nat)
      ensures LastBuild(h, k).Some? ==> LastBuild(h, k).value in h && LastBuild(h, k).value / 16 == k
      decreases |h|
    {
      if h == [] {
      } else {
        LastIsBuilt(h[..|h| - 1], k);
      }
    }

    /** In every reachable state each root passes the guest test of its own last build, whatever was built in the
        other root since. */
    lemma BothRootsPass(k: nat)
      requires Valid() && k < 2 && LastBuild(history, k).Some?
      ensures LastBuild(history, k).value / 16 == k && GuestTest(LastBuild(history, k).value)
    {
      hide MapsAs, Marked, LayoutOk, Built, GuestTest;
      var n := LastBuild(history, k).value;
      LastIsBuilt(history, k);
      assert RootOk(k) && Marked(ram[..], layout, n);
      BuiltMaps(Ctx(k).Cfg(), Ctx(k).Snap(), layout, n);
      GuestBytes(n);
    }

    /** So under either root the guest reads the number of the last build of that root. */
    lemma OwnNumberIsRead(k: nat, va: u64)
      requires Valid() && k < 2 && LastBuild(history, k).Some? && LastBuild(history, k).value != 0
      requires TARGET_VA <= va < TARGET_VA + 4
      ensures GuestReads(k, va) == Some(LastBuild(history, k).value)
    {
      hide Static, RootOk, MarksKept;
      BothRootsPass(k);
    }

    /** Any sequence of builds. */
    method BuildMany(nums: seq<nat>)
      requires Valid() && forall i :: 0 <= i < |nums| ==> nums[i] < 32
      modifies Footprint()
      ensures Valid() && history == old(history) + nums
    {
      hide Static, RootOk, GuestTest, MapsAs, LastBuild;
      var i := 0;
      while i < |nums|
        invariant 0 <= i <= |nums| && Valid() && history == old(history) + nums[..i]
      {
        var rootPa := BuildEpt(nums[i]);
        i := i + 1;
      }
    }

    /** In every reachable state each root built so far maps every address as its last build demands: the large
        pages are swapped, 0x12340000 leads to the page of the number, and the identity part has the memory type
        of each page; a root not built yet maps nothing. */
    lemma EveryRun(k: nat, va: u64)
      requires Valid() && k < 2 && va < 0x1_0000_0000_0000
      ensures match LastBuild(history, k)
        case None => GuestMaps(k, va) == None
        case Some(n) => Demanded(layout, n, va, GuestMaps(k, va))
    {
      hide Maps, FullRights, Tight, Open, IsTree, Context.Arrays;
      assert RootOk(k);
      match LastBuild(history, k)
      case None =>
      case Some(n) => assert MapsTo(Ctx(k).Cfg(), Ctx(k).Snap(), va, Expected(layout, n, va));
    }

    /** The guest's request to switch (the VM-exit handler of shv_guest_switch_ept), then its test. */
    method SwitchEpt(eptNum: nat) returns (next: nat, rootPa: u64)
      requires Valid() && eptNum < 32
      modifies Footprint()
      ensures Valid() && next == (eptNum + 1) % 32 && history == old(history) + [next]
      ensures rootPa == Ctx(next / 16).root && GuestTest(next)
    {
      hide Static, RootOk, GuestTest, MapsAs;
      next := eptNum + 1;
      next := next % 32;
      rootPa := BuildEpt(next);
    }
  }

  /** A root with tables `s`: not built yet, or built last with number `last.value`. */
  ghost predicate AsBuilt(c: Config, s: State, y: Layout, valid: bool, last: Option<nat>) {
    match last
    case None => !valid && Unbuilt(c, s)
    case Some(n) => valid && Built(c, s, y, n)
  }

  lemma BuiltMaps(c: Config, s: State, y: Layout, n: nat)
    requires Built(c, s, y, n)
    ensures MapsAs(c, s, y, n)
  {
  }

  /** The table part of shv_build_ept. */
  method BuildTables(ctx: Context, y: Layout, built: bool, ghost last: nat, n: nat)
    requires ctx.Valid() && ctx.t == Ept && |ctx.pool| == 128 && LayoutOk(y) && n < 256
    requires if built then Built(ctx.Cfg(), ctx.Snap(), y, last) else Unbuilt(ctx.Cfg(), ctx.Snap())
    modifies ctx`own, ctx.pageAlloc, ctx.Arrays()
    ensures ctx.Valid() && Built(ctx.Cfg(), ctx.Snap(), y, n)
    ensures built ==> ctx.pageAlloc[..] == old(ctx.pageAlloc[..])
  {
    hide IsPage, GetProt, IsTree, FullRights, Tight, Maps, Open, Inserted, SwapDone, CanInsert, Base, IsPointer,
         SetProt, SetUser;
    hide MapsAs, LayoutOk;
    ghost var c := ctx.Cfg();
    LeafEntry();
    var pme := SetUser(Ept, 1, 0, true);
    pme := SetProt(Ept, 1, pme, PROT_RWX);
    ghost var s := ctx.Snap();
    if !built {
      ghost var used;
      pme, used := MapIdentity(ctx, pme, y);
      s := ctx.Snap();
      BudgetCanInsert(c, s, used, TARGET_VA);
    } else {
      BuiltIsBase(c, s, y, last);
      OpenCanInsert(c, s, TARGET_VA, 1);
    }
    MapTarget(ctx, pme, y, n);
    ghost var s1 := ctx.Snap();
    if y.bigOn {
      SwapStart(c, s, s1, y, n);
      SwapBig(ctx, y);
    } else {
      NoSwap(c, s1, y);
    }
    StagesGiveMap(c, s, s1, ctx.Snap(), y, n);
    StagesOpen(c, s, s1, ctx.Snap(), y, n);
  }

  lemma EmptyIsUnbuilt(c: Config, s: State)
    requires Empty(c, s)
    ensures Unbuilt(c, s)
  {
    hide IsPage, IsPresent, PointsWell, GetAddress, GetProt, Lookup;
    EmptyIsTight(c, s);
    ZeroEntry(c.t, MaxLvl(c.t));
    forall va: u64 ensures Maps(c, s, va) == None {
      InTree0(c, s);
      InTree(c, s, c.root);
      LookupStep(c.t, s.tabs, c.root, MaxLvl(c.t), va);
    }
    forall p, k | p in s.own && 0 <= k < |s.tabs[p]| ensures FullEntry(c, s, p, k) {
      assert InUse(c, s, p);
    }
  }

  lemma LeafEntry()
    ensures var e := SetProt(Ept, 1, SetUser(Ept, 1, 0, true), PROT_RWX);
      IsPage(Ept, 1, e) && GetProt(Ept, 1, e) == PROT_RWX
  {
    hide SetProt, GetProt, SetUser, GetAddress, GetPmt;
    SetProtLaw(Ept, 1, SetUser(Ept, 1, 0, true), PROT_RWX);
  }

  lemma SwapStart(c: Config, s: State, s1: State, y: Layout, n: nat)
    requires c.t == Ept && LayoutOk(y) && n < 256 && y.bigOn
    requires Inserted(c, s, s1, 1, TARGET_VA, TargetValue(y, n))
    requires Open(c, s, y.big0, 2) && Open(c, s, y.big1, 2)
    ensures FullRights(c, s1) && Open(c, s1, y.big0, 2) && Open(c, s1, y.big1, 2)
  {
    hide Maps, Open, Region, FullRights;
  }

  lemma NoSwap(c: Config, s: State, y: Layout)
    requires !y.bigOn
    ensures SwapDone(c, s, s, y)
  {
  }
}
