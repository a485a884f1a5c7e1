/** Checked access through page tables, on values: which physical bytes a range of virtual addresses
    stands for, and why chunks that end at page ends are whole.
 */
module Access {
  import opened Bitfield
  import opened Hpt
  import opened PageWalk
  import opened LibcString

  /** Tables as a context sees them. */
  datatype View = View(t: HptType, tabs: Tables, root: u64)

  function RootWalk(v: View, va: u64): Walked {
    Walk(v.t, v.tabs, v.root, MaxLvl(v.t), va)
  }

  /** Least rights of the walk; none if a table could not be read. */
  function EffectiveProts(w: Walked): Prot {
    match w
    case NoTable => PROT_NONE
    case Stop(_, _, p, _) => p
  }

  predicate EndsPresent(t: HptType, w: Walked) {
    w.Stop? && LvlIsValid(t, w.lvl) && IsPresent(t, w.lvl, w.entry)
  }

  /** The access is allowed: the walk meets no error, ends at a present entry, the rights asked for
      are among the effective rights, and user code meets user entries only. */
  predicate Permits(t: HptType, w: Walked, access: u64, cpl: nat) {
    EndsPresent(t, w) && And(access, EffectiveProts(w)) == access && (cpl == 0 || w.user)
  }

  /** Physical address of one byte under an access check. */
  function PaOf(v: View, access: u64, cpl: nat, va: u64): Option<u64> {
    var w := RootWalk(v, va);
    if Permits(v.t, w, access, cpl) then
      WalkStops(v.t, v.tabs, v.root, MaxLvl(v.t), va);
      Some(VaToPa(v.t, w.lvl, w.entry, va))
    else None
  }

  // ----- a page is contiguous -----

  /** The bytes left on the page are computed from the physical address.  They end with the page iff page and
      offset together do not reach beyond one page size. */
  predicate StaysOnPage(t: HptType, l: nat, e: u64, va: u64)
    requires LvlIsValid(t, l)
  {
    GetAddress(t, l, e) % Span(t, l) + va % Span(t, l) < Span(t, l)
  }

  predicate FitsAt(v: View, va: u64) {
    var w := RootWalk(v, va);
    EndsPresent(v.t, w) ==> StaysOnPage(v.t, w.lvl, w.entry, va)
  }

  ghost predicate RangeFits(v: View, base: u64, n: nat) {
    forall i: nat :: i < n ==> FitsAt(v, VaAt(base, i))
  }

  /** Addresses of the region of the last entry have the same walk. */
  lemma {:induction false} SameRegionWalk(t: HptType, tabs: Tables, pm: u64, lvl: nat, va: u64, va0: u64)
    requires LvlIsValid(t, lvl)
    requires var w := Walk(t, tabs, pm, lvl, va);
      w.Stop? && LvlIsValid(t, w.lvl) && Region(t, w.lvl, va) == Region(t, w.lvl, va0)
    ensures Walk(t, tabs, pm, lvl, va0) == Walk(t, tabs, pm, lvl, va)
    decreases lvl
  {
    hide GetAddress, IsPage, IsPresent, GetPmIdx, Region, GetProt, GetUser, And;
    var w := Walk(t, tabs, pm, lvl, va);
    WalkStops(t, tabs, pm, lvl, va);
    RegionsAbove(t, lvl, w.lvl, va, va0);
    RegionsAbove(t, lvl + 1, w.lvl, va, va0);
    SameRegion(t, lvl, va, va0);
    var e := EntryOf(t, tabs, pm, lvl, va);
    if IsPointer(t, lvl, e) {
      PointerAboveOne(t, lvl, e);
      SameRegionWalk(t, tabs, GetAddress(t, lvl, e), lvl - 1, va, va0);
    }
  }

  /** Moving on within a page stays in its region. */
  lemma StaysInRegion(t: HptType, lvl: nat, va: u64, k: nat)
    requires LvlIsValid(t, lvl) && va % Span(t, lvl) + k < Span(t, lvl)
    ensures va + k < 0x1_0000_0000_0000_0000
    ensures Region(t, lvl, (va + k) as u64) == Region(t, lvl, va) && (va + k) % Span(t, lvl) == va % Span(t, lvl) + k
  {
    hide Span;
    var a, top := Span(t, lvl), Span(t, MaxLvl(t) + 1);
    SpansDivide(t, lvl);
    Within(va, a, top / a, top, k);
    WordSpan(t, lvl);
    Within(va, a, 0x1_0000_0000_0000_0000 / a, 0x1_0000_0000_0000_0000, k);
    var q := va / 0x1_0000_0000_0000_0000;
  }

  lemma WordSpan(t: HptType, lvl: nat)
    requires LvlIsValid(t, lvl)
    ensures Span(t, lvl) * (0x1_0000_0000_0000_0000 / Span(t, lvl)) == 0x1_0000_0000_0000_0000
  {
  }

  lemma RoomLeft(a: nat, m: nat, j: nat, s: nat, k: nat)
    requires j * a + s < a * m && s + k < a
    ensures j * a + s + k < a * m
  {
    if j >= m {
      MulOrder(m, j, a);
    } else {
      MulOrder(j + 1, m, a);
    }
  }

  lemma AddWithin(x: nat, a: nat, k: nat)
    requires a >= 1 && x % a + k < a
    ensures (x + k) / a == x / a && (x + k) % a == x % a + k
  {
    var q, r := x / a, x % a;
    ModUnique(x + k, a, q, r + k);
  }

  lemma Within(x: nat, a: nat, m: nat, top: nat, k: nat)
    requires a >= 1 && m >= 1 && top >= 1 && top == a * m && x % a + k < a
    ensures x % top + k < top
    ensures (x + k) % top / a == x % top / a && (x + k) % a == x % a + k
  {
    var y := x % top;
    ModMod(x, a, m, top);
    var j, s := y / a, y % a;
    RoomLeft(a, m, j, s, k);
    AddWithin(x, top, k);
    AddWithin(y, a, k);
    AddWithin(x, a, k);
  }

  /** Addresses of entries leave room for the offset in a page. */
  lemma AddressBound(t: HptType, lvl: nat, e: u64)
    requires LvlIsValid(t, lvl)
    ensures GetAddress(t, lvl, e) < 0x1000_0000_0000_0000
  {
    var a, w := GetAddress(t, lvl, e), 60;
    Pow2Add(w - 8, 8);
    Pow2Is(w - 8);
    forall i: nat
      ensures Bit(a, i) <==> Bit(a % Pow2(w), i)
    {
      ModBit(a, w, i);
      if i >= w { NoHighDigit(t, lvl, e, i); }
    }
    SameBits(a, a % Pow2(w));
  }

  lemma NoHighDigit(t: HptType, lvl: nat, e: u64, i: nat)
    requires LvlIsValid(t, lvl) && i >= 60
    ensures !Bit(GetAddress(t, lvl, e), i)
  {
    hide IsPage, Bit, CopyBits, GetAddress;
    if Is4MPage(t, lvl, e) {
      BigPageBit(e, i);
    } else {
      GetAddressBit(t, lvl, e, i);
    }
  }

  /** Within a page, physical addresses go up with virtual ones. */
  lemma PageOffsets(t: HptType, l: nat, e: u64, va: u64, k: nat)
    requires LvlIsValid(t, l) && IsPage(t, l, e) && k < Span(t, l) - va % Span(t, l)
    ensures va + k < 0x1_0000_0000_0000_0000 && Region(t, l, (va + k) as u64) == Region(t, l, va)
    ensures VaToPa(t, l, e, (va + k) as u64) == VaToPa(t, l, e, va) + k
  {
    hide GetAddress, IsPage, Region, Span, OffsetIn, VaToPa;
    VaToPaIs(t, l, e, va);
    StaysInRegion(t, l, va, k);
    VaToPaIs(t, l, e, (va + k) as u64);
  }

  /** The bytes said to be left on the page are on the page iff the page begins low enough. */
  lemma ChunkExactly(t: HptType, l: nat, e: u64, va: u64)
    requires LvlIsValid(t, l) && IsPage(t, l, e)
    ensures RemainingOnPage(t, l, VaToPa(t, l, e, va)) <= Span(t, l) - va % Span(t, l) <==> StaysOnPage(t, l, e, va)
  {
    hide GetAddress, IsPage, Span, OffsetIn, VaToPa;
    var a, m, r := GetAddress(t, l, e), Span(t, l), va % Span(t, l);
    OffsetIsRemainder(t, l, VaToPa(t, l, e, va));
    VaToPaIs(t, l, e, va);
    SumMod(a, m, r);
  }

  lemma SumMod(a: nat, m: nat, r: nat)
    requires m >= 1 && r < m
    ensures (a + r) % m == if a % m + r < m then a % m + r else a % m + r - m
  {
    var q, x := a / m, a % m;
    assert a == q * m + x;
    if x + r < m {
      ModUnique(a + r, m, q, x + r);
    } else {
      assert (q + 1) * m == q * m + m;
      ModUnique(a + r, m, q + 1, x + r - m);
    }
  }

  /** So it is at all addresses of a page iff the page begins at a multiple of its size. */
  lemma AlignedExactly(t: HptType, l: nat, e: u64)
    requires LvlIsValid(t, l)
    ensures (forall va: u64 :: StaysOnPage(t, l, e, va)) <==> GetAddress(t, l, e) % Span(t, l) == 0
  {
    hide GetAddress, Span;
    SpanBound(t, l);
    var last: u64 := Span(t, l) - 1;
    ModUnique(last, Span(t, l), 0, last);
    assert StaysOnPage(t, l, e, last) <==> GetAddress(t, l, e) % Span(t, l) == 0;
  }

  /** Pages of 4 KB, and of 4 MB in 32-bit paging, do begin there. */
  lemma AlignedAlways(t: HptType, l: nat, e: u64)
    requires LvlIsValid(t, l) && IsPage(t, l, e) && (l == 1 || t == Norm)
    ensures GetAddress(t, l, e) % Span(t, l) == 0
  {
    hide GetAddress, IsPage, Bit;
    var a, w := GetAddress(t, l, e), if l == 1 then 12 else 22;
    SpanIs(t, l, w);
    forall i: nat
      ensures Bit(a % Pow2(w), i) <==> Bit(0, i)
    {
      ModBit(a, w, i);
      ZeroBits(i);
      if Is4MPage(t, l, e) {
        BigPageBit(e, i);
      } else {
        GetAddressBit(t, l, e, i);
      }
    }
    SameBits(a % Pow2(w), 0);
  }

  lemma SpanIs(t: HptType, l: nat, w: nat)
    requires LvlIsValid(t, l) && (if l == 1 then w == 12 else t == Norm && w == 22)
    ensures Span(t, l) == Pow2(w)
  {
    Pow2Is(w);
  }

  /** A 2 MB page whose entry says 0x2000: at its last byte, more than that byte is said to be left. */
  lemma UnalignedPage()
    ensures var e: u64, va: u64 := 0x2081, 0x1F_FFFF;
      && IsPage(Pae, 2, e) && IsPresent(Pae, 2, e) && GetAddress(Pae, 2, e) == 0x2000
      && Span(Pae, 2) == va + 1 && RemainingOnPage(Pae, 2, VaToPa(Pae, 2, e, va)) > 1
  {
    hide IsPage, IsPresent, GetAddress, GetBit, OffsetIn, VaToPa, Bit;
    var e: u64, va: u64, w := 0x2081, 0x1F_FFFF, 13;
    forall i: nat ensures Bit(e, i) <==> i == 0 || i == 7 || i == w { SampleBits(i); }
    GetBitIsBit(e, 7);
    LargeFlag(e);
    PresentIsDigits(Pae, 2, e);
    forall i: nat ensures Bit(GetAddress(Pae, 2, e), i) <==> Bit(Pow2(w), i) {
      GetAddressBit(Pae, 2, e, i);
      Pow2Bit(w, i);
    }
    SameBits(GetAddress(Pae, 2, e), Pow2(w));
    Pow2Is(w);
    ChunkExactly(Pae, 2, e, va);
  }

  lemma LargeFlag(e: u64)
    ensures IsPage(Pae, 2, e) <==> GetBit(e, 7)
    ensures Span(Pae, 2) == 0x20_0000
  {
  }

  /** The sum of address and offset does not wrap. */
  lemma VaToPaIs(t: HptType, l: nat, e: u64, va: u64)
    requires LvlIsValid(t, l) && IsPage(t, l, e)
    ensures VaToPa(t, l, e, va) == GetAddress(t, l, e) + va % Span(t, l)
  {
    hide GetAddress, IsPage, Span, OffsetIn;
    AddressBound(t, l, e);
    SpanBound(t, l);
    OffsetIsRemainder(t, l, va);
  }

  /** All bytes from `va` to the end of its page are allowed alike and contiguous in memory. */
  lemma PageIsContiguous(v: View, access: u64, cpl: nat, va: u64, k: nat)
    requires FitsAt(v, va) && PaOf(v, access, cpl, va).Some?
    requires k < RemainingOnPage(v.t, RootWalk(v, va).lvl, PaOf(v, access, cpl, va).value)
    ensures va + k < 0x1_0000_0000_0000_0000
    ensures PaOf(v, access, cpl, (va + k) as u64) == Some(PaOf(v, access, cpl, va).value + k)
  {
    hide GetAddress, IsPage, IsPresent, Region, Span, Walk, And, VaToPa, RemainingOnPage;
    var w := RootWalk(v, va);
    WalkStops(v.t, v.tabs, v.root, MaxLvl(v.t), va);
    ChunkExactly(v.t, w.lvl, w.entry, va);
    PageOffsets(v.t, w.lvl, w.entry, va, k);
    SameRegionWalk(v.t, v.tabs, v.root, MaxLvl(v.t), va, (va + k) as u64);
  }

  lemma SpanBound(t: HptType, lvl: nat)
    requires LvlIsValid(t, lvl)
    ensures Span(t, lvl) <= 0x80_0000_0000
  {
  }

  // ----- the fold and the early exit -----

  /** What one pointer entry adds to the walk below it. */
  function Through(p: Prot, u: bool, w: Walked): Walked {
    match w
    case NoTable => NoTable
    case Stop(l, e, q, v) => Stop(l, e, And(p, q), u && v)
  }

  /** Checking entry by entry allows what the whole walk allows. */
  lemma PermitsThrough(t: HptType, access: u64, cpl: nat, p: Prot, u: bool, w: Walked)
    ensures And(access, p) == access && (cpl == 0 || u) ==>
      Permits(t, Through(p, u, w), access, cpl) == Permits(t, w, access, cpl)
    ensures !(And(access, p) == access && (cpl == 0 || u)) ==> !Permits(t, Through(p, u, w), access, cpl)
  {
    hide IsPresent, And;
    if w.Stop? { AndSubset(access, p, w.prot); }
  }

  lemma AndSubset(a: nat, p: nat, q: nat)
    ensures And(a, And(p, q)) == a <==> And(a, p) == a && And(a, q) == a
  {
    hide And, Bit;
    if And(a, And(p, q)) == a {
      forall i: nat
        ensures Bit(And(a, p), i) <==> Bit(a, i)
        ensures Bit(And(a, q), i) <==> Bit(a, i)
      {
        AndBit(a, And(p, q), i); AndBit(p, q, i); AndBit(a, p, i); AndBit(a, q, i);
      }
      SameBits(And(a, p), a);
      SameBits(And(a, q), a);
    } else if And(a, p) == a && And(a, q) == a {
      AndAssoc(a, p, q);
    }
  }

  /** The entry grants every right asked for, and user code access if that asks. */
  predicate Grants(t: HptType, l: nat, e: u64, access: u64, cpl: nat)
    requires LvlIsValid(t, l)
  {
    And(access, GetProt(t, l, e)) == access && (cpl == 0 || GetUser(t, l, e))
  }

  /** Every digit of `x` is one of `y`. */
  ghost predicate DigitsAmong(x: nat, y: nat) {
    forall i: nat :: Bit(x, i) ==> Bit(y, i)
  }

  lemma AndAmong(x: nat, y: nat)
    ensures And(x, y) == x <==> DigitsAmong(x, y)
  {
    if And(x, y) == x {
      forall i: nat | Bit(x, i) ensures Bit(y, i) { AndBit(x, y, i); }
    } else if DigitsAmong(x, y) {
      forall i: nat ensures Bit(And(x, y), i) <==> Bit(x, i) { AndBit(x, y, i); }
      SameBits(And(x, y), x);
    }
  }

  /** The rights asked for are digits of the rights of the entry. */
  lemma GrantsDigits(t: HptType, l: nat, e: u64, access: u64, cpl: nat)
    requires LvlIsValid(t, l)
    ensures Grants(t, l, e, access, cpl) <==>
      DigitsAmong(access, GetProt(t, l, e)) && (cpl == 0 || GetUser(t, l, e))
  {
    hide And, GetProt, GetUser, DigitsAmong;
    AndAmong(access, GetProt(t, l, e));
  }

  /** The entry of level `l` on the way to `va`, if there is one, can be read and grants the access. */
  ghost predicate GrantsAt(t: HptType, tabs: Tables, pm: u64, lvl: nat, va: u64, l: nat, access: u64, cpl: nat)
    requires LvlIsValid(t, lvl) && LvlIsValid(t, l)
  {
    match TableAt(t, tabs, pm, lvl, va, l)
    case None => true
    case Some(p) => Accessible(t, tabs, p, l) && Grants(t, l, EntryOf(t, tabs, p, l, va), access, cpl)
  }

  /** An access is permitted iff the walk ends at a present entry and every entry on the way grants it. */
  lemma {:induction false} PermitsIffAllGrant(t: HptType, tabs: Tables, pm: u64, lvl: nat, va: u64, access: u64,
                                              cpl: nat)
    requires LvlIsValid(t, lvl)
    ensures Permits(t, Walk(t, tabs, pm, lvl, va), access, cpl) <==>
      && EndsPresent(t, Walk(t, tabs, pm, lvl, va))
      && forall l: nat :: 1 <= l <= lvl ==> GrantsAt(t, tabs, pm, lvl, va, l, access, cpl)
    decreases lvl
  {
    hide GetAddress, IsPage, IsPresent, GetPmIdx, GetProt, GetUser, And, TableAt, GrantsAt, Grants, IsPointer, Permits,
         EndsPresent;
    if !Accessible(t, tabs, pm, lvl) {
      assert Walk(t, tabs, pm, lvl, va) == NoTable;
      NoTableRefuses(t, access, cpl);
      return;
    }
    var e := EntryOf(t, tabs, pm, lvl, va);
    GrantsAtStep(t, tabs, pm, lvl, va, lvl, access, cpl);
    if IsPointer(t, lvl, e) {
      PointerAboveOne(t, lvl, e);
      var next, below := GetAddress(t, lvl, e), lvl - 1;
      var w := Walk(t, tabs, next, below, va);
      PermitsIffAllGrant(t, tabs, next, below, va, access, cpl);
      ThroughGrants(t, lvl, e, access, cpl, w);
      assert Walk(t, tabs, pm, lvl, va) == Through(GetProt(t, lvl, e), GetUser(t, lvl, e), w);
      forall l: nat | 1 <= l <= below
        ensures GrantsAt(t, tabs, pm, lvl, va, l, access, cpl) == GrantsAt(t, tabs, next, below, va, l, access, cpl)
      {
        GrantsAtStep(t, tabs, pm, lvl, va, l, access, cpl);
      }
      if !Permits(t, w, access, cpl) && EndsPresent(t, w) {
        var l: nat :| 1 <= l <= below && !GrantsAt(t, tabs, next, below, va, l, access, cpl);
        assert !GrantsAt(t, tabs, pm, lvl, va, l, access, cpl);
      }
    } else {
      StopGrants(t, lvl, e, access, cpl);
      forall l: nat | 1 <= l < lvl ensures GrantsAt(t, tabs, pm, lvl, va, l, access, cpl) {
        GrantsAtStep(t, tabs, pm, lvl, va, l, access, cpl);
      }
    }
  }

  lemma NoTableRefuses(t: HptType, access: u64, cpl: nat)
    ensures !Permits(t, NoTable, access, cpl) && !EndsPresent(t, NoTable)
  {
  }

  lemma ThroughGrants(t: HptType, l: nat, e: u64, access: u64, cpl: nat, w: Walked)
    requires LvlIsValid(t, l)
    ensures var all := Through(GetProt(t, l, e), GetUser(t, l, e), w);
      && (Permits(t, all, access, cpl) <==> Grants(t, l, e, access, cpl) && Permits(t, w, access, cpl))
      && (EndsPresent(t, all) <==> EndsPresent(t, w))
  {
    hide IsPresent, And, GetProt, GetUser;
    PermitsThrough(t, access, cpl, GetProt(t, l, e), GetUser(t, l, e), w);
  }

  lemma StopGrants(t: HptType, l: nat, e: u64, access: u64, cpl: nat)
    requires LvlIsValid(t, l)
    ensures var w := Stop(l, e, GetProt(t, l, e), GetUser(t, l, e));
      Permits(t, w, access, cpl) <==> EndsPresent(t, w) && Grants(t, l, e, access, cpl)
  {
    hide IsPresent, And, GetProt, GetUser;
  }

  lemma GrantsAtStep(t: HptType, tabs: Tables, pm: u64, lvl: nat, va: u64, l: nat, access: u64, cpl: nat)
    requires 1 <= l <= lvl <= MaxLvl(t) && Accessible(t, tabs, pm, lvl)
    ensures var e := EntryOf(t, tabs, pm, lvl, va);
      && (IsPointer(t, lvl, e) ==> lvl > 1)
      && GrantsAt(t, tabs, pm, lvl, va, l, access, cpl) ==
         if l == lvl then Grants(t, lvl, e, access, cpl)
         else if !IsPointer(t, lvl, e) then true
         else GrantsAt(t, tabs, GetAddress(t, lvl, e), lvl - 1, va, l, access, cpl)
  {
    hide GetAddress, IsPage, IsPresent, GetPmIdx, GetProt, GetUser, And, TableAt, Grants, IsPointer;
    PathStep(t, tabs, pm, lvl, va, l);
    if IsPointer(t, lvl, EntryOf(t, tabs, pm, lvl, va)) {
      PointerAboveOne(t, lvl, EntryOf(t, tabs, pm, lvl, va));
    }
  }

  // ----- ranges of virtual addresses -----

  function VaAt(base: u64, i: nat): u64 {
    (base + i) % 0x1_0000_0000_0000_0000
  }

  predicate AllMapped(v: View, access: u64, cpl: nat, base: u64, n: nat) {
    forall i: nat :: i < n ==> PaOf(v, access, cpl, VaAt(base, i)).Some?
  }

  /** Physical addresses of the bytes of a virtual range. */
  function Pas(v: View, access: u64, cpl: nat, base: u64, n: nat): (r: seq<nat>)
    requires AllMapped(v, access, cpl, base, n)
    ensures |r| == n && forall i: nat :: i < n ==> r[i] == PaOf(v, access, cpl, VaAt(base, i)).value
  {
    seq(n, i requires 0 <= i < n => PaOf(v, access, cpl, VaAt(base, i)).value)
  }

  /** The platform's view of physical memory: pointer (here the address itself) and available bytes
      for a request, or no access. */
  type Callback = (u64, nat, u64, nat) -> Option<nat>

  ghost predicate CallbackOk(cb: Callback, memLen: nat) {
    forall pa: u64, sz: nat, access: u64, cpl: nat :: GoodAnswer(cb(pa, sz, access, cpl), pa, sz, memLen)
  }

  predicate GoodAnswer(r: Option<nat>, pa: u64, sz: nat, memLen: nat) {
    match r
    case None => true
    case Some(avail) => (sz >= 1 ==> 1 <= avail <= sz) && pa + avail <= memLen
  }

  /** One checked access: physical address and how many bytes may be used there. */
  function AccessAt(v: View, cb: Callback, access: u64, cpl: nat, va: u64, requested: nat): Option<(u64, nat)> {
    match PaOf(v, access, cpl, va)
    case None => None
    case Some(pa) =>
      WalkStops(v.t, v.tabs, v.root, MaxLvl(v.t), va);
      var rest := RemainingOnPage(v.t, RootWalk(v, va).lvl, pa);
      match cb(pa, if requested < rest then requested else rest, access, cpl)
      case None => None
      case Some(avail) => Some((pa, avail))
  }

  /** The callback is asked for the whole request or for what is left up to the next multiple of the page size,
      with the kind of access and the privilege of the request, and its answer stands. */
  lemma AccessAsks(v: View, cb: Callback, access: u64, cpl: nat, va: u64, requested: nat)
    ensures PaOf(v, access, cpl, va) == None ==> AccessAt(v, cb, access, cpl, va, requested) == None
    ensures PaOf(v, access, cpl, va).Some? ==>
      && RootWalk(v, va).Stop? && LvlIsValid(v.t, RootWalk(v, va).lvl)
      && var pa, page := PaOf(v, access, cpl, va).value, Span(v.t, RootWalk(v, va).lvl);
      var left := page - pa % page;
      var answer := cb(pa, if requested <= left then requested else left, access, cpl);
      AccessAt(v, cb, access, cpl, va, requested) == if answer.None? then None else Some((pa, answer.value))
  {
    hide PaOf, Walk, OffsetIn, Span;
    if PaOf(v, access, cpl, va).Some? {
      PaOfStops(v, access, cpl, va);
      OffsetIsRemainder(v.t, RootWalk(v, va).lvl, PaOf(v, access, cpl, va).value);
    }
  }

  /** The mapped range of `n` bytes goes on for `avail` bytes at `pa`. */
  ghost predicate Extends(v: View, access: u64, cpl: nat, base: u64, n: nat, pa: nat, avail: nat) {
    && AllMapped(v, access, cpl, base, n) && AllMapped(v, access, cpl, base, n + avail)
    && Pas(v, access, cpl, base, n + avail) == Pas(v, access, cpl, base, n) + Range(pa, avail)
  }

  /** A successful access extends a mapped range by the bytes it grants. */
  lemma AccessExtends(v: View, cb: Callback, memLen: nat, access: u64, cpl: nat, base: u64, n: nat, requested: nat,
                      pa: u64, avail: nat)
    requires FitsAt(v, VaAt(base, n)) && CallbackOk(cb, memLen) && requested >= 1 && AllMapped(v, access, cpl, base, n)
    requires AccessAt(v, cb, access, cpl, VaAt(base, n), requested) == Some((pa, avail))
    ensures 1 <= avail <= requested && pa + avail <= memLen && Extends(v, access, cpl, base, n, pa, avail)
  {
    hide PaOf, FitsAt, Walk, RemainingOnPage, Extends, AllMapped, VaAt;
    var va := VaAt(base, n);
    WalkStops(v.t, v.tabs, v.root, MaxLvl(v.t), va);
    PaOfStops(v, access, cpl, va);
    var rest := RemainingOnPage(v.t, RootWalk(v, va).lvl, pa);
    var asked := if requested < rest then requested else rest;
    assert GoodAnswer(cb(pa, asked, access, cpl), pa, asked, memLen);
    forall i: nat | n <= i < n + avail ensures PaOf(v, access, cpl, VaAt(base, i)) == Some(pa + (i - n)) {
      PageIsContiguous(v, access, cpl, va, i - n);
      Wraps(base, n, i - n);
    }
    ExtendsBy(v, access, cpl, base, n, pa, avail);
  }

  lemma ExtendsBy(v: View, access: u64, cpl: nat, base: u64, n: nat, pa: u64, avail: nat)
    requires AllMapped(v, access, cpl, base, n)
    requires forall i: nat | n <= i < n + avail :: PaOf(v, access, cpl, VaAt(base, i)) == Some(pa + (i - n))
    ensures Extends(v, access, cpl, base, n, pa, avail)
  {
    hide PaOf, VaAt;
  }

  lemma PaOfStops(v: View, access: u64, cpl: nat, va: u64)
    requires PaOf(v, access, cpl, va).Some?
    ensures RootWalk(v, va).Stop? && LvlIsValid(v.t, RootWalk(v, va).lvl)
  {
    hide Walk, IsPresent, And;
  }

  lemma Wraps(base: u64, n: nat, k: nat)
    requires VaAt(base, n) + k < 0x1_0000_0000_0000_0000
    ensures VaAt(base, n + k) == VaAt(base, n) + k
  {
  }
}
