/** Page tables laid out as flat arrays: all tables of one level one after the other.  Entry `i` of
    the array of a level belongs to region `i` of that level, so a walk that takes one index digit
    after the other reads the entries with the region numbers of the address.
 */
module FlatTables {
  import opened Bitfield
  import opened Hpt
  import opened PageWalk

  /** All tables of a level: address of the first, and the entries of all. */
  datatype Flat = Flat(base: u64, entries: seq<u64>)

  const PAGE: nat := 0x1000

  /** Memory holds the tables of level `lvl`. */
  ghost predicate Holds(t: HptType, tabs: Tables, lvl: nat, f: Flat) {
    forall r: nat :: TableHeld(t, tabs, lvl, f, r)
  }

  ghost predicate TableHeld(t: HptType, tabs: Tables, lvl: nat, f: Flat, r: nat) {
    var n := Entries(t, lvl);
    (r + 1) * n <= |f.entries| ==>
      && f.base + r * PAGE < 0x10_0000_0000_0000
      && ((f.base + r * PAGE) as u64) in tabs
      && tabs[(f.base + r * PAGE) as u64] == f.entries[r * n..(r + 1) * n]
  }

  /** Entry `i` of level `lvl` points to table `i` of the level below. */
  ghost predicate PointsDown(t: HptType, lvl: nat, e: u64, next: nat, user: bool)
    requires LvlIsValid(t, lvl)
  {
    && IsPointer(t, lvl, e) && GetAddress(t, lvl, e) == next && GetProt(t, lvl, e) == PROT_RWX
    && (user ==> GetUser(t, lvl, e))
  }

  /** A page entry for the region `i` of level `lvl` itself. */
  ghost predicate MapsSelf(t: HptType, lvl: nat, e: u64, i: nat, user: bool)
    requires LvlIsValid(t, lvl)
  {
    && IsPresent(t, lvl, e) && IsPage(t, lvl, e) && GetAddress(t, lvl, e) == i * Span(t, lvl)
    && GetProt(t, lvl, e) == PROT_RWX && GetUser(t, lvl, e) == user
  }

  /** Levels `leaf` to the root of an identity map of the first `count` regions of level `leaf`; `fs`
      is indexed by level. */
  ghost predicate IdentityTables(t: HptType, fs: seq<Flat>, leaf: nat, count: nat, user: bool) {
    && LvlIsValid(t, leaf) && |fs| == MaxLvl(t) + 1 && count <= |fs[leaf].entries|
    && (forall l: nat, i: nat :: leaf <= l <= MaxLvl(t) ==> EntryOk(t, fs, leaf, count, user, l, i))
    && (forall l :: leaf <= l <= MaxLvl(t) ==> |fs[l].entries| % Entries(t, l) == 0)
  }

  ghost predicate EntryOk(t: HptType, fs: seq<Flat>, leaf: nat, count: nat, user: bool, l: nat, i: nat)
    requires LvlIsValid(t, leaf) && |fs| == MaxLvl(t) + 1 && leaf <= l <= MaxLvl(t)
  {
    InMap(t, leaf, count, l, i) ==>
      && i < |fs[l].entries|
      && if l == leaf then MapsSelf(t, l, fs[l].entries[i], i, user)
         else PointsDown(t, l, fs[l].entries[i], fs[l - 1].base + i * PAGE, user)
  }

  /** Region `i` of level `l` meets the mapped range. */
  predicate InMap(t: HptType, leaf: nat, count: nat, l: nat, i: nat)
    requires LvlIsValid(t, leaf) && leaf <= l <= MaxLvl(t)
  {
    i * (Span(t, l) / Span(t, leaf)) < count
  }

  /** The entry that the walk for `va` reads at level `l`. */
  lemma FlatEntry(t: HptType, tabs: Tables, l: nat, f: Flat, va: u64)
    requires LvlIsValid(t, l) && Holds(t, tabs, l, f) && |f.entries| % Entries(t, l) == 0
    requires Region(t, l, va) < |f.entries|
    ensures f.base + Region(t, l + 1, va) * PAGE < 0x10_0000_0000_0000
    ensures var pm := (f.base + Region(t, l + 1, va) * PAGE) as u64;
      Accessible(t, tabs, pm, l) && EntryOf(t, tabs, pm, l, va) == f.entries[Region(t, l, va)]
  {
    hide Region;
    IdxSplits(t, l, va);
    var r, n := Region(t, l + 1, va), Entries(t, l);
    WholeTables(|f.entries|, n, r, GetPmIdx(t, l, va));
    assert TableHeld(t, tabs, l, f, r);
  }

  lemma WholeTables(size: nat, n: nat, r: nat, k: nat)
    requires n >= 1 && size % n == 0 && k < n && r * n + k < size
    ensures (r + 1) * n <= size && (r + 1) * n - r * n == n && r * n >= 0
  {
    var q := size / n;
    assert size == q * n;
    if q <= r { MulOrder(q, r, n); }
    MulOrder(r + 1, q, n);
  }

  /** A walk through identity tables ends at the page of the address itself. */
  lemma {:induction false} FlatWalk(t: HptType, tabs: Tables, fs: seq<Flat>, leaf: nat, count: nat, user: bool,
                                    l: nat, va: u64)
    requires IdentityTables(t, fs, leaf, count, user) && leaf <= l <= MaxLvl(t)
    requires forall k :: leaf <= k <= MaxLvl(t) ==> Holds(t, tabs, k, fs[k])
    requires Region(t, leaf, va) < count
    ensures fs[l].base + Region(t, l + 1, va) * PAGE < 0x10_0000_0000_0000
    ensures Walk(t, tabs, (fs[l].base + Region(t, l + 1, va) * PAGE) as u64, l, va) ==
            Stop(leaf, fs[leaf].entries[Region(t, leaf, va)], PROT_RWX, user)
    decreases l
  {
    hide GetAddress, IsPage, IsPresent, GetProt, GetUser, GetPmIdx, Region, And, Holds, Span;
    MetRegion(t, leaf, count, l, va);
    assert EntryOk(t, fs, leaf, count, user, l, Region(t, l, va));
    FlatEntry(t, tabs, l, fs[l], va);
    if l <= leaf {
    } else {
      FlatWalk(t, tabs, fs, leaf, count, user, l - 1, va);
      AndAll(PROT_RWX);
    }
  }

  lemma MetRegion(t: HptType, leaf: nat, count: nat, l: nat, va: u64)
    requires LvlIsValid(t, leaf) && leaf <= l <= MaxLvl(t) && Region(t, leaf, va) < count
    ensures InMap(t, leaf, count, l, Region(t, l, va))
  {
    var x, a, b := va % Span(t, MaxLvl(t) + 1), Span(t, leaf), Span(t, l);
    SpanRatio(t, leaf, l);
    DivDiv(x, a, b / a, b);
    var q := x / a;
    var m := b / a;
    assert q / m * m <= q;
  }

  lemma SpanRatio(t: HptType, leaf: nat, l: nat)
    requires LvlIsValid(t, leaf) && leaf <= l <= MaxLvl(t)
    ensures Span(t, l) / Span(t, leaf) >= 1 && Span(t, leaf) * (Span(t, l) / Span(t, leaf)) == Span(t, l)
  {
  }

  /** Every address below the limit is mapped to itself with all rights. */
  lemma IdentityMap(t: HptType, tabs: Tables, fs: seq<Flat>, leaf: nat, count: nat, user: bool, va: u64)
    requires IdentityTables(t, fs, leaf, count, user)
    requires forall k :: leaf <= k <= MaxLvl(t) ==> Holds(t, tabs, k, fs[k])
    requires va < count * Span(t, leaf) <= Span(t, MaxLvl(t) + 1)
    ensures match Lookup(t, tabs, fs[MaxLvl(t)].base, MaxLvl(t), va)
      case None => false
      case Some(m) =>
        && LvlIsValid(t, m.lvl) && IsPage(t, m.lvl, m.entry)
        && VaToPa(t, m.lvl, m.entry, va) == va && m.prot == PROT_RWX && m.user == user
  {
    hide GetAddress, IsPage, IsPresent, GetProt, GetUser, GetPmIdx, Holds, OffsetIn, Walk, Region, Span, InMap, MaxLvl;
    OwnRegion(t, leaf, count, va);
    RootRegion(t, va);
    MetRegion(t, leaf, count, leaf, va);
    assert EntryOk(t, fs, leaf, count, user, leaf, Region(t, leaf, va));
    FlatWalk(t, tabs, fs, leaf, count, user, MaxLvl(t), va);
    OffsetIsRemainder(t, leaf, va);
  }

  lemma RootRegion(t: HptType, va: u64)
    ensures Region(t, MaxLvl(t) + 1, va) == 0
  {
  }

  lemma OwnRegion(t: HptType, leaf: nat, count: nat, va: u64)
    requires LvlIsValid(t, leaf) && va < count * Span(t, leaf) <= Span(t, MaxLvl(t) + 1)
    ensures Region(t, leaf, va) < count && Region(t, leaf, va) * Span(t, leaf) + va % Span(t, leaf) == va
  {
    hide Span;
    var a := Span(t, leaf);
    ModUnique(va, Span(t, MaxLvl(t) + 1), 0, va);
    var q := va / a;
    if q >= count { MulOrder(count, q, a); }
  }
}
