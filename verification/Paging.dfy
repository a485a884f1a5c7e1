/** The identity page tables of the kernel (src/paging.c) and of user mode (src/shv-user.c), in the
    three paging modes.  Each array of tables is filled by a counter; `Fill` describes the words that
    one such loop writes.
 */
module Paging {
  import opened Bitfield
  import opened Hpt
  import opened PageWalk
  import opened FlatTables
  import opened FlaggedEntries

  type u32 = x: u64 | x < 0x1_0000_0000

  const SIZE_2M := 0x20_0000
  const SIZE_4M := 0x40_0000

  /** A loop that writes flags | address to the first `count` entries of an array; the address starts
      at `base` and grows by `step`. */
  datatype Fill = Fill(flags: u64, base: u64, step: nat, count: nat)

  function Address(f: Fill, k: nat): u64 {
    (f.base + k * f.step) % 0x1_0000_0000_0000_0000
  }

  function Word(f: Fill, k: nat): u64 {
    Or64(f.flags, Address(f, k))
  }

  ghost predicate Filled(s: seq<u64>, f: Fill, n: nat) {
    n <= |s| && forall k | 0 <= k < n :: s[k] == Word(f, k)
  }

  // ----- filled arrays are identity tables -----

  function LeafOf(user: bool): nat {
    if user then 1 else 2
  }

  function FlagsOf(t: HptType, l: nat, user: bool): nat {
    if l == LeafOf(user) then if user then 0x7 else 0x83
    else if t == Pae && l == 3 then 0x1
    else if user then 0x7 else 0x3
  }

  ghost predicate EntryFlagged(t: HptType, fs: seq<Flat>, count: nat, user: bool, l: nat, i: nat)
    requires |fs| == MaxLvl(t) + 1 && LeafOf(user) <= l <= MaxLvl(t)
  {
    InMap(t, LeafOf(user), count, l, i) ==>
      && i < |fs[l].entries|
      && var a := if l == LeafOf(user) then i * Span(t, l) else fs[l - 1].base + i * PAGE;
         Fits(t, a) && Flagged(fs[l].entries[i], FlagsOf(t, l, user), a)
  }

  /** The entries of every level carry the flags and addresses of an identity map. */
  ghost predicate FlaggedTables(t: HptType, fs: seq<Flat>, count: nat, user: bool) {
    && t != Ept && LvlIsValid(t, LeafOf(user)) && |fs| == MaxLvl(t) + 1 && count <= |fs[LeafOf(user)].entries|
    && count * Span(t, LeafOf(user)) <= Span(t, MaxLvl(t) + 1)
    && (forall l :: LeafOf(user) <= l <= MaxLvl(t) ==> |fs[l].entries| % Entries(t, l) == 0)
    && (forall l, i: nat :: LeafOf(user) <= l <= MaxLvl(t) ==> EntryFlagged(t, fs, count, user, l, i))
    && (t == Norm ==> forall i :: 0 <= i < |fs[LeafOf(user)].entries| ==> fs[LeafOf(user)].entries[i] < 0x1_0000_0000)
  }

  lemma FlaggedIsIdentity(t: HptType, fs: seq<Flat>, count: nat, user: bool)
    requires FlaggedTables(t, fs, count, user)
    ensures IdentityTables(t, fs, LeafOf(user), count, user)
  {
    hide InMap, IsPage, IsPresent, GetProt, GetUser, GetAddress;
    var leaf := LeafOf(user);
    forall l: nat, i: nat | leaf <= l <= MaxLvl(t)
      ensures EntryOk(t, fs, leaf, count, user, l, i)
    {
      assert EntryFlagged(t, fs, count, user, l, i);
      FlaggedEntryOk(t, fs, count, user, l, i);
    }
  }

  lemma FlaggedEntryOk(t: HptType, fs: seq<Flat>, count: nat, user: bool, l: nat, i: nat)
    requires t != Ept && |fs| == MaxLvl(t) + 1 && LeafOf(user) <= l <= MaxLvl(t)
    requires count * Span(t, LeafOf(user)) <= Span(t, MaxLvl(t) + 1)
    requires EntryFlagged(t, fs, count, user, l, i)
    requires t == Norm ==>
      forall i :: 0 <= i < |fs[LeafOf(user)].entries| ==> fs[LeafOf(user)].entries[i] < 0x1_0000_0000
    ensures EntryOk(t, fs, LeafOf(user), count, user, l, i)
  {
    hide Flagged, MapsSelf, IsPointer, GetAddress, GetProt, GetUser, Span, InMap;
    var leaf := LeafOf(user);
    if InMap(t, leaf, count, l, i) {
      var e := fs[l].entries[i];
      if l == leaf {
        LeafInMap(t, leaf, count, i);
        FlaggedSelf(t, l, e, FlagsOf(t, l, user), i);
      } else {
        FlaggedPointer(t, l, e, FlagsOf(t, l, user), fs[l - 1].base + i * PAGE);
      }
    }
  }

  lemma LeafInMap(t: HptType, leaf: nat, count: nat, i: nat)
    requires LvlIsValid(t, leaf) && t != Ept && InMap(t, leaf, count, leaf, i)
    requires count * Span(t, leaf) <= Span(t, MaxLvl(t) + 1)
    ensures i * Span(t, leaf) < 0x1_0000_0000_0000 && (t == Norm ==> i * Span(t, leaf) < 0x1_0000_0000)
  {
    MulOrder(i + 1, count, Span(t, leaf));
  }

  /** Below the limit, the tables map every address to itself with all rights, and with the user bit
      exactly when they are those of user mode. */
  ghost predicate MapsBelow(t: HptType, tabs: Tables, root: u64, user: bool, limit: nat) {
    forall va: u64 :: va < limit ==> MapsToItself(t, tabs, root, user, va)
  }

  ghost predicate MapsToItself(t: HptType, tabs: Tables, root: u64, user: bool, va: u64) {
    match Lookup(t, tabs, root, MaxLvl(t), va)
    case None => false
    case Some(m) =>
      && LvlIsValid(t, m.lvl) && IsPage(t, m.lvl, m.entry)
      && VaToPa(t, m.lvl, m.entry, va) == va && m.prot == PROT_RWX && m.user == user
  }

  lemma FlaggedMaps(t: HptType, tabs: Tables, fs: seq<Flat>, count: nat, user: bool, limit: nat)
    requires FlaggedTables(t, fs, count, user) && limit <= count * Span(t, LeafOf(user))
    requires forall k :: LeafOf(user) <= k <= MaxLvl(t) ==> Holds(t, tabs, k, fs[k])
    ensures MapsBelow(t, tabs, fs[MaxLvl(t)].base, user, limit)
  {
    hide Holds, Lookup, Span, VaToPa, IsPage, EntryFlagged, EntryOk;
    FlaggedIsIdentity(t, fs, count, user);
    forall va: u64 | va < limit
      ensures MapsToItself(t, tabs, fs[MaxLvl(t)].base, user, va)
    {
      IdentityMap(t, tabs, fs, LeafOf(user), count, user, va);
    }
  }

  // ----- the loops -----

  lemma AddModulo(x: nat, s: nat, m: nat)
    requires m >= 1
    ensures (x + s) % m == (x % m + s) % m
  {
    var q, y := x / m, x % m + s;
    var q', r := y / m, y % m;
    assert x + s == (q + q') * m + r;
    ModUnique(x + s, m, q + q', r);
  }

  lemma NextAddress(f: Fill, k: nat)
    ensures Address(f, k + 1) == (Address(f, k) + f.step) % 0x1_0000_0000_0000_0000
  {
    var x, m := f.base + k * f.step, 0x1_0000_0000_0000_0000;
    assert f.base + (k + 1) * f.step == x + f.step;
    AddModulo(x, f.step, m);
  }

  /** A word that the boot code wrote, as the kernel checks it: the accessed and dirty flags, 0x60,
      may be set. */
  predicate BootWord(e: u64, f: Fill, k: nat) {
    Or64(0x60, e) == Or64((0x60 + f.flags) % 0x1000, Address(f, k))
  }

  predicate Booted(s: seq<u64>, f: Fill, booted: nat)
    requires f.count <= |s|
  {
    forall k | 0 <= k < booted && k < f.count :: BootWord(s[k], f, k)
  }

  ghost predicate Extended(before: seq<u64>, after: seq<u64>, f: Fill, booted: nat) {
    |after| == |before| &&
    forall k | 0 <= k < |after| :: after[k] == if booted <= k < f.count then Word(f, k) else before[k]
  }

  /** The loop shape of both functions: the first `booted` entries come from the boot code and are
      only checked; a failed check halts. */
  method FillArray(a: array<u64>, f: Fill, booted: nat) returns (ok: bool)
    requires f.count <= a.Length
    modifies a
    ensures ok <==> Booted(old(a[..]), f, booted)
    ensures ok ==> Extended(old(a[..]), a[..], f, booted)
  {
    hide Or, Or64, Address;
    var i, paddr := 0, f.base;
    assert paddr == Address(f, 0) by { FirstAddress(f); }
    while i < f.count
      invariant 0 <= i <= f.count && paddr == Address(f, i)
      invariant forall k | 0 <= k < a.Length :: a[k] == if booted <= k < i then Word(f, k) else old(a[..])[k]
      invariant forall k | 0 <= k < i && k < booted :: BootWord(old(a[..])[k], f, k)
    {
      if i < booted {
        if Or64(0x60, a[i]) != Or64((0x60 + f.flags) % 0x1000, paddr) {
          assert !BootWord(old(a[..])[i], f, i);
          return false;
        }
      } else {
        a[i] := Or64(f.flags, paddr);
      }
      NextAddress(f, i);
      i, paddr := i + 1, (paddr + f.step) % 0x1_0000_0000_0000_0000;
    }
    ok := true;
  }

  lemma FirstAddress(f: Fill)
    ensures Address(f, 0) == f.base
  {
  }

  /** The words of a loop are flags | address when the addresses are aligned and do not wrap. */
  lemma WordIsFlagged(f: Fill, k: nat)
    requires f.flags < 0x1000 && f.base % 0x1000 == 0 && f.step % 0x1000 == 0
    requires f.base + k * f.step < 0x1_0000_0000_0000_0000
    ensures Flagged(Word(f, k), f.flags, f.base + k * f.step)
  {
    AlignedAddress(f, k);
    OrIsFlagged(f.flags, Address(f, k));
  }

  lemma AlignedAddress(f: Fill, k: nat)
    requires f.base % 0x1000 == 0 && f.step % 0x1000 == 0
    requires f.base + k * f.step < 0x1_0000_0000_0000_0000
    ensures Address(f, k) == f.base + k * f.step && Address(f, k) % 0x1000 == 0
  {
    var b, m := f.base / 0x1000, f.step / 0x1000;
    assert k * f.step == k * m * 0x1000;
    ModUnique(f.base + k * f.step, 0x1000, b + k * m, 0);
  }

  lemma BootWordIsFlagged(e: u64, f: Fill, k: nat)
    requires (f.flags == 0x3 || f.flags == 0x83) && f.base % 0x1000 == 0 && f.step % 0x1000 == 0
    requires f.base + k * f.step < 0x1_0000_0000_0000_0000 && BootWord(e, f, k)
    ensures Flagged(e, f.flags, f.base + k * f.step)
  {
    AlignedAddress(f, k);
    BootIsFlagged(e, f.flags, Address(f, k));
  }

  // ----- the layout of the arrays -----

  /** Number of regions of level `l` below the limit, rounded up. */
  function Regions(t: HptType, limit: nat, l: nat): nat
    requires LvlIsValid(t, l)
  {
    (limit + Span(t, l) - 1) / Span(t, l)
  }

  /** Number of entries that the loop for level `l` fills: those of whole tables for pages of 4 KB. */
  function Count(t: HptType, user: bool, limit: nat, l: nat): nat
    requires LvlIsValid(t, l)
  {
    if user && l == 1 then Regions(t, limit, 2) * Entries(t, 1) else Regions(t, limit, l)
  }

  /** What the loop for level `l` writes; `at` are the addresses of the arrays by level. */
  function FillOf(t: HptType, user: bool, limit: nat, at: seq<u64>, l: nat): Fill
    requires LvlIsValid(t, l) && |at| == MaxLvl(t) + 1
  {
    if l == LeafOf(user) then Fill(FlagsOf(t, l, user), 0, Span(t, l), Count(t, user, limit, l))
    else Fill(FlagsOf(t, l, user), at[l - 1], 0x1000, Count(t, user, limit, l))
  }

  /** One root table; below it, one table for each filled entry of the level above. */
  function Size(t: HptType, user: bool, limit: nat, l: nat): nat
    requires LvlIsValid(t, l)
  {
    if l == MaxLvl(t) then Entries(t, l) else Count(t, user, limit, l + 1) * Entries(t, l)
  }

  predicate LayoutOk(t: HptType, user: bool, limit: nat, at: seq<u64>) {
    && t != Ept && |at| == MaxLvl(t) + 1 && 0 < limit <= Span(t, MaxLvl(t) + 1)
    && forall l :: LeafOf(user) <= l < MaxLvl(t) ==>
      && at[l] % 0x1000 == 0
      && at[l] + Count(t, user, limit, l + 1) * 0x1000 <= if t == Norm then 0x1_0000_0000 else 0x10_0000_0000_0000
  }

  /** Entry `k` is what the loop writes, or a word of the boot code that the loop accepts. */
  ghost predicate SoundWord(e: u64, f: Fill, k: nat) {
    e == Word(f, k) || (BootWord(e, f, k) && (f.flags == 0x3 || f.flags == 0x83))
  }

  ghost predicate LevelFilled(t: HptType, user: bool, limit: nat, at: seq<u64>, l: nat, s: seq<u64>)
    requires LvlIsValid(t, l) && |at| == MaxLvl(t) + 1
  {
    var f := FillOf(t, user, limit, at, l);
    && |s| == Size(t, user, limit, l) && f.count <= |s|
    && (forall k | 0 <= k < f.count :: SoundWord(s[k], f, k))
    && (t == Norm ==> forall k | 0 <= k < |s| :: s[k] < 0x1_0000_0000)
  }

  ghost predicate TablesFilled(t: HptType, user: bool, limit: nat, fs: seq<Flat>) {
    && t != Ept && |fs| == MaxLvl(t) + 1 && LayoutOk(t, user, limit, Bases(fs))
    && forall l :: LeafOf(user) <= l <= MaxLvl(t) ==> LevelFilled(t, user, limit, Bases(fs), l, fs[l].entries)
  }

  function Bases(fs: seq<Flat>): (at: seq<u64>)
    ensures |at| == |fs| && forall l :: 0 <= l < |fs| ==> at[l] == fs[l].base
  {
    if fs == [] then [] else [fs[0].base] + Bases(fs[1..])
  }

  /** What a loop with checks leaves is sound. */
  lemma ExtendedIsFilled(t: HptType, user: bool, limit: nat, at: seq<u64>, l: nat, before: seq<u64>, after: seq<u64>,
                         booted: nat)
    requires LvlIsValid(t, l) && |at| == MaxLvl(t) + 1 && LeafOf(user) <= l && t != Norm
    requires |before| == Size(t, user, limit, l) && Count(t, user, limit, l) <= |before|
    requires booted == 0 || (t == Long && !user)
    requires var f := FillOf(t, user, limit, at, l); Booted(before, f, booted) && Extended(before, after, f, booted)
    ensures LevelFilled(t, user, limit, at, l, after)
  {
    hide Count, Size, BootWord, Word;
    var f := FillOf(t, user, limit, at, l);
    forall k | 0 <= k < f.count
      ensures SoundWord(after[k], f, k)
    {
      if k < booted { assert BootWord(before[k], f, k); }
    }
  }

  lemma NothingBooted(s: seq<u64>, f: Fill)
    requires f.count <= |s|
    ensures Booted(s, f, 0)
  {
  }

  lemma Narrow(x: u64, y: u64)
    requires x < 0x1_0000_0000 && y < 0x1_0000_0000
    ensures Or64(x, y) < 0x1_0000_0000
  {
    var w := 32;
    Pow2Is(w);
    OrBound(x, y, w);
  }

  /** Rounding up. */
  lemma CeilIs(x: nat, a: nat, c: nat)
    requires a >= 1 && c == (x + a - 1) / a
    ensures x <= c * a < x + a
  {
    var y := x + a - 1;
    assert y == y / a * a + y % a;
  }

  lemma CeilLeast(x: nat, a: nat, c: nat, n: nat)
    requires a >= 1 && c == (x + a - 1) / a
    ensures x <= n * a <==> c <= n
  {
    CeilIs(x, a, c);
    if c <= n { MulOrder(c, n, a); } else { MulOrder(n + 1, c, a); }
  }

  lemma CeilCovers(limit: nat, a: nat, m: nat, b: nat, i: nat)
    requires a >= 1 && m >= 1 && b == a * m && i * m < (limit + a - 1) / a
    ensures b >= 1 && i < (limit + b - 1) / b
  {
    MulAtLeast(a, m);
    assert i * b == i * m * a;
    CeilLeast(limit, a, (limit + a - 1) / a, i * m);
    CeilLeast(limit, b, (limit + b - 1) / b, i);
  }

  /** The array sizes cover the limit: an entry that an address below the limit needs is among those
      filled. */
  lemma CountCovers(t: HptType, user: bool, limit: nat, l: nat, i: nat)
    requires t != Ept && LeafOf(user) <= l <= MaxLvl(t)
    requires InMap(t, LeafOf(user), Count(t, user, limit, LeafOf(user)), l, i)
    ensures i < Count(t, user, limit, l)
  {
    hide Span, Entries;
    if l > 1 {
      var a, b, m, n := Span(t, 2), Span(t, l), SpansBetween(t, l), Entries(t, 1);
      if user { WholeBelow(i, m, n, Regions(t, limit, 2)); }
      CeilCovers(limit, a, m, b, i);
    }
  }

  /** Number of regions of level 2 in one of level `l`. */
  function SpansBetween(t: HptType, l: nat): (m: nat)
    requires 2 <= l <= MaxLvl(t)
    ensures m >= 1 && Span(t, l) == Span(t, 2) * m
    ensures Span(t, l) / Span(t, 1) == m * Entries(t, 1) && Span(t, l) / Span(t, 2) == m
  {
    Span(t, l) / Span(t, 2)
  }

  lemma WholeBelow(i: nat, m: nat, n: nat, c: nat)
    requires i * (m * n) < c * n
    ensures i * m < c
  {
    assert i * (m * n) == i * m * n;
    if c <= i * m { MulOrder(c, i * m, n); }
  }

  lemma CeilBelow(limit: nat, a: nat, m: nat, top: nat)
    requires a >= 1 && top == a * m && limit <= top
    ensures (limit + a - 1) / a <= m && limit <= (limit + a - 1) / a * a <= top
  {
    var c := (limit + a - 1) / a;
    CeilIs(limit, a, c);
    CeilLeast(limit, a, c, m);
    MulOrder(c, m, a);
  }

  lemma CeilNext(limit: nat, a: nat, n: nat, b: nat)
    requires a >= 1 && b >= 1 && b == a * n
    ensures (limit + a - 1) / a <= (limit + b - 1) / b * n
  {
    var d := (limit + b - 1) / b;
    CeilIs(limit, b, d);
    assert d * n * a == d * b;
    CeilLeast(limit, a, (limit + a - 1) / a, d * n);
  }

  lemma RegionsFit(t: HptType, limit: nat, l: nat)
    requires LvlIsValid(t, l) && 0 < limit <= Span(t, MaxLvl(t) + 1)
    ensures limit <= Regions(t, limit, l) * Span(t, l) <= Span(t, MaxLvl(t) + 1)
    ensures Regions(t, limit, l) <= if l == MaxLvl(t) then Entries(t, l) else Regions(t, limit, l + 1) * Entries(t, l)
  {
    hide Span, Entries, Pow2;
    SpansDivide(t, l);
    EntriesIsPow2(t, l);
    CeilBelow(limit, Span(t, l), Span(t, MaxLvl(t) + 1) / Span(t, l), Span(t, MaxLvl(t) + 1));
    if l == MaxLvl(t) {
      CeilBelow(limit, Span(t, l), Entries(t, l), Span(t, l + 1));
    } else {
      CeilNext(limit, Span(t, l), Entries(t, l), Span(t, l + 1));
    }
  }

  lemma CountsFit(t: HptType, user: bool, limit: nat, l: nat)
    requires t != Ept && 0 < limit <= Span(t, MaxLvl(t) + 1) && LeafOf(user) <= l <= MaxLvl(t)
    ensures Count(t, user, limit, l) <= Size(t, user, limit, l)
    ensures Size(t, user, limit, l) % Entries(t, l) == 0
    ensures l == LeafOf(user) ==> limit <= Count(t, user, limit, l) * Span(t, l) <= Span(t, MaxLvl(t) + 1)
  {
    hide Span, Entries, Regions, Pow2;
    RegionsFit(t, limit, l);
    SizeIsWhole(t, user, limit, l);
    if user && l == 1 {
      RegionsFit(t, limit, 2);
      EntriesIsPow2(t, 1);
      Regroup3(Regions(t, limit, 2), Entries(t, 1), Span(t, 1));
    }
  }

  lemma SizeIsWhole(t: HptType, user: bool, limit: nat, l: nat)
    requires LvlIsValid(t, l)
    ensures Size(t, user, limit, l) % Entries(t, l) == 0
  {
    hide Regions;
    if l < MaxLvl(t) {
      var c, n := Count(t, user, limit, l + 1), Entries(t, l);
      ModUnique(c * n, n, c, 0);
    }
  }

  lemma Regroup3(x: nat, y: nat, z: nat)
    ensures x * y * z == x * (z * y)
  {
  }

  lemma {:induction false} EntryIsFlagged(t: HptType, user: bool, limit: nat, fs: seq<Flat>, l: nat, i: nat)
    requires TablesFilled(t, user, limit, fs) && LeafOf(user) <= l <= MaxLvl(t)
    ensures EntryFlagged(t, fs, Count(t, user, limit, LeafOf(user)), user, l, i)
  {
    hide SoundWord, Flagged, Span, Count, InMap, Size, FlagsOf, TablesFilled, Bases;
    var count := Count(t, user, limit, LeafOf(user));
    FilledIndex(t, user, limit, fs);
    if InMap(t, LeafOf(user), count, l, i) {
      CountCovers(t, user, limit, l, i);
      FilledEntry(t, user, limit, fs, l, i);
      FilledAddressFits(t, user, limit, fs, l, i);
      FlagsSmall(t, l, user);
      SoundIsFlagged(fs[l].entries[i], FillOf(t, user, limit, Bases(fs), l), i);
    }
  }

  lemma FilledIndex(t: HptType, user: bool, limit: nat, fs: seq<Flat>)
    requires TablesFilled(t, user, limit, fs)
    ensures t != Ept && |fs| == MaxLvl(t) + 1
  {
  }

  lemma FlagsSmall(t: HptType, l: nat, user: bool)
    ensures FlagsOf(t, l, user) < 0x1000
  {
  }

  lemma FilledEntry(t: HptType, user: bool, limit: nat, fs: seq<Flat>, l: nat, i: nat)
    requires TablesFilled(t, user, limit, fs) && LeafOf(user) <= l <= MaxLvl(t) && i < Count(t, user, limit, l)
    ensures i < |fs[l].entries| && SoundWord(fs[l].entries[i], FillOf(t, user, limit, Bases(fs), l), i)
  {
    hide SoundWord, Count, Size;
    assert LevelFilled(t, user, limit, Bases(fs), l, fs[l].entries);
  }

  lemma SoundIsFlagged(e: u64, f: Fill, k: nat)
    requires f.flags < 0x1000 && f.base % 0x1000 == 0 && f.step % 0x1000 == 0
    requires f.base + k * f.step < 0x1_0000_0000_0000_0000 && SoundWord(e, f, k)
    ensures Flagged(e, f.flags, f.base + k * f.step)
  {
    hide Flagged, BootWord, Word;
    if e == Word(f, k) { WordIsFlagged(f, k); } else { BootWordIsFlagged(e, f, k); }
  }

  lemma FilledAddressFits(t: HptType, user: bool, limit: nat, fs: seq<Flat>, l: nat, i: nat)
    requires TablesFilled(t, user, limit, fs) && LeafOf(user) <= l <= MaxLvl(t) && i < Count(t, user, limit, l)
    ensures var f := FillOf(t, user, limit, Bases(fs), l);
      f.base % 0x1000 == 0 && f.step % 0x1000 == 0 && Fits(t, f.base + i * f.step)
  {
    hide Count, LevelFilled;
    if l == LeafOf(user) {
      CountsFit(t, user, limit, l);
      LeafFits(t, l, Count(t, user, limit, l), i);
    } else {
      TableFits(fs[l - 1].base, Count(t, user, limit, l), i);
    }
  }

  lemma LeafFits(t: HptType, l: nat, count: nat, i: nat)
    requires t != Ept && (l == 1 || (l == 2 && MaxLvl(t) >= 2))
    requires i < count && count * Span(t, l) <= Span(t, MaxLvl(t) + 1)
    ensures Span(t, l) % 0x1000 == 0 && Fits(t, i * Span(t, l))
  {
    MulOrder(i + 1, count, Span(t, l));
    SelfAddressFits(t, l, i);
  }

  lemma TableFits(base: u64, count: nat, i: nat)
    requires base % 0x1000 == 0 && i < count
    ensures (base + i * 0x1000) % 0x1000 == 0 && base + i * 0x1000 < base + count * 0x1000
  {
  }

  /** Filled tables map every address below the limit to itself. */
  lemma FilledMaps(t: HptType, user: bool, limit: nat, tabs: Tables, fs: seq<Flat>)
    requires TablesFilled(t, user, limit, fs)
    requires forall k :: LeafOf(user) <= k <= MaxLvl(t) ==> Holds(t, tabs, k, fs[k])
    ensures MapsBelow(t, tabs, fs[MaxLvl(t)].base, user, limit)
  {
    hide Span, Count, EntryFlagged, Holds, MapsBelow, Size;
    var leaf := LeafOf(user);
    forall l | leaf <= l <= MaxLvl(t)
      ensures |fs[l].entries| % Entries(t, l) == 0
    {
      CountsFit(t, user, limit, l);
    }
    forall l, i: nat | leaf <= l <= MaxLvl(t)
      ensures EntryFlagged(t, fs, Count(t, user, limit, leaf), user, l, i)
    {
      EntryIsFlagged(t, user, limit, fs, l, i);
    }
    CountsFit(t, user, limit, leaf);
    FlaggedMaps(t, tabs, fs, Count(t, user, limit, leaf), user, limit);
  }
}
