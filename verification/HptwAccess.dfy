/** Checked access through page tables as it runs (src/hptw.c, second half): the walk with early
    exit, and the copy and fill loops, which move whole chunks at a time.  The loops are proved to
    do what copying byte by byte through the translation does, for every mix of page sizes,
    misalignments and overlaps; `Access` and `LibcString` give the meaning.
 */
module HptwAccess {
  import opened Bitfield
  import opened Hpt
  import opened PageWalk
  import opened Hptw
  import opened LibcString
  import opened Access

  ghost function ViewOf(ctx: Context): View
    reads ctx.Arrays()
  {
    View(ctx.t, ctx.Tabs(), ctx.root)
  }

  /** hptw_get_root */
  method GetRoot(ctx: Context) returns (pmo: Option<Pmo>)
    ensures pmo == if ctx.TableReadable(ctx.root, MaxLvl(ctx.t)) then Some(Pmo(ctx.root, MaxLvl(ctx.t))) else None
  {
    if ctx.root in ctx.tables && ctx.tables[ctx.root].Length == Entries(ctx.t, MaxLvl(ctx.t)) {
      pmo := Some(Pmo(ctx.root, MaxLvl(ctx.t)));
    } else {
      pmo := None;
    }
  }

  /** The walk from `pmo` unfolds by one entry. */
  lemma WalkUnfolds(t: HptType, tabs: Tables, pmo: Pmo, va: u64)
    requires LvlIsValid(t, pmo.lvl) && Accessible(t, tabs, pmo.pm, pmo.lvl)
    ensures var e := EntryOf(t, tabs, pmo.pm, pmo.lvl, va);
      && (IsPointer(t, pmo.lvl, e) ==> pmo.lvl > 1)
      && Walk(t, tabs, pmo.pm, pmo.lvl, va) ==
         if !IsPointer(t, pmo.lvl, e) then Stop(pmo.lvl, e, GetProt(t, pmo.lvl, e), GetUser(t, pmo.lvl, e))
         else
           var below := Walk(t, tabs, GetAddress(t, pmo.lvl, e), pmo.lvl - 1, va);
           Through(GetProt(t, pmo.lvl, e), GetUser(t, pmo.lvl, e), below)
  {
    hide GetAddress, GetProt, GetUser, And, GetPmIdx, IsPresent;
    if IsPointer(t, pmo.lvl, EntryOf(t, tabs, pmo.pm, pmo.lvl, va)) {
      PointerAboveOne(t, pmo.lvl, EntryOf(t, tabs, pmo.pm, pmo.lvl, va));
    }
  }

  /** hptw_checked_get_pmeo: checks each entry on the way and gives up at the first that does not
      allow the access.  It succeeds iff the whole walk permits the access, with the last entry,
      which is then a page (the final halt cannot happen). */
  method CheckedGetPmeo(ctx: Context, access: u64, cpl: nat, va: u64) returns (ok: bool, pmeo: Pmeo)
    ensures ok <==> Permits(ctx.t, RootWalk(ViewOf(ctx), va), access, cpl)
    ensures ok ==> var w := RootWalk(ViewOf(ctx), va);
      pmeo == Pmeo(w.entry, w.lvl) && LvlIsValid(ctx.t, pmeo.lvl) && IsPage(ctx.t, pmeo.lvl, pmeo.pme)
  {
    hide GetAddress, IsPage, IsPresent, GetPmIdx, GetProt, GetUser, And, Walk, Permits;
    pmeo := Pmeo(0, 0);
    ghost var tabs := ctx.Tabs();
    ghost var w0 := Walk(ctx.t, tabs, ctx.root, MaxLvl(ctx.t), va);
    var start := GetRoot(ctx);
    assert ctx.Tabs() == tabs;
    if start.None? {
      Unreadable(ctx.t, tabs, ctx.root, MaxLvl(ctx.t), va, access, cpl);
      return false, pmeo;
    }
    var pmo := start.value;
    while true
      invariant ctx.Tabs() == tabs && LvlIsValid(ctx.t, pmo.lvl) && ctx.TableReadable(pmo.pm, pmo.lvl)
      invariant Alike(ctx.t, Walk(ctx.t, tabs, pmo.pm, pmo.lvl, va), w0, access, cpl)
      decreases pmo.lvl
    {
      var pme := ctx.GetPmeByVa(pmo, va);
      assert ctx.Tabs() == tabs;
      pmeo := Pmeo(pme, pmo.lvl);
      WalkUnfolds(ctx.t, tabs, pmo, va);
      var prot, user := GetProt(ctx.t, pmo.lvl, pme), GetUser(ctx.t, pmo.lvl, pme);
      StopPermits(ctx.t, pmo.lvl, pme, prot, user, access, cpl);
      ghost var next_pm := GetAddress(ctx.t, pmo.lvl, pme);
      if IsPointer(ctx.t, pmo.lvl, pme) {
        PermitsThrough(ctx.t, access, cpl, prot, user, Walk(ctx.t, tabs, next_pm, pmo.lvl - 1, va));
      }
      if !(And(access, prot) == access && (cpl == 0 || user)) { return false, pmeo; }
      var walked, next := ctx.NextLvl(pmo, va);
      assert ctx.Tabs() == tabs;
      if !walked {
        if next.None? {
          Unreadable(ctx.t, tabs, next_pm, pmo.lvl - 1, va, access, cpl);
          return false, pmeo;
        }
        if !IsPresent(ctx.t, pmo.lvl, pme) { return false, pmeo; }
        assert IsPage(ctx.t, pmo.lvl, pme);
        return true, pmeo;
      }
      pmo := next.value;
    }
  }

  /** Two walks allow the same access and end at the same entry. */
  ghost predicate Alike(t: HptType, w: Walked, w0: Walked, access: u64, cpl: nat) {
    && Permits(t, w, access, cpl) == Permits(t, w0, access, cpl)
    && w.Stop? == w0.Stop? && (w.Stop? ==> w.lvl == w0.lvl && w.entry == w0.entry)
  }

  lemma Unreadable(t: HptType, tabs: Tables, pm: u64, lvl: nat, va: u64, access: u64, cpl: nat)
    requires LvlIsValid(t, lvl) && !Accessible(t, tabs, pm, lvl)
    ensures Walk(t, tabs, pm, lvl, va) == NoTable && !Permits(t, NoTable, access, cpl)
  {
  }

  lemma StopPermits(t: HptType, lvl: nat, e: u64, prot: Prot, user: bool, access: u64, cpl: nat)
    requires LvlIsValid(t, lvl)
    ensures Permits(t, Stop(lvl, e, prot, user), access, cpl) <==>
            IsPresent(t, lvl, e) && And(access, prot) == access && (cpl == 0 || user)
  {
    hide IsPresent, And;
  }

  /** hptw_get_effective_prots: the least rights of the walk, none if a table cannot be read. */
  method GetEffectiveProts(ctx: Context, va: u64) returns (prots: Prot, user: Option<bool>)
    ensures prots == EffectiveProts(RootWalk(ViewOf(ctx), va))
    ensures user == match RootWalk(ViewOf(ctx), va) case NoTable => None case Stop(_, _, _, u) => Some(u)
  {
    hide GetAddress, IsPage, IsPresent, GetPmIdx, GetProt, GetUser, And, Walk;
    ghost var tabs := ctx.Tabs();
    ghost var w0 := Walk(ctx.t, tabs, ctx.root, MaxLvl(ctx.t), va);
    var start := GetRoot(ctx);
    assert ctx.Tabs() == tabs;
    if start.None? {
      Unreadable(ctx.t, tabs, ctx.root, MaxLvl(ctx.t), va, 0, 0);
      return PROT_NONE, None;
    }
    var pmo := start.value;
    var rv: Prot, u := PROT_RWX, true;
    ThroughAll(w0);
    while true
      invariant ctx.Tabs() == tabs && LvlIsValid(ctx.t, pmo.lvl) && ctx.TableReadable(pmo.pm, pmo.lvl)
      invariant w0 == Through(rv, u, Walk(ctx.t, tabs, pmo.pm, pmo.lvl, va))
      decreases pmo.lvl
    {
      var pme := ctx.GetPmeByVa(pmo, va);
      WalkUnfolds(ctx.t, tabs, pmo, va);
      var prot, us := GetProt(ctx.t, pmo.lvl, pme), GetUser(ctx.t, pmo.lvl, pme);
      ghost var next_pm := GetAddress(ctx.t, pmo.lvl, pme);
      if IsPointer(ctx.t, pmo.lvl, pme) {
        ThroughTwice(rv, u, prot, us, Walk(ctx.t, tabs, next_pm, pmo.lvl - 1, va));
      }
      rv, u := And(rv, prot), u && us;
      var walked, next := ctx.NextLvl(pmo, va);
      assert ctx.Tabs() == tabs;
      if !walked {
        if next.None? {
          Unreadable(ctx.t, tabs, next_pm, pmo.lvl - 1, va, 0, 0);
          return PROT_NONE, None;
        }
        return rv, Some(u);
      }
      pmo := next.value;
    }
  }

  lemma ThroughAll(w: Walked)
    ensures Through(PROT_RWX, true, w) == w
  {
    hide And;
    if w.Stop? { AndAll(w.prot); }
  }

  lemma ThroughTwice(p: Prot, u: bool, q: Prot, v: bool, w: Walked)
    ensures Through(p, u, Through(q, v, w)) == Through(And(p, q), u && v, w)
  {
    hide And;
    if w.Stop? { AndAssoc(p, q, w.prot); }
  }

  // ----- access to memory -----

  /** hptw_checked_access_va */
  method CheckedAccessVa(ctx: Context, cb: Callback, access: u64, cpl: nat, va: u64, requested: nat)
    returns (r: Option<(u64, nat)>)
    ensures r == AccessAt(ViewOf(ctx), cb, access, cpl, va, requested)
  {
    hide GetAddress, IsPage, IsPresent, GetProt, GetUser, And, Walk, Permits, VaToPa;
    var ok, pmeo := CheckedGetPmeo(ctx, access, cpl, va);
    if !ok { return None; }
    var pa := VaToPa(ctx.t, pmeo.lvl, pmeo.pme, va);
    var rest := RemainingOnPage(ctx.t, pmeo.lvl, pa);
    var answer := cb(pa, if requested < rest then requested else rest, access, cpl);
    match answer
    case None => return None;
    case Some(avail) => return Some((pa, avail));
  }

  /** Memory `now` is `was` after copying byte after byte from `srcs` to `dsts`. */
  ghost predicate Copied(was: seq<byte>, now: seq<byte>, dsts: seq<nat>, srcs: seq<nat>) {
    |dsts| == |srcs| && InRange(was, dsts) && InRange(was, srcs) && now == Move(was, dsts, srcs)
  }

  lemma CopiedMore(was: seq<byte>, mid: seq<byte>, now: seq<byte>, dsts: seq<nat>, srcs: seq<nat>, dst: nat,
                   src: nat, n: nat)
    requires Copied(was, mid, dsts, srcs) && dst + n <= |was| && src + n <= |was|
    requires now == Move(mid, Range(dst, n), Range(src, n))
    ensures Copied(was, now, dsts + Range(dst, n), srcs + Range(src, n))
  {
    MoveTwice(was, dsts, srcs, Range(dst, n), Range(src, n));
  }

  lemma RangeSplits(p: nat, n: nat, k: nat)
    ensures Range(p, n + k) == Range(p, n) + Range(p + n, k)
  {
  }

  /** What the loops demand of their surroundings: data memory apart from the tables, and a callback that
      stays in memory. */
  ghost predicate Surroundings(ctx: Context, cb: Callback, ram: array<byte>)
    reads ctx.Arrays()
  {
    (ram as object) !in ctx.Arrays() && CallbackOk(cb, ram.Length)
  }

  /** hptw_checked_copy_from_va.  A prefix is copied byte for byte; all of it iff the result is
      success, and otherwise the prefix ends at an address whose access was refused. */
  method CheckedCopyFromVa(ctx: Context, cb: Callback, ram: array<byte>, cpl: nat, dst: nat, srcVa: u64, len: nat)
    returns (err: bool, ghost copied: nat)
    requires Surroundings(ctx, cb, ram) && dst + len <= ram.Length && RangeFits(ViewOf(ctx), srcVa, len)
    modifies ram
    ensures var v := ViewOf(ctx);
      && copied <= len && (err <==> copied < len)
      && AllMapped(v, PROT_R, cpl, srcVa, copied)
      && Copied(old(ram[..]), ram[..], Range(dst, copied), Pas(v, PROT_R, cpl, srcVa, copied))
      && (err ==> AccessAt(v, cb, PROT_R, cpl, VaAt(srcVa, copied), len - copied) == None)
  {
    hide FitsAt, CallbackOk, PaOf, AccessAt, Move;
    ghost var v, was := ViewOf(ctx), ram[..];
    var done: nat := 0;
    copied := 0;
    MoveNothing(was, Range(dst, 0), Pas(v, PROT_R, cpl, srcVa, 0));
    while done < len
      invariant copied == done <= len && ViewOf(ctx) == v && AllMapped(v, PROT_R, cpl, srcVa, done)
      invariant Copied(was, ram[..], Range(dst, done), Pas(v, PROT_R, cpl, srcVa, done))
      decreases len - done
    {
      var src := CheckedAccessVa(ctx, cb, PROT_R, cpl, VaAt(srcVa, done), len - done);
      if src.None? { return true, done; }
      var (pa, n) := src.value;
      AccessExtends(v, cb, ram.Length, PROT_R, cpl, srcVa, done, len - done, pa, n);
      ghost var mid := ram[..];
      Memcpy(ram, dst + done, pa, n);
      CopiedMore(was, mid, ram[..], Range(dst, done), Pas(v, PROT_R, cpl, srcVa, done), dst + done, pa, n);
      RangeSplits(dst, done, n);
      done := done + n;
      copied := done;
    }
    err := false;
  }

  lemma MoveNothing(was: seq<byte>, dsts: seq<nat>, srcs: seq<nat>)
    requires dsts == [] && srcs == []
    ensures Copied(was, was, dsts, srcs)
  {
  }

  /** hptw_checked_copy_to_va */
  method CheckedCopyToVa(ctx: Context, cb: Callback, ram: array<byte>, cpl: nat, dstVa: u64, src: nat, len: nat)
    returns (err: bool, ghost copied: nat)
    requires Surroundings(ctx, cb, ram) && src + len <= ram.Length && RangeFits(ViewOf(ctx), dstVa, len)
    modifies ram
    ensures var v := ViewOf(ctx);
      && copied <= len && (err <==> copied < len)
      && AllMapped(v, PROT_W, cpl, dstVa, copied)
      && Copied(old(ram[..]), ram[..], Pas(v, PROT_W, cpl, dstVa, copied), Range(src, copied))
      && (err ==> AccessAt(v, cb, PROT_W, cpl, VaAt(dstVa, copied), len - copied) == None)
  {
    hide FitsAt, CallbackOk, PaOf, AccessAt, Move;
    ghost var v, was := ViewOf(ctx), ram[..];
    var done: nat := 0;
    copied := 0;
    MoveNothing(was, Pas(v, PROT_W, cpl, dstVa, 0), Range(src, 0));
    while done < len
      invariant copied == done <= len && ViewOf(ctx) == v && AllMapped(v, PROT_W, cpl, dstVa, done)
      invariant Copied(was, ram[..], Pas(v, PROT_W, cpl, dstVa, done), Range(src, done))
      decreases len - done
    {
      var dst := CheckedAccessVa(ctx, cb, PROT_W, cpl, VaAt(dstVa, done), len - done);
      if dst.None? { return true, done; }
      var (pa, n) := dst.value;
      AccessExtends(v, cb, ram.Length, PROT_W, cpl, dstVa, done, len - done, pa, n);
      ghost var mid := ram[..];
      Memcpy(ram, pa, src + done, n);
      CopiedMore(was, mid, ram[..], Pas(v, PROT_W, cpl, dstVa, done), Range(src, done), pa, src + done, n);
      RangeSplits(src, done, n);
      done := done + n;
      copied := done;
    }
    err := false;
  }

  /** `now` is `was` with `c` at all addresses of `dsts`. */
  ghost predicate Painted(was: seq<byte>, now: seq<byte>, dsts: seq<nat>, c: byte) {
    && |now| == |was| && InRange(was, dsts)
    && forall p :: 0 <= p < |was| ==> now[p] == if p in dsts then c else was[p]
  }

  lemma PaintedMore(was: seq<byte>, mid: seq<byte>, now: seq<byte>, dsts: seq<nat>, pa: nat, n: nat, c: byte)
    requires Painted(was, mid, dsts, c) && pa + n <= |was| && now == Filled(mid, pa, n, c)
    ensures Painted(was, now, dsts + Range(pa, n), c)
  {
    forall p | 0 <= p < |was| ensures now[p] == if p in dsts + Range(pa, n) then c else was[p] {
      assert p in Range(pa, n) <==> pa <= p < pa + n by {
        if pa <= p < pa + n { assert Range(pa, n)[p - pa] == p; }
      }
    }
  }

  /** hptw_checked_memset_va */
  method CheckedMemsetVa(ctx: Context, cb: Callback, ram: array<byte>, cpl: nat, dstVa: u64, c: byte, len: nat)
    returns (err: bool, ghost filled: nat)
    requires Surroundings(ctx, cb, ram) && RangeFits(ViewOf(ctx), dstVa, len)
    modifies ram
    ensures var v := ViewOf(ctx);
      && filled <= len && (err <==> filled < len)
      && AllMapped(v, PROT_W, cpl, dstVa, filled)
      && Painted(old(ram[..]), ram[..], Pas(v, PROT_W, cpl, dstVa, filled), c)
      && (err ==> AccessAt(v, cb, PROT_W, cpl, VaAt(dstVa, filled), len - filled) == None)
  {
    hide FitsAt, CallbackOk, PaOf, AccessAt, Filled;
    ghost var v, was := ViewOf(ctx), ram[..];
    var done: nat := 0;
    filled := 0;
    while done < len
      invariant filled == done <= len && ViewOf(ctx) == v && AllMapped(v, PROT_W, cpl, dstVa, done)
      invariant Painted(was, ram[..], Pas(v, PROT_W, cpl, dstVa, done), c)
      decreases len - done
    {
      var dst := CheckedAccessVa(ctx, cb, PROT_W, cpl, VaAt(dstVa, done), len - done);
      if dst.None? { return true, done; }
      var (pa, n) := dst.value;
      AccessExtends(v, cb, ram.Length, PROT_W, cpl, dstVa, done, len - done, pa, n);
      ghost var mid := ram[..];
      Memset(ram, pa, c, n);
      PaintedMore(was, mid, ram[..], Pas(v, PROT_W, cpl, dstVa, done), pa, n, c);
      done := done + n;
      filled := done;
    }
    err := false;
  }

  lemma ExtendsLess(v: View, access: u64, cpl: nat, base: u64, n: nat, pa: nat, avail: nat, less: nat)
    requires Extends(v, access, cpl, base, n, pa, avail) && less <= avail
    ensures Extends(v, access, cpl, base, n, pa, less)
  {
    hide PaOf;
    assert Pas(v, access, cpl, base, n + less) == Pas(v, access, cpl, base, n + avail)[..n + less];
    var before := Pas(v, access, cpl, base, n);
    assert (before + Range(pa, avail))[..n + less] == before + Range(pa, less);
  }

  /** A refused chunk of a virtual-to-virtual copy: the destination, or the source for as many bytes as
      the destination grants. */
  ghost predicate Refused(dst: View, dstCb: Callback, dstCpl: nat, dstVa: u64, src: View, srcCb: Callback,
                          srcCpl: nat, srcVa: u64, rest: nat) {
    match AccessAt(dst, dstCb, PROT_W, dstCpl, dstVa, rest)
    case None => true
    case Some((pa, n)) => AccessAt(src, srcCb, PROT_R, srcCpl, srcVa, n) == None
  }

  /** hptw_checked_copy_va_to_va: the same as copying byte after byte, through both translations. */
  method CheckedCopyVaToVa(dstCtx: Context, dstCb: Callback, dstCpl: nat, dstVa: u64,
                           srcCtx: Context, srcCb: Callback, srcCpl: nat, srcVa: u64, ram: array<byte>, len: nat)
    returns (err: bool, ghost copied: nat)
    requires Surroundings(dstCtx, dstCb, ram) && Surroundings(srcCtx, srcCb, ram)
    requires RangeFits(ViewOf(dstCtx), dstVa, len) && RangeFits(ViewOf(srcCtx), srcVa, len)
    modifies ram
    ensures var d, s := ViewOf(dstCtx), ViewOf(srcCtx);
      && copied <= len && (err <==> copied < len)
      && AllMapped(d, PROT_W, dstCpl, dstVa, copied) && AllMapped(s, PROT_R, srcCpl, srcVa, copied)
      && Copied(old(ram[..]), ram[..], Pas(d, PROT_W, dstCpl, dstVa, copied), Pas(s, PROT_R, srcCpl, srcVa, copied))
      && (err ==> Refused(d, dstCb, dstCpl, VaAt(dstVa, copied), s, srcCb, srcCpl, VaAt(srcVa, copied), len - copied))
  {
    hide FitsAt, CallbackOk, PaOf, AccessAt, Move, AllMapped, Pas;
    ghost var d, s, was := ViewOf(dstCtx), ViewOf(srcCtx), ram[..];
    var done: nat := 0;
    copied := 0;
    NothingMapped(d, PROT_W, dstCpl, dstVa);
    NothingMapped(s, PROT_R, srcCpl, srcVa);
    MoveNothing(was, Pas(d, PROT_W, dstCpl, dstVa, 0), Pas(s, PROT_R, srcCpl, srcVa, 0));
    while done < len
      invariant copied == done <= len && ViewOf(dstCtx) == d && ViewOf(srcCtx) == s
      invariant AllMapped(d, PROT_W, dstCpl, dstVa, done) && AllMapped(s, PROT_R, srcCpl, srcVa, done)
      invariant Copied(was, ram[..], Pas(d, PROT_W, dstCpl, dstVa, done), Pas(s, PROT_R, srcCpl, srcVa, done))
      decreases len - done
    {
      var dst := CheckedAccessVa(dstCtx, dstCb, PROT_W, dstCpl, VaAt(dstVa, done), len - done);
      if dst.None? { return true, done; }
      var (to, n1) := dst.value;
      AccessExtends(d, dstCb, ram.Length, PROT_W, dstCpl, dstVa, done, len - done, to, n1);
      assert ViewOf(srcCtx) == s;
      var src := CheckedAccessVa(srcCtx, srcCb, PROT_R, srcCpl, VaAt(srcVa, done), n1);
      if src.None? { return true, done; }
      var (from, n) := src.value;
      AccessExtends(s, srcCb, ram.Length, PROT_R, srcCpl, srcVa, done, n1, from, n);
      ExtendsLess(d, PROT_W, dstCpl, dstVa, done, to, n1, n);
      ghost var mid := ram[..];
      Memcpy(ram, to, from, n);
      ghost var dsts, srcs := Pas(d, PROT_W, dstCpl, dstVa, done), Pas(s, PROT_R, srcCpl, srcVa, done);
      CopiedMore(was, mid, ram[..], dsts, srcs, to, from, n);
      done := done + n;
      copied := done;
    }
    err := false;
  }

  lemma NothingMapped(v: View, access: u64, cpl: nat, base: u64)
    ensures AllMapped(v, access, cpl, base, 0) && Pas(v, access, cpl, base, 0) == []
  {
    hide PaOf;
  }

  /** Distinct destination bytes, none of them a source byte. */
  ghost predicate Apart(dsts: seq<nat>, srcs: seq<nat>) {
    && (forall i, j :: 0 <= i < j < |dsts| ==> dsts[i] != dsts[j])
    && (forall i, j :: 0 <= i < |dsts| && 0 <= j < |srcs| ==> dsts[i] != srcs[j])
  }

  /** When the physical bytes of the two ranges are apart, byte i of the destination is the old byte i
      of the source and nothing else changed. */
  lemma CopyMeans(was: seq<byte>, now: seq<byte>, dsts: seq<nat>, srcs: seq<nat>)
    requires Copied(was, now, dsts, srcs) && Apart(dsts, srcs)
    ensures |now| == |was| && forall i :: 0 <= i < |dsts| ==> now[dsts[i]] == was[srcs[i]]
    ensures forall p :: 0 <= p < |was| && p !in dsts ==> now[p] == was[p]
  {
    hide Move;
    forall i | 0 <= i < |dsts| ensures now[dsts[i]] == was[srcs[i]] { MoveDisjoint(was, dsts, srcs, dsts[i]); }
    forall p | 0 <= p < |was| && p !in dsts ensures now[p] == was[p] { MoveDisjoint(was, dsts, srcs, p); }
  }

  /** Byte i of the destination range reads as the old byte i of the source range did. */
  lemma CopyVaToVaMeans(d: View, dstCpl: nat, dstVa: u64, s: View, srcCpl: nat, srcVa: u64, was: seq<byte>,
                        now: seq<byte>, len: nat, i: nat)
    requires i < len && AllMapped(d, PROT_W, dstCpl, dstVa, len) && AllMapped(s, PROT_R, srcCpl, srcVa, len)
    requires Copied(was, now, Pas(d, PROT_W, dstCpl, dstVa, len), Pas(s, PROT_R, srcCpl, srcVa, len))
    requires Apart(Pas(d, PROT_W, dstCpl, dstVa, len), Pas(s, PROT_R, srcCpl, srcVa, len))
    ensures var to, from := PaOf(d, PROT_W, dstCpl, VaAt(dstVa, i)), PaOf(s, PROT_R, srcCpl, VaAt(srcVa, i));
      && to.Some? && from.Some? && to.value < |now| && from.value < |was| && now[to.value] == was[from.value]
  {
    hide PaOf, Move;
    CopyMeans(was, now, Pas(d, PROT_W, dstCpl, dstVa, len), Pas(s, PROT_R, srcCpl, srcVa, len));
    assert InRange(was, Pas(d, PROT_W, dstCpl, dstVa, len));
  }
}
