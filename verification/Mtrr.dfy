/** Memory type of an address from the variable-range registers (src/shv-ept.c), against the precedences
    of section 11.11.4.1 of Intel SDM Volume 3A.
 */
module Mtrr {
  import opened Bitfield

  const UC := 0
  const WC := 1
  const WT := 4
  const WP := 5
  const WB := 6
  /** The start value of the loop, "no range so far"; reserved, so no register should declare it. */
  const RESV := 7

  datatype Range = Range(base: u64, mask: u64)

  datatype Outcome = Halt | Type(t: nat)

  /** C does not define a shift of a word by its width or more. */
  datatype Result = Defined(outcome: Outcome) | Undefined

  function TypeOf(r: Range): nat {
    And(r.base, 0xFF)
  }

  /** The register is valid and its range has the address. */
  predicate Matches(r: Range, addr: u64) {
    && And(r.mask, 0x800) != 0
    && And(addr, And(r.mask, Not(0xFFF))) == And(And(r.base, Not(0xFFF)), And(r.mask, Not(0xFFF)))
  }

  /** The types of the matching ranges, in order. */
  function Matching(rs: seq<Range>, addr: u64): (r: seq<nat>) {
    if rs == [] then []
    else
      var n := |rs| - 1;
      Matching(rs[..n], addr) + if Matches(rs[n], addr) then [TypeOf(rs[n])] else []
  }

  /** One range against the type of the ranges before it. */
  function Combine(prev: nat, cur: nat): Outcome {
    if prev == RESV || prev == cur then Type(cur)
    else if prev == UC || cur == UC then Type(UC)
    else if prev == WB && cur == WT then Type(WT)
    else if prev == WT && cur == WB then Type(WT)
    else Halt
  }

  function Fold(ts: seq<nat>): Outcome {
    if ts == [] then Type(RESV)
    else
      var n := |ts| - 1;
      var before := Fold(ts[..n]);
      if before.Halt? then Halt else Combine(before.t, ts[n])
  }

  /** The type of an address: that of the ranges that have it, or the default; UC while the registers are
      not enabled. */
  function MemType(enabled: bool, rs: seq<Range>, addr: u64, dflt: nat): Outcome {
    if !enabled then Type(UC)
    else
      var f := Fold(Matching(rs, addr));
      if f == Type(RESV) then Type(dflt) else f
  }

  /** ept_get_mem_type, where the fixed ranges do not apply. */
  method VariableMemType(enabled: bool, rs: seq<Range>, addr: u64, dflt: nat) returns (r: Outcome)
    ensures r == MemType(enabled, rs, addr, dflt)
  {
    hide Matches, TypeOf;
    if !enabled {
      return Type(UC);
    }
    var prev: nat, i: nat := RESV, 0;
    assert rs[..0] == [];
    while i < |rs|
      invariant i <= |rs| && Fold(Matching(rs[..i], addr)) == Type(prev)
    {
      NextRange(rs, addr, i);
      if Matches(rs[i], addr) {
        var c := Combine(prev, TypeOf(rs[i]));
        if c.Halt? {
          HaltStays(rs, addr, i + 1, |rs|);
          assert rs[..|rs|] == rs;
          return Halt;
        }
        prev := c.t;
      }
      i := i + 1;
    }
    assert rs[..i] == rs;
    r := Type(if prev == RESV then dflt else prev);
  }

  // ----- the fixed ranges below 1 MB -----

  /** A register of eight types, for the addresses [start, end) in steps. */
  datatype Fixed = Fixed(start: nat, step: nat, end: nat)

  const FIXED_END := 0x10_0000

  const FIXED_RANGES := [
    Fixed(0x00000, 0x10000, 0x80000),
    Fixed(0x80000, 0x4000, 0xA0000), Fixed(0xA0000, 0x4000, 0xC0000),
    Fixed(0xC0000, 0x1000, 0xC8000), Fixed(0xC8000, 0x1000, 0xD0000),
    Fixed(0xD0000, 0x1000, 0xD8000), Fixed(0xD8000, 0x1000, 0xE0000),
    Fixed(0xE0000, 0x1000, 0xE8000), Fixed(0xE8000, 0x1000, 0xF0000),
    Fixed(0xF0000, 0x1000, 0xF8000), Fixed(0xF8000, 0x1000, 0x100000)]

  function WrappedDifference(x: nat, y: u64): nat {
    (x + 0x1_0000_0000_0000_0000 - y) % 0x1_0000_0000_0000_0000
  }

  /** The index as computed: the start minus the address, in 64 bits, truncated to 32 bits. */
  function FixedIndex(f: Fixed, addr: u64): (r: nat)
    requires f.step > 0
    ensures r < 0x1_0000_0000
  {
    WrappedDifference(f.start, addr) / f.step % 0x1_0000_0000
  }

  function FixedShift(f: Fixed, addr: u64): nat
    requires f.step > 0
  {
    FixedIndex(f, addr) * 8 % 0x1_0000_0000
  }

  /** ept_get_mem_type */
  method EptGetMemType(enabled: bool, fixedEnabled: bool, fixed: seq<u64>, rs: seq<Range>, addr: u64, dflt: nat)
    returns (r: Result)
    requires |fixed| == |FIXED_RANGES|
    ensures !enabled ==> r == Defined(Type(UC))
    ensures enabled && !(addr < FIXED_END && fixedEnabled) ==> r == Defined(MemType(enabled, rs, addr, dflt))
    ensures enabled && addr < FIXED_END && fixedEnabled ==>
      exists i: nat :: i < |FIXED_RANGES| && FIXED_RANGES[i].start <= addr < FIXED_RANGES[i].end &&
        r == if addr == FIXED_RANGES[i].start then Defined(Type(fixed[i] % 0x100)) else Undefined
  {
    hide Shr, Fold, Matching;
    if enabled && addr < FIXED_END && fixedEnabled {
      var i := 0;
      while i < |FIXED_RANGES|
        invariant 0 <= i <= |FIXED_RANGES|
        invariant i > 0 ==> FIXED_RANGES[i - 1].end <= addr
      {
        var f := FIXED_RANGES[i];
        if addr < f.end {
          FixedExactly(i, addr);
          var shift := FixedShift(f, addr);
          if shift >= 64 {
            return Undefined;
          }
          ShrValue(fixed[i], shift);
          return Defined(Type(Shr(fixed[i], shift) % 0x100));
        }
        i := i + 1;
      }
      assert false;
    }
    var o := VariableMemType(enabled, rs, addr, dflt);
    r := Defined(o);
  }

  /** The ranges are next to each other, of eight steps each, from 0 to 1 MB. */
  lemma FixedRangesAdjoin(i: nat)
    requires i < |FIXED_RANGES|
    ensures FIXED_RANGES[i].end == FIXED_RANGES[i].start + 8 * FIXED_RANGES[i].step
    ensures FIXED_RANGES[i].start == if i == 0 then 0 else FIXED_RANGES[i - 1].end
    ensures i == |FIXED_RANGES| - 1 ==> FIXED_RANGES[i].end == 0x10_0000
  {
  }

  /** The shift is defined exactly at the start of a range, and right there. */
  lemma FixedExactly(i: nat, addr: u64)
    requires i < |FIXED_RANGES| && (i > 0 ==> FIXED_RANGES[i - 1].end <= addr) && addr < FIXED_RANGES[i].end
    ensures var f := FIXED_RANGES[i];
      && f.start <= addr
      && (FixedShift(f, addr) < 64 <==> addr == f.start)
      && (FixedIndex(f, addr) == (addr - f.start) / f.step <==> addr == f.start)
      && (addr == f.start ==> FixedShift(f, addr) == 0)
  {
    hide FixedIndex;
    var f := FIXED_RANGES[i];
    var d := addr - f.start;
    if f.step == 0x10000 {
      ShiftIs(f, addr, d, 0x1_0000_0000_0000, 0x1_0000);
    } else if f.step == 0x4000 {
      ShiftIs(f, addr, d, 0x4_0000_0000_0000, 0x4_0000);
    } else {
      ShiftIs(f, addr, d, 0x10_0000_0000_0000, 0x10_0000);
    }
  }

  /** `n` steps make 2^64, and `n` is `k` times 2^32. */
  lemma ShiftIs(f: Fixed, addr: u64, d: nat, n: nat, k: nat)
    requires f.step > 0 && n * f.step == 0x1_0000_0000_0000_0000 && n == k * 0x1_0000_0000 && k > 0
    requires addr == f.start + d && d < 8 * f.step
    ensures d == 0 ==> FixedIndex(f, addr) == 0
    ensures d > 0 ==> FixedIndex(f, addr) >= 0xFFFF_FFF8
    ensures d / f.step < 8
  {
    hide WrappedDifference;
    var step, x := f.step, WrappedDifference(f.start, addr);
    QuotientBelow(d, step, 8);
    DifferenceIs(f.start, d, addr);
    if d == 0 {
      ModUnique(0, step, 0, 0);
    } else {
      var up := (d - 1) / step + 1;
      QuotientBelow(d - 1, step, 8);
      EightAtMost(n, k);
      RoundedUp(n, step, d, up);
      assert x / step == n - up;
      LowWord(n, k, up);
    }
  }

  lemma EightAtMost(n: nat, k: nat)
    requires n == k * 0x1_0000_0000 && k > 0
    ensures n > 8
  {
  }

  lemma LowWord(n: nat, k: nat, up: nat)
    requires n == k * 0x1_0000_0000 && k > 0 && 0 < up <= 8
    ensures n > up && (n - up) % 0x1_0000_0000 == 0x1_0000_0000 - up
  {
    ModUnique(n - up, 0x1_0000_0000, k - 1, 0x1_0000_0000 - up);
  }

  lemma DifferenceIs(start: nat, d: nat, addr: u64)
    requires addr == start + d
    ensures WrappedDifference(start, addr) == if d == 0 then 0 else 0x1_0000_0000_0000_0000 - d
  {
  }

  /** Dividing what is `d` short of `n` steps. */
  lemma RoundedUp(n: nat, step: nat, d: nat, up: nat)
    requires step > 0 && 0 < d && up == (d - 1) / step + 1 && up <= n
    ensures n * step >= d && (n * step - d) / step == n - up
  {
    var r := up * step - d;
    assert d - 1 == (up - 1) * step + (d - 1) % step;
    assert up * step == (up - 1) * step + step;
    MulOrder(up, n, step);
    assert (n - up) * step == n * step - up * step;
    ModUnique(n * step - d, step, n - up, r);
  }

  lemma QuotientBelow(x: nat, m: nat, n: nat)
    requires m > 0 && x < n * m
    ensures x / m < n
  {
    var q := x / m;
    assert x == q * m + x % m;
    if n <= q { MulOrder(n, q, m); }
  }

  lemma NextRange(rs: seq<Range>, addr: u64, i: nat)
    requires i < |rs|
    ensures var before, now := Matching(rs[..i], addr), Matching(rs[..i + 1], addr);
      now == before + (if Matches(rs[i], addr) then [TypeOf(rs[i])] else [])
      && Fold(now) == if !Matches(rs[i], addr) then Fold(before)
                      else if Fold(before).Halt? then Halt else Combine(Fold(before).t, TypeOf(rs[i]))
  {
    hide Matches, TypeOf;
    assert rs[..i + 1][..i] == rs[..i];
    var before, now := Matching(rs[..i], addr), Matching(rs[..i + 1], addr);
    if Matches(rs[i], addr) {
      assert now[..|now| - 1] == before;
    } else {
      assert now == before;
    }
  }

  lemma {:induction false} HaltStays(rs: seq<Range>, addr: u64, i: nat, j: nat)
    requires i <= j <= |rs| && Fold(Matching(rs[..i], addr)) == Halt
    ensures Fold(Matching(rs[..j], addr)) == Halt
    decreases j
  {
    hide Matches, TypeOf, Combine, Matching;
    if i >= j {
    } else {
      HaltStays(rs, addr, i, j - 1);
      NextRange(rs, addr, j - 1);
    }
  }

  // ----- meaning -----

  /** UC wins; WT wins over WB; otherwise there must be one type. */
  ghost predicate Precedence(ts: seq<nat>, t: nat) {
    if UC in ts then t == UC
    else if WT in ts && WB in ts then t == WT
    else t in ts && Only(ts, t)
  }

  /** No two types that the manual leaves undefined. */
  ghost predicate Compatible(ts: seq<nat>) {
    OnlyWriteBackOrThrough(ts) || exists t: nat :: Only(ts, t)
  }

  ghost predicate OnlyWriteBackOrThrough(ts: seq<nat>) {
    forall x :: x in ts ==> x == WT || x == WB
  }

  ghost predicate Only(ts: seq<nat>, t: nat) {
    forall x :: x in ts ==> x == t
  }

  /** The types without leading reserved ones, which the loop takes for "no range so far". */
  function Effective(ts: seq<nat>): (r: seq<nat>)
    ensures r == [] || r[0] != RESV
    ensures forall x :: x in r ==> x in ts
    ensures forall x :: x in ts && x != RESV ==> x in r
  {
    if ts == [] || ts[0] != RESV then ts else Effective(ts[1..])
  }

  lemma {:induction false} LeadingReserved(ts: seq<nat>)
    ensures Fold([RESV] + ts) == Fold(ts)
  {
    hide Combine;
    if ts == [] {
      Append([], RESV);
      assert [] + [RESV] == [RESV] + ts;
      FirstCombined(RESV);
    } else {
      var before, t := ts[..|ts| - 1], ts[|ts| - 1];
      LeadingReserved(before);
      Append([RESV] + before, t);
      Append(before, t);
      assert [RESV] + before + [t] == [RESV] + ts && before + [t] == ts;
    }
  }

  lemma FirstCombined(t: nat)
    ensures Combine(RESV, t) == Type(t)
  {
  }

  lemma {:induction false} FoldEffective(ts: seq<nat>)
    ensures Fold(ts) == Fold(Effective(ts))
  {
    hide Fold;
    if ts != [] && ts[0] == RESV {
      assert ts == [RESV] + ts[1..];
      LeadingReserved(ts[1..]);
      FoldEffective(ts[1..]);
    }
  }

  function BeforeUncached(ts: seq<nat>): seq<nat> {
    if ts == [] || ts[0] == UC then [] else [ts[0]] + BeforeUncached(ts[1..])
  }

  lemma {:induction false} BeforeLast(ts: seq<nat>, t: nat)
    ensures UC !in BeforeUncached(ts) && (forall x :: x in BeforeUncached(ts) ==> x in ts)
    ensures BeforeUncached(ts + [t]) == if UC in ts then BeforeUncached(ts) else if t == UC then ts else ts + [t]
    ensures UC !in ts ==> BeforeUncached(ts) == ts
  {
    if ts == [] {
      assert ts + [t] == [t] && [t][1..] == [];
    } else if ts[0] != UC {
      assert (ts + [t])[1..] == ts[1..] + [t];
      BeforeLast(ts[1..], t);
      assert ts == [ts[0]] + ts[1..];
    }
  }

  /** For any types at all: the fold halts exactly when incompatible types come before the first UC, and
      otherwise gives the type of highest precedence. */
  lemma FoldMeans(ts: seq<nat>)
    ensures var e := Effective(ts);
      && (Fold(ts).Halt? <==> !Compatible(BeforeUncached(e)))
      && (e == [] ==> Fold(ts) == Type(RESV))
      && (e != [] && Fold(ts).Type? ==> Precedence(e, Fold(ts).t))
  {
    hide Fold;
    FoldEffective(ts);
    FoldFrom(Effective(ts));
  }

  lemma {:induction false} FoldFrom(ts: seq<nat>)
    requires ts == [] || ts[0] != RESV
    ensures Fold(ts).Halt? <==> !Compatible(BeforeUncached(ts))
    ensures ts == [] ==> Fold(ts) == Type(RESV)
    ensures ts != [] && Fold(ts).Type? ==> Precedence(ts, Fold(ts).t)
  {
    hide Combine;
    if ts != [] {
      var n := |ts| - 1;
      var before, t := ts[..n], ts[n];
      assert ts == before + [t];
      FoldFrom(before);
      BeforeLast(before, t);
      CombineWithUncached(t);
      if UC !in ts {
        if Compatible(ts) { Smaller(before, t); }
        if Fold(before).Type? { CombineMeans(before, t, Fold(before).t); }
      } else if UC !in before && Fold(before).Type? {
        CombineWithUncached(Fold(before).t);
      }
    } else {
      assert Only(ts, 0);
    }
  }

  lemma CombineWithUncached(t: nat)
    ensures Combine(UC, t) == Type(UC) && Combine(t, UC) == Type(UC)
  {
  }

  lemma Smaller(ts: seq<nat>, t: nat)
    requires Compatible(ts + [t])
    ensures Compatible(ts)
  {
    assert forall x :: x in ts ==> x in ts + [t];
    if !OnlyWriteBackOrThrough(ts + [t]) {
      var u: nat :| Only(ts + [t], u);
      assert Only(ts, u);
    }
  }

  lemma CombineMeans(before: seq<nat>, t: nat, p: nat)
    requires t != UC && UC !in before && Compatible(before)
    requires if before == [] then p == RESV && t != RESV else Precedence(before, p) && before[0] != RESV
    ensures var c, now := Combine(p, t), before + [t];
      (c.Halt? <==> !Compatible(now)) && (c.Type? ==> Precedence(now, c.t))
  {
    var c, now := Combine(p, t), before + [t];
    assert t in now && forall x :: x in now <==> x in before || x == t;
    assert before != [] ==> before[0] in before;
    if c.Halt? {
      assert p in before;
      forall u: nat ensures !Only(now, u) { assert p in now; }
    } else if p == RESV || (p == t && Only(before, t)) {
      assert Only(now, t);
    } else {
      assert OnlyWriteBackOrThrough(now);
    }
  }

  /** Ranges in another order give the same type, unless one of the orders halts. */
  lemma OrderDoesNotMatter(xs: seq<nat>, ys: seq<nat>)
    requires multiset(xs) == multiset(ys)
    requires Fold(xs).Type? && Fold(ys).Type?
    ensures Fold(xs) == Fold(ys)
  {
    assert forall x :: x in xs <==> x in multiset(xs);
    assert forall y :: y in ys <==> y in multiset(ys);
    hide Fold;
    FoldMeans(xs);
    FoldMeans(ys);
    if UC !in xs {
      var ex, ey := Effective(xs), Effective(ys);
      assert forall x :: x in xs <==> x in ys;
      BeforeLast(ex, UC);
      BeforeLast(ey, UC);
      if ex != [] {
        assert ex[0] in ey;
        NoReserved(ex);
        NoReserved(ey);
      } else if ey != [] {
        assert ey[0] in ex;
      }
    }
  }

  lemma NoReserved(ts: seq<nat>)
    requires ts != [] && ts[0] != RESV && Compatible(ts)
    ensures RESV !in ts
  {
    assert ts[0] in ts;
  }

  /** A reserved type is harmless in front and a conflict behind. */
  lemma ReservedInRegister()
    ensures Fold([RESV, WB]) == Type(WB) && Fold([WB, RESV]) == Halt
  {
    Append([], RESV); Append([RESV], WB); Append([], WB); Append([WB], RESV);
    assert [RESV] + [WB] == [RESV, WB] && [WB] + [RESV] == [WB, RESV];
    assert [] + [RESV] == [RESV] && [] + [WB] == [WB];
  }

  // ----- for which types the order does not matter -----

  /** The types other than UC. */
  function Cached(ts: seq<nat>): (r: seq<nat>)
    ensures forall x :: x in r <==> x in ts && x != UC
  {
    if ts == [] then [] else (if ts[0] == UC then [] else [ts[0]]) + Cached(ts[1..])
  }

  /** UC last, the reserved type before it, and all others in front. */
  function Rank(t: nat): nat {
    if t == UC then 2 else if t == RESV then 1 else 0
  }

  function OfRank(ts: seq<nat>, k: nat): (r: seq<nat>)
    ensures forall x :: x in r <==> x in ts && Rank(x) == k
  {
    if ts == [] then [] else (if Rank(ts[0]) == k then [ts[0]] else []) + OfRank(ts[1..], k)
  }

  /** An order that halts if any does. */
  function Worst(ts: seq<nat>): seq<nat> {
    OfRank(ts, 0) + OfRank(ts, 1) + OfRank(ts, 2)
  }

  lemma RankParts(ts: seq<nat>, k: nat)
    requires ts != []
    ensures multiset(OfRank(ts, k)) ==
      (if Rank(ts[0]) == k then multiset{ts[0]} else multiset{}) + multiset(OfRank(ts[1..], k))
  {
    hide Rank;
  }

  lemma {:induction false} WorstIsOrder(ts: seq<nat>)
    ensures multiset(OfRank(ts, 0)) + multiset(OfRank(ts, 1)) + multiset(OfRank(ts, 2)) == multiset(ts)
    ensures multiset(Worst(ts)) == multiset(ts)
  {
    hide OfRank;
    if ts == [] {
      NoneOfRank();
    } else {
      RankParts(ts, 0);
      RankParts(ts, 1);
      RankParts(ts, 2);
      WorstIsOrder(ts[1..]);
      assert ts == [ts[0]] + ts[1..];
    }
  }

  lemma NoneOfRank()
    ensures OfRank([], 0) == OfRank([], 1) == OfRank([], 2) == []
  {
  }

  lemma OnlyReserved(ts: seq<nat>)
    requires OfRank(ts, 0) == []
    ensures Compatible(Cached(ts))
  {
    forall x | x in Cached(ts) ensures x == RESV { assert x !in OfRank(ts, 0); }
    assert Only(Cached(ts), RESV);
  }

  lemma Among(xs: seq<nat>, ys: seq<nat>)
    requires Compatible(xs) && forall y :: y in ys ==> y in xs
    ensures Compatible(ys)
  {
    if !OnlyWriteBackOrThrough(xs) {
      var u: nat :| Only(xs, u);
      assert Only(ys, u);
    }
  }

  /** What comes before the first UC. */
  lemma {:induction false} FrontOf(xs: seq<nat>, ys: seq<nat>)
    requires UC !in xs && (ys == [] || ys[0] == UC)
    ensures BeforeUncached(xs + ys) == xs
  {
    if xs == [] {
      assert xs + ys == ys;
    } else {
      assert (xs + ys)[1..] == xs[1..] + ys;
      FrontOf(xs[1..], ys);
    }
  }

  lemma WorstHalts(ts: seq<nat>)
    requires !Compatible(Cached(ts))
    ensures Fold(Worst(ts)) == Halt
  {
    hide Fold;
    var front, rest := OfRank(ts, 0) + OfRank(ts, 1), OfRank(ts, 2);
    if OfRank(ts, 0) == [] { OnlyReserved(ts); }
    assert Worst(ts)[0] == OfRank(ts, 0)[0] && OfRank(ts, 0)[0] in OfRank(ts, 0);
    assert Effective(Worst(ts)) == Worst(ts);
    assert rest != [] ==> rest[0] in rest;
    FrontOf(front, rest);
    if Compatible(front) { Among(front, Cached(ts)); }
    FoldMeans(Worst(ts));
  }

  /** No order of the types halts iff those other than UC are compatible. */
  lemma NoOrderHalts(xs: seq<nat>)
    ensures (forall ys: seq<nat> | multiset(ys) == multiset(xs) :: Fold(ys).Type?) <==> Compatible(Cached(xs))
  {
    hide Fold;
    if Compatible(Cached(xs)) {
      forall ys: seq<nat> | multiset(ys) == multiset(xs) ensures Fold(ys).Type? {
        assert forall y :: y in ys <==> y in multiset(ys);
        assert forall x :: x in xs <==> x in multiset(xs);
        BeforeLast(Effective(ys), UC);
        Among(Cached(xs), BeforeUncached(Effective(ys)));
        FoldMeans(ys);
      }
    } else {
      WorstIsOrder(xs);
      WorstHalts(xs);
    }
  }

  // ----- the type fits the field of an entry -----

  /** Every valid register declares a type of three digits, as the processor demands. */
  predicate Declared(rs: seq<Range>) {
    forall i :: 0 <= i < |rs| ==> (And(rs[i].mask, 0x800) != 0 ==> TypeOf(rs[i]) < 8)
  }

  lemma {:induction false} MatchingFits(rs: seq<Range>, addr: u64)
    requires Declared(rs)
    ensures forall i :: 0 <= i < |Matching(rs, addr)| ==> Matching(rs, addr)[i] < 8
  {
    hide TypeOf, And;
    if rs == [] {
    } else {
      MatchingFits(rs[..|rs| - 1], addr);
    }
  }

  lemma {:induction false} FoldFits(ts: seq<nat>)
    requires forall i :: 0 <= i < |ts| ==> ts[i] < 8
    ensures Fold(ts).Type? ==> Fold(ts).t < 8
  {
    if ts == [] {
    } else {
      FoldFits(ts[..|ts| - 1]);
    }
  }

  /** With declared types of three digits the result has three digits. */
  lemma MemTypeFits(enabled: bool, rs: seq<Range>, addr: u64, dflt: nat)
    requires Declared(rs) && dflt < 8
    ensures MemType(enabled, rs, addr, dflt).Type? ==> MemType(enabled, rs, addr, dflt).t < 8
  {
    hide Fold, Matching;
    MatchingFits(rs, addr);
    FoldFits(Matching(rs, addr));
  }

  /** Whether the fold halts does depend on the order. */
  lemma HaltDependsOnOrder()
    ensures Fold([UC, WC, WB]) == Type(UC) && Fold([WC, WB, UC]) == Halt
  {
    Append([], UC); Append([UC], WC); Append([UC, WC], WB);
    Append([], WC); Append([WC], WB); Append([WC, WB], UC);
    assert [UC] + [WC] == [UC, WC] && [UC, WC] + [WB] == [UC, WC, WB];
    assert [WC] + [WB] == [WC, WB] && [WC, WB] + [UC] == [WC, WB, UC];
    assert [] + [UC] == [UC] && [] + [WC] == [WC];
  }

  lemma Append(ts: seq<nat>, t: nat)
    ensures Fold(ts + [t]) == if Fold(ts).Halt? then Halt else Combine(Fold(ts).t, t)
  {
    assert (ts + [t])[..|ts|] == ts;
  }
}
