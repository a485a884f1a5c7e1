/** The tables of set_user_mode_page_table (src/shv-user.c) in its three builds: identity tables with
    4 KB pages, filled at the first call.  The loops are proved to do the assignments of `Program` one
    by one; the lock around the call is the subject of UserLock.
 */
module UserTables {
  import opened Bitfield
  import opened Hpt
  import opened Paging
  import opened UserLock
  import opened UserPrograms

  /** One assignment more. */
  lemma Assigned(start: seq<seq<u64>>, ws: seq<Write>, w: Write)
    ensures AssignAll(start, ws + [w]) == Assign(AssignAll(start, ws), w)
  {
    assert (ws + [w])[..|ws|] == ws;
  }

  /** 4-level paging: four loops, one per level. */
  class LongTables {
    const pml4t: array<u64>
    const pdpt: array<u64>
    const pdt: array<u64>
    const pt: array<u64>
    const pml4tAt: u64
    const pdptAt: u64
    const pdtAt: u64
    const ptAt: u64
    const limit: nat
    var initialized: u64

    /** The static arrays before the first call. */
    constructor (pml4t: array<u64>, pdpt: array<u64>, pdt: array<u64>, pt: array<u64>,
                 pml4tAt: u64, pdptAt: u64, pdtAt: u64, ptAt: u64, limit: nat)
      requires PlanOk(Plan(Long, limit, [0, ptAt, pdtAt, pdptAt, pml4tAt]))
      requires pml4t.Length == Size(Long, true, limit, 4) && pdpt.Length == Size(Long, true, limit, 3)
      requires pdt.Length == Size(Long, true, limit, 2) && pt.Length == Size(Long, true, limit, 1)
      requires pml4t != pdpt && pml4t != pdt && pml4t != pt && pdpt != pdt && pdpt != pt && pdt != pt
      ensures Valid() && initialized == 0 && PlanOf() == Plan(Long, limit, [0, ptAt, pdtAt, pdptAt, pml4tAt])
      ensures this.pml4t == pml4t && this.pdpt == pdpt && this.pdt == pdt && this.pt == pt
    {
      this.pml4t, this.pdpt, this.pdt, this.pt := pml4t, pdpt, pdt, pt;
      this.pml4tAt, this.pdptAt, this.pdtAt, this.ptAt := pml4tAt, pdptAt, pdtAt, ptAt;
      this.limit, initialized := limit, 0;
    }

    ghost predicate Valid()
      reads this, pml4t, pdpt, pdt, pt
    {
      && Layout()
      && (initialized != 0 ==> initialized == pml4tAt && Filled())
    }

    ghost predicate Layout() {
      && PlanOk(PlanOf())
      && pml4t.Length == Size(Long, true, limit, 4) && pdpt.Length == Size(Long, true, limit, 3)
      && pdt.Length == Size(Long, true, limit, 2) && pt.Length == Size(Long, true, limit, 1)
      && pml4t != pdpt && pml4t != pdt && pml4t != pt && pdpt != pdt && pdpt != pt && pdt != pt
    }

    function PlanOf(): (p: Plan)
      ensures |p.at| == MaxLvl(p.t) + 1
    {
      Plan(Long, limit, [0, ptAt, pdtAt, pdptAt, pml4tAt])
    }

    function ArrayOf(l: nat): array<u64>
      requires 1 <= l <= 4
    {
      if l == 4 then pml4t else if l == 3 then pdpt else if l == 2 then pdt else pt
    }

    ghost function Contents(): (c: seq<seq<u64>>)
      reads pml4t, pdpt, pdt, pt
      ensures |c| == 5
    {
      [[], pt[..], pdt[..], pdpt[..], pml4t[..]]
    }

    ghost predicate Filled()
      reads pml4t, pdpt, pdt, pt
    {
      TablesFilled(Long, true, limit, FlatsOf(PlanOf().at, Contents()))
    }

    /** The loop for level `l`, after the assignments `done`. */
    method FillLevel(l: nat, ghost start: seq<seq<u64>>, ghost done: seq<Write>)
      requires Layout() && 1 <= l <= 4 && Contents() == AssignAll(start, done)
      modifies ArrayOf(l)
      ensures Contents() == AssignAll(start, done + Loop(PlanOf(), l))
    {
      hide AssignAll, Or64, Size, Count, FillOf, Address;
      var a, f := ArrayOf(l), LoopOf(PlanOf(), l);
      ghost var ws := Loop(PlanOf(), l);
      CountsFit(Long, true, limit, l);
      LoopCount(PlanOf(), l);
      FirstAddress(f);
      var i, paddr := 0, f.base;
      assert done + ws[..0] == done;
      while i < f.count
        invariant 0 <= i <= f.count && paddr == Address(f, i)
        invariant Contents() == AssignAll(start, done + ws[..i])
      {
        ghost var before := Contents();
        a[i] := Or64(f.flags, paddr);
        assert ws[i] == Put(PlanOf(), l, i) == Write(l, i, a[i]);
        assert Contents() == Assign(before, ws[i]);
        Assigned(start, done + ws[..i], ws[i]);
        assert done + ws[..i] + [ws[i]] == done + ws[..i + 1];
        NextAddress(f, i);
        i, paddr := i + 1, (paddr + f.step) % 0x1_0000_0000_0000_0000;
      }
      assert ws[..i] == ws;
    }

    method SetUserModePageTable() returns (cr3: u64)
      requires Valid()
      modifies this`initialized, pml4t, pdpt, pdt, pt
      ensures Valid() && cr3 == initialized == pml4tAt && Filled()
      ensures old(initialized) == 0 ==> Contents() == AssignAll(old(Contents()), Program(PlanOf()))
      ensures old(initialized) != 0 ==> Contents() == old(Contents())
    {
      hide AssignAll, Size, PlanOk, TablesFilled, FlatsOf, Loop;
      if initialized == 0 {
        ghost var p, start := PlanOf(), Contents();
        NothingAssigned(start);
        FillLevel(4, start, []);
        FillLevel(3, start, [] + Loop(p, 4));
        FillLevel(2, start, [] + Loop(p, 4) + Loop(p, 3));
        FillLevel(1, start, [] + Loop(p, 4) + Loop(p, 3) + Loop(p, 2));
        assert [] + Loop(p, 4) + Loop(p, 3) + Loop(p, 2) + Loop(p, 1) == Program(p);
        ProgramFills(p, start);
        initialized := pml4tAt;
      }
      cr3 := initialized;
    }
  }

  lemma NothingAssigned(start: seq<seq<u64>>)
    ensures AssignAll(start, []) == start
  {
  }

  /** Entry `i` of the nested loops: its own assignment, then those of the table below it. */
  lemma NestedNext(p: Plan, l: nat, from: nat, n: nat, done: seq<Write>)
    requires LvlIsValid(p.t, l) && |p.at| == MaxLvl(p.t) + 1
    ensures done + Nested(p, l, from, n) + [Put(p, l, from + n)] + Below(p, l, from + n)
      == done + Nested(p, l, from, n + 1)
  {
    hide Put, Below;
    var x := Nested(p, l, from, n);
    var own, below := [Put(p, l, from + n)], Below(p, l, from + n);
    assert done + x + own + below == done + (x + own + below);
  }

  lemma LeafNext(p: Plan, from: nat, n: nat, done: seq<Write>)
    requires |p.at| == MaxLvl(p.t) + 1
    ensures done + Nested(p, 1, from, n) + [Put(p, 1, from + n)] == done + Nested(p, 1, from, n + 1)
  {
    hide Put, Nested;
    NestedNext(p, 1, from, n, done);
    var x := done + Nested(p, 1, from, n) + [Put(p, 1, from + n)];
    assert x + Below(p, 1, from + n) == x;
  }

  lemma NestedNone(p: Plan, l: nat, from: nat, done: seq<Write>)
    requires LvlIsValid(p.t, l) && |p.at| == MaxLvl(p.t) + 1
    ensures done + Nested(p, l, from, 0) == done
  {
  }

  /** PAE paging: the arrays of the lower levels have two and three dimensions, laid out row after row;
      the loops are nested. */
  class PaeTables {
    const pdpt: array<u64>
    const pdt: array<u64>
    const pt: array<u64>
    const pdptAt: u64
    const pdtAt: u64
    const ptAt: u64
    var initialized: u64

    constructor (pdpt: array<u64>, pdt: array<u64>, pt: array<u64>, pdptAt: u64, pdtAt: u64, ptAt: u64)
      requires PlanOk(Plan(Pae, 0x1_0000_0000, [0, ptAt, pdtAt, pdptAt]))
      requires pdpt.Length == 4 && pdt.Length == 4 * 512 && pt.Length == 4 * 512 * 512
      requires pdpt != pdt && pdpt != pt && pdt != pt
      ensures Valid() && initialized == 0 && PlanOf() == Plan(Pae, 0x1_0000_0000, [0, ptAt, pdtAt, pdptAt])
      ensures this.pdpt == pdpt && this.pdt == pdt && this.pt == pt
    {
      this.pdpt, this.pdt, this.pt := pdpt, pdt, pt;
      this.pdptAt, this.pdtAt, this.ptAt := pdptAt, pdtAt, ptAt;
      initialized := 0;
    }

    ghost predicate Valid()
      reads this, pdpt, pdt, pt
    {
      && Layout()
      && (initialized != 0 ==> initialized == pdptAt && Filled())
    }

    ghost predicate Layout() {
      && PlanOk(PlanOf())
      && pdpt.Length == 4 && pdt.Length == 4 * 512 && pt.Length == 4 * 512 * 512
      && pdpt != pdt && pdpt != pt && pdt != pt
    }

    function PlanOf(): (p: Plan)
      ensures |p.at| == MaxLvl(p.t) + 1
    {
      Plan(Pae, 0x1_0000_0000, [0, ptAt, pdtAt, pdptAt])
    }

    ghost function Contents(): (c: seq<seq<u64>>)
      reads pdpt, pdt, pt
      ensures |c| == 4
    {
      [[], pt[..], pdt[..], pdpt[..]]
    }

    ghost predicate Filled()
      reads pdpt, pdt, pt
    {
      TablesFilled(Pae, true, 0x1_0000_0000, FlatsOf(PlanOf().at, Contents()))
    }

    /** The innermost loop: page table `q`, from address `paddr0` on. */
    method FillTable(q: nat, paddr0: nat, ghost start: seq<seq<u64>>, ghost done: seq<Write>) returns (paddr: nat)
      requires Layout() && q < 4 * 512 && paddr0 == q * 512 * 0x1000 && Contents() == AssignAll(start, done)
      modifies pt
      ensures paddr == (q + 1) * 512 * 0x1000
      ensures Contents() == AssignAll(start, done + Nested(PlanOf(), 1, q * 512, 512))
    {
      hide AssignAll, Or64, Nested;
      ghost var p := PlanOf();
      var k := 0;
      paddr := paddr0;
      NestedNone(p, 1, q * 512, done);
      while k < 512
        invariant 0 <= k <= 512 && paddr == (q * 512 + k) * 0x1000
        invariant Contents() == AssignAll(start, done + Nested(p, 1, q * 512, k))
      {
        ghost var before, w := Contents(), Put(p, 1, q * 512 + k);
        pt[q * 512 + k] := Or64(7, paddr);
        assert w == Write(1, q * 512 + k, pt[q * 512 + k]);
        assert Contents() == Assign(before, w);
        Assigned(start, done + Nested(p, 1, q * 512, k), w);
        LeafNext(p, q * 512, k, done);
        k, paddr := k + 1, paddr + 0x1000;
      }
    }

    /** The loop in the middle: page directory `i`. */
    method FillDirectory(i: nat, paddr0: nat, ghost start: seq<seq<u64>>, ghost done: seq<Write>) returns (paddr: nat)
      requires Layout() && i < 4 && paddr0 == i * 512 * 512 * 0x1000 && Contents() == AssignAll(start, done)
      modifies pdt, pt
      ensures paddr == (i + 1) * 512 * 512 * 0x1000
      ensures Contents() == AssignAll(start, done + Nested(PlanOf(), 2, i * 512, 512))
    {
      hide AssignAll, Or64, Nested;
      ghost var p := PlanOf();
      var j := 0;
      paddr := paddr0;
      NestedNone(p, 2, i * 512, done);
      while j < 512
        invariant 0 <= j <= 512 && paddr == (i * 512 + j) * 512 * 0x1000
        invariant Contents() == AssignAll(start, done + Nested(p, 2, i * 512, j))
      {
        var q := i * 512 + j;
        ghost var before, ws, w := Contents(), done + Nested(p, 2, i * 512, j), Put(p, 2, q);
        pdt[q] := Or64(7, (ptAt + q * 0x1000) % 0x1_0000_0000_0000_0000);
        assert w == Write(2, q, pdt[q]);
        assert Contents() == Assign(before, w);
        Assigned(start, ws, w);
        paddr := FillTable(q, paddr, start, ws + [w]);
        NestedNext(p, 2, i * 512, j, done);
        j := j + 1;
      }
    }

    method SetUserModePageTable() returns (cr3: u64)
      requires Valid()
      modifies this`initialized, pdpt, pdt, pt
      ensures Valid() && cr3 == initialized == pdptAt && Filled()
      ensures old(initialized) == 0 ==> Contents() == AssignAll(old(Contents()), Program(PlanOf()))
      ensures old(initialized) != 0 ==> Contents() == old(Contents())
    {
      hide AssignAll, Or64, Nested, TablesFilled, FlatsOf;
      if initialized == 0 {
        ghost var p, start := PlanOf(), Contents();
        NothingAssigned(start);
        NestedNone(p, 3, 0, []);
        var i, paddr := 0, 0;
        while i < 4
          invariant 0 <= i <= 4 && paddr == i * 512 * 512 * 0x1000 && initialized == 0
          invariant Contents() == AssignAll(start, [] + Nested(p, 3, 0, i))
        {
          ghost var before, ws, w := Contents(), [] + Nested(p, 3, 0, i), Put(p, 3, i);
          pdpt[i] := Or64(1, (pdtAt + i * 0x1000) % 0x1_0000_0000_0000_0000);
          assert w == Write(3, i, pdpt[i]);
          assert Contents() == Assign(before, w);
          Assigned(start, ws, w);
          paddr := FillDirectory(i, paddr, start, ws + [w]);
          NestedNext(p, 3, 0, i, []);
          i := i + 1;
        }
        assert [] + Nested(p, 3, 0, 4) == Program(p);
        ProgramFills(p, start);
        initialized := pdptAt;
      }
      cr3 := initialized;
    }
  }

  /** 32-bit paging: words of 32 bits, two levels. */
  class NormTables {
    const pdt: array<u32>
    const pt: array<u32>
    const pdtAt: u64
    const ptAt: u64
    var initialized: u64

    constructor (pdt: array<u32>, pt: array<u32>, pdtAt: u64, ptAt: u64)
      requires PlanOk(Plan(Norm, 0x1_0000_0000, [0, ptAt, pdtAt]))
      requires pdt.Length == 1024 && pt.Length == 1024 * 1024 && pdt != pt
      ensures Valid() && initialized == 0 && PlanOf() == Plan(Norm, 0x1_0000_0000, [0, ptAt, pdtAt])
      ensures this.pdt == pdt && this.pt == pt
    {
      this.pdt, this.pt, this.pdtAt, this.ptAt, initialized := pdt, pt, pdtAt, ptAt, 0;
    }

    ghost predicate Valid()
      reads this, pdt, pt
    {
      && Layout()
      && (initialized != 0 ==> initialized == pdtAt && Filled())
    }

    ghost predicate Layout() {
      PlanOk(PlanOf()) && pdt.Length == 1024 && pt.Length == 1024 * 1024 && pdt != pt
    }

    function PlanOf(): (p: Plan)
      ensures |p.at| == MaxLvl(p.t) + 1
    {
      Plan(Norm, 0x1_0000_0000, [0, ptAt, pdtAt])
    }

    ghost function Contents(): (c: seq<seq<u64>>)
      reads pdt, pt
      ensures |c| == 3
    {
      [[], pt[..], pdt[..]]
    }

    ghost predicate Filled()
      reads pdt, pt
    {
      TablesFilled(Norm, true, 0x1_0000_0000, FlatsOf(PlanOf().at, Contents()))
    }

    /** The inner loop: page table `i`, from address `paddr0` on. */
    method FillTable(i: nat, paddr0: nat, ghost start: seq<seq<u64>>, ghost done: seq<Write>) returns (paddr: nat)
      requires Layout() && i < 1024 && paddr0 == i * 1024 * 0x1000 && Contents() == AssignAll(start, done)
      modifies pt
      ensures paddr == (i + 1) * 1024 * 0x1000
      ensures Contents() == AssignAll(start, done + Nested(PlanOf(), 1, i * 1024, 1024))
    {
      hide AssignAll, Or64, Nested;
      ghost var p := PlanOf();
      var j := 0;
      paddr := paddr0;
      NestedNone(p, 1, i * 1024, done);
      while j < 1024
        invariant 0 <= j <= 1024 && paddr == (i * 1024 + j) * 0x1000
        invariant Contents() == AssignAll(start, done + Nested(p, 1, i * 1024, j))
      {
        ghost var before, w := Contents(), Put(p, 1, i * 1024 + j);
        Narrow(7, paddr);
        pt[i * 1024 + j] := Or64(7, paddr);
        assert w == Write(1, i * 1024 + j, pt[i * 1024 + j]);
        assert Contents() == Assign(before, w);
        Assigned(start, done + Nested(p, 1, i * 1024, j), w);
        LeafNext(p, i * 1024, j, done);
        j, paddr := j + 1, paddr + 0x1000;
      }
    }

    method SetUserModePageTable() returns (cr3: u64)
      requires Valid()
      modifies this`initialized, pdt, pt
      ensures Valid() && cr3 == initialized == pdtAt && Filled()
      ensures old(initialized) == 0 ==> Contents() == AssignAll(old(Contents()), Program(PlanOf()))
      ensures old(initialized) != 0 ==> Contents() == old(Contents())
    {
      hide AssignAll, Or64, Nested, TablesFilled, FlatsOf;
      if initialized == 0 {
        ghost var p, start := PlanOf(), Contents();
        NothingAssigned(start);
        NestedNone(p, 2, 0, []);
        var i, paddr := 0, 0;
        while i < 1024
          invariant 0 <= i <= 1024 && paddr == i * 1024 * 0x1000 && initialized == 0
          invariant Contents() == AssignAll(start, [] + Nested(p, 2, 0, i))
        {
          ghost var before, ws, w := Contents(), [] + Nested(p, 2, 0, i), Put(p, 2, i);
          Narrow(7, ptAt + i * 0x1000);
          pdt[i] := Or64(7, ptAt + i * 0x1000);
          assert w == Write(2, i, pdt[i]);
          assert Contents() == Assign(before, w);
          Assigned(start, ws, w);
          paddr := FillTable(i, paddr, start, ws + [w]);
          NestedNext(p, 2, 0, i, []);
          i := i + 1;
        }
        assert [] + Nested(p, 2, 0, 1024) == Program(p);
        ProgramFills(p, start);
        initialized := pdtAt;
      }
      cr3 := initialized;
    }
  }
}
