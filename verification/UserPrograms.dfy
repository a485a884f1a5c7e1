/** The assignments of set_user_mode_page_table in the order of its loops, and what they leave. */
module UserPrograms {
  import opened Bitfield
  import opened Hpt
  import PageWalk
  import opened FlatTables
  import opened Paging
  import opened UserLock

  /** Format, mapped limit, and addresses of the arrays by level. */
  datatype Plan = Plan(t: HptType, limit: nat, at: seq<u64>)

  ghost predicate PlanOk(p: Plan) {
    LayoutOk(p.t, true, p.limit, p.at) && (p.t != Long ==> p.limit == 0x1_0000_0000) && p.at[MaxLvl(p.t)] != 0
  }

  function LoopOf(p: Plan, l: nat): Fill
    requires LvlIsValid(p.t, l) && |p.at| == MaxLvl(p.t) + 1
  {
    FillOf(p.t, true, p.limit, p.at, l)
  }

  function Put(p: Plan, l: nat, k: nat): Write
    requires LvlIsValid(p.t, l) && |p.at| == MaxLvl(p.t) + 1
  {
    Write(l, k, Word(LoopOf(p, l), k))
  }

  /** One loop of the 4-level build. */
  function Loop(p: Plan, l: nat): seq<Write>
    requires LvlIsValid(p.t, l) && |p.at| == MaxLvl(p.t) + 1
  {
    seq(LoopOf(p, l).count, (k: nat) => Put(p, l, k))
  }

  /** The nested loops of the other builds: each entry is followed by the table below it. */
  function Nested(p: Plan, l: nat, from: nat, n: nat): seq<Write>
    requires LvlIsValid(p.t, l) && |p.at| == MaxLvl(p.t) + 1
    decreases l, n
  {
    if n == 0 then []
    else
      var i := from + n - 1;
      Nested(p, l, from, n - 1) + [Put(p, l, i)] + Below(p, l, i)
  }

  /** The table below entry `i`. */
  function Below(p: Plan, l: nat, i: nat): seq<Write>
    requires LvlIsValid(p.t, l) && |p.at| == MaxLvl(p.t) + 1
    decreases l, 0
  {
    if l == 1 then [] else Nested(p, l - 1, i * Entries(p.t, l - 1), Entries(p.t, l - 1))
  }

  function Program(p: Plan): seq<Write>
    requires |p.at| == MaxLvl(p.t) + 1 && p.t != Ept
  {
    if p.t == Long then Loop(p, 4) + Loop(p, 3) + Loop(p, 2) + Loop(p, 1)
    else Nested(p, MaxLvl(p.t), 0, Entries(p.t, MaxLvl(p.t)))
  }

  /** Every write is that of its entry, within the filled part; every entry to fill is written. */
  ghost predicate Covers(p: Plan, prog: seq<Write>)
    requires |p.at| == MaxLvl(p.t) + 1
  {
    && (forall w :: w in prog ==> LvlIsValid(p.t, w.lvl) && w.idx < LoopOf(p, w.lvl).count && w == Put(p, w.lvl, w.idx))
    && (forall l, k :: LvlIsValid(p.t, l) && 0 <= k < LoopOf(p, l).count ==> Put(p, l, k) in prog)
  }

  /** Entries of level `m` below one of level `l`. */
  function Under(t: HptType, l: nat, m: nat): nat
    requires 1 <= m <= l <= MaxLvl(t)
    decreases l
  {
    if l == m then 1 else Entries(t, l - 1) * Under(t, l - 1, m)
  }

  lemma {:induction false} NestedSound(p: Plan, l: nat, from: nat, n: nat, w: Write)
    requires LvlIsValid(p.t, l) && |p.at| == MaxLvl(p.t) + 1 && w in Nested(p, l, from, n)
    ensures 1 <= w.lvl <= l && w == Put(p, w.lvl, w.idx) && w.idx < (from + n) * Under(p.t, l, w.lvl)
    decreases l, n
  {
    hide Put, Entries, Under, LoopOf, Nested;
    var i := from + n - 1;
    NestedSplits(p, l, from, n, w);
    if w in Nested(p, l, from, n - 1) {
      NestedSound(p, l, from, n - 1, w);
      OneMore(i, w.idx, Under(p.t, l, w.lvl));
    } else if w == Put(p, l, i) {
      PutIs(p, l, i);
      UnderSelf(p.t, l);
    } else {
      assert l > 1;
      var e := Entries(p.t, l - 1);
      NestedSound(p, l - 1, i * e, e, w);
      UnderNext(p.t, l, w.lvl);
      Unfold(i, e, Under(p.t, l - 1, w.lvl));
    }
  }

  lemma NestedSplits(p: Plan, l: nat, from: nat, n: nat, w: Write)
    requires LvlIsValid(p.t, l) && |p.at| == MaxLvl(p.t) + 1 && w in Nested(p, l, from, n)
    ensures n > 0 && (w in Nested(p, l, from, n - 1) || w == Put(p, l, from + n - 1) || w in Below(p, l, from + n - 1))
  {
    hide Put, Below;
  }

  lemma OneMore(i: nat, k: nat, u: nat)
    requires k < i * u
    ensures k < (i + 1) * u
  {
    MulOrder(i, i + 1, u);
  }

  lemma PutIs(p: Plan, l: nat, i: nat)
    requires LvlIsValid(p.t, l) && |p.at| == MaxLvl(p.t) + 1
    ensures Put(p, l, i).lvl == l && Put(p, l, i).idx == i
  {
  }

  lemma UnderSelf(t: HptType, l: nat)
    requires 1 <= l <= MaxLvl(t)
    ensures Under(t, l, l) == 1
  {
  }

  lemma UnderNext(t: HptType, l: nat, m: nat)
    requires 1 <= m < l <= MaxLvl(t)
    ensures Under(t, l, m) == Entries(t, l - 1) * Under(t, l - 1, m)
  {
  }

  lemma {:induction false} NestedCovers(p: Plan, l: nat, from: nat, n: nat, m: nat, k: nat)
    requires 1 <= m <= l <= MaxLvl(p.t) && |p.at| == MaxLvl(p.t) + 1
    requires from * Under(p.t, l, m) <= k < (from + n) * Under(p.t, l, m)
    ensures Put(p, m, k) in Nested(p, l, from, n)
    decreases l, n
  {
    hide Put, Entries, Under;
    var u := Under(p.t, l, m);
    if n == 0 {
      assert false;
    } else {
      var i := from + n - 1;
      if k < i * u {
        NestedCovers(p, l, from, n - 1, m, k);
      } else if m == l {
        UnderSelf(p.t, l);
      } else {
        var e, v := Entries(p.t, l - 1), Under(p.t, l - 1, m);
        UnderNext(p.t, l, m);
        Unfold(i, e, v);
        NestedCovers(p, l - 1, i * e, e, m, k);
      }
    }
  }

  lemma Unfold(i: nat, e: nat, v: nat)
    ensures i * e * v == i * (e * v) && (i * e + e) * v == (i + 1) * (e * v)
  {
    assert (i * e + e) * v == i * e * v + e * v;
  }

  /** The loops of all three builds write every entry, and only what belongs there. */
  lemma ProgramCovers(p: Plan)
    requires PlanOk(p)
    ensures Covers(p, Program(p))
  {
    hide Put, Nested, Word;
    var prog := Program(p);
    if p.t == Long {
      LoopsCover(p);
    } else {
      var top := MaxLvl(p.t);
      var n := Entries(p.t, top);
      forall w | w in prog
        ensures LvlIsValid(p.t, w.lvl) && w.idx < LoopOf(p, w.lvl).count && w == Put(p, w.lvl, w.idx)
      {
        NestedSound(p, top, 0, n, w);
        NestedCounts(p, w.lvl);
      }
      forall l, k | LvlIsValid(p.t, l) && 0 <= k < LoopOf(p, l).count
        ensures Put(p, l, k) in prog
      {
        NestedCounts(p, l);
        NestedCovers(p, top, 0, n, l, k);
      }
    }
  }

  lemma NestedCounts(p: Plan, l: nat)
    requires PlanOk(p) && p.t != Long && LvlIsValid(p.t, l)
    ensures LoopOf(p, l).count == Entries(p.t, MaxLvl(p.t)) * Under(p.t, MaxLvl(p.t), l) == Size(p.t, true, p.limit, l)
  {
  }

  lemma LoopsCover(p: Plan)
    requires PlanOk(p) && p.t == Long
    ensures Covers(p, Program(p))
  {
    hide Word, FillOf;
    var prog := Program(p);
    forall w | w in prog
      ensures LvlIsValid(p.t, w.lvl) && w.idx < LoopOf(p, w.lvl).count && w == Put(p, w.lvl, w.idx)
    {
      var l :| 1 <= l <= 4 && w in Loop(p, l);
    }
    forall l, k | 1 <= l <= 4 && 0 <= k < LoopOf(p, l).count
      ensures Put(p, l, k) in prog
    {
      assert Loop(p, l)[k] == Put(p, l, k);
    }
  }

  // ----- what the writes leave -----

  /** An entry has its word once it has been written, whatever is written in between. */
  lemma {:induction false} Written(p: Plan, start: seq<seq<u64>>, ws: seq<Write>, l: nat, k: nat)
    requires LvlIsValid(p.t, l) && |p.at| == MaxLvl(p.t) + 1 && l < |start| && k < |start[l]|
    requires forall w :: w in ws ==> LvlIsValid(p.t, w.lvl) && w == Put(p, w.lvl, w.idx)
    requires Put(p, l, k) in ws
    ensures AssignAll(start, ws)[l][k] == Put(p, l, k).word
    decreases |ws|
  {
    hide Word, FillOf;
    var n := |ws| - 1;
    if ws[n] == Put(p, l, k) {
    } else {
      assert ws == ws[..n] + [ws[n]];
      Written(p, start, ws[..n], l, k);
      assert ws[n] in ws;
    }
  }

  function FlatsOf(at: seq<u64>, tables: seq<seq<u64>>): (fs: seq<Flat>)
    requires |at| == |tables|
    ensures |fs| == |at| && forall l :: 0 <= l < |fs| ==> fs[l] == Flat(at[l], tables[l])
    ensures Bases(fs) == at
  {
    if at == [] then []
    else
      assert [at[0]] + at[1..] == at;
      var fs := [Flat(at[0], tables[0])] + FlatsOf(at[1..], tables[1..]);
      assert fs[1..] == FlatsOf(at[1..], tables[1..]);
      fs
  }

  ghost predicate StartOk(p: Plan, start: seq<seq<u64>>)
    requires PlanOk(p)
  {
    |start| == |p.at| && forall l :: LvlIsValid(p.t, l) ==> |start[l]| == Size(p.t, true, p.limit, l)
  }

  function BuildOf(p: Plan, start: seq<seq<u64>>): Build
    requires |p.at| == MaxLvl(p.t) + 1 && p.t != Ept
  {
    Build(start, Program(p), p.at[MaxLvl(p.t)])
  }

  lemma BuildIsOk(p: Plan, start: seq<seq<u64>>)
    requires PlanOk(p) && StartOk(p, start)
    ensures BuildOk(BuildOf(p, start))
  {
    hide Put, Program, FillOf, Size, Count;
    ProgramCovers(p);
    forall w | w in Program(p)
      ensures w.lvl < |start| && w.idx < |start[w.lvl]|
    {
      CountsFit(p.t, true, p.limit, w.lvl);
      LoopCount(p, w.lvl);
    }
  }

  lemma LoopCount(p: Plan, l: nat)
    requires LvlIsValid(p.t, l) && |p.at| == MaxLvl(p.t) + 1
    ensures LoopOf(p, l).count == Count(p.t, true, p.limit, l)
  {
  }

  lemma ProgramFills(p: Plan, start: seq<seq<u64>>)
    requires PlanOk(p) && StartOk(p, start)
    ensures TablesFilled(p.t, true, p.limit, FlatsOf(p.at, AssignAll(start, Program(p))))
  {
    hide Program, AssignAll, FlatsOf, LevelFilled;
    var end := AssignAll(start, Program(p));
    var fs := FlatsOf(p.at, end);
    forall l | 1 <= l <= MaxLvl(p.t)
      ensures LevelFilled(p.t, true, p.limit, Bases(fs), l, fs[l].entries)
    {
      LevelIsFilled(p, start, l);
    }
  }

  lemma LevelIsFilled(p: Plan, start: seq<seq<u64>>, l: nat)
    requires PlanOk(p) && StartOk(p, start) && LvlIsValid(p.t, l)
    ensures LevelFilled(p.t, true, p.limit, p.at, l, AssignAll(start, Program(p))[l])
  {
    hide Program, AssignAll, Size, Count, Word, FillOf;
    var s := AssignAll(start, Program(p))[l];
    var f := FillOf(p.t, true, p.limit, p.at, l);
    ProgramCovers(p);
    CountsFit(p.t, true, p.limit, l);
    LoopCount(p, l);
    forall k | 0 <= k < f.count
      ensures s[k] == Word(f, k)
    {
      Written(p, start, Program(p), l, k);
    }
    if p.t == Norm {
      NestedCounts(p, l);
      forall k | 0 <= k < |s|
        ensures s[k] < 0x1_0000_0000
      {
        NarrowWord(p, l, k);
      }
    }
  }

  /** Words of the 32-bit build fit its entries. */
  lemma NarrowWord(p: Plan, l: nat, k: nat)
    requires PlanOk(p) && p.t == Norm && LvlIsValid(p.t, l) && k < LoopOf(p, l).count
    ensures Word(LoopOf(p, l), k) < 0x1_0000_0000
  {
    hide Or64;
    var f := LoopOf(p, l);
    Narrow(f.flags, Address(f, k));
  }

  /** In every run of any number of CPUs: a CPU that runs on the user tables, as it does from before its return
      on, maps every address below the limit to itself, with all rights and for user mode. */
  lemma {:induction false} UserTablesAreIdentity(p: Plan, start: seq<seq<u64>>, cpus: nat, run: seq<nat>, c: nat,
                                                 tabs: PageWalk.Tables)
    requires PlanOk(p) && StartOk(p, start) && Turns(cpus, run) && c < cpus
    requires var s := Run(BuildOf(p, start), Init(BuildOf(p, start), cpus), run);
      && |s.tables| == |p.at|
      && forall l :: 1 <= l <= MaxLvl(p.t) ==> FlatTables.Holds(p.t, tabs, l, FlatsOf(p.at, s.tables)[l])
    ensures var s := Run(BuildOf(p, start), Init(BuildOf(p, start), cpus), run);
      s.cr3[c] != 0 || s.pc[c] == Unlock ==>
        s.cr3[c] == p.at[MaxLvl(p.t)] && MapsBelow(p.t, tabs, s.cr3[c], true, p.limit)
  {
    hide Program, Run, MapsBelow, FlatTables.Holds, TablesFilled;
    var b := BuildOf(p, start);
    BuildIsOk(p, start);
    BuiltOnce(b, cpus, run, c);
    ProgramFills(p, start);
    var s := Run(b, Init(b, cpus), run);
    if s.cr3[c] != 0 {
      FilledMaps(p.t, true, p.limit, tabs, FlatsOf(p.at, s.tables));
    }
  }

  /** Every run goes on to one after which all CPUs are outside and run on identity tables. */
  lemma AllGetIdentity(p: Plan, start: seq<seq<u64>>, cpus: nat, run: seq<nat>) returns (rest: seq<nat>)
    requires PlanOk(p) && StartOk(p, start) && Turns(cpus, run)
    ensures Turns(cpus, run + rest)
    ensures var s := Run(BuildOf(p, start), Init(BuildOf(p, start), cpus), run + rest);
      && (forall c :: 0 <= c < cpus ==> s.pc[c] == Outside && s.cr3[c] == p.at[MaxLvl(p.t)])
      && (cpus > 0 ==> |s.tables| == |p.at| && TablesFilled(p.t, true, p.limit, FlatsOf(p.at, s.tables)))
  {
    hide Program, Run, TablesFilled, FlatsOf, AssignAll;
    var b := BuildOf(p, start);
    BuildIsOk(p, start);
    rest := AllGetTables(b, cpus, run);
    var s := Run(b, Init(b, cpus), run + rest);
    forall c | 0 <= c < cpus ensures s.pc[c] == Outside && s.cr3[c] == b.root { assert Finished(b, s, c); }
    ProgramFills(p, start);
  }
}
