/** set_user_mode_page_table (src/shv-user.c) interleaved one memory access at a time over any number
    of CPUs: the fill loops are a sequence of writes, done by whichever CPU comes first.
 */
module UserLock {
  import opened Bitfield
  import opened Hpt
  import opened FlatTables
  import opened Paging
  import opened SpinLock

  /** One assignment to an entry of the arrays, which are indexed by level. */
  datatype Write = Write(lvl: nat, idx: nat, word: u64)

  datatype Pc = Outside | Locking(at: Try) | Check | Filling(n: nat) | Done | LoadCr3 | Unlock

  /** `cr3` is 0 for a CPU that has not switched to the user tables; `writes` counts assignments to the
      arrays. */
  datatype State = State(lock: nat, initialized: u64, tables: seq<seq<u64>>, pc: seq<Pc>, cr3: seq<u64>, writes: nat)

  /** The arrays at boot, the assignments of the loops in order, and the address of the root table. */
  datatype Build = Build(start: seq<seq<u64>>, prog: seq<Write>, root: u64)

  predicate BuildOk(b: Build) {
    && b.root != 0
    && forall w :: w in b.prog ==> w.lvl < |b.start| && w.idx < |b.start[w.lvl]|
  }

  function Assign(tables: seq<seq<u64>>, w: Write): (r: seq<seq<u64>>)
    ensures |r| == |tables| && forall l :: 0 <= l < |r| ==> |r[l]| == |tables[l]|
  {
    if w.lvl < |tables| && w.idx < |tables[w.lvl]| then
      var row: seq<u64> := tables[w.lvl][w.idx := w.word];
      tables[w.lvl := row]
    else tables
  }

  function AssignAll(tables: seq<seq<u64>>, ws: seq<Write>): (r: seq<seq<u64>>)
    ensures |r| == |tables| && forall l :: 0 <= l < |r| ==> |r[l]| == |tables[l]|
  {
    if ws == [] then tables else Assign(AssignAll(tables, ws[..|ws| - 1]), ws[|ws| - 1])
  }

  function Init(b: Build, cpus: nat): State {
    State(FREE, 0, b.start, seq(cpus, _ => Outside), seq(cpus, _ => 0), 0)
  }

  function Step(b: Build, s: State, c: nat): State
    requires c < |s.pc| == |s.cr3|
  {
    match s.pc[c]
    case Outside => s.(pc := s.pc[c := Locking(Test)])
    case Locking(at) =>
      var (lock, tried) := LockStep(s.lock, at);
      s.(lock := lock, pc := s.pc[c := if tried.Acquired? then Check else Locking(tried.next)])
    case Check => s.(pc := s.pc[c := if s.initialized == 0 then Filling(0) else LoadCr3])
    case Filling(n) =>
      if n < |b.prog| then
        s.(tables := Assign(s.tables, b.prog[n]), writes := s.writes + 1, pc := s.pc[c := Filling(n + 1)])
      else s.(pc := s.pc[c := Done])
    case Done => s.(initialized := b.root, pc := s.pc[c := LoadCr3])
    case LoadCr3 => s.(cr3 := s.cr3[c := s.initialized], pc := s.pc[c := Unlock])
    case Unlock => s.(lock := FREE, pc := s.pc[c := Outside])
  }

  predicate Turns(n: nat, run: seq<nat>) {
    forall i :: 0 <= i < |run| ==> run[i] < n
  }

  function Run(b: Build, s: State, run: seq<nat>): (r: State)
    requires |s.pc| == |s.cr3| && Turns(|s.pc|, run)
    ensures |r.pc| == |r.cr3| == |s.pc|
    decreases |run|
  {
    if run == [] then s else Run(b, Step(b, s, run[0]), run[1..])
  }

  // ----- safety -----

  predicate Holds(p: Pc) {
    p in {Check, Done, LoadCr3, Unlock} || p.Filling?
  }

  function Holders(pc: seq<Pc>): (r: seq<bool>)
    ensures |r| == |pc|
  {
    seq(|pc|, i requires 0 <= i < |pc| => Holds(pc[i]))
  }

  /** How many of the writes have been done, seen from the program counter of a CPU. */
  predicate Progress(b: Build, s: State, p: Pc) {
    match p
    case Filling(n) => s.initialized == 0 && s.writes == n <= |b.prog|
    case Done => s.initialized == 0 && s.writes == |b.prog|
    case LoadCr3 => s.initialized != 0
    case Unlock => s.initialized != 0
    case _ => true
  }

  predicate Building(p: Pc) {
    p.Filling? || p == Done
  }

  ghost predicate Inv(b: Build, s: State) {
    && |s.pc| == |s.cr3| && Exclusive(s.lock, Holders(s.pc)) && s.writes <= |b.prog|
    && s.tables == AssignAll(b.start, b.prog[..s.writes])
    && (forall i :: 0 <= i < |s.pc| ==> Progress(b, s, s.pc[i]))
    && (s.initialized != 0 ==> s.initialized == b.root && s.writes == |b.prog|)
    && (s.initialized == 0 ==> s.writes == 0 || exists i :: 0 <= i < |s.pc| && Building(s.pc[i]))
    && (forall i :: 0 <= i < |s.cr3| && s.cr3[i] != 0 ==> s.cr3[i] == s.initialized)
    && (forall i :: 0 <= i < |s.pc| && s.pc[i] == Unlock ==> s.cr3[i] == s.initialized)
  }

  lemma StepKeepsExclusive(b: Build, s: State, c: nat)
    requires Exclusive(s.lock, Holders(s.pc)) && c < |s.pc| == |s.cr3|
    ensures var s' := Step(b, s, c); Exclusive(s'.lock, Holders(s'.pc))
  {
    hide Assign;
    var s' := Step(b, s, c);
    HolderTakes(s.lock, Holders(s.pc), c);
    LockStaysExclusive(s.lock, Holders(s.pc), c, s'.lock, Holds(s'.pc[c]));
    assert Holders(s'.pc) == Holders(s.pc)[c := Holds(s'.pc[c])];
  }

  lemma NextWrite(b: Build, n: nat)
    requires n < |b.prog|
    ensures AssignAll(b.start, b.prog[..n + 1]) == Assign(AssignAll(b.start, b.prog[..n]), b.prog[n])
  {
    assert b.prog[..n + 1][..n] == b.prog[..n];
  }

  lemma StepKeepsProgress(b: Build, s: State, c: nat, i: nat)
    requires Inv(b, s) && BuildOk(b) && c < |s.pc| && i < |s.pc|
    ensures var s' := Step(b, s, c); Progress(b, s', s'.pc[i])
  {
    hide AssignAll, Assign;
    assert Progress(b, s, s.pc[i]) && Progress(b, s, s.pc[c]);
    assert Holders(s.pc)[i] && Holders(s.pc)[c] ==> i == c;
    if s.pc[c] == Check && s.initialized == 0 && s.writes != 0 {
      var k :| 0 <= k < |s.pc| && Building(s.pc[k]);
      assert Holders(s.pc)[k] && Holders(s.pc)[c];
    }
  }

  lemma StepKeepsInv(b: Build, s: State, c: nat)
    requires Inv(b, s) && BuildOk(b) && c < |s.pc|
    ensures Inv(b, Step(b, s, c))
  {
    hide AssignAll, Assign;
    var s' := Step(b, s, c);
    StepKeepsExclusive(b, s, c);
    assert Progress(b, s, s.pc[c]);
    if s.pc[c].Filling? && s.pc[c].n < |b.prog| { NextWrite(b, s.pc[c].n); }
    forall i | 0 <= i < |s'.pc|
      ensures Progress(b, s', s'.pc[i])
    {
      StepKeepsProgress(b, s, c, i);
    }
    StepKeepsBuilder(b, s, c);
  }

  lemma StepKeepsBuilder(b: Build, s: State, c: nat)
    requires Inv(b, s) && BuildOk(b) && c < |s.pc|
    ensures var s' := Step(b, s, c);
      s'.initialized == 0 ==> s'.writes == 0 || exists i :: 0 <= i < |s'.pc| && Building(s'.pc[i])
  {
    hide AssignAll, Assign;
    var s' := Step(b, s, c);
    assert Progress(b, s, s.pc[c]);
    if s'.initialized == 0 && s.writes != 0 {
      var k :| 0 <= k < |s.pc| && Building(s.pc[k]);
      assert Building(s'.pc[k]);
    } else if s'.initialized == 0 && s'.writes != 0 {
      assert Building(s'.pc[c]);
    }
  }

  lemma {:induction false} RunKeepsInv(b: Build, s: State, run: seq<nat>)
    requires Inv(b, s) && BuildOk(b) && Turns(|s.pc|, run)
    ensures Inv(b, Run(b, s, run))
    decreases |run|
  {
    hide Inv;
    if run == [] {
    } else {
      SameLengths(b, s);
      StepKeepsInv(b, s, run[0]);
      RunKeepsInv(b, Step(b, s, run[0]), run[1..]);
    }
  }

  lemma SameLengths(b: Build, s: State)
    requires Inv(b, s)
    ensures |s.pc| == |s.cr3|
  {
  }

  /** In every run, a CPU that has switched to the user tables has the root of completely filled ones,
      and the loops have been run once: as many writes were done as the loops have assignments.  A CPU that
      is about to return has switched. */
  lemma {:induction false} BuiltOnce(b: Build, cpus: nat, run: seq<nat>, c: nat)
    requires BuildOk(b) && Turns(cpus, run) && c < cpus
    ensures var s := Run(b, Init(b, cpus), run);
      && s.writes <= |b.prog|
      && (s.cr3[c] != 0 ==> s.cr3[c] == b.root && s.tables == AssignAll(b.start, b.prog) && s.writes == |b.prog|)
      && (s.pc[c] == LoadCr3 ==> s.initialized == b.root && s.tables == AssignAll(b.start, b.prog))
      && (s.pc[c] == Unlock ==> s.cr3[c] == b.root)
  {
    InitInv(b, cpus);
    assert b.prog[..|b.prog|] == b.prog;
    RunKeepsInv(b, Init(b, cpus), run);
    assert Progress(b, Run(b, Init(b, cpus), run), Run(b, Init(b, cpus), run).pc[c]);
  }

  lemma InitInv(b: Build, cpus: nat)
    ensures Inv(b, Init(b, cpus))
  {
    assert b.prog[..0] == [];
  }

  /** A return goes from the load of cr3 to the outside with the root loaded. */
  lemma ReturnsWithRoot(b: Build, s: State, c: nat)
    requires Inv(b, s) && BuildOk(b) && c < |s.pc| && s.pc[c] != Outside && Step(b, s, c).pc[c] == Outside
    ensures Finished(b, Step(b, s, c), c)
  {
    assert Progress(b, s, s.pc[c]);
  }

  /** Once loaded, the root stays. */
  lemma {:induction false} StaysLoaded(b: Build, s: State, run: seq<nat>, c: nat)
    requires Inv(b, s) && BuildOk(b) && Turns(|s.pc|, run) && c < |s.pc| && s.cr3[c] == b.root
    ensures Run(b, s, run).cr3[c] == b.root
    decreases |run|
  {
    if run == [] {
    } else {
      StepKeepsInv(b, s, run[0]);
      StaysLoaded(b, Step(b, s, run[0]), run[1..], c);
    }
  }

  // ----- progress -----

  /** The CPU is outside with the root loaded. */
  predicate Finished(b: Build, s: State, c: nat)
    requires c < |s.pc| == |s.cr3|
  {
    s.pc[c] == Outside && s.cr3[c] == b.root
  }

  ghost predicate AllFinished(b: Build, s: State)
    requires |s.pc| == |s.cr3|
  {
    forall c :: 0 <= c < |s.pc| ==> Finished(b, s, c)
  }

  /** Steps that the CPU has before it when no other is in its way. */
  function Rest(b: Build, p: Pc, cr3: u64): nat {
    match p
    case Outside => if cr3 != 0 then 0 else |b.prog| + 8
    case Locking(Test) => |b.prog| + 7
    case Locking(Xchg) => |b.prog| + 6
    case Check => |b.prog| + 5
    case Filling(n) => if n <= |b.prog| then |b.prog| - n + 4 else 4
    case Done => 3
    case LoadCr3 => 2
    case Unlock => 1
  }

  function Rests(b: Build, s: State): (r: seq<nat>)
    requires |s.pc| == |s.cr3|
    ensures |r| == |s.pc|
  {
    seq(|s.pc|, i requires 0 <= i < |s.pc| => Rest(b, s.pc[i], s.cr3[i]))
  }

  /** A step that is not spinning. */
  ghost predicate Useful(b: Build, s: State, c: nat)
    requires c < |s.pc| == |s.cr3|
  {
    var s' := Step(b, s, c);
    Rest(b, s'.pc[c], s'.cr3[c]) < Rest(b, s.pc[c], s.cr3[c])
  }

  lemma HolderIsUseful(b: Build, s: State, c: nat)
    requires Inv(b, s) && BuildOk(b) && c < |s.pc| && Holds(s.pc[c])
    ensures Useful(b, s, c)
  {
    hide Assign, AssignAll, Exclusive;
    assert Progress(b, s, s.pc[c]);
  }

  lemma FreeIsUseful(b: Build, s: State, c: nat)
    requires Inv(b, s) && BuildOk(b) && c < |s.pc| && s.lock == FREE && !Finished(b, s, c)
    ensures Useful(b, s, c)
  {
    hide Assign, AssignAll;
    assert !Holders(s.pc)[c];
  }

  /** No deadlock: while a CPU has not finished, some CPU has a step that is not spinning. */
  lemma SomeoneMoves(b: Build, s: State) returns (c: nat)
    requires Inv(b, s) && BuildOk(b) && !AllFinished(b, s)
    ensures c < |s.pc| && Useful(b, s, c)
  {
    hide Useful, Assign, AssignAll;
    if s.lock == TAKEN {
      c :| 0 <= c < |s.pc| && Holders(s.pc)[c];
      HolderIsUseful(b, s, c);
    } else {
      c :| 0 <= c < |s.pc| && !Finished(b, s, c);
      FreeIsUseful(b, s, c);
    }
  }

  lemma UsefulDecreases(b: Build, s: State, c: nat)
    requires c < |s.pc| == |s.cr3| && Useful(b, s, c)
    ensures Sum(Rests(b, Step(b, s, c))) < Sum(Rests(b, s))
  {
    hide Sum, Rest, Assign;
    var s' := Step(b, s, c);
    SumUpdate(Rests(b, s), c, Rest(b, s'.pc[c], s'.cr3[c]));
    assert Rests(b, s') == Rests(b, s)[c := Rest(b, s'.pc[c], s'.cr3[c])];
  }

  /** From every such state all CPUs can finish. */
  lemma {:induction false} AllCanFinish(b: Build, s: State) returns (run: seq<nat>)
    requires Inv(b, s) && BuildOk(b)
    ensures Turns(|s.pc|, run) && |s.pc| == |s.cr3| && AllFinished(b, Run(b, s, run))
    decreases Sum(Rests(b, s))
  {
    hide Useful, Inv, Sum, Step;
    SameLengths(b, s);
    if AllFinished(b, s) {
      run := [];
    } else {
      var c := SomeoneMoves(b, s);
      UsefulDecreases(b, s, c);
      StepKeepsInv(b, s, c);
      StepKeepsCount(b, s, c);
      var rest := AllCanFinish(b, Step(b, s, c));
      run := [c] + rest;
      assert run[1..] == rest;
    }
  }

  lemma StepKeepsCount(b: Build, s: State, c: nat)
    requires c < |s.pc| == |s.cr3|
    ensures var s' := Step(b, s, c); |s'.pc| == |s'.cr3| == |s.pc|
  {
    hide Assign;
  }

  lemma {:induction false} RunJoin(b: Build, s: State, x: seq<nat>, y: seq<nat>)
    requires |s.pc| == |s.cr3| && Turns(|s.pc|, x) && Turns(|s.pc|, y)
    ensures Turns(|s.pc|, x + y) && Run(b, s, x + y) == Run(b, Run(b, s, x), y)
    decreases |x|
  {
    hide Step;
    if x == [] {
      assert x + y == y;
    } else {
      StepKeepsCount(b, s, x[0]);
      RunJoin(b, Step(b, s, x[0]), x[1..], y);
      assert (x + y)[1..] == x[1..] + y;
    }
  }

  /** Every run goes on to one after which all CPUs are outside with the root of finished tables. */
  lemma AllGetTables(b: Build, cpus: nat, run: seq<nat>) returns (rest: seq<nat>)
    requires BuildOk(b) && Turns(cpus, run)
    ensures Turns(cpus, run + rest)
    ensures var s := Run(b, Init(b, cpus), run + rest);
      AllFinished(b, s) && (cpus > 0 ==> s.tables == AssignAll(b.start, b.prog))
  {
    hide Run, Inv, AssignAll;
    InitInv(b, cpus);
    RunKeepsInv(b, Init(b, cpus), run);
    rest := AllCanFinish(b, Run(b, Init(b, cpus), run));
    RunJoin(b, Init(b, cpus), run, rest);
    if cpus > 0 {
      BuiltOnce(b, cpus, run + rest, 0);
      assert Finished(b, Run(b, Init(b, cpus), run + rest), 0);
    }
  }
}
