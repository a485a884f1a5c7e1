/** The semaphore around the PAL demo: user_main and the failure branch of user_main_pal_demo
    (src/shv-user.c), interleaved one memory access at a time over any number of CPUs.
 */
module PalSemaphore {
  import opened SpinLock

  const PLACES := 3
  const WORD := 0x1_0000_0000
  const POLLS := 4096

  /** What a CPU takes the lock for: to take a place, to give it back, or, after a wrong result of the
      PAL, never to let go of the lock. */
  datatype Goal = Take | Give | Trap

  datatype Pc =
    | Outside
    | Locking(goal: Goal, at: Try)
    | TakeCheck | TakeLoad | TakeStore(v: nat) | TakeUnlock
    | WaitUnlock | Poll(i: nat)
    | Inside
    | GiveLoad | GiveStore(v: nat) | GiveUnlock
    | Trapped

  datatype State = State(lock: nat, avail: nat, pc: seq<Pc>)

  function Init(cpus: nat): State {
    State(FREE, PLACES, seq(cpus, _ => Outside))
  }

  function Acquire(g: Goal): Pc {
    match g
    case Take => TakeCheck
    case Give => GiveLoad
    case Trap => Trapped
  }

  /** One access of CPU `c`; `good` is the outcome of the PAL. */
  function Step(s: State, c: nat, good: bool): State
    requires c < |s.pc|
  {
    match s.pc[c]
    case Outside => s.(pc := s.pc[c := Locking(Take, Test)])
    case Locking(g, at) =>
      var (lock, tried) := LockStep(s.lock, at);
      State(lock, s.avail, s.pc[c := if tried.Acquired? then Acquire(g) else Locking(g, tried.next)])
    case TakeCheck => s.(pc := s.pc[c := if s.avail != 0 then TakeLoad else WaitUnlock])
    case TakeLoad => s.(pc := s.pc[c := TakeStore(s.avail)])
    case TakeStore(v) => s.(avail := (v + WORD - 1) % WORD, pc := s.pc[c := TakeUnlock])
    case TakeUnlock => s.(lock := FREE, pc := s.pc[c := Inside])
    case WaitUnlock => s.(lock := FREE, pc := s.pc[c := Poll(0)])
    case Poll(i) =>
      s.(pc := s.pc[c := if i < POLLS && s.avail == 0 then Poll(i + 1) else Locking(Take, Test)])
    case Inside => s.(pc := s.pc[c := Locking(if good then Give else Trap, Test)])
    case GiveLoad => s.(pc := s.pc[c := GiveStore(s.avail)])
    case GiveStore(v) => s.(avail := (v + 1) % WORD, pc := s.pc[c := GiveUnlock])
    case GiveUnlock => s.(lock := FREE, pc := s.pc[c := Outside])
    case Trapped => s
  }

  datatype Turn = Turn(cpu: nat, good: bool)

  predicate Turns(n: nat, run: seq<Turn>) {
    forall i :: 0 <= i < |run| ==> run[i].cpu < n
  }

  function Run(s: State, run: seq<Turn>): (r: State)
    requires Turns(|s.pc|, run)
    ensures |r.pc| == |s.pc|
    decreases |run|
  {
    if run == [] then s else Run(Step(s, run[0].cpu, run[0].good), run[1..])
  }

  // ----- safety -----

  predicate Holds(p: Pc) {
    p in {TakeCheck, TakeLoad, TakeUnlock, WaitUnlock, GiveLoad, GiveUnlock, Trapped} || p.TakeStore? || p.GiveStore?
  }

  /** The CPU has taken a place and not yet given it back. */
  predicate Using(p: Pc) {
    || p in {TakeUnlock, Inside, GiveLoad, Trapped} || p.GiveStore?
    || (p.Locking? && p.goal != Take)
  }

  function Users(pc: seq<Pc>): (r: seq<nat>)
    ensures |r| == |pc|
  {
    seq(|pc|, i requires 0 <= i < |pc| => if Using(pc[i]) then 1 else 0)
  }

  function Holders(pc: seq<Pc>): (r: seq<bool>)
    ensures |r| == |pc|
  {
    seq(|pc|, i requires 0 <= i < |pc| => Holds(pc[i]))
  }

  /** What the CPU inside the critical section has read is still true. */
  predicate Current(s: State, p: Pc) {
    match p
    case TakeLoad => s.avail > 0
    case TakeStore(v) => v == s.avail && v > 0
    case WaitUnlock => s.avail == 0
    case GiveStore(v) => v == s.avail
    case _ => true
  }

  ghost predicate Inv(s: State) {
    && Exclusive(s.lock, Holders(s.pc))
    && s.avail + Sum(Users(s.pc)) == PLACES
    && forall i :: 0 <= i < |s.pc| ==> Current(s, s.pc[i])
  }

  lemma UsersUpdate(pc: seq<Pc>, c: nat, p: Pc)
    requires c < |pc|
    ensures Sum(Users(pc[c := p])) + (if Using(pc[c]) then 1 else 0) == Sum(Users(pc)) + if Using(p) then 1 else 0
  {
    SumUpdate(Users(pc), c, if Using(p) then 1 else 0);
    assert Users(pc[c := p]) == Users(pc)[c := if Using(p) then 1 else 0];
  }

  lemma OneUser(pc: seq<Pc>, c: nat)
    requires c < |pc| && Using(pc[c])
    ensures Sum(Users(pc)) >= 1
  {
    SumPositive(Users(pc));
    assert Users(pc)[c] > 0;
  }

  lemma StepKeepsExclusive(s: State, c: nat, good: bool)
    requires Inv(s) && c < |s.pc|
    ensures var s' := Step(s, c, good); Exclusive(s'.lock, Holders(s'.pc))
  {
    hide Sum;
    var s' := Step(s, c, good);
    HolderTakes(s.lock, Holders(s.pc), c);
    LockStaysExclusive(s.lock, Holders(s.pc), c, s'.lock, Holds(s'.pc[c]));
    assert Holders(s'.pc) == Holders(s.pc)[c := Holds(s'.pc[c])];
  }

  lemma StepKeepsSum(s: State, c: nat, good: bool)
    requires Inv(s) && c < |s.pc|
    ensures var s' := Step(s, c, good); s'.avail + Sum(Users(s'.pc)) == PLACES
  {
    hide Exclusive;
    var s' := Step(s, c, good);
    assert Current(s, s.pc[c]);
    UsersUpdate(s.pc, c, s'.pc[c]);
    if Using(s.pc[c]) { OneUser(s.pc, c); }
  }

  /** Only the holder of the lock writes the counter, so what another holder has read stays true. */
  lemma StepKeepsCurrent(s: State, c: nat, good: bool, i: nat)
    requires Inv(s) && c < |s.pc| && i < |s.pc|
    ensures var s' := Step(s, c, good); Current(s', s'.pc[i])
  {
    hide Sum;
    assert Current(s, s.pc[i]);
    assert Holders(s.pc)[i] && Holders(s.pc)[c] ==> i == c;
  }

  lemma StepKeepsInv(s: State, c: nat, good: bool)
    requires Inv(s) && c < |s.pc|
    ensures Inv(Step(s, c, good))
  {
    hide Exclusive, Current;
    var s' := Step(s, c, good);
    StepKeepsExclusive(s, c, good);
    StepKeepsSum(s, c, good);
    forall i | 0 <= i < |s'.pc|
      ensures Current(s', s'.pc[i])
    {
      StepKeepsCurrent(s, c, good, i);
    }
  }

  /** Every run of any number of CPUs: one holder, three places, and the counter never wraps. */
  lemma {:induction false} EveryRun(cpus: nat, run: seq<Turn>)
    requires Turns(cpus, run)
    ensures Inv(Run(Init(cpus), run))
  {
    var s := Init(cpus);
    NoUsers(s.pc);
    RunKeepsInv(s, run);
  }

  lemma NoUsers(pc: seq<Pc>)
    requires forall i :: 0 <= i < |pc| ==> pc[i] == Outside
    ensures Sum(Users(pc)) == 0
  {
    SumPositive(Users(pc));
  }

  lemma {:induction false} RunKeepsInv(s: State, run: seq<Turn>)
    requires Inv(s) && Turns(|s.pc|, run)
    ensures Inv(Run(s, run))
    decreases |run|
  {
    if run == [] {
    } else {
      StepKeepsInv(s, run[0].cpu, run[0].good);
      RunKeepsInv(Step(s, run[0].cpu, run[0].good), run[1..]);
    }
  }

  // ----- progress -----

  predicate Failed(p: Pc) {
    p == Trapped || (p.Locking? && p.goal == Trap)
  }

  ghost predicate NoneFailed(s: State) {
    forall i :: 0 <= i < |s.pc| ==> !Failed(s.pc[i])
  }

  ghost predicate AllOutside(s: State) {
    forall i :: 0 <= i < |s.pc| ==> s.pc[i] == Outside
  }

  /** How often the counter is still to be written before the CPU is outside. */
  function Writes(p: Pc): nat {
    if p == Outside || p == GiveUnlock then 0 else if Using(p) then 1 else 2
  }

  /** Steps to the next write of the counter, or to the release of the lock by a CPU that has to wait. */
  function Steps(p: Pc, avail: nat): nat {
    match p
    case Outside => 0
    case Locking(Take, Test) => 9
    case Locking(Take, Xchg) => 8
    case TakeCheck => 7
    case TakeLoad => 6
    case TakeStore(_) => 5
    case WaitUnlock => if avail == 0 then 4 else 11
    case Poll(_) => if avail == 0 then 3 else 10
    case TakeUnlock => 9
    case Inside => 8
    case Locking(_, Test) => 7
    case Locking(_, Xchg) => 6
    case GiveLoad => 5
    case GiveStore(_) => 4
    case GiveUnlock => 3
    case Trapped => 0
  }

  function AllWrites(pc: seq<Pc>): (r: seq<nat>)
    ensures |r| == |pc|
  {
    seq(|pc|, i requires 0 <= i < |pc| => Writes(pc[i]))
  }

  function AllSteps(pc: seq<Pc>, avail: nat): (r: seq<nat>)
    ensures |r| == |pc|
  {
    seq(|pc|, i requires 0 <= i < |pc| => Steps(pc[i], avail))
  }

  /** A step that gets nearer to the end: the counter is written once more, or the CPU comes nearer to
      writing it. */
  ghost predicate Useful(s: State, c: nat)
    requires c < |s.pc|
  {
    var s' := Step(s, c, true);
    || Writes(s'.pc[c]) < Writes(s.pc[c])
    || (&& Writes(s'.pc[c]) == Writes(s.pc[c]) && s'.avail == s.avail
        && Steps(s'.pc[c], s.avail) < Steps(s.pc[c], s.avail))
  }

  lemma HolderIsUseful(s: State, c: nat)
    requires Inv(s) && c < |s.pc| && Holds(s.pc[c]) && s.pc[c] != Trapped
    ensures Useful(s, c)
  {
    hide Sum, Exclusive;
    assert Current(s, s.pc[c]);
  }

  /** While the lock is free, every CPU inside can go on; so can a waiting CPU when a place is free. */
  lemma FreeIsUseful(s: State, c: nat)
    requires Inv(s) && c < |s.pc| && s.lock == FREE && !Failed(s.pc[c])
    requires s.pc[c] != Outside && (Using(s.pc[c]) || s.avail > 0)
    ensures Useful(s, c)
  {
    hide Sum;
    assert !Holders(s.pc)[c];
  }

  /** No deadlock: as long as a CPU is not outside and none has failed, some CPU has a step that is not
      spinning. */
  lemma SomeoneMoves(s: State) returns (c: nat)
    requires Inv(s) && NoneFailed(s) && !AllOutside(s)
    ensures c < |s.pc| && s.pc[c] != Outside && Useful(s, c)
  {
    hide Useful, Sum;
    if s.lock == TAKEN {
      c :| 0 <= c < |s.pc| && Holders(s.pc)[c];
      HolderIsUseful(s, c);
    } else if s.avail > 0 {
      c :| 0 <= c < |s.pc| && s.pc[c] != Outside;
      FreeIsUseful(s, c);
    } else {
      SumPositive(Users(s.pc));
      c :| 0 <= c < |s.pc| && Users(s.pc)[c] > 0;
      FreeIsUseful(s, c);
    }
  }

  lemma UsefulDecreases(s: State, c: nat)
    requires c < |s.pc| && Useful(s, c)
    ensures var s' := Step(s, c, true);
      || Sum(AllWrites(s'.pc)) < Sum(AllWrites(s.pc))
      || (&& Sum(AllWrites(s'.pc)) == Sum(AllWrites(s.pc))
          && Sum(AllSteps(s'.pc, s'.avail)) < Sum(AllSteps(s.pc, s.avail)))
  {
    hide Sum, Writes, Steps;
    var s' := Step(s, c, true);
    var p := s'.pc[c];
    assert s'.pc == s.pc[c := p];
    SumUpdate(AllWrites(s.pc), c, Writes(p));
    assert AllWrites(s'.pc) == AllWrites(s.pc)[c := Writes(p)];
    SumUpdate(AllSteps(s.pc, s.avail), c, Steps(p, s.avail));
    assert AllSteps(s'.pc, s.avail) == AllSteps(s.pc, s.avail)[c := Steps(p, s.avail)];
  }

  /** From every such state the CPUs can all get outside. */
  lemma {:induction false} AllCanLeave(s: State) returns (run: seq<Turn>)
    requires Inv(s) && NoneFailed(s)
    ensures Turns(|s.pc|, run) && AllOutside(Run(s, run))
    decreases Sum(AllWrites(s.pc)), Sum(AllSteps(s.pc, s.avail))
  {
    hide Useful, Inv, Sum;
    if AllOutside(s) {
      run := [];
    } else {
      var c := SomeoneMoves(s);
      UsefulDecreases(s, c);
      StepKeepsInv(s, c, true);
      var rest := AllCanLeave(Step(s, c, true));
      run := [Turn(c, true)] + rest;
      assert run[1..] == rest;
    }
  }

  /** Once a CPU has taken the lock for good, no other enters or leaves any more. */
  lemma {:induction false} TrappedForever(s: State, run: seq<Turn>, t: nat)
    requires Inv(s) && t < |s.pc| && s.pc[t] == Trapped && Turns(|s.pc|, run)
    ensures var r := Run(s, run);
      r.pc[t] == Trapped && r.lock == TAKEN && r.avail == s.avail && Users(r.pc) == Users(s.pc)
    decreases |run|
  {
    hide Sum;
    if run == [] {
    } else {
      var c, s' := run[0].cpu, Step(s, run[0].cpu, run[0].good);
      assert Holders(s.pc)[t] && (c != t ==> !Holders(s.pc)[c]);
      StepKeepsInv(s, c, run[0].good);
      assert Users(s'.pc) == Users(s.pc);
      TrappedForever(s', run[1..], t);
    }
  }

  lemma {:induction false} FailedForever(s: State, run: seq<Turn>, t: nat)
    requires t < |s.pc| && Failed(s.pc[t]) && Turns(|s.pc|, run)
    ensures Failed(Run(s, run).pc[t])
    decreases |run|
  {
    if run == [] {
    } else {
      FailedForever(Step(s, run[0].cpu, run[0].good), run[1..], t);
    }
  }

  /** From the failure on: the CPU never gives its place back, so the others share two. */
  lemma FailedKeepsPlace(s: State, run: seq<Turn>, t: nat)
    requires Inv(s) && t < |s.pc| && Failed(s.pc[t]) && Turns(|s.pc|, run)
    ensures var r := Run(s, run);
      Failed(r.pc[t]) && Using(r.pc[t]) && r.avail + Sum(Users(r.pc[t := Outside])) == PLACES - 1
  {
    hide Run, Sum;
    var r := Run(s, run);
    RunKeepsInv(s, run);
    FailedForever(s, run, t);
    UsersUpdate(r.pc, t, Outside);
  }

  ghost predicate CanLeave(s: State) {
    exists run :: Turns(|s.pc|, run) && AllOutside(Run(s, run))
  }

  /** In every reachable state: all CPUs can still get outside iff the PAL has failed on none. */
  lemma LeaveIffNoneFailed(cpus: nat, run: seq<Turn>)
    requires Turns(cpus, run)
    ensures var s := Run(Init(cpus), run); CanLeave(s) <==> NoneFailed(s)
  {
    hide Inv;
    var s := Run(Init(cpus), run);
    EveryRun(cpus, run);
    if NoneFailed(s) {
      var rest := AllCanLeave(s);
    } else {
      var t :| 0 <= t < |s.pc| && Failed(s.pc[t]);
      forall rest | Turns(|s.pc|, rest)
        ensures !AllOutside(Run(s, rest))
      {
        FailedForever(s, rest, t);
      }
    }
  }

  /** A CPU for `k` steps alone. */
  function Alone(s: State, c: nat, k: nat): (r: State)
    requires c < |s.pc|
    ensures |r.pc| == |s.pc|
  {
    if k == 0 then s else Step(Alone(s, c, k - 1), c, true)
  }

  /** A CPU that finds no place gives the lock back and reads the counter 4096 times, or until it is not 0, before
      it tries the lock again. */
  lemma {:induction false} WaitsWithoutLock(s: State, c: nat, k: nat)
    requires c < |s.pc| && s.pc[c] == WaitUnlock && s.avail == 0 && k <= 4097
    ensures k >= 1 ==> Alone(s, c, k) == State(FREE, 0, s.pc[c := Poll(k - 1)])
    ensures k == 4097 ==> Step(Alone(s, c, k), c, true) == State(FREE, 0, s.pc[c := Locking(Take, Test)])
    ensures k >= 1 ==> forall n: nat | n > 0 ::
      Step(Alone(s, c, k).(avail := n), c, true).pc[c] == Locking(Take, Test)
  {
    if k > 1 { WaitsWithoutLock(s, c, k - 1); }
  }

  lemma {:induction false} RunLast(s: State, run: seq<Turn>, t: Turn)
    requires Turns(|s.pc|, run + [t])
    ensures t == (run + [t])[|run|] && Turns(|s.pc|, run)
    ensures Run(s, run + [t]) == Step(Run(s, run), t.cpu, t.good)
    decreases |run|
  {
    forall i | 0 <= i < |run| ensures run[i].cpu < |s.pc| { assert (run + [t])[i] == run[i]; }
    assert t == (run + [t])[|run|];
    if run == [] {
      assert run + [t] == [t] && [t][1..] == [];
    } else {
      assert (run + [t])[1..] == run[1..] + [t];
      RunLast(Step(s, run[0].cpu, run[0].good), run[1..], t);
    }
  }

  /** A run that gets stuck: the PAL fails on the first of two CPUs while the second wants a place; from
      then on no step changes anything. */
  lemma WrongResultBlocks() returns (run: seq<Turn>)
    ensures Turns(2, run)
    ensures var s := Run(Init(2), run);
      s.pc == [Trapped, Locking(Take, Test)] && s.avail == 2 && forall c, good :: 0 <= c < 2 ==> Step(s, c, good) == s
  {
    hide Run;
    var zero, bad, one := Turn(0, true), Turn(0, false), Turn(1, true);
    run := [];
    StartsHere();
    var k := 0;
    while k < 7
      invariant 0 <= k <= 7 && Turns(2, run)
      invariant Run(Init(2), run) == FirstSteps(k)
    {
      RunLast(Init(2), run, zero);
      run := run + [zero];
      k := k + 1;
    }
    RunLast(Init(2), run, bad);
    run := run + [bad];
    RunLast(Init(2), run, zero);
    run := run + [zero];
    RunLast(Init(2), run, zero);
    run := run + [zero];
    RunLast(Init(2), run, one);
    run := run + [one];
    assert Run(Init(2), run).pc == [Trapped, Locking(Take, Test)];
  }

  lemma StartsHere()
    ensures Run(Init(2), []) == FirstSteps(0)
  {
  }

  /** The first seven steps of a CPU that is alone take a place. */
  function FirstSteps(k: nat): State
    requires k <= 7
  {
    var at := [Outside, Locking(Take, Test), Locking(Take, Xchg), TakeCheck,
               TakeLoad, TakeStore(PLACES), TakeUnlock, Inside];
    State(if 3 <= k < 7 then TAKEN else FREE, if k < 6 then PLACES else PLACES - 1, [at[k], Outside])
  }
}
