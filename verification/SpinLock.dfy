/** The test-and-test-and-set lock of src/spinlock.c, one memory access at a time. */
module SpinLock {
  /** Where a CPU is in spin_lock: before the plain read of the lock word or before the exchange. */
  datatype Try = Test | Xchg

  datatype Tried = Again(next: Try) | Acquired

  const FREE := 0
  const TAKEN := 1

  /** The lock word after the access, and where the CPU is then. */
  function LockStep(lock: nat, at: Try): (nat, Tried) {
    match at
    case Test => (lock, Again(if lock == FREE then Xchg else Test))
    case Xchg => (TAKEN, if lock == FREE then Acquired else Again(Test))
  }

  /** At most one CPU holds the lock, and the lock word says whether one does. */
  ghost predicate Exclusive(lock: nat, holds: seq<bool>) {
    && (forall i, j :: 0 <= i < |holds| && 0 <= j < |holds| && holds[i] && holds[j] ==> i == j)
    && (lock == FREE || lock == TAKEN)
    && (lock == TAKEN <==> exists i :: 0 <= i < |holds| && holds[i])
  }

  /** What one access of a CPU may do to the lock: take it when it is free, release what the CPU holds, or
      leave word and holder alone. */
  predicate LockUse(lock: nat, held: bool, lock': nat, holds: bool) {
    || (lock' == lock && holds == held)
    || (lock == FREE && !held && lock' == TAKEN && holds)
    || (held && lock' == FREE && !holds)
  }

  lemma HolderTakes(lock: nat, holds: seq<bool>, c: nat)
    requires Exclusive(lock, holds) && c < |holds|
    ensures lock == FREE || lock == TAKEN
    ensures holds[c] ==> lock == TAKEN
  {
  }

  /** Mutual exclusion: any such access keeps it. */
  lemma LockStaysExclusive(lock: nat, holds: seq<bool>, c: nat, lock': nat, h: bool)
    requires Exclusive(lock, holds) && c < |holds| && LockUse(lock, holds[c], lock', h)
    ensures Exclusive(lock', holds[c := h])
  {
    var after := holds[c := h];
    if !holds[c] && !h && lock == TAKEN {
      var i :| 0 <= i < |holds| && holds[i];
      assert after[i];
    }
    if h { assert after[c]; }
  }

  function Sum(s: seq<nat>): nat {
    if s == [] then 0 else s[0] + Sum(s[1..])
  }

  lemma {:induction false} SumUpdate(s: seq<nat>, i: nat, x: nat)
    requires i < |s|
    ensures Sum(s[i := x]) + s[i] == Sum(s) + x
  {
    if i == 0 {
      assert s[0 := x][1..] == s[1..];
    } else {
      assert s[i := x][1..] == s[1..][i - 1 := x];
      SumUpdate(s[1..], i - 1, x);
    }
  }

  lemma {:induction false} SumPositive(s: seq<nat>)
    ensures Sum(s) > 0 <==> exists i :: 0 <= i < |s| && s[i] > 0
  {
    if s == [] {
    } else {
      SumPositive(s[1..]);
      if Sum(s[1..]) > 0 {
        var i :| 0 <= i < |s[1..]| && s[1..][i] > 0;
        assert s[i + 1] > 0;
      } else {
        assert forall i :: 1 <= i < |s| ==> s[i] == s[1..][i - 1];
      }
    }
  }
}
