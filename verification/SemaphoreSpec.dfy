/** The kernel semaphore as a step system over thread ids. Each operation is one atomic step; a thread on
    the wait queue sleeps until an unlock wakes it and takes no steps of its own. */
module SemaphoreSpec {
  import opened ByteSeq
  import opened Lists
  import opened Wrappers

  /** `value` is the 32-bit unsigned counter; `queue` has the longest waiter first; `owner` is the thread
      that got through. */
  datatype Sem = Sem(value: nat, queue: seq<nat>, owner: Option<nat>)

  datatype Op = TryLock(t: nat) | Lock(t: nat) | Unlock(t: nat)

  function Dec(v: nat): nat { (v - 1) % TWO32 }

  function Inc(v: nat): nat { (v + 1) % TWO32 }

  /** A waiting thread does not run, and nobody unlocks a free semaphore; whoever else may unlock, as the code does
      not ask. */
  predicate Enabled(s: Sem, op: Op) {
    match op
    case TryLock(t) => t !in s.queue
    case Lock(t) => t !in s.queue
    case Unlock(t) => s.owner.Some? && t !in s.queue
  }

  function Step(s: Sem, op: Op): Sem {
    match op
    case TryLock(t) =>
      if Dec(s.value) != 0 then s.(value := Inc(Dec(s.value))) else s.(value := 0, owner := Some(t))
    case Lock(t) =>
      if Dec(s.value) != 0 then s.(value := Dec(s.value), queue := s.queue + [t])
      else s.(value := 0, owner := Some(t))
    case Unlock(t) =>
      if s.queue == [] then s.(value := Inc(s.value), owner := None)
      else s.(value := Inc(s.value), queue := s.queue[1..], owner := Some(s.queue[0]))
  }

  function Init(v: nat): Sem { Sem(v % TWO32, [], None) }

  /** Read as a signed number, value is 1 - owners - waiters; nobody waits while nobody owns. */
  ghost predicate Inv(s: Sem) {
    && s.value == (1 - (if s.owner.Some? then 1 else 0) - |s.queue|) % TWO32
    && (s.queue != [] ==> s.owner.Some?)
    && Distinct(s.queue)
  }

  lemma InitInv()
    ensures Inv(Init(1))
  {
  }

  /** With fewer than 2^32 - 1 waiters the counter is 1 exactly when the semaphore is free. */
  lemma FreeIsOne(s: Sem)
    requires Inv(s) && |s.queue| < TWO32 - 1
    ensures Dec(s.value) == 0 <==> s.owner == None
  {
    var n := (if s.owner.Some? then 1 else 0) + |s.queue|;
    assert 0 <= n < TWO32;
    assert n > 1 ==> (1 - n) % TWO32 == TWO32 + 1 - n;
  }

  lemma StepKeepsInv(s: Sem, op: Op)
    requires Inv(s) && Enabled(s, op) && |s.queue| < TWO32 - 1
    ensures Inv(Step(s, op))
  {
    FreeIsOne(s);
  }

  /** An unlock keeps the invariant exactly when the semaphore is not free. */
  lemma UnlockKeepsInv(s: Sem, t: nat)
    requires Inv(s) && |s.queue| < TWO32 - 1
    ensures Inv(Step(s, Unlock(t))) <==> s.owner.Some?
  {
    FreeIsOne(s);
  }

  /** And after the unlock of a free semaphore the next lock sleeps, though nobody owns it. */
  lemma SpareUnlockBlocks(s: Sem, t: nat, u: nat)
    requires Inv(s) && s.owner == None
    ensures var after := Step(Step(s, Unlock(t)), Lock(u)); after.owner == None && after.queue == [u]
  {
    FreeIsOne(s);
  }

  /** Mutual exclusion: a lock attempt succeeds exactly when there is no owner, and no step makes one
      thread the owner while another one still is. */
  lemma MutualExclusion(s: Sem, op: Op)
    requires Inv(s) && Enabled(s, op) && |s.queue| < TWO32 - 1
    ensures !op.Unlock? ==>
      (Step(s, op).owner == Some(op.t) && s.owner != Some(op.t) <==> s.owner == None)
    ensures s.owner.Some? && !op.Unlock? ==> Step(s, op).owner == s.owner
  {
    FreeIsOne(s);
  }

  /** Unlocking hands the semaphore to the longest waiter. */
  lemma DirectHandOff(s: Sem, t: nat)
    requires Inv(s) && Enabled(s, Unlock(t))
    ensures Step(s, Unlock(t)).owner == if s.queue == [] then None else Some(s.queue[0])
    ensures s.queue != [] ==> Dec(Step(s, Unlock(t)).value) != 0 || |s.queue| >= TWO32 - 1
  {
    if |s.queue| < TWO32 - 1 && s.queue != [] {
      StepKeepsInv(s, Unlock(t));
      FreeIsOne(Step(s, Unlock(t)));
    }
  }

  // ----- runs -----

  ghost predicate IsRun(states: seq<Sem>, ops: seq<Op>) {
    && |states| == |ops| + 1
    && forall k :: 0 <= k < |ops| ==> Enabled(states[k], ops[k]) && states[k + 1] == Step(states[k], ops[k])
  }

  /** There are never so many waiters that the counter wraps: each is a thread of its own. */
  ghost predicate FewWaiters(states: seq<Sem>) {
    forall k :: 0 <= k < |states| ==> |states[k].queue| < TWO32 - 1
  }

  /** The invariant holds throughout every run, however long. */
  lemma {:induction false} RunInv(states: seq<Sem>, ops: seq<Op>, k: nat)
    requires IsRun(states, ops) && k < |states| && states[0] == Init(1) && FewWaiters(states)
    ensures Inv(states[k])
    decreases k
  {
    if k > 0 {
      RunInv(states, ops, k - 1);
      assert Enabled(states[k - 1], ops[k - 1]) && states[k] == Step(states[k - 1], ops[k - 1]);
      StepKeepsInv(states[k - 1], ops[k - 1]);
    }
  }

  /** Waiters are served in order of arrival: of two waiters, the later one owns the semaphore at some
      later time only after the earlier one has. */
  lemma {:induction false} NoOvertaking(states: seq<Sem>, ops: seq<Op>, m: nat, n: nat, i: nat, j: nat, a: nat, b: nat) returns (k: nat)
    requires IsRun(states, ops) && m <= n < |states| && states[0] == Init(1) && FewWaiters(states)
    requires i < j < |states[m].queue| && states[m].queue[i] == a && states[m].queue[j] == b
    requires states[n].owner == Some(b) && states[m].owner != Some(b)
    ensures m < k < n && states[k].owner == Some(a)
    decreases n - m
  {
    RunInv(states, ops, m);
    var s, op := states[m], ops[m];
    assert m < n;
    assert Enabled(s, op) && states[m + 1] == Step(s, op);
    StepKeepsInv(s, op);
    MutualExclusion(s, op);
    var s' := states[m + 1];
    if op.Unlock? {
      if i == 0 {
        k := m + 1;
        assert s'.owner == Some(a) && a != b;
      } else {
        assert s'.queue[i - 1] == a && s'.queue[j - 1] == b && s.queue[0] != b;
        k := NoOvertaking(states, ops, m + 1, n, i - 1, j - 1, a, b);
      }
    } else {
      assert s'.queue[i] == a && s'.queue[j] == b && s'.owner == s.owner;
      k := NoOvertaking(states, ops, m + 1, n, i, j, a, b);
    }
  }

  /** Nor does a newcomer overtake: a thread that neither waits nor owns while `a` waits owns the semaphore only
      after `a` has. */
  lemma {:induction false} NoNewcomer(states: seq<Sem>, ops: seq<Op>, m: nat, n: nat, a: nat, b: nat) returns (k: nat)
    requires IsRun(states, ops) && m <= n < |states| && states[0] == Init(1) && FewWaiters(states)
    requires a in states[m].queue && b !in states[m].queue && states[m].owner != Some(b) && states[n].owner == Some(b)
    ensures m < k < n && states[k].owner == Some(a)
    decreases n - m
  {
    RunInv(states, ops, m);
    var s, op := states[m], ops[m];
    assert Enabled(s, op) && states[m + 1] == Step(s, op);
    MutualExclusion(s, op);
    var s' := states[m + 1];
    var i :| 0 <= i < |s.queue| && s.queue[i] == a;
    if op.Unlock? && i == 0 {
      k := m + 1;
    } else if b in s'.queue {
      assert s'.queue[i] == a && s'.queue[|s.queue|] == b;
      k := NoOvertaking(states, ops, m + 1, n, i, |s.queue|, a, b);
    } else {
      assert s'.queue[if op.Unlock? then i - 1 else i] == a;
      k := NoNewcomer(states, ops, m + 1, n, a, b);
    }
  }

  /** Other initial values do not make a counting semaphore: the first lock gets through exactly when the
      value is 1. */
  lemma OnlyOneGrants(v: nat, t: nat)
    requires v < TWO32
    ensures Step(Init(v), Lock(t)).owner == Some(t) <==> v == 1
    ensures v != 1 ==> Step(Init(v), Lock(t)).queue == [t] && Step(Init(v), Lock(t)).owner == None
  {
  }
}
