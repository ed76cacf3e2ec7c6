/** The steps of threads over the chains: the choice of the next thread, the clock tick, and the calls that
    put a thread to sleep, wake it, stop it and let it go on. */
module ThreadSteps {
  import opened Lists
  import opened Scheduler
  import opened SchedulerSpec
  import opened WaitingSpec

  ghost function IndexIn(s: seq<KThread>, t: KThread): (i: nat)
    requires t in s
    ensures i < |s| && s[i] == t
  {
    var i :| 0 <= i < |s| && s[i] == t;
    i
  }

  /** Who runs after `cur`: the ready thread behind it, else the first ready one; an idle one only when
      nobody is ready. */
  ghost function Choice(ready: seq<KThread>, idle: seq<KThread>, cur: KThread): (c: KThread?) {
    if ready == [] then At(idle, 0)
    else if cur in ready then ready[NextReady(|ready|, IndexIn(ready, cur))]
    else ready[0]
  }

  /** The chains are in order and someone in the box is running. */
  ghost predicate Running(box: ThreadBox)
    reads box, box.threads
  {
    && box.Valid() && box.running != null && box.running in box.threads
    && Ready in box.chains && Idle in box.chains && Wait in box.chains
  }

  lemma ValidRuns(box: ThreadBox)
    requires box.Valid() && box.running != null && box.running in box.threads
    ensures Running(box)
  {
  }

  /** In a circle through the ready threads; from elsewhere to the first; to an idle one when nobody is ready. */
  lemma ChoiceIs(ready: seq<KThread>, idle: seq<KThread>, cur: KThread, i: nat)
    requires Distinct(ready)
    ensures i < |ready| && ready[i] == cur ==> Choice(ready, idle, cur) == ready[(i + 1) % |ready|]
    ensures cur !in ready && ready != [] ==> Choice(ready, idle, cur) == ready[0]
    ensures ready == [] && idle != [] ==> Choice(ready, idle, cur) == idle[0]
    ensures ready == [] && idle == [] ==> Choice(ready, idle, cur) == null
  {
    if i < |ready| && ready[i] == cur {
      assert IndexIn(ready, cur) == i;
      if i + 1 < |ready| { Small(i + 1, |ready|); } else { assert (i + 1) % |ready| == 0; }
    }
  }

  ghost function Chosen(box: ThreadBox): (c: KThread?)
    requires Running(box)
    reads box, box.threads
  {
    Choice(box.chains[Ready], box.chains[Idle], box.running)
  }

  lemma OnReadyChain(box: ThreadBox, t: KThread)
    requires box.Valid() && t in box.threads && Ready in box.chains
    ensures t in box.chains[Ready] <==> t.state == Ready
  {
  }

  /** What following the chain from the running thread, with a fall back to its head, arrives at. */
  lemma NextOrFirst(box: ThreadBox)
    requires Running(box) && box.chains[Ready] != []
    ensures Ready in box.heads && box.heads[Ready] != null && Chosen(box) != null
    ensures Chosen(box) == if box.running.state == Ready && box.running.next != null then box.running.next else box.heads[Ready]
    ensures Chosen(box) in box.threads && Chosen(box).state == Ready
  {
    hide ThreadBox.Shape;
    box.HeadOf(Ready);
    box.StateOf(Ready, 0);
    OnReadyChain(box, box.running);
    if box.running.state == Ready {
      var i := IndexIn(box.chains[Ready], box.running);
      box.NextOf(Ready, i);
      box.StateOf(Ready, NextReady(|box.chains[Ready]|, i));
    }
  }

  lemma NobodyReady(box: ThreadBox)
    requires Running(box) && box.chains[Ready] == []
    ensures Ready in box.heads && Idle in box.heads && box.heads[Ready] == null && box.heads[Idle] == Chosen(box)
    ensures box.running.state != Ready
    ensures Chosen(box) != null ==> Chosen(box) in box.threads && Chosen(box).state == Idle
  {
    hide ThreadBox.Shape;
    box.HeadOf(Ready);
    box.HeadOf(Idle);
    OnReadyChain(box, box.running);
    if box.chains[Idle] != [] { box.StateOf(Idle, 0); }
  }

  /** The switch itself: the thread runs, nobody is due any more. */
  method SwitchThread(box: ThreadBox, t: KThread)
    modifies box`running, box`next
    ensures box.running == t && box.next == null
  {
    box.running, box.next := t, null;
  }

  /** `c` has been picked in place of `cur`: at once, or when the interrupt that `cur` is in ends. `due` was
      next before. */
  ghost predicate Picked(box: ThreadBox, cur: KThread, c: KThread, due: KThread?)
    reads box, cur, c
  {
    && c in box.threads && c.state in {Ready, Idle}
    && c.clock == (if c.state == Ready then 5 else 1)
    && box.running == (if cur.isInterrupted then cur else c)
    && box.next == (if c == cur then due else if cur.isInterrupted then c else null)
  }

  /** TmSchedule. There is no way on when nobody is ready and there is no idle thread: the kernel halts. */
  method Schedule(box: ThreadBox) returns (halted: bool)
    requires Running(box)
    modifies box`running, box`next, box.threads`clock
    ensures box.Valid() && halted == (old(Chosen(box)) == null)
    ensures halted ==> box.running == old(box.running) && box.next == old(box.next)
    ensures !halted ==> Picked(box, old(box.running), old(Chosen(box)), old(box.next))
    ensures !halted ==> old(Chosen(box)).clock == if old(box.chains)[Ready] != [] then 5 else 1
    ensures forall t :: t in box.threads && t != old(Chosen(box)) ==> t.clock == old(t.clock)
    ensures forall t :: t in box.threads && t.state == Wait ==> t.clock == old(t.clock)
  {
    hide ThreadBox.Shape, Choice;
    var cur := box.running;
    var thr: KThread? := null;
    if box.chains[Ready] == [] { NobodyReady(box); } else { NextOrFirst(box); }
    if cur.state == Ready {
      thr := cur.next;
    }
    if thr == null || thr.state != Ready {
      thr := box.heads[Ready];
    }
    halted := false;
    if thr != null {
      thr.clock := 5;
    } else {
      thr := box.heads[Idle];
      if thr == null {
        halted := true;
        return;
      }
      thr.clock := 1;
    }
    if thr != cur {
      box.next := thr;
      if !cur.isInterrupted {
        SwitchThread(box, thr);
      }
    }
    box.ClocksFrame();
  }

  /** Whoever is picked was not waiting. */
  twostate lemma WaitersKept(p: (ThreadBox, KThread?))
    requires old(Running(p.0)) && p.0.chains == old(p.0.chains)
    requires p.1 != null ==> p.1 in old(p.0.threads) && old(p.1.state) != Wait
    requires forall t :: t in old(p.0.threads) && t != p.1 ==> t.clock == old(t.clock)
    ensures Wait in p.0.chains && p.0.WaitList() == old(p.0.WaitList())
  {
    var (box, c) := p;
    var w := box.chains[Wait];
    forall i | 0 <= i < |w|
      ensures w[i].clock == old(w[i].clock)
    {
      assert w[i] in w;
    }
  }

  lemma NotWaiting(box: ThreadBox)
    requires Running(box)
    ensures forall t :: t in box.chains[Wait] ==> t.state == Wait
  {
  }

  lemma ChosenNotWaiting(box: ThreadBox)
    requires Running(box)
    ensures Chosen(box) != null ==> Chosen(box) in box.threads && Chosen(box).state != Wait
  {
    hide ThreadBox.Shape, Choice;
    if box.chains[Ready] == [] { NobodyReady(box); } else { NextOrFirst(box); }
  }

  /** A waiting list after the running thread, should it be on it, has paid for the tick. */
  ghost function Charged(s: seq<Entry<KThread>>, cur: KThread): (r: seq<Entry<KThread>>)
    ensures |r| == |s|
    ensures forall i :: 0 <= i < |s| ==> r[i] == Entry(s[i].thread, s[i].clock - if s[i].thread == cur then 1 else 0)
  {
    seq(|s|, i requires 0 <= i < |s| => Entry(s[i].thread, s[i].clock - if s[i].thread == cur then 1 else 0))
  }

  lemma NotCharged(box: ThreadBox)
    requires Running(box) && box.running.state != Wait
    ensures Charged(box.WaitList(), box.running) == box.WaitList()
  {
    NotWaiting(box);
    assert forall i :: 0 <= i < |box.chains[Wait]| ==> box.chains[Wait][i] in box.chains[Wait];
  }

  method Charge(box: ThreadBox)
    requires Running(box)
    modifies box.running`clock
    ensures Running(box) && box.running.clock == old(box.running.clock) - 1
    ensures box.WaitList() == Charged(old(box.WaitList()), box.running)
  {
    hide ThreadBox.Shape;
    box.running.clock := box.running.clock - 1;
    box.ClocksFrame();
  }

  /** TmIncreaseTime: the waiting clocks, then the running thread's share. `left` is what the running thread then
      has left. */
  method IncreaseTime(box: ThreadBox, canSchedule: int) returns (halted: bool, ghost left: int)
    requires Running(box)
    modifies box`heads, box`chains, box`running, box`next
    modifies box.threads`next, box.threads`prev, box.threads`state, box.threads`clock
    ensures box.Valid() && box.OtherChains()
    ensures box.WaitList() == Charged(Tick(old(box.WaitList())).kept, old(box.running))
    ensures box.chains[Ready] == Reversed(Tick(old(box.WaitList())).fired) + old(box.chains)[Ready]
    ensures old(box.running.state) != Wait ==> left == old(box.running.clock) - 1 && box.WaitList() == Tick(old(box.WaitList())).kept
    ensures left > 0 || canSchedule != 0 ==>
      !halted && box.running == old(box.running) && box.next == old(box.next) && box.running.clock == left
    ensures left <= 0 && canSchedule == 0 ==>
      var c := Choice(box.chains[Ready], old(box.chains)[Idle], old(box.running));
      halted == (c == null) && (!halted ==> Picked(box, old(box.running), c, old(box.next)) && c.clock == if box.chains[Ready] != [] then 5 else 1)
    ensures halted ==> box.running == old(box.running)
    ensures forall x :: x in box.threads && old(x.state) != Wait ==> x.state == old(x.state)
  {
    hide ThreadBox.Shape, Choice, Tick, Reversed;
    halted := false;
    NotWaiting(box);
    box.TickWaiting();
    ValidRuns(box);
    if box.running.state != Wait { NotCharged(box); }
    Charge(box);
    left := box.running.clock;
    label Charged:
    ghost var c := Chosen(box);
    if box.running.clock <= 0 && canSchedule == 0 {
      ChosenNotWaiting(box);
      halted := Schedule(box);
      WaitersKept@Charged((box, c));
    }
  }

  /** Between two steps, outside interrupts: somebody who may run is running, nobody is due. */
  ghost predicate Alive(box: ThreadBox)
    reads box, box.threads
  {
    && Running(box) && box.next == null && box.running.state in {Ready, Idle}
    && forall t :: t in box.threads ==> !t.isInterrupted
  }

  /** The chains once `t` is in state `st`. */
  twostate predicate Entered(p: (ThreadBox, KThread, ThreadState))
    reads p.0, p.1
  {
    var (box, t, st) := p;
    && t.state == st
    && box.chains == if old(t.state) == st then old(box.chains) else ThreadBox.Moved(old(box.chains), t, old(t.state), st)
  }

  /** No waiting thread but `t` has lost time. */
  twostate predicate ClocksKept(p: (ThreadBox, KThread))
    reads p.0, p.0.threads
  {
    p.0.threads == old(p.0.threads)
    && forall x :: x in p.0.threads && x != p.1 && x.state == Wait ==> x.clock == old(x.clock)
  }

  lemma StillRunning(box: ThreadBox)
    requires box.Valid() && box.running != null && box.running in box.threads && box.next == null
    requires box.running.state in {Ready, Idle} && forall t :: t in box.threads ==> !t.isInterrupted
    ensures Alive(box)
  {
    hide ThreadBox.Shape;
    ValidRuns(box);
  }

  /** The running thread gives up the processor if it is `t`, which has just left the ready and idle chains. */
  method Yield(box: ThreadBox, t: KThread) returns (halted: bool)
    requires Running(box) && box.next == null && t in box.threads && t.state !in {Ready, Idle}
    requires box.running != t ==> box.running.state in {Ready, Idle}
    requires forall x :: x in box.threads ==> !x.isInterrupted
    modifies box`running, box`next, box.threads`clock
    ensures Running(box) && (!halted ==> Alive(box) && box.running != t)
    ensures halted <==> box.chains[Ready] == [] && box.chains[Idle] == []
    ensures halted ==> t == old(box.running) == box.running
    ensures old(box.running) != t ==> box.running == old(box.running)
    ensures t.clock == old(t.clock) && ClocksKept((box, t))
  {
    hide ThreadBox.Shape, Choice;
    halted := false;
    if t == box.running {
      if box.chains[Ready] == [] { NobodyReady(box); } else { NextOrFirst(box); }
      NobodyLeft(box);
      halted := Schedule(box);
      ValidRuns(box);
      if !halted { StillRunning(box); }
    }
    if !halted { SomebodyRuns(box); }
  }

  lemma NobodyLeft(box: ThreadBox)
    requires Running(box)
    ensures Chosen(box) == null <==> box.chains[Ready] == [] && box.chains[Idle] == []
  {
    hide ThreadBox.Shape;
  }

  /** TmResumeThread. */
  method Resume(box: ThreadBox, t: KThread)
    requires Alive(box) && t in box.threads
    modifies box`heads, box`chains, box.threads`next, box.threads`prev, t`state
    ensures Alive(box) && Entered((box, t, Ready))
  {
    hide ThreadBox.Shape, ThreadBox.Moved;
    box.SetThreadState(t, Ready);
    StillRunning(box);
  }

  /** TmSuspendThread. */
  method Suspend(box: ThreadBox, t: KThread) returns (halted: bool)
    requires Alive(box) && t in box.threads
    modifies box`heads, box`chains, box`running, box`next, t`state
    modifies box.threads`next, box.threads`prev, box.threads`clock
    ensures Running(box) && Entered((box, t, Paused)) && (!halted ==> Alive(box) && box.running != t)
    ensures halted <==> box.chains[Ready] == [] && box.chains[Idle] == []
    ensures halted ==> t == old(box.running) == box.running
    ensures ClocksKept((box, t))
  {
    hide ThreadBox.Shape, ThreadBox.Moved;
    box.SetThreadState(t, Paused);
    ValidRuns(box);
    halted := Yield(box, t);
  }

  /** TmSleepThread. */
  method Sleep(box: ThreadBox, t: KThread, ms: int) returns (halted: bool)
    requires Alive(box) && t in box.threads && 0 <= ms <= INFINITE
    modifies box`heads, box`chains, box`running, box`next, t`state
    modifies box.threads`next, box.threads`prev, box.threads`clock
    ensures Running(box) && (!halted ==> Alive(box) && box.running != t)
    ensures halted <==> box.chains[Ready] == [] && box.chains[Idle] == []
    ensures halted ==> t == old(box.running) == box.running
    ensures Entered((box, t, if ms == INFINITE then ThreadState.Sleep else Wait))
    ensures ms < 0x8000_0000 ==> t.state == Wait && t.clock == ms
    ensures 0x8000_0000 <= ms < 0xffff_ffff ==> t.state == Wait && t.clock == ms - 0x1_0000_0000
    ensures ms == 0xffff_ffff ==> t.state == ThreadState.Sleep
    ensures ClocksKept((box, t))
  {
    hide ThreadBox.Shape, ThreadBox.Moved;
    if ms == INFINITE {
      box.SetThreadState(t, ThreadState.Sleep);
    } else {
      t.clock := AsSigned(ms);
      box.ClocksFrame();
      box.SetThreadState(t, Wait);
    }
    ValidRuns(box);
    halted := Yield(box, t);
  }

  /** TmWakeupThread: refused unless the thread sleeps or waits. */
  method Wakeup(box: ThreadBox, t: KThread) returns (ok: bool)
    requires Alive(box) && t in box.threads
    modifies box`heads, box`chains, box.threads`next, box.threads`prev, t`state
    ensures Alive(box) && ok == (old(t.state) in {ThreadState.Sleep, Wait})
    ensures Entered((box, t, if ok then Ready else old(t.state)))
  {
    hide ThreadBox.Shape, ThreadBox.Moved;
    ok := t.state == ThreadState.Sleep || t.state == Wait;
    if ok {
      box.SetThreadState(t, Ready);
      StillRunning(box);
    }
  }

  /** The interrupted thread's mark is set. */
  method EnterInterrupt(box: ThreadBox)
    requires Alive(box)
    modifies box.running`isInterrupted
    ensures Running(box) && box.running.isInterrupted && box.WaitList() == old(box.WaitList())
  {
    hide ThreadBox.Shape;
    box.running.isInterrupted := true;
    box.ClocksFrame();
    WaitersKept((box, null));
  }

  /** The mark is cleared, and a thread that has become due takes over. */
  method LeaveInterrupt(box: ThreadBox, cur: KThread)
    requires Running(box) && box.running == cur && cur.state in {Ready, Idle}
    requires forall t :: t in box.threads && t != cur ==> !t.isInterrupted
    requires box.next != null ==> box.next in box.threads && box.next.state in {Ready, Idle}
    modifies box`running, box`next, cur`isInterrupted
    ensures Alive(box) && box.running == (if old(box.next) == null then cur else old(box.next))
    ensures box.WaitList() == old(box.WaitList())
  {
    hide ThreadBox.Shape;
    cur.isInterrupted := false;
    if box.next != null {
      SwitchThread(box, box.next);
    }
    box.ClocksFrame();
    WaitersKept((box, null));
  }

  lemma SomebodyRuns(box: ThreadBox)
    requires Alive(box)
    ensures box.chains[Ready] != [] || box.chains[Idle] != []
  {
  }

  /** The clock interrupt: the tick, then the thread that has become due takes over. */
  method ClockInterrupt(box: ThreadBox, canSchedule: int)
    requires Alive(box)
    modifies box`heads, box`chains, box`running, box`next, box.threads
    ensures Alive(box) && box.OtherChains() && box.WaitList() == Tick(old(box.WaitList())).kept
    ensures box.chains[Ready] == Reversed(Tick(old(box.WaitList())).fired) + old(box.chains)[Ready]
    ensures old(box.running.clock) > 1 || canSchedule != 0 ==> box.running == old(box.running)
    ensures old(box.running.clock) <= 1 && canSchedule == 0 ==>
      box.running == Choice(box.chains[Ready], box.chains[Idle], old(box.running))
    ensures old(box.running.clock) > 1 || canSchedule != 0 ==> box.running.clock == old(box.running.clock) - 1
    ensures old(box.running.clock) <= 1 && canSchedule == 0 ==> box.running.clock == if box.chains[Ready] != [] then 5 else 1
    ensures Ticked(box) && forall x :: x in box.threads && old(x.state) != Wait ==> x.state == old(x.state)
  {
    hide ThreadBox.Shape, Choice, Tick, Reversed;
    SomebodyRuns(box);
    ValidPlaced(box);
    var cur := box.running;
    EnterInterrupt(box);
    ghost var left;
    var halted;
    halted, left := IncreaseTime(box, canSchedule);
    ChoiceIsNull(box.chains[Ready], box.chains[Idle], cur);
    ValidRuns(box);
    LeaveInterrupt(box, cur);
    TickFates(box);
  }

  /** The waiting list has one entry for each waiting thread, and no other. */
  ghost predicate Placed(box: ThreadBox)
    reads box, box.threads
  {
    && box.Valid() && Wait in box.chains && OneEach(box.WaitList())
    && forall t :: t in box.threads ==>
         && (Waits(box.WaitList(), t) <==> t.state == Wait)
         && (t.state == Wait ==> box.chains[Wait][PlaceOf(box.WaitList(), t)] == t)
  }

  lemma ValidPlaced(box: ThreadBox)
    requires Running(box)
    ensures Placed(box)
  {
    var w, s := box.WaitList(), box.chains[Wait];
    assert Distinct(s);
    forall t | t in box.threads
      ensures Waits(w, t) <==> t.state == Wait
      ensures t.state == Wait ==> s[PlaceOf(w, t)] == t
    {
      if t.state == Wait {
        var j :| 0 <= j < |s| && s[j] == t;
        PlaceIs(w, j);
      }
      if Waits(w, t) { box.StateOf(Wait, PlaceOf(w, t)); }
    }
  }

  /** What a tick does to each waiting thread: readied, lowered by a tick, or passed over. */
  twostate predicate Ticked(box: ThreadBox)
    reads box, box.threads
  {
    Wait in old(box.chains) && forall x :: x in old(box.threads) && x in box.threads && old(x.state) == Wait ==>
      var w, i := old(box.WaitList()), PlaceOf(old(box.WaitList()), x);
      && i < |w| && x.state == (if Fires(w, i) then Ready else Wait)
      && (x.state == Wait ==> x.clock == old(x.clock) - if Skipped(w, i) then 0 else MS)
  }

  twostate lemma TickFates(box: ThreadBox)
    requires old(Placed(box)) && box.Valid() && Ready in old(box.chains)
    requires Wait in box.chains && Ready in box.chains && box.WaitList() == Tick(old(box.WaitList())).kept
    requires box.chains[Ready] == Reversed(Tick(old(box.WaitList())).fired) + old(box.chains)[Ready]
    ensures Ticked(box)
  {
    hide ThreadBox.Shape, Tick, Reversed;
    var s := old(box.WaitList());
    forall x | x in old(box.threads) && x in box.threads && old(x.state) == Wait
      ensures PlaceOf(s, x) < |s| && x.state == (if Fires(s, PlaceOf(s, x)) then Ready else Wait)
      ensures x.state == Wait ==> x.clock == old(x.clock) - if Skipped(s, PlaceOf(s, x)) then 0 else MS
    {
      TickFate((box, x));
    }
  }

  twostate lemma TickFate(p: (ThreadBox, KThread))
    requires old(Placed(p.0)) && p.0.Valid() && Ready in old(p.0.chains) && p.1 in old(p.0.threads) && old(p.1.state) == Wait
    requires Wait in p.0.chains && Ready in p.0.chains && p.0.WaitList() == Tick(old(p.0.WaitList())).kept
    requires p.0.chains[Ready] == Reversed(Tick(old(p.0.WaitList())).fired) + old(p.0.chains)[Ready]
    ensures var w, i := old(p.0.WaitList()), PlaceOf(old(p.0.WaitList()), p.1);
      && i < |w| && p.1.state == (if Fires(w, i) then Ready else Wait)
      && (p.1.state == Wait ==> p.1.clock == old(p.1.clock) - if Skipped(w, i) then 0 else MS)
  {
    hide ThreadBox.Shape, Tick, Reversed;
    var (box, t) := p;
    var s := old(box.WaitList());
    var i := PlaceOf(s, t);
    assert s[i] == Entry(t, old(t.clock));
    var k := TickEntry(s, i);
    if Fires(s, i) {
      var j := InReversed(Tick(s).fired, t);
      assert box.chains[Ready][j] == t;
      box.StateOf(Ready, j);
    } else {
      assert box.WaitList()[k] == Entry(box.chains[Wait][k], box.chains[Wait][k].clock);
      box.StateOf(Wait, k);
    }
  }

  lemma ChoiceIsNull(ready: seq<KThread>, idle: seq<KThread>, cur: KThread)
    ensures Choice(ready, idle, cur) == null <==> ready == [] && idle == []
  {
  }

  /** `m` calls of TmSchedule in a row by whoever runs, with no change of states in between. */
  method Turns(box: ThreadBox, m: nat) returns (ran: seq<KThread>)
    requires Alive(box) && box.running.state == Ready
    modifies box`running, box`next, box.threads`clock
    ensures Alive(box) && |ran| == m && box.running in box.chains[Ready] && old(box.running) in box.chains[Ready]
    ensures forall k :: 0 <= k < m ==> ran[k] == TurnOf(box.chains[Ready], old(box.running), k)
    ensures m == |box.chains[Ready]| ==>
      Distinct(ran) && forall t :: t in ran <==> t in box.chains[Ready]
  {
    hide ThreadBox.Shape;
    ran := [];
    OnReadyChain(box, box.running);
    ghost var ready, first := box.chains[Ready], box.running;
    TurnStart(ready, first);
    for j := 0 to m
      invariant Alive(box) && box.running.state == Ready && box.chains[Ready] == ready && box.running in ready
      invariant |ran| == j && box.running == TurnOf(ready, first, j - 1)
      invariant forall k :: 0 <= k < j ==> ran[k] == TurnOf(ready, first, k)
    {
      TurnStep(box, ready, first, j);
      NextOrFirst(box);
      var halted := Schedule(box);
      StillRunning(box);
      ran := ran + [box.running];
    }
    ReadyDistinct(box);
    if m == |ready| { FullRound(ready, first, ran); }
  }

  lemma ReadyDistinct(box: ThreadBox)
    requires Running(box)
    ensures Distinct(box.chains[Ready])
  {
  }

  /** The thread `k` turns after the one that follows `first`. */
  ghost function TurnOf(ready: seq<KThread>, first: KThread, k: int): KThread
    requires first in ready && -1 <= k
  {
    ready[(IndexIn(ready, first) + 1 + k) % |ready|]
  }

  lemma TurnStart(ready: seq<KThread>, first: KThread)
    requires first in ready
    ensures TurnOf(ready, first, -1) == first
  {
    Small(IndexIn(ready, first), |ready|);
  }

  lemma TurnStep(box: ThreadBox, ready: seq<KThread>, first: KThread, k: nat)
    requires Running(box) && ready == box.chains[Ready] && first in ready && box.running == TurnOf(ready, first, k - 1)
    ensures Chosen(box) == TurnOf(ready, first, k)
  {
    hide ThreadBox.Shape;
    var a := IndexIn(ready, first) + k;
    box.StateOf(Ready, a % |ready|);
    assert IndexIn(ready, box.running) == a % |ready|;
    NextTurn(a, |ready|);
  }

  lemma TurnsDiffer(ready: seq<KThread>, i: nat, ran: seq<KThread>)
    requires Distinct(ready) && |ran| == |ready| && i < |ready|
    requires forall k :: 0 <= k < |ran| ==>
      Choices(|ready|, i, |ready|)[k] < |ready| && ran[k] == ready[Choices(|ready|, i, |ready|)[k]]
    ensures Distinct(ran)
  {
    hide Choices;
    var c := Choices(|ready|, i, |ready|);
    forall a, b | 0 <= a < b < |ran|
      ensures ran[a] != ran[b]
    {
      var k := RoundRobin(|ready|, i, c[a]);
      assert ran[a] == ready[c[a]] && ran[b] == ready[c[b]] && c[a] != c[b];
    }
  }

  lemma EveryoneRan(ready: seq<KThread>, i: nat, ran: seq<KThread>)
    requires |ran| == |ready| && i < |ready|
    requires forall k :: 0 <= k < |ran| ==>
      Choices(|ready|, i, |ready|)[k] < |ready| && ran[k] == ready[Choices(|ready|, i, |ready|)[k]]
    ensures forall t :: t in ran <==> t in ready
  {
    hide Choices;
    forall t | t in ready
      ensures t in ran
    {
      var j := IndexIn(ready, t);
      var k := RoundRobin(|ready|, i, j);
      assert ran[k] == t;
    }
  }

  /** In a full round every ready thread has exactly one turn. */
  lemma FullRound(ready: seq<KThread>, first: KThread, ran: seq<KThread>)
    requires first in ready && Distinct(ready) && |ran| == |ready|
    requires forall k :: 0 <= k < |ran| ==> ran[k] == TurnOf(ready, first, k)
    ensures Distinct(ran) && forall t :: t in ran <==> t in ready
  {
    var n, i := |ready|, IndexIn(ready, first);
    forall k | 0 <= k < n
      ensures Choices(n, i, n)[k] < n && ran[k] == ready[Choices(n, i, n)[k]]
    {
      ChoiceAt(n, i, n, k);
    }
    TurnsDiffer(ready, i, ran);
    EveryoneRan(ready, i, ran);
  }

  /** TmCreateAdvancedThread, as far as the chains go: a new thread starts paused. */
  method Create(box: ThreadBox) returns (t: KThread)
    requires Alive(box)
    modifies box`heads, box`chains, box`threads, box.threads`next, box.threads`prev
    ensures fresh(t) && box.threads == old(box.threads) + {t} && Alive(box) && box.running == old(box.running)
    ensures t.state == Paused && Paused in old(box.chains)
    ensures box.chains == old(box.chains)[Paused := [t] + old(box.chains)[Paused]]
  {
    hide ThreadBox.Shape, ThreadBox.Moved;
    t := new KThread();
    Admit(box, t);
    MovedIn(box.chains, t, Init, Paused);
    box.SetThreadState(t, Paused);
    StillRunning(box);
  }

  lemma MovedIn(c: map<ThreadState, seq<KThread>>, t: KThread, from: ThreadState, to: ThreadState)
    requires from !in c && to in c
    ensures ThreadBox.Moved(c, t, from, to) == c[to := [t] + c[to]]
  {
  }

  /** A thread on no chain joins the box. */
  ghost method Admit(box: ThreadBox, t: KThread)
    requires Alive(box) && t !in box.threads && t.state == Init && !t.isInterrupted
    modifies box`threads
    ensures Alive(box) && box.threads == old(box.threads) + {t}
    ensures Init !in box.chains && Paused in box.chains
  {
    box.threads := box.threads + {t};
  }

  /** The start of the kernel: the first thread is made, readied and takes the processor. */
  method Boot() returns (box: ThreadBox)
    ensures fresh(box) && fresh(box.threads) && Alive(box) && box.chains[Ready] == [box.running] && box.running.clock == 10
  {
    hide ThreadBox.Shape, ThreadBox.Moved;
    box := new ThreadBox();
    var t := new KThread();
    FirstThread(box, t);
    MovedIn(box.chains, t, Init, Paused);
    box.SetThreadState(t, Paused);
    FirstMoves(box, t);
  }

  /** A thread on no chain is the first in the box. */
  ghost method FirstThread(box: ThreadBox, t: KThread)
    requires box.Valid() && box.threads == {} && t.state == Init
    modifies box`threads
    ensures box.Valid() && box.threads == {t} && Init !in box.chains && Paused in box.chains
  {
    box.threads := {t};
  }

  /** The first thread is readied and takes the processor. */
  method FirstMoves(box: ThreadBox, t: KThread)
    requires box.Valid() && box.threads == {t} && t.state == Paused && !t.isInterrupted && box.next == null
    requires Paused in box.chains && Ready in box.chains && box.chains[Paused] == [t] && box.chains[Ready] == []
    modifies box`heads, box`chains, box`running, t
    ensures Alive(box) && box.chains[Ready] == [t] && box.running == t && t.clock == 10 && box.threads == {t}
  {
    hide ThreadBox.Shape, ThreadBox.Moved;
    t.clock := 10;
    box.ClocksFrame();
    FirstReady(box.chains, t);
    box.SetThreadState(t, Ready);
    label Readied:
    box.running := t;
    box.ClocksFrame@Readied();
    StillRunning(box);
  }

  lemma FirstReady(c: map<ThreadState, seq<KThread>>, t: KThread)
    requires Paused in c && Ready in c && c[Ready] == []
    ensures Ready in ThreadBox.Moved(c, t, Paused, Ready) && ThreadBox.Moved(c, t, Paused, Ready)[Ready] == [t]
  {
    assert [t] + [] == [t];
  }

  /** The kernel's first thread, having started the others, becomes the idle thread. */
  method BecomeIdle(box: ThreadBox)
    requires Alive(box)
    modifies box`heads, box`chains, box.threads`next, box.threads`prev, box.running`state
    ensures Alive(box) && box.running == old(box.running) && Entered((box, box.running, Idle))
  {
    hide ThreadBox.Shape, ThreadBox.Moved;
    box.SetThreadState(box.running, Idle);
    StillRunning(box);
  }

  ghost predicate WellFormed(box: ThreadBox, c: Call<KThread>)
    reads box
  {
    (Refers(c) ==> c.t in box.threads) && (c.SleepCall? ==> 0 <= c.ms <= INFINITE)
  }

  /** `w` lists the threads of `s`, and all but `t` have the clock that it says. */
  ghost predicate Listed(w: seq<Entry<KThread>>, s: seq<KThread>, t: KThread)
    reads s
  {
    |w| == |s| && forall i :: 0 <= i < |s| ==> w[i].thread == s[i] && (s[i] != t ==> w[i].clock == s[i].clock)
  }

  lemma ListedStays(w: seq<Entry<KThread>>, s: seq<KThread>, t: KThread)
    requires Listed(w, s, t) && Waits(w, t) && OneEach(w)
    ensures EntriesOf(s) == Slept(w, t, t.clock)
  {
    var j := PlaceOf(w, t);
    assert forall i :: 0 <= i < |s| && s[i] == t ==> i == j;
  }

  lemma ListedEnters(w: seq<Entry<KThread>>, s: seq<KThread>, t: KThread)
    requires Listed(w, s, t) && !Waits(w, t)
    ensures EntriesOf([t] + s) == Slept(w, t, t.clock) && EntriesOf(s) == Dropped(w, t) == w
  {
    assert forall i :: 0 <= i < |s| ==> s[i] != t;
  }

  lemma ListedLeaves(w: seq<Entry<KThread>>, s: seq<KThread>, t: KThread)
    requires Listed(w, s, t) && Waits(w, t) && OneEach(w) && Distinct(s)
    ensures EntriesOf(Drop(s, t)) == Dropped(w, t)
  {
    hide Drop;
    var j := PlaceOf(w, t);
    DropAt(s, j);
    assert forall i :: 0 <= i < |s| && s[i] == t ==> i == j;
  }

  /** The waiting list once `t` has entered its new state. */
  twostate lemma WaitEntered(p: (ThreadBox, KThread, ThreadState))
    requires old(Placed(p.0)) && p.0.Valid() && p.1 in old(p.0.threads) && Entered(p) && ClocksKept((p.0, p.1))
    requires forall x :: x in old(p.0.threads) && x != p.1 ==> x.state == old(x.state)
    requires Wait in p.0.chains && (old(p.1.state) != p.2 ==> p.2 in old(p.0.chains))
    ensures p.0.WaitList() == if p.2 == Wait then Slept(old(p.0.WaitList()), p.1, p.1.clock) else Dropped(old(p.0.WaitList()), p.1)
  {
    hide ThreadBox.Shape, Drop, Slept, Dropped, Waits, OneEach;
    var (box, t, st) := p;
    var s, w := old(box.chains)[Wait], old(box.WaitList());
    WaitersListed(p);
    if old(t.state) != Wait {
      ListedEnters(w, s, t);
    } else if st == Wait {
      ListedStays(w, s, t);
    } else {
      OldDistinct(box);
      ListedLeaves(w, s, t);
    }
  }

  twostate lemma WaitersListed(p: (ThreadBox, KThread, ThreadState))
    requires old(Placed(p.0)) && p.0.Valid() && p.1 in old(p.0.threads) && Entered(p) && ClocksKept((p.0, p.1))
    requires forall x :: x in old(p.0.threads) && x != p.1 ==> x.state == old(x.state)
    ensures Listed(old(p.0.WaitList()), old(p.0.chains)[Wait], p.1)
  {
    hide ThreadBox.Shape, Drop;
    var (box, t, st) := p;
    var s := old(box.chains)[Wait];
    forall i | 0 <= i < |s| && s[i] != t
      ensures s[i].clock == old(s[i].clock)
    {
      StillWaits((box, s[i]));
    }
  }

  twostate lemma StillWaits(p: (ThreadBox, KThread))
    requires old(p.0.Valid()) && Wait in old(p.0.chains) && p.1 in old(p.0.chains)[Wait]
    ensures p.1 in old(p.0.threads) && old(p.1.state) == Wait
  {
  }

  twostate lemma OldDistinct(box: ThreadBox)
    requires old(box.Valid()) && Wait in old(box.chains)
    ensures Distinct(old(box.chains)[Wait])
  {
  }

  lemma KeysOf(box: ThreadBox)
    requires Alive(box)
    ensures forall st :: st in box.chains <==> HasChain(st)
  {
  }

  /** One call or tick, and what it does to the waiting list. Everybody waits on whom it is not about and whose time
      is not up. The kernel halts when nobody is left to run. */
  method Do(box: ThreadBox, c: Call<KThread>) returns (halted: bool, made: KThread?)
    requires Alive(box) && WellFormed(box, c)
    modifies box, box.threads
    ensures Running(box) && (!halted ==> Alive(box)) && (halted <==> box.chains[Ready] == [] && box.chains[Idle] == [])
    ensures halted ==> (c.SuspendCall? || c.SleepCall?) && c.t == old(box.running) == box.running
    ensures if c.CreateCall? then made != null && fresh(made) && box.threads == old(box.threads) + {made}
      else made == null && box.threads == old(box.threads)
    ensures Wait in box.chains && box.WaitList() == AfterCall(old(box.WaitList()), c) && (c.ClockTick? ==> Ticked(box))
    ensures forall x :: x in old(box.threads) && !Names(c, x) && !(c.ClockTick? && old(x.state) == Wait) ==> x.state == old(x.state)
  {
    hide ThreadBox.Shape, ThreadBox.Moved, Choice, Tick, Reversed, Dropped, Slept, Placed;
    halted, made := false, null;
    ValidPlaced(box);
    KeysOf(box);
    match c {
      case CreateCall =>
        made := Create(box);
      case ResumeCall(t) =>
        Resume(box, t);
        WaitEntered((box, t, Ready));
      case SuspendCall(t) =>
        halted := Suspend(box, t);
        WaitEntered((box, t, Paused));
      case SleepCall(t, ms) =>
        halted := Sleep(box, t, ms);
        WaitEntered((box, t, if ms == INFINITE then ThreadState.Sleep else Wait));
      case WakeupCall(t) =>
        var ok := Wakeup(box, t);
        WaitEntered((box, t, t.state));
      case ClockTick(canSchedule) =>
        ClockInterrupt(box, canSchedule);
    }
    if !halted { SomebodyRuns(box); }
  }

  // ----- runs -----

  /** Threads that are made in the calls. */
  function Creates<T>(calls: seq<Call<T>>): nat {
    if calls == [] then 0 else Creates(calls[..|calls| - 1]) + if calls[|calls| - 1].CreateCall? then 1 else 0
  }

  /** The calls name threads by number: the `n` that are given, then those made in the run, as they are made. */
  ghost predicate Numbered(calls: seq<Call<nat>>, n: nat) {
    forall k :: 0 <= k < |calls| && Refers(calls[k]) ==> calls[k].t < n + Creates(calls[..k])
  }

  /** A call with the thread for its number. */
  function Meant(c: Call<nat>, who: seq<KThread>): (m: Call<KThread>)
    requires Refers(c) ==> c.t < |who|
    ensures m.CreateCall? == c.CreateCall? && m.ClockTick? == c.ClockTick? && m.SleepCall? == c.SleepCall?
    ensures m.SleepCall? ==> m.ms == c.ms
    ensures Refers(m) ==> m.t in who
  {
    match c
    case CreateCall => CreateCall
    case ResumeCall(t) => ResumeCall(who[t])
    case SuspendCall(t) => SuspendCall(who[t])
    case SleepCall(t, ms) => SleepCall(who[t], ms)
    case WakeupCall(t) => WakeupCall(who[t])
    case ClockTick(canSchedule) => ClockTick(canSchedule)
  }

  ghost predicate AllMeant(calls: seq<Call<nat>>, who: seq<KThread>, steps: seq<Call<KThread>>) {
    |steps| <= |calls| && forall k :: 0 <= k < |steps| ==>
      (Refers(calls[k]) ==> calls[k].t < |who|) && steps[k] == Meant(calls[k], who)
  }

  /** What is known of the numbers after `steps`: who they stand for. */
  ghost predicate Known(given: seq<KThread>, calls: seq<Call<nat>>, who: seq<KThread>, steps: seq<Call<KThread>>) {
    AllMeant(calls, who, steps) && given <= who && |who| == |given| + Creates(calls[..|steps|])
  }

  lemma KnownNow(given: seq<KThread>, calls: seq<Call<nat>>, who: seq<KThread>, steps: seq<Call<KThread>>)
    requires Known(given, calls, who, steps) && |steps| < |calls| && Numbered(calls, |given|)
    ensures Refers(calls[|steps|]) ==> calls[|steps|].t < |who|
  {
  }

  lemma KnownNext(given: seq<KThread>, calls: seq<Call<nat>>, who: seq<KThread>, steps: seq<Call<KThread>>, more: seq<KThread>)
    requires Known(given, calls, who, steps) && |steps| < |calls| && (Refers(calls[|steps|]) ==> calls[|steps|].t < |who|)
    requires |more| == if calls[|steps|].CreateCall? then 1 else 0
    ensures Known(given, calls, who + more, steps + [Meant(calls[|steps|], who)])
  {
    var k := |steps|;
    assert calls[..k + 1][..k] == calls[..k];
    assert Creates(calls[..k + 1]) == Creates(calls[..k]) + |more|;
    forall j | 0 <= j <= k
      ensures (Refers(calls[j]) ==> calls[j].t < |who|) && (steps + [Meant(calls[k], who)])[j] == Meant(calls[j], who + more)
    {
    }
  }

  lemma OneMore(w: seq<Entry<KThread>>, steps: seq<Call<KThread>>, c: Call<KThread>)
    requires InRange(steps) && (c.SleepCall? ==> 0 <= c.ms <= INFINITE)
    ensures InRange(steps + [c]) && WaitsAfter(w, steps + [c]) == AfterCall(WaitsAfter(w, steps), c)
    ensures forall x :: NamedIn(steps + [c], x) <==> NamedIn(steps, x) || Names(c, x)
  {
    assert (steps + [c])[..|steps|] == steps;
    forall x: KThread | true
      ensures NamedIn(steps + [c], x) <==> NamedIn(steps, x) || Names(c, x)
    {
      assert c in steps + [c];
    }
  }

  lemma MeantFits(box: ThreadBox, c: Call<nat>, who: seq<KThread>)
    requires (Refers(c) ==> c.t < |who|) && (forall t :: t in who ==> t in box.threads) && (c.SleepCall? ==> 0 <= c.ms <= INFINITE)
    ensures WellFormed(box, Meant(c, who))
  {
  }

  lemma StartRun(box: ThreadBox, given: seq<KThread>, calls: seq<Call<nat>>)
    requires Alive(box)
    ensures Running(box) && Placed(box) && Wait in box.chains && Known(given, calls, given, [])
    ensures WaitsAfter(box.WaitList(), []) == box.WaitList() && OneEach(box.WaitList())
    ensures forall x :: x in box.threads && x.state == Wait ==>
      Waits(box.WaitList(), x) && box.WaitList()[PlaceOf(box.WaitList(), x)] == Entry(x, x.clock)
  {
    ValidPlaced(box);
  }

  /** Readied exactly when `n` counted ticks have used up the clock that was asked for. */
  ghost predicate Fate(x: KThread, clock: int, n: nat)
    reads x
  {
    x.state == (if n < TicksOf(clock) then Wait else Ready) && (x.state == Wait ==> x.clock == clock - MS * n)
  }

  lemma FateOf(box: ThreadBox, x: KThread, w: seq<Entry<KThread>>, steps: seq<Call<KThread>>)
    requires Placed(box) && x in box.threads && x.state in {Wait, Ready}
    requires OneEach(w) && Waits(w, x) && InRange(steps) && !NamedIn(steps, x) && box.WaitList() == WaitsAfter(w, steps)
    ensures Fate(x, w[PlaceOf(w, x)].clock, Visits(w, steps, x))
  {
    hide ThreadBox.Valid, WaitsAfter, Visits, NamedIn;
    WaitLaw(w, steps, x);
  }

  /** A tick leaves nobody who waited elsewhere than waiting or ready. */
  twostate lemma TickedStates(box: ThreadBox)
    requires Ticked(box)
    ensures forall x :: x in old(box.threads) && x in box.threads && old(x.state) == Wait ==> x.state in {Wait, Ready}
  {
  }

  /** Whatever calls and ticks follow one another, threads made on the way included, in every state on the way each
      thread is on the one chain of its state, the chains are well linked, and a thread that may run is running. The
      waiting list is the one that the calls lead to. A waiting thread that no call is about is readied exactly when
      as many ticks have not passed it over as its clock stands for. The run ends early only when the running thread
      gives up the processor and nobody is left. */
  method Run(box: ThreadBox, given: seq<KThread>, calls: seq<Call<nat>>)
    returns (halted: bool, who: seq<KThread>, ghost steps: seq<Call<KThread>>)
    requires Alive(box) && (forall t :: t in given ==> t in box.threads) && Numbered(calls, |given|) && InRange(calls)
    modifies box, box.threads
    ensures Running(box) && (!halted ==> Alive(box) && |steps| == |calls|)
    ensures halted ==> steps != [] && var c := steps[|steps| - 1]; (c.SuspendCall? || c.SleepCall?) && c.t == box.running
    ensures halted <==> box.chains[Ready] == [] && box.chains[Idle] == []
    ensures Known(given, calls, who, steps)
    ensures InRange(steps) && box.WaitList() == WaitsAfter(old(box.WaitList()), steps)
    ensures forall x :: x in old(box.threads) && old(x.state) == Wait && !NamedIn(steps, x) ==>
      x in box.threads && Fate(x, old(x.clock), Visits(old(box.WaitList()), steps, x))
    ensures forall x :: x in old(box.threads) && old(x.state) != Wait && !NamedIn(steps, x) ==> x.state == old(x.state)
  {
    hide Alive, Running, Placed, NamedIn, Names, Meant, Known, Numbered, WaitsAfter, Visits, AfterCall, Ticked, Fate, OneEach;
    halted, who, steps := false, given, [];
    StartRun(box, given, calls);
    ghost var w := box.WaitList();
    var k := 0;
    while k < |calls|
      invariant k == |steps| <= |calls| && Alive(box) && Running(box) && Wait in box.chains && !halted
      invariant box.threads >= old(box.threads) && fresh(box.threads - old(box.threads))
      invariant Known(given, calls, who, steps) && forall t :: t in who ==> t in box.threads
      invariant InRange(steps) && box.WaitList() == WaitsAfter(w, steps)
      invariant forall x :: x in old(box.threads) && old(x.state) == Wait && !NamedIn(steps, x) ==> x.state in {Wait, Ready}
      invariant forall x :: x in old(box.threads) && old(x.state) != Wait && !NamedIn(steps, x) ==> x.state == old(x.state)
    {
      KnownNow(given, calls, who, steps);
      ghost var c := Meant(calls[|steps|], who);
      OneMore(w, steps, c);
      var made;
      label Before:
      MeantFits(box, calls[|steps|], who);
      halted, made := Do(box, Meant(calls[k], who));
      if c.ClockTick? { TickedStates@Before(box); }
      var more: seq<KThread> := if made == null then [] else [made];
      KnownNext(given, calls, who, steps, more);
      who := who + more;
      steps, k := steps + [c], k + 1;
      if halted { break; }
    }
    if !halted { SomebodyRuns(box); }
    ValidPlaced(box);
    forall x | x in old(box.threads) && old(x.state) == Wait && !NamedIn(steps, x)
      ensures Fate(x, old(x.clock), Visits(w, steps, x))
    {
      assert Waits(w, x) && w[PlaceOf(w, x)].clock == old(x.clock);
      FateOf(box, x, w, steps);
    }
  }

  /** What the tick after a sleep does to the sleeper. */
  lemma SleptFires(w: seq<Entry<KThread>>, t: KThread, clock: int)
    ensures var v := Slept(w, t, clock);
      Waits(v, t) && (Fires(v, PlaceOf(v, t)) <==> clock <= MS && !Passed(w, t))
  {
    var v, j := Slept(w, t, clock), PlaceOf(w, t);
    if Waits(w, t) {
      SamePlace(w, v, t);
    } else {
      assert v[0].thread == t;
    }
  }

  lemma {:induction false} SamePlace(w: seq<Entry<KThread>>, v: seq<Entry<KThread>>, t: KThread)
    requires |v| == |w| && forall i :: 0 <= i < |w| ==> v[i].thread == w[i].thread
    ensures PlaceOf(v, t) == PlaceOf(w, t)
  {
    if w != [] { SamePlace(w[1..], v[1..], t); }
  }

  /** The clock field is signed: a sleep of 2^31 milliseconds or more ends with the first tick that does not pass
      the thread over, like one of at most a tick; every other one lasts longer. The first tick passes over only a
      thread that waited already, as the second one, behind one that expires. */
  method SleepOneTick(box: ThreadBox, t: KThread, ms: int, canSchedule: int) returns (halted: bool)
    requires Alive(box) && t in box.threads && 0 <= ms < INFINITE
    modifies box, box.threads
    ensures !halted ==> Alive(box) && t.state in {Ready, Wait}
    ensures !halted ==> (t.state == Ready <==> (ms <= MS || 0x8000_0000 <= ms) && !Passed(old(box.WaitList()), t))
  {
    hide ThreadBox.Shape, ThreadBox.Moved, Choice, Tick, Reversed, Slept, Passed, Fires;
    ghost var w := box.WaitList();
    ValidPlaced(box);
    var made;
    halted, made := Do(box, SleepCall(t, ms));
    if halted {
      return;
    }
    label Slept:
    SleptFires(w, t, AsSigned(ms));
    ValidPlaced(box);
    ClockInterrupt(box, canSchedule);
    assert Ticked@Slept(box);
  }

  /** A round that starves `x`, the only waiting thread: `h` goes to sleep for a millisecond, and the tick readies `h`
      and passes `x` over, whatever its clock. */
  method StarveOnce(box: ThreadBox, x: KThread, h: KThread, canSchedule: int) returns (halted: bool)
    requires Alive(box) && h in box.threads && h != x && Wait in box.chains && box.chains[Wait] == [x]
    modifies box, box.threads
    ensures !halted ==> Alive(box) && Wait in box.chains && box.chains[Wait] == [x] && x.clock == old(x.clock)
    ensures !halted ==> h.state == Ready
  {
    hide ThreadBox.Shape, ThreadBox.Moved, Choice, Tick, Reversed, AfterCall;
    ghost var w := box.WaitList();
    assert w == [Entry(x, x.clock)];
    StarvingRound(x, x.clock, h, canSchedule);
    var made;
    halted, made := Do(box, SleepCall(h, 1));
    if halted {
      return;
    }
    label Slept:
    ValidPlaced(box);
    assert box.WaitList() == [Entry(h, 1), Entry(x, old(x.clock))];
    halted, made := Do(box, ClockTick(canSchedule));
    assert box.WaitList() == w && w[0] == Entry(x, old(x.clock));
    assert box.WaitList()[0] == Entry(box.chains[Wait][0], box.chains[Wait][0].clock);
  }

  /** TmSleepThread and what it does to the waiting list. */
  method FallAsleep(box: ThreadBox, t: KThread, ms: int) returns (halted: bool)
    requires Alive(box) && t in box.threads && 0 <= ms <= 0xffff_ffff
    modifies box, box.threads
    ensures Running(box) && (!halted ==> Alive(box)) && box.threads == old(box.threads)
    ensures Wait in old(box.chains) && Wait in box.chains && box.WaitList() == AfterCall(old(box.WaitList()), SleepCall(t, ms))
    ensures t.state == if ms == 0xffff_ffff then ThreadState.Sleep else Wait
    ensures ms < 0x8000_0000 ==> t.clock == ms
    ensures 0x8000_0000 <= ms < 0xffff_ffff ==> t.clock < 0
  {
    hide ThreadBox.Shape, Slept, Dropped, Placed, ClocksKept, Entered;
    ValidPlaced(box);
    KeysOf(box);
    halted := Sleep(box, t, ms);
    WaitEntered((box, t, if ms == INFINITE then ThreadState.Sleep else Wait));
  }

  lemma TicksInMs(clock: int, n: nat)
    ensures n < TicksOf(clock) <==> n < if clock <= 5 then 1 else (clock + 4) / 5
    ensures 5 * n < clock ==> n < TicksOf(clock)
  {
  }

  /** How long a sleep lasts, through any run that follows in which no call is about the thread. `w` is the waiting
      list that it begins with, `n` the ticks that have not passed the thread over. It waits while less time than was
      asked for has passed, and is ready once `n` ticks fill that time, a part of one counted full, and at least one.
      A time of 2^31 milliseconds or more is over with the first of them, and 2^32 - 1 stands for ever. */
  method SleepFor(box: ThreadBox, t: KThread, ms: int, given: seq<KThread>, calls: seq<Call<nat>>)
    returns (halted: bool, who: seq<KThread>, ghost w: seq<Entry<KThread>>, ghost steps: seq<Call<KThread>>, ghost n: nat)
    requires Alive(box) && t in box.threads && 0 <= ms <= 0xffff_ffff
    requires (forall u :: u in given ==> u in box.threads) && Numbered(calls, |given|) && InRange(calls)
    modifies box, box.threads
    ensures InRange(steps) && n == Visits(w, steps, t) <= TickCount(steps) && AllMeant(calls, who, steps)
    ensures Wait in old(box.chains) && w == AfterCall(old(box.WaitList()), SleepCall(t, ms))
    ensures !halted ==> Alive(box) && |steps| == |calls|
    ensures !NamedIn(steps, t) && ms < 0x8000_0000 ==>
      && t.state == (if n < (if ms <= 5 then 1 else (ms + 4) / 5) then Wait else Ready)
      && (t.state == Wait ==> t.clock == ms - 5 * n) && (5 * TickCount(steps) < ms ==> t.state == Wait)
    ensures !NamedIn(steps, t) && 0x8000_0000 <= ms < 0xffff_ffff ==> t.state == if n == 0 then Wait else Ready
    ensures !NamedIn(steps, t) && ms == 0xffff_ffff ==> t.state == ThreadState.Sleep
  {
    hide Alive, NamedIn, Meant, Numbered, WaitsAfter, AfterCall, Names, TicksOf;
    halted := FallAsleep(box, t, ms);
    w, who, steps := box.WaitList(), given, [];
    ghost var clock := t.clock;
    TicksInMs(clock, 0);
    if !halted {
      halted, who, steps := Run(box, given, calls);
    }
    n := Visits(w, steps, t);
    VisitsTick(w, steps, t);
    TicksInMs(clock, n);
  }

  lemma {:induction false} InReversed(s: seq<KThread>, t: KThread) returns (i: nat)
    requires t in s
    ensures i < |Reversed(s)| && Reversed(s)[i] == t
  {
    if t in s[1..] {
      i := InReversed(s[1..], t);
    } else {
      i := |Reversed(s[1..])|;
    }
  }
}
