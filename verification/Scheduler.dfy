/** The scheduler's thread chains: one doubly linked chain per thread state, edited in place by state
    changes, by the timer and read by the choice of the next thread. */
module Scheduler {
  import opened Lists
  import opened SchedulerSpec

  datatype ThreadState = Init | Ready | Running | Paused | Sleep | Wait | Dead | Idle

  class KThread {
    var state: ThreadState
    var clock: int
    var prev: KThread?
    var next: KThread?
    var isInterrupted: bool

    constructor ()
      ensures state == Init && clock == 0 && prev == null && next == null && !isInterrupted
    {
      state, clock, prev, next, isInterrupted := Init, 0, null, null, false;
    }
  }

  /** Is there a chain for this state? Running is never used and Init has none. */
  predicate HasChain(st: ThreadState) { st != Init && st != Running }

  ghost function At(s: seq<KThread>, i: int): KThread? { if 0 <= i < |s| then s[i] else null }

  ghost predicate Linked(s: seq<KThread>)
    reads s
  {
    && Distinct(s)
    && (forall i {:trigger s[i].next} :: 0 <= i < |s| ==> s[i].next == At(s, i + 1))
    && (forall i {:trigger s[i].prev} :: 0 <= i < |s| ==> s[i].prev == At(s, i - 1))
  }

  /** `s` without its first `t`. */
  ghost function Drop(s: seq<KThread>, t: KThread): seq<KThread> {
    if s == [] then [] else if s[0] == t then s[1..] else [s[0]] + Drop(s[1..], t)
  }

  lemma {:induction false} DropAt(s: seq<KThread>, j: nat)
    requires j < |s| && Distinct(s)
    ensures Drop(s, s[j]) == Without(s, j)
  {
    if j > 0 {
      assert s[0] != s[j];
      DropAt(s[1..], j - 1);
      assert Without(s, j) == [s[0]] + Without(s[1..], j - 1);
    }
  }

  twostate lemma LinkedFrame(s: seq<KThread>)
    requires old(Linked(s))
    requires forall x :: x in s ==> x.next == old(x.next) && x.prev == old(x.prev)
    ensures Linked(s)
  {
    assert forall i :: 0 <= i < |s| ==> s[i] in s;
  }

  /** The links after entry `j` of `s` has been joined over. */
  twostate predicate JoinedOver(p: (seq<KThread>, nat))
    requires p.1 < |p.0|
    reads p.0
  {
    && (forall k {:trigger p.0[k].next} :: 0 <= k < |p.0| ==>
          p.0[k].next == if k == p.1 - 1 then At(p.0, p.1 + 1) else old(p.0[k].next))
    && (forall k {:trigger p.0[k].prev} :: 0 <= k < |p.0| ==>
          p.0[k].prev == if k == p.1 + 1 then At(p.0, p.1 - 1) else old(p.0[k].prev))
  }

  twostate lemma JoinedLinks(p: (seq<KThread>, nat))
    requires p.1 < |p.0| && old(Linked(p.0)) && JoinedOver(p)
    ensures Linked(Without(p.0, p.1))
  {
    var r := Without(p.0, p.1);
    forall k | 0 <= k < |r|
      ensures r[k].next == At(r, k + 1)
    {
      assert r[k] == p.0[if k < p.1 then k else k + 1];
    }
    forall k | 0 <= k < |r|
      ensures r[k].prev == At(r, k - 1)
    {
      assert r[k] == p.0[if k < p.1 then k else k + 1];
    }
  }

  method Unhook(t: KThread, ghost s: seq<KThread>, ghost j: nat)
    requires Linked(s) && j < |s| && s[j] == t
    modifies Elems(s)`next, Elems(s)`prev
    ensures Linked(Without(s, j)) && t.next == old(t.next) && t.prev == old(t.prev)
  {
    hide Without;
    assert t.prev == At(s, j - 1) && t.next == At(s, j + 1);
    if t.next != null { t.next.prev := t.prev; }
    if t.prev != null { t.prev.next := t.next; }
    JoinedLinks((s, j));
  }

  method HookFirst(t: KThread, first: KThread?, ghost s: seq<KThread>)
    requires Linked(s) && t !in s && first == At(s, 0)
    modifies t`next, t`prev, Elems(s)`prev
    ensures Linked([t] + s)
  {
    t.prev := null;
    t.next := first;
    if first != null { first.prev := t; }
  }

  ghost function EntriesOf(s: seq<KThread>): (r: seq<Entry<KThread>>)
    reads s
    ensures |r| == |s|
    ensures forall i :: 0 <= i < |s| ==> r[i] == Entry(s[i], s[i].clock)
  {
    seq(|s|, i requires 0 <= i < |s| reads s => Entry(s[i], s[i].clock))
  }

  twostate lemma EntriesFrame(s: seq<KThread>)
    requires forall x :: x in s ==> x.clock == old(x.clock)
    ensures EntriesOf(s) == old(EntriesOf(s))
  {
    assert forall i :: 0 <= i < |s| ==> s[i] in s;
  }

  lemma BeforeRemoved(s: seq<KThread>, i: nat)
    requires i < |s|
    ensures |Without(s, i)| == |s| - 1 && (i > 0 ==> Without(s, i)[i - 1] == s[i - 1])
  {
  }

  lemma EntriesWithout(s: seq<KThread>, i: nat)
    requires i < |s|
    ensures EntriesOf(Without(s, i)) == Without(EntriesOf(s), i)
  {
  }

  /** Only entry `p.1`'s clock was lowered. */
  twostate lemma EntriesLower(p: (seq<KThread>, nat))
    requires p.1 < |p.0| && p.0[p.1].clock == old(p.0[p.1].clock) - MS
    requires forall k :: 0 <= k < |p.0| && k != p.1 ==> p.0[k].clock == old(p.0[k].clock)
    ensures EntriesOf(p.0) == LowerAt(old(EntriesOf(p.0)), p.1)
  {
  }

  ghost function Reversed<T>(s: seq<T>): seq<T> {
    if s == [] then [] else Reversed(s[1..]) + [s[0]]
  }

  /** Who has been readied last comes first. */
  lemma {:induction false} ReversedAt<T>(s: seq<T>)
    ensures |Reversed(s)| == |s| && forall i :: 0 <= i < |s| ==> Reversed(s)[i] == s[|s| - 1 - i]
  {
    if s != [] { ReversedAt(s[1..]); }
  }

  lemma {:induction false} ReversedAppend<T>(s: seq<T>, x: T)
    ensures Reversed(s + [x]) == [x] + Reversed(s)
  {
    if s == [] {
      assert s + [x] == [x] && [x][1..] == [];
    } else {
      assert (s + [x])[1..] == s[1..] + [x];
      ReversedAppend(s[1..], x);
    }
  }

  lemma ReversedNone(rest: seq<KThread>)
    ensures Reversed([]) + rest == rest
  {
    assert Reversed<KThread>([]) == [];
  }

  lemma ReversedMore(s: seq<KThread>, x: KThread, rest: seq<KThread>)
    ensures Reversed(s + [x]) + rest == [x] + (Reversed(s) + rest)
    ensures [] + (Reversed(s) + rest) == Reversed(s) + rest
    ensures s + [x] != s
  {
    ReversedAppend(s, x);
    assert |s + [x]| == |s| + 1;
  }

  class ThreadBox {
    var running: KThread?
    var next: KThread?
    var heads: map<ThreadState, KThread?>   // ready, sleep, paused, dead, wait, idle
    ghost var threads: set<KThread>
    ghost var chains: map<ThreadState, seq<KThread>>

    constructor ()
      ensures Valid() && threads == {} && running == null && next == null
      ensures forall st :: (st in chains <==> HasChain(st)) && (st in chains ==> chains[st] == [])
    {
      running, next, threads := null, null, {};
      heads := map[Ready := null, Paused := null, Sleep := null, Wait := null, Dead := null, Idle := null];
      chains := map st: ThreadState | HasChain(st) :: [];
    }

    ghost predicate Inside()
      reads this
    {
      && (forall st :: st in heads <==> HasChain(st)) && (forall st :: st in chains <==> HasChain(st))
      && (forall st, t :: st in chains && t in chains[st] ==> t in threads)
    }

    /** A thread past Init is on the chain of its state and on no other; `loose` ones are on none. */
    ghost predicate Sorted(loose: set<KThread>)
      requires Inside()
      reads this, threads
    {
      && (forall st, t :: st in chains && t in chains[st] ==> t !in loose && t.state == st)
      && (forall t :: t in threads && t !in loose && HasChain(t.state) ==> t in chains[t.state])
      && (forall t :: t in threads && t !in loose ==> t.state != Running)
    }

    ghost predicate ChainsLinked()
      requires Inside()
      reads this, threads
    {
      forall st :: st in chains ==> Linked(chains[st]) && heads[st] == At(chains[st], 0)
    }

    ghost predicate Shape(loose: set<KThread>)
      reads this, threads
    {
      Inside() && Sorted(loose) && ChainsLinked()
    }

    ghost predicate Valid()
      reads this, threads
    {
      Shape({})
    }

    /** GetThreadChain: where threads of a state are kept. For the unused running state that is the running
        pointer, which is no chain. */
    function GetThreadChain(st: ThreadState): set<ThreadState> {
      match st
      case Init => {}
      case Running => {Running}
      case Ready => {Ready}
      case Paused => {Paused}
      case Sleep => {Sleep}
      case Wait => {Wait}
      case Dead => {Dead}
      case Idle => {Idle}
    }

    /** The chain that GetThreadChain gives for a thread's state is the one chain that holds the thread. */
    lemma OnOwnChain(t: KThread)
      requires Valid() && t in threads
      ensures forall st :: st in chains ==> (t in chains[st] <==> st in GetThreadChain(t.state))
    {
      hide Linked;
    }

    twostate predicate OnlyChain(st: ThreadState)
      requires old(Inside()) && Inside()
      reads this, threads
    {
      && threads == old(threads) && st in chains
      && st in old(chains) && chains == old(chains)[st := chains[st]] && heads == old(heads)[st := heads[st]]
      && OthersKept(st)
    }

    /** The links on every chain but that of `st` are as they were. */
    twostate predicate OthersKept(st: ThreadState)
      reads this, threads
      requires old(Inside()) && threads == old(threads)
    {
      forall s, t :: s in old(chains) && s != st && t in old(chains)[s] ==> t.next == old(t.next) && t.prev == old(t.prev)
    }

    twostate lemma LinkedElsewhere(st: ThreadState)
      requires old(Inside()) && Inside() && old(ChainsLinked()) && OnlyChain(st)
      requires Linked(chains[st]) && heads[st] == At(chains[st], 0)
      ensures ChainsLinked()
    {
      hide Linked, HasChain;
      forall s | s in chains
        ensures Linked(chains[s]) && heads[s] == At(chains[s], 0)
      {
        if s != st {
          assert s in old(chains) && chains[s] == old(chains)[s] && heads[s] == old(heads)[s];
          LinkedFrame(chains[s]);
        }
      }
    }

    lemma Located(t: KThread) returns (j: nat)
      requires Shape({}) && t in threads && HasChain(t.state)
      ensures j < |chains[t.state]| && chains[t.state][j] == t
    {
      j :| 0 <= j < |chains[t.state]| && chains[t.state][j] == t;
    }

    lemma ChainsDisjoint(loose: set<KThread>)
      requires Inside() && Sorted(loose)
      ensures forall st, s, t :: st in chains && s in chains && t in chains[st] && t in chains[s] ==> s == st
      ensures forall st, t :: st in chains && t in chains[st] ==> t !in loose
    {
      forall st, s, t | st in chains && s in chains && t in chains[st] && t in chains[s]
        ensures s == st
      {
        assert t.state == s;
      }
    }

    twostate lemma SortedLeave(t: KThread)
      requires old(Shape({})) && Inside() && threads == old(threads) && t in old(threads)
      requires forall x :: x in threads ==> x.state == old(x.state)
      requires forall st, x :: st in chains ==> (x in chains[st] <==> x in old(chains)[st] && x != t)
      ensures Sorted({t})
    {
    }

    /** The first half of TmSetThreadState: off the chain of the old state. */
    method Leave(t: KThread, ghost j: nat)
      requires Shape({}) && t in threads && HasChain(t.state)
      requires j < |chains[t.state]| && chains[t.state][j] == t
      modifies this`heads, this`chains, threads`next, threads`prev
      ensures Shape({t}) && chains == old(chains)[t.state := Without(old(chains)[t.state], j)]
    {
      var st := t.state;
      ChainsDisjoint({});
      ChainDistinct(st);
      WithoutElems(chains[st], j);
      hide Linked, Sorted, Without, HasChain, ChainsLinked;
      LeaveChain(t, st, j);
      SortedLeave(t);
    }

    method LeaveChain(t: KThread, st: ThreadState, ghost j: nat)
      requires Inside() && ChainsLinked() && st in chains && j < |chains[st]| && chains[st][j] == t
      requires forall s, x :: s in chains && s != st && x in chains[s] ==> x !in chains[st]
      modifies this`heads, this`chains, threads`next, threads`prev
      ensures Inside() && ChainsLinked() && chains == old(chains)[st := Without(old(chains)[st], j)]
    {
      hide Linked, Without, HasChain, ChainsLinked;
      SubChain(chains[st], j);
      LinkedAt(st);
      LeaveLinks(t, st, j);
      chains := chains[st := Without(chains[st], j)];
      LinkedElsewhere(st);
    }

    lemma LinkedAt(st: ThreadState)
      requires Inside() && ChainsLinked() && st in chains
      ensures st in heads && Linked(chains[st]) && heads[st] == At(chains[st], 0)
    {
    }

    lemma SubChain(s: seq<KThread>, j: nat)
      requires j < |s|
      ensures forall x :: x in Without(s, j) ==> x in s
    {
    }

    lemma ChainDistinct(st: ThreadState)
      requires Inside() && ChainsLinked() && st in chains
      ensures Distinct(chains[st])
    {
    }

    method LeaveLinks(t: KThread, st: ThreadState, ghost j: nat)
      requires Inside() && st in chains && j < |chains[st]| && chains[st][j] == t
      requires ChainsLinked()
      requires forall s, x :: s in chains && s != st && x in chains[s] ==> x !in chains[st]
      modifies this`heads, threads`next, threads`prev
      ensures OthersKept(st) && Inside() && Linked(Without(chains[st], j)) && heads.Keys == old(heads).Keys
      ensures st in heads && heads[st] == At(Without(chains[st], j), 0)
      ensures heads == old(heads)[st := heads[st]]
    {
      hide Linked, HasChain, ChainsLinked, Without;
      LinkedAt(st);
      EndsAt(chains[st], j);
      if t.prev == null { heads := heads[st := t.next]; }
      Unhook(t, chains[st], j);
    }

    lemma EndsAt(s: seq<KThread>, j: nat)
      requires Linked(s) && j < |s|
      ensures At(Without(s, j), 0) == if s[j].prev == null then s[j].next else s[0]
    {
    }

    twostate lemma SortedEnter(t: KThread)
      requires old(Shape({t})) && Inside() && threads == old(threads) && t in old(threads) && HasChain(t.state)
      requires forall x :: x in threads && x != t ==> x.state == old(x.state)
      requires chains == old(chains)[t.state := [t] + old(chains)[t.state]]
      ensures Sorted({})
    {
    }

    /** The second half: to the front of the chain of the new state. */
    method Enter(t: KThread, st: ThreadState)
      requires Shape({t}) && t in threads && HasChain(st)
      modifies this`heads, this`chains, threads`next, threads`prev, t`state
      ensures Shape({}) && t.state == st && chains == old(chains)[st := [t] + old(chains)[st]]
    {
      hide Linked, Sorted, HasChain, ChainsLinked;
      ChainsDisjoint({t});
      EnterChain(t, st);
      label Entered:
      t.state := st;
      SortedEnter(t);
      ChainsFrame@Entered();
    }

    twostate lemma ChainsFrame()
      requires old(Inside()) && old(ChainsLinked()) && Inside() && chains == old(chains) && heads == old(heads)
      requires forall st, t :: st in chains && t in chains[st] ==> t.next == old(t.next) && t.prev == old(t.prev)
      ensures ChainsLinked()
    {
      forall s | s in chains
        ensures Linked(chains[s])
      {
        LinkedFrame(chains[s]);
      }
    }

    method EnterChain(t: KThread, st: ThreadState)
      requires Inside() && ChainsLinked() && st in chains && t in threads
      requires forall s, x :: s in chains && x in chains[s] ==> x != t
      requires forall s, x :: s in chains && s != st && x in chains[s] ==> x !in chains[st]
      modifies this`heads, this`chains, threads`next, threads`prev
      ensures Inside() && ChainsLinked() && chains == old(chains)[st := [t] + old(chains)[st]]
    {
      hide Linked, HasChain, ChainsLinked;
      EnterLinks(t, st);
      chains := chains[st := [t] + chains[st]];
      LinkedElsewhere(st);
    }

    method EnterLinks(t: KThread, st: ThreadState)
      requires Inside() && ChainsLinked() && st in chains && t in threads
      requires forall s, x :: s in chains && x in chains[s] ==> x != t
      requires forall s, x :: s in chains && s != st && x in chains[s] ==> x !in chains[st]
      modifies this`heads, threads`next, threads`prev
      ensures Inside() && Linked([t] + chains[st]) && heads == old(heads)[st := t] && OthersKept(st)
    {
      hide Linked, HasChain, ChainsLinked;
      LinkedAt(st);
      HookFirst(t, heads[st], chains[st]);
      heads := heads[st := t];
    }

    /** The chains after `t` has gone from state `from` to state `to`. */
    static ghost function Moved(c: map<ThreadState, seq<KThread>>, t: KThread, from: ThreadState, to: ThreadState)
      : map<ThreadState, seq<KThread>>
    {
      var c1 := if from in c then c[from := Drop(c[from], t)] else c;
      if to in c1 then c1[to := [t] + c1[to]] else c1
    }

    /** The thread heads the chain of its new state, has left that of its old one, and the other chains are as they
        were. */
    static lemma MovedIs(c: map<ThreadState, seq<KThread>>, t: KThread, from: ThreadState, to: ThreadState) returns (j: nat)
      requires from != to && (from in c ==> t in c[from] && Distinct(c[from]))
      ensures Moved(c, t, from, to).Keys == c.Keys && (to in c ==> Moved(c, t, from, to)[to] == [t] + c[to])
      ensures from in c ==> j < |c[from]| && c[from][j] == t && Moved(c, t, from, to)[from] == Without(c[from], j)
      ensures forall st :: st in c && st != from && st != to ==> Moved(c, t, from, to)[st] == c[st]
    {
      hide Drop;
      j := 0;
      if from in c {
        j :| j < |c[from]| && c[from][j] == t;
        DropAt(c[from], j);
      }
    }

    lemma InitIsLoose(t: KThread)
      requires Shape({}) && !HasChain(t.state)
      ensures Shape({t})
    {
      hide ChainsLinked;
    }

    lemma NotRunning(t: KThread)
      requires Shape({}) && t in threads
      ensures t.state != Running
    {
      hide ChainsLinked;
    }

    /** The removal step of TmSetThreadState, for any old state. */
    method LeaveState(t: KThread)
      requires Shape({}) && t in threads
      modifies this`heads, this`chains, threads`next, threads`prev
      ensures Shape({t})
      ensures chains == if t.state in old(chains) then old(chains)[t.state := Drop(old(chains)[t.state], t)] else old(chains)
    {
      hide Sorted, ChainsLinked, Without, Drop;
      NotRunning(t);
      if GetThreadChain(t.state) != {} {
        ghost var j := Located(t);
        ChainDistinct(t.state);
        DropAt(chains[t.state], j);
        Leave(t, j);
      } else {
        InitIsLoose(t);
        ClearPrev(t);
      }
    }

    /** TmSetThreadState: the thread leaves the chain of its old state and heads the chain of the new one. */
    method SetThreadState(t: KThread, st: ThreadState)
      requires Valid() && t in threads && st != Running
      modifies this`heads, this`chains, threads`next, threads`prev, t`state
      ensures Valid() && t.state == st
      ensures chains == if old(t.state) == st then old(chains) else Moved(old(chains), t, old(t.state), st)
    {
      if t.state == st {
        return;
      }
      hide Shape, Drop;
      LeaveState(t);
      KeysAreChained({t});
      if GetThreadChain(st) != {} {
        Enter(t, st);
      } else {
        Park(t, st);
      }
    }

    lemma KeysAreChained(loose: set<KThread>)
      requires Shape(loose)
      ensures forall st :: st in chains <==> HasChain(st)
    {
    }

    /** The thread came from no chain: only its stale back link is cleared. */
    method ClearPrev(t: KThread)
      requires Shape({t}) && t in threads
      modifies t`prev
      ensures Shape({t})
    {
      ChainsDisjoint({t});
      hide Linked, Sorted;
      t.prev := null;
      assert Sorted({t}) by { SortedFrame({t}); }
      ChainsFrame();
    }

    twostate lemma SortedFrame(loose: set<KThread>)
      requires old(Inside()) && Inside() && old(Sorted(loose)) && threads == old(threads) && chains == old(chains)
      requires forall x :: x in threads ==> x.state == old(x.state)
      ensures Sorted(loose)
    {
    }

    /** The new state has no chain. */
    method Park(t: KThread, st: ThreadState)
      requires Shape({t}) && t in threads && !HasChain(st) && st != Running
      modifies t`state
      ensures Shape({}) && t.state == st
    {
      hide Linked;
      t.state := st;
      ChainsFrame();
    }

    /** One expired thread goes from the waiting to the ready chain. */
    method Expire(t: KThread, ghost i: nat)
      requires Valid() && t in threads && Wait in chains && Ready in chains
      requires i < |chains[Wait]| && chains[Wait][i] == t
      modifies this`heads, this`chains, threads`next, threads`prev, t`state
      ensures Valid() && Wait in chains && Ready in chains
      ensures chains == old(chains)[Wait := Without(old(chains)[Wait], i)][Ready := [t] + old(chains)[Ready]]
    {
      hide Shape, Drop, Without;
      StateOf(Wait, i);
      DropAt(chains[Wait], i);
      SetThreadState(t, Ready);
    }

    lemma StateOf(st: ThreadState, i: nat)
      requires Valid() && st in chains && i < |chains[st]|
      ensures chains[st][i].state == st && chains[st][i] in threads
      ensures Distinct(chains[st])
    {
      assert chains[st][i] in chains[st];
    }

    lemma HeadOf(st: ThreadState)
      requires Valid() && st in chains
      ensures st in heads && heads[st] == At(chains[st], 0)
    {
    }

    lemma NextOf(st: ThreadState, i: nat)
      requires Valid() && st in chains && i < |chains[st]|
      ensures chains[st][i].next == At(chains[st], i + 1) && chains[st][i].prev == At(chains[st], i - 1)
    {
    }

    /** The waiting chain with its clocks. */
    ghost function WaitList(): seq<Entry<KThread>>
      requires Wait in chains
      reads this, chains[Wait]
    {
      EntriesOf(chains[Wait])
    }

    /** The chains other than the two the timer works on. */
    twostate predicate OtherChains()
      reads this
    {
      && threads == old(threads) && Wait in chains && Ready in chains && chains.Keys == old(chains).Keys
      && forall st :: st in chains && st != Wait && st != Ready ==> chains[st] == old(chains)[st]
    }

    /** Clocks, and who runs, do not matter to the chains. */
    twostate lemma ClocksFrame()
      requires old(Shape({})) && threads == old(threads) && chains == old(chains) && heads == old(heads)
      requires forall x :: x in threads ==> x.next == old(x.next) && x.prev == old(x.prev) && x.state == old(x.state)
      ensures Shape({})
    {
      hide Linked, Sorted;
      SortedFrame({});
      ChainsFrame();
    }

    /** One waiting thread's clock goes down. */
    method Lower(t: KThread, ghost i: nat)
      requires Valid() && Wait in chains && i < |chains[Wait]| && chains[Wait][i] == t
      modifies t`clock
      ensures Valid() && WaitList() == LowerAt(old(WaitList()), i) && t.clock == old(t.clock) - MS
    {
      hide Shape, EntriesOf, LowerAt;
      StateOf(Wait, i);
      t.clock := t.clock - MS;
      ClocksFrame();
      EntriesLower((chains[Wait], i));
    }

    /** An expired thread leaves the waiting chain. */
    method Fire(t: KThread, ghost i: nat)
      requires Valid() && Wait in chains && Ready in chains && i < |chains[Wait]| && chains[Wait][i] == t
      modifies this`heads, this`chains, threads`next, threads`prev, t`state
      ensures Valid() && OtherChains() && WaitList() == Without(old(WaitList()), i)
      ensures chains[Wait] == Without(old(chains)[Wait], i) && chains[Ready] == [t] + old(chains)[Ready]
    {
      hide Shape, EntriesOf, Without;
      StateOf(Wait, i);
      Expire(t, i);
      EntriesWithout(old(chains)[Wait], i);
      EntriesFrame(old(chains)[Wait]);
    }

    /** The body of the timer's loop: `t`, entry `i` of the waiting chain, is visited. The walk goes on from
        `at`, or stops when there is none. */
    method Visit(t: KThread, ghost w: seq<Entry<KThread>>, ghost i: nat, ghost fired: seq<KThread>)
      returns (at: KThread?, ghost j: nat, ghost more: seq<KThread>)
      requires Valid() && Wait in chains && Ready in chains && i < |chains[Wait]| && t == chains[Wait][i]
      requires Midway(w, WaitList(), i, fired)
      modifies this`heads, this`chains, threads`next, threads`prev, t`state, t`clock
      ensures Valid() && OtherChains() && Midway(w, WaitList(), j, more)
      ensures more == fired || more == fired + [t]
      ensures forall x :: x in chains[Wait] ==> x in old(chains[Wait])
      ensures chains[Ready] == (if more == fired then [] else [t]) + old(chains)[Ready]
      ensures j <= |chains[Wait]| && |chains[Wait]| - j < old(|chains[Wait]|) - i
      ensures at == At(chains[Wait], j - 1) && (at == null ==> j == |chains[Wait]|)
    {
      hide Shape, Midway, Tick, TickRest, EntriesOf, Without;
      ghost var s := WaitList();
      j, more := i, fired;
      StateOf(Wait, i);
      Lower(t, i);
      if t.clock <= 0 {
        NextOf(Wait, i);
        LowerThenRemove(s, i);
        BeforeRemoved(chains[Wait], i);
        SubChain(chains[Wait], i);
        at := t.prev;
        Fire(t, i);
        if at != null {
          VisitFires(w, s, i, fired);
        } else {
          VisitHeadFires(w, s, fired);
          HeadOf(Wait);
          at := heads[Wait];
          j := if at == null then 0 else 1;
          assert fired + [t] == [t];
        }
        more := fired + [t];
      } else {
        VisitKeeps(w, s, i, fired);
        at, j := t, i + 1;
        assert [] + chains[Ready] == chains[Ready];
      }
    }

    /** TmIncreaseTime's loop over the waiting threads, editing the chain it walks. */
    method TickWaiting()
      requires Valid() && Wait in chains && Ready in chains
      modifies this`heads, this`chains, threads`next, threads`prev, threads`state, threads`clock
      ensures Valid() && OtherChains()
      ensures WaitList() == Tick(old(WaitList())).kept
      ensures chains[Ready] == Reversed(Tick(old(WaitList())).fired) + old(chains)[Ready]
      ensures forall x :: x in threads && x !in old(chains)[Wait] ==> x.clock == old(x.clock) && x.state == old(x.state)
    {
      hide Shape, Midway, Tick, TickRest, EntriesOf, Without, Reversed;
      ghost var w, ready := WaitList(), chains[Ready];
      ghost var i: nat, fired: seq<KThread> := 0, [];
      HeadOf(Wait);
      MidwayStart(w);
      ReversedNone(ready);
      var thr := heads[Wait];
      while thr != null
        invariant Valid() && OtherChains() && Midway(w, WaitList(), i, fired)
        invariant chains[Ready] == Reversed(fired) + ready
        invariant forall x :: x in chains[Wait] ==> x in old(chains)[Wait]
        invariant forall x :: x in threads && x !in old(chains)[Wait] ==> x.clock == old(x.clock) && x.state == old(x.state)
        invariant i <= |chains[Wait]| && thr == At(chains[Wait], i)
        decreases |chains[Wait]| - i
      {
        ReversedMore(fired, thr, ready);
        StateOf(Wait, i);
        thr, i, fired := Visit(thr, w, i, fired);
        if thr == null { break; }
        NextOf(Wait, i - 1);
        thr := thr.next;
      }
      MidwayEnd(w, WaitList(), i, fired);
    }
  }
}
