/** The waiting list through runs of calls and ticks, on values: who waits how long. */
module WaitingSpec {
  import opened Lists
  import opened SchedulerSpec

  datatype Call<T> = CreateCall | ResumeCall(t: T) | SuspendCall(t: T) | SleepCall(t: T, ms: int)
                   | WakeupCall(t: T) | ClockTick(canSchedule: int)

  /** Is the call about a thread? */
  predicate Refers<T>(c: Call<T>) { c.ResumeCall? || c.SuspendCall? || c.SleepCall? || c.WakeupCall? }

  predicate Names<T(==)>(c: Call<T>, x: T) { Refers(c) && c.t == x }

  ghost predicate NamedIn<T>(calls: seq<Call<T>>, x: T) {
    exists c :: c in calls && Names(c, x)
  }

  /** The place of a thread's entry, or the length of the list. */
  function PlaceOf<T(==)>(w: seq<Entry<T>>, x: T): (i: nat)
    ensures i <= |w| && (i < |w| ==> w[i].thread == x) && forall j :: 0 <= j < i ==> w[j].thread != x
  {
    if w == [] || w[0].thread == x then 0 else 1 + PlaceOf(w[1..], x)
  }

  predicate Waits<T(==)>(w: seq<Entry<T>>, x: T) { PlaceOf(w, x) < |w| }

  predicate Passed<T(==)>(w: seq<Entry<T>>, x: T) { Skipped(w, PlaceOf(w, x)) }

  function Dropped<T(==)>(w: seq<Entry<T>>, x: T): seq<Entry<T>> {
    if Waits(w, x) then Without(w, PlaceOf(w, x)) else w
  }

  /** A thread that goes to sleep heads the list; one that waits already stays where it is. */
  function Slept<T(==)>(w: seq<Entry<T>>, x: T, clock: int): seq<Entry<T>> {
    if Waits(w, x) then w[PlaceOf(w, x) := Entry(x, clock)] else [Entry(x, clock)] + w
  }

  /** The waiting list after a call or a tick. */
  function AfterCall<T(==)>(w: seq<Entry<T>>, c: Call<T>): seq<Entry<T>>
    requires c.SleepCall? ==> 0 <= c.ms <= INFINITE
  {
    match c
    case CreateCall => w
    case ResumeCall(t) => Dropped(w, t)
    case SuspendCall(t) => Dropped(w, t)
    case WakeupCall(t) => Dropped(w, t)
    case SleepCall(t, ms) => if ms == INFINITE then Dropped(w, t) else Slept(w, t, AsSigned(ms))
    case ClockTick(_) => Tick(w).kept
  }

  predicate InRange<T>(calls: seq<Call<T>>) {
    forall k :: 0 <= k < |calls| && calls[k].SleepCall? ==> 0 <= calls[k].ms <= INFINITE
  }

  function WaitsAfter<T(==)>(w: seq<Entry<T>>, calls: seq<Call<T>>): seq<Entry<T>>
    requires InRange(calls)
  {
    if calls == [] then w else AfterCall(WaitsAfter(w, calls[..|calls| - 1]), calls[|calls| - 1])
  }

  /** Ticks, those that lower the clock of a waiting thread, and those that pass it over. */
  function TickCount<T>(calls: seq<Call<T>>): nat {
    if calls == [] then 0 else TickCount(calls[..|calls| - 1]) + if calls[|calls| - 1].ClockTick? then 1 else 0
  }

  function Visits<T(==)>(w: seq<Entry<T>>, calls: seq<Call<T>>, x: T): nat
    requires InRange(calls)
  {
    if calls == [] then 0
    else
      var before := calls[..|calls| - 1];
      var v := WaitsAfter(w, before);
      Visits(w, before, x) + if calls[|calls| - 1].ClockTick? && Waits(v, x) && !Passed(v, x) then 1 else 0
  }

  function Passes<T(==)>(w: seq<Entry<T>>, calls: seq<Call<T>>, x: T): nat
    requires InRange(calls)
  {
    if calls == [] then 0
    else
      var before := calls[..|calls| - 1];
      var v := WaitsAfter(w, before);
      Passes(w, before, x) + if calls[|calls| - 1].ClockTick? && Waits(v, x) && Passed(v, x) then 1 else 0
  }

  function Sleeps<T>(calls: seq<Call<T>>): nat {
    if calls == [] then 0 else Sleeps(calls[..|calls| - 1]) + if calls[|calls| - 1].SleepCall? then 1 else 0
  }

  /** Ticks that a clock stands for. */
  function TicksOf(clock: int): (n: nat)
    ensures n > 0
  {
    if clock <= 0 then 1 else (clock + MS - 1) / MS
  }

  // ----- every thread has one entry -----

  ghost predicate OneEach<T>(w: seq<Entry<T>>) {
    forall i, j :: 0 <= i < j < |w| ==> w[i].thread != w[j].thread
  }

  lemma PlaceIs<T>(w: seq<Entry<T>>, i: nat)
    requires OneEach(w) && i < |w|
    ensures PlaceOf(w, w[i].thread) == i
  {
  }

  lemma {:induction false} TickRestOneEach<T>(s: seq<Entry<T>>)
    requires OneEach(s)
    ensures OneEach(TickRest(s).kept)
    ensures forall j :: 0 <= j < |TickRest(s).kept| ==>
      exists i :: 0 <= i < |s| && s[i].thread == TickRest(s).kept[j].thread && s[i].clock - MS > 0
  {
    if s != [] {
      TickRestOneEach(s[1..]);
      var p, q := TickRest(s), TickRest(s[1..]);
      var d := if s[0].clock - MS <= 0 then 0 else 1;
      forall j | 0 <= j < |p.kept|
        ensures exists i :: 0 <= i < |s| && s[i].thread == p.kept[j].thread && s[i].clock - MS > 0 && (j >= d ==> i > 0)
      {
        if j >= d {
          assert p.kept[j] == q.kept[j - d];
          var i :| 0 <= i < |s[1..]| && s[1..][i].thread == q.kept[j - d].thread && s[1..][i].clock - MS > 0;
          assert s[i + 1].thread == p.kept[j].thread;
        } else {
          assert s[0].thread == p.kept[0].thread;
        }
      }
      assert d == 1 ==> p.kept[1..] == q.kept;
    }
  }

  lemma TickOneEach<T>(s: seq<Entry<T>>)
    requires OneEach(s)
    ensures OneEach(Tick(s).kept)
    ensures forall j :: 0 <= j < |Tick(s).kept| ==>
      exists i :: 0 <= i < |s| && s[i].thread == Tick(s).kept[j].thread && !Fires(s, i)
  {
    hide TickRest;
    var kept := Tick(s).kept;
    if s == [] || s[0].clock - MS > 0 {
      TickRestOneEach(s);
      assert forall i :: 0 <= i < |s| && s[i].clock - MS > 0 ==> !Fires(s, i);
    } else if |s| > 1 {
      var rest := s[2..];
      TickRestOneEach(rest);
      forall j | 0 <= j < |kept|
        ensures exists i :: 0 <= i < |s| && s[i].thread == kept[j].thread && !Fires(s, i) && (j > 0 ==> i > 1)
      {
        if j > 0 {
          assert kept[j] == TickRest(rest).kept[j - 1];
          var i :| 0 <= i < |rest| && rest[i].thread == TickRest(rest).kept[j - 1].thread && rest[i].clock - MS > 0;
          assert s[i + 2].thread == kept[j].thread && !Fires(s, i + 2);
        } else {
          assert s[1].thread == kept[0].thread && !Fires(s, 1);
        }
      }
      assert kept[1..] == TickRest(rest).kept && !Fires(s, 1);
    }
  }

  /** The fate of one thread in a tick. */
  lemma TickPlace<T>(w: seq<Entry<T>>, x: T)
    requires OneEach(w)
    ensures var v, i := Tick(w).kept, PlaceOf(w, x);
      && OneEach(v) && (Waits(v, x) <==> Waits(w, x) && !Fires(w, i))
      && (Waits(v, x) ==>
            && v[PlaceOf(v, x)].clock == w[i].clock - (if Passed(w, x) then 0 else MS)
            && PlaceOf(v, x) <= i && (Passed(w, x) ==> PlaceOf(v, x) == 0 && i == 1))
  {
    hide Tick;
    TickOneEach(w);
    var v, i := Tick(w).kept, PlaceOf(w, x);
    if Waits(v, x) {
      var k :| 0 <= k < |w| && w[k].thread == v[PlaceOf(v, x)].thread && !Fires(w, k);
      PlaceIs(w, k);
    }
    if Waits(w, x) {
      var k := TickEntry(w, i);
      if !Fires(w, i) { PlaceIs(v, k); }
    }
  }

  /** What a call about others does to a thread's entry. */
  lemma CallPlace<T>(w: seq<Entry<T>>, c: Call<T>, x: T)
    requires OneEach(w) && !Names(c, x) && !c.ClockTick? && (c.SleepCall? ==> 0 <= c.ms <= INFINITE)
    ensures var v := AfterCall(w, c);
      && OneEach(v) && (Waits(v, x) <==> Waits(w, x))
      && (Waits(v, x) ==>
            && v[PlaceOf(v, x)].clock == w[PlaceOf(w, x)].clock
            && PlaceOf(v, x) <= PlaceOf(w, x) + if c.SleepCall? then 1 else 0)
  {
    if Refers(c) {
      DroppedPlace(w, c.t, x);
      if c.SleepCall? && c.ms != INFINITE { SleptPlace(w, c.t, AsSigned(c.ms), x); }
    }
  }

  lemma DroppedPlace<T>(w: seq<Entry<T>>, t: T, x: T)
    requires OneEach(w) && t != x
    ensures var v := Dropped(w, t);
      && OneEach(v) && (Waits(v, x) <==> Waits(w, x)) && PlaceOf(v, x) <= PlaceOf(w, x)
      && (Waits(v, x) ==> v[PlaceOf(v, x)] == w[PlaceOf(w, x)])
  {
    hide PlaceOf;
    var v, i, j := Dropped(w, t), PlaceOf(w, x), PlaceOf(w, t);
    if Waits(w, t) {
      assert forall k :: 0 <= k < |v| ==> v[k] == w[if k < j then k else k + 1];
      if Waits(w, x) { PlaceIs(v, if i < j then i else i - 1); }
    }
  }

  lemma SleptPlace<T>(w: seq<Entry<T>>, t: T, clock: int, x: T)
    requires OneEach(w) && t != x
    ensures var v := Slept(w, t, clock);
      && OneEach(v) && (Waits(v, x) <==> Waits(w, x)) && PlaceOf(v, x) <= PlaceOf(w, x) + 1
      && (Waits(v, x) ==> v[PlaceOf(v, x)] == w[PlaceOf(w, x)])
  {
    hide PlaceOf;
    var v, i, d := Slept(w, t, clock), PlaceOf(w, x), if Waits(w, t) then 0 else 1;
    assert forall k :: d <= k < |v| ==> v[k].thread == w[k - d].thread;
    if Waits(w, x) { PlaceIs(v, i + d); }
  }

  // ----- the law -----

  lemma OneCallMore<T>(calls: seq<Call<T>>, x: T)
    requires calls != [] && InRange(calls) && !NamedIn(calls, x)
    ensures InRange(calls[..|calls| - 1]) && !NamedIn(calls[..|calls| - 1], x) && !Names(calls[|calls| - 1], x)
  {
    assert calls[|calls| - 1] in calls;
  }

  /** In any run in which no call is about `x`, which waited at place `i`: it waits as long as fewer ticks have
      counted for it than its clock stands for, and each of them has lowered its clock by one tick. The ticks that
      pass it over are at most one for every entry that was ahead of it and every thread put to sleep since. */
  lemma {:induction false} WaitLaw<T>(w: seq<Entry<T>>, calls: seq<Call<T>>, x: T)
    requires OneEach(w) && Waits(w, x) && InRange(calls) && !NamedIn(calls, x)
    ensures var v, n, c := WaitsAfter(w, calls), Visits(w, calls, x), w[PlaceOf(w, x)].clock;
      && OneEach(v) && n <= TicksOf(c) && (Waits(v, x) <==> n < TicksOf(c))
      && (Waits(v, x) ==> v[PlaceOf(v, x)].clock == c - MS * n)
      && (Waits(v, x) ==> n + Passes(w, calls, x) == TickCount(calls))
      && Passes(w, calls, x) + (if Waits(v, x) then PlaceOf(v, x) else 0) <= PlaceOf(w, x) + Sleeps(calls)
  {
    hide Tick, Passed, AfterCall, Waits, Names, NamedIn;
    if calls != [] {
      var before, c := calls[..|calls| - 1], calls[|calls| - 1];
      OneCallMore(calls, x);
      WaitLaw(w, before, x);
      var v := WaitsAfter(w, before);
      if c.ClockTick? {
        LawTick(v, c, x);
      } else {
        CallPlace(v, c, x);
      }
    }
  }

  lemma LawTick<T>(w: seq<Entry<T>>, c: Call<T>, x: T)
    requires OneEach(w) && c.ClockTick?
    ensures var v, i := AfterCall(w, c), PlaceOf(w, x);
      && OneEach(v) && (Waits(v, x) ==> Waits(w, x))
      && (Waits(w, x) ==> (Waits(v, x) <==> Passed(w, x) || w[i].clock > MS))
      && (Waits(v, x) ==>
            && v[PlaceOf(v, x)].clock == w[i].clock - (if Passed(w, x) then 0 else MS)
            && PlaceOf(v, x) <= i && (Passed(w, x) ==> PlaceOf(v, x) == i - 1))
  {
    hide Tick;
    TickPlace(w, x);
  }

  /** No later than this: the ticks of its clock, one for every entry ahead of it, and one for every thread put to
      sleep in the meantime. */
  lemma InTime<T>(w: seq<Entry<T>>, calls: seq<Call<T>>, x: T)
    requires OneEach(w) && Waits(w, x) && InRange(calls) && !NamedIn(calls, x)
    requires TickCount(calls) >= TicksOf(w[PlaceOf(w, x)].clock) + PlaceOf(w, x) + Sleeps(calls)
    ensures !Waits(WaitsAfter(w, calls), x)
  {
    WaitLaw(w, calls, x);
  }

  lemma {:induction false} VisitsTick<T>(w: seq<Entry<T>>, calls: seq<Call<T>>, x: T)
    requires InRange(calls)
    ensures Visits(w, calls, x) <= TickCount(calls)
  {
    if calls != [] { VisitsTick(w, calls[..|calls| - 1], x); }
  }

  /** And no earlier than its clock. */
  lemma NotBefore<T>(w: seq<Entry<T>>, calls: seq<Call<T>>, x: T)
    requires OneEach(w) && Waits(w, x) && InRange(calls) && !NamedIn(calls, x)
    requires MS * TickCount(calls) < w[PlaceOf(w, x)].clock
    ensures Waits(WaitsAfter(w, calls), x)
  {
    WaitLaw(w, calls, x);
    VisitsTick(w, calls, x);
  }

  /** `n` times: `h` goes to sleep for a millisecond, and a tick follows. */
  function Rounds<T>(h: T, n: nat): (calls: seq<Call<T>>)
    ensures InRange(calls)
  {
    if n == 0 then [] else Rounds(h, n - 1) + [SleepCall(h, 1)] + [ClockTick(0)]
  }

  /** One such round leaves the list as it was. */
  lemma StarvingRound<T>(x: T, clock: int, h: T, canSchedule: int)
    requires h != x
    ensures var w: seq<Entry<T>>, v: seq<Entry<T>> := [Entry(x, clock)], [Entry(h, 1), Entry(x, clock)];
      AfterCall(w, SleepCall(h, 1)) == v && Waits(v, x) && Passed(v, x) && AfterCall(v, ClockTick(canSchedule)) == w
  {
    var w: seq<Entry<T>>, v: seq<Entry<T>> := [Entry(x, clock)], [Entry(h, 1), Entry(x, clock)];
    assert w[1..] == [] && v[1..] == w && v[2..] == [];
    assert PlaceOf(w, h) == 1 && PlaceOf(v, x) == 1;
    assert [Entry(h, 1)] + w == v && [v[1]] + [] == w;
  }

  /** That can go on for ever with `x` waiting behind, whatever its clock: each tick readies `h` and passes `x`
      over. */
  lemma {:induction false} Starving<T>(x: T, clock: int, h: T, n: nat)
    requires h != x
    ensures WaitsAfter([Entry(x, clock)], Rounds(h, n)) == [Entry(x, clock)]
    ensures TickCount(Rounds(h, n)) == n && Visits([Entry(x, clock)], Rounds(h, n), x) == 0
  {
    hide AfterCall, Waits, Passed;
    if n > 0 {
      var a, c := Rounds(h, n - 1), Rounds(h, n);
      var b := a + [SleepCall(h, 1)];
      assert b[..|b| - 1] == a && c[..|c| - 1] == b;
      Starving(x, clock, h, n - 1);
      StarvingRound(x, clock, h, 0);
    }
  }
}
