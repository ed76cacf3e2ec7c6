/** The timer's pass over the waiting threads, and the round of the ready threads, on values. */
module SchedulerSpec {
  import opened Lists
  import opened Arith

  const MS: int := 5   // 1000 / RTC_FREQUENCY

  datatype Entry<T> = Entry(thread: T, clock: int)

  /** What one pass leaves waiting, and whom it readies in which order. */
  datatype Pass<T> = Pass(kept: seq<Entry<T>>, fired: seq<T>)

  /** Entries behind a kept one are all visited. */
  function TickRest<T>(s: seq<Entry<T>>): (p: Pass<T>)
    ensures |p.kept| + |p.fired| == |s|
  {
    if s == [] then Pass([], [])
    else
      var p := TickRest(s[1..]);
      var c := s[0].clock - MS;
      if c <= 0 then Pass(p.kept, [s[0].thread] + p.fired)
      else Pass([Entry(s[0].thread, c)] + p.kept, p.fired)
  }

  /** The whole pass: when the first entry expires, its successor is not visited this time. */
  function Tick<T>(s: seq<Entry<T>>): (p: Pass<T>)
    ensures |p.kept| + |p.fired| == |s|
  {
    if s == [] || s[0].clock - MS > 0 then TickRest(s)
    else if |s| == 1 then Pass([], [s[0].thread])
    else
      var p := TickRest(s[2..]);
      Pass([s[1]] + p.kept, [s[0].thread] + p.fired)
  }

  /** Between two visits of a pass over `w`: `kept` and `fired` are settled, `rest` is still to come. */
  ghost predicate MidPass<T>(w: seq<Entry<T>>, kept: seq<Entry<T>>, rest: seq<Entry<T>>, fired: seq<T>) {
    if kept == [] && rest != [] then fired == [] && rest == w
    else Tick(w) == Pass(kept + TickRest(rest).kept, fired + TickRest(rest).fired)
  }

  function LowerAt<T>(s: seq<Entry<T>>, i: nat): seq<Entry<T>>
    requires i < |s|
  {
    s[i := Entry(s[i].thread, s[i].clock - MS)]
  }

  /** MidPass with the visited part being the first `i` entries of the list as it stands. */
  ghost predicate Midway<T>(w: seq<Entry<T>>, s: seq<Entry<T>>, i: nat, fired: seq<T>) {
    i <= |s| && MidPass(w, s[..i], s[i..], fired)
  }

  lemma MidwayStart<T>(w: seq<Entry<T>>)
    ensures Midway(w, w, 0, [])
  {
    assert w[..0] == [] && w[0..] == w;
    assert w == [] ==> Tick(w) == Pass([] + TickRest(w).kept, [] + TickRest(w).fired);
  }

  lemma MidwayEnd<T>(w: seq<Entry<T>>, s: seq<Entry<T>>, i: nat, fired: seq<T>)
    requires Midway(w, s, i, fired) && i == |s|
    ensures Tick(w) == Pass(s, fired)
  {
    assert s[..i] == s && s[i..] == [];
  }

  lemma LowerThenRemove<T>(s: seq<Entry<T>>, i: nat)
    requires i < |s|
    ensures Without(LowerAt(s, i), i) == Without(s, i)
  {
  }

  /** A visited entry that does not expire. */
  lemma VisitKeeps<T>(w: seq<Entry<T>>, s: seq<Entry<T>>, i: nat, fired: seq<T>)
    requires Midway(w, s, i, fired) && i < |s| && s[i].clock - MS > 0
    ensures Midway(w, LowerAt(s, i), i + 1, fired)
  {
    var e := Entry(s[i].thread, s[i].clock - MS);
    var p := TickRest(s[i + 1..]);
    assert s[i..][1..] == s[i + 1..] && TickRest(s[i..]) == Pass([e] + p.kept, p.fired);
    var t := LowerAt(s, i);
    assert t[..i + 1] == s[..i] + [e] && t[i + 1..] == s[i + 1..];
    assert s[..i] + ([e] + p.kept) == t[..i + 1] + p.kept;
    if i == 0 { assert [] + p.fired == p.fired && s[0..] == s; }
  }

  /** An expired entry behind a kept one. */
  lemma VisitFires<T>(w: seq<Entry<T>>, s: seq<Entry<T>>, i: nat, fired: seq<T>)
    requires Midway(w, s, i, fired) && 0 < i < |s| && s[i].clock - MS <= 0
    ensures Midway(w, Without(s, i), i, fired + [s[i].thread])
  {
    var p := TickRest(s[i + 1..]);
    assert s[i..][1..] == s[i + 1..] && TickRest(s[i..]) == Pass(p.kept, [s[i].thread] + p.fired);
    var t := Without(s, i);
    assert t[..i] == s[..i] && t[i..] == s[i + 1..];
    assert fired + ([s[i].thread] + p.fired) == (fired + [s[i].thread]) + p.fired;
  }

  /** An expired first entry: the next one is stepped over. */
  lemma VisitHeadFires<T>(w: seq<Entry<T>>, s: seq<Entry<T>>, fired: seq<T>)
    requires Midway(w, s, 0, fired) && s != [] && s[0].clock - MS <= 0
    ensures fired == [] && Midway(w, Without(s, 0), if |s| == 1 then 0 else 1, [s[0].thread])
  {
    assert s[0..] == s;
    var t := Without(s, 0);
    if |s| > 1 {
      assert t[..1] == [s[1]] && t[1..] == s[2..];
    }
  }

  /** Is entry `i` passed over? */
  predicate Skipped<T>(s: seq<Entry<T>>, i: nat) {
    i == 1 && 1 < |s| && s[0].clock - MS <= 0
  }

  predicate Fires<T>(s: seq<Entry<T>>, i: nat)
    requires i < |s|
  {
    !Skipped(s, i) && s[i].clock - MS <= 0
  }

  /** Position of a surviving entry after the pass. */
  function NewIndexRest<T>(s: seq<Entry<T>>, i: nat): (k: nat)
    requires i < |s|
    ensures k <= i
  {
    if i == 0 then 0
    else NewIndexRest(s[1..], i - 1) + if s[0].clock - MS <= 0 then 0 else 1
  }

  lemma {:induction false} TickRestEntry<T>(s: seq<Entry<T>>, i: nat)
    requires i < |s|
    ensures var p, e := TickRest(s), s[i];
      if e.clock - MS <= 0 then e.thread in p.fired
      else NewIndexRest(s, i) < |p.kept| && p.kept[NewIndexRest(s, i)] == Entry(e.thread, e.clock - MS)
  {
    if i > 0 {
      TickRestEntry(s[1..], i - 1);
    }
  }

  /** Each entry's fate: fired, lowered by exactly one tick, or (the successor of an expired first entry)
      kept unchanged as the new first entry; survivors never move back. */
  lemma TickEntry<T>(s: seq<Entry<T>>, i: nat) returns (k: nat)
    requires i < |s|
    ensures Fires(s, i) ==> s[i].thread in Tick(s).fired
    ensures !Fires(s, i) ==> k <= i && k < |Tick(s).kept| && Tick(s).kept[k].thread == s[i].thread
    ensures !Fires(s, i) ==> Tick(s).kept[k].clock == if Skipped(s, i) then s[i].clock else s[i].clock - MS
    ensures !Fires(s, i) && Skipped(s, i) ==> k == 0
  {
    k := 0;
    if s[0].clock - MS > 0 {
      TickRestEntry(s, i);
      k := NewIndexRest(s, i);
    } else if i >= 2 {
      TickRestEntry(s[2..], i - 2);
      k := NewIndexRest(s[2..], i - 2) + 1;
    }
  }

  /** Ticks that a waiting entry can still take: its clock in ticks, plus one per entry before it. */
  function Delay<T>(s: seq<Entry<T>>, i: nat): int
    requires i < |s|
  {
    (if s[i].clock <= 0 then 1 else (s[i].clock + MS - 1) / MS) + i
  }

  /** Consecutive passes with nobody put to wait in between. */
  function Waiting<T>(s: seq<Entry<T>>, n: nat): seq<Entry<T>>
    decreases n
  {
    if n == 0 then s else Waiting(Tick(s).kept, n - 1)
  }

  /** While nobody goes to sleep in between, a thread that asked for `clock` milliseconds is readied at the latest
      after ceil(clock / 5) ticks plus one for every thread ahead of it, whatever the passes skip. Sleepers that keep
      coming can starve it (module WaitingSpec). */
  lemma {:induction false} FiresInTime<T>(s: seq<Entry<T>>, i: nat) returns (n: nat)
    requires i < |s|
    ensures n < Delay(s, i)
    ensures s[i].thread in Tick(Waiting(s, n)).fired
    decreases Delay(s, i)
  {
    var k := TickEntry(s, i);
    if Fires(s, i) {
      n := 0;
    } else {
      var m := FiresInTime(Tick(s).kept, k);
      n := m + 1;
    }
  }

  // ----- how long to sleep -----

  const INFINITE: int := 0xffff_ffff

  /** A 32-bit word read as a signed number, as the clock field holds it. */
  function AsSigned(w: int): (c: int)
    requires 0 <= w <= INFINITE
  {
    if w < 0x8000_0000 then w else w - 0x1_0000_0000
  }

  // ----- round robin -----

  /** The choice of TmSchedule among the ready threads `r` when entry `i` is running. */
  function NextReady(n: nat, i: nat): (k: nat)
    requires i < n
    ensures k < n
  {
    if i + 1 < n then i + 1 else 0
  }

  /** The next `m` choices. */
  function Choices(n: nat, i: nat, m: nat): (c: seq<nat>)
    requires i < n
    ensures |c| == m
    decreases m
  {
    if m == 0 then [] else [NextReady(n, i)] + Choices(n, NextReady(n, i), m - 1)
  }

  lemma {:induction false} ChoiceAt(n: nat, i: nat, m: nat, k: nat)
    requires i < n && k < m
    ensures Choices(n, i, m)[k] == (i + 1 + k) % n
    decreases m
  {
    if k > 0 {
      ChoiceAt(n, NextReady(n, i), m - 1, k - 1);
      if i + 1 == n {
        assert (i + 1 + k) % n == (0 + 1 + (k - 1)) % n by { WrapOnce(k, n); }
      }
    } else if i + 1 == n {
      WrapOnce(0, n);
    } else {
      Small(i + 1, n);
    }
  }

  lemma WrapOnce(k: nat, n: nat)
    requires 0 < n
    ensures (n + k) % n == k % n
  {
    ModCancel(k, 1, n);
  }

  lemma NextTurn(a: nat, n: nat)
    requires 0 < n
    ensures NextReady(n, a % n) == (a + 1) % n
  {
    var q, r := a / n, a % n;
    ModCancel(r + 1, q, n);
    if r + 1 == n { WrapOnce(0, n); } else { Small(r + 1, n); }
  }

  lemma Small(k: nat, n: nat)
    requires k < n
    ensures k % n == k
  {
  }

  /** One full round runs every ready thread exactly once, ending with the one that was running. */
  lemma RoundRobin(n: nat, i: nat, j: nat) returns (k: nat)
    requires i < n && j < n
    ensures k < n && Choices(n, i, n)[k] == j
    ensures forall m :: 0 <= m < n && Choices(n, i, n)[m] == j ==> m == k
    ensures j == i ==> k == n - 1
  {
    k := if j > i then j - i - 1 else n + j - i - 1;
    forall m | 0 <= m < n
      ensures Choices(n, i, n)[m] == if i + 1 + m < n then i + 1 + m else i + 1 + m - n
    {
      ChoiceAt(n, i, n, m);
      if i + 1 + m < n { Small(i + 1 + m, n); } else { WrapOnce(i + 1 + m - n, n); Small(i + 1 + m - n, n); }
    }
  }
}
