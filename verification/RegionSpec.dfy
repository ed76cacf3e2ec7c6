/** Placement of regions in an address range, on values. Addresses are unbounded integers here. */
module RegionSpec {
  import opened Lists
  import opened Wrappers

  const PAGE_SIZE: nat := 4096

  datatype Region = Region(start: int, size: int) {
    function End(): int { start + size }
  }

  /** In address order, disjoint, inside the limits. */
  ghost predicate Ordered(rs: seq<Region>, lo: int, hi: int) {
    && (forall i :: 0 <= i < |rs| ==> lo <= rs[i].start && 0 < rs[i].size && rs[i].End() <= hi)
    && (forall i, j :: 0 <= i < j < |rs| ==> rs[i].End() <= rs[j].start)
  }

  predicate Overlaps(r: Region, start: int, size: int) {
    start < r.End() && r.start < start + size
  }

  /** `size` bytes at `start` are inside the limits and clear of every region. */
  ghost predicate Feasible(rs: seq<Region>, lo: int, hi: int, start: int, size: int) {
    && lo <= start && start + size <= hi
    && forall i :: 0 <= i < |rs| ==> !Overlaps(rs[i], start, size)
  }

  ghost predicate Lowest(rs: seq<Region>, lo: int, hi: int, size: int, r: Option<int>) {
    match r
    case Some(a) => Feasible(rs, lo, hi, a, size) && forall b :: Feasible(rs, lo, hi, b, size) ==> a <= b
    case None => forall b :: !Feasible(rs, lo, hi, b, size)
  }

  ghost predicate Highest(rs: seq<Region>, lo: int, hi: int, size: int, r: Option<int>) {
    match r
    case Some(a) => Feasible(rs, lo, hi, a, size) && forall b :: Feasible(rs, lo, hi, b, size) ==> b <= a
    case None => forall b :: !Feasible(rs, lo, hi, b, size)
  }

  /** Is there room for `size` bytes somewhere behind the first region? */
  ghost predicate FitsAbove(rs: seq<Region>, lo: int, hi: int, size: int) {
    rs != [] && exists b :: Feasible(rs, lo, hi, b, size) && rs[0].End() <= b
  }

  function Insert<T>(s: seq<T>, i: nat, x: T): (r: seq<T>)
    requires i <= |s|
    ensures |r| == |s| + 1
  {
    s[..i] + [x] + s[i..]
  }

  /** Releasing what was just placed restores the list. */
  lemma WithoutUndoesInsert<T>(s: seq<T>, i: nat, x: T)
    requires i <= |s|
    ensures Without(Insert(s, i, x), i) == s
  {
  }

  /** Putting a region between its neighbours keeps the order exactly when both sides clear it. */
  lemma InsertOrdered(rs: seq<Region>, lo: int, hi: int, i: nat, r: Region)
    requires Ordered(rs, lo, hi) && i <= |rs| && 0 < r.size && lo <= r.start && r.End() <= hi
    ensures Ordered(Insert(rs, i, r), lo, hi)
      <==> (i > 0 ==> rs[i - 1].End() <= r.start) && (i < |rs| ==> r.End() <= rs[i].start)
  {
    var s := Insert(rs, i, r);
    assert forall k :: 0 <= k < |s| ==> s[k] == if k < i then rs[k] else if k == i then r else rs[k - 1];
    if Ordered(s, lo, hi) {
      assert i > 0 ==> s[i - 1].End() <= s[i].start;
      assert i < |rs| ==> s[i].End() <= s[i + 1].start;
    }
  }

  lemma WithoutOrdered(rs: seq<Region>, lo: int, hi: int, i: nat)
    requires Ordered(rs, lo, hi) && i < |rs|
    ensures Ordered(Without(rs, i), lo, hi)
  {
    var s := Without(rs, i);
    assert forall k :: 0 <= k < |s| ==> s[k] == rs[if k < i then k else k + 1];
  }

  /** A region that fits between its neighbours is feasible. */
  lemma GapFeasible(rs: seq<Region>, lo: int, hi: int, i: nat, start: int, size: int)
    requires Ordered(rs, lo, hi) && i <= |rs| && 0 < size && lo <= start && start + size <= hi
    requires i > 0 ==> rs[i - 1].End() <= start
    requires i < |rs| ==> start + size <= rs[i].start
    ensures Feasible(rs, lo, hi, start, size)
  {
    forall k | 0 <= k < |rs|
      ensures !Overlaps(rs[k], start, size)
    {
      if k < i - 1 { assert rs[k].End() <= rs[i - 1].start; }
      if i < k { assert rs[i].End() <= rs[k].start; }
    }
  }

  /** An address lies in at most one region. */
  lemma CoverUnique(rs: seq<Region>, lo: int, hi: int, i: nat, j: nat, addr: int)
    requires Ordered(rs, lo, hi) && i < |rs| && j < |rs|
    requires rs[i].start <= addr < rs[i].End() && rs[j].start <= addr < rs[j].End()
    ensures i == j
  {
  }

  ghost predicate PageAligned(rs: seq<Region>) {
    forall i :: 0 <= i < |rs| ==> rs[i].start % PAGE_SIZE == 0 && rs[i].size % PAGE_SIZE == 0
  }

  lemma AlignedSteps(rs: seq<Region>, i: nat, size: int)
    requires i < |rs| && PageAligned(rs)
    ensures rs[i].End() % PAGE_SIZE == 0
    ensures size % PAGE_SIZE == 0 ==> (rs[i].start - size) % PAGE_SIZE == 0
  {
  }

  ghost predicate AllFrom(rs: seq<Region>, lo: int, hi: int, size: int, a: int) {
    forall b :: Feasible(rs, lo, hi, b, size) ==> a <= b
  }

  ghost predicate AllUpTo(rs: seq<Region>, lo: int, hi: int, size: int, a: int) {
    forall b :: Feasible(rs, lo, hi, b, size) ==> b <= a
  }

  lemma LimitsBound(rs: seq<Region>, lo: int, hi: int, size: int)
    ensures AllFrom(rs, lo, hi, size, lo) && AllUpTo(rs, lo, hi, size, hi - size)
  {
  }

  lemma RegionBounds(rs: seq<Region>, lo: int, hi: int, i: nat)
    requires Ordered(rs, lo, hi) && i < |rs|
    ensures lo <= rs[i].start < rs[i].End() <= hi
  {
  }

  /** Walking up: when region `i` does not leave the gap below it big enough, nothing below its end fits. */
  lemma StepUp(rs: seq<Region>, lo: int, hi: int, size: int, i: nat, a: int)
    requires i < |rs| && 0 < size && AllFrom(rs, lo, hi, size, a) && rs[i].start < a + size
    ensures AllFrom(rs, lo, hi, size, rs[i].End())
  {
    forall b | Feasible(rs, lo, hi, b, size)
      ensures rs[i].End() <= b
    {
      assert !Overlaps(rs[i], b, size);
    }
  }

  lemma StepDown(rs: seq<Region>, lo: int, hi: int, size: int, i: nat, a: int)
    requires i < |rs| && 0 < size && AllUpTo(rs, lo, hi, size, a) && a < rs[i].End()
    ensures AllUpTo(rs, lo, hi, size, rs[i].start - size)
  {
    forall b | Feasible(rs, lo, hi, b, size)
      ensures b <= rs[i].start - size
    {
      assert !Overlaps(rs[i], b, size);
    }
  }

  /** The highest fit goes in front of all regions exactly when there is no room behind the first one. */
  lemma HighestPlace(rs: seq<Region>, lo: int, hi: int, size: int, i: nat, addr: int)
    requires Ordered(rs, lo, hi) && 0 < size && i <= |rs| && Highest(rs, lo, hi, size, Some(addr))
    requires (i > 0 ==> rs[i - 1].End() <= addr) && (i < |rs| ==> addr + size <= rs[i].start)
    ensures i > 0 <==> FitsAbove(rs, lo, hi, size)
  {
    if i > 0 {
      assert i > 1 ==> rs[0].End() <= rs[i - 1].start;
      assert Feasible(rs, lo, hi, addr, size) && rs[0].End() <= addr;
    } else if rs != [] {
      RegionBounds(rs, lo, hi, 0);
    }
  }

  lemma AlignedInsert(rs: seq<Region>, i: nat, r: Region)
    requires i <= |rs| && PageAligned(rs) && r.size % PAGE_SIZE == 0
    ensures PageAligned(Insert(rs, i, r)) <==> r.start % PAGE_SIZE == 0
  {
    var s := Insert(rs, i, r);
    assert s[i] == r;
    forall k | 0 <= k < |s| && k != i
      ensures s[k].start % PAGE_SIZE == 0 && s[k].size % PAGE_SIZE == 0
    {
      assert s[k] == rs[if k < i then k else k - 1];
    }
  }

  /** Releasing by address what was just placed removes exactly that region and restores the list. */
  lemma ReleaseUndoesPlacement(rs: seq<Region>, lo: int, hi: int, i: nat, r: Region, addr: int, j: nat)
    requires i <= |rs| && Ordered(Insert(rs, i, r), lo, hi) && r.start <= addr < r.End()
    requires j <= |rs| && Insert(rs, i, r)[j].start <= addr < Insert(rs, i, r)[j].End()
    ensures Without(Insert(rs, i, r), j) == rs
  {
    assert Insert(rs, i, r)[i] == r;
    CoverUnique(Insert(rs, i, r), lo, hi, i, j, addr);
    WithoutUndoesInsert(rs, i, r);
  }
}
