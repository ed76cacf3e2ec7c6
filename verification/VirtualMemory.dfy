/** Virtual memory regions of an address space: a doubly linked list in address order, searched from
    either end for a gap. */
module VirtualMemory {
  import opened Lists
  import opened Wrappers
  import opened RegionSpec

  class Vma {
    var prev: Vma?
    var next: Vma?
    var start: int
    var size: int

    /** A buffer straight from the kernel heap: nothing is known about its links. */
    constructor () {
    }
  }

  ghost function At(s: seq<Vma>, i: int): Vma? { if 0 <= i < |s| then s[i] else null }

  ghost predicate Forward(s: seq<Vma>)
    reads s
  {
    Distinct(s) && forall i {:trigger s[i].next} :: 0 <= i < |s| ==> s[i].next == At(s, i + 1)
  }

  /** Back links of every entry but the first. */
  ghost predicate Backward(s: seq<Vma>)
    reads s
  {
    forall i {:trigger s[i].prev} :: 0 < i < |s| ==> s[i].prev == At(s, i - 1)
  }

  ghost predicate Linked(s: seq<Vma>)
    reads s
  {
    Forward(s) && Backward(s) && (s != [] ==> s[0].prev == null)
  }

  ghost function RegionsOf(s: seq<Vma>): (r: seq<Region>)
    reads s
    ensures |r| == |s|
    ensures forall i :: 0 <= i < |s| ==> r[i] == Region(s[i].start, s[i].size)
  {
    seq(|s|, i requires 0 <= i < |s| reads s => Region(s[i].start, s[i].size))
  }

  class KVirtualMemory {
    const lower: int
    const upper: int
    var first: Vma?
    var last: Vma?
    ghost var chain: seq<Vma>

    constructor (lower: int, upper: int)
      ensures Valid() && chain == [] && this.lower == lower && this.upper == upper
    {
      this.lower, this.upper := lower, upper;
      first, last, chain := null, null, [];
    }

    ghost function Regions(): seq<Region>
      reads this, chain
    {
      RegionsOf(chain)
    }

    ghost predicate ListOk()
      reads this, chain
    {
      Linked(chain) && first == At(chain, 0) && last == At(chain, |chain| - 1)
    }

    ghost predicate Valid()
      reads this, chain
    {
      ListOk() && Ordered(Regions(), lower, upper)
    }

    /** InsertPreviousVma: before entry `i`, or at the end. */
    method InsertPrevious(vma: Vma, next: Vma?, ghost i: nat)
      requires ListOk() && vma !in chain && i <= |chain| && next == At(chain, i)
      modifies this`first, this`last, this`chain, vma`next, vma`prev, Elems(chain)`next, Elems(chain)`prev
      ensures ListOk() && chain == Insert(old(chain), i, vma)
    {
      hide Insert;
      Link(vma, next, i);
      Spliced((vma, i));
      chain := Insert(chain, i, vma);
    }

    method Link(vma: Vma, next: Vma?, ghost i: nat)
      requires ListOk() && vma !in chain && i <= |chain| && next == At(chain, i)
      modifies this`first, this`last, vma`next, vma`prev, Elems(chain)`next, Elems(chain)`prev
      ensures Between((vma, i))
    {
      assert next != null ==> next.prev == At(chain, i - 1);
      assert next == null ==> last == At(chain, i - 1);
      vma.next := next;
      if next != null {
        if next.prev != null {
          next.prev.next := vma;
        } else {
          first := vma;
        }
        vma.prev := next.prev;
        next.prev := vma;
      } else {
        vma.prev := last;
        if last != null {
          last.next := vma;
        } else {
          first := vma;
        }
        last := vma;
      }
    }

    /** The links around `t.0`, newly put before entry `t.1`. */
    twostate predicate Between(t: (Vma, nat))
      requires t.1 <= |chain|
      reads this, chain, t.0
    {
      && chain == old(chain) && t.0.next == At(chain, t.1) && t.0.prev == At(chain, t.1 - 1)
      && (forall k {:trigger chain[k].next} :: 0 <= k < |chain| ==>
            chain[k].next == if k == t.1 - 1 then t.0 else old(chain[k].next))
      && (forall k {:trigger chain[k].prev} :: 0 <= k < |chain| ==>
            chain[k].prev == if k == t.1 then t.0 else old(chain[k].prev))
      && first == (if t.1 == 0 then t.0 else old(first))
      && last == (if t.1 == |chain| then t.0 else old(last))
    }

    twostate lemma SplicedForward(t: (Vma, nat))
      requires t.1 <= |chain| && t.0 !in chain && Between(t) && old(Forward(chain))
      ensures Forward(Insert(chain, t.1, t.0))
    {
      var s := Insert(chain, t.1, t.0);
      forall k | 0 <= k < |s|
        ensures s[k].next == At(s, k + 1)
      {
        assert s[k] == if k < t.1 then chain[k] else if k == t.1 then t.0 else chain[k - 1];
      }
    }

    twostate lemma SplicedBackward(t: (Vma, nat))
      requires t.1 <= |chain| && Between(t) && old(Linked(chain))
      ensures Backward(Insert(chain, t.1, t.0)) && Insert(chain, t.1, t.0)[0].prev == null
    {
      var s := Insert(chain, t.1, t.0);
      forall k | 0 <= k < |s|
        ensures s[k].prev == At(s, k - 1)
      {
        assert s[k] == if k < t.1 then chain[k] else if k == t.1 then t.0 else chain[k - 1];
      }
    }

    twostate lemma Spliced(t: (Vma, nat))
      requires t.1 <= |chain| && t.0 !in chain && Between(t) && old(ListOk())
      ensures Linked(Insert(chain, t.1, t.0))
      ensures first == At(Insert(chain, t.1, t.0), 0) && last == At(Insert(chain, t.1, t.0), |chain|)
    {
      hide Forward, Backward;
      SplicedForward(t);
      SplicedBackward(t);
    }

    /** The high branch's insertion before the first region. It leaves the new region's back link and
        the list's last pointer as they are. */
    method InsertHead(vma: Vma)
      requires ListOk() && vma !in chain
      modifies this`first, this`chain, vma`next, Elems(chain)`prev
      ensures chain == Insert(old(chain), 0, vma) && first == vma && Forward(chain) && Backward(chain)
      ensures vma.prev == old(vma.prev) && last == old(last)
      ensures ListOk() <==> old(vma.prev) == null && old(chain) != []
    {
      vma.next := first;
      if first != null {
        first.prev := vma;
      }
      first := vma;
      chain := Insert(chain, 0, vma);
    }

    lemma InsertRegion(s: seq<Vma>, i: nat, vma: Vma)
      requires i <= |s|
      ensures RegionsOf(Insert(s, i, vma)) == Insert(RegionsOf(s), i, Region(vma.start, vma.size))
    {
      var a, b := RegionsOf(Insert(s, i, vma)), Insert(RegionsOf(s), i, Region(vma.start, vma.size));
      forall k | 0 <= k < |a|
        ensures a[k] == b[k]
      {
      }
    }

    /** The walk up for a low region: the first entry that leaves enough room below it, or the end. */
    method SearchUp(size: int) returns (addr: int, vma: Vma?, ghost i: nat)
      requires Valid() && 0 < size
      ensures i <= |chain| && vma == At(chain, i)
      ensures lower <= addr && AllFrom(Regions(), lower, upper, size, addr)
      ensures i > 0 ==> Regions()[i - 1].End() <= addr
      ensures vma != null ==> addr + size <= vma.start
      ensures PageAligned(Regions()) && lower % PAGE_SIZE == 0 ==> addr % PAGE_SIZE == 0
    {
      hide Ordered, Feasible, PageAligned, AllFrom, AllUpTo;
      ghost var rs := Regions();
      LimitsBound(rs, lower, upper, size);
      addr, vma, i := lower, first, 0;
      while vma != null && vma.start < addr + size
        invariant i <= |chain| && vma == At(chain, i)
        invariant lower <= addr && AllFrom(rs, lower, upper, size, addr)
        invariant i > 0 ==> rs[i - 1].End() <= addr
        invariant PageAligned(rs) && lower % PAGE_SIZE == 0 ==> addr % PAGE_SIZE == 0
        decreases |chain| - i
      {
        assert rs[i] == Region(vma.start, vma.size);
        if PageAligned(rs) { AlignedSteps(rs, i, size); }
        RegionBounds(rs, lower, upper, i);
        StepUp(rs, lower, upper, size, i, addr);
        addr := vma.start + vma.size;
        vma, i := vma.next, i + 1;
      }
    }

    /** The walk down for a high region: the last entry that leaves enough room above it, or none. */
    method SearchDown(size: int) returns (addr: int, vma: Vma?, ghost i: int)
      requires Valid() && 0 < size
      ensures -1 <= i < |chain| && vma == At(chain, i)
      ensures addr + size <= upper && AllUpTo(Regions(), lower, upper, size, addr)
      ensures i + 1 < |chain| ==> addr + size <= Regions()[i + 1].start
      ensures vma != null ==> vma.start + vma.size <= addr
      ensures PageAligned(Regions()) && upper % PAGE_SIZE == 0 && size % PAGE_SIZE == 0 ==> addr % PAGE_SIZE == 0
    {
      hide Ordered, Feasible, PageAligned, AllFrom, AllUpTo;
      ghost var rs := Regions();
      LimitsBound(rs, lower, upper, size);
      addr, vma, i := upper - size, last, |chain| - 1;
      while vma != null && addr < vma.start + vma.size
        invariant -1 <= i < |chain| && vma == At(chain, i)
        invariant addr + size <= upper && AllUpTo(rs, lower, upper, size, addr)
        invariant i + 1 < |chain| ==> addr + size <= rs[i + 1].start
        invariant PageAligned(rs) && upper % PAGE_SIZE == 0 && size % PAGE_SIZE == 0 ==> addr % PAGE_SIZE == 0
        decreases i
      {
        assert rs[i] == Region(vma.start, vma.size);
        if PageAligned(rs) { AlignedSteps(rs, i, size); }
        RegionBounds(rs, lower, upper, i);
        StepDown(rs, lower, upper, size, i, addr);
        addr := vma.start - size;
        vma, i := vma.prev, i - 1;
      }
    }

    /** The fixed-address walk: the first entry that does not start below `addr`. */
    method SearchFrom(addr: int) returns (vma: Vma?, ghost i: nat)
      requires Valid()
      ensures i <= |chain| == |Regions()| && vma == At(chain, i) && FirstFrom(Regions(), addr, i)
      ensures vma != null ==> vma.start == Regions()[i].start
    {
      vma, i := first, 0;
      while vma != null && vma.start < addr
        invariant i <= |chain| && vma == At(chain, i)
        invariant forall k :: 0 <= k < i ==> Regions()[k].start < addr
        decreases |chain| - i
      {
        vma, i := vma.next, i + 1;
      }
    }

    twostate lemma RegionsFrame(s: seq<Vma>)
      requires forall x :: x in s ==> x.start == old(x.start) && x.size == old(x.size)
      ensures RegionsOf(s) == old(RegionsOf(s))
    {
      assert forall k :: 0 <= k < |s| ==> s[k] in s;
    }

    twostate lemma ListFrame()
      requires old(ListOk()) && chain == old(chain) && first == old(first) && last == old(last)
      requires forall x :: x in chain ==> x.next == old(x.next) && x.prev == old(x.prev)
      ensures ListOk()
    {
      assert forall k :: 0 <= k < |chain| ==> chain[k] in chain;
    }

    /** The new region is linked in, then its fields are set. */
    method Place(vma: Vma, next: Vma?, addr: int, size: int, ghost i: nat)
      requires ListOk() && vma !in chain && i <= |chain| && next == At(chain, i)
      modifies this`first, this`last, this`chain, vma, Elems(chain)`next, Elems(chain)`prev
      ensures ListOk() && |old(Regions())| == |old(chain)| && Regions() == Insert(old(Regions()), i, Region(addr, size))
    {
      hide Linked, Insert, RegionsOf;
      ghost var s := chain;
      InsertPrevious(vma, next, i);
      label In:
      vma.start := addr;
      vma.size := size;
      ListFrame@In();
      InsertRegion(s, i, vma);
      RegionsFrame(s);
    }

    /** Lowest-fit placement. */
    method AllocateLow(size: int) returns (r: Option<int>, ghost i: nat)
      requires Valid() && 0 < size
      modifies this`first, this`last, this`chain, Elems(chain)`next, Elems(chain)`prev
      ensures Valid() && Lowest(old(Regions()), lower, upper, size, r)
      ensures r.None? ==> Regions() == old(Regions())
      ensures r.Some? ==> i <= |old(Regions())| && Regions() == Insert(old(Regions()), i, Region(r.value, size))
      ensures r.Some? && PageAligned(old(Regions())) && lower % PAGE_SIZE == 0 ==> r.value % PAGE_SIZE == 0
    {
      hide ListOk, Ordered, Insert, Feasible, RegionsOf, PageAligned;
      ghost var rs := Regions();
      var addr, vma;
      addr, vma, i := SearchUp(size);
      if vma == null && addr + size > upper {
        NoneAbove(rs, lower, upper, size, addr);
        return None, 0;
      }
      LowFits(rs, i, addr, size);
      var buf := new Vma();
      Place(buf, vma, addr, size, i);
      r := Some(addr);
    }

    lemma NoneAbove(rs: seq<Region>, lo: int, hi: int, size: int, a: int)
      requires AllFrom(rs, lo, hi, size, a) && a + size > hi
      ensures forall b :: !Feasible(rs, lo, hi, b, size)
    {
    }

    lemma LowFits(rs: seq<Region>, i: nat, addr: int, size: int)
      requires Ordered(rs, lower, upper) && 0 < size && i <= |rs| && AllFrom(rs, lower, upper, size, addr)
      requires lower <= addr && (i > 0 ==> rs[i - 1].End() <= addr)
      requires if i < |rs| then addr + size <= rs[i].start else addr + size <= upper
      ensures Lowest(rs, lower, upper, size, Some(addr))
      ensures Ordered(Insert(rs, i, Region(addr, size)), lower, upper)
    {
      GapFeasible(rs, lower, upper, i, addr, size);
      InsertOrdered(rs, lower, upper, i, Region(addr, size));
    }

    /** Highest-fit placement. The region always lands at the highest feasible address; the list stays
        well formed unless it went in front of all others, and then exactly when there were others and
        the recycled buffer's back link happened to be null. */
    method AllocateHigh(size: int) returns (r: Option<int>, ghost i: nat)
      requires Valid() && 0 < size
      modifies this`first, this`last, this`chain, Elems(chain)`next, Elems(chain)`prev
      ensures Highest(old(Regions()), lower, upper, size, r)
      ensures r.None? ==> Valid() && Regions() == old(Regions())
      ensures r.Some? ==> i <= |old(Regions())| && Regions() == Insert(old(Regions()), i, Region(r.value, size))
      ensures Ordered(Regions(), lower, upper) && |Regions()| == |chain|
      ensures r.Some? ==> (Valid() <==> i > 0 || (|chain| > 1 && chain[0].prev == null))
      ensures r.Some? && i == 0 ==> last == old(last)
      ensures r.Some? ==> (i > 0 <==> FitsAbove(old(Regions()), lower, upper, size))
      ensures r.Some? && PageAligned(old(Regions())) && upper % PAGE_SIZE == 0 && size % PAGE_SIZE == 0 ==>
        r.value % PAGE_SIZE == 0
    {
      hide ListOk, Ordered, Insert, Feasible, RegionsOf, PageAligned;
      ghost var rs := Regions();
      var addr, vma;
      ghost var k;
      addr, vma, k := SearchDown(size);
      if vma == null && addr < lower {
        NoneBelow(rs, lower, upper, size, addr);
        return None, 0;
      }
      i := k + 1;
      RegionAt(k);
      HighFits(rs, i, addr, size);
      HighestPlace(rs, lower, upper, size, i, addr);
      var buf := new Vma();
      if vma != null {
        NextOf(vma, k);
        Place(buf, vma.next, addr, size, i);
      } else {
        PlaceHead(buf, addr, size);
      }
      r := Some(addr);
    }

    lemma RegionAt(k: int)
      ensures 0 <= k < |chain| ==> Regions()[k] == Region(chain[k].start, chain[k].size)
    {
    }

    lemma NextOf(vma: Vma, k: int)
      requires ListOk() && 0 <= k < |chain| && chain[k] == vma
      ensures vma.next == At(chain, k + 1)
    {
    }

    method PlaceHead(vma: Vma, addr: int, size: int)
      requires ListOk() && vma !in chain
      modifies this`first, this`chain, vma, Elems(chain)`prev
      ensures Regions() == Insert(old(Regions()), 0, Region(addr, size)) && |chain| == |old(chain)| + 1
      ensures last == old(last) && (ListOk() <==> |chain| > 1 && chain[0].prev == null)
    {
      hide Linked, Insert, RegionsOf;
      ghost var s := chain;
      InsertHead(vma);
      InsertRegion(s, 0, vma);
      label In:
      vma.start := addr;
      vma.size := size;
      HeadOf(s, vma);
      LinksFrame@In(chain);
      InsertRegion(s, 0, vma);
      RegionsFrame(s);
    }

    lemma HeadOf(s: seq<Vma>, vma: Vma)
      ensures Insert(s, 0, vma)[0] == vma
    {
    }

    twostate lemma LinksFrame(s: seq<Vma>)
      requires forall x :: x in s ==> x.next == old(x.next) && x.prev == old(x.prev)
      ensures Linked(s) == old(Linked(s))
    {
      assert forall k :: 0 <= k < |s| ==> s[k] in s;
    }

    lemma NoneBelow(rs: seq<Region>, lo: int, hi: int, size: int, a: int)
      requires AllUpTo(rs, lo, hi, size, a) && a < lo
      ensures forall b :: !Feasible(rs, lo, hi, b, size)
    {
    }

    lemma HighFits(rs: seq<Region>, i: nat, addr: int, size: int)
      requires Ordered(rs, lower, upper) && 0 < size && i <= |rs| && AllUpTo(rs, lower, upper, size, addr)
      requires addr + size <= upper && (i < |rs| ==> addr + size <= rs[i].start)
      requires if i > 0 then rs[i - 1].End() <= addr else lower <= addr
      ensures Highest(rs, lower, upper, size, Some(addr))
      ensures Ordered(Insert(rs, i, Region(addr, size)), lower, upper)
    {
      assert i > 0 ==> lower <= rs[i - 1].start < rs[i - 1].End();
      GapFeasible(rs, lower, upper, i, addr, size);
      InsertOrdered(rs, lower, upper, i, Region(addr, size));
    }

    /** Fixed-address placement. Only the successor is checked: the region is placed whenever it clears
        the limits and the first region not below it, and the list stays in order exactly when it also
        clears the region before it. A free range is always accepted. */
    method AllocateFixed(addr: int, size: int) returns (r: Option<int>, ghost i: nat)
      requires Valid() && 0 < size
      modifies this`first, this`last, this`chain, Elems(chain)`next, Elems(chain)`prev
      ensures i <= |old(Regions())| && FirstFrom(old(Regions()), addr, i)
      ensures r.Some? <==>
        (lower <= addr && addr + size <= upper && (i < |old(Regions())| ==> addr + size <= old(Regions())[i].start))
      ensures r.Some? ==> r.value == addr && Regions() == Insert(old(Regions()), i, Region(addr, size))
      ensures r.None? ==> Regions() == old(Regions())
      ensures Valid() <==> (r.Some? && i > 0 ==> old(Regions())[i - 1].End() <= addr)
      ensures r.Some? && Valid() <==> Feasible(old(Regions()), lower, upper, addr, size)
      ensures r.Some? && PageAligned(old(Regions())) && size % PAGE_SIZE == 0 ==>
        (PageAligned(Regions()) <==> addr % PAGE_SIZE == 0)
    {
      hide ListOk, Ordered, Insert, Feasible, RegionsOf;
      ghost var rs := Regions();
      var vma;
      vma, i := SearchFrom(addr);
      FixedFits(rs, i, addr, size);
      if PageAligned(rs) && size % PAGE_SIZE == 0 { AlignedInsert(rs, i, Region(addr, size)); }
      if addr < lower || addr + size > upper {
        return None, i;
      }
      if vma != null && addr + size > vma.start {
        return None, i;
      }
      var buf := new Vma();
      Place(buf, vma, addr, size, i);
      r := Some(addr);
    }

    /** Entry `i` is the first that does not start below `addr`. */
    static ghost predicate FirstFrom(rs: seq<Region>, addr: int, i: nat)
      requires i <= |rs|
    {
      (forall k :: 0 <= k < i ==> rs[k].start < addr) && (i < |rs| ==> addr <= rs[i].start)
    }

    lemma FixedFits(rs: seq<Region>, i: nat, addr: int, size: int)
      requires Ordered(rs, lower, upper) && 0 < size && i <= |rs| && FirstFrom(rs, addr, i)
      ensures Feasible(rs, lower, upper, addr, size) <==>
        lower <= addr && addr + size <= upper && (i > 0 ==> rs[i - 1].End() <= addr) && (i < |rs| ==> addr + size <= rs[i].start)
      ensures lower <= addr && addr + size <= upper && (i < |rs| ==> addr + size <= rs[i].start) ==>
        (Ordered(Insert(rs, i, Region(addr, size)), lower, upper) <==> (i > 0 ==> rs[i - 1].End() <= addr))
    {
      if Feasible(rs, lower, upper, addr, size) {
        assert i > 0 ==> !Overlaps(rs[i - 1], addr, size);
        assert i < |rs| ==> !Overlaps(rs[i], addr, size);
      } else if lower <= addr && addr + size <= upper && (i > 0 ==> rs[i - 1].End() <= addr) && (i < |rs| ==> addr + size <= rs[i].start) {
        GapFeasible(rs, lower, upper, i, addr, size);
      }
      if lower <= addr && addr + size <= upper {
        InsertOrdered(rs, lower, upper, i, Region(addr, size));
      }
    }

    /** MmGetVmaByAddress: the region that holds an address, found from the last region back. */
    method GetVmaByAddress(addr: int) returns (vma: Vma?, ghost i: int)
      requires Valid() || last == null
      ensures last == null ==> vma == null
      ensures Valid() ==> (vma == null <==> forall r :: r in Regions() ==> !(r.start <= addr < r.End()))
      ensures vma != null ==> 0 <= i < |chain| && chain[i] == vma && vma.start <= addr < vma.start + vma.size
      ensures vma != null ==> forall k :: 0 <= k < |Regions()| && Regions()[k].start <= addr < Regions()[k].End() ==> k == i
    {
      if last == null {
        return null, -1;
      }
      vma, i := SearchBack(addr);
    }

    /** The walk from the last region back. */
    method SearchBack(addr: int) returns (vma: Vma?, ghost i: int)
      requires Valid()
      ensures vma == null <==> forall r :: r in Regions() ==> !(r.start <= addr < r.End())
      ensures vma != null ==> 0 <= i < |chain| && chain[i] == vma && vma.start <= addr < vma.start + vma.size
      ensures vma != null ==> forall k :: 0 <= k < |Regions()| && Regions()[k].start <= addr < Regions()[k].End() ==> k == i
    {
      hide Ordered, ListOk, RegionsOf;
      ListEnds();
      ghost var rs := Regions();
      vma, i := last, |chain| - 1;
      while vma != null && !(vma.start <= addr < vma.start + vma.size)
        invariant -1 <= i < |chain| && vma == At(chain, i)
        invariant forall k :: i < k < |rs| ==> !(rs[k].start <= addr < rs[k].End())
        decreases i
      {
        PrevAt(vma, i);
        vma, i := vma.prev, i - 1;
      }
      if vma != null {
        assert rs[i] in rs;
        forall k | 0 <= k < |rs| && rs[k].start <= addr < rs[k].End()
          ensures k == i
        {
          CoverUnique(rs, lower, upper, i, k, addr);
        }
      }
    }

    lemma ListEnds()
      requires Valid()
      ensures last == At(chain, |chain| - 1) && Ordered(Regions(), lower, upper)
    {
    }

    lemma PrevAt(vma: Vma, k: int)
      requires Valid() && 0 <= k < |chain| && chain[k] == vma
      ensures vma.prev == At(chain, k - 1)
    {
    }

    /** A region placed high in an empty space is on the list but not found by address: the walk starts
        from the last pointer, which that placement does not set. */
    method LostRegion(size: int) returns (r: Option<int>, found: Vma?)
      requires Valid() && chain == [] && 0 < size <= upper - lower
      modifies this`first, this`last, this`chain, Elems(chain)`next, Elems(chain)`prev
      ensures r == Some(upper - size) && Regions() == [Region(upper - size, size)]
      ensures found == null && !Valid()
    {
      ghost var i;
      assert Feasible([], lower, upper, upper - size, size);
      r, i := AllocateHigh(size);
      ghost var j;
      found, j := GetVmaByAddress(r.value);
    }

    /** MmFreeVirtualMemory: the region that holds the address leaves the list. */
    method Free(addr: int) returns (size: int, ghost i: int)
      requires Valid()
      modifies this`first, this`last, this`chain, Elems(chain)`next, Elems(chain)`prev
      ensures Valid()
      ensures if exists r :: r in old(Regions()) && r.start <= addr < r.End() then
          && 0 <= i < |old(Regions())| && old(Regions())[i].start <= addr < old(Regions())[i].End()
          && size == old(Regions())[i].size && Regions() == Without(old(Regions()), i)
        else size == 0 && Regions() == old(Regions())
    {
      hide ListOk, Ordered, Without, RegionsOf;
      var vma;
      vma, i := GetVmaByAddress(addr);
      if vma == null {
        return 0, i;
      }
      RegionAt(i);
      WithoutOrdered(Regions(), lower, upper, i);
      Unlink(vma, i);
      size := vma.size;
    }

    /** MmAllocateVirtualMemory, apart from the attributes it only stores: a request below one page or not
        in whole pages is refused; the flags choose the placement. */
    method Allocate(addr: int, size: int, random: bool, highMem: bool) returns (r: Option<int>, ghost i: nat)
      requires Valid() && 0 <= size
      modifies this`first, this`last, this`chain, Elems(chain)`next, Elems(chain)`prev
      ensures size < 4096 || size % 4096 != 0 ==> r.None?
      ensures r.None? ==> Valid() && Regions() == old(Regions())
      ensures r.Some? ==> i <= |old(Regions())| && Regions() == Insert(old(Regions()), i, Region(r.value, size))
      ensures 4096 <= size && size % 4096 == 0 && random ==>
        if highMem then Highest(old(Regions()), lower, upper, size, r) else Lowest(old(Regions()), lower, upper, size, r)
      ensures 4096 <= size && size % 4096 == 0 && !random ==>
        (r.Some? && Valid() <==> Feasible(old(Regions()), lower, upper, addr, size)) && (r.Some? ==> r.value == addr)
      ensures random && !highMem ==> Valid()
      ensures random && highMem && r.Some? ==> (Valid() <==> i > 0 || (|chain| > 1 && chain[0].prev == null))
      ensures random && highMem && r.Some? ==> (i > 0 <==> FitsAbove(old(Regions()), lower, upper, size))
    {
      hide ListOk, Ordered, Insert, Feasible, RegionsOf, Highest, Lowest;
      if size < PAGE_SIZE || size % PAGE_SIZE != 0 {
        return None, 0;
      }
      if random {
        if highMem {
          r, i := AllocateHigh(size);
        } else {
          r, i := AllocateLow(size);
        }
      } else {
        r, i := AllocateFixed(addr, size);
      }
    }

    method Unlink(vma: Vma, ghost i: nat)
      requires ListOk() && i < |chain| && chain[i] == vma
      modifies this`first, this`last, this`chain, Elems(chain)`next, Elems(chain)`prev
      ensures ListOk() && i < |old(Regions())| && Regions() == Without(old(Regions()), i)
    {
      hide Linked, RegionsOf, Without;
      ghost var s := chain;
      Unchain(vma, i);
      chain := Without(chain, i);
      RegionsFrame(s);
      WithoutRegion(s, i);
    }

    lemma WithoutRegion(s: seq<Vma>, i: nat)
      requires i < |s|
      ensures RegionsOf(Without(s, i)) == Without(RegionsOf(s), i)
    {
      var a, b := RegionsOf(Without(s, i)), Without(RegionsOf(s), i);
      forall k | 0 <= k < |a|
        ensures a[k] == b[k]
      {
      }
    }

    method Unchain(vma: Vma, ghost i: nat)
      requires ListOk() && i < |chain| && chain[i] == vma
      modifies this`first, this`last, Elems(chain)`next, Elems(chain)`prev
      ensures Linked(Without(chain, i))
      ensures first == At(Without(chain, i), 0) && last == At(Without(chain, i), |chain| - 2)
    {
      if vma.prev == null { first := vma.next; }
      if vma.next == null { last := vma.prev; }
      Unhook(vma, chain, i);
    }
  }

  /** Joins the neighbours of entry `i`. */
  method Unhook(vma: Vma, ghost s: seq<Vma>, ghost i: nat)
    requires Linked(s) && i < |s| && s[i] == vma
    modifies Elems(s)`next, Elems(s)`prev
    ensures Linked(Without(s, i))
  {
    assert vma.prev == At(s, i - 1) && vma.next == At(s, i + 1);
    if vma.prev != null { vma.prev.next := vma.next; }
    if vma.next != null { vma.next.prev := vma.prev; }
  }
}
