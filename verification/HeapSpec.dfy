/** The kernel heap as a list of extents that tile one region: what allocating and freeing do to it. */
module HeapSpec {
  import opened Arith

  const HEADER: nat := 24          // sizeof(node_t) on a 32-bit machine
  const MAX_HASH_ENTRY: nat := 15
  const MIN_SPLIT: nat := 32
  const TWO31: nat := 0x8000_0000

  /** A header at `addr` with `size` usable bytes behind it. */
  datatype Block = Block(addr: nat, size: nat, free: bool) {
    function End(): nat { addr + HEADER + size }
  }

  /** Position of the highest bit. */
  function HighBit(k: nat): nat {
    if k <= 1 then 0 else 1 + HighBit(k / 2)
  }

  /** Bin of a block of `k` bytes, header included. */
  function HashIndex(k: nat): (i: nat)
    ensures i < MAX_HASH_ENTRY
  {
    var i := HighBit(k / 32);
    if i >= MAX_HASH_ENTRY then MAX_HASH_ENTRY - 1 else i
  }

  lemma {:induction false} HighBitMonotone(a: nat, b: nat)
    requires a <= b
    ensures HighBit(a) <= HighBit(b)
    decreases b
  {
    if a > 1 {
      HighBitMonotone(a / 2, b / 2);
    }
  }

  /** A bigger block is never in a lower bin, so searching the bins upward misses nothing. */
  lemma HashIndexMonotone(a: nat, b: nat)
    requires a <= b
    ensures HashIndex(a) <= HashIndex(b)
  {
    HighBitMonotone(a / 32, b / 32);
  }

  lemma {:induction false} HighBitBounds(k: nat)
    requires 0 < k
    ensures Pow2(HighBit(k)) <= k < 2 * Pow2(HighBit(k))
  {
    if k > 1 {
      HighBitBounds(k / 2);
    }
  }

  /** Bin `i` holds the blocks of 2^(i+5) up to 2^(i+6) bytes; the last bin has no upper limit. */
  lemma BinRange(k: nat)
    requires 32 <= k
    ensures 32 * Pow2(HashIndex(k)) <= k
    ensures HashIndex(k) < MAX_HASH_ENTRY - 1 ==> k < 64 * Pow2(HashIndex(k))
  {
    HighBitBounds(k / 32);
    if HighBit(k / 32) >= MAX_HASH_ENTRY {
      Pow2Monotone(MAX_HASH_ENTRY - 1, HighBit(k / 32));
    }
  }

  lemma {:induction false} HighBitAtLeast(k: nat, n: nat)
    requires 0 < k
    ensures n <= HighBit(k) <==> Pow2(n) <= k
    decreases k
  {
    HighBitBounds(k);
    if n <= HighBit(k) {
      Pow2Monotone(n, HighBit(k));
    } else {
      Pow2Monotone(HighBit(k) + 1, n);
    }
  }

  /** mm_init_block files its one block in the last bin; that is the block's bin from 512 KiB on. */
  lemma InitialBin(len: nat)
    requires HEADER <= len
    ensures HashIndex(len) == MAX_HASH_ENTRY - 1 <==> 0x8_0000 <= len
  {
    if 32 <= len {
      HighBitAtLeast(len / 32, 14);
      assert Pow2(14) == 0x4000 by {
        assert Pow2(7) == 128;
        assert Pow2(14) == 128 * Pow2(7);
      }
    }
  }

  lemma {:induction false} Pow2Monotone(a: nat, b: nat)
    requires a <= b
    ensures Pow2(a) <= Pow2(b)
    decreases b
  {
    if a < b {
      Pow2Monotone(a, b - 1);
    }
  }

  // ----- tiling -----

  /** The blocks follow each other without gap or overlap from `base` to `end`. */
  ghost predicate Tiles(bs: seq<Block>, base: nat, end: nat) {
    && 0 < |bs|
    && bs[0].addr == base
    && bs[|bs| - 1].End() == end
    && forall i {:trigger bs[i].End()} :: 0 <= i < |bs| - 1 ==> bs[i].End() == bs[i + 1].addr
  }

  /** Coalescing leaves no two free neighbours. */
  ghost predicate Coalesced(bs: seq<Block>) {
    forall i {:trigger bs[i].free} :: 0 <= i < |bs| - 1 ==> !(bs[i].free && bs[i + 1].free)
  }

  ghost predicate Inv(bs: seq<Block>, base: nat, end: nat) {
    Tiles(bs, base, end) && Coalesced(bs)
  }

  /** Two blocks never overlap, headers included. */
  lemma {:induction false} BlocksApart(bs: seq<Block>, base: nat, end: nat, i: nat, j: nat)
    requires Tiles(bs, base, end) && i < j < |bs|
    ensures bs[i].End() <= bs[j].addr
    decreases j
  {
    if i < j - 1 {
      BlocksApart(bs, base, end, i, j - 1);
    }
    assert bs[j - 1].End() == bs[j].addr;
  }

  lemma WithinRegion(bs: seq<Block>, base: nat, end: nat, i: nat)
    requires Tiles(bs, base, end) && i < |bs|
    ensures base <= bs[i].addr && bs[i].End() <= end
  {
    if i > 0 { BlocksApart(bs, base, end, 0, i); }
    if i < |bs| - 1 { BlocksApart(bs, base, end, i, |bs| - 1); }
  }

  /** Does an address lie in a block that has been handed out, header included? */
  ghost predicate HandedOut(bs: seq<Block>, addr: nat) {
    exists b :: b in bs && b.addr <= addr < b.End() && !b.free
  }

  // ----- the operations -----

  /** Block `i` handed out for a request of `siz` bytes, its tail split off when it is worth a header. */
  function AllocAt(bs: seq<Block>, i: nat, siz: nat): (r: seq<Block>)
    requires i < |bs| && siz <= bs[i].size
    ensures |r| >= |bs|
  {
    bs[..i] + Carved(bs[i], siz) + bs[i + 1..]
  }

  /** The blocks after a cut, one by one. */
  lemma CutInTwo(bs: seq<Block>, i: nat, siz: nat)
    requires i < |bs| && siz + MIN_SPLIT <= bs[i].size
    ensures var r, b := AllocAt(bs, i, siz), bs[i];
      && |r| == |bs| + 1 && r[i] == Block(b.addr, siz, false)
      && r[i + 1] == Block(b.addr + HEADER + siz, b.size - siz - HEADER, true)
      && (forall k :: 0 <= k < i ==> r[k] == bs[k]) && (forall k :: i + 1 < k < |r| ==> r[k] == bs[k - 1])
  {
  }

  /** No free block of at least `siz` bytes belongs into a bin below `j`. */
  ghost predicate NoLowerBin(s: seq<Block>, siz: nat, j: nat) {
    forall b :: b in s && b.free && siz <= b.size ==> j <= HashIndex(b.size + HEADER)
  }

  /** An allocation of `siz` bytes takes block `i`, from the lowest bin that has one big enough. */
  ghost predicate Granted(s: seq<Block>, i: nat, siz: nat, p: nat, s': seq<Block>)
    requires 0 < siz
  {
    && i < |s| && s[i].free && siz <= s[i].size && p == s[i].addr + HEADER && s' == AllocAt(s, i, siz)
    && NoLowerBin(s, siz, HashIndex(s[i].size + HEADER))
  }

  /** What is granted, in numbers: the bytes behind a header of 24, at least as many as asked for and fewer than 32
      more; what is cut off is free and ends where the block ended. */
  lemma GrantedInNumbers(s: seq<Block>, i: nat, siz: nat, p: nat, s': seq<Block>)
    requires 0 < siz && Granted(s, i, siz, p, s')
    ensures i < |s'| && s[i].addr + 24 == p && s'[i] == Block(p - 24, s'[i].size, false) && siz <= s'[i].size < siz + 32
    ensures if s[i].size < siz + 32 then |s'| == |s| && s'[i].size == s[i].size
      else |s'| == |s| + 1 && s'[i].size == siz && s'[i + 1] == Block(p + siz, s[i].size - siz - 24, true)
    ensures forall k :: 0 <= k < i ==> s'[k] == s[k]
    ensures forall k :: i < k < |s| ==> s'[k + |s'| - |s|] == s[k]
  {
  }

  function Carved(b: Block, siz: nat): (r: seq<Block>)
    requires siz <= b.size
    ensures 0 < |r|
  {
    if b.size - siz >= MIN_SPLIT then
      [Block(b.addr, siz, false), Block(b.addr + HEADER + siz, b.size - siz - HEADER, true)]
    else [b.(free := false)]
  }

  /** Block `i` swallows its successor. */
  function MergeAt(bs: seq<Block>, i: nat): (r: seq<Block>)
    requires i + 1 < |bs|
    ensures |r| == |bs| - 1
  {
    bs[..i] + [bs[i].(size := bs[i].size + bs[i + 1].size + HEADER)] + bs[i + 2..]
  }

  /** The first merge of mm_free: with a free predecessor. */
  function JoinPrev(bs: seq<Block>, i: nat): seq<Block>
    requires i < |bs|
  {
    if i > 0 && bs[i - 1].free then MergeAt(bs, i - 1) else bs
  }

  function PrevIndex(bs: seq<Block>, i: nat): (k: nat)
    requires i < |bs|
    ensures k < |JoinPrev(bs, i)|
  {
    if i > 0 && bs[i - 1].free then i - 1 else i
  }

  function JoinNext(bs: seq<Block>, i: nat): seq<Block>
    requires i < |bs|
  {
    if i + 1 < |bs| && bs[i + 1].free then MergeAt(bs, i) else bs
  }

  /** Block `i` freed and merged with free neighbours. */
  function FreeAt(bs: seq<Block>, i: nat): seq<Block>
    requires i < |bs|
  {
    var marked := bs[i := bs[i].(free := true)];
    JoinNext(JoinPrev(marked, i), PrevIndex(marked, i))
  }

  /** Coalesced except that block `i` may be free beside free neighbours. */
  ghost predicate CoalescedBut(bs: seq<Block>, i: nat) {
    forall k {:trigger bs[k].free} :: 0 <= k < |bs| - 1 && k != i && k + 1 != i ==> !(bs[k].free && bs[k + 1].free)
  }

  lemma NotBothFree(bs: seq<Block>, i: nat, k: nat)
    requires CoalescedBut(bs, i) && k + 1 < |bs| && k != i && k + 1 != i
    ensures !(bs[k].free && bs[k + 1].free)
  {
  }

  lemma AllocKeepsInv(bs: seq<Block>, base: nat, end: nat, i: nat, siz: nat)
    requires Inv(bs, base, end) && i < |bs| && bs[i].free && siz <= bs[i].size
    ensures Inv(AllocAt(bs, i, siz), base, end)
    ensures !AllocAt(bs, i, siz)[i].free && AllocAt(bs, i, siz)[i].addr == bs[i].addr
    ensures siz <= AllocAt(bs, i, siz)[i].size < siz + MIN_SPLIT
  {
    var r := AllocAt(bs, i, siz);
    var d := |r| - |bs|;
    assert forall k :: 0 <= k < i ==> r[k] == bs[k];
    assert forall k :: i + d < k < |r| ==> r[k] == bs[k - d];
    forall k | 0 <= k < |r| - 1
      ensures r[k].End() == r[k + 1].addr && !(r[k].free && r[k + 1].free)
    {
      if k < i { assert bs[k].End() == bs[k + 1].addr && !(bs[k].free && bs[k + 1].free); }
      if k >= i + d { assert bs[k - d].End() == bs[k - d + 1].addr && !(bs[k - d].free && bs[k - d + 1].free); }
    }
  }

  lemma MergeKeepsTiles(bs: seq<Block>, base: nat, end: nat, i: nat)
    requires Tiles(bs, base, end) && i + 1 < |bs|
    ensures Tiles(MergeAt(bs, i), base, end)
  {
    var r := MergeAt(bs, i);
    assert bs[i].End() == bs[i + 1].addr;
    assert forall k :: 0 <= k < i ==> r[k] == bs[k];
    assert forall k :: i < k < |r| ==> r[k] == bs[k + 1];
    forall k | 0 <= k < |r| - 1
      ensures r[k].End() == r[k + 1].addr
    {
      if k < i { assert bs[k].End() == bs[k + 1].addr; }
      else { assert bs[k + 1].End() == bs[k + 2].addr; }
    }
  }

  lemma JoinPrevEffect(bs: seq<Block>, base: nat, end: nat, i: nat)
    requires Tiles(bs, base, end) && i < |bs| && bs[i].free && CoalescedBut(bs, i)
    ensures Tiles(JoinPrev(bs, i), base, end)
    ensures var r, k := JoinPrev(bs, i), PrevIndex(bs, i);
      r[k].free && CoalescedBut(r, k) && (k > 0 ==> !r[k - 1].free)
  {
    var r, k := JoinPrev(bs, i), PrevIndex(bs, i);
    if i > 0 && bs[i - 1].free {
      MergeKeepsTiles(bs, base, end, i - 1);
      forall m | 0 <= m < |r| - 1 && m != k && m + 1 != k
        ensures !(r[m].free && r[m + 1].free)
      {
        if m < k { assert !(bs[m].free && bs[m + 1].free); } else { assert !(bs[m + 1].free && bs[m + 2].free); }
      }
      if k > 0 { NotBothFree(bs, i, k - 1); }
    }
  }

  lemma JoinNextEffect(bs: seq<Block>, base: nat, end: nat, i: nat)
    requires Tiles(bs, base, end) && i < |bs| && bs[i].free && CoalescedBut(bs, i) && (i > 0 ==> !bs[i - 1].free)
    ensures Inv(JoinNext(bs, i), base, end)
  {
    var r := JoinNext(bs, i);
    if i + 1 < |bs| && bs[i + 1].free {
      MergeKeepsTiles(bs, base, end, i);
      forall m | 0 <= m < |r| - 1
        ensures !(r[m].free && r[m + 1].free)
      {
        if m < i { assert m + 1 != i ==> !(bs[m].free && bs[m + 1].free); }
        else { assert !(bs[m + 1].free && bs[m + 2].free); }
      }
    } else {
      forall m | 0 <= m < |r| - 1
        ensures !(r[m].free && r[m + 1].free)
      {
        if m != i && m + 1 != i { assert !(bs[m].free && bs[m + 1].free); }
      }
    }
  }

  lemma FreeKeepsInv(bs: seq<Block>, base: nat, end: nat, i: nat)
    requires Inv(bs, base, end) && i < |bs| && !bs[i].free
    ensures Inv(FreeAt(bs, i), base, end)
  {
    var marked := bs[i := bs[i].(free := true)];
    assert Tiles(marked, base, end) by {
      forall k | 0 <= k < |bs| - 1
        ensures marked[k].End() == marked[k + 1].addr
      {
        assert bs[k].End() == bs[k + 1].addr;
      }
    }
    assert CoalescedBut(marked, i) by {
      forall k | 0 <= k < |bs| - 1 && k != i && k + 1 != i
        ensures !(marked[k].free && marked[k + 1].free)
      {
        assert !(bs[k].free && bs[k + 1].free);
      }
    }
    JoinPrevEffect(marked, base, end, i);
    JoinNextEffect(JoinPrev(marked, i), base, end, PrevIndex(marked, i));
  }

  /** Freeing what was just allocated restores the list of extents. */
  lemma FreeUndoesAlloc(bs: seq<Block>, base: nat, end: nat, i: nat, siz: nat)
    requires Inv(bs, base, end) && i < |bs| && bs[i].free && siz <= bs[i].size
    ensures FreeAt(AllocAt(bs, i, siz), i) == bs
  {
    var r := AllocAt(bs, i, siz);
    var marked := r[i := r[i].(free := true)];
    if i > 0 { NotBothFree(bs, |bs|, i - 1); }
    if i + 1 < |bs| { NotBothFree(bs, |bs|, i); }
    assert JoinPrev(marked, i) == marked;
    if bs[i].size - siz >= MIN_SPLIT {
      assert marked[i + 1].free;
      assert MergeAt(marked, i) == bs;
    } else {
      assert marked == bs;
    }
  }

  /** With nothing handed out the heap is the single initial block. */
  lemma NothingLiveIsInitial(bs: seq<Block>, base: nat, end: nat)
    requires Inv(bs, base, end)
    requires forall i :: 0 <= i < |bs| ==> bs[i].free
    ensures bs == [Block(base, end - base - HEADER, true)]
  {
    var first := bs[0].free;
    if |bs| > 1 { assert false; }
  }

  // ----- whole runs -----

  datatype Op = Alloc(i: nat, siz: nat) | Free(i: nat)

  /** An allocation may use any free block that is big enough; a block handed out may be freed. */
  predicate Enabled(bs: seq<Block>, op: Op) {
    match op
    case Alloc(i, siz) => 0 < siz && i < |bs| && bs[i].free && siz <= bs[i].size
    case Free(i) => i < |bs| && !bs[i].free
  }

  function Apply(bs: seq<Block>, op: Op): seq<Block>
    requires Enabled(bs, op)
  {
    match op
    case Alloc(i, siz) => AllocAt(bs, i, siz)
    case Free(i) => FreeAt(bs, i)
  }

  ghost predicate IsRun(states: seq<seq<Block>>, ops: seq<Op>) {
    && |states| == |ops| + 1
    && forall k :: 0 <= k < |ops| ==> Enabled(states[k], ops[k]) && states[k + 1] == Apply(states[k], ops[k])
  }

  /** Every state of every run from the initial block tiles the region with no free neighbours. */
  lemma {:induction false} RunKeepsInv(states: seq<seq<Block>>, ops: seq<Op>, base: nat, end: nat, k: nat)
    requires IsRun(states, ops) && k < |states| && base + HEADER <= end
    requires states[0] == [Block(base, end - base - HEADER, true)]
    ensures Inv(states[k], base, end)
    decreases k
  {
    if k > 0 {
      RunKeepsInv(states, ops, base, end, k - 1);
      match ops[k - 1] {
        case Alloc(i, siz) => AllocKeepsInv(states[k - 1], base, end, i, siz);
        case Free(i) => FreeKeepsInv(states[k - 1], base, end, i);
      }
    }
  }

  /** Addresses of the blocks handed out. */
  function Live(bs: seq<Block>): set<nat> {
    set i | 0 <= i < |bs| && !bs[i].free :: bs[i].addr
  }

  lemma LiveJoinNext(bs: seq<Block>, i: nat)
    requires i < |bs| && bs[i].free
    ensures Live(JoinNext(bs, i)) == Live(bs)
  {
    var r := JoinNext(bs, i);
    if r != bs {
      LiveMerge(bs, i);
    }
  }

  lemma LiveMerge(bs: seq<Block>, i: nat)
    requires i + 1 < |bs| && bs[i].free && bs[i + 1].free
    ensures Live(MergeAt(bs, i)) == Live(bs)
  {
    var r := MergeAt(bs, i);
    forall a | a in Live(bs)
      ensures a in Live(r)
    {
      var k :| 0 <= k < |bs| && !bs[k].free && bs[k].addr == a;
      assert r[if k < i then k else k - 1] == bs[k];
    }
    forall a | a in Live(r)
      ensures a in Live(bs)
    {
      var k :| 0 <= k < |r| && !r[k].free && r[k].addr == a;
      assert k != i && r[k] == bs[if k < i then k else k + 1];
    }
  }

  /** A free takes exactly its own block off the live ones. */
  lemma LiveFree(bs: seq<Block>, base: nat, end: nat, i: nat)
    requires Inv(bs, base, end) && i < |bs| && !bs[i].free
    ensures Live(FreeAt(bs, i)) == Live(bs) - {bs[i].addr}
  {
    var marked := bs[i := bs[i].(free := true)];
    assert Live(marked) == Live(bs) - {bs[i].addr} by {
      forall k | 0 <= k < |bs| && k != i
        ensures bs[k].addr != bs[i].addr && marked[k] == bs[k]
      {
        if k < i { BlocksApart(bs, base, end, k, i); } else { BlocksApart(bs, base, end, i, k); }
      }
    }
    if i > 0 && marked[i - 1].free {
      LiveMerge(marked, i - 1);
    }
    LiveJoinNext(JoinPrev(marked, i), PrevIndex(marked, i));
  }

  /** Freeing every block handed out, in whatever order, leaves the single initial block. */
  lemma {:induction false} FreeingAllRestoresHeap(states: seq<seq<Block>>, ops: seq<Op>, base: nat, end: nat)
    requires IsRun(states, ops) && Inv(states[0], base, end) && base + HEADER <= end
    requires forall k :: 0 <= k < |ops| ==> ops[k].Free?
    requires |ops| == |Live(states[0])|
    ensures states[|ops|] == [Block(base, end - base - HEADER, true)]
    decreases |ops|
  {
    if |ops| == 0 {
      var bs := states[0];
      forall i | 0 <= i < |bs|
        ensures bs[i].free
      {
        var live := bs[i].addr in Live(bs);
      }
      NothingLiveIsInitial(bs, base, end);
    } else {
      var i := ops[0].i;
      assert Enabled(states[0], ops[0]) && states[1] == Apply(states[0], ops[0]);
      FreeKeepsInv(states[0], base, end, i);
      LiveFree(states[0], base, end, i);
      assert states[0][i].addr in Live(states[0]);
      assert IsRun(states[1..], ops[1..]) by {
        forall k | 0 <= k < |ops| - 1
          ensures Enabled(states[1..][k], ops[1..][k]) && states[1..][k + 1] == Apply(states[1..][k], ops[1..][k])
        {
          assert Enabled(states[k + 1], ops[k + 1]) && states[k + 2] == Apply(states[k + 1], ops[k + 1]);
        }
      }
      FreeingAllRestoresHeap(states[1..], ops[1..], base, end);
    }
  }

  /** The block an operation works on. */
  function Target(op: Op): nat {
    match op
    case Alloc(i, _) => i
    case Free(i) => i
  }

  /** No operation moves or resizes another block that is handed out. */
  lemma LiveBlocksStay(bs: seq<Block>, op: Op, k: nat)
    requires Enabled(bs, op) && k < |bs| && !bs[k].free && k != Target(op)
    ensures bs[k] in Apply(bs, op)
  {
    match op {
      case Alloc(i, siz) =>
        var r := AllocAt(bs, i, siz);
        assert r[if k < i then k else k + |r| - |bs|] == bs[k];
      case Free(i) =>
        var marked := bs[i := bs[i].(free := true)];
        var joined, m := JoinPrev(marked, i), PrevIndex(marked, i);
        var k' := if m < i && i <= k then k - 1 else k;
        assert joined[k'] == bs[k];
        var r := JoinNext(joined, m);
        assert r[if |r| < |joined| && m < k' then k' - 1 else k'] == bs[k];
    }
  }
}
