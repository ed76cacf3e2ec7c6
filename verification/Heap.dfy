/** The kernel heap itself: headers linked by address and, when free, into size bins, in place. */
module Heap {
  import opened ByteSeq
  import opened Lists
  import opened HeapSpec

  /** node_t; `addr` is where the header lies. */
  class Node {
    const addr: nat
    var prev: Node?
    var next: Node?
    var hashPrev: Node?
    var hashNext: Node?
    var free: bool
    var size: nat

    constructor (addr: nat, size: nat)
      ensures this.addr == addr && this.size == size && !free
      ensures prev == null && next == null && hashPrev == null && hashNext == null
    {
      this.addr, this.size, free := addr, size, false;
      prev, next, hashPrev, hashNext := null, null, null, null;
    }
  }

  ghost function At(s: seq<Node>, i: int): Node? { if 0 <= i < |s| then s[i] else null }

  /** The address list. */
  ghost predicate Chain(s: seq<Node>)
    reads s
  {
    && Distinct(s)
    && (forall i {:trigger s[i].next} :: 0 <= i < |s| ==> s[i].next == At(s, i + 1))
    && (forall i {:trigger s[i].prev} :: 0 <= i < |s| ==> s[i].prev == At(s, i - 1))
  }

  /** A bin. */
  ghost predicate Bin(s: seq<Node>)
    reads s
  {
    && Distinct(s)
    && (forall i {:trigger s[i].hashNext} :: 0 <= i < |s| ==> s[i].hashNext == At(s, i + 1))
    && (forall i {:trigger s[i].hashPrev} :: 0 <= i < |s| ==> s[i].hashPrev == At(s, i - 1))
  }

  twostate lemma BinFrame(s: seq<Node>)
    requires old(Bin(s))
    requires forall x :: x in s ==> x.hashNext == old(x.hashNext) && x.hashPrev == old(x.hashPrev)
    ensures Bin(s)
  {
    assert forall i :: 0 <= i < |s| ==> s[i] in s;
  }

  twostate lemma ChainFrame(s: seq<Node>)
    requires old(Chain(s))
    requires forall x :: x in s ==> x.next == old(x.next) && x.prev == old(x.prev)
    ensures Chain(s)
  {
    assert forall i :: 0 <= i < |s| ==> s[i] in s;
  }

  ghost function BlocksOf(s: seq<Node>): (bs: seq<Block>)
    reads s
    ensures |bs| == |s|
    ensures forall i :: 0 <= i < |s| ==> bs[i] == Block(s[i].addr, s[i].size, s[i].free)
  {
    seq(|s|, i requires 0 <= i < |s| reads s => Block(s[i].addr, s[i].size, s[i].free))
  }

  /** calc_hash_index. */
  method CalcHashIndex(k: nat) returns (i: nat)
    ensures i == HashIndex(k)
  {
    var m: nat := k / 32;
    i := 0;
    while m > 1
      invariant HighBit(k / 32) == i + HighBit(m)
    {
      m, i := m / 2, i + 1;
    }
    if i >= MAX_HASH_ENTRY {
      i := MAX_HASH_ENTRY - 1;
    }
  }

  /** HASH_APPEND, apart from the bin's head. */
  method BinLink(n: Node, l: Node?, ghost s: seq<Node>)
    requires Bin(s) && n !in s && l == At(s, 0)
    modifies n`hashNext, n`hashPrev, Elems(s)`hashPrev
    ensures Bin([n] + s)
  {
    n.hashNext := l;
    n.hashPrev := null;
    if l != null { l.hashPrev := n; }
  }

  /** HASH_DELETE, apart from the bin's head. */
  method BinUnlink(n: Node, ghost s: seq<Node>, ghost j: nat)
    requires Bin(s) && j < |s| && s[j] == n
    modifies Elems(s)`hashNext, Elems(s)`hashPrev
    ensures Bin(Without(s, j)) && n.hashNext == old(n.hashNext) && n.hashPrev == old(n.hashPrev)
  {
    hide Without;
    assert n.hashPrev == At(s, j - 1) && n.hashNext == At(s, j + 1);
    if n.hashPrev != null { n.hashPrev.hashNext := n.hashNext; }
    if n.hashNext != null { n.hashNext.hashPrev := n.hashPrev; }
    BinJoinedLinks((s, j));
  }

  /** The links of a bin after entry `j` of `s` has been joined over. */
  twostate predicate BinJoinedOver(p: (seq<Node>, nat))
    requires p.1 < |p.0|
    reads p.0
  {
    && (forall k {:trigger p.0[k].hashNext} :: 0 <= k < |p.0| ==>
          p.0[k].hashNext == if k == p.1 - 1 then At(p.0, p.1 + 1) else old(p.0[k].hashNext))
    && (forall k {:trigger p.0[k].hashPrev} :: 0 <= k < |p.0| ==>
          p.0[k].hashPrev == if k == p.1 + 1 then At(p.0, p.1 - 1) else old(p.0[k].hashPrev))
  }

  twostate lemma BinJoinedLinks(p: (seq<Node>, nat))
    requires p.1 < |p.0| && old(Bin(p.0)) && BinJoinedOver(p)
    ensures Bin(Without(p.0, p.1))
  {
    var r := Without(p.0, p.1);
    forall k | 0 <= k < |r|
      ensures r[k].hashNext == At(r, k + 1)
    {
      assert r[k] == p.0[if k < p.1 then k else k + 1];
    }
    forall k | 0 <= k < |r|
      ensures r[k].hashPrev == At(r, k - 1)
    {
      assert r[k] == p.0[if k < p.1 then k else k + 1];
    }
  }

  /** The list surgery of a split: a new header behind entry `i`. */
  method ChainInsert(n: Node, m: Node, ghost s: seq<Node>, ghost i: nat)
    requires Chain(s) && i < |s| && s[i] == n && m !in s
    modifies m`next, m`prev, Elems(s)`next, Elems(s)`prev
    ensures Chain(s[..i + 1] + [m] + s[i + 1..])
  {
    m.next := n.next;
    if m.next != null { m.next.prev := m; }
    n.next := m;
    m.prev := n;
  }

  /** The list surgery of a merge: entry `i + 1` disappears. */
  method ChainSwallow(a: Node, b: Node, ghost s: seq<Node>, ghost i: nat)
    requires Chain(s) && i + 1 < |s| && s[i] == a && s[i + 1] == b
    modifies Elems(s)`next, Elems(s)`prev
    ensures Chain(Without(s, i + 1))
  {
    a.next := b.next;
    if a.next != null { a.next.prev := a; }
  }

  class Allocator {
    const base: nat
    const end: nat
    const freeTable: array<Node?>
    var firstNode: Node?
    var headers: map<nat, Node>   // the header lying at an address
    ghost var nodes: set<Node>
    ghost var chain: seq<Node>
    ghost var bins: seq<seq<Node>>

    ghost predicate Inside()
      reads this
    {
      && |bins| == MAX_HASH_ENTRY == freeTable.Length
      && (forall n :: n in chain ==> n in nodes)
      && (forall n :: n in nodes ==> n in chain)
      && (forall n :: n in nodes ==> n.addr in headers && headers[n.addr] == n)
      && (forall a :: a in headers ==> headers[a].addr == a)
      && (forall j, n :: 0 <= j < |bins| && n in bins[j] ==> n in nodes)
    }

    /** A header is in the bin of its size exactly when it is marked free; `loose` ones are in no bin. */
    ghost predicate Binned(loose: set<Node>)
      requires Inside()
      reads this, nodes
    {
      && (forall j, n :: 0 <= j < |bins| && n in bins[j] ==> n !in loose && n.free && HashIndex(n.size + HEADER) == j)
      && (forall n :: n in nodes && n !in loose && n.free ==> n in bins[HashIndex(n.size + HEADER)])
    }

    ghost predicate ChainLinked()
      requires Inside()
      reads this, nodes
    {
      Chain(chain) && firstNode == At(chain, 0)
    }

    ghost predicate BinsLinked()
      requires Inside()
      reads this, nodes, freeTable
    {
      forall j :: 0 <= j < |bins| ==> Bin(bins[j]) && freeTable[j] == At(bins[j], 0)
    }

    ghost predicate Shape(loose: set<Node>)
      reads this, nodes, freeTable
    {
      Inside() && Binned(loose) && ChainLinked() && BinsLinked()
    }

    /** mm_init_block: one free header over the whole region, filed in the last bin whatever its size. */
    constructor (base: nat, len: nat)
      requires 0 < base && HEADER <= len < TWO31
      ensures firstNode != null && Initial(firstNode) && fresh(nodes) && fresh(freeTable)
      ensures this.base == base == firstNode.addr && end == base + len && firstNode.size == len - HEADER
    {
      var n := new Node(base, len - HEADER);
      n.free := true;
      this.base, this.end := base, base + len;
      freeTable := new Node?[MAX_HASH_ENTRY](_ => null);
      firstNode := n;
      headers := map[base := n];
      nodes, chain := {n}, [n];
      bins := seq(MAX_HASH_ENTRY, _ => [])[MAX_HASH_ENTRY - 1 := [n]];
      new;
      freeTable[MAX_HASH_ENTRY - 1] := n;
    }

    /** A fresh heap is a single free block, and well filed exactly when it has at least 512 KiB. */
    lemma FreshHeap(n: Node)
      requires Initial(n) && 0 < base == n.addr && n.addr + HEADER + n.size == end && end - base < TWO31
      ensures Blocks() == [Block(base, end - base - HEADER, true)]
      ensures Valid() <==> 0x8_0000 <= end - base
    {
      hide Shape, HashIndex, Inv, Initial;
      InitialBin(end - base);
      InitialShape(n);
      InitialInv(end - base);
    }

    lemma InitialInv(len: nat)
      requires HEADER <= len && end == base + len
      ensures Inv([Block(base, len - HEADER, true)], base, end)
    {
    }

    ghost predicate Initial(n: Node)
      reads this, n, freeTable
    {
      && nodes == {n} && chain == [n] && firstNode == n && headers == map[n.addr := n] && n.free
      && |bins| == MAX_HASH_ENTRY == freeTable.Length
      && (forall j :: 0 <= j < MAX_HASH_ENTRY - 1 ==> bins[j] == [] && freeTable[j] == null)
      && bins[MAX_HASH_ENTRY - 1] == [n] && freeTable[MAX_HASH_ENTRY - 1] == n
      && n.prev == null && n.next == null && n.hashPrev == null && n.hashNext == null
    }

    lemma InitialShape(n: Node)
      requires Initial(n)
      ensures Shape({}) <==> HashIndex(n.size + HEADER) == MAX_HASH_ENTRY - 1
      ensures Blocks() == [Block(n.addr, n.size, true)]
    {
      hide HashIndex;
      assert chain[0] in chain && n in bins[MAX_HASH_ENTRY - 1];
      assert Inside() && ChainLinked() && BinsLinked();
    }

    /** The heap as a list of extents. */
    ghost function Blocks(): (bs: seq<Block>)
      reads this, chain
    {
      BlocksOf(chain)
    }

    ghost predicate Valid()
      reads this, nodes, freeTable
    {
      Shape({}) && Inv(Blocks(), base, end) && 0 < base && end - base < TWO31
    }

    lemma BinsDisjoint(loose: set<Node>)
      requires Inside() && Binned(loose)
      ensures forall j, n :: 0 <= j < |bins| && n in bins[j] ==> n !in loose
      ensures Apart()
    {
      forall j, k, n | 0 <= j < |bins| && 0 <= k < |bins| && n in bins[j] && n in bins[k]
        ensures j == k
      {
        assert HashIndex(n.size + HEADER) == j;
      }
    }

    /** Sizes, marks and addresses have not changed. */
    twostate predicate SameExtents()
      reads this, nodes
    {
      && nodes == old(nodes) && chain == old(chain) && headers == old(headers)
      && (forall n :: n in nodes ==> n.size == old(n.size) && n.free == old(n.free))
    }

    twostate lemma ExtentsFrame()
      requires old(Inside()) && old(ChainLinked()) && SameExtents() && Inside() && firstNode == old(firstNode)
      requires forall x :: x in nodes ==> x.next == old(x.next) && x.prev == old(x.prev)
      ensures ChainLinked() && Blocks() == old(Blocks())
    {
      ChainFrame(chain);
    }

    twostate lemma BinnedAppend(n: Node)
      requires old(Inside()) && old(Binned({n})) && SameExtents() && n in old(nodes) && n.free
      requires |bins| == |old(bins)|
      requires bins == old(bins)[HashIndex(n.size + HEADER) := [n] + old(bins)[HashIndex(n.size + HEADER)]]
      ensures Inside() && Binned({})
    {
    }

    /** No header is in two bins. */
    ghost predicate Apart()
      reads this
    {
      forall j, k, n :: 0 <= j < |bins| && 0 <= k < |bins| && n in bins[j] && n in bins[k] ==> j == k
    }

    /** HASH_APPEND on bin `k`. */
    method Enlist(n: Node, k: nat)
      requires Inside() && BinsLinked() && Apart() && k < MAX_HASH_ENTRY && n in nodes
      requires forall j :: 0 <= j < |bins| ==> n !in bins[j]
      modifies freeTable, this`bins, nodes`hashNext, nodes`hashPrev
      ensures Inside() && BinsLinked() && bins == old(bins)[k := [n] + old(bins)[k]]
    {
      hide Bin;
      BinLink(n, freeTable[k], bins[k]);
      freeTable[k] := n;
      bins := bins[k := [n] + bins[k]];
      BinsElsewhere(k);
    }

    /** HASH_DELETE on bin `k`, where the header is entry `j`. */
    method Delist(n: Node, k: nat, ghost j: nat)
      requires Inside() && BinsLinked() && Apart() && k < MAX_HASH_ENTRY && j < |bins[k]| && bins[k][j] == n
      modifies freeTable, this`bins, nodes`hashNext, nodes`hashPrev
      ensures Inside() && BinsLinked() && |bins| == |old(bins)|
      ensures forall i, x :: 0 <= i < |bins| ==> (x in bins[i] <==> x in old(bins)[i] && x != n)
    {
      DelistLinks(n, k, bins[k], j);
      WithoutElems(bins[k], j);
      hide Bin, Without;
      bins := bins[k := Without(bins[k], j)];
      BinsElsewhere(k);
    }

    method DelistLinks(n: Node, k: nat, ghost s: seq<Node>, ghost j: nat)
      requires k < freeTable.Length && Bin(s) && j < |s| && s[j] == n && freeTable[k] == At(s, 0)
      modifies freeTable, Elems(s)`hashNext, Elems(s)`hashPrev
      ensures Bin(Without(s, j)) && freeTable[k] == At(Without(s, j), 0)
      ensures forall i :: 0 <= i < freeTable.Length && i != k ==> freeTable[i] == old(freeTable[i])
    {
      if n.hashPrev == null { freeTable[k] := n.hashNext; }
      BinUnlink(n, s, j);
    }

    /** Files a free header that is in no bin under its size. */
    method Append(n: Node)
      requires Shape({n}) && n in nodes && n.free
      modifies freeTable, this`bins, nodes`hashNext, nodes`hashPrev
      ensures Shape({}) && Blocks() == old(Blocks())
    {
      hide BinsLinked, Binned, ChainLinked, BlocksOf, Apart;
      BinsDisjoint({n});
      var k := CalcHashIndex(n.size + HEADER);
      hide HashIndex;
      Enlist(n, k);
      BinnedAppend(n);
      ExtentsFrame();
    }

    /** `p` is the set of loose headers and the header that joins it. */
    twostate lemma BinnedRemove(p: (set<Node>, Node))
      requires old(Inside()) && old(Binned(p.0)) && SameExtents() && p.1 in old(nodes)
      requires |bins| == |old(bins)|
      requires forall j, x :: 0 <= j < |bins| ==> (x in bins[j] <==> x in old(bins)[j] && x != p.1)
      ensures Inside() && Binned(p.0 + {p.1})
    {
    }

    /** Takes a free header out of the bin of its size. */
    method Remove(n: Node, k: nat, ghost loose: set<Node>)
      requires Shape(loose) && n in nodes && n !in loose && n.free && k == HashIndex(n.size + HEADER)
      modifies freeTable, this`bins, nodes`hashNext, nodes`hashPrev
      ensures Shape(loose + {n}) && Blocks() == old(Blocks())
    {
      BinsDisjoint(loose);
      FreeIsFiled(loose, n);
      ghost var j :| 0 <= j < |bins[k]| && bins[k][j] == n;
      hide BinsLinked, Binned, ChainLinked, BlocksOf, HashIndex;
      Delist(n, k, j);
      BinnedRemove((loose, n));
      ExtentsFrame();
    }

    lemma FreeIsFiled(loose: set<Node>, n: Node)
      requires Inside() && Binned(loose) && n in nodes && n !in loose && n.free
      ensures n in bins[HashIndex(n.size + HEADER)]
    {
    }

    twostate lemma BinsElsewhere(k: nat)
      requires old(Inside()) && Inside() && old(BinsLinked()) && k < |bins| == |old(bins)|
      requires bins == old(bins)[k := bins[k]]
      requires forall j :: 0 <= j < |bins| && j != k ==> freeTable[j] == old(freeTable[j])
      requires forall j, x :: 0 <= j < |bins| && j != k && x in bins[j] ==>
        x.hashNext == old(x.hashNext) && x.hashPrev == old(x.hashPrev)
      requires Bin(bins[k]) && freeTable[k] == At(bins[k], 0)
      ensures BinsLinked()
    {
      forall j | 0 <= j < |bins| && j != k
        ensures Bin(bins[j])
      {
        BinFrame(bins[j]);
      }
    }

    lemma AddressesApart(i: nat, a: nat)
      requires Inside() && Tiles(Blocks(), base, end) && i < |chain|
      requires chain[i].addr < a < chain[i].addr + HEADER + chain[i].size
      ensures forall x :: x in nodes ==> x.addr != a
    {
      forall x | x in nodes
        ensures x.addr != a
      {
        var k :| 0 <= k < |chain| && chain[k] == x;
        if k < i { BlocksApart(Blocks(), base, end, k, i); }
        if i < k { BlocksApart(Blocks(), base, end, i, k); }
      }
    }

    twostate predicate SameBins()
      reads this, nodes, freeTable
    {
      && bins == old(bins)
      && (forall j :: 0 <= j < freeTable.Length ==> freeTable[j] == old(freeTable[j]))
      && (forall x :: x in old(nodes) && x in nodes ==> x.hashNext == old(x.hashNext) && x.hashPrev == old(x.hashPrev))
    }

    twostate lemma BinsFrame()
      requires old(Inside()) && Inside() && old(BinsLinked()) && SameBins()
      ensures BinsLinked()
    {
      forall j | 0 <= j < |bins|
        ensures Bin(bins[j])
      {
        BinFrame(bins[j]);
      }
    }

    /** Marks and sizes are unchanged except of loose headers. */
    twostate predicate SameMarks(a: Node)
      reads this, nodes
    {
      forall x :: x in nodes && x in old(nodes) && x != a ==> x.size == old(x.size) && x.free == old(x.free)
    }

    twostate lemma SplitBinned(n: Node)
      requires old(Inside()) && Inside() && old(Binned({n})) && SameBins() && SameMarks(n) && n in old(nodes)
      requires forall m :: m in nodes && m !in old(nodes) ==> m.free
      requires n in nodes && old(nodes) <= nodes && !n.free
      ensures Binned(nodes - old(nodes))
    {
    }

    /** All that splitting entry `i` of the address list, header `n`, changes; the new header is `chain[i + 1]`. */
    twostate predicate Cut(t: (Node, nat))
      reads this, nodes, freeTable
    {
      && t.1 < |old(chain)| && old(chain)[t.1] == t.0 && t.0 in old(nodes)
      && |chain| == |old(chain)| + 1 && chain[t.1 + 1] !in old(nodes)
      && chain == old(chain)[..t.1 + 1] + [chain[t.1 + 1]] + old(chain)[t.1 + 1..]
      && nodes == old(nodes) + {chain[t.1 + 1]}
      && headers == old(headers)[chain[t.1 + 1].addr := chain[t.1 + 1]]
      && firstNode == old(firstNode) && SameBins() && SameMarks(t.0) && !t.0.free && chain[t.1 + 1].free
    }

    twostate lemma CutShape(t: (Node, nat))
      requires old(Shape({t.0})) && Cut(t) && Chain(chain)
      requires forall x :: x in old(nodes) ==> x.addr != chain[t.1 + 1].addr
      ensures Shape({chain[t.1 + 1]})
    {
      CutInside(t);
      hide Chain, Binned, BinsLinked;
      assert nodes - old(nodes) == {chain[t.1 + 1]};
      SplitBinned(t.0);
      BinsFrame();
    }

    twostate lemma CutInside(t: (Node, nat))
      requires old(Shape({t.0})) && Cut(t)
      requires forall x :: x in old(nodes) ==> x.addr != chain[t.1 + 1].addr
      ensures Inside() && At(chain, 0) == old(At(chain, 0))
    {
      hide Chain, Binned, BinsLinked;
      forall x | x in nodes
        ensures x in chain
      {
        if x in old(nodes) {
          var k :| 0 <= k < |old(chain)| && old(chain)[k] == x;
          assert chain[if k <= t.1 then k else k + 1] == x;
        }
      }
    }

    method CutLinks(n: Node, m: Node, siz: nat, ghost i: nat)
      requires Chain(chain) && i < |chain| && chain[i] == n && m !in chain
      modifies Elems(chain)`next, Elems(chain)`prev, n`size, m`next, m`prev
      ensures Chain(chain[..i + 1] + [m] + chain[i + 1..]) && n.size == siz
    {
      n.size := siz;
      ChainInsert(n, m, chain, i);
    }

    /** The tail of an occupied block becomes a free block of its own, still in no bin. */
    method Split(n: Node, siz: nat, ghost i: nat) returns (m: Node)
      requires Shape({n}) && i < |chain| && chain[i] == n && !n.free && siz + MIN_SPLIT <= n.size
      requires forall x :: x in nodes ==> x.addr != n.addr + HEADER + siz
      modifies this`headers, this`nodes, this`chain, nodes`next, nodes`prev, n`size
      ensures Shape({m}) && m in nodes && fresh(m) && Cut((n, i)) && chain[i + 1] == m
      ensures m.addr == n.addr + HEADER + siz && n.size == siz && m.size == old(n.size) - siz - HEADER
    {
      hide Chain, Binned, BinsLinked;
      var rest := n.size - siz;
      m := new Node(n.addr + HEADER + siz, rest - HEADER);
      CutLinks(n, m, siz, i);
      label Linked:
      m.free := true;
      headers := headers[m.addr := m];
      nodes := nodes + {m};
      chain := chain[..i + 1] + [m] + chain[i + 1..];
      ChainFrame@Linked(chain);
      CutShape((n, i));
    }

    twostate lemma SwallowBinned(p: (Node, Node))
      requires old(Inside()) && Inside() && old(Binned({p.0, p.1})) && SameBins() && SameMarks(p.0)
      requires p.0 in old(nodes) && nodes == old(nodes) - {p.1}
      ensures Binned({p.0})
    {
    }

    twostate lemma SwallowBlocks(i: nat)
      requires i + 1 < |old(chain)| && chain == Without(old(chain), i + 1) && Distinct(old(chain))
      requires forall x :: x in chain && x != old(chain)[i] ==> x.size == old(x.size) && x.free == old(x.free)
      requires old(chain)[i].size == old(chain[i].size + chain[i + 1].size) + HEADER && old(chain)[i].free == old(chain[i].free)
      ensures Blocks() == MergeAt(old(Blocks()), i)
    {
      var bs, r := old(Blocks()), Blocks();
      forall k | 0 <= k < |chain|
        ensures r[k] == MergeAt(bs, i)[k]
      {
        assert chain[k] == old(chain)[if k <= i then k else k + 1];
        assert chain[k] in chain && (k != i ==> chain[k] != old(chain)[i]);
      }
    }

    /** All that swallowing `t.1` into `t.0`, entry `t.2` of the address list, changes. */
    twostate predicate Swallowed(t: (Node, Node, nat))
      reads this, nodes, freeTable
    {
      && t.2 + 1 < |old(chain)| && old(chain)[t.2] == t.0 && old(chain)[t.2 + 1] == t.1
      && t.0 in old(nodes) && t.0 in nodes && nodes == old(nodes) - {t.1} && chain == Without(old(chain), t.2 + 1)
      && headers == old(headers) && firstNode == old(firstNode) && SameBins() && SameMarks(t.0)
      && t.0.size == old(t.0.size + t.1.size) + HEADER && t.0.free == old(t.0.free)
    }

    twostate lemma SwallowedShape(t: (Node, Node, nat))
      requires old(Shape({t.0, t.1})) && Swallowed(t) && Chain(chain)
      ensures Shape({t.0}) && Blocks() == MergeAt(old(Blocks()), t.2)
    {
      SwallowInside(t);
      hide Chain, Binned, BinsLinked, BlocksOf, Without;
      FirstStays(t.2 + 1);
      SwallowBinned((t.0, t.1));
      SwallowBlocks(t.2);
      BinsFrame();
    }

    twostate lemma SwallowInside(t: (Node, Node, nat))
      requires old(Shape({t.0, t.1})) && Swallowed(t)
      ensures Inside() && Distinct(old(chain))
    {
      WithoutElems(old(chain), t.2 + 1);
      hide BinsLinked, Without;
    }

    method SwallowLinks(a: Node, b: Node, ghost i: nat)
      requires Chain(chain) && i + 1 < |chain| && chain[i] == a && chain[i + 1] == b
      modifies Elems(chain)`next, Elems(chain)`prev, a`size
      ensures Chain(Without(chain, i + 1)) && a.size == old(a.size + b.size) + HEADER
    {
      a.size := a.size + b.size + HEADER;
      ChainSwallow(a, b, chain, i);
    }

    /** The list part of merge(): `b` is swallowed by its predecessor `a`, both in no bin. */
    method Swallow(a: Node, b: Node, ghost i: nat)
      requires Shape({a, b}) && i + 1 < |chain| && chain[i] == a && chain[i + 1] == b && a != b
      modifies this`nodes, this`chain, nodes`next, nodes`prev, a`size
      ensures Shape({a}) && a in nodes && Blocks() == MergeAt(old(Blocks()), i)
      ensures Swallowed((a, b, i))
    {
      hide Chain, Binned, BinsLinked, BlocksOf, Without, MergeAt;
      SwallowLinks(a, b, i);
      nodes := nodes - {b};
      chain := Without(chain, i + 1);
      SwallowedShape((a, b, i));
    }

    lemma ChainDistinct()
      requires Inside() && ChainLinked()
      ensures Distinct(chain)
    {
    }

    twostate lemma FirstStays(j: nat)
      requires 0 < j < |old(chain)| && chain == Without(old(chain), j)
      ensures At(chain, 0) == old(At(chain, 0))
    {
    }

    twostate lemma CutBlocks(t: (Node, nat))
      requires old(Shape({t.0})) && Cut(t)
      requires t.0.size + MIN_SPLIT <= old(t.0.size)
      requires chain[t.1 + 1].addr == t.0.addr + HEADER + t.0.size
      requires chain[t.1 + 1].size == old(t.0.size) - t.0.size - HEADER
      ensures t.1 < |old(Blocks())| && Blocks() == AllocAt(old(Blocks()), t.1, t.0.size)
    {
      hide Shape, BlocksOf, AllocAt, Distinct;
      var (n, i) := t;
      OldChain(n);
      var o := old(Blocks());
      CutInTwo(o, i, n.size);
      forall k | 0 <= k < |chain|
        ensures Blocks()[k] == AllocAt(o, i, n.size)[k]
      {
        if k != i && k != i + 1 {
          var j := if k < i then k else k - 1;
          CutElsewhere((n, i, j));
          assert chain[k] == old(chain)[j];
        }
      }
    }

    twostate lemma OldChain(n: Node)
      requires old(Shape({n}))
      ensures Distinct(old(chain)) && forall x :: x in old(chain) ==> x in old(nodes)
    {
    }

    twostate lemma CutElsewhere(t: (Node, nat, nat))
      requires t.1 < |old(chain)| && old(chain)[t.1] == t.0 && t.2 < |old(chain)| && t.2 != t.1
      requires Distinct(old(chain)) && (forall x :: x in old(chain) ==> x in old(nodes) && x in nodes) && SameMarks(t.0)
      ensures var x := old(chain)[t.2]; x.size == old(x.size) && x.free == old(x.free)
    {
      assert old(chain)[t.2] in old(chain);
    }

    twostate lemma MarkBlocks(t: (Node, nat))
      requires t.1 < |old(chain)| && old(chain)[t.1] == t.0 && chain == old(chain) && old(Chain(chain))
      requires forall x :: x in chain ==> x.size == old(x.size) && (x != t.0 ==> x.free == old(x.free))
      ensures Blocks() == old(Blocks())[t.1 := old(Blocks())[t.1].(free := t.0.free)]
    {
      assert forall k :: 0 <= k < |chain| && k != t.1 ==> chain[k] != t.0 && chain[k] in chain;
    }

    /** MAKE_FREE and MAKE_OCCUPIED on a header that is in no bin. */
    method Mark(n: Node, free: bool, ghost i: nat)
      requires Shape({n}) && i < |chain| && chain[i] == n
      modifies n`free
      ensures Shape({n}) && n.free == free && Blocks() == old(Blocks())[i := old(Blocks())[i].(free := free)]
    {
      hide Chain, BinsLinked, BlocksOf;
      n.free := free;
      ChainFrame(chain);
      BinsFrame();
      MarkBlocks((n, i));
    }

    lemma OccupiedInPlace(n: Node)
      requires Shape({n}) && !n.free
      ensures Shape({})
    {
      hide Chain, BinsLinked;
    }

    /** The second half of mm_alloc: cut the tail off when it is big enough. */
    method Carve(n: Node, siz: nat, ghost i: nat)
      requires Shape({n}) && i < |chain| && chain[i] == n && !n.free && siz <= n.size
      requires Tiles(Blocks(), base, end)
      modifies this`headers, this`nodes, this`chain, this`bins, freeTable, nodes
      ensures Shape({}) && Blocks() == AllocAt(old(Blocks()), i, siz)
    {
      hide AllocAt, Binned, ChainLinked, BinsLinked, Chain;
      var rest := n.size - siz;
      if rest >= MIN_SPLIT {
        AddressesApart(i, n.addr + HEADER + siz);
        hide Shape;
        var m := Split(n, siz, i);
        CutBlocks((n, i));
        Append(m);
      } else {
        OccupiedInPlace(n);
        WholeBlock(Blocks(), i, siz);
      }
    }

    lemma WholeBlock(bs: seq<Block>, i: nat, siz: nat)
      requires i < |bs| && siz <= bs[i].size < siz + MIN_SPLIT && !bs[i].free
      ensures AllocAt(bs, i, siz) == bs
    {
    }

    /** `n` is big enough, and no header before it in the bin is. */
    ghost predicate FirstFit(s: seq<Node>, siz: nat, n: Node)
      reads s
    {
      exists i :: 0 <= i < |s| && s[i] == n && siz <= n.size && forall k :: 0 <= k < i ==> s[k].size < siz
    }

    /** The walk along one bin: the first header of at least `siz` bytes. */
    method SearchBin(j: nat, siz: nat) returns (n: Node?)
      requires Valid() && j < MAX_HASH_ENTRY
      ensures n != null ==> n in nodes && n.free && siz <= n.size && HashIndex(n.size + HEADER) == j
      ensures n != null ==> FirstFit(bins[j], siz, n)
      ensures n == null ==> forall x :: x in bins[j] ==> x.size < siz
    {
      ghost var s, i := bins[j], 0;
      n := freeTable[j];
      while n != null && n.size < siz
        invariant 0 <= i <= |s| && n == At(s, i)
        invariant forall k :: 0 <= k < i ==> s[k].size < siz
        decreases |s| - i
      {
        n, i := n.hashNext, i + 1;
      }
      if n != null {
        assert s[i] in s;
      }
    }

    lemma SizesBelow()
      requires Valid()
      ensures forall n :: n in nodes ==> n.size < TWO31 && 0 < n.addr
    {
      forall n | n in nodes
        ensures n.size < TWO31 && 0 < n.addr
      {
        var k :| 0 <= k < |chain| && chain[k] == n;
        WithinRegion(Blocks(), base, end, k);
      }
    }

    /** The search over the bins from the request's own bin upward. The request plus header is a 32-bit
        sum; even when it wraps, the search finds a block exactly when one is big enough. */
    method Find(siz: nat) returns (n: Node?, j: nat)
      requires Valid() && siz < TWO32
      ensures n != null ==> n in nodes && n.free && siz <= n.size && j == HashIndex(n.size + HEADER)
      ensures n == null ==> forall x :: x in nodes && x.free ==> x.size < siz
      ensures n != null ==> NoLowerFit(siz, j) && j < MAX_HASH_ENTRY && FirstFit(bins[j], siz, n)
    {
      hide Binned, ChainLinked, BinsLinked, Inv, Blocks, HashIndex, FirstFit;
      j := CalcHashIndex((siz + HEADER) % TWO32);
      ghost var low := j;
      while j < MAX_HASH_ENTRY
        invariant low <= j <= MAX_HASH_ENTRY
        invariant forall k, x :: low <= k < j && x in bins[k] ==> x.size < siz
      {
        n := SearchBin(j, siz);
        if n != null {
          NoneBelow(siz, low, j);
          return;
        }
        j := j + 1;
      }
      n := null;
      NoneFits(siz, low);
    }

    /** Every free node that is big enough is filed in bin `j` or above. */
    ghost predicate NoLowerFit(siz: nat, j: nat)
      reads this, nodes
    {
      forall x :: x in nodes && x.free && siz <= x.size ==> j <= HashIndex(x.size + HEADER)
    }

    lemma NoneBelow(siz: nat, low: nat, j: nat)
      requires Valid() && siz < TWO32 && low == HashIndex((siz + HEADER) % TWO32) && low <= j <= MAX_HASH_ENTRY
      requires forall k, x :: low <= k < j && x in bins[k] ==> x.size < siz
      ensures NoLowerFit(siz, j)
    {
      hide Inv, Blocks, HashIndex, Chain;
      SizesBelow();
      forall x | x in nodes && x.free && siz <= x.size
        ensures j <= HashIndex(x.size + HEADER)
      {
        FreeIsFiled({}, x);
        HashIndexMonotone(siz + HEADER, x.size + HEADER);
      }
    }

    lemma NoneFits(siz: nat, low: nat)
      requires Valid() && siz < TWO32 && low == HashIndex((siz + HEADER) % TWO32)
      requires forall k, x :: low <= k < MAX_HASH_ENTRY && x in bins[k] ==> x.size < siz
      ensures forall x :: x in nodes && x.free ==> x.size < siz
    {
      hide Shape, HashIndex;
      NoneBelow(siz, low, MAX_HASH_ENTRY);
      forall x | x in nodes && x.free
        ensures x.size < siz
      {
        assert HashIndex(x.size + HEADER) < MAX_HASH_ENTRY;
      }
    }

    lemma NoLowerBlock(siz: nat, j: nat)
      requires Inside() && NoLowerFit(siz, j)
      ensures NoLowerBin(Blocks(), siz, j)
    {
      hide HashIndex;
    }

    lemma NoBlockFits(siz: nat)
      requires Inside() && forall x :: x in nodes && x.free ==> x.size < siz
      ensures forall b :: b in Blocks() && b.free ==> b.size < siz
    {
    }

    lemma BlockFits(siz: nat, i: nat)
      requires i < |chain| && chain[i].free && siz <= chain[i].size
      ensures exists b :: b in Blocks() && b.free && siz <= b.size
    {
      assert Blocks()[i] in Blocks();
    }

    lemma IndexOf(n: Node) returns (i: nat)
      requires Inside() && n in nodes
      ensures i < |chain| == |Blocks()| && chain[i] == n && Blocks()[i] == Block(n.addr, n.size, n.free)
    {
      i :| 0 <= i < |chain| && chain[i] == n;
    }

    /** HASH_DELETE and MAKE_OCCUPIED. */
    method Take(n: Node, j: nat, ghost i: nat)
      requires Shape({}) && n in nodes && n.free && j == HashIndex(n.size + HEADER) && i < |chain| && chain[i] == n
      modifies freeTable, this`bins, nodes`hashNext, nodes`hashPrev, n`free
      ensures Shape({n}) && !n.free && Blocks() == old(Blocks())[i := old(Blocks())[i].(free := false)]
    {
      hide Shape, HashIndex, BlocksOf;
      Remove(n, j, {});
      assert {} + {n} == {n};
      Mark(n, false, i);
    }

    lemma TakenBlocks(bs: seq<Block>, i: nat, siz: nat)
      requires Inv(bs, base, end) && i < |bs| && bs[i].free && siz <= bs[i].size
      ensures Tiles(bs[i := bs[i].(free := false)], base, end)
      ensures AllocAt(bs[i := bs[i].(free := false)], i, siz) == AllocAt(bs, i, siz)
      ensures Inv(AllocAt(bs, i, siz), base, end)
    {
      AllocKeepsInv(bs, base, end, i, siz);
      var r := bs[i := bs[i].(free := false)];
      forall k | 0 <= k < |bs| - 1
        ensures r[k].End() == r[k + 1].addr
      {
        assert bs[k].End() == bs[k + 1].addr;
      }
    }

    /** mm_alloc from the moment a block is found. */
    method Grant(n: Node, j: nat, siz: nat) returns (p: nat, ghost i: nat)
      requires Valid() && n in nodes && n.free && siz <= n.size && j == HashIndex(n.size + HEADER)
      modifies this`headers, this`nodes, this`chain, this`bins, freeTable, nodes
      ensures Valid() && p != 0
      ensures i < |old(Blocks())| && old(Blocks())[i].free && siz <= old(Blocks())[i].size
      ensures p == old(Blocks())[i].addr + HEADER && Blocks() == AllocAt(old(Blocks()), i, siz)
      ensures j == HashIndex(old(Blocks())[i].size + HEADER)
    {
      hide Binned, ChainLinked, BinsLinked, Inv, Blocks, AllocAt, HashIndex;
      i := IndexOf(n);
      TakenBlocks(Blocks(), i, siz);
      Take(n, j, i);
      Carve(n, siz, i);
      p := n.addr + HEADER;
    }

    /** mm_alloc: a block of at least `siz` bytes, cut to size; NULL exactly when no free block is big
        enough (or nothing is asked for); never one from a higher bin while a lower one has a fit. `i` is the
        block's place in the address list. */
    method Alloc(siz: nat) returns (p: nat, ghost i: nat)
      requires Valid() && siz < TWO32
      modifies this`headers, this`nodes, this`chain, this`bins, freeTable, nodes
      ensures Valid()
      ensures p == 0 <==> siz == 0 || forall b :: b in old(Blocks()) && b.free ==> b.size < siz
      ensures p == 0 ==> Blocks() == old(Blocks())
      ensures p != 0 ==> siz > 0 && Granted(old(Blocks()), i, siz, p, Blocks())
      ensures p != 0 ==> i < |Blocks()| && Blocks()[i].addr + 24 == p && siz <= Blocks()[i].size < siz + 32
    {
      if siz == 0 {
        return 0, 0;
      }
      hide Shape, Inv, Blocks, Granted, HashIndex, NoLowerFit;
      var n, j := Find(siz);
      if n == null {
        NoBlockFits(siz);
        return 0, 0;
      }
      NodeFits(n, siz);
      ghost var s := Blocks();
      p, i := Give(n, j, siz);
      GrantedInNumbers(s, i, siz, p, Blocks());
    }

    lemma NodeFits(n: Node, siz: nat)
      requires Valid() && n in nodes && n.free && siz <= n.size
      ensures exists b :: b in Blocks() && b.free && siz <= b.size
    {
      hide Binned, ChainLinked, BinsLinked, Inv, Blocks;
      var k := IndexOf(n);
      BlockFits(siz, k);
    }

    method Give(n: Node, j: nat, siz: nat) returns (p: nat, ghost i: nat)
      requires Valid() && n in nodes && n.free && 0 < siz <= n.size && j == HashIndex(n.size + HEADER) && NoLowerFit(siz, j)
      modifies this`headers, this`nodes, this`chain, this`bins, freeTable, nodes
      ensures Valid() && p != 0 && Granted(old(Blocks()), i, siz, p, Blocks())
    {
      hide Binned, ChainLinked, BinsLinked, Inv, Blocks, AllocAt, HashIndex, NoLowerBin, NoLowerFit;
      NoLowerBlock(siz, j);
      p, i := Grant(n, j, siz);
    }

    /** merge(): `c`, the one of the two that is filed in a bin, leaves it, and `a` swallows `b`. */
    method Merge(a: Node, b: Node, c: Node, ghost i: nat)
      requires i + 1 < |chain| && chain[i] == a && chain[i + 1] == b && a != b && (c == a || c == b)
      requires Shape({if c == a then b else a}) && a in nodes && b in nodes && c.free
      modifies this`nodes, this`chain, this`bins, freeTable, nodes`next, nodes`prev, nodes`hashNext, nodes`hashPrev, a`size
      ensures Shape({a}) && a in nodes && Blocks() == MergeAt(old(Blocks()), i)
      ensures chain == Without(old(chain), i + 1) && nodes <= old(nodes)
    {
      hide Binned, ChainLinked, BinsLinked, Blocks, HashIndex, MergeAt;
      var k := CalcHashIndex(c.size + HEADER);
      ghost var other := if c == a then b else a;
      Remove(c, k, {other});
      assert {other} + {c} == {a, b};
      Swallow(a, b, i);
    }

    lemma Neighbours(n: Node, i: nat)
      requires Inside() && ChainLinked() && i < |chain| && chain[i] == n
      ensures n.prev == At(chain, i - 1) && n.next == At(chain, i + 1)
      ensures n.prev != null ==> n.prev in nodes && n.prev != n && Blocks()[i - 1].free == n.prev.free
      ensures n.next != null ==> n.next in nodes && n.next != n && Blocks()[i + 1].free == n.next.free
      ensures |Blocks()| == |chain|
    {
    }

    /** The first merge of mm_free. */
    method MergePrev(n: Node, ghost i: nat) returns (m: Node, ghost k: nat)
      requires Shape({n}) && n in nodes && n.free && i < |chain| && chain[i] == n
      modifies this`nodes, this`chain, this`bins, freeTable, nodes`next, nodes`prev, nodes`hashNext, nodes`hashPrev, nodes`size
      ensures Shape({m}) && m in nodes && m.free && k < |chain| && chain[k] == m && nodes <= old(nodes)
      ensures i < |old(Blocks())| && Blocks() == JoinPrev(old(Blocks()), i) && k == PrevIndex(old(Blocks()), i)
    {
      Neighbours(n, i);
      hide Binned, ChainLinked, BinsLinked, Blocks, MergeAt;
      m, k := n, i;
      if n.prev != null && n.prev.free {
        m, k := n.prev, i - 1;
        Merge(m, n, m, i - 1);
      }
    }

    /** The second merge of mm_free. */
    method MergeNext(n: Node, ghost i: nat)
      requires Shape({n}) && n in nodes && n.free && i < |chain| && chain[i] == n
      modifies this`nodes, this`chain, this`bins, freeTable, nodes`next, nodes`prev, nodes`hashNext, nodes`hashPrev, nodes`size
      ensures Shape({n}) && n in nodes && n.free && nodes <= old(nodes)
      ensures i < |old(Blocks())| && Blocks() == JoinNext(old(Blocks()), i)
    {
      Neighbours(n, i);
      hide Binned, ChainLinked, BinsLinked, Blocks, MergeAt;
      if n.next != null && n.next.free {
        Merge(n, n.next, n.next, i);
      }
    }

    lemma OccupiedIsLoose(n: Node)
      requires Shape({}) && !n.free
      ensures Shape({n})
    {
      hide ChainLinked, BinsLinked;
    }

    /** mm_free of a block given out earlier: marked free, merged with free neighbours, filed. Freeing NULL
        or a free block does nothing and returns 0. */
    method Free(p: nat) returns (siz: nat, ghost i: nat)
      requires Valid() && (p != 0 ==> HEADER <= p && p - HEADER in headers && headers[p - HEADER] in nodes)
      modifies this`nodes, this`chain, this`bins, freeTable, nodes
      ensures Valid()
      ensures if p == 0 then siz == 0 && Blocks() == old(Blocks()) else
        && i < |old(Blocks())| && p == old(Blocks())[i].addr + HEADER
        && if old(Blocks())[i].free then siz == 0 && Blocks() == old(Blocks())
           else siz == old(Blocks())[i].size && Blocks() == FreeAt(old(Blocks()), i)
    {
      hide Binned, ChainLinked, BinsLinked, Inv, Blocks, JoinPrev, JoinNext, PrevIndex;
      i := 0;
      if p == 0 {
        return 0, 0;
      }
      var n := headers[p - HEADER];
      i := IndexOf(n);
      if n.free {
        return 0, i;
      }
      FreeKeepsInv(Blocks(), base, end, i);
      OccupiedIsLoose(n);
      Mark(n, true, i);
      siz := n.size;
      ghost var k;
      n, k := MergePrev(n, i);
      MergeNext(n, k);
      Append(n);
    }

    /** mm_check_allocated: does an address lie in a block handed out (header included)? */
    method CheckAllocated(addr: nat) returns (r: bool)
      requires Valid()
      ensures r <==> HandedOut(Blocks(), addr)
    {
      hide Binned, BinsLinked, Blocks, HandedOut, Inv;
      ghost var i, bs := 0, Blocks();
      var n := firstNode;
      BlocksTile();
      while n != null
        invariant 0 <= i <= |chain| && n == At(chain, i)
        invariant forall k :: 0 <= k < i ==> !(bs[k].addr <= addr < bs[k].End())
        decreases |chain| - i
      {
        BlockOf(i);
        if n.addr <= addr < n.addr + HEADER + n.size {
          OnlyCover(bs, i, addr);
          return !n.free;
        }
        n, i := n.next, i + 1;
      }
      NowhereCovered(bs, addr);
      return false;
    }

    lemma BlocksTile()
      requires Valid()
      ensures Tiles(Blocks(), base, end) && |Blocks()| == |chain|
    {
    }

    lemma BlockOf(i: nat)
      requires i < |chain|
      ensures i < |Blocks()| && Blocks()[i] == Block(chain[i].addr, chain[i].size, chain[i].free)
    {
    }

    lemma NowhereCovered(bs: seq<Block>, addr: nat)
      requires forall k :: 0 <= k < |bs| ==> !(bs[k].addr <= addr < bs[k].End())
      ensures !HandedOut(bs, addr)
    {
    }

    lemma OnlyCover(bs: seq<Block>, i: nat, addr: nat)
      requires Tiles(bs, base, end) && i < |bs| && bs[i].addr <= addr < bs[i].End()
      ensures HandedOut(bs, addr) <==> !bs[i].free
    {
      assert bs[i] in bs;
      forall k | 0 <= k < |bs| && bs[k].addr <= addr < bs[k].End()
        ensures k == i
      {
        if k < i { BlocksApart(bs, base, end, k, i); }
        if i < k { BlocksApart(bs, base, end, i, k); }
      }
    }
  }
}
