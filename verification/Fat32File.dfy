/** Reading and writing files as cluster chains: fat32_read and fat32_write. */
module Fat32File {
  import opened Arith
  import opened ByteSeq
  import opened Fat32Layout
  import opened Fat32Table
  import opened Fat32Volume

  /** The clusters of a chain, in order. */
  ghost function Pieces(g: Geometry, d: seq<byte>, s: seq<nat>): (p: seq<seq<byte>>)
    requires Fits(g, d) && IsChain(Fat(g, d), s)
    ensures |p| == |s| && AllOfSize(p, g.BytPerClu())
    ensures forall i :: 0 <= i < |s| ==> p[i] == Clu(g, d, s[i])
  {
    seq(|s|, i requires 0 <= i < |s| => Clu(g, d, s[i]))
  }

  /** All bytes a file's chain holds, slack of the last cluster included. */
  ghost function Content(g: Geometry, d: seq<byte>, s: seq<nat>): seq<byte>
    requires Fits(g, d) && IsChain(Fat(g, d), s)
  {
    Flatten(Pieces(g, d, s))
  }

  /** Offset in a file of its `k`th cluster, and the way back. */
  function CluStart(k: nat, size: nat): nat { k * size }

  function CluIndex(pos: nat, size: nat): nat
    requires 0 < size
  {
    pos / size
  }

  function InClu(pos: nat, size: nat): nat
    requires 0 < size
  {
    pos % size
  }

  lemma Locate(pos: nat, size: nat)
    requires 0 < size
    ensures CluStart(CluIndex(pos, size), size) + InClu(pos, size) == pos
    ensures InClu(pos, size) < size
  {
  }

  lemma NextStart(k: nat, size: nat)
    ensures CluStart(k + 1, size) == CluStart(k, size) + size
  {
  }

  lemma StartMonotone(a: nat, b: nat, size: nat)
    requires a <= b
    ensures CluStart(a, size) <= CluStart(b, size)
  {
    MulMonotone(a, b, size);
  }

  lemma ContentSize(g: Geometry, d: seq<byte>, s: seq<nat>)
    requires Fits(g, d) && IsChain(Fat(g, d), s)
    ensures |Content(g, d, s)| == CluStart(|s|, g.BytPerClu())
  {
    FlattenSize(Pieces(g, d, s), g.BytPerClu());
  }

  /** Bytes of the file that lie in one cluster. */
  lemma ContentSlice(p: seq<seq<byte>>, size: nat, k: nat, pos: nat, n: nat)
    requires AllOfSize(p, size) && k < |p| && pos + n <= size
    ensures CluStart(k, size) + pos + n <= |Flatten(p)|
    ensures Flatten(p)[CluStart(k, size) + pos..CluStart(k, size) + pos + n] == p[k][pos..pos + n]
  {
    FlattenPrefix(p, size, k, pos + n);
    var a, f := CluStart(k, size), Flatten(p);
    assert f[a + pos..a + pos + n] == f[..a + (pos + n)][a + pos..];
  }

  lemma ContentInClu(g: Geometry, d: seq<byte>, s: seq<nat>, k: nat, pos: nat, n: nat)
    requires Fits(g, d) && IsChain(Fat(g, d), s) && k < |s| && pos + n <= g.BytPerClu()
    ensures CluStart(k, g.BytPerClu()) + pos + n <= |Content(g, d, s)|
    ensures Content(g, d, s)[CluStart(k, g.BytPerClu()) + pos..CluStart(k, g.BytPerClu()) + pos + n]
         == Clu(g, d, s[k])[pos..pos + n]
  {
    hide Fits, Fat, Clu, Geometry.BytPerClu;
    ContentSlice(Pieces(g, d, s), g.BytPerClu(), k, pos, n);
  }

  lemma StartIs(k: nat, size: nat)
    ensures CluStart(k, size) == k * size
  {
  }

  /** Replacing a cluster by one that agrees up to `pos` and then holds `x` extends the known prefix. */
  lemma PatchPiece(p: seq<seq<byte>>, size: nat, k: nat, pos: nat, y: seq<byte>, x: seq<byte>)
    requires AllOfSize(p, size) && k < |p| && |y| == size && pos + |x| <= size
    requires y[..pos + |x|] == p[k][..pos] + x
    ensures CluStart(k, size) + pos + |x| <= |Flatten(p)| && |Flatten(p[k := y])| == |Flatten(p)|
    ensures Flatten(p[k := y])[..CluStart(k, size) + pos + |x|] == Flatten(p)[..CluStart(k, size) + pos] + x
  {
    hide Flatten, CluStart;
    StartIs(k, size);
    var q := p[k := y];
    FlattenPrefix(p, size, k, pos);
    FlattenPrefix(p, size, k, pos + |x|);
    FlattenPrefix(q, size, k, pos + |x|);
    assert q[..k] == p[..k];
    FlattenSize(p, size);
    FlattenSize(q, size);
  }

  lemma AppendPiece(p: seq<seq<byte>>, y: seq<byte>)
    ensures Flatten(p) <= Flatten(p + [y])
  {
    FlattenConcat(p, [y]);
  }

  // ----- what a write has achieved so far -----

  /** After storing `w` from offset `pos` on: chain `s0` has grown to `s` by clusters that were free,
      the file's bytes are the old ones up to `pos` followed by `w`, its clusters from there on are as they were,
      and nothing outside `s` moved. */
  ghost predicate Stored(g: Geometry, d0: seq<byte>, d: seq<byte>, s0: seq<nat>, s: seq<nat>, pos: nat, w: seq<byte>) {
    && Fits(g, d0) && Fits(g, d)
    && IsChain(Fat(g, d0), s0) && IsChain(Fat(g, d), s) && s0 <= s
    && pos <= |Content(g, d0, s0)| && pos + |w| <= |Content(g, d, s)|
    && Content(g, d, s)[..pos + |w|] == Content(g, d0, s0)[..pos] + w
    && Grown(Fat(g, d0), Fat(g, d), s0, s)
    && ClustersKept(g, d0, d, s)
    && LaterKept(g, d0, d, s0, pos + |w|)
  }

  /** The file's own clusters that start at or after `end` hold what they held. */
  ghost predicate LaterKept(g: Geometry, d0: seq<byte>, d: seq<byte>, s0: seq<nat>, end: nat)
    requires Fits(g, d0) && Fits(g, d) && IsChain(Fat(g, d0), s0)
  {
    forall i :: 0 <= i < |s0| && end <= CluStart(i, g.BytPerClu()) ==> Clu(g, d, s0[i]) == Clu(g, d0, s0[i])
  }

  /** The chain grew by free entries only, and no entry outside it changed. */
  ghost predicate Grown(fat0: seq<nat>, fat: seq<nat>, s0: seq<nat>, s: seq<nat>) {
    && s0 <= s && |fat0| == |fat|
    && (forall i :: |s0| <= i < |s| ==> s[i] < |fat0| && fat0[s[i]] == 0)
    && (forall k :: 0 <= k < |fat| && k !in s ==> fat[k] == fat0[k])
    && |s| + CountFree(fat) == |s0| + CountFree(fat0)
  }

  ghost predicate ClustersKept(g: Geometry, d0: seq<byte>, d: seq<byte>, s: seq<nat>)
    requires Fits(g, d0) && Fits(g, d)
  {
    forall k :: 2 <= k < g.Entries() && k !in s ==> Clu(g, d, k) == Clu(g, d0, k)
  }

  lemma StoredAtStart(g: Geometry, d: seq<byte>, s: seq<nat>, pos: nat)
    requires Fits(g, d) && IsChain(Fat(g, d), s) && pos <= |Content(g, d, s)|
    ensures Stored(g, d, d, s, s, pos, [])
  {
    hide Fits, Fat, Content, Clu;
  }

  lemma StoredGrown(g: Geometry, d0: seq<byte>, d: seq<byte>, s0: seq<nat>, s: seq<nat>, pos: nat, w: seq<byte>)
    requires Stored(g, d0, d, s0, s, pos, w)
    ensures Grown(Fat(g, d0), Fat(g, d), s0, s) && s0 <= s
  {
    hide Fits, Fat, Content, Grown;
  }

  /** Linking one more cluster. */
  lemma StoredAppend(g: Geometry, d0: seq<byte>, d: seq<byte>, d': seq<byte>, s0: seq<nat>, s: seq<nat>, pos: nat, w: seq<byte>, n: nat)
    requires Stored(g, d0, d, s0, s, pos, w) && Fits(g, d')
    requires 2 <= n < g.Entries() && Fat(g, d)[n] == 0 && Fat(g, d') == Appended(Fat(g, d), s, n)
    requires forall k :: 2 <= k < g.Entries() ==> Clu(g, d', k) == Clu(g, d, k)
    ensures Stored(g, d0, d', s0, s + [n], pos, w)
  {
    hide Fits, Fat, Clu, Flatten, Grown;
    AppendChain(Fat(g, d), s, n);
    StoredGrown(g, d0, d, s0, s, pos, w);
    assert Pieces(g, d', s + [n]) == Pieces(g, d, s) + [Clu(g, d, n)];
    AppendPiece(Pieces(g, d, s), Clu(g, d, n));
    PrefixPrefix(Content(g, d, s), Content(g, d', s + [n]), pos + |w|);
    GrownAppend(Fat(g, d0), Fat(g, d), s0, s, n);
  }

  lemma GrownAppend(fat0: seq<nat>, fat: seq<nat>, s0: seq<nat>, s: seq<nat>, n: nat)
    requires Grown(fat0, fat, s0, s) && IsChain(fat, s) && 2 <= n < |fat| && fat[n] == 0
    ensures Grown(fat0, Appended(fat, s, n), s0, s + [n])
  {
    ChainNotFree(fat, s);
    var last := s[|s| - 1];
    assert last in s && n !in s;
    assert fat0[n] == 0;
    CountFreeUpdate(fat, n, END_MARK);
    CountFreeUpdate(fat[n := END_MARK], last, n);
  }

  /** Storing one piece into cluster `k` of the chain, right behind what is already stored. */
  lemma StoredPiece(g: Geometry, d0: seq<byte>, d: seq<byte>, d': seq<byte>, s0: seq<nat>, s: seq<nat>, pos: nat, w: seq<byte>,
                    k: nat, off: nat, x: seq<byte>)
    requires Stored(g, d0, d, s0, s, pos, w) && Fits(g, d') && Fat(g, d') == Fat(g, d)
    requires k < |s| && CluStart(k, g.BytPerClu()) + off == pos + |w| && off + |x| <= g.BytPerClu() && 0 < |x|
    requires Clu(g, d', s[k])[..off + |x|] == Clu(g, d, s[k])[..off] + x
    requires forall c :: 2 <= c < g.Entries() && c != s[k] ==> Clu(g, d', c) == Clu(g, d, c)
    ensures Stored(g, d0, d', s0, s, pos, w + x)
  {
    hide Fits, Fat, Clu, Content, CluStart, LaterKept, Grown, IsChain, Geometry.BytPerClu, Geometry.Entries;
    PieceContent(g, d, d', s, k, off, x);
    LaterKeptStep(g, d0, d, d', s0, s, pos + |w|, k, off, |x|);
    assert s[k] in s;
    assert Content(g, d0, s0)[..pos] + w + x == Content(g, d0, s0)[..pos] + (w + x);
  }

  /** What a piece stored in cluster `k` does to the bytes of the chain. */
  lemma PieceContent(g: Geometry, d: seq<byte>, d': seq<byte>, s: seq<nat>, k: nat, off: nat, x: seq<byte>)
    requires Fits(g, d) && Fits(g, d') && IsChain(Fat(g, d), s) && Fat(g, d') == Fat(g, d)
    requires k < |s| && off + |x| <= g.BytPerClu() && Clu(g, d', s[k])[..off + |x|] == Clu(g, d, s[k])[..off] + x
    requires forall c :: 2 <= c < g.Entries() && c != s[k] ==> Clu(g, d', c) == Clu(g, d, c)
    ensures var end := CluStart(k, g.BytPerClu()) + off;
      end + |x| <= |Content(g, d, s)| == |Content(g, d', s)| && Content(g, d', s)[..end + |x|] == Content(g, d, s)[..end] + x
  {
    hide Fits, Fat, Clu, Flatten, CluStart, Geometry.BytPerClu, Geometry.Entries;
    ChainAcyclic(Fat(g, d), s);
    var y := Clu(g, d', s[k]);
    assert Pieces(g, d', s) == Pieces(g, d, s)[k := y];
    PatchPiece(Pieces(g, d, s), g.BytPerClu(), k, off, y, x);
  }

  lemma LaterKeptStep(g: Geometry, d0: seq<byte>, d: seq<byte>, d': seq<byte>, s0: seq<nat>, s: seq<nat>,
                      end: nat, k: nat, off: nat, n: nat)
    requires Fits(g, d0) && Fits(g, d) && Fits(g, d') && IsChain(Fat(g, d0), s0) && IsChain(Fat(g, d), s) && s0 <= s
    requires LaterKept(g, d0, d, s0, end) && k < |s| && CluStart(k, g.BytPerClu()) + off == end && 0 < n
    requires forall c :: 2 <= c < g.Entries() && c != s[k] ==> Clu(g, d', c) == Clu(g, d, c)
    ensures LaterKept(g, d0, d', s0, end + n)
  {
    hide Fits, Fat, Clu, CluStart, Geometry.BytPerClu, Geometry.Entries;
    ChainAcyclic(Fat(g, d), s);
    forall i | 0 <= i < |s0| && end + n <= CluStart(i, g.BytPerClu())
      ensures Clu(g, d', s0[i]) == Clu(g, d0, s0[i])
    {
      assert s0[i] == s[i] && i != k;
    }
  }

  /** Any file whose chain is disjoint from the written one keeps its chain and its bytes. */
  lemma OtherFilesUntouched(g: Geometry, d0: seq<byte>, d: seq<byte>, s0: seq<nat>, s: seq<nat>, pos: nat, w: seq<byte>, t: seq<nat>)
    requires Stored(g, d0, d, s0, s, pos, w)
    requires IsChain(Fat(g, d0), t) && Disjoint(s0, t)
    ensures IsChain(Fat(g, d), t) && Disjoint(s, t)
    ensures Content(g, d, t) == Content(g, d0, t)
  {
    hide Fits, Fat, Clu, Flatten;
    ChainNotFree(Fat(g, d0), t);
    forall i | 0 <= i < |s|
      ensures s[i] !in t
    {
      if i < |s0| { assert s[i] == s0[i]; }
    }
    assert forall i :: 0 <= i < |t| ==> t[i] in t && t[i] !in s;
    assert Pieces(g, d, t) == Pieces(g, d0, t);
  }

  lemma ClusterPositive(g: Geometry, d: seq<byte>)
    requires Fits(g, d)
    ensures 0 < g.BytPerClu()
  {
  }

  /** Clusters needed to reach offset `end`. */
  function CluCount(end: nat, size: nat): nat
    requires 0 < size
  {
    (end + size - 1) / size
  }

  lemma CountReaches(end: nat, n: nat, size: nat)
    requires 0 < size
    ensures CluCount(end, size) <= n <==> end <= CluStart(n, size)
  {
    var c := CluCount(end, size);
    assert c * size <= end + size - 1 < (c + 1) * size by {
      var r := (end + size - 1) % size;
      assert end + size - 1 == c * size + r;
      assert (c + 1) * size == c * size + size;
    }
    if c <= n {
      MulMonotone(c, n, size);
      assert (c + 1) * size == c * size + size;
    } else {
      MulMonotone(n + 1, c, size);
      assert (n + 1) * size == n * size + size;
    }
  }

  lemma FirstCluInUse(g: Geometry, d: seq<byte>, s: seq<nat>, clu: nat, k: nat)
    requires Fits(g, d) && IsChain(Fat(g, d), s) && clu == if k < |s| then s[k] else 0
    ensures InUse(clu) <==> k < |s|
  {
    hide Fits, Fat;
    if k < |s| { ChainStep(Fat(g, d), s, k); }
  }

  lemma StartInside(g: Geometry, d: seq<byte>, s: seq<nat>, pos: nat)
    requires Fits(g, d) && IsChain(Fat(g, d), s) && 0 < g.BytPerClu()
    ensures CluIndex(pos, g.BytPerClu()) < |s| <==> pos < |Content(g, d, s)|
  {
    hide Fits, Fat, Content, CluStart, CluIndex, InClu, Geometry.BytPerClu;
    ContentSize(g, d, s);
    var k := CluIndex(pos, g.BytPerClu());
    Locate(pos, g.BytPerClu());
    if |s| <= k {
      StartMonotone(|s|, k, g.BytPerClu());
    } else {
      NextStart(k, g.BytPerClu());
      StartMonotone(k + 1, |s|, g.BytPerClu());
    }
  }

  lemma StoredFacts(g: Geometry, d0: seq<byte>, d: seq<byte>, s0: seq<nat>, s: seq<nat>, pos: nat, w: seq<byte>)
    requires Stored(g, d0, d, s0, s, pos, w)
    ensures Fits(g, d) && IsChain(Fat(g, d), s) && s0 <= s && 0 < |s| && s[0] == s0[0]
    ensures ReservedEntries(Fat(g, d0)) ==> ReservedEntries(Fat(g, d))
  {
    hide Fits, Fat, Content;
  }

  lemma StoredBoth(g: Geometry, d0: seq<byte>, d: seq<byte>, s0: seq<nat>, s: seq<nat>, pos: nat, w: seq<byte>)
    requires Stored(g, d0, d, s0, s, pos, w)
    ensures Fits(g, d0) && Fits(g, d) && IsChain(Fat(g, d0), s0)
  {
    hide Fits, Fat, Content;
  }

  /** A write that found no free entry needed more clusters than there were. */
  lemma StarvedWrite(g: Geometry, d0: seq<byte>, d: seq<byte>, s0: seq<nat>, s: seq<nat>, pos: nat, w: seq<byte>, end: nat)
    requires Stored(g, d0, d, s0, s, pos, w) && 0 < g.BytPerClu()
    requires CountFree(Fat(g, d)) == 0 && pos + |w| == CluStart(|s|, g.BytPerClu()) < end
    ensures CluCount(end, g.BytPerClu()) > |s| == |s0| + CountFree(Fat(g, d0))
  {
    hide Fits, Fat, Content, Geometry.BytPerClu, CluCount, CluStart, CountFree;
    CountReaches(end, |s|, g.BytPerClu());
  }

  /** A finished write had enough. */
  lemma FedWrite(g: Geometry, d0: seq<byte>, d: seq<byte>, s0: seq<nat>, s: seq<nat>, pos: nat, w: seq<byte>)
    requires Stored(g, d0, d, s0, s, pos, w) && 0 < g.BytPerClu() && NotBeyond(g, s0, s, pos + |w|)
    ensures CluCount(pos + |w|, g.BytPerClu()) <= |s0| + CountFree(Fat(g, d0))
    ensures |s| == Max(|s0|, CluCount(pos + |w|, g.BytPerClu()))
  {
    hide Fits, Fat, Content, Geometry.BytPerClu, CluCount, CluStart, CountFree;
    ContentSize(g, d, s);
    CountReaches(pos + |w|, |s|, g.BytPerClu());
    if |s| > |s0| { CountReaches(pos + |w|, |s| - 1, g.BytPerClu()); }
  }

  /** A cluster has only been linked for bytes before `end`. */
  ghost predicate NotBeyond(g: Geometry, s0: seq<nat>, s: seq<nat>, end: nat) {
    |s| == |s0| || (|s| > |s0| && CluStart(|s| - 1, g.BytPerClu()) < end)
  }

  function Max(a: nat, b: nat): nat { if a < b then b else a }

  /** A write that begins and ends inside one cluster keeps the bytes behind it. */
  ghost predicate TailKept(g: Geometry, d0: seq<byte>, d: seq<byte>, s0: seq<nat>, k: nat, end: nat)
    requires Fits(g, d0) && Fits(g, d) && IsChain(Fat(g, d0), s0)
  {
    k < |s0| && end <= g.BytPerClu() ==> Clu(g, d, s0[k])[end..] == Clu(g, d0, s0[k])[end..]
  }

  lemma TailKeptAtStart(g: Geometry, d: seq<byte>, s: seq<nat>, k: nat, end: nat)
    requires Fits(g, d) && IsChain(Fat(g, d), s)
    ensures TailKept(g, d, d, s, k, end)
  {
    hide Fits, Geometry.BytPerClu;
  }

  /** The first piece of a write that ends inside its cluster. */
  lemma TailKeptStep(g: Geometry, d0: seq<byte>, d: seq<byte>, d': seq<byte>, s0: seq<nat>, s: seq<nat>, k: nat, end: nat, n: nat)
    requires Fits(g, d0) && Fits(g, d) && Fits(g, d') && IsChain(Fat(g, d0), s0) && IsChain(Fat(g, d), s) && s0 <= s
    requires k < |s0| && end + n <= g.BytPerClu() && TailKept(g, d0, d, s0, k, end)
    requires Clu(g, d', s[k])[end + n..] == Clu(g, d, s[k])[end + n..]
    ensures TailKept(g, d0, d', s0, k, end + n)
  {
    hide Fits, Geometry.BytPerClu, Fat;
    var a, b := Clu(g, d, s0[k]), Clu(g, d0, s0[k]);
    assert a[end + n..] == a[end..][n..] && b[end + n..] == b[end..][n..];
  }

  lemma TailKeptElsewhere(g: Geometry, d0: seq<byte>, d: seq<byte>, s0: seq<nat>, k: nat, end: nat)
    requires Fits(g, d0) && Fits(g, d) && IsChain(Fat(g, d0), s0) && end >= g.BytPerClu()
    ensures TailKept(g, d0, d, s0, k, end)
  {
    hide Fits, Geometry.BytPerClu;
  }

  lemma ZeroIsNothing()
    ensures !InUse(0) && !End(0)
  {
  }

  /** An open file: its first cluster, position and size, on a volume. `recorded` is the size that its directory
      entry holds. */
  class File {
    const vol: Volume
    const data: nat
    var pos: nat
    var size: nat
    var dirty: bool
    var recorded: nat

    constructor (vol: Volume, data: nat, size: nat)
      ensures this.vol == vol && this.data == data && this.pos == 0 && this.size == size && !dirty && recorded == size
    {
      this.vol, this.data, this.pos, this.size, this.dirty, this.recorded := vol, data, 0, size, false, size;
    }

    /** The file's chain, on a well-formed volume. */
    ghost predicate On(chain: seq<nat>)
      reads this, vol
    {
      vol.Valid() && IsChain(Fat(vol.g, vol.disk), chain) && chain[0] == data
    }

    ghost function Bytes(chain: seq<nat>): seq<byte>
      requires On(chain)
      reads this, vol
    {
      Content(vol.g, vol.disk, chain)
    }

    /** Steps `no` links along the chain; 0 when it is too short. */
    method CluByOrder(no: nat, ghost chain: seq<nat>) returns (clu: nat)
      requires On(chain)
      ensures clu == if no < |chain| then chain[no] else 0
    {
      hide Fits, Fat, Clu;
      clu := data;
      for i := 0 to no
        invariant i < |chain| && clu == chain[i]
      {
        assert i < |chain| - 1 ==> Fat(vol.g, vol.disk)[chain[i]] == chain[i + 1];
        clu := vol.NextClu(clu);
        if !InUse(clu) {
          return 0;
        }
      }
    }

    /** Copies part of one cluster behind the `n` bytes already read. */
    method ReadPiece(buf: array<byte>, n: nat, clu: nat, off: nat, read: nat, ghost all: seq<byte>, ghost start: nat,
                     ghost chain: seq<nat>, ghost k: nat)
      requires On(chain) && k < |chain| && clu == chain[k] && all == Bytes(chain)
      requires off + read <= vol.g.BytPerClu() && n + read <= buf.Length
      requires CluStart(k, vol.g.BytPerClu()) + off == start + n
      requires n > 0 ==> start + n <= |all| && buf[..n] == all[start..start + n]
      modifies buf
      ensures start + n + read <= |all| && buf[..n + read] == all[start..start + n + read]
    {
      hide Fits, Clu, Fat, IsChain, InUse, CluStart, Content, Geometry.BytPerClu, Geometry.Entries;
      ChainStep(Fat(vol.g, vol.disk), chain, k);
      ContentInClu(vol.g, vol.disk, chain, k, off, read);
      var cluData := vol.ReadClu(clu);
      CopyIn(buf, n, cluData[off..off + read]);
      JoinSlices(all, start, start + n, start + n + read);
    }

    /** Reads up to `count` bytes from the position on; a position behind the size makes the 32-bit difference
        wrap, so that the size does not limit the count. A file whose size overstates its chain is read to the
        chain's end and then reported as 0 bytes. */
    method Read(buf: array<byte>, count: nat, ghost chain: seq<nat>) returns (n: nat)
      requires On(chain) && pos < TWO32 && size < TWO32 && count <= buf.Length
      modifies this`pos, buf
      ensures var want := if count < U32(size as int - old(pos) as int) then count else U32(size as int - old(pos) as int);
        if old(pos) + want <= |Bytes(chain)| then
          && n == want && pos == old(pos) + want
          && buf[..want] == Bytes(chain)[old(pos)..pos]
        else n == 0
    {
      hide Fits, Fat, Clu, Content, CluStart, CluIndex, InClu, IsChain, InUse, Geometry.BytPerClu, Geometry.Entries, U32;
      var rest := count;
      if rest > U32(size as int - pos as int) { rest := U32(size as int - pos as int); }
      ClusterPositive(vol.g, vol.disk);
      var bytPerClu := vol.g.BytPerClu();
      var clu := CluByOrder(CluIndex(pos, bytPerClu), chain);
      var off: nat := InClu(pos, bytPerClu);
      Locate(pos, bytPerClu);
      ContentSize(vol.g, vol.disk, chain);
      FirstCluInUse(vol.g, vol.disk, chain, clu, CluIndex(pos, bytPerClu));
      ghost var k: nat, start, want, all := CluIndex(pos, bytPerClu), pos, rest, Bytes(chain);
      n := 0;
      while rest > 0
        invariant 0 <= rest && n + rest == want && pos == start + n
        invariant off < bytPerClu
        invariant rest > 0 ==> CluStart(k, bytPerClu) + off == pos
        invariant rest > 0 ==> if k < |chain| then clu == chain[k] && InUse(clu) else !InUse(clu)
        invariant start <= pos
        invariant n > 0 ==> pos <= |all| && buf[..n] == all[start..pos]
      {
        if !InUse(clu) {
          assert k >= |chain|;
          StartMonotone(|chain|, k, bytPerClu);
          return 0;
        }
        var read := bytPerClu - off;
        if rest < read { read := rest; }
        ChainStep(Fat(vol.g, vol.disk), chain, k);
        ReadPiece(buf, n, clu, off, read, all, start, chain, k);
        NextStart(k, bytPerClu);
        pos, n, off, rest, k := pos + read, n + read, 0, rest - read, k + 1;
        if rest > 0 {
          clu := vol.NextClu(clu);
        }
      }
    }

    /** One turn of the write loop's copying: read the cluster when part of it has to be kept, otherwise
        take a fresh buffer whose other bytes are arbitrary, and store the whole cluster. */
    method StorePiece(clu: nat, off: nat, x: seq<byte>)
      requires vol.Valid() && 2 <= clu < vol.g.Entries() && off + |x| <= vol.g.BytPerClu()
      modifies vol`disk
      ensures vol.Valid() && Fat(vol.g, vol.disk) == Fat(vol.g, old(vol.disk))
      ensures Clu(vol.g, vol.disk, clu)[..off + |x|] == Clu(vol.g, old(vol.disk), clu)[..off] + x
      ensures off != 0 ==> Clu(vol.g, vol.disk, clu)[off + |x|..] == Clu(vol.g, old(vol.disk), clu)[off + |x|..]
      ensures forall c :: 2 <= c < vol.g.Entries() && c != clu ==> Clu(vol.g, vol.disk, c) == Clu(vol.g, old(vol.disk), c)
    {
      hide Fits, Fat, Clu, Splice, Geometry.BytPerClu, Geometry.Entries;
      var cluData: array<byte>;
      if off != 0 {
        cluData := vol.ReadClu(clu);
      } else {
        cluData := new byte[vol.g.BytPerClu()];
      }
      ghost var before := cluData[..];
      CopyIn(cluData, off, x);
      ghost var stored := cluData[..];
      assert stored[..off + |x|] == cluData[..off + |x|];
      SpliceElsewhere(before, off, x, off + |x|, |before|);
      assert before[off + |x|..|before|] == before[off + |x|..] && stored[off + |x|..|stored|] == stored[off + |x|..];
      vol.WriteClu(clu, cluData);
    }

    /** One turn of the write loop: the piece `x` is stored behind `w`. The write began in cluster `k0` at `off0`. */
    method StoreNext(clu: nat, off: nat, x: seq<byte>, ghost d0: seq<byte>, ghost s0: seq<nat>, ghost s: seq<nat>,
                     ghost start: nat, ghost w: seq<byte>, ghost k: nat, ghost k0: nat, ghost off0: nat)
      requires Stored(vol.g, d0, vol.disk, s0, s, start, w) && k < |s| && clu == s[k] && k0 < |s0| && 0 < |x|
      requires CluStart(k, vol.g.BytPerClu()) + off == start + |w| && off + |x| <= vol.g.BytPerClu()
      requires if w == [] then k == k0 && off == off0 else off0 + |w| >= vol.g.BytPerClu()
      requires off0 != 0 && w == [] ==> TailKept(vol.g, d0, vol.disk, s0, k0, off0)
      modifies vol`disk
      ensures Stored(vol.g, d0, vol.disk, s0, s, start, w + x) && vol.Valid()
      ensures off0 != 0 ==> TailKept(vol.g, d0, vol.disk, s0, k0, off0 + |w| + |x|)
    {
      hide TailKept, Fits, Fat, Clu, Stored, IsChain, InUse, End, Grown, CluStart, Geometry.BytPerClu, Geometry.Entries;
      ghost var g, d := vol.g, vol.disk;
      StoredFacts(g, d0, d, s0, s, start, w);
      ChainStep(Fat(g, d), s, k);
      StorePiece(clu, off, x);
      StoredPiece(g, d0, d, vol.disk, s0, s, start, w, k, off, x);
      StoredBoth(g, d0, vol.disk, s0, s, start, w + x);
      if off0 + |w| + |x| >= g.BytPerClu() {
        TailKeptElsewhere(g, d0, vol.disk, s0, k0, off0 + |w| + |x|);
      } else if off0 != 0 {
        TailKeptStep(g, d0, d, vol.disk, s0, s, k, off, |x|);
      }
    }

    /** The write loop's growing step. */
    method Grow(ghost d0: seq<byte>, ghost s0: seq<nat>, ghost s: seq<nat>, ghost start: nat, ghost w: seq<byte>)
      returns (clu: nat)
      requires Stored(vol.g, d0, vol.disk, s0, s, start, w) && s0[0] == data
      requires OnBoundary(vol.g.FatAddr() + vol.g.FatBytes(), vol.g.blockSize) && ReservedEntries(Fat(vol.g, d0))
      modifies vol`disk
      ensures InUse(clu) ==> Stored(vol.g, d0, vol.disk, s0, s + [clu], start, w)
      ensures !InUse(clu) ==> vol.Valid() && CountFree(Fat(vol.g, old(vol.disk))) == 0 && !IsChain(Fat(vol.g, vol.disk), s)
    {
      hide Fits, Fat, Clu, Content, Stored, IsChain, Grown, CountFree;
      hide Geometry.BytPerClu, Geometry.Entries, Geometry.FatAddr, Geometry.FatBytes, OnBoundary, ReservedEntries;
      ghost var g, d := vol.g, vol.disk;
      StoredFacts(g, d0, d, s0, s, start, w);
      ghost var fat := Fat(g, d);
      FreeExists(fat);
      StarvedChainBroken(fat, s);
      ChainBounds(fat, s);
      clu := vol.AllocClu(data, s);
      if InUse(clu) {
        StoredAppend(g, d0, d, vol.disk, s0, s, start, w, clu);
      }
    }

    /** The write loop, from offset `first` of cluster `clu`, the one with number `k0` in the chain or 0 behind it. */
    method StoreAll(buf: seq<byte>, clu0: nat, first: nat, ghost chain: seq<nat>, ghost k0: nat)
      returns (n: int, ghost chain': seq<nat>)
      requires On(chain) && 0 < vol.g.BytPerClu() && first < vol.g.BytPerClu()
      requires OnBoundary(vol.g.FatAddr() + vol.g.FatBytes(), vol.g.blockSize)
      requires ReservedEntries(Fat(vol.g, vol.disk))
      requires CluStart(k0, vol.g.BytPerClu()) + first == pos && clu0 == if k0 < |chain| then chain[k0] else 0
      requires k0 < |chain| ==> pos < |Bytes(chain)|
      modifies vol`disk
      ensures vol.Valid()
      ensures k0 >= |chain| ==> n == 0 && vol.disk == old(vol.disk) && chain' == chain
      ensures k0 < |chain| ==>
        var fat := Fat(vol.g, old(vol.disk));
        if CluCount(pos + |buf|, vol.g.BytPerClu()) <= |chain| + CountFree(fat) then
          && n == |buf| && On(chain')
          && |chain'| == Max(|chain|, CluCount(pos + |buf|, vol.g.BytPerClu()))
          && Stored(vol.g, old(vol.disk), vol.disk, chain, chain', pos, buf)
          && (first != 0 ==> TailKept(vol.g, old(vol.disk), vol.disk, chain, k0, first + |buf|))
        else
          n == -1 && chain <= chain' && |chain'| == |chain| + CountFree(fat) && !IsChain(Fat(vol.g, vol.disk), chain')
    {
      hide TailKept, Fits, Fat, Clu, Content, Stored, IsChain, InUse, End, Grown, CluStart, CluCount;
      hide Geometry.BytPerClu, Geometry.Entries, Geometry.FatAddr, Geometry.FatBytes, OnBoundary, ReservedEntries;
      ghost var g, d0 := vol.g, vol.disk;
      var bytPerClu := vol.g.BytPerClu();
      var clu, off: nat, written: nat, count := clu0, first, 0, |buf|;
      ghost var k: nat := k0;
      ghost var inside := k < |chain|;
      FirstCluInUse(g, d0, chain, clu, k);
      chain' := chain;
      ZeroIsNothing();
      if inside {
        StoredAtStart(g, d0, chain, pos);
        TailKeptAtStart(g, d0, chain, k, off);
      }
      while count > 0
        invariant 0 <= count && written + count == |buf| && off < bytPerClu
        invariant vol.Valid() && (inside ==> Stored(g, d0, vol.disk, chain, chain', pos, buf[..written]))
        invariant inside && count > 0 ==> CluStart(k, bytPerClu) + off == pos + written && k <= |chain'|
        invariant inside && count > 0 ==>
          (if k < |chain'| then clu == chain'[k] && InUse(clu) else off == 0 && End(clu) && !InUse(clu))
        invariant inside && first != 0 ==> TailKept(g, d0, vol.disk, chain, k0, first + written)
        invariant NotBeyond(g, chain, chain', pos + |buf|)
        invariant written == 0 ==> k == k0 && off == first
        invariant written > 0 && count > 0 ==> first + written >= bytPerClu
        invariant !inside ==> written == 0 && vol.disk == d0 && chain' == chain && clu == 0
      {
        var write := bytPerClu - off;
        if count < write { write := count; }
        ghost var d := vol.disk;
        if inside { StoredFacts(g, d0, d, chain, chain', pos, buf[..written]); }
        if !InUse(clu) {
          if End(clu) {
            clu := Grow(d0, chain, chain', pos, buf[..written]);
            if !InUse(clu) {
              StarvedWrite(g, d0, d, chain, chain', pos, buf[..written], pos + |buf|);
              return -1, chain';
            }
            chain' := chain' + [clu];
          } else {
            return 0, chain';
          }
        }
        StoreNext(clu, off, buf[written..written + write], d0, chain, chain', pos, buf[..written], k, k0, first);
        StoredFacts(g, d0, vol.disk, chain, chain', pos, buf[..written] + buf[written..written + write]);
        ChainStep(Fat(g, vol.disk), chain', k);
        JoinSlices(buf, 0, written, written + write);
        NextStart(k, bytPerClu);
        written, off, count, k := written + write, 0, count - write, k + 1;
        if count > 0 {
          clu := vol.NextClu(clu);
        }
      }
      n := written;
      assert buf[..written] == buf;
      if inside {
        FedWrite(g, d0, vol.disk, chain, chain', pos, buf);
        StoredFacts(g, d0, vol.disk, chain, chain', pos, buf);
      }
    }

    /** Writes `buf` at the position, growing the chain when it ends. A position behind the chain's last byte is
        answered with 0. From inside the chain the write succeeds exactly when the free entries suffice, and links no
        more clusters than it needs; a starved write takes all free ones and leaves the chain broken. */
    method Write(buf: seq<byte>, ghost chain: seq<nat>) returns (n: int, ghost chain': seq<nat>)
      requires On(chain)
      requires OnBoundary(vol.g.FatAddr() + vol.g.FatBytes(), vol.g.blockSize)
      requires ReservedEntries(Fat(vol.g, vol.disk))
      modifies this`pos, this`size, this`dirty, vol`disk
      ensures vol.Valid() && 0 < vol.g.BytPerClu()
      ensures old(pos) >= |old(Bytes(chain))| ==>
        n == 0 && vol.disk == old(vol.disk) && chain' == chain && pos == old(pos) && size == old(size)
      ensures old(pos) < |old(Bytes(chain))| ==>
        var fat := Fat(vol.g, old(vol.disk));
        if CluCount(old(pos) + |buf|, vol.g.BytPerClu()) <= |chain| + CountFree(fat) then
          && n == |buf| && On(chain')
          && |chain'| == Max(|chain|, CluCount(old(pos) + |buf|, vol.g.BytPerClu()))
          && Stored(vol.g, old(vol.disk), vol.disk, chain, chain', old(pos), buf)
          && (InClu(old(pos), vol.g.BytPerClu()) != 0 ==>
                TailKept(vol.g, old(vol.disk), vol.disk, chain, CluIndex(old(pos), vol.g.BytPerClu()),
                         InClu(old(pos), vol.g.BytPerClu()) + |buf|))
          && pos == old(pos) + |buf| && size == (if 0 < |buf| && pos > old(size) then pos else old(size))
        else
          && n == -1 && chain <= chain' && |chain'| == |chain| + CountFree(fat) && !IsChain(Fat(vol.g, vol.disk), chain')
          && pos == old(pos) && size == old(size)
      ensures dirty == (old(dirty) || size != old(size))
    {
      hide TailKept, Fits, Fat, Clu, Content, Stored, IsChain, InUse, End, CluStart, CluIndex, InClu, CluCount, CountFree;
      hide Geometry.BytPerClu, Geometry.Entries, Geometry.FatAddr, Geometry.FatBytes, OnBoundary, ReservedEntries;
      ClusterPositive(vol.g, vol.disk);
      var bytPerClu := vol.g.BytPerClu();
      Locate(pos, bytPerClu);
      StartInside(vol.g, vol.disk, chain, pos);
      var clu := CluByOrder(CluIndex(pos, bytPerClu), chain);
      n, chain' := StoreAll(buf, clu, InClu(pos, bytPerClu), chain, CluIndex(pos, bytPerClu));
      if n > 0 {
        pos := pos + n;
        if pos > size {
          size, dirty := pos, true;
        }
      }
    }

    /** Reading back from where a successful write began returns exactly the written bytes. */
    method WriteThenRead(buf: seq<byte>, out: array<byte>, ghost chain: seq<nat>) returns (n: nat, ghost chain': seq<nat>)
      requires On(chain) && pos < |Bytes(chain)| && 0 < |buf| <= out.Length
      requires OnBoundary(vol.g.FatAddr() + vol.g.FatBytes(), vol.g.blockSize)
      requires ReservedEntries(Fat(vol.g, vol.disk)) && 0 < vol.g.BytPerClu()
      requires CluCount(pos + |buf|, vol.g.BytPerClu()) <= |chain| + CountFree(Fat(vol.g, vol.disk))
      requires pos + |buf| < TWO32 && size < TWO32
      modifies this`pos, this`size, this`dirty, vol`disk, out
      ensures n == |buf| && out[..n] == buf
      ensures Stored(vol.g, old(vol.disk), vol.disk, chain, chain', old(pos), buf)
    {
      hide Fits, Fat, Content, IsChain, Grown, ClustersKept, CluCount, CountFree;
      hide Geometry.BytPerClu, Geometry.FatAddr, Geometry.FatBytes, OnBoundary, ReservedEntries;
      var start := pos;
      ghost var before := Bytes(chain);
      var written;
      written, chain' := Write(buf, chain);
      pos := start;
      ghost var after := Bytes(chain');
      assert after[start..start + |buf|] == buf by {
        assert after[..start + |buf|] == before[..start] + buf;
        assert (before[..start] + buf)[start..] == buf;
        assert after[..start + |buf|][start..] == after[start..start + |buf|];
      }
      n := Read(out, |buf|, chain');
    }

    /** fat32_close of a file that is not to be deleted: the directory entry is rewritten if something has changed,
        `found` says whether it is still there. */
    method Close(found: bool) returns (r: int)
      modifies this`dirty, this`recorded
      ensures !dirty && (r == 0 <==> !old(dirty) || found) && (r == 0 || r == -1)
      ensures recorded == if old(dirty) && found then size else old(recorded)
    {
      r := 0;
      if dirty {
        if found { recorded := size; } else { r := -1; }
        dirty := false;
      }
    }

    /** Any run of writes to a file just opened, each from a position of its own, and then a close: the directory
        entry holds the size up to which the successful writes have come. `ns` are the answers of the writes; the
        first starved one ends the run. */
    method WriteAndClose(at: seq<nat>, bufs: seq<seq<byte>>, ghost chain: seq<nat>) returns (ns: seq<int>)
      requires On(chain) && !dirty && recorded == size && |at| == |bufs|
      requires OnBoundary(vol.g.FatAddr() + vol.g.FatBytes(), vol.g.blockSize)
      requires ReservedEntries(Fat(vol.g, vol.disk))
      modifies this`pos, this`size, this`dirty, this`recorded, vol`disk
      ensures |ns| <= |at| && (|ns| < |at| ==> ns != [] && ns[|ns| - 1] == -1)
      ensures forall k :: 0 <= k < |ns| ==> ns[k] == |bufs[k]| || ns[k] == 0 || ns[k] == -1
      ensures recorded == size == ReachedSize(old(size), at, ns) && !dirty
    {
      hide Fits, Fat, IsChain, Stored, TailKept, CluCount, CountFree, Content, CluIndex, InClu;
      hide Geometry.BytPerClu, Geometry.FatAddr, Geometry.FatBytes, OnBoundary, ReservedEntries;
      ns := [];
      ghost var s, g := chain, vol.g;
      while |ns| < |at|
        invariant |ns| <= |at| && vol.g == g && (dirty || recorded == size)
        invariant On(s) && OnBoundary(vol.g.FatAddr() + vol.g.FatBytes(), vol.g.blockSize)
        invariant ReservedEntries(Fat(vol.g, vol.disk))
        invariant forall k :: 0 <= k < |ns| ==> ns[k] == |bufs[k]| || ns[k] == 0
        invariant size == ReachedSize(old(size), at, ns)
      {
        var k := |ns|;
        pos := at[k];
        ghost var d, s' := vol.disk, s;
        var n;
        n, s' := Write(bufs[k], s);
        ns := ns + [n];
        assert ns[..k] + [n] == ns && ns[..|ns| - 1] == ns[..k];
        if n < 0 { break; }
        if at[k] < |Content(g, d, s)| { StoredFacts(g, d, vol.disk, s, s', at[k], bufs[k]); }
        s := s';
      }
      var r := Close(true);
    }
  }

  /** The size after writes at those positions with those answers. */
  function ReachedSize(size: nat, at: seq<nat>, ns: seq<int>): nat
    requires |ns| <= |at|
  {
    if ns == [] then size
    else
      var k := |ns| - 1;
      var was := ReachedSize(size, at, ns[..k]);
      if ns[k] > 0 && at[k] + ns[k] > was then at[k] + ns[k] else was
  }

  /** It is the greatest of the old size and the ends of the writes that stored something. */
  lemma {:induction false} ReachedIsGreatest(size: nat, at: seq<nat>, ns: seq<int>)
    requires |ns| <= |at|
    ensures var r := ReachedSize(size, at, ns);
      && size <= r && (forall k :: 0 <= k < |ns| && ns[k] > 0 ==> at[k] + ns[k] <= r)
      && (r == size || exists k :: 0 <= k < |ns| && ns[k] > 0 && at[k] + ns[k] == r)
  {
    if ns != [] {
      var k := |ns| - 1;
      ReachedIsGreatest(size, at, ns[..k]);
      assert forall j :: 0 <= j < k ==> ns[..k][j] == ns[j];
    }
  }
}
