/** The disk read as a table of entries plus clusters, and cluster chains through that table. */
module Fat32Table {
  import opened ByteSeq
  import opened Fat32Layout

  /** The first table lies within the disk, and so does every cluster the table has an entry for. */
  ghost predicate Fits(g: Geometry, d: seq<byte>) {
    && g.Valid()
    && |d| % g.blockSize == 0
    && 3 <= g.Entries() < 0x0fffffef
    && g.CluAddr(g.Entries()) <= |d|
    && g.CluSector(g.Entries()) <= TWO32
  }

  lemma CluFits(g: Geometry, d: seq<byte>, c: nat)
    requires Fits(g, d) && 2 <= c < g.Entries()
    ensures g.DataAddr() <= g.CluAddr(c) && g.CluAddr(c) + g.BytPerClu() <= |d|
    ensures g.CluSector(c) < TWO32
  {
    ClustersApart(g, c, g.Entries());
    CluAddrIsSector(g, c);
    CluAddrIsSector(g, g.Entries());
  }

  lemma EntryFits(g: Geometry, d: seq<byte>, c: nat)
    requires Fits(g, d) && c < g.Entries()
    ensures g.FatAddr() + 4 * c + 4 <= g.FatAddr() + g.FatBytes() <= g.DataAddr() <= |d|
  {
    FatBeforeData(g);
    ClustersApart(g, 2, g.Entries());
  }

  /** Entry `c` of the first table. */
  ghost function Entry(g: Geometry, d: seq<byte>, c: nat): (v: nat)
    requires Fits(g, d) && c < g.Entries()
  {
    EntryFits(g, d, c);
    FromLe32(d[g.FatAddr() + 4 * c..g.FatAddr() + 4 * c + 4])
  }

  ghost function Fat(g: Geometry, d: seq<byte>): (fat: seq<nat>)
    requires Fits(g, d)
    ensures |fat| == g.Entries()
    ensures forall c :: 0 <= c < |fat| ==> fat[c] == Entry(g, d, c)
  {
    seq(g.Entries(), c requires 0 <= c < g.Entries() => Entry(g, d, c))
  }

  /** The bytes of cluster `c`. */
  ghost function Clu(g: Geometry, d: seq<byte>, c: nat): (data: seq<byte>)
    requires Fits(g, d) && 2 <= c < g.Entries()
    ensures |data| == g.BytPerClu()
  {
    CluFits(g, d, c);
    d[g.CluAddr(c)..g.CluAddr(c) + g.BytPerClu()]
  }

  /** `d` with table entry `c` set to `v`. */
  ghost function WithEntry(g: Geometry, d: seq<byte>, c: nat, v: nat): (d': seq<byte>)
    requires Fits(g, d) && c < g.Entries() && v < TWO32
    ensures Fits(g, d')
  {
    EntryFits(g, d, c);
    Splice(d, g.FatAddr() + 4 * c, Le32(v))
  }

  /** `d` with cluster `c` overwritten. */
  ghost function WithClu(g: Geometry, d: seq<byte>, c: nat, x: seq<byte>): (d': seq<byte>)
    requires Fits(g, d) && 2 <= c < g.Entries() && |x| == g.BytPerClu()
    ensures Fits(g, d')
  {
    CluFits(g, d, c);
    Splice(d, g.CluAddr(c), x)
  }

  /** Setting an entry changes that entry of the table and no cluster. */
  lemma WithEntryEffect(g: Geometry, d: seq<byte>, c: nat, v: nat)
    requires Fits(g, d) && c < g.Entries() && v < TWO32
    ensures Fat(g, WithEntry(g, d, c, v)) == Fat(g, d)[c := v]
    ensures forall k :: 2 <= k < g.Entries() ==> Clu(g, WithEntry(g, d, c, v), k) == Clu(g, d, k)
  {
    var d' := WithEntry(g, d, c, v);
    forall k | 0 <= k < g.Entries()
      ensures Entry(g, d', k) == if k == c then v else Entry(g, d, k)
    {
      EntryAfter(g, d, c, v, k);
    }
    forall k | 2 <= k < g.Entries()
      ensures Clu(g, d', k) == Clu(g, d, k)
    {
      EntryFits(g, d, c);
      CluFits(g, d, k);
      SpliceElsewhere(d, g.FatAddr() + 4 * c, Le32(v), g.CluAddr(k), g.CluAddr(k) + g.BytPerClu());
    }
  }

  lemma EntryAfter(g: Geometry, d: seq<byte>, c: nat, v: nat, k: nat)
    requires Fits(g, d) && c < g.Entries() && v < TWO32 && k < g.Entries()
    ensures Entry(g, WithEntry(g, d, c, v), k) == if k == c then v else Entry(g, d, k)
  {
    EntryFits(g, d, c);
    EntryFits(g, d, k);
    if k == c {
      Le32RoundTrip(v);
    } else {
      SpliceElsewhere(d, g.FatAddr() + 4 * c, Le32(v), g.FatAddr() + 4 * k, g.FatAddr() + 4 * k + 4);
    }
  }

  /** Overwriting a cluster changes that cluster, no other cluster and no table entry. */
  lemma WithCluEffect(g: Geometry, d: seq<byte>, c: nat, x: seq<byte>)
    requires Fits(g, d) && 2 <= c < g.Entries() && |x| == g.BytPerClu()
    ensures Fat(g, WithClu(g, d, c, x)) == Fat(g, d)
    ensures Clu(g, WithClu(g, d, c, x), c) == x
    ensures forall k :: 2 <= k < g.Entries() && k != c ==> Clu(g, WithClu(g, d, c, x), k) == Clu(g, d, k)
  {
    var d' := WithClu(g, d, c, x);
    CluFits(g, d, c);
    forall k | 0 <= k < g.Entries()
      ensures Entry(g, d', k) == Entry(g, d, k)
    {
      EntryFits(g, d, k);
      SpliceElsewhere(d, g.CluAddr(c), x, g.FatAddr() + 4 * k, g.FatAddr() + 4 * k + 4);
    }
    forall k | 2 <= k < g.Entries() && k != c
      ensures Clu(g, d', k) == Clu(g, d, k)
    {
      CluFits(g, d, k);
      if k < c { ClustersApart(g, k, c); } else { ClustersApart(g, c, k); }
      SpliceElsewhere(d, g.CluAddr(c), x, g.CluAddr(k), g.CluAddr(k) + g.BytPerClu());
    }
  }

  // ----- chains -----

  predicate InUse(c: nat) { 2 <= c < 0x0fffffef }

  predicate End(c: nat) { 0x0ffffff8 <= c }

  const END_MARK: nat := 0xffff_ffff

  /** `s` lists the clusters of a file in order: each links to the next, the last to an end mark. */
  ghost predicate IsChain(fat: seq<nat>, s: seq<nat>) {
    && |fat| < 0x0fffffef
    && 0 < |s|
    && (forall i :: 0 <= i < |s| ==> 2 <= s[i] < |fat|)
    && (forall i :: 0 <= i < |s| - 1 ==> fat[s[i]] == s[i + 1])
    && End(fat[s[|s| - 1]])
  }

  /** Following one link: the next cluster, or something not in use at the chain's end. */
  lemma ChainStep(fat: seq<nat>, s: seq<nat>, k: nat)
    requires IsChain(fat, s) && k < |s|
    ensures 2 <= s[k] < |fat| && InUse(s[k])
    ensures if k + 1 < |s| then fat[s[k]] == s[k + 1] && InUse(s[k + 1])
      else End(fat[s[k]]) && !InUse(fat[s[k]])
  {
  }

  lemma ChainBounds(fat: seq<nat>, s: seq<nat>)
    requires IsChain(fat, s)
    ensures 0 < |s| && |fat| < 0x0fffffef && s[|s| - 1] < |fat|
  {
  }

  /** Clusters that two chains share are followed by the same clusters. */
  lemma {:induction false} SharedTail(fat: seq<nat>, s: seq<nat>, t: seq<nat>, i: nat, j: nat)
    requires IsChain(fat, s) && IsChain(fat, t)
    requires i < |s| && j < |t| && s[i] == t[j]
    ensures s[i..] == t[j..]
    decreases |s| - i
  {
    assert i < |s| - 1 ==> fat[s[i]] == s[i + 1];
    assert j < |t| - 1 ==> fat[t[j]] == t[j + 1];
    if i < |s| - 1 && j < |t| - 1 {
      SharedTail(fat, s, t, i + 1, j + 1);
      assert s[i..] == [s[i]] + s[i + 1..] && t[j..] == [t[j]] + t[j + 1..];
    } else {
      assert s[i..] == [s[i]] && t[j..] == [t[j]];
    }
  }

  /** No chain runs in a circle. */
  lemma ChainAcyclic(fat: seq<nat>, s: seq<nat>)
    requires IsChain(fat, s)
    ensures forall i, j :: 0 <= i < j < |s| ==> s[i] != s[j]
  {
    forall i, j | 0 <= i < j < |s|
      ensures s[i] != s[j]
    {
      if s[i] == s[j] {
        SharedTail(fat, s, s, i, j);
      }
    }
  }

  /** Two files never share a cluster, unless one's chain is a tail of the other's. */
  lemma ChainsApart(fat: seq<nat>, s: seq<nat>, t: seq<nat>, i: nat, j: nat)
    requires IsChain(fat, s) && IsChain(fat, t)
    requires i < |s| && j < |t| && s[i] == t[j]
    ensures s[|s| - 1] == t[|t| - 1]
  {
    SharedTail(fat, s, t, i, j);
    assert s[|s| - 1] == s[i..][|s| - 1 - i] && t[|t| - 1] == t[j..][|t| - 1 - j];
  }

  /** The clusters of a file are not free. */
  lemma ChainNotFree(fat: seq<nat>, s: seq<nat>)
    requires IsChain(fat, s)
    ensures forall c :: c in s ==> c < |fat| && fat[c] != 0
  {
    forall i | 0 <= i < |s|
      ensures fat[s[i]] != 0
    {
      assert i < |s| - 1 ==> fat[s[i]] == s[i + 1];
    }
  }

  ghost predicate Disjoint(s: seq<nat>, t: seq<nat>) {
    forall c :: c in s ==> c !in t
  }

  // ----- free entries -----

  /** Lowest free entry at or after `from`, or the table's length. */
  function FirstFree(fat: seq<nat>, from: nat): (c: nat)
    requires from <= |fat|
    ensures from <= c <= |fat|
    ensures c < |fat| ==> fat[c] == 0
    ensures forall k :: from <= k < c ==> fat[k] != 0
    decreases |fat| - from
  {
    if from == |fat| || fat[from] == 0 then from else FirstFree(fat, from + 1)
  }

  function CountFree(fat: seq<nat>): (n: nat) {
    if fat == [] then 0
    else CountFree(fat[..|fat| - 1]) + if fat[|fat| - 1] == 0 then 1 else 0
  }

  lemma {:induction false} CountFreeUpdate(fat: seq<nat>, c: nat, v: nat)
    requires c < |fat|
    ensures CountFree(fat[c := v]) ==
      CountFree(fat) - (if fat[c] == 0 then 1 else 0) + (if v == 0 then 1 else 0)
  {
    var n := |fat| - 1;
    if c == n {
      assert fat[c := v][..n] == fat[..n];
    } else {
      assert fat[c := v][..n] == fat[..n][c := v];
      CountFreeUpdate(fat[..n], c, v);
    }
  }

  lemma {:induction false} NoneFree(fat: seq<nat>)
    ensures CountFree(fat) == 0 <==> forall k :: 0 <= k < |fat| ==> fat[k] != 0
  {
    if fat == [] {
    } else {
      var n := |fat| - 1;
      NoneFree(fat[..n]);
      assert forall k :: 0 <= k < n ==> fat[..n][k] == fat[k];
    }
  }

  /** The search for a free entry fails exactly when the free count is zero. */
  lemma FreeExists(fat: seq<nat>)
    ensures FirstFree(fat, 0) < |fat| <==> 0 < CountFree(fat)
  {
    NoneFree(fat);
  }

  /** What linking a fresh cluster `n` behind the end of `s` does to the table. */
  ghost function Appended(fat: seq<nat>, s: seq<nat>, n: nat): seq<nat>
    requires IsChain(fat, s) && n < |fat|
  {
    fat[n := END_MARK][s[|s| - 1] := n]
  }

  lemma AppendChain(fat: seq<nat>, s: seq<nat>, n: nat)
    requires IsChain(fat, s) && 2 <= n < |fat| && fat[n] == 0
    ensures IsChain(Appended(fat, s, n), s + [n])
    ensures n !in s
  {
    ChainAcyclic(fat, s);
    var last := s[|s| - 1];
    ChainNotFree(fat, s);
    var fat' := Appended(fat, s, n);
    assert fat'[n] == END_MARK && fat'[last] == n;
  }

  /** Another file's chain is still a chain, and still disjoint. */
  lemma AppendKeepsOthers(fat: seq<nat>, s: seq<nat>, n: nat, t: seq<nat>)
    requires IsChain(fat, s) && 2 <= n < |fat| && fat[n] == 0
    requires IsChain(fat, t) && Disjoint(s, t)
    ensures IsChain(Appended(fat, s, n), t)
    ensures Disjoint(s + [n], t)
  {
    ChainNotFree(fat, t);
    assert s[|s| - 1] in s;
    assert forall i :: 0 <= i < |t| ==> t[i] in t;
  }

  /** With no free entry the last link is overwritten with 0: the list is no longer a chain. */
  lemma StarvedChainBroken(fat: seq<nat>, s: seq<nat>)
    requires IsChain(fat, s)
    ensures !IsChain(fat[s[|s| - 1] := 0], s)
  {
  }
}
