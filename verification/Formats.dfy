/** The formats on disk in numbers: where a FAT32 volume has its entries and clusters, and the bytes of a BXML
    document. */
module Formats {
  import opened Wrappers
  import opened ByteSeq
  import opened Fat32Layout
  import opened Fat32Table
  import opened BxmlTree
  import B = BxmlBinary

  /** Words lie in memory with the lowest byte first. */
  lemma LowestFirst(b: seq<byte>)
    requires |b| == 4
    ensures FromLe32(b) == b[0] as int + 0x100 * b[1] as int + 0x1_0000 * b[2] as int + 0x100_0000 * b[3] as int
    ensures FromLe16(b[..2]) == b[0] as int + 0x100 * b[1] as int
  {
  }

  /** Entry `c` of the table is the word at four times `c` behind the reserved sectors. */
  lemma TableEntry(g: Geometry, d: seq<byte>, c: nat)
    requires Fits(g, d) && c < 128 * g.secPerFat
    ensures |Fat(g, d)| == 128 * g.secPerFat
    ensures var a := 512 * g.secReserved + 4 * c; a + 4 <= |d| && Fat(g, d)[c] == FromLe32(d[a..a + 4])
  {
    EntryFits(g, d, c);
  }

  /** Cluster 2 lies behind the tables, and each further one behind the one before. */
  lemma ClusterBytes(g: Geometry, d: seq<byte>, c: nat) returns (a: nat, n: nat)
    requires Fits(g, d) && 2 <= c < 128 * g.secPerFat
    ensures a == 512 * (g.secReserved + g.fats * g.secPerFat) + (c - 2) * (512 * g.secPerClu) && n == 512 * g.secPerClu
    ensures a + n <= |d| && Clu(g, d, c) == d[a..a + n]
  {
    hide Fits;
    CluFits(g, d, c);
    a, n := g.CluAddr(c), g.BytPerClu();
  }

  /** A file's clusters: numbers from 2 on, each entry the next one, the last entry an end mark. */
  lemma ChainIs(fat: seq<nat>, s: seq<nat>)
    requires |fat| < 0x0fff_ffef
    ensures IsChain(fat, s) <==>
      && s != [] && (forall i :: 0 <= i < |s| ==> 2 <= s[i] < |fat|)
      && (forall i :: 0 <= i < |s| - 1 ==> fat[s[i]] == s[i + 1]) && fat[s[|s| - 1]] >= 0x0fff_fff8
  {
  }

  /** A chain that has grown ends in the new cluster, which is marked with all bits set. */
  lemma GrownChain(fat: seq<nat>, s: seq<nat>, n: nat)
    requires IsChain(fat, s) && 2 <= n < |fat| && fat[n] == 0
    ensures var f, last := Appended(fat, s, n), s[|s| - 1];
      && |f| == |fat| && f[last] == n && f[n] == 0xffff_ffff
      && forall k :: 0 <= k < |fat| && k != n && k != last ==> f[k] == fat[k]
  {
    ChainNotFree(fat, s);
    assert s[|s| - 1] in s;
  }

  // ----- BXML -----

  const SAMPLE: Node := Node([97], [120, 121], [Node([98], [99], [], [])], [Node([100], [], [], [])])

  lemma SampleLeaves()
    ensures B.Fits(SAMPLE.attrs[0]) && B.Encode(SAMPLE.attrs[0]) == [1, 98, 0, 0, 0, 1, 0, 0, 0, 99]
    ensures B.Fits(SAMPLE.children[0]) && B.Encode(SAMPLE.children[0]) == [1, 100, 0, 0, 0, 0, 0, 0, 0]
  {
    assert B.Head(SAMPLE.attrs[0]) == [1, 98, 0, 0, 0, 1, 0, 0, 0, 99];
    assert B.Head(SAMPLE.children[0]) == [1, 100, 0, 0, 0, 0, 0, 0, 0];
  }

  lemma SampleNode()
    ensures B.Fits(SAMPLE)
    ensures B.Encode(SAMPLE) == [1, 97, 1, 1, 0, 2, 0, 0, 0, 120, 121] + [1, 98, 0, 0, 0, 1, 0, 0, 0, 99] + [1, 100, 0, 0, 0, 0, 0, 0, 0]
  {
    SampleLeaves();
    assert SAMPLE.attrs[1..] == [] && SAMPLE.children[1..] == [];
    assert B.Head(SAMPLE) == [1, 97, 1, 1, 0, 2, 0, 0, 0, 120, 121];
    hide B.Head;
    assert B.EncodeAll(SAMPLE.attrs, 256) == B.Encode(SAMPLE.attrs[0]) + [];
    assert B.EncodeAll(SAMPLE.children, 65536) == B.Encode(SAMPLE.children[0]) + [];
  }

  /** A document of version 0x0102 with flag 3: `BXML`, version, flag, nine zeros; then each node as the length of
      its name, the name, the numbers of its attributes and children, the length of its value, the value, and behind
      it the attributes and the children. */
  lemma SampleBytes()
    ensures B.DocumentFits(B.Document(0x0102, 3, SAMPLE))
    ensures B.EncodeDocument(B.Document(0x0102, 3, SAMPLE)) ==
      [66, 88, 77, 76, 2, 1, 3, 0, 0, 0, 0, 0, 0, 0, 0, 0] + [1, 97, 1, 1, 0, 2, 0, 0, 0, 120, 121]
      + [1, 98, 0, 0, 0, 1, 0, 0, 0, 99] + [1, 100, 0, 0, 0, 0, 0, 0, 0]
  {
    SampleNode();
    hide B.Encode;
    assert Le32(0x4c4d_5842) == [66, 88, 77, 76] && Le16(0x0102) == [2, 1];
  }
}
