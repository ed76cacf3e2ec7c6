/** The binary form of BXML documents: exact sizes, writing into a buffer, reading back. */
module BxmlBinary {
  import opened Wrappers
  import opened ByteSeq
  import opened BxmlTree

  const MAX_ATTRS: nat := 255
  const MAX_CHILDREN: nat := 65535
  const MAX_VALUE: nat := 0x7fff_fef9   // a larger one would wrap the 32-bit space computation

  /** Lengths fit the node's own length fields. */
  predicate Fits(n: Node)
    decreases n, 0
  {
    |n.name| <= 255 && |n.value| <= MAX_VALUE && FitsAll(n.attrs) && FitsAll(n.children)
  }

  predicate FitsAll(s: seq<Node>)
    decreases s, 1
  {
    s == [] || (Fits(s[0]) && FitsAll(s[1..]))
  }

  /** At every level no list is longer than `a` attributes and `c` children. */
  predicate Within(n: Node, a: nat, c: nat)
    decreases n, 0
  {
    |n.attrs| <= a && |n.children| <= c && WithinAll(n.attrs, a, c) && WithinAll(n.children, a, c)
  }

  predicate WithinAll(s: seq<Node>, a: nat, c: nat)
    decreases s, 1
  {
    s == [] || (Within(s[0], a, c) && WithinAll(s[1..], a, c))
  }

  // ----- sizes -----

  function Size(n: Node): nat
    decreases n, 0
  {
    8 + |n.name| + |n.value| + SizeAll(n.attrs) + SizeAll(n.children)
  }

  function SizeAll(s: seq<Node>): nat
    decreases s, 1
  {
    if s == [] then 0 else Size(s[0]) + SizeAll(s[1..])
  }

  // ----- the format -----

  /** The fixed part of a node: the counts are cut to their fields. */
  function Head(n: Node): (b: seq<byte>)
    requires |n.name| <= 255 && |n.value| <= MAX_VALUE
    ensures |b| == 8 + |n.name| + |n.value|
  {
    [|n.name|] + n.name + [Min(|n.attrs|, MAX_ATTRS + 1) % 256] + Le16(Min(|n.children|, MAX_CHILDREN + 1) % 0x1_0000)
      + Le32(|n.value|) + n.value
  }

  function Encode(n: Node): (b: seq<byte>)
    requires Fits(n)
    ensures |b| >= 8
    decreases n, 0
  {
    Head(n) + EncodeAll(n.attrs, MAX_ATTRS + 1) + EncodeAll(n.children, MAX_CHILDREN + 1)
  }

  /** The first `max` nodes one after the other. */
  function EncodeAll(s: seq<Node>, max: nat): (b: seq<byte>)
    requires FitsAll(s)
    decreases s, 1
  {
    if s == [] || max == 0 then [] else Encode(s[0]) + EncodeAll(s[1..], max - 1)
  }

  datatype Fixed = Fixed(name: seq<byte>, value: seq<byte>, attrCount: nat, childCount: nat, rest: seq<byte>)

  /** The fixed part at the front of `b`, if all of it is there. */
  function DecodeHead(b: seq<byte>): (r: Option<Fixed>)
    ensures r.Some? ==> |r.value.rest| + 8 <= |b| && r.value.attrCount <= 255 && r.value.childCount <= 65535
  {
    if |b| < 8 || |b| < 8 + b[0] as int then None
    else
      var k := b[0];
      var size := FromLe32(b[k + 4..k + 8]);
      if |b| < 8 + k + size then None
      else Some(Fixed(b[1..1 + k], b[8 + k..8 + k + size], b[1 + k], FromLe16(b[k + 2..k + 4]), b[8 + k + size..]))
  }

  /** The node at the front of `b` and what follows it; None when the bytes end too early. */
  function Decode(b: seq<byte>): (r: Option<(Node, seq<byte>)>)
    ensures r.Some? ==> |r.value.1| + 8 <= |b|
    decreases |b|, 0, 0
  {
    match DecodeHead(b)
    case None => None
    case Some(h) =>
      match DecodeAll(h.rest, h.attrCount, [])
      case None => None
      case Some((attrs, rest)) =>
        match DecodeAll(rest, h.childCount, [])
        case None => None
        case Some((children, rest')) => Some((Node(h.name, h.value, attrs, children), rest'))
  }

  /** `count` more nodes, each put in front of those read before it. */
  function DecodeAll(b: seq<byte>, count: nat, acc: seq<Node>): (r: Option<(seq<Node>, seq<byte>)>)
    ensures r.Some? ==> |r.value.1| <= |b| && |r.value.0| == |acc| + count
    decreases |b|, 1, count
  {
    if count == 0 then Some((acc, b))
    else
      match Decode(b)
      case None => None
      case Some((n, rest)) => DecodeAll(rest, count - 1, [n] + acc)
  }

  // ----- exact sizing -----

  lemma {:induction false} EncodeSize(n: Node)
    requires Fits(n)
    ensures |Encode(n)| <= Size(n)
    ensures |Encode(n)| == Size(n) <==> Within(n, 256, 65536)
    decreases n, 0
  {
    hide Head;
    EncodeAllSize(n.attrs, MAX_ATTRS + 1);
    EncodeAllSize(n.children, MAX_CHILDREN + 1);
  }

  lemma {:induction false} EncodeAllSize(s: seq<Node>, max: nat)
    requires FitsAll(s)
    ensures |EncodeAll(s, max)| <= SizeAll(s)
    ensures |EncodeAll(s, max)| == SizeAll(s) <==> |s| <= max && WithinAll(s, 256, 65536)
    decreases s, 1
  {
    if s == [] {
    } else if max == 0 {
    } else {
      EncodeSize(s[0]);
      EncodeAllSize(s[1..], max - 1);
    }
  }

  // ----- reading back -----

  lemma DecodeHeadHead(n: Node, rest: seq<byte>)
    requires |n.name| <= 255 && |n.value| <= MAX_VALUE
    ensures DecodeHead(Head(n) + rest) == Some(Fixed(n.name, n.value,
      Min(|n.attrs|, 256) % 256, Min(|n.children|, 65536) % 0x1_0000, rest))
  {
    var k, b := |n.name|, Head(n) + rest;
    var ac, cc := Min(|n.attrs|, MAX_ATTRS + 1) % 256, Min(|n.children|, MAX_CHILDREN + 1) % 0x1_0000;
    assert b[0] == k && b[1..1 + k] == n.name && b[1 + k] == ac;
    assert b[k + 2..k + 4] == Le16(cc);
    assert b[k + 4..k + 8] == Le32(|n.value|);
    Le16RoundTrip(cc);
    Le32RoundTrip(|n.value|);
    assert b[8 + k..8 + k + |n.value|] == n.value && b[8 + k + |n.value|..] == rest;
  }

  lemma EncodeParts(n: Node, rest: seq<byte>)
    requires Fits(n)
    ensures Encode(n) + rest == Head(n) + (EncodeAll(n.attrs, 256) + (EncodeAll(n.children, 65536) + rest))
  {
    hide Head, EncodeAll;
  }

  lemma {:induction false} DecodeEncode(n: Node, rest: seq<byte>)
    requires Fits(n) && Within(n, MAX_ATTRS, MAX_CHILDREN)
    ensures Decode(Encode(n) + rest) == Some((Mirror(n), rest))
    decreases n, 0
  {
    hide Head, DecodeHead, EncodeAll, DecodeAll;
    var attrs, children := EncodeAll(n.attrs, MAX_ATTRS + 1), EncodeAll(n.children, MAX_CHILDREN + 1);
    EncodeParts(n, rest);
    DecodeHeadHead(n, attrs + (children + rest));
    DecodeEncodeAll(n.attrs, MAX_ATTRS + 1, children + rest, []);
    DecodeEncodeAll(n.children, MAX_CHILDREN + 1, rest, []);
    assert MirrorAll(n.attrs) + [] == MirrorAll(n.attrs) && MirrorAll(n.children) + [] == MirrorAll(n.children);
  }

  lemma {:induction false} DecodeEncodeAll(s: seq<Node>, max: nat, rest: seq<byte>, acc: seq<Node>)
    requires FitsAll(s) && WithinAll(s, MAX_ATTRS, MAX_CHILDREN) && |s| <= max
    ensures DecodeAll(EncodeAll(s, max) + rest, |s|, acc) == Some((MirrorAll(s) + acc, rest))
    decreases s, 1
  {
    hide Encode, Decode;
    if s == [] {
      assert [] + rest == rest && [] + acc == acc;
    } else {
      var tail := EncodeAll(s[1..], max - 1) + rest;
      assert EncodeAll(s, max) + rest == Encode(s[0]) + tail;
      DecodeEncode(s[0], tail);
      DecodeEncodeAll(s[1..], max - 1, rest, [Mirror(s[0])] + acc);
      assert MirrorAll(s[1..]) + ([Mirror(s[0])] + acc) == MirrorAll(s) + acc;
    }
  }

  /** Nodes are only ever put in front of those read before. */
  lemma {:induction false} DecodeAllKeeps(b: seq<byte>, count: nat, acc: seq<Node>)
    requires DecodeAll(b, count, acc).Some?
    ensures DecodeAll(b, count, acc).value.0[count..] == acc
    decreases count
  {
    hide Decode;
    if count > 0 {
      var (n, rest) := Decode(b).value;
      DecodeAllKeeps(rest, count - 1, [n] + acc);
      var got := DecodeAll(b, count, acc).value.0;
      assert got[count..] == got[count - 1..][1..];
    }
  }

  /** What comes back right was within the limits. */
  lemma {:induction false} MirroredIsWithin(n: Node, rest: seq<byte>, after: seq<byte>)
    requires Fits(n) && Decode(Encode(n) + rest) == Some((Mirror(n), after))
    ensures Within(n, 255, 65535)
    decreases n, 0
  {
    hide Head, DecodeHead, EncodeAll;
    var attrs, children := EncodeAll(n.attrs, MAX_ATTRS + 1), EncodeAll(n.children, MAX_CHILDREN + 1);
    EncodeParts(n, rest);
    DecodeHeadHead(n, attrs + (children + rest));
    assert MirrorAll(n.attrs) + [] == MirrorAll(n.attrs) && MirrorAll(n.children) + [] == MirrorAll(n.children);
    var h := DecodeHead(Encode(n) + rest).value;
    assert h.attrCount == |n.attrs| && h.childCount == |n.children|;
    var rest' := DecodeAll(h.rest, h.attrCount, []).value.1;
    MirroredAllWithin(n.attrs, MAX_ATTRS + 1, children + rest, [], rest');
    DecodeEncodeAll(n.attrs, MAX_ATTRS + 1, children + rest, []);
    MirroredAllWithin(n.children, MAX_CHILDREN + 1, rest, [], after);
  }

  lemma {:induction false} MirroredAllWithin(s: seq<Node>, max: nat, rest: seq<byte>, acc: seq<Node>, after: seq<byte>)
    requires FitsAll(s) && |s| <= max
    requires DecodeAll(EncodeAll(s, max) + rest, |s|, acc) == Some((MirrorAll(s) + acc, after))
    ensures WithinAll(s, 255, 65535)
    decreases s, 1
  {
    hide Encode, Decode;
    if s != [] {
      var tail := EncodeAll(s[1..], max - 1) + rest;
      assert EncodeAll(s, max) + rest == Encode(s[0]) + tail;
      var (n, r) := Decode(Encode(s[0]) + tail).value;
      DecodeAllKeeps(r, |s| - 1, [n] + acc);
      assert (MirrorAll(s) + acc)[|s| - 1..] == [Mirror(s[0])] + acc;
      assert ([n] + acc)[0] == n;
      MirroredIsWithin(s[0], tail, r);
      DecodeEncode(s[0], tail);
      assert MirrorAll(s[1..]) + ([n] + acc) == MirrorAll(s) + acc;
      MirroredAllWithin(s[1..], max - 1, rest, [n] + acc, after);
    }
  }

  // ----- whole documents -----

  const MAGIC: nat := 0x4c4d_5842
  const HEADER: nat := 16

  datatype Document = Document(version: nat, flag: byte, root: Node)

  predicate DocumentFits(d: Document) {
    d.version < 0x1_0000 && Fits(d.root)
  }

  function EncodeDocument(d: Document): (b: seq<byte>)
    requires DocumentFits(d)
    ensures |b| == 16 + |Encode(d.root)|
  {
    Le32(MAGIC) + Le16(d.version) + [d.flag] + [0, 0, 0, 0, 0, 0, 0, 0, 0] + Encode(d.root)
  }

  /** The space a caller sets aside for a document. */
  function BufferSize(d: Document): nat {
    HEADER + Size(d.root)
  }

  /** The space set aside always suffices, and is exactly used unless some list is cut short. */
  lemma ExactSize(d: Document)
    requires DocumentFits(d)
    ensures |EncodeDocument(d)| <= BufferSize(d)
    ensures |EncodeDocument(d)| == BufferSize(d) <==> Within(d.root, 256, 65536)
  {
    EncodeSize(d.root);
  }

  /** A document at the front of `b`; None when it does not start with the magic number or ends too early. */
  function DecodeDocument(b: seq<byte>): (r: Option<Document>) {
    if |b| < HEADER || FromLe32(b[..4]) != MAGIC then None
    else
      match Decode(b[HEADER..])
      case None => None
      case Some((root, _)) => Some(Document(FromLe16(b[4..6]), b[6], root))
  }

  function MirrorDocument(d: Document): Document {
    d.(root := Mirror(d.root))
  }

  lemma DocumentParts(d: Document, rest: seq<byte>)
    requires DocumentFits(d)
    ensures var b := EncodeDocument(d) + rest;
      FromLe32(b[..4]) == MAGIC && FromLe16(b[4..6]) == d.version && b[6] == d.flag && b[16..] == Encode(d.root) + rest
  {
    var b := EncodeDocument(d) + rest;
    assert b[..4] == Le32(MAGIC) && b[4..6] == Le16(d.version);
    Le32RoundTrip(MAGIC);
    Le16RoundTrip(d.version);
  }

  /** Building and reading a document gives its mirror image exactly when no node has more attributes or
      children than their count fields hold. */
  lemma BinaryRoundTrip(d: Document, rest: seq<byte>)
    requires DocumentFits(d)
    ensures DecodeDocument(EncodeDocument(d) + rest) == Some(MirrorDocument(d))
      <==> Within(d.root, 255, 65535)
  {
    DocumentParts(d, rest);
    hide EncodeDocument, Decode, Encode, Le16, Le32, FromLe16, FromLe32;
    if Within(d.root, MAX_ATTRS, MAX_CHILDREN) {
      DecodeEncode(d.root, rest);
    } else if DecodeDocument(EncodeDocument(d) + rest) == Some(MirrorDocument(d)) {
      MirroredIsWithin(d.root, rest, Decode(Encode(d.root) + rest).value.1);
    }
  }

  lemma {:induction false} MirrorFits(n: Node)
    requires Fits(n)
    ensures Fits(Mirror(n))
    decreases n, 0
  {
    MirrorAllFits(n.attrs);
    MirrorAllFits(n.children);
  }

  lemma {:induction false} MirrorAllFits(s: seq<Node>)
    requires FitsAll(s)
    ensures FitsAll(MirrorAll(s))
    decreases s, 1
  {
    if s != [] {
      MirrorFits(s[0]);
      MirrorAllFits(s[1..]);
      FitsAppend(MirrorAll(s[1..]), Mirror(s[0]));
    }
  }

  lemma {:induction false} FitsAppend(s: seq<Node>, x: Node)
    requires FitsAll(s) && Fits(x)
    ensures FitsAll(s + [x])
  {
    if s == [] {
      assert (s + [x])[1..] == [];
    } else {
      assert (s + [x])[1..] == s[1..] + [x];
      FitsAppend(s[1..], x);
    }
  }

  lemma {:induction false} MirrorWithin(n: Node, a: nat, c: nat)
    requires Within(n, a, c)
    ensures Within(Mirror(n), a, c)
    decreases n, 0
  {
    MirrorAllWithin(n.attrs, a, c);
    MirrorAllWithin(n.children, a, c);
  }

  lemma {:induction false} MirrorAllWithin(s: seq<Node>, a: nat, c: nat)
    requires WithinAll(s, a, c)
    ensures WithinAll(MirrorAll(s), a, c)
    decreases s, 1
  {
    if s != [] {
      MirrorWithin(s[0], a, c);
      MirrorAllWithin(s[1..], a, c);
      WithinAppend(MirrorAll(s[1..]), Mirror(s[0]), a, c);
    }
  }

  lemma {:induction false} WithinAppend(s: seq<Node>, x: Node, a: nat, c: nat)
    requires WithinAll(s, a, c) && Within(x, a, c)
    ensures WithinAll(s + [x], a, c)
  {
    if s == [] {
      assert (s + [x])[1..] == [];
    } else {
      assert (s + [x])[1..] == s[1..] + [x];
      WithinAppend(s[1..], x, a, c);
    }
  }

  /** Two round trips give the document back. */
  lemma BinaryRoundTripTwice(d: Document)
    requires DocumentFits(d) && Within(d.root, MAX_ATTRS, MAX_CHILDREN)
    ensures var once := DecodeDocument(EncodeDocument(d));
      once.Some? && DocumentFits(once.value) && DecodeDocument(EncodeDocument(once.value)) == Some(d)
  {
    hide EncodeDocument, DecodeDocument;
    MirrorFits(d.root);
    MirrorWithin(d.root, MAX_ATTRS, MAX_CHILDREN);
    MirrorTwice(d.root);
    BinaryRoundTrip(d, []);
    BinaryRoundTrip(MirrorDocument(d), []);
    assert EncodeDocument(d) + [] == EncodeDocument(d);
    assert EncodeDocument(MirrorDocument(d)) + [] == EncodeDocument(MirrorDocument(d));
  }
}
