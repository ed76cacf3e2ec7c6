/** Writing a document into a buffer through a moving position, and reading one through another. */
module BxmlCodec {
  import opened Wrappers
  import opened ByteSeq
  import opened BxmlTree
  import opened BxmlBinary

  const BUFF_TOO_SMALL: int := 0x102

  /** calc_node_size. */
  method CalcNodeSize(n: Node) returns (len: nat)
    ensures len == Size(n)
    decreases n, 0
  {
    len := 8 + |n.name| + |n.value|;
    for i := 0 to |n.attrs|
      invariant len + SizeAll(n.attrs[i..]) + SizeAll(n.children) == Size(n)
    {
      var size := CalcNodeSize(n.attrs[i]);
      assert n.attrs[i..][0] == n.attrs[i] && n.attrs[i..][1..] == n.attrs[i + 1..];
      len := len + size;
    }
    assert n.attrs[|n.attrs|..] == [] && n.children[0..] == n.children;
    for i := 0 to |n.children|
      invariant len + SizeAll(n.children[i..]) == Size(n)
    {
      var size := CalcNodeSize(n.children[i]);
      assert n.children[i..][0] == n.children[i] && n.children[i..][1..] == n.children[i + 1..];
      len := len + size;
    }
    assert n.children[|n.children|..] == [];
  }

  lemma {:induction false} FitsAt(s: seq<Node>, i: nat)
    requires FitsAll(s) && i < |s|
    ensures Fits(s[i]) && FitsAll(s[i..]) && FitsAll(s[i + 1..])
  {
    if i > 0 {
      FitsAt(s[1..], i - 1);
      assert s[1..][i - 1..] == s[i..] && s[1..][i..] == s[i + 1..];
    } else {
      assert s[0..] == s;
    }
  }

  /** Space left from `from` on is untouched outside `[q, q + size)`. */
  twostate predicate OnlyWithin(p: (array<byte>, nat, nat))
    reads p.0
  {
    forall i :: 0 <= i < p.0.Length && !(p.1 <= i < p.1 + p.2) ==> p.0[i] == old(p.0[i])
  }

  /** What a writer of `b` with `size` bytes of room at `q` does and answers. */
  twostate predicate Written(p: (array<byte>, nat, nat, seq<byte>, int))
    reads p.0
  {
    var (mem, q, size, b, ret) := p;
    && q + size <= mem.Length && OnlyWithin((mem, q, size))
    && (if size < |b| then ret == -BUFF_TOO_SMALL
        else ret == size - |b| && mem[..] == Splice(old(mem[..]), q, b))
  }

  lemma SpliceOnly(mem: array<byte>, d: seq<byte>, q: nat, x: seq<byte>, size: nat)
    requires |d| == mem.Length && q + size <= |d| && |x| <= size && mem[..] == Splice(d, q, x)
    ensures forall i :: 0 <= i < mem.Length && !(q <= i < q + size) ==> mem[i] == d[i]
  {
    forall i | 0 <= i < mem.Length && !(q <= i < q + size)
      ensures mem[i] == d[i]
    {
      SpliceAt(d, q, x, i);
    }
  }

  /** build_bxml_node: the room left, or an error when the node with all below it does not fit. */
  method BuildNode(n: Node, mem: array<byte>, q: nat, memSize: nat) returns (ret: int)
    requires Fits(n) && q + memSize <= mem.Length
    modifies mem
    ensures Written((mem, q, memSize, Encode(n), ret))
    decreases n, 0
  {
    hide Head, EncodeAll, Splice;
    var len := memSize - 8 - |n.name| - |n.value|;
    if len < 0 {
      return -BUFF_TOO_SMALL;
    }
    var attrCount, childCount := 0, 0;
    while attrCount < |n.attrs| && attrCount <= 255
      invariant attrCount <= Min(|n.attrs|, MAX_ATTRS + 1)
    {
      attrCount := attrCount + 1;
    }
    while childCount < |n.children| && childCount <= 65535
      invariant childCount <= Min(|n.children|, MAX_CHILDREN + 1)
    {
      childCount := childCount + 1;
    }
    ghost var d, head, attrs := mem[..], Head(n), EncodeAll(n.attrs, 256);
    PutHead(n, attrCount, childCount, mem, q);
    SpliceOnly(mem, d, q, head, memSize);
    var at := q + 8 + |n.name| + |n.value|;
    ret := BuildNodes(n.attrs, 255, mem, at, len);
    if ret < 0 { return; }
    SpliceTwo(d, q, head, attrs);
    at := at + (len - ret);
    len := ret;
    ret := BuildNodes(n.children, 65535, mem, at, len);
    if ret >= 0 { SpliceTwo(d, q, head + attrs, EncodeAll(n.children, 65536)); }
  }

  /** The fixed part, field by field. */
  method PutHead(n: Node, attrCount: nat, childCount: nat, mem: array<byte>, q: nat)
    requires |n.name| <= 255 && |n.value| <= MAX_VALUE
    requires attrCount == Min(|n.attrs|, MAX_ATTRS + 1) && childCount == Min(|n.children|, MAX_CHILDREN + 1)
    requires q + 8 + |n.name| + |n.value| <= mem.Length
    modifies mem
    ensures mem[..] == Splice(old(mem[..]), q, Head(n))
  {
    hide Splice, Le16, Le32;
    ghost var d := mem[..];
    SpliceNone(d, q);
    PutMore(mem, q, d, q, [], [|n.name|]);
    var p := q + 1;
    PutMore(mem, p, d, q, [] + [|n.name|], n.name);
    p := p + |n.name|;
    PutMore(mem, p, d, q, [] + [|n.name|] + n.name, [attrCount % 256]);
    p := p + 1;
    ghost var b := [] + [|n.name|] + n.name + [attrCount % 256];
    PutMore(mem, p, d, q, b, Le16(childCount % 0x1_0000));
    p := p + 2;
    b := b + Le16(childCount % 0x1_0000);
    PutMore(mem, p, d, q, b, Le32(|n.value|));
    p := p + 4;
    PutMore(mem, p, d, q, b + Le32(|n.value|), n.value);
    assert [] + [|n.name|] == [|n.name|];
  }

  /** The loop over one list: at most `last + 1` nodes are written. */
  method BuildNodes(s: seq<Node>, last: nat, mem: array<byte>, q: nat, memSize: nat) returns (ret: int)
    requires FitsAll(s) && q + memSize <= mem.Length
    modifies mem
    ensures Written((mem, q, memSize, EncodeAll(s, last + 1), ret))
    decreases s, 1
  {
    hide Encode, EncodeAll, Splice, FitsAll;
    ghost var d, b, k: nat := mem[..], EncodeAll(s, last + 1), 0;
    SpliceNone(d, q);
    FitsAllDrop(s, 0);
    var i, at, len: int := 0, q, memSize;
    while i < |s| && i <= last
      invariant i <= |s| && i <= last + 1 && k <= |b| && at == q + k && len == memSize - k >= 0
      invariant FitsAll(s[i..]) && b[k..] == EncodeAll(s[i..], last + 1 - i)
      invariant mem[..] == Splice(d, q, b[..k]) && OnlyWithin((mem, q, memSize))
    {
      FitsAt(s, i);
      EncodeNext(s[i..], last + 1 - i);
      assert s[i..][1..] == s[i + 1..];
      ghost var m := |Encode(s[i])|;
      ret := BuildNode(s[i], mem, at, len);
      if ret < 0 { return; }
      SpliceMore(d, q, b, k, m);
      assert b[k..k + m] == b[k..][..m] && b[k + m..] == b[k..][m..];
      at := at + (len - ret);
      len := ret;
      i := i + 1;
      k := k + m;
    }
    EncodeNoMore(s[i..], last + 1 - i);
    assert b[..k] == b;
    ret := len;
  }

  lemma FitsAllDrop(s: seq<Node>, i: nat)
    requires i <= |s| && FitsAll(s)
    ensures FitsAll(s[i..]) && (i == 0 ==> s[i..] == s)
  {
    if i < |s| { FitsAt(s, i); }
  }

  lemma EncodeNext(s: seq<Node>, max: nat)
    requires FitsAll(s) && s != [] && 0 < max
    ensures Fits(s[0]) && FitsAll(s[1..]) && EncodeAll(s, max) == Encode(s[0]) + EncodeAll(s[1..], max - 1)
  {
    hide Encode;
  }

  lemma EncodeNoMore(s: seq<Node>, max: nat)
    requires FitsAll(s) && (s == [] || max == 0)
    ensures EncodeAll(s, max) == []
  {
  }

  // ----- whole documents -----

  /** The fixed header, as it lies in memory. */
  function HeaderBytes(d: Document): (b: seq<byte>)
    requires d.version < 0x1_0000
    ensures |b| == HEADER
  {
    Le32(MAGIC) + Le16(d.version) + [d.flag] + [0, 0, 0, 0, 0, 0, 0, 0, 0]
  }

  /** memset, then the header fields. */
  method PutHeader(d: Document, mem: array<byte>, memSize: nat)
    requires d.version < 0x1_0000 && HEADER <= memSize <= mem.Length
    requires forall i :: 0 <= i < memSize ==> mem[i] == 0
    modifies mem
    ensures mem[..] == Splice(old(mem[..]), 0, HeaderBytes(d))
  {
    hide Splice, Le16, Le32;
    ghost var o := mem[..];
    SpliceNone(o, 0);
    PutMore(mem, 0, o, 0, [], Le32(MAGIC));
    assert [] + Le32(MAGIC) == Le32(MAGIC);
    PutMore(mem, 4, o, 0, Le32(MAGIC), Le16(d.version));
    PutMore(mem, 6, o, 0, Le32(MAGIC) + Le16(d.version), [d.flag]);
    ReservedStay(o, mem[..], Le32(MAGIC) + Le16(d.version) + [d.flag]);
  }

  /** The reserved bytes are the zeros that were there. */
  lemma ReservedStay(o: seq<byte>, r: seq<byte>, b: seq<byte>)
    requires |b| == 7 && |o| >= HEADER && (forall i :: 0 <= i < HEADER ==> o[i] == 0) && r == Splice(o, 0, b)
    ensures r == Splice(o, 0, b + [0, 0, 0, 0, 0, 0, 0, 0, 0])
  {
  }

  /** bxml_build: succeeds exactly when the buffer holds the whole document, returns its size, leaves zeros
      behind it, and never writes past the buffer. */
  method Build(d: Document, mem: array<byte>, memSize: nat) returns (ret: int)
    requires DocumentFits(d) && memSize <= mem.Length
    modifies mem
    ensures mem[memSize..] == old(mem[memSize..])
    ensures memSize < |EncodeDocument(d)| ==> ret == -0x102
    ensures memSize >= |EncodeDocument(d)| ==>
      ret == |EncodeDocument(d)| && mem[..memSize] == EncodeDocument(d) + Zeros(memSize - ret)
  {
    hide Splice, EncodeDocument, HeaderBytes, Encode;
    ghost var o := mem[..];
    DocumentSplit(d);
    Clear(mem, memSize);
    ClearedThen(o, memSize, []);
    SpliceNone(mem[..], 0);
    if memSize < HEADER {
      return -BUFF_TOO_SMALL;
    }
    ghost var z := mem[..];
    PutHeader(d, mem, memSize);
    ClearedThen(o, memSize, HeaderBytes(d));
    var len := BuildNode(d.root, mem, HEADER, memSize - HEADER);
    if len < 0 {
      return len;
    }
    SpliceTwo(z, 0, HeaderBytes(d), Encode(d.root));
    ClearedThen(o, memSize, EncodeDocument(d));
    ret := memSize - len;
  }

  lemma DocumentSplit(d: Document)
    requires DocumentFits(d)
    ensures EncodeDocument(d) == HeaderBytes(d) + Encode(d.root)
  {
  }

  // ----- reading -----

  /** What follows position `p`, as the reader's answer says it. */
  ghost predicate ReadsAs(mem: seq<byte>, want: Option<(Node, seq<byte>)>, got: Option<(Node, nat)>) {
    match want
    case None => got == None
    case Some((n, rest)) => got.Some? && got.value.0 == n && got.value.1 <= |mem| && mem[got.value.1..] == rest
  }

  /** The fields read at the front, one after the other. */
  method ParseHead(mem: seq<byte>, p: nat) returns (r: Option<(seq<byte>, seq<byte>, nat, nat, nat)>)
    requires p <= |mem|
    ensures match DecodeHead(mem[p..])
      case None => r == None
      case Some(h) => r.Some? && r.value.4 <= |mem| && h == Fixed(r.value.0, r.value.1, r.value.2, r.value.3, mem[r.value.4..])
  {
    ghost var b := mem[p..];
    if |mem| - p < 8 || |mem| - p < 8 + mem[p] as int {
      return None;
    }
    var k := mem[p];
    var q := p + 1;
    var name := mem[q..q + k];
    q := q + k;
    var attrCount := mem[q];
    q := q + 1;
    var childCount := FromLe16(mem[q..q + 2]);
    q := q + 2;
    var size := FromLe32(mem[q..q + 4]);
    q := q + 4;
    HeadSlices(mem, p, k, size);
    if |mem| - q < size {
      return None;
    }
    var value := mem[q..q + size];
    q := q + size;
    r := Some((name, value, attrCount, childCount, q));
  }

  lemma HeadSlices(mem: seq<byte>, p: nat, k: nat, size: nat)
    requires p + 8 + k <= |mem|
    ensures var b := mem[p..];
      && b[1..1 + k] == mem[p + 1..p + 1 + k] && b[1 + k] == mem[p + 1 + k]
      && b[k + 2..k + 4] == mem[p + k + 2..p + k + 4] && b[k + 4..k + 8] == mem[p + k + 4..p + k + 8]
      && (p + 8 + k + size <= |mem| ==>
            b[8 + k..8 + k + size] == mem[p + 8 + k..p + 8 + k + size] && b[8 + k + size..] == mem[p + 8 + k + size..])
  {
  }

  /** parse_bxml_node: the node at `p` and the position behind it. */
  method ParseNode(mem: seq<byte>, p: nat) returns (r: Option<(Node, nat)>)
    requires p <= |mem|
    ensures ReadsAs(mem, Decode(mem[p..]), r)
    decreases |mem| - p, 0, 0
  {
    hide DecodeHead, DecodeAll;
    var head := ParseHead(mem, p);
    if head == None {
      return None;
    }
    var (name, value, attrCount, childCount, q) := head.value;
    var attrs := ParseNodes(mem, q, attrCount);
    if attrs == None {
      return None;
    }
    var children := ParseNodes(mem, attrs.value.1, childCount);
    if children == None {
      return None;
    }
    r := Some((Node(name, value, attrs.value.0, children.value.0), children.value.1));
  }

  /** The loop over one list: every node read is put in front of those before it. */
  method ParseNodes(mem: seq<byte>, p: nat, count: nat) returns (r: Option<(seq<Node>, nat)>)
    requires p <= |mem|
    ensures match DecodeAll(mem[p..], count, [])
      case None => r == None
      case Some((s, rest)) => r.Some? && r.value.0 == s && p <= r.value.1 <= |mem| && mem[r.value.1..] == rest
    decreases |mem| - p, 1, count
  {
    hide Decode;
    var q, list, i := p, [], 0;
    while i < count
      invariant i <= count && p <= q <= |mem|
      invariant DecodeAll(mem[p..], count, []) == DecodeAll(mem[q..], count - i, list)
    {
      var one := ParseNode(mem, q);
      if one == None {
        return None;
      }
      list := [one.value.0] + list;
      q := one.value.1;
      i := i + 1;
    }
    r := Some((list, q));
  }

  /** bxml_parse on a binary document; None on other input, which the XML reader takes over. */
  method Parse(mem: seq<byte>) returns (r: Option<Document>)
    ensures r == DecodeDocument(mem)
  {
    hide Decode;
    if |mem| < HEADER || FromLe32(mem[..4]) != MAGIC {
      return None;
    }
    var version, flag := FromLe16(mem[4..6]), mem[6];
    var root := ParseNode(mem, HEADER);
    if root == None {
      return None;
    }
    r := Some(Document(version, flag, root.value.0));
  }
}
