/** When a document survives printing and reading. */
module BxmlRoundTrip {
  import opened BxmlReading
  import opened BxmlText
  import opened BxmlTree
  import opened ByteSeq
  import opened Wrappers

  // ----- mirror images -----

  function Reversed(s: seq<Node>): (r: seq<Node>)
    ensures |r| == |s|
  {
    if s == [] then [] else Reversed(s[1..]) + [s[0]]
  }

  /** What printing and reading does to a node: its attribute list comes back reversed, its children in order. */
  function AttrMirror(n: Node): (m: Node)
    decreases n, 0
  {
    Node(n.name, n.value, Reversed(n.attrs), AttrMirrorAll(n.children))
  }

  function AttrMirrorAll(s: seq<Node>): (m: seq<Node>)
    ensures |m| == |s|
    decreases s, 1
  {
    if s == [] then [] else [AttrMirror(s[0])] + AttrMirrorAll(s[1..])
  }

  /** In a node that has been printed and read the last attribute comes first, as it was; children keep their places. */
  lemma AttrMirrorIs(n: Node)
    ensures AttrMirror(n).name == n.name && AttrMirror(n).value == n.value
    ensures |AttrMirror(n).attrs| == |n.attrs| && |AttrMirror(n).children| == |n.children|
    ensures forall i :: 0 <= i < |n.attrs| ==> AttrMirror(n).attrs[i] == n.attrs[|n.attrs| - 1 - i]
    ensures forall i :: 0 <= i < |n.children| ==> AttrMirror(n).children[i] == AttrMirror(n.children[i])
  {
    ReversedAt(n.attrs);
    AttrMirrorAllAt(n.children);
  }

  lemma {:induction false} AttrMirrorAllAt(s: seq<Node>)
    ensures forall i :: 0 <= i < |s| ==> AttrMirrorAll(s)[i] == AttrMirror(s[i])
    decreases |s|
  {
    hide AttrMirror;
    if s != [] { AttrMirrorAllAt(s[1..]); }
  }

  lemma {:induction false} ReversedAppend(s: seq<Node>, x: Node)
    ensures Reversed(s + [x]) == [x] + Reversed(s)
  {
    if s == [] {
      assert s + [x] == [x] && [x][1..] == [] && [x] + Reversed([]) == [] + [x];
    } else {
      assert (s + [x])[1..] == s[1..] + [x];
      ReversedAppend(s[1..], x);
    }
  }

  lemma {:induction false} ReversedTwice(s: seq<Node>)
    ensures Reversed(Reversed(s)) == s
  {
    if s != [] {
      ReversedTwice(s[1..]);
      ReversedAppend(Reversed(s[1..]), s[0]);
    }
  }

  lemma {:induction false} ReversedAt(s: seq<Node>)
    ensures forall i :: 0 <= i < |s| ==> Reversed(s)[i] == s[|s| - 1 - i]
  {
    if s != [] {
      ReversedAt(s[1..]);
    }
  }

  lemma {:induction false} AttrMirrorTwice(s: seq<Node>)
    ensures AttrMirrorAll(AttrMirrorAll(s)) == s
    decreases s
  {
    if s != [] {
      ReversedTwice(s[0].attrs);
      AttrMirrorTwice(s[0].children);
      AttrMirrorTwice(s[1..]);
      assert AttrMirrorAll(s)[1..] == AttrMirrorAll(s[1..]);
    }
  }

  // ----- what a printed document can express -----

  /** An attribute that is a name of at least two characters and a value. */
  predicate Bare(a: Node) { |a.name| > 1 && a.value != [] && a.attrs == [] && a.children == [] }

  /** Text only on leaves, and only such attributes. */
  predicate Expressible(n: Node)
    decreases n, 0
  {
    && (n.children != [] ==> n.value == []) && (forall i :: 0 <= i < |n.attrs| ==> Bare(n.attrs[i]))
    && ExpressibleAll(n.children)
  }

  predicate ExpressibleAll(s: seq<Node>)
    decreases s, 1
  {
    s == [] || (Expressible(s[0]) && ExpressibleAll(s[1..]))
  }

  predicate LongAttrs(s: seq<Node>) { forall i :: 0 <= i < |s| ==> |s[i].name| > 1 }

  /** No attribute anywhere has a name of one character. */
  predicate Long(n: Node)
    decreases n, 0
  {
    LongAttrs(n.attrs) && LongAll(n.children)
  }

  predicate LongAll(s: seq<Node>)
    decreases s, 1
  {
    s == [] || (Long(s[0]) && LongAll(s[1..]))
  }

  /** The tree that the printed text is of: text beside children and everything below an attribute is dropped, a
      missing attribute value has become the placeholder. */
  function Normal(n: Node): (m: Node)
    decreases n, 0
  {
    Node(n.name, if n.children != [] then [] else n.value, NormalAttrs(n.attrs), NormalAll(n.children))
  }

  function NormalAttr(a: Node): Node { Node(a.name, Shown(a.value), [], []) }

  function NormalAttrs(s: seq<Node>): (m: seq<Node>)
    ensures |m| == |s|
    ensures forall i :: 0 <= i < |s| ==> m[i] == NormalAttr(s[i])
  {
    if s == [] then [] else [NormalAttr(s[0])] + NormalAttrs(s[1..])
  }

  function NormalAll(s: seq<Node>): (m: seq<Node>)
    ensures |m| == |s|
    decreases s, 1
  {
    if s == [] then [] else [Normal(s[0])] + NormalAll(s[1..])
  }

  /** What is lost in print: the text beside children, everything below an attribute, and that a value is missing. */
  lemma NormalIs(n: Node)
    ensures Normal(n).name == n.name && Normal(n).value == if n.children != [] then [] else n.value
    ensures |Normal(n).attrs| == |n.attrs| && |Normal(n).children| == |n.children|
    ensures forall i :: 0 <= i < |n.attrs| ==> var a := n.attrs[i];
      Normal(n).attrs[i] == Node(a.name, if a.value == [] then [60, 78, 85, 76, 76, 62] else a.value, [], [])
    ensures forall i :: 0 <= i < |n.children| ==> Normal(n).children[i] == Normal(n.children[i])
  {
    NormalAllAt(n.children);
  }

  lemma {:induction false} NormalAllAt(s: seq<Node>)
    ensures forall i :: 0 <= i < |s| ==> NormalAll(s)[i] == Normal(s[i])
    decreases |s|
  {
    hide Normal;
    if s != [] { NormalAllAt(s[1..]); }
  }

  lemma {:induction false} NormalIsSame(s: seq<Node>)
    requires LongAll(s)
    ensures NormalAll(s) == s <==> ExpressibleAll(s)
    decreases s
  {
    if s != [] {
      var n := s[0];
      assert NormalAll(s)[0] == Normal(n) && NormalAll(s)[1..] == NormalAll(s[1..]);
      assert NormalAll(s) == s <==> Normal(n) == n && NormalAll(s[1..]) == s[1..] by {
        assert s == [s[0]] + s[1..];
      }
      NormalAttrsSame(n.attrs);
      NormalIsSame(n.children);
      NormalIsSame(s[1..]);
    }
  }

  lemma NormalAttrsSame(s: seq<Node>)
    requires LongAttrs(s)
    ensures NormalAttrs(s) == s <==> forall i :: 0 <= i < |s| ==> Bare(s[i])
  {
    hide NormalAttrs;
    var m := NormalAttrs(s);
    forall i | 0 <= i < |s|
      ensures m[i] == s[i] <==> Bare(s[i])
    {
      assert m[i] == NormalAttr(s[i]);
    }
    hide Bare, NormalAttr;
    if forall i :: 0 <= i < |s| ==> Bare(s[i]) {
      assert m == s;
    }
  }

  lemma {:induction false} ExpressibleIsLong(s: seq<Node>)
    requires ExpressibleAll(s)
    ensures LongAll(s)
    decreases s
  {
    if s != [] {
      ExpressibleIsLong(s[0].children);
      ExpressibleIsLong(s[1..]);
    }
  }

  // ----- documents with long attribute names -----

  /** A list of siblings has been read completely. */
  function Done(t: Trail, d: seq<Node>): Cursor
    requires d != []
  {
    At(t, d[..|d| - 1], d[|d| - 1], [])
  }

  function WithAttrs(c: Cursor, attrs: seq<Node>): Cursor
    requires c.At?
  {
    c.(node := c.node.(attrs := attrs))
  }

  lemma ReadLongAttr(a: Node, c: Cursor)
    requires |a.name| > 1 && c.At?
    ensures ReadAttr(a, c) == Some(WithAttrs(c, [NormalAttr(a)] + c.node.attrs))
  {
    assert [] + [NormalAttr(a)] + c.node.attrs == [NormalAttr(a)] + c.node.attrs;
  }

  lemma {:induction false} ReadLongAttrs(s: seq<Node>, c: Cursor)
    requires LongAttrs(s) && c.At?
    ensures ReadAttrs(s, c) == Some(WithAttrs(c, Reversed(NormalAttrs(s)) + c.node.attrs))
    decreases |s|
  {
    hide ReadAttr, NormalAttr;
    if s == [] {
      assert [] + c.node.attrs == c.node.attrs;
    } else {
      var c' := WithAttrs(c, [NormalAttr(s[0])] + c.node.attrs);
      ReadLongAttr(s[0], c);
      ReadLongAttrs(s[1..], c');
      assert NormalAttrs(s)[1..] == NormalAttrs(s[1..]);
      assert Reversed(NormalAttrs(s[1..])) + ([NormalAttr(s[0])] + c.node.attrs) == Reversed(NormalAttrs(s)) + c.node.attrs;
    }
  }

  lemma ClosesItself(name: seq<byte>)
    ensures Closes([SLASH] + name, name)
  {
    assert ([SLASH] + name)[1..1 + |name|] == name[..|name|];
  }

  lemma {:induction false} ReadLongNode(n: Node, t: Trail, l: seq<Node>)
    requires Long(n)
    ensures ReadNode(n, At(t, l, FRESH, [])) == Going(At(t, l, AttrMirror(Normal(n)), []))
    decreases n, 0
  {
    hide ReadAttrs, NormalAttrs, Closes, ReadFrom, NormalAll, AttrMirrorAll, Reversed;
    ReadLongAttrs(n.attrs, SetName(At(t, l, FRESH, []), n.name));
    assert Reversed(NormalAttrs(n.attrs)) + [] == Reversed(NormalAttrs(n.attrs));
    ClosesItself(n.name);
    if n.children != [] {
      var m := Node(n.name, [], Reversed(NormalAttrs(n.attrs)), []);
      var list := AttrMirrorAll(NormalAll(n.children));
      ReadLongFrom(n.children, InChildren(t, l, m, []), []);
      assert [] + list == list && list[..|list| - 1] + [list[|list| - 1]] + [] == list;
    }
  }

  lemma {:induction false} ReadLongFrom(s: seq<Node>, t: Trail, l: seq<Node>)
    requires s != [] && LongAll(s)
    ensures ReadFrom(s, At(t, l, FRESH, [])) == Going(Done(t, l + AttrMirrorAll(NormalAll(s))))
    decreases s, 1
  {
    hide ReadNode, AttrMirror, Normal;
    var m, all := AttrMirror(Normal(s[0])), AttrMirrorAll(NormalAll(s));
    ReadLongNode(s[0], t, l);
    assert NormalAll(s)[0] == Normal(s[0]) && NormalAll(s)[1..] == NormalAll(s[1..]);
    assert all == [m] + AttrMirrorAll(NormalAll(s[1..]));
    if |s| == 1 {
      assert all == [m] && (l + all)[..|l|] == l;
    } else {
      ReadLongFrom(s[1..], t, l + [m]);
      assert l + [m] + AttrMirrorAll(NormalAll(s[1..])) == l + all;
    }
  }

  lemma ReadLongDocument(s: seq<Node>)
    requires LongAll(s)
    ensures ReadDocument(s) == Some(AttrMirrorAll(NormalAll(s)))
  {
    hide ReadFrom, Forest;
    var m := AttrMirrorAll(NormalAll(s));
    ForestNowhere(s);
    if s != [] {
      ReadLongFrom(s, Top, []);
      assert [] + m == m;
      ForestTop(m);
    }
  }

  lemma ForestNowhere(s: seq<Node>)
    ensures Forest(Nowhere(s)) == s
  {
  }

  lemma ForestTop(m: seq<Node>)
    requires m != []
    ensures Forest(Done(Top, m)) == m
  {
    assert m[..|m| - 1] + [m[|m| - 1]] + [] == m;
    ForestNowhere(m);
  }

  // ----- documents with a short attribute name lose a node -----

  function Count(n: Node): nat
    decreases n, 0
  {
    1 + CountAll(n.attrs) + CountAll(n.children)
  }

  function CountAll(s: seq<Node>): nat
    decreases s, 1
  {
    if s == [] then 0 else Count(s[0]) + CountAll(s[1..])
  }

  lemma {:induction false} CountConcat(a: seq<Node>, b: seq<Node>)
    ensures CountAll(a + b) == CountAll(a) + CountAll(b)
  {
    if a == [] {
      assert a + b == b;
    } else {
      assert (a + b)[1..] == a[1..] + b;
      CountConcat(a[1..], b);
    }
  }

  lemma CountOne(n: Node)
    ensures CountAll([n]) == Count(n)
  {
    assert [n][1..] == [];
  }

  lemma {:induction false} CountReversed(s: seq<Node>)
    ensures CountAll(Reversed(s)) == CountAll(s)
  {
    if s != [] {
      CountReversed(s[1..]);
      CountConcat(Reversed(s[1..]), [s[0]]);
      CountOne(s[0]);
    }
  }

  lemma {:induction false} CountMirror(s: seq<Node>)
    ensures CountAll(AttrMirrorAll(s)) == CountAll(s)
    decreases s
  {
    if s != [] {
      CountReversed(s[0].attrs);
      CountMirror(s[0].children);
      CountMirror(s[1..]);
      assert AttrMirrorAll(s)[1..] == AttrMirrorAll(s[1..]);
    }
  }

  /** Nodes that the reader makes: one for each element and for each attribute with a long name. */
  function LongCount(s: seq<Node>): nat {
    if s == [] then 0 else (if |s[0].name| > 1 then 1 else 0) + LongCount(s[1..])
  }

  function Made(n: Node): nat
    decreases n, 0
  {
    1 + LongCount(n.attrs) + MadeAll(n.children)
  }

  function MadeAll(s: seq<Node>): nat
    decreases s, 1
  {
    if s == [] then 0 else Made(s[0]) + MadeAll(s[1..])
  }

  lemma {:induction false} LongCountLess(s: seq<Node>)
    ensures LongCount(s) <= CountAll(s) && (!LongAttrs(s) ==> LongCount(s) < CountAll(s))
  {
    if s != [] {
      LongCountLess(s[1..]);
      assert LongAttrs(s) <==> |s[0].name| > 1 && LongAttrs(s[1..]);
    }
  }

  lemma {:induction false} MadeLess(s: seq<Node>)
    ensures MadeAll(s) <= CountAll(s) && (!LongAll(s) ==> MadeAll(s) < CountAll(s))
    decreases s
  {
    if s != [] {
      LongCountLess(s[0].attrs);
      MadeLess(s[0].children);
      MadeLess(s[1..]);
      assert Made(s[0]) <= Count(s[0]) && (!Long(s[0]) ==> Made(s[0]) < Count(s[0]));
    }
  }

  /** Nodes of the document outside the list that the current node is in; nothing when the list is loose. */
  function Outer(t: Trail): nat {
    match t
    case Top => 0
    case Loose(_) => 0
    case InChildren(up, l, p, r) => CountAll(l) + CountAll(r) + 1 + CountAll(p.attrs) + Outer(up)
    case InAttrs(up, l, p, r) => CountAll(l) + CountAll(r) + 1 + CountAll(p.children) + Outer(up)
  }

  function Beside(t: Trail): Option<seq<Node>> {
    match t
    case Top => None
    case Loose(kept) => Some(kept)
    case InChildren(up, _, _, _) => Beside(up)
    case InAttrs(up, _, _, _) => Beside(up)
  }

  /** Nodes of the document. */
  function Held(c: Cursor): nat {
    match c
    case Nowhere(kept) => CountAll(kept)
    case At(t, l, n, r) =>
      match Beside(t)
      case Some(kept) => CountAll(kept)
      case None => CountAll(l) + Count(n) + CountAll(r) + Outer(t)
  }

  lemma HeldUp(c: Cursor)
    requires c.At?
    ensures Held(Up(c)) == Held(c)
  {
    CountConcat(c.left + [c.node], c.right);
    CountConcat(c.left, [c.node]);
    CountOne(c.node);
    hide CountAll;
  }

  lemma {:induction false} HeldForest(c: Cursor)
    ensures CountAll(Forest(c)) == Held(c)
    decreases Depth(c)
  {
    hide CountAll, Held;
    if c.At? {
      HeldUp(c);
      HeldForest(Up(c));
    } else {
      HeldNowhere(c);
    }
  }

  lemma HeldNowhere(c: Cursor)
    requires c.Nowhere?
    ensures Held(c) == CountAll(c.kept)
  {
  }

  /** A new node adds at most itself. */
  lemma HeldNew(c: Cursor)
    ensures Held(NextNode(c)) <= Held(c) + 1 && Held(ChildNode(c)) <= Held(c) + 1 && Held(AttrNode(c)) <= Held(c) + 1
  {
    assert CountAll([]) == 0;
    if c.At? {
      CountConcat(c.left, [c.node]);
      CountOne(c.node);
    }
  }

  lemma HeldSame(c: Cursor, w: seq<byte>)
    requires c.At?
    ensures Held(SetName(c, w)) == Held(c) && Held(SetValue(c, w)) == Held(c)
  {
  }

  lemma AttrHeld(a: Node, c: Cursor)
    requires ReadAttr(a, c).Some?
    ensures Held(ReadAttr(a, c).value) <= Held(c) + if |a.name| > 1 then 1 else 0
  {
    hide Held, Up;
    HeldNew(c);
    var w := Shown(a.value);
    if |a.name| > 1 {
      var n := AttrNode(c);
      HeldSame(n, a.name);
      HeldSame(SetName(n, a.name), w);
      HeldUp(SetValue(SetName(n, a.name), w));
    } else {
      HeldSame(c, w);
      HeldUp(SetValue(c, w));
    }
  }

  lemma {:induction false} AttrsHeld(s: seq<Node>, c: Cursor)
    requires ReadAttrs(s, c).Some?
    ensures Held(ReadAttrs(s, c).value) <= Held(c) + LongCount(s)
    decreases |s|
  {
    hide Held, ReadAttr;
    if s != [] {
      AttrHeld(s[0], c);
      AttrsHeld(s[1..], ReadAttr(s[0], c).value);
    }
  }

  /** Whatever the outcome, at most `n` nodes have been added to the document. */
  predicate Adds(o: Outcome, c: Cursor, n: int) { !o.Failed? ==> Held(o.cur) <= Held(c) + n }

  lemma {:induction false} NodeHeld(n: Node, c: Cursor)
    requires c.At?
    ensures Adds(ReadNode(n, c), c, Made(n) - 1)
    decreases n, 2
  {
    hide Held, ReadAttrs, ReadBody;
    HeldSame(c, n.name);
    var r := ReadAttrs(n.attrs, SetName(c, n.name));
    if r.Some? {
      AttrsHeld(n.attrs, SetName(c, n.name));
      BodyHeld(n, r.value);
    }
  }

  lemma {:induction false} BodyHeld(n: Node, c: Cursor)
    ensures Adds(ReadBody(n, c), c, MadeAll(n.children))
    decreases n, 1
  {
    hide Held, ReadFrom, Closes, Up;
    if n.children != [] {
      HeldNew(c);
      FromHeld(n.children, ChildNode(c));
      var o := ReadFrom(n.children, ChildNode(c));
      if o.Going? && o.cur.At? { HeldUp(o.cur); }
    } else if n.value != [] && c.At? {
      HeldSame(c, n.value);
    }
  }

  lemma {:induction false} FromHeld(s: seq<Node>, c: Cursor)
    requires s != [] && c.At?
    ensures Adds(ReadFrom(s, c), c, MadeAll(s) - 1)
    decreases s, 3
  {
    hide Held, ReadNode, Made;
    NodeHeld(s[0], c);
    var o := ReadNode(s[0], c);
    if o.Going? && |s| > 1 {
      HeldNew(o.cur);
      FromHeld(s[1..], NextNode(o.cur));
    }
  }

  /** With a short attribute name the reader makes fewer nodes than there are. */
  lemma ShortLosesNode(s: seq<Node>)
    requires !LongAll(s)
    ensures ReadDocument(s) != Some(AttrMirrorAll(s))
  {
    hide CountAll, Held, ReadFrom, Forest;
    MadeLess(s);
    CountMirror(s);
    HeldNew(START);
    HeldNowhere(START);
    NoneHeld();
    if s != [] {
      FromHeld(s, NextNode(START));
      var o := ReadAll(s, START);
      if !o.Failed? { HeldForest(o.cur); }
    }
  }

  lemma NoneHeld()
    ensures CountAll([]) == 0
  {
  }

  // ----- the round trip -----

  /** The text round trip: a document without delimiters in the wrong places comes back with its attribute lists
      reversed and its children in order exactly when it is expressible. */
  lemma TextRoundTrip(s: seq<Node>)
    requires CleanAll(s)
    ensures ParseText(Print(s, 0)) == Some(AttrMirrorAll(s)) <==> ExpressibleAll(s)
    ensures LongAll(s) ==> ParseText(Print(s, 0)) == Some(AttrMirrorAll(NormalAll(s)))
  {
    hide CleanAll, ParseText, Print, AttrMirrorAll, NormalAll, ExpressibleAll, LongAll, ReadDocument;
    TextIsRead(s);
    if LongAll(s) {
      ReadLongDocument(s);
      NormalIsSame(s);
      AttrMirrorTwice(s);
      AttrMirrorTwice(NormalAll(s));
    } else {
      ShortLosesNode(s);
      if ExpressibleAll(s) { ExpressibleIsLong(s); }
    }
  }

  lemma {:induction false} MirrorClean(s: seq<Node>)
    requires CleanAll(s) && ExpressibleAll(s)
    ensures CleanAll(AttrMirrorAll(s)) && ExpressibleAll(AttrMirrorAll(s))
    decreases s
  {
    if s != [] {
      ReversedAt(s[0].attrs);
      MirrorClean(s[0].children);
      MirrorClean(s[1..]);
      assert AttrMirrorAll(s)[1..] == AttrMirrorAll(s[1..]);
    }
  }

  /** Printing and reading twice is the identity. */
  lemma TextRoundTripTwice(s: seq<Node>)
    requires CleanAll(s) && ExpressibleAll(s)
    ensures var once := ParseText(Print(s, 0)); once.Some? && ParseText(Print(once.value, 0)) == Some(s)
  {
    hide CleanAll, ExpressibleAll, ParseText, Print, AttrMirrorAll;
    TextRoundTrip(s);
    MirrorClean(s);
    TextRoundTrip(AttrMirrorAll(s));
    AttrMirrorTwice(s);
  }

  /** The attribute of an outermost leaf, if its name has one character, is read as the leaf's text. */
  lemma OneLetterAttribute(n: Node)
    requires Clean(n) && n.children == [] && n.value == [] && |n.attrs| == 1 && |n.attrs[0].name| == 1
    ensures ParseText(Print([n], 0)) == Some([Node(n.name, Shown(n.attrs[0].value), [], [])])
  {
    var a, w := n.attrs[0], Shown(n.attrs[0].value);
    assert [n][1..] == [] && n.attrs[1..] == [];
    TextIsRead([n]);
    var c := SetName(NextNode(START), n.name);
    var leaf := [Node(n.name, w, [], [])];
    assert Up(SetValue(c, w)) == Nowhere(leaf) by { assert [] + leaf + [] == leaf; }
    hide Shown, Up, Forest;
    assert ReadAttr(a, c) == Some(Nowhere(leaf));
    assert ReadAttrs(n.attrs[1..], Nowhere(leaf)) == Some(Nowhere(leaf));
    assert ReadAttrs(n.attrs, c) == Some(Nowhere(leaf));
    assert ReadNode(n, NextNode(START)) == Going(Nowhere(leaf));
    ForestNowhere(leaf);
  }
}
