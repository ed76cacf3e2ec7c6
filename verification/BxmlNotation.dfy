/** The textual form character by character: what printing yields and what the reader makes of notation that printed
    documents do not have. */
module BxmlNotation {
  import opened Wrappers
  import opened ByteSeq
  import opened BxmlTree
  import opened BxmlText
  import opened BxmlReading

  /** A text as bytes. */
  function Bytes(w: string): seq<byte> {
    seq(|w|, i requires 0 <= i < |w| => w[i] as int % 256)
  }

  /** A header or a comment outside tags, up to its first closing bracket, leaves no trace. */
  lemma {:induction false} RunIgnored(mode: Mode, w: seq<byte>, nx: byte, cur: Cursor, before: byte)
    requires (mode.Header? || mode.Comment?) && 62 !in w
    ensures Run(w, nx, Mark(mode, cur, before)) == Mark(mode, cur, before)
    decreases |w|
  {
    if w != [] { RunIgnored(mode, w[1..], nx, cur, before); }
  }

  lemma RunHeader(first: byte, w: seq<byte>, nx: byte, cur: Cursor)
    requires (first == 63 || first == 33) && 62 !in w
    ensures Run([60, first] + w + [62], nx, Outside(cur)) == Outside(cur)
  {
    var mode := if first == 63 then Header else Comment;
    var inside := [first] + w;
    assert [60, first] + w + [62] == [60] + (inside + [62]);
    RunConcat([60], inside + [62], nx, Outside(cur));
    RunOne(60, first, Outside(cur));
    RunConcat(inside, [62], nx, Mark(mode, cur, 60));
    RunIgnored(mode, inside, 62, cur, 60);
    RunOne(62, nx, Mark(mode, cur, 60));
  }

  /** Whatever follows a header or a comment at the front of a text is read as if it stood alone. */
  lemma HeaderIgnored(first: byte, w: seq<byte>, text: seq<byte>)
    requires (first == 63 || first == 33) && 62 !in w
    ensures ParseText([60, first] + w + [62] + text) == ParseText(text)
  {
    RunConcat([60, first] + w + [62], text, NUL, Outside(START));
    RunHeader(first, w, First(text, NUL), START);
  }

  // ----- a printed document -----

  function Leaf(name: string, value: string): Node { Node(Bytes(name), Bytes(value), [], []) }

  const SAMPLE: Node := Node(Bytes("a"), [], [Leaf("b", "x"), Leaf("c", "")],
                             [Leaf("d", "t"), Node(Bytes("e"), [], [Leaf("k", "v")], [])])

  lemma PrintChild()
    ensures Print([Leaf("d", "t")], 1) == Bytes("\t<d>t</d>\n")
  {
    var n := Leaf("d", "t");
    assert [n][1..] == [];
    assert PrintBody(n, 1) == Bytes(">t</d>\n");
  }

  lemma PrintShort()
    ensures Print([Node(Bytes("e"), [], [Leaf("k", "v")], [])], 1) == Bytes("\t<e k=\"v\" />\n")
  {
    var a := Leaf("k", "v");
    var n := Node(Bytes("e"), [], [a], []);
    assert [n][1..] == [] && [a][1..] == [];
    assert PrintAttr(a) == Bytes(" k=\"v\"") && PrintAttrs([a]) == PrintAttr(a);
    assert PrintBody(n, 1) == Bytes(" />\n");
  }

  lemma PrintSampleAttrs()
    ensures PrintAttrs(SAMPLE.attrs) == Bytes(" b=\"x\" c=\"<NULL>\"")
  {
    hide PrintAttr, Bytes;
    var a, b := Leaf("b", "x"), Leaf("c", "");
    assert SAMPLE.attrs[1..] == [b] && [b][1..] == [];
    assert PrintAttrs([b]) == PrintAttr(b) + [] == PrintAttr(b);
    SampleAttrs();
  }

  lemma SampleAttrs()
    ensures PrintAttr(Leaf("b", "x")) + PrintAttr(Leaf("c", "")) == Bytes(" b=\"x\" c=\"<NULL>\"")
  {
  }

  /** A document with every kind of node, as it is printed, line by line. */
  lemma PrintSample()
    ensures Print([SAMPLE], 0) == Bytes("<a b=\"x\" c=\"<NULL>\">\n") + Bytes("\t<d>t</d>\n") + Bytes("\t<e k=\"v\" />\n") + Bytes("</a>\n")
  {
    hide PrintAttrs, Bytes, PrintBody, Print, EndTag;
    PrintSampleAttrs();
    PrintChild();
    PrintShort();
    PrintTwo(Leaf("d", "t"), SAMPLE.children[1], 1);
    var s, d, e := SAMPLE.children, Leaf("d", "t"), SAMPLE.children[1];
    assert s == [d] + [e];
    SampleEnds();
    PrintParent(SAMPLE, 0);
    assert Tabs(0) == [];
  }

  lemma PrintParent(n: Node, level: nat)
    requires n.children != []
    ensures Print([n], level) == Tabs(level) + ([60] + n.name + PrintAttrs(n.attrs) + [62, 10]) + Print(n.children, level + 1)
      + (Tabs(level) + EndTag(n.name))
  {
    hide PrintAttrs;
    assert [n][1..] == [];
    var a, b, c := Tabs(level) + [60] + n.name + PrintAttrs(n.attrs), Print(n.children, level + 1), Tabs(level) + EndTag(n.name);
    assert Print([n], level) == a + ([62, 10] + b + c) + [];
    assert a + ([62, 10] + b + c) + [] == a + [62, 10] + b + c;
    assert a + [62, 10] == Tabs(level) + ([60] + n.name + PrintAttrs(n.attrs) + [62, 10]);
  }

  lemma SampleEnds()
    ensures [60] + SAMPLE.name + Bytes(" b=\"x\" c=\"<NULL>\"") + [62, 10] == Bytes("<a b=\"x\" c=\"<NULL>\">\n")
    ensures EndTag(SAMPLE.name) == Bytes("</a>\n")
  {
  }

  lemma PrintTwo(a: Node, b: Node, level: nat)
    ensures Print([a] + [b], level) == Print([a], level) + Print([b], level)
  {
    hide PrintBody, PrintAttrs;
    assert ([a] + [b])[1..] == [b] && [a][1..] == [] && [b][1..] == [];
  }

  // ----- notation that is not printed -----

  /** Outside tags everything is passed over up to the next opening bracket. */
  lemma {:induction false} BetweenTags(w: seq<byte>, nx: byte, c: Cursor)
    requires 60 !in w
    ensures Run(w, nx, Outside(c)) == Outside(c)
    decreases |w|
  {
    if w != [] { BetweenTags(w[1..], nx, c); }
  }

  /** Between the equals sign and the first quote everything is passed over; the value begins behind the quote. */
  lemma BeforeValue(w: seq<byte>, nx: byte, c: Cursor)
    requires 34 !in w
    ensures Run(w + [34], nx, Mark(AttributeValue, c, 61)) == Mark(AttributeValue, c, 34)
  {
    var s := Mark(AttributeValue, c, 61);
    RunConcat(w, [34], nx, s);
    RunPlain(w, 34, s);
    RunOne(34, nx, s.(tok := [] + w));
  }

  /** Behind a slash that does not end the tag the next character is not looked at. */
  lemma SlashInside(y: byte, nx: byte, c: Cursor, tok: seq<byte>, before: byte)
    requires y != 62 && y != 0
    ensures var s := Parser(AttributeName, c, tok, before, false);
      Run([47, y], nx, s) == s.(tok := tok + [47, y])
  {
    var s := Parser(AttributeName, c, tok, before, false);
    assert [47, y] == [47] + [y] && tok + [47] + [y] == tok + [47, y];
    RunConcat([47], [y], nx, s);
    RunOne(47, y, s);
    RunOne(y, nx, s.(tok := tok + [47], skip := true));
  }

  /** Between the parts of a tag all blank characters are alike. */
  lemma BlanksAlike(c: byte, nx: byte, s: Parser)
    requires c in {9, 10, 13} && s.Parser? && (s.mode.TagName? || s.mode.AttributeName?) && !s.skip
    ensures var a, b := Step(c, nx, s), Step(32, nx, s);
      a == b || (a.Parser? && b.Parser? && a.mode.AttributeName? && a == b.(before := c))
  {
  }

  /** An end tag closes the element when the shorter of the two names begins the longer one. */
  lemma EndTagCloses(w: seq<byte>, nx: byte, c: Cursor)
    requires c.At? && 62 !in w
    ensures var m, s := Min(|w|, |c.node.name|), Run([47] + w + [62], nx, Mark(TagEnd, c, 60));
      if w[..m] == c.node.name[..m] then s == Outside(c) else s == Mark(TagEnd, c, 60).(tok := [47] + w + [62])
  {
    var tok := [47] + w;
    assert tok[1..1 + Min(|c.node.name|, |w|)] == w[..Min(|c.node.name|, |w|)];
    RunConcat(tok, [62], nx, Mark(TagEnd, c, 60));
    RunPlain(tok, 62, Mark(TagEnd, c, 60));
    assert [] + tok == tok;
    RunOne(62, nx, Mark(TagEnd, c, 60).(tok := tok));
  }

  /** A slash right behind the name, without a blank, does not end the element: it is open, and its text follows. */
  lemma SlashWithoutBlank(name: seq<byte>, nx: byte, c: Cursor)
    requires 0 < |name| <= 255 && AllPlain(TagName, name) && name[0] != 33 && name[0] != 63
    ensures Run([60] + name + [47, 62], nx, Outside(c)) == Mark(Text, SetName(NextNode(c), name), 62)
  {
    var s := Mark(TagName, NextNode(c), 60);
    assert [60] + name + [47, 62] == [60] + (name + ([47] + [62]));
    RunConcat([60], name + ([47] + [62]), nx, Outside(c));
    RunOne(60, name[0], Outside(c));
    assert Plain(TagName, name[0]);
    RunConcat(name, [47] + [62], nx, s);
    RunPlain(name, 47, s);
    assert [] + name == name;
    RunConcat([47], [62], nx, s.(tok := name));
    RunOne(47, 62, s.(tok := name));
    RunOne(62, nx, Mark(AttributeName, SetName(NextNode(c), name), 47));
  }
}
