/** What the reader makes of a printed document, node by node, and when that is the document. */
module BxmlReading {
  import opened BxmlText
  import opened BxmlTree
  import opened ByteSeq
  import opened Wrappers

  // ----- documents without delimiters in the wrong places -----

  ghost predicate NoNul(w: seq<byte>) { NUL !in w }

  ghost predicate CleanName(w: seq<byte>) {
    1 <= |w| <= 255 && NoNul(w) && AllPlain(TagName, w) && w[0] != QUESTION && w[0] != BANG
  }

  ghost predicate CleanAttr(a: Node) {
    && 1 <= |a.name| <= 255 && NoNul(a.name) && AllPlain(AttributeName, a.name)
    && NoNul(a.value) && AllPlain(AttributeValue, a.value)
  }

  ghost predicate CleanAttrs(s: seq<Node>) {
    forall i :: 0 <= i < |s| ==> CleanAttr(s[i])
  }

  /** Lengths and delimiters only. */
  ghost predicate Clean(n: Node)
    decreases n, 0
  {
    CleanName(n.name) && CleanAttrs(n.attrs) && NoNul(n.value) && AllPlain(Text, n.value) && CleanAll(n.children)
  }

  ghost predicate CleanAll(s: seq<Node>)
    decreases s, 1
  {
    s == [] || (Clean(s[0]) && CleanAll(s[1..]))
  }

  // ----- reading by structure -----

  /** Reading goes on with this current node, stays in an end tag that does not fit to the end of the text, or
      has used a null pointer. */
  datatype Outcome = Going(cur: Cursor) | Stuck(cur: Cursor) | Failed

  /** An attribute with a name of one character is none: its value goes to the node itself, and its end moves
      on to the node's parent. */
  function ReadAttr(a: Node, c: Cursor): Option<Cursor> {
    if |a.name| > 1 then Some(Up(SetValue(SetName(AttrNode(c), a.name), Shown(a.value))))
    else if c.At? then Some(Up(SetValue(c, Shown(a.value))))
    else None
  }

  function ReadAttrs(s: seq<Node>, c: Cursor): Option<Cursor> {
    if s == [] then Some(c)
    else match ReadAttr(s[0], c)
      case None => None
      case Some(c') => ReadAttrs(s[1..], c')
  }

  /** An end tag. */
  function ReadEnd(name: seq<byte>, c: Cursor): Outcome {
    if !c.At? then Failed else if Closes([SLASH] + name, c.node.name) then Going(c) else Stuck(c)
  }

  /** A node behind its opening bracket. */
  function ReadNode(n: Node, c: Cursor): Outcome
    requires c.At?
    decreases n, 2
  {
    match ReadAttrs(n.attrs, SetName(c, n.name))
    case None => Failed
    case Some(c') => ReadBody(n, c')
  }

  function ReadBody(n: Node, c: Cursor): Outcome
    decreases n, 1
  {
    if n.children != [] then
      match ReadFrom(n.children, ChildNode(c))
      case Failed => Failed
      case Stuck(c') => Stuck(c')
      case Going(c') => if c'.At? then ReadEnd(n.name, Up(c')) else Failed
    else if n.attrs == [] || n.value != [] then
      if n.value == [] then ReadEnd(n.name, c)
      else if c.At? then ReadEnd(n.name, SetValue(c, n.value))
      else Failed
    else Going(c)
  }

  /** The first node into the new node `c`, the others behind it. */
  function ReadFrom(s: seq<Node>, c: Cursor): Outcome
    requires s != [] && c.At?
    decreases s, 3
  {
    match ReadNode(s[0], c)
    case Failed => Failed
    case Stuck(c') => Stuck(c')
    case Going(c') => if |s| == 1 then Going(c') else ReadFrom(s[1..], NextNode(c'))
  }

  function ReadAll(s: seq<Node>, c: Cursor): Outcome {
    if s == [] then Going(c) else ReadFrom(s, NextNode(c))
  }

  /** The document that the reader makes of a printed one; none when it uses a null pointer. */
  function ReadDocument(s: seq<Node>): Option<seq<Node>> {
    match ReadAll(s, START)
    case Failed => None
    case Stuck(c) => Some(Forest(c))
    case Going(c) => Some(Forest(c))
  }

  /** In an end tag that has not fitted and never will. */
  ghost predicate StuckIn(p: Parser, c: Cursor) {
    p.Parser? && p.mode.TagEnd? && p.cur == c && !p.skip && c.At? && p.tok != [] && !Closes(p.tok, c.node.name)
  }

  ghost predicate Means(p: Parser, o: Outcome) {
    match o
    case Going(c) => p == Outside(c)
    case Stuck(c) => StuckIn(p, c)
    case Failed => p == Broken
  }

  lemma StillMisfits(tok: seq<byte>, name: seq<byte>, c: byte)
    requires tok != [] && !Closes(tok, name)
    ensures !Closes(tok + [c], name)
  {
    var m, k := Min(|name|, |tok| - 1), Min(|name|, |tok|);
    if tok[0] == SLASH {
      var i :| 0 <= i < m && tok[1..1 + m][i] != name[..m][i];
      assert (tok + [c])[1..1 + k][i] != name[..k][i];
    }
  }

  lemma {:induction false} RunStuck(w: seq<byte>, nx: byte, p: Parser, c: Cursor)
    requires StuckIn(p, c)
    ensures StuckIn(Run(w, nx, p), c)
    decreases |w|
  {
    hide Closes;
    if w != [] {
      StillMisfits(p.tok, c.node.name, w[0]);
      RunStuck(w[1..], nx, Step(w[0], First(w[1..], nx), p), c);
    }
  }

  lemma {:induction false} RunBroken(w: seq<byte>, nx: byte)
    ensures Run(w, nx, Broken) == Broken
    decreases |w|
  {
    if w != [] { RunBroken(w[1..], nx); }
  }

  /** What follows does not change an outcome that is no longer going. */
  lemma RunOver(w: seq<byte>, nx: byte, p: Parser, o: Outcome)
    requires Means(p, o) && !o.Going?
    ensures Means(Run(w, nx, p), o)
  {
    hide Run;
    match o
    case Stuck(c) => RunStuck(w, nx, p, c);
    case Failed => RunBroken(w, nx);
  }

  // ----- reading one printed piece after the other -----

  /** Between two attributes of the node at `cur`, behind a closing quote. */
  function Between(cur: Cursor): Parser { Mark(AttributeName, cur, QUOTE) }

  function BetweenOrBroken(c: Option<Cursor>): Parser {
    match c
    case None => Broken
    case Some(cur) => Between(cur)
  }

  /** After the name of a tag, a blank or the closing bracket does what it does between attributes. */
  lemma AfterName(w: seq<byte>, nx: byte, cur: Cursor, name: seq<byte>)
    requires cur.At? && 1 <= |name| <= 255 && w != [] && (w[0] == SPACE || w[0] == GREATER)
    ensures Run(w, nx, Parser(TagName, cur, name, LESS, false)) == Run(w, nx, Between(SetName(cur, name)))
  {
  }

  lemma RunFour(a: seq<byte>, b: seq<byte>, c: seq<byte>, d: seq<byte>, nx: byte, s: Parser)
    requires b != [] && c != [] && d != []
    ensures Run(a + b + c + d, nx, s) == Run(d, nx, Run(c, d[0], Run(b, c[0], Run(a, b[0], s))))
  {
    hide Run;
    RunConcat(a + b + c, d, nx, s);
    RunConcat(a + b, c, d[0], s);
    RunConcat(a, b, c[0], s);
  }

  lemma RunBlank(nx: byte, cur: Cursor)
    ensures Run([SPACE], nx, Between(cur)) == Mark(AttributeName, cur, SPACE)
  {
    RunOne(SPACE, nx, Between(cur));
  }

  /** The node that an attribute's value will go to. */
  function Named(a: Node, c: Cursor): Cursor {
    if |a.name| > 1 then SetName(AttrNode(c), a.name) else c
  }

  lemma RunAttrName(a: Node, nx: byte, cur: Cursor)
    requires CleanAttr(a)
    ensures Run(a.name + [EQUALS], nx, Mark(AttributeName, cur, SPACE)) == Mark(AttributeValue, Named(a, cur), EQUALS)
  {
    var s := Mark(AttributeName, cur, SPACE);
    RunPlain(a.name, EQUALS, s);
    RunConcat(a.name, [EQUALS], nx, s);
    assert [] + a.name == a.name;
    RunOne(EQUALS, nx, s.(tok := a.name));
  }

  lemma RunOpenQuote(nx: byte, cur: Cursor)
    ensures Run([QUOTE], nx, Mark(AttributeValue, cur, EQUALS)) == Mark(AttributeValue, cur, QUOTE)
  {
    RunOne(QUOTE, nx, Mark(AttributeValue, cur, EQUALS));
  }

  lemma RunAttrValue(w: seq<byte>, nx: byte, cur: Cursor)
    requires w != [] && AllPlain(AttributeValue, w)
    ensures Run(w + [QUOTE], nx, Mark(AttributeValue, cur, QUOTE)) == if cur.At? then Between(Up(SetValue(cur, w))) else Broken
  {
    var s := Mark(AttributeValue, cur, QUOTE);
    RunPlain(w, QUOTE, s);
    RunConcat(w, [QUOTE], nx, s);
    assert [] + w == w;
    RunOne(QUOTE, nx, s.(tok := w));
  }

  lemma ShownPlain(a: Node)
    requires CleanAttr(a)
    ensures Shown(a.value) != [] && AllPlain(AttributeValue, Shown(a.value)) && NoNul(Shown(a.value))
  {
  }

  /** One attribute. */
  lemma RunAttr(a: Node, nx: byte, cur: Cursor)
    requires CleanAttr(a)
    ensures Run(PrintAttr(a), nx, Between(cur)) == BetweenOrBroken(ReadAttr(a, cur))
  {
    hide Step, Run, Shown, Up;
    var w := Shown(a.value);
    ShownPlain(a);
    RunBlank(First(a.name + [EQUALS, QUOTE] + w + [QUOTE], nx), cur);
    RunAttrName(a, QUOTE, cur);
    RunOpenQuote(First(w + [QUOTE], nx), Named(a, cur));
    RunAttrValue(w, nx, Named(a, cur));
    RunFour([SPACE], a.name + [EQUALS], [QUOTE], w + [QUOTE], nx, Between(cur));
    assert [SPACE] + (a.name + [EQUALS]) + [QUOTE] + (w + [QUOTE]) == PrintAttr(a);
  }

  lemma {:induction false} RunAttrs(attrs: seq<Node>, nx: byte, cur: Cursor)
    requires CleanAttrs(attrs)
    ensures Run(PrintAttrs(attrs), nx, Between(cur)) == BetweenOrBroken(ReadAttrs(attrs, cur))
    decreases |attrs|
  {
    hide PrintAttr, ReadAttr;
    if attrs != [] {
      hide Run;
      var tail := PrintAttrs(attrs[1..]);
      RunAttr(attrs[0], First(tail, nx), cur);
      RunConcat(PrintAttr(attrs[0]), tail, nx, Between(cur));
      match ReadAttr(attrs[0], cur)
      case None => RunBroken(tail, nx);
      case Some(c) => RunAttrs(attrs[1..], nx, c);
    }
  }

  lemma EndIsPlain(name: seq<byte>)
    requires CleanName(name)
    ensures AllPlain(TagEnd, [SLASH] + name)
  {
    forall i | 0 <= i < |[SLASH] + name|
      ensures Plain(TagEnd, ([SLASH] + name)[i])
    {
      assert i > 0 ==> Plain(TagName, name[i - 1]);
    }
  }

  /** The rest of an end tag. */
  lemma RunClose(name: seq<byte>, nx: byte, cur: Cursor)
    requires CleanName(name)
    ensures Means(Run([SLASH] + name + [GREATER, LF], nx, Mark(TagEnd, cur, LESS)), ReadEnd(name, cur))
  {
    hide Run, Closes;
    var s, w := Mark(TagEnd, cur, LESS), [SLASH] + name;
    EndIsPlain(name);
    RunPlain(w, GREATER, s);
    RunConcat(w, [GREATER, LF], nx, s);
    assert [] + w == w;
    RunConcat([GREATER], [LF], nx, s.(tok := w));
    RunOne(GREATER, LF, s.(tok := w));
    assert [GREATER] + [LF] == [GREATER, LF];
    RunLineFeed(name, nx, cur);
  }

  /** The line feed behind an end tag. */
  lemma RunLineFeed(name: seq<byte>, nx: byte, cur: Cursor)
    requires CleanName(name)
    ensures Means(Run([LF], nx, Step(GREATER, LF, Parser(TagEnd, cur, [SLASH] + name, LESS, false))), ReadEnd(name, cur))
  {
    hide Run, Closes;
    var w := [SLASH] + name;
    var s := Step(GREATER, LF, Parser(TagEnd, cur, w, LESS, false));
    RunOne(LF, nx, s);
    if cur.At? && !Closes(w, cur.node.name) {
      StillMisfits(w, cur.node.name, GREATER);
      StillMisfits(w + [GREATER], cur.node.name, LF);
    }
  }

  lemma EndTagParts(name: seq<byte>)
    ensures EndTag(name) == [LESS] + ([SLASH] + name + [GREATER, LF])
  {
  }

  /** The end tag behind the last child. */
  lemma RunEndOfChildren(name: seq<byte>, level: nat, nx: byte, cur: Cursor)
    requires CleanName(name)
    ensures Means(Run(Tabs(level) + EndTag(name), nx, Outside(cur)), if cur.At? then ReadEnd(name, Up(cur)) else Failed)
  {
    hide Run, Up, ReadEnd;
    var rest := [SLASH] + name + [GREATER, LF];
    RunConcat(Tabs(level), EndTag(name), nx, Outside(cur));
    RunOutside(Tabs(level), LESS, cur);
    EndTagParts(name);
    RunConcat([LESS], rest, nx, Outside(cur));
    RunOne(LESS, SLASH, Outside(cur));
    if cur.At? { RunClose(name, nx, Up(cur)); } else { RunBroken(rest, nx); }
  }

  /** Text and end tag of a leaf. */
  lemma RunLeaf(n: Node, nx: byte, cur: Cursor)
    requires CleanName(n.name) && AllPlain(Text, n.value)
    ensures Means(Run([GREATER] + n.value + EndTag(n.name), nx, Between(cur)),
      if n.value == [] then ReadEnd(n.name, cur) else if cur.At? then ReadEnd(n.name, SetValue(cur, n.value)) else Failed)
  {
    hide Run, ReadEnd;
    var s, rest := Mark(Text, cur, GREATER), [SLASH] + n.name + [GREATER, LF];
    RunConcat([GREATER], n.value + EndTag(n.name), nx, Between(cur));
    assert [GREATER] + (n.value + EndTag(n.name)) == [GREATER] + n.value + EndTag(n.name);
    RunOne(GREATER, First(n.value + EndTag(n.name), nx), Between(cur));
    RunConcat(n.value, EndTag(n.name), nx, s);
    RunPlain(n.value, LESS, s);
    assert [] + n.value == n.value;
    EndTagParts(n.name);
    RunConcat([LESS], rest, nx, s.(tok := n.value));
    RunOne(LESS, SLASH, s.(tok := n.value));
    if n.value == [] { RunClose(n.name, nx, cur); }
    else if cur.At? { RunClose(n.name, nx, SetValue(cur, n.value)); }
    else { RunBroken(rest, nx); }
  }

  /** The short end of a node without text. */
  lemma RunShort(nx: byte, cur: Cursor)
    ensures Run([SPACE, SLASH, GREATER, LF], nx, Between(cur)) == Outside(cur)
  {
    hide Run;
    assert [SPACE] + [SLASH] + [GREATER] + [LF] == [SPACE, SLASH, GREATER, LF];
    RunFour([SPACE], [SLASH], [GREATER], [LF], nx, Between(cur));
    RunBlank(SLASH, cur);
    RunOne(SLASH, GREATER, Mark(AttributeName, cur, SPACE));
    RunOne(GREATER, LF, Parser(OutsideTag, cur, [], NUL, true));
    RunOne(LF, nx, Outside(cur));
  }

  /** A node behind its opening bracket: name, attributes, body. */
  function Rest(n: Node, level: nat): seq<byte> {
    n.name + (PrintAttrs(n.attrs) + PrintBody(n, level))
  }

  lemma PrintFirst(s: seq<Node>, level: nat)
    requires s != []
    ensures Print(s, level) == Tabs(level) + ([LESS] + (Rest(s[0], level) + Print(s[1..], level)))
  {
    hide PrintAttrs, PrintBody;
  }

  lemma AttrsOpen(s: seq<Node>)
    ensures s != [] ==> PrintAttrs(s) != [] && PrintAttrs(s)[0] == SPACE
    ensures s == [] ==> PrintAttrs(s) == []
  {
  }

  /** Name and attributes of a node. */
  lemma RunName(n: Node, level: nat, nx: byte, c: Cursor)
    requires Clean(n) && c.At?
    ensures Run(Rest(n, level), nx, Mark(TagName, c, LESS))
      == Run(PrintBody(n, level), nx, BetweenOrBroken(ReadAttrs(n.attrs, SetName(c, n.name))))
  {
    hide Run, PrintBody, PrintAttrs, ReadAttrs;
    var w := PrintAttrs(n.attrs) + PrintBody(n, level);
    var s := Mark(TagName, c, LESS);
    AttrsOpen(n.attrs);
    RunConcat(n.name, w, nx, s);
    RunPlain(n.name, First(w, nx), s);
    assert [] + n.name == n.name;
    AfterName(w, nx, c, n.name);
    RunConcat(PrintAttrs(n.attrs), PrintBody(n, level), nx, Between(SetName(c, n.name)));
    RunAttrs(n.attrs, First(PrintBody(n, level), nx), SetName(c, n.name));
  }

  lemma {:induction false} RunNode(n: Node, level: nat, nx: byte, c: Cursor)
    requires Clean(n) && c.At?
    ensures Means(Run(Rest(n, level), nx, Mark(TagName, c, LESS)), ReadNode(n, c))
    decreases n, 2
  {
    hide Run, Rest, ReadAttrs, ReadBody, PrintBody;
    RunName(n, level, nx, c);
    match ReadAttrs(n.attrs, SetName(c, n.name))
    case None => RunBroken(PrintBody(n, level), nx);
    case Some(c') => RunBody(n, level, nx, c');
  }

  lemma {:induction false} RunBody(n: Node, level: nat, nx: byte, c: Cursor)
    requires Clean(n)
    ensures Means(Run(PrintBody(n, level), nx, Between(c)), ReadBody(n, c))
    decreases n, 1
  {
    hide Run, ReadEnd, ReadFrom, Print;
    if n.children != [] {
      RunChildren(n, level, nx, c);
    } else if n.attrs == [] || n.value != [] {
      RunLeaf(n, nx, c);
    } else {
      RunShort(nx, c);
    }
  }

  lemma {:induction false} RunChildren(n: Node, level: nat, nx: byte, c: Cursor)
    requires Clean(n) && n.children != []
    ensures Means(Run(PrintBody(n, level), nx, Between(c)), ReadBody(n, c))
    decreases n, 0
  {
    hide Run, Print, ReadEnd, ReadFrom, Up, Means;
    var inner, outer := [GREATER, LF] + Print(n.children, level + 1), Tabs(level) + EndTag(n.name);
    BodyParts(n, level);
    RunConcat(inner, outer, nx, Between(c));
    var p := Run(inner, First(outer, nx), Between(c));
    RunFirstChild(n.children, level + 1, First(outer, nx), c);
    var o := ReadFrom(n.children, ChildNode(c));
    if o.Going? {
      GoingMeans(p, o);
      RunEndOfChildren(n.name, level, nx, o.cur);
    } else {
      RunOver(outer, nx, p, o);
    }
  }

  lemma GoingMeans(p: Parser, o: Outcome)
    requires Means(p, o) && o.Going?
    ensures p == Outside(o.cur)
  {
  }

  lemma BodyParts(n: Node, level: nat)
    requires n.children != []
    ensures PrintBody(n, level) == ([GREATER, LF] + Print(n.children, level + 1)) + (Tabs(level) + EndTag(n.name))
  {
    hide Print;
  }

  lemma {:induction false} RunFirstChild(s: seq<Node>, level: nat, nx: byte, cur: Cursor)
    requires s != [] && CleanAll(s)
    ensures Means(Run([GREATER, LF] + Print(s, level), nx, Between(cur)), ReadFrom(s, ChildNode(cur)))
    decreases s, 4
  {
    hide Run, Print, Rest, ReadFrom, Means;
    PrintFirst(s, level);
    RunFirstOpening(s[0], level, Print(s[1..], level), nx, cur);
    RunFrom(s, level, nx, ChildNode(cur));
  }

  /** End of the start tag, indentation and opening bracket of the first child. */
  lemma RunFirstOpening(n: Node, level: nat, rest: seq<byte>, nx: byte, cur: Cursor)
    requires Clean(n)
    ensures Run([GREATER, LF] + (Tabs(level) + ([LESS] + (Rest(n, level) + rest))), nx, Between(cur))
      == Run(Rest(n, level) + rest, nx, Mark(TagName, ChildNode(cur), LESS))
  {
    hide Run, Rest;
    var w, tabs := Rest(n, level) + rest, [LF] + Tabs(level);
    RestOpens(n, level, rest);
    assert [GREATER, LF] + (Tabs(level) + ([LESS] + w)) == [GREATER] + tabs + [LESS] + w;
    RunFour([GREATER], tabs, [LESS], w, nx, Between(cur));
    RunOne(GREATER, LF, Between(cur));
    RunPlain(tabs, LESS, Mark(Text, cur, GREATER));
    RunOne(LESS, w[0], Mark(Text, cur, GREATER).(tok := [] + tabs));
  }

  lemma RestOpens(n: Node, level: nat, rest: seq<byte>)
    requires Clean(n)
    ensures var w := Rest(n, level) + rest; w != [] && w[0] != SLASH && w[0] != QUESTION && w[0] != BANG
  {
    assert Plain(TagName, n.name[0]);
  }

  /** Siblings, the first of them behind its opening bracket. */
  lemma {:induction false} RunFrom(s: seq<Node>, level: nat, nx: byte, c: Cursor)
    requires s != [] && CleanAll(s) && c.At?
    ensures Means(Run(Rest(s[0], level) + Print(s[1..], level), nx, Mark(TagName, c, LESS)), ReadFrom(s, c))
    decreases s, 3
  {
    hide Run, Rest, ReadNode, Means, NextNode;
    var rest := Print(s[1..], level);
    RunConcat(Rest(s[0], level), rest, nx, Mark(TagName, c, LESS));
    var p, o := Run(Rest(s[0], level), First(rest, nx), Mark(TagName, c, LESS)), ReadNode(s[0], c);
    RunNode(s[0], level, First(rest, nx), c);
    if !o.Going? {
      RunOver(rest, nx, p, o);
    } else {
      GoingMeans(p, o);
      if |s| == 1 {
        NothingLeft(s[1..], level, nx, p);
      } else {
        PrintFirst(s[1..], level);
        RunOpening(s[1], level, Print(s[1..][1..], level), nx, o.cur);
        RunFrom(s[1..], level, nx, NextNode(o.cur));
      }
    }
  }

  lemma NothingLeft(s: seq<Node>, level: nat, nx: byte, p: Parser)
    requires s == []
    ensures Run(Print(s, level), nx, p) == p
  {
  }

  /** Indentation and opening bracket of the next sibling. */
  lemma RunOpening(n: Node, level: nat, rest: seq<byte>, nx: byte, c: Cursor)
    requires Clean(n)
    ensures Run(Tabs(level) + ([LESS] + (Rest(n, level) + rest)), nx, Outside(c))
      == Run(Rest(n, level) + rest, nx, Mark(TagName, NextNode(c), LESS))
  {
    hide Run, Rest;
    var w := Rest(n, level) + rest;
    RestOpens(n, level, rest);
    RunConcat(Tabs(level), [LESS] + w, nx, Outside(c));
    RunOutside(Tabs(level), LESS, c);
    RunConcat([LESS], w, nx, Outside(c));
    RunOne(LESS, w[0], Outside(c));
  }

  /** The reader over the text of any document without delimiters in the wrong places does what the structure
      says. */
  lemma TextIsRead(s: seq<Node>)
    requires CleanAll(s)
    ensures ParseText(Print(s, 0)) == ReadDocument(s)
  {
    hide Run, Print, ReadFrom, Rest, Forest, NextNode;
    if s == [] {
      NothingLeft(s, 0, NUL, Outside(START));
    } else {
      PrintFirst(s, 0);
      RunOpening(s[0], 0, Print(s[1..], 0), NUL, START);
      RunFrom(s, 0, NUL, NextNode(START));
    }
  }
}
