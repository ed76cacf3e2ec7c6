/** The textual form of BXML documents: what is printed, and the eight-state reader character by character. */
module BxmlText {
  import opened Wrappers
  import opened ByteSeq
  import opened BxmlTree

  const NUL: byte := 0
  const TAB: byte := 9
  const LF: byte := 10
  const CR: byte := 13
  const SPACE: byte := 32
  const BANG: byte := 33      // !
  const QUOTE: byte := 34     // "
  const SLASH: byte := 47     // /
  const LESS: byte := 60      // <
  const EQUALS: byte := 61    // =
  const GREATER: byte := 62   // >
  const QUESTION: byte := 63  // ?

  predicate Blank(c: byte) {
    c == SPACE || c == CR || c == LF || c == TAB
  }

  // ----- printing -----

  function Tabs(level: nat): (t: seq<byte>)
    ensures |t| == level && forall i :: 0 <= i < level ==> t[i] == TAB
  {
    seq(level, i => TAB)
  }

  /** A missing value shows as the placeholder of the formatting routine. */
  function Shown(value: seq<byte>): seq<byte> {
    if value == [] then [60, 78, 85, 76, 76, 62] else value
  }

  function PrintAttr(a: Node): seq<byte> {
    [SPACE] + a.name + [EQUALS, QUOTE] + Shown(a.value) + [QUOTE]
  }

  function PrintAttrs(s: seq<Node>): seq<byte> {
    if s == [] then [] else PrintAttr(s[0]) + PrintAttrs(s[1..])
  }

  function EndTag(name: seq<byte>): seq<byte> {
    [LESS, SLASH] + name + [GREATER, LF]
  }

  /** What follows the attributes: children, text, or the short end. */
  function PrintBody(n: Node, level: nat): (b: seq<byte>)
    ensures b != [] && (b[0] == GREATER || b[0] == SPACE)
    decreases n, 0
  {
    if n.children != [] then [GREATER, LF] + Print(n.children, level + 1) + (Tabs(level) + EndTag(n.name))
    else if n.attrs == [] || n.value != [] then [GREATER] + n.value + EndTag(n.name)
    else [SPACE, SLASH, GREATER, LF]
  }

  /** The nodes one after the other, at one depth. */
  function Print(s: seq<Node>, level: nat): seq<byte>
    decreases s, 1
  {
    if s == [] then []
    else Tabs(level) + [LESS] + s[0].name + PrintAttrs(s[0].attrs) + PrintBody(s[0], level) + Print(s[1..], level)
  }

  // ----- the place in the tree that is being built -----

  /** The way up from the current node: the parent with its own surroundings, and the list it hangs in. Loose
      nodes hang nowhere: the document beside them stays as it is. */
  datatype Trail = Top | Loose(kept: seq<Node>)
                 | InChildren(up: Trail, left: seq<Node>, parent: Node, right: seq<Node>)
                 | InAttrs(up: Trail, left: seq<Node>, parent: Node, right: seq<Node>)

  /** The current node between the siblings before and behind it, or no current node beside a document. */
  datatype Cursor = Nowhere(kept: seq<Node>) | At(trail: Trail, left: seq<Node>, node: Node, right: seq<Node>)

  const FRESH: Node := Node([], [], [], [])

  /** Before the first node. */
  const START: Cursor := Nowhere([])

  /** A new node that is linked to none: the first one of all is the document's. */
  function Alone(kept: seq<Node>): Cursor {
    At(if kept == [] then Top else Loose(kept), [], FRESH, [])
  }

  /** create_nextnode: the new node becomes the last one; former followers are cut off. */
  function NextNode(c: Cursor): (r: Cursor)
    ensures r.At?
  {
    if c.Nowhere? then Alone(c.kept) else At(c.trail, c.left + [c.node], FRESH, [])
  }

  /** create_childnode: in front of the other children. */
  function ChildNode(c: Cursor): (r: Cursor)
    ensures r.At?
  {
    if c.Nowhere? then Alone(c.kept) else At(InChildren(c.trail, c.left, c.node, c.right), [], FRESH, c.node.children)
  }

  /** create_attrnode: in front of the other attributes. */
  function AttrNode(c: Cursor): (r: Cursor)
    ensures r.At?
  {
    if c.Nowhere? then Alone(c.kept) else At(InAttrs(c.trail, c.left, c.node, c.right), [], FRESH, c.node.attrs)
  }

  /** The parent, which an outermost node does not have. */
  function Up(c: Cursor): Cursor
    requires c.At?
  {
    var list := c.left + [c.node] + c.right;
    match c.trail
    case Top => Nowhere(list)
    case Loose(kept) => Nowhere(kept)
    case InChildren(up, left, parent, right) => At(up, left, parent.(children := list), right)
    case InAttrs(up, left, parent, right) => At(up, left, parent.(attrs := list), right)
  }

  function SetName(c: Cursor, name: seq<byte>): (r: Cursor)
    requires c.At?
    ensures r.At?
  {
    c.(node := c.node.(name := name))
  }

  function SetValue(c: Cursor, value: seq<byte>): (r: Cursor)
    requires c.At?
    ensures r.At?
  {
    c.(node := c.node.(value := value))
  }

  function Depth(c: Cursor): nat {
    if c.Nowhere? then 0 else 1 + TrailDepth(c.trail)
  }

  function TrailDepth(t: Trail): nat {
    match t
    case Top => 0
    case Loose(_) => 0
    case InChildren(up, _, _, _) => 1 + TrailDepth(up)
    case InAttrs(up, _, _, _) => 1 + TrailDepth(up)
  }

  /** The whole document as it stands. */
  function Forest(c: Cursor): seq<Node>
    decreases Depth(c)
  {
    if c.Nowhere? then c.kept else Forest(Up(c))
  }

  // ----- reading -----

  datatype Mode = OutsideTag | TagName | TagEnd | Text | AttributeName | AttributeValue | Header | Comment

  /** `tok` is what lies between the mark and the current character, `before` the character before the mark;
      `skip` says that the next character has been looked at already. Broken stands for using a null pointer,
      and for going on past a 255-byte name or past the end of the text. */
  datatype Parser = Parser(mode: Mode, cur: Cursor, tok: seq<byte>, before: byte, skip: bool) | Broken

  function Outside(c: Cursor): Parser { Parser(OutsideTag, c, [], NUL, false) }

  /** The mark is set behind `c`. */
  function Mark(mode: Mode, cur: Cursor, c: byte): Parser { Parser(mode, cur, [], c, false) }

  /** Does the end tag read as `tok` close a node of this name? Only the shorter length is compared. */
  predicate Closes(tok: seq<byte>, name: seq<byte>) {
    tok != [] && tok[0] == SLASH && var m := Min(|name|, |tok| - 1); tok[1..1 + m] == name[..m]
  }

  /** One character `c`, followed by `nx`. */
  function Step(c: byte, nx: byte, s: Parser): Parser {
    if s.Broken? then Broken
    else
      var more := s.(tok := s.tok + [c], skip := false);
      if s.skip then (if s.mode.OutsideTag? then s.(skip := false) else more)
      else
        match s.mode
        case OutsideTag => StepOutside(c, nx, s)
        case Header => if c == GREATER then Outside(s.cur) else s
        case Comment => if c == GREATER then Outside(s.cur) else s
        case TagName => StepTagName(c, s, more)
        case Text => StepText(c, nx, s, more)
        case TagEnd =>
          if c != GREATER then more
          else if !s.cur.At? then Broken
          else if Closes(s.tok, s.cur.node.name) then Outside(s.cur) else more
        case AttributeName => StepAttributeName(c, nx, s, more)
        case AttributeValue => StepAttributeValue(c, s, more)
  }

  function StepOutside(c: byte, nx: byte, s: Parser): Parser
    requires s.Parser?
  {
    if c != LESS then s
    else if nx == SLASH then (if s.cur.At? then Mark(TagEnd, Up(s.cur), c) else Broken)
    else if nx == QUESTION then Mark(Header, s.cur, c)
    else if nx == BANG then Mark(Comment, s.cur, c)
    else Mark(TagName, NextNode(s.cur), c)
  }

  function StepTagName(c: byte, s: Parser, more: Parser): Parser
    requires s.Parser?
  {
    if c != GREATER && c != SLASH && !Blank(c) then more
    else if |s.tok| > 255 || !s.cur.At? then Broken
    else Mark(if c == GREATER then Text else AttributeName, if s.tok == [] then s.cur else SetName(s.cur, s.tok), c)
  }

  function StepText(c: byte, nx: byte, s: Parser, more: Parser): Parser
    requires s.Parser?
  {
    if c != LESS then more
    else if nx != SLASH then Mark(TagName, ChildNode(s.cur), c)
    else if s.tok == [] then Mark(TagEnd, s.cur, c)
    else if s.cur.At? then Mark(TagEnd, SetValue(s.cur, s.tok), c)
    else Broken
  }

  function StepAttributeName(c: byte, nx: byte, s: Parser, more: Parser): Parser
    requires s.Parser? && more.Parser?
  {
    if c == EQUALS || Blank(c) then
      if |s.tok| > 255 then Broken
      else Mark(if c == EQUALS then AttributeValue else AttributeName,
                if |s.tok| > 1 then SetName(AttrNode(s.cur), s.tok) else s.cur, c)
    else if c == GREATER then Mark(Text, s.cur, c)
    else if c == SLASH then
      if nx == NUL then Broken
      else if nx == GREATER then Parser(OutsideTag, s.cur, [], NUL, true)
      else more.(skip := true)
    else more
  }

  function StepAttributeValue(c: byte, s: Parser, more: Parser): Parser
    requires s.Parser?
  {
    if c != QUOTE then more
    else if s.before != QUOTE then Mark(AttributeValue, s.cur, c)
    else if !s.cur.At? then Broken
    else Mark(AttributeName, Up(if s.tok == [] then s.cur else SetValue(s.cur, s.tok)), c)
  }

  /** The characters of `w`, followed by `nx`. */
  function Run(w: seq<byte>, nx: byte, s: Parser): Parser
    decreases |w|
  {
    if w == [] then s else Run(w[1..], nx, Step(w[0], First(w[1..], nx), s))
  }

  function First(w: seq<byte>, nx: byte): byte { if w == [] then nx else w[0] }

  /** The document that a text is read as. */
  function ParseText(w: seq<byte>): Option<seq<Node>> {
    match Run(w, NUL, Outside(START))
    case Broken => None
    case Parser(_, cur, _, _, _) => Some(Forest(cur))
  }

  lemma {:induction false} RunConcat(a: seq<byte>, b: seq<byte>, nx: byte, s: Parser)
    ensures Run(a + b, nx, s) == Run(b, nx, Run(a, First(b, nx), s))
  {
    if a == [] {
      assert a + b == b;
    } else {
      assert (a + b)[1..] == a[1..] + b;
      RunConcat(a[1..], b, nx, Step(a[0], First(a[1..] + b, nx), s));
    }
  }

  // ----- runs of ordinary characters -----

  /** Characters that only lengthen the token. */
  predicate Plain(mode: Mode, c: byte) {
    match mode
    case TagName => c != GREATER && c != SLASH && !Blank(c)
    case TagEnd => c != GREATER
    case Text => c != LESS
    case AttributeName => c != EQUALS && !Blank(c) && c != GREATER && c != SLASH
    case AttributeValue => c != QUOTE
    case _ => false
  }

  ghost predicate AllPlain(mode: Mode, w: seq<byte>) {
    forall i :: 0 <= i < |w| ==> Plain(mode, w[i])
  }

  lemma {:induction false} RunPlain(w: seq<byte>, nx: byte, s: Parser)
    requires s.Parser? && !s.skip && AllPlain(s.mode, w)
    ensures Run(w, nx, s) == s.(tok := s.tok + w)
    decreases |w|
  {
    if w == [] {
      assert s.tok + w == s.tok;
    } else {
      StepPlain(w[0], First(w[1..], nx), s);
      RunPlain(w[1..], nx, s.(tok := s.tok + [w[0]]));
      assert s.tok + [w[0]] + w[1..] == s.tok + w;
    }
  }

  lemma StepPlain(c: byte, nx: byte, s: Parser)
    requires s.Parser? && !s.skip && Plain(s.mode, c)
    ensures Step(c, nx, s) == s.(tok := s.tok + [c])
  {
  }

  /** Outside tags everything but an opening bracket is passed over. */
  lemma {:induction false} RunOutside(w: seq<byte>, nx: byte, c: Cursor)
    requires LESS !in w
    ensures Run(w, nx, Outside(c)) == Outside(c)
    decreases |w|
  {
    if w != [] {
      RunOutside(w[1..], nx, c);
    }
  }

  lemma RunOne(c: byte, nx: byte, s: Parser)
    ensures Run([c], nx, s) == Step(c, nx, s)
  {
    assert [c][1..] == [];
  }
}
