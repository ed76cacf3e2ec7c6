/** Reading the textual form through positions in memory, and printing it into a buffer of limited size. */
module BxmlXml {
  import opened Wrappers
  import opened ByteSeq
  import opened BxmlTree
  import opened BxmlReading
  import opened BxmlRoundTrip
  import opened BxmlText

  // ----- reading -----

  /** The string that starts at the front of the memory. */
  function CString(mem: seq<byte>): (w: seq<byte>)
    ensures w <= mem && NUL !in w && (|w| < |mem| ==> mem[|w|] == NUL)
  {
    if mem == [] || mem[0] == NUL then [] else [mem[0]] + CString(mem[1..])
  }

  lemma CStringEnds(mem: seq<byte>)
    requires NUL in mem
    ensures |CString(mem)| < |mem|
  {
  }

  predicate Marked(mode: Mode) {
    mode.TagName? || mode.TagEnd? || mode.Text? || mode.AttributeName? || mode.AttributeValue?
  }

  /** The reader's variables at position `p` stand for the state `s`. */
  ghost predicate Tied(mem: seq<byte>, p: nat, mode: Mode, cur: Cursor, v: nat, s: Parser) {
    && s.Parser? && s.mode == mode && s.cur == cur && !s.skip && p <= |mem|
    && (Marked(mode) ==> 1 <= v <= p && s.tok == mem[v..p] && s.before == mem[v - 1])
  }

  /** The state after the character at `p` and, when it is looked at together with the next one, after both. */
  ghost function StepTo(mem: seq<byte>, p: nat, q: nat, s: Parser): Parser
    requires p + 1 < |mem| && p <= q <= p + 1
  {
    var t := Step(mem[p], mem[p + 1], s);
    if q == p then t else Step(mem[q], NUL, t)
  }

  /** A turn that consumes the character at `p` only. */
  ghost predicate Turned(mem: seq<byte>, p: nat, s: Parser, ok: bool, mode: Mode, cur: Cursor, v: nat)
    requires p + 1 < |mem|
  {
    var t := Step(mem[p], mem[p + 1], s);
    ok == t.Parser? && (ok ==> Tied(mem, p + 1, mode, cur, v, t))
  }

  lemma Longer(mem: seq<byte>, v: nat, p: nat)
    requires v <= p < |mem|
    ensures mem[v..p] + [mem[p]] == mem[v..p + 1] && mem[p + 1..p + 1] == []
  {
  }

  method TurnOutside(mem: seq<byte>, p: nat, cur: Cursor, v: nat, ghost s: Parser)
    returns (ok: bool, mode': Mode, cur': Cursor, v': nat)
    requires p + 1 < |mem| && Tied(mem, p, OutsideTag, cur, v, s)
    ensures Turned(mem, p, s, ok, mode', cur', v')
  {
    hide Up;
    ok, mode', cur', v' := true, OutsideTag, cur, v;
    if mem[p] == LESS {
      if mem[p + 1] == SLASH {
        ok := cur.At?;
        if !ok { return; }
        cur', mode' := Up(cur), TagEnd;
      } else if mem[p + 1] == QUESTION {
        mode' := Header;
      } else if mem[p + 1] == BANG {
        mode' := Comment;
      } else {
        mode', cur' := TagName, NextNode(cur);
      }
      v' := p + 1;
    }
  }

  method TurnInTagName(mem: seq<byte>, p: nat, cur: Cursor, v: nat, ghost s: Parser)
    returns (ok: bool, mode': Mode, cur': Cursor, v': nat)
    requires p + 1 < |mem| && Tied(mem, p, TagName, cur, v, s)
    ensures Turned(mem, p, s, ok, mode', cur', v')
  {
    Longer(mem, v, p);
    ok, mode', cur', v' := true, TagName, cur, v;
    var c := mem[p];
    if c == GREATER || Blank(c) || c == SLASH {
      ok := p - v <= 255 && cur.At?;
      if !ok { return; }
      if p - v > 0 { cur' := SetName(cur, mem[v..p]); }
      v' := p + 1;
      mode' := if c == GREATER then Text else AttributeName;
    }
  }

  method TurnInText(mem: seq<byte>, p: nat, cur: Cursor, v: nat, ghost s: Parser)
    returns (ok: bool, mode': Mode, cur': Cursor, v': nat)
    requires p + 1 < |mem| && Tied(mem, p, Text, cur, v, s)
    ensures Turned(mem, p, s, ok, mode', cur', v')
  {
    Longer(mem, v, p);
    ok, mode', cur', v' := true, Text, cur, v;
    if mem[p] == LESS {
      if mem[p + 1] == SLASH {
        if p - v > 0 {
          ok := cur.At?;
          if !ok { return; }
          cur' := SetValue(cur, mem[v..p]);
        }
        mode' := TagEnd;
      } else {
        mode', cur' := TagName, ChildNode(cur);
      }
      v' := p + 1;
    }
  }

  method TurnInAttributeValue(mem: seq<byte>, p: nat, cur: Cursor, v: nat, ghost s: Parser)
    returns (ok: bool, mode': Mode, cur': Cursor, v': nat)
    requires p + 1 < |mem| && Tied(mem, p, AttributeValue, cur, v, s)
    ensures Turned(mem, p, s, ok, mode', cur', v')
  {
    hide Up;
    Longer(mem, v, p);
    ok, mode', cur', v' := true, AttributeValue, cur, v;
    if mem[p] == QUOTE {
      if mem[v - 1] == QUOTE {
        ok := cur.At?;
        if !ok { return; }
        if p - v > 0 { cur' := SetValue(cur, mem[v..p]); }
        mode', cur' := AttributeName, Up(cur');
      }
      v' := p + 1;
    }
  }

  method TurnElsewhere(mem: seq<byte>, p: nat, mode: Mode, cur: Cursor, v: nat, ghost s: Parser)
    returns (ok: bool, mode': Mode)
    requires p + 1 < |mem| && Tied(mem, p, mode, cur, v, s) && (mode.Header? || mode.Comment? || mode.TagEnd?)
    ensures Turned(mem, p, s, ok, mode', cur, v)
  {
    hide Closes;
    ok, mode' := true, mode;
    if mode.TagEnd? {
      Longer(mem, v, p);
      if mem[p] == GREATER {
        ok := cur.At?;
        if !ok { return; }
        if Closes(mem[v..p], cur.node.name) { mode' := OutsideTag; }
      }
    } else if mem[p] == GREATER {
      mode' := OutsideTag;
    }
  }

  /** One turn of the reader's loop. The answer is that the pointers are still good; `q` is the position of the
      last character consumed. */
  method Turn(mem: seq<byte>, p: nat, mode: Mode, cur: Cursor, v: nat, ghost s: Parser)
    returns (ok: bool, q: nat, mode': Mode, cur': Cursor, v': nat)
    requires p + 1 < |mem| && Tied(mem, p, mode, cur, v, s)
    ensures ok == Step(mem[p], mem[p + 1], s).Parser? && p <= q <= p + 1 && (q == p + 1 ==> mem[q] != NUL)
    ensures ok ==> (q == p + 1 ==> Step(mem[p], mem[p + 1], s).skip) && Tied(mem, q + 1, mode', cur', v', StepTo(mem, p, q, s))
  {
    hide Step, Tied;
    q, cur', v' := p, cur, v;
    match mode
    case OutsideTag => ok, mode', cur', v' := TurnOutside(mem, p, cur, v, s);
    case TagName => ok, mode', cur', v' := TurnInTagName(mem, p, cur, v, s);
    case Text => ok, mode', cur', v' := TurnInText(mem, p, cur, v, s);
    case AttributeName => ok, q, mode', cur', v' := TurnInAttributeName(mem, p, cur, v, s);
    case AttributeValue => ok, mode', cur', v' := TurnInAttributeValue(mem, p, cur, v, s);
    case Header => ok, mode' := TurnElsewhere(mem, p, mode, cur, v, s);
    case Comment => ok, mode' := TurnElsewhere(mem, p, mode, cur, v, s);
    case TagEnd => ok, mode' := TurnElsewhere(mem, p, mode, cur, v, s);
  }

  method TurnInAttributeName(mem: seq<byte>, p: nat, cur: Cursor, v: nat, ghost s: Parser)
    returns (ok: bool, q: nat, mode': Mode, cur': Cursor, v': nat)
    requires p + 1 < |mem| && Tied(mem, p, AttributeName, cur, v, s)
    ensures ok == Step(mem[p], mem[p + 1], s).Parser? && p <= q <= p + 1 && (q == p + 1 ==> mem[q] != NUL)
    ensures ok ==> (q == p + 1 ==> Step(mem[p], mem[p + 1], s).skip) && Tied(mem, q + 1, mode', cur', v', StepTo(mem, p, q, s))
  {
    Longer(mem, v, p);
    Longer(mem, v, p + 1);
    ok, q, mode', cur', v' := true, p, AttributeName, cur, v;
    var c := mem[p];
    if Blank(c) || c == EQUALS {
      ok := p - v <= 255;
      if !ok { return; }
      if p - v > 1 { cur' := SetName(AttrNode(cur), mem[v..p]); }
      v' := p + 1;
      if c == EQUALS { mode' := AttributeValue; }
    } else if c == GREATER {
      mode', v' := Text, p + 1;
    } else if c == SLASH {
      q := p + 1;
      if mem[q] == NUL {
        ok, q := false, p;
        return;
      }
      if mem[q] == GREATER { mode' := OutsideTag; }
    }
  }

  lemma RunNext(w: seq<byte>, mem: seq<byte>, p: nat, s: Parser)
    requires w == CString(mem) && p < |w| < |mem|
    ensures Run(w[p..], NUL, s) == Run(w[p + 1..], NUL, Step(mem[p], mem[p + 1], s))
  {
    assert w[p..][1..] == w[p + 1..];
  }

  /** A character that has been looked at already: what follows it does not matter. */
  lemma RunSkip(w: seq<byte>, mem: seq<byte>, p: nat, s: Parser)
    requires w == CString(mem) && p < |w| < |mem| && s.Parser? && s.skip
    ensures Run(w[p..], NUL, s) == Run(w[p + 1..], NUL, Step(mem[p], NUL, s))
  {
    RunNext(w, mem, p, s);
  }

  lemma RunNone(w: seq<byte>, nx: byte, s: Parser)
    requires w == []
    ensures Run(w, nx, s) == s
  {
  }

  /** parse_xml_node: the document that the text in memory is read as. */
  method ParseXml(mem: seq<byte>) returns (r: Option<seq<Node>>)
    requires NUL in mem
    ensures r == ParseText(CString(mem))
  {
    hide Run, Step, Forest;
    ghost var w, s := CString(mem), Outside(START);
    CStringEnds(mem);
    var mode, cur, p, v := OutsideTag, START, 0, 0;
    while mem[p] != NUL
      invariant p <= |w| && Tied(mem, p, mode, cur, v, s)
      invariant Run(w, NUL, Outside(START)) == Run(w[p..], NUL, s)
      decreases |w| - p
    {
      var ok, q, mode', cur', v' := Turn(mem, p, mode, cur, v, s);
      RunNext(w, mem, p, s);
      if !ok {
        RunBroken(w[p + 1..], NUL);
        return None;
      }
      ghost var t := Step(mem[p], mem[p + 1], s);
      if q > p {
        RunSkip(w, mem, q, t);
      }
      s := StepTo(mem, p, q, s);
      mode, cur, v, p := mode', cur', v', q + 1;
    }
    RunNone(w[p..], NUL, s);
    r := Some(Forest(cur));
  }

  // ----- printing -----

  /** Strings without a terminator inside, and attributes with values. */
  ghost predicate Strings(n: Node)
    decreases n, 0
  {
    && NoNul(n.name) && NoNul(n.value) && StringsAll(n.children)
    && forall i :: 0 <= i < |n.attrs| ==> NoNul(n.attrs[i].name) && NoNul(n.attrs[i].value) && n.attrs[i].value != []
  }

  ghost predicate StringsAll(s: seq<Node>)
    decreases s, 1
  {
    s == [] || (Strings(s[0]) && StringsAll(s[1..]))
  }

  ghost predicate Room(size: nat, at: nat, len: int) {
    at <= size && (len > 0 ==> at + len <= size)
  }

  /** Printing `w` with `len` bytes of room, from buffer contents `d` and string end `at` to `d'` and `at'`:
      all lengths are charged, only as much as fits with a terminator behind it is written, and once a piece
      did not fit nothing more is. */
  ghost predicate Emitted(d: seq<byte>, at: nat, len: int, w: seq<byte>, d': seq<byte>, at': nat, len': int) {
    && at <= at' <= at + |w| && at' <= |d| && len' == len - |w|
    && d' == Splice(d, at, w[..at' - at])
    && (len' > 0 ==> at' == at + |w|) && (at' > at ==> at' < at + len)
  }

  lemma EmitNothing(d: seq<byte>, at: nat, len: int)
    requires at <= |d|
    ensures Emitted(d, at, len, [], d, at, len)
  {
  }

  lemma EmitMore(d: seq<byte>, at: nat, len: int, v: seq<byte>, d1: seq<byte>, at1: nat, len1: int,
                 w: seq<byte>, d2: seq<byte>, at2: nat, len2: int)
    requires Emitted(d, at, len, v, d1, at1, len1) && Emitted(d1, at1, len1, w, d2, at2, len2)
    ensures Emitted(d, at, len, v + w, d2, at2, len2)
  {
    hide Splice;
    EmitCut(v, w, at1 - at, at2 - at1, len1 > 0);
    SpliceTwo(d, at, v[..at1 - at], w[..at2 - at1]);
  }

  lemma EmitCut(v: seq<byte>, w: seq<byte>, i: nat, j: nat, all: bool)
    requires i <= |v| && j <= |w| && (if all then i == |v| else j == 0)
    ensures (v + w)[..i + j] == v[..i] + w[..j]
  {
  }

  /** Charge a piece, and append it if it still fits. */
  method Emit(mem: array<byte>, at: nat, len: int, w: seq<byte>) returns (at': nat, len': int)
    requires Room(mem.Length, at, len)
    modifies mem
    ensures Emitted(old(mem[..]), at, len, w, mem[..], at', len') && Room(mem.Length, at', len')
  {
    hide Splice;
    len', at' := len - |w|, at;
    if len' > 0 {
      Put(mem, at, w);
      at' := at + |w|;
      assert w[..|w|] == w;
    } else {
      SpliceNone(mem[..], at);
      assert w[..0] == [];
    }
  }

  /** The next piece behind `v`. */
  method EmitNext(mem: array<byte>, at: nat, len: int, w: seq<byte>,
                  ghost d: seq<byte>, ghost at0: nat, ghost len0: int, ghost v: seq<byte>) returns (at': nat, len': int)
    requires Room(mem.Length, at, len) && Emitted(d, at0, len0, v, mem[..], at, len)
    modifies mem
    ensures Emitted(d, at0, len0, v + w, mem[..], at', len') && Room(mem.Length, at', len')
  {
    hide Emitted;
    ghost var d1 := mem[..];
    at', len' := Emit(mem, at, len, w);
    EmitMore(d, at0, len0, v, d1, at, len, w, mem[..], at', len');
  }

  method EmitAttrs(s: seq<Node>, mem: array<byte>, at: nat, len: int,
                   ghost d: seq<byte>, ghost at0: nat, ghost len0: int, ghost v: seq<byte>) returns (at': nat, len': int)
    requires Room(mem.Length, at, len) && Emitted(d, at0, len0, v, mem[..], at, len)
    requires forall i :: 0 <= i < |s| ==> s[i].value != []
    modifies mem
    ensures Emitted(d, at0, len0, v + PrintAttrs(s), mem[..], at', len') && Room(mem.Length, at', len')
  {
    hide Emitted, PrintAttr, Room;
    at', len' := at, len;
    ghost var w := v;
    for i := 0 to |s|
      invariant Room(mem.Length, at', len') && Emitted(d, at0, len0, w, mem[..], at', len')
      invariant w + PrintAttrs(s[i..]) == v + PrintAttrs(s)
    {
      assert s[i..][1..] == s[i + 1..];
      at', len' := EmitNext(mem, at', len', [SPACE] + s[i].name + [EQUALS, QUOTE] + s[i].value + [QUOTE], d, at0, len0, w);
      assert [SPACE] + s[i].name + [EQUALS, QUOTE] + s[i].value + [QUOTE] == PrintAttr(s[i]) by { AttrShown(s[i]); }
      assert w + PrintAttr(s[i]) + PrintAttrs(s[i + 1..]) == w + PrintAttrs(s[i..]);
      w := w + PrintAttr(s[i]);
    }
    assert s[|s|..] == [] && w + [] == w;
  }

  lemma AttrShown(a: Node)
    requires a.value != []
    ensures PrintAttr(a) == [SPACE] + a.name + [EQUALS, QUOTE] + a.value + [QUOTE]
  {
  }

  /** build_xml_node, for a node and the siblings behind it. */
  method BuildXmlNode(s: seq<Node>, level: nat, mem: array<byte>, at: nat, len: int) returns (at': nat, len': int)
    requires s != [] && StringsAll(s) && Room(mem.Length, at, len)
    modifies mem
    ensures Emitted(old(mem[..]), at, len, Print(s, level), mem[..], at', len') && Room(mem.Length, at', len')
    decreases s, 0
  {
    hide Emitted, Print, PrintAttrs, PrintBody;
    var n := s[0];
    ghost var d := mem[..];
    EmitNothing(d, at, len);
    ghost var w: seq<byte> := [] + (Tabs(level) + [LESS] + n.name);
    at', len' := EmitNext(mem, at, len, Tabs(level) + [LESS] + n.name, d, at, len, []);
    at', len' := EmitAttrs(n.attrs, mem, at', len', d, at, len, w);
    w := w + PrintAttrs(n.attrs);
    at', len' := BuildXmlBody(n, level, mem, at', len', d, at, len, w);
    w := w + PrintBody(n, level);
    PrintParts(s, level);
    if |s| > 1 {
      ghost var d1, at1, len1 := mem[..], at', len';
      at', len' := BuildXmlNode(s[1..], level, mem, at', len');
      EmitMore(d, at, len, w, d1, at1, len1, Print(s[1..], level), mem[..], at', len');
    }
  }

  lemma PrintParts(s: seq<Node>, level: nat)
    requires s != []
    ensures var w := [] + (Tabs(level) + [LESS] + s[0].name) + PrintAttrs(s[0].attrs) + PrintBody(s[0], level);
      if |s| == 1 then Print(s, level) == w else Print(s, level) == w + Print(s[1..], level)
  {
    hide PrintAttrs, PrintBody, Tabs;
    var x := Tabs(level) + [LESS] + s[0].name;
    assert [] + x == x;
    if |s| == 1 {
      assert s[1..] == [] && x + PrintAttrs(s[0].attrs) + PrintBody(s[0], level) + [] == x + PrintAttrs(s[0].attrs) + PrintBody(s[0], level);
    }
  }

  /** The body of a node: children with an end tag, text with an end tag, or the short end. */
  method BuildXmlBody(n: Node, level: nat, mem: array<byte>, at: nat, len: int,
                      ghost d: seq<byte>, ghost at0: nat, ghost len0: int, ghost v: seq<byte>) returns (at': nat, len': int)
    requires Strings(n) && Room(mem.Length, at, len) && Emitted(d, at0, len0, v, mem[..], at, len)
    modifies mem
    ensures Emitted(d, at0, len0, v + PrintBody(n, level), mem[..], at', len') && Room(mem.Length, at', len')
    decreases n.children, 1
  {
    hide Emitted, Print, Strings, StringsAll;
    BodyPieces(n, level, v);
    if n.children != [] {
      at', len' := EmitNext(mem, at, len, [GREATER, LF], d, at0, len0, v);
      ghost var d1, at1, len1 := mem[..], at', len';
      StringsBelow(n);
      at', len' := BuildXmlNode(n.children, level + 1, mem, at', len');
      EmitMore(d, at0, len0, v + [GREATER, LF], d1, at1, len1, Print(n.children, level + 1), mem[..], at', len');
      at', len' := EmitNext(mem, at', len', Tabs(level) + EndTag(n.name), d, at0, len0, v + [GREATER, LF] + Print(n.children, level + 1));
    } else if n.attrs == [] || |n.value| > 0 {
      at', len' := EmitNext(mem, at, len, [GREATER], d, at0, len0, v);
      at', len' := EmitNext(mem, at', len', n.value, d, at0, len0, v + [GREATER]);
      at', len' := EmitNext(mem, at', len', EndTag(n.name), d, at0, len0, v + [GREATER] + n.value);
    } else {
      at', len' := EmitNext(mem, at, len, [SPACE, SLASH, GREATER, LF], d, at0, len0, v);
    }
  }

  lemma StringsBelow(n: Node)
    requires Strings(n)
    ensures StringsAll(n.children)
  {
  }

  lemma BodyPieces(n: Node, level: nat, v: seq<byte>)
    ensures v + PrintBody(n, level) ==
      if n.children != [] then v + [GREATER, LF] + Print(n.children, level + 1) + (Tabs(level) + EndTag(n.name))
      else if n.attrs == [] || n.value != [] then v + [GREATER] + n.value + EndTag(n.name)
      else v + [SPACE, SLASH, GREATER, LF]
  {
    hide Print;
  }

  /** The buffer holds the first `k` characters of `w`, a terminator if there is any room, and zeros. */
  ghost predicate Holds(buf: seq<byte>, w: seq<byte>, k: nat) {
    k <= |w| && k <= |buf| && (k < |buf| || k == 0) && buf == w[..k] + Zeros(|buf| - k)
  }

  /** bxml_buildxml: answers the length of the whole text, whether or not it fits; the buffer holds all of it
      exactly when the text and its terminator fit, else a beginning of it that does, and zeros behind. */
  method BuildXml(s: seq<Node>, mem: array<byte>, memSize: nat) returns (ret: int)
    requires s != [] && StringsAll(s) && memSize <= mem.Length
    modifies mem
    ensures ret == |Print(s, 0)| && mem[memSize..] == old(mem[memSize..])
    ensures ret < memSize ==> mem[..memSize] == Print(s, 0) + Zeros(memSize - ret)
    ensures exists k :: Holds(mem[..memSize], Print(s, 0), k)
  {
    hide Emitted, Print, StringsAll, Splice;
    ghost var o := mem[..];
    Clear(mem, memSize);
    ghost var z := mem[..];
    var at, len := BuildXmlNode(s, 0, mem, 0, memSize);
    ret := memSize - len;
    BuiltText(o, memSize, Print(s, 0), mem[..], at, len);
    assert Holds(mem[..memSize], Print(s, 0), at);
    assert at == |Print(s, 0)| ==> Print(s, 0)[..at] == Print(s, 0);
  }

  lemma BuiltText(o: seq<byte>, memSize: nat, w: seq<byte>, d: seq<byte>, at: nat, len: int)
    requires memSize <= |o| && Emitted(Splice(o, 0, Zeros(memSize)), 0, memSize, w, d, at, len)
    ensures len == memSize - |w| && at <= |w| && at <= memSize && (at < memSize || at == 0) && (|w| < memSize ==> at == |w|)
    ensures |d| == |o| && d[..memSize] == w[..at] + Zeros(memSize - at) && d[memSize..] == o[memSize..]
  {
    hide Splice;
    ClearedThen(o, memSize, w[..at]);
  }

  // ----- both ways through memory -----

  lemma {:induction false} CStringOf(w: seq<byte>, k: nat)
    requires NUL !in w && 0 < k
    ensures CString(w + Zeros(k)) == w && NUL in w + Zeros(k)
  {
    var mem := w + Zeros(k);
    assert mem[|w|] == NUL;
    if w != [] {
      assert mem[1..] == w[1..] + Zeros(k);
      CStringOf(w[1..], k);
    }
  }

  lemma {:induction false} AttrsNoNul(s: seq<Node>)
    requires CleanAttrs(s)
    ensures NUL !in PrintAttrs(s)
  {
    if s != [] {
      assert CleanAttr(s[0]);
      AttrNoNul(s[0]);
      AttrsNoNul(s[1..]);
    }
  }

  lemma AttrNoNul(a: Node)
    requires CleanAttr(a)
    ensures NUL !in PrintAttr(a)
  {
    ShownPlain(a);
    hide Shown;
  }

  lemma {:induction false} PrintNoNul(s: seq<Node>, level: nat)
    requires CleanAll(s)
    ensures NUL !in Print(s, level)
    decreases s, 1
  {
    if s != [] {
      AttrsNoNul(s[0].attrs);
      BodyNoNul(s[0], level);
      PrintNoNul(s[1..], level);
    }
  }

  lemma {:induction false} BodyNoNul(n: Node, level: nat)
    requires Clean(n)
    ensures NUL !in PrintBody(n, level)
    decreases n, 0
  {
    hide Print, CleanAll;
    PrintNoNul(n.children, level + 1);
    BodyPieces(n, level, []);
    assert [] + PrintBody(n, level) == PrintBody(n, level);
  }

  lemma {:induction false} CleanStrings(s: seq<Node>)
    requires CleanAll(s) && ExpressibleAll(s)
    ensures StringsAll(s)
    decreases s
  {
    if s != [] {
      assert forall i :: 0 <= i < |s[0].attrs| ==> CleanAttr(s[0].attrs[i]) && Bare(s[0].attrs[i]);
      CleanStrings(s[0].children);
      CleanStrings(s[1..]);
    }
  }

  /** A document printed into a buffer that holds it is read from that buffer with its attributes reversed. */
  method SaveAndLoad(s: seq<Node>, mem: array<byte>, memSize: nat) returns (r: Option<seq<Node>>)
    requires s != [] && CleanAll(s) && ExpressibleAll(s) && |Print(s, 0)| < memSize <= mem.Length
    modifies mem
    ensures r == Some(AttrMirrorAll(s))
  {
    hide CleanAll, ExpressibleAll, StringsAll, Print, ParseText, AttrMirrorAll, CString;
    CleanStrings(s);
    var size := BuildXml(s, mem, memSize);
    PrintNoNul(s, 0);
    CStringOf(Print(s, 0), memSize - size);
    assert Print(s, 0)[..size] == Print(s, 0);
    TextRoundTrip(s);
    r := ParseXml(mem[..memSize]);
  }
}
