/** Documents whose nodes are objects, and where a path through one leads. */
module BxmlWalk {
  import opened ByteSeq
  import opened BxmlText
  import opened BxmlTree

  const DOT: byte := 46
  const COLON: byte := 58
  const DOTS: seq<byte> := [DOT, DOT, DOT]

  /** A node of the document with the nodes that hang off it. A value of length 0 is a missing one. */
  class XNode {
    const name: seq<byte>
    const parent: XNode?
    ghost const depth: nat
    var value: seq<byte>
    var attrs: seq<XNode>
    var children: seq<XNode>

    constructor (name: seq<byte>, parent: XNode?)
      ensures this.name == name && this.parent == parent && value == [] && attrs == [] && children == []
      ensures depth == if parent == null then 0 else parent.depth + 1
    {
      this.name, this.parent, depth := name, parent, if parent == null then 0 else parent.depth + 1;
      value, attrs, children := [], [], [];
    }
  }

  // ----- looking up -----

  /** The first node of that name. */
  function Find(list: seq<XNode>, name: seq<byte>): (r: XNode?)
    ensures r != null ==> r in list && r.name == name
    ensures r == null ==> forall x :: x in list ==> x.name != name
  {
    if list == [] then null else if list[0].name == name then list[0] else Find(list[1..], name)
  }

  /** The node found is the first of its name. */
  lemma {:induction false} FindsFirst(list: seq<XNode>, name: seq<byte>) returns (i: nat)
    requires Find(list, name) != null
    ensures i < |list| && list[i] == Find(list, name) && list[i].name == name
    ensures forall j :: 0 <= j < i ==> list[j].name != name
  {
    i := 0;
    if list[0].name != name {
      var k := FindsFirst(list[1..], name);
      i := k + 1;
    }
  }

  /** A document: nothing outside is linked to, and attributes and children hang below their node. */
  ghost predicate Closed(nodes: set<XNode>)
    reads nodes
  {
    forall n :: n in nodes ==>
      (n.parent == null || n.parent in nodes) && (forall x :: x in n.attrs + n.children ==> x in nodes && n.depth < x.depth)
  }

  /** get_childnode without conditions: three names are special. */
  ghost function Child(n: XNode, name: seq<byte>): (r: XNode?)
    reads n`children
    ensures r == null || r == n || r == n.parent || r in n.children
  {
    if name == DOTS then (if n.children != [] then n.children[0] else n)
    else if name == [DOT, DOT] then (if n.parent != null then n.parent else n)
    else if name == [DOT] then n
    else Find(n.children, name)
  }

  function IndexOf(w: seq<byte>, c: byte): (i: nat)
    ensures i <= |w| && c !in w[..i] && (i < |w| ==> w[i] == c)
  {
    if w == [] || w[0] == c then 0 else 1 + IndexOf(w[1..], c)
  }

  /** What stands in front of the colon: the name of a child, or one of the special names. */
  function Part(comp: seq<byte>): seq<byte> { comp[..IndexOf(comp, COLON)] }

  ghost predicate NoUp(comps: seq<seq<byte>>) { forall i :: 0 <= i < |comps| ==> Part(comps[i]) != [DOT, DOT] }

  /** One component: a child, an attribute of a child, or an attribute of the node itself. */
  ghost function StepTo(nodes: set<XNode>, n: XNode, comp: seq<byte>): (r: XNode?)
    requires Closed(nodes) && n in nodes
    reads nodes
    ensures r == null || r in nodes
    ensures r != null && Part(comp) != [DOT, DOT] ==> n.depth <= r.depth
  {
    var i := IndexOf(comp, COLON);
    if i == |comp| then InNodes(nodes, n, comp)
    else
      var m := if i == 0 then n else InNodes(nodes, n, comp[..i]);
      if m == null then null else Find(m.attrs, comp[i + 1..])
  }

  ghost function InNodes(nodes: set<XNode>, n: XNode, name: seq<byte>): (r: XNode?)
    requires Closed(nodes) && n in nodes
    reads nodes
    ensures r == null || r in nodes
    ensures r != null && name != [DOT, DOT] ==> n.depth <= r.depth
  {
    Child(n, name)
  }

  ghost function Walk(nodes: set<XNode>, n: XNode?, comps: seq<seq<byte>>): (r: XNode?)
    requires Closed(nodes) && (n == null || n in nodes)
    reads nodes
    ensures r == null || r in nodes
    ensures r != null && NoUp(comps) ==> n != null && n.depth <= r.depth
    decreases |comps|
  {
    if n == null || comps == [] then n else Walk(nodes, StepTo(nodes, n, comps[0]), comps[1..])
  }

  lemma {:induction false} WalkMore(nodes: set<XNode>, n: XNode?, comps: seq<seq<byte>>, comp: seq<byte>)
    requires Closed(nodes) && (n == null || n in nodes)
    ensures var m := Walk(nodes, n, comps);
      Walk(nodes, n, comps + [comp]) == if m == null then null else StepTo(nodes, m, comp)
    decreases |comps|
  {
    if n == null {
    } else if comps == [] {
      assert [] + [comp] == [comp] && [comp][1..] == [];
    } else {
      assert (comps + [comp])[1..] == comps[1..] + [comp];
      WalkMore(nodes, StepTo(nodes, n, comps[0]), comps[1..], comp);
    }
  }

  lemma {:induction false} WalkConcat(nodes: set<XNode>, n: XNode?, a: seq<seq<byte>>, b: seq<seq<byte>>)
    requires Closed(nodes) && (n == null || n in nodes)
    ensures Walk(nodes, n, a + b) == Walk(nodes, Walk(nodes, n, a), b)
    decreases |a|
  {
    if n == null || a == [] {
      assert a == [] ==> a + b == b;
    } else {
      assert (a + b)[1..] == a[1..] + b;
      WalkConcat(nodes, StepTo(nodes, n, a[0]), a[1..], b);
    }
  }

  /** Components that count: empty and overlong ones are passed over. */
  function Keep(tok: seq<byte>): seq<seq<byte>> {
    if 0 < |tok| < 256 then [tok] else []
  }

  /** The components of `w` with `tok` before it. */
  function Comps(w: seq<byte>, tok: seq<byte>): seq<seq<byte>>
    decreases |w|
  {
    if w == [] then Keep(tok)
    else if w[0] == SLASH then Keep(tok) + Comps(w[1..], [])
    else Comps(w[1..], tok + [w[0]])
  }

  function PathComps(path: seq<byte>): seq<seq<byte>> {
    if path != [] && path[0] == SLASH then Comps(path[1..], []) else Comps(path, [])
  }

  /** Does the component go by "the first child, whichever it is"? */
  predicate Dots(comp: seq<byte>) {
    comp[..IndexOf(comp, COLON)] == DOTS
  }

  ghost predicate NoDots(comps: seq<seq<byte>>) {
    forall i :: 0 <= i < |comps| ==> !Dots(comps[i])
  }

  // ----- what paths mean -----

  /** The first node of that name in a list; none when there is none. */
  ghost predicate FirstNamed(list: seq<XNode>, name: seq<byte>, r: XNode?) {
    if r == null then forall x :: x in list ==> x.name != name
    else exists i :: 0 <= i < |list| && list[i] == r && r.name == name && forall j :: 0 <= j < i ==> list[j].name != name
  }

  lemma FindMeans(list: seq<XNode>, name: seq<byte>)
    ensures FirstNamed(list, name, Find(list, name))
  {
    if Find(list, name) != null {
      var i := FindsFirst(list, name);
    }
  }

  /** What a name stands for at a node: three dots, two dots, one dot, or a child. */
  ghost predicate ChildIs(n: XNode, name: seq<byte>, r: XNode?)
    reads n
  {
    if name == [46, 46, 46] then r == if n.children == [] then n else n.children[0]
    else if name == [46, 46] then r == if n.parent == null then n else n.parent
    else if name == [46] then r == n
    else FirstNamed(n.children, name, r)
  }

  /** A component without a colon is a name; one with a colon is an attribute of what its name stands for, or of the
      node itself when the name is empty. */
  lemma StepMeans(nodes: set<XNode>, n: XNode, name: seq<byte>, attr: seq<byte>)
    requires Closed(nodes) && n in nodes && 58 !in name
    ensures ChildIs(n, name, StepTo(nodes, n, name))
    ensures var m, r := if name == [] then n else StepTo(nodes, n, name), StepTo(nodes, n, name + [58] + attr);
      if m == null then r == null else FirstNamed(m.attrs, attr, r)
  {
    hide Find, FirstNamed;
    FindMeans(n.children, name);
    var comp := name + [58] + attr;
    IndexIs(name, []);
    IndexIs(name, [58] + attr);
    assert name + [] == name && name + ([58] + attr) == comp;
    assert comp[..|name|] == name && comp[|name| + 1..] == attr;
    var m := if name == [] then n else Child(n, name);
    if m != null { FindMeans(m.attrs, attr); }
  }

  lemma {:induction false} IndexIs(name: seq<byte>, rest: seq<byte>)
    requires 58 !in name && (rest != [] ==> rest[0] == 58)
    ensures IndexOf(name + rest, 58) == |name|
  {
    if name == [] {
      assert [] + rest == rest;
    } else {
      assert (name + rest)[1..] == name[1..] + rest;
      IndexIs(name[1..], rest);
    }
  }

  /** Components with slashes between them. */
  function Joined(cs: seq<seq<byte>>): seq<byte> {
    if cs == [] then [] else if |cs| == 1 then cs[0] else cs[0] + [47] + Joined(cs[1..])
  }

  /** Those that count: neither empty nor of 256 bytes or more. */
  function Kept(cs: seq<seq<byte>>): seq<seq<byte>> {
    if cs == [] then [] else (if 0 < |cs[0]| < 256 then [cs[0]] else []) + Kept(cs[1..])
  }

  /** A path is taken apart at its slashes. */
  lemma {:induction false} SplitJoined(cs: seq<seq<byte>>)
    requires forall c :: c in cs ==> 47 !in c
    ensures Comps(Joined(cs), []) == Kept(cs)
  {
    if |cs| == 1 {
      SplitOne(cs[0], [], []);
      assert cs[0] + [] == cs[0] && [] + cs[0] == cs[0] && cs[1..] == [];
    } else if |cs| > 1 {
      assert forall c :: c in cs[1..] ==> c in cs;
      SplitJoined(cs[1..]);
      SplitOne(cs[0], [47] + Joined(cs[1..]), []);
      assert cs[0] + ([47] + Joined(cs[1..])) == Joined(cs) && [] + cs[0] == cs[0];
      assert ([47] + Joined(cs[1..]))[1..] == Joined(cs[1..]);
    }
  }

  lemma {:induction false} SplitOne(c: seq<byte>, rest: seq<byte>, tok: seq<byte>)
    requires 47 !in c
    ensures Comps(c + rest, tok) == Comps(rest, tok + c)
    decreases |c|
  {
    if c == [] {
      assert [] + rest == rest && tok + [] == tok;
    } else {
      assert (c + rest)[1..] == c[1..] + rest && tok + [c[0]] + c[1..] == tok + c;
      SplitOne(c[1..], rest, tok + [c[0]]);
    }
  }

  // ----- growing -----

  /** New nodes in front, with names that the list did not have. */
  ghost predicate Extends(s: seq<XNode>, was: seq<XNode>) {
    && |was| <= |s| && s[|s| - |was|..] == was
    && forall i, x :: 0 <= i < |s| - |was| && x in was ==> s[i].name != x.name
  }

  lemma {:induction false} FindInExtended(s: seq<XNode>, was: seq<XNode>, name: seq<byte>)
    requires Extends(s, was) && Find(was, name) != null
    ensures Find(s, name) == Find(was, name)
    decreases |s|
  {
    if |s| == |was| {
      assert s == was;
    } else {
      assert s[1..][|s| - 1 - |was|..] == was;
      FindInExtended(s[1..], was, name);
    }
  }

  lemma ExtendsMore(c: seq<XNode>, b: seq<XNode>, a: seq<XNode>)
    requires Extends(c, b) && Extends(b, a)
    ensures Extends(c, a)
  {
    assert c[|c| - |a|..] == c[|c| - |b|..][|b| - |a|..];
    forall i, x | 0 <= i < |c| - |a| && x in a
      ensures c[i].name != x.name
    {
      if i >= |c| - |b| { assert c[i] == b[i - (|c| - |b|)]; } else { assert x in b; }
    }
  }

  lemma ExtendsByOne(s: seq<XNode>, x: XNode)
    requires Find(s, x.name) == null
    ensures Extends([x] + s, s) && Find([x] + s, x.name) == x
  {
  }

  lemma NothingFound(name: seq<byte>)
    ensures Find([], name) == null
  {
  }

  lemma ReadBack(buf: seq<byte>, data: seq<byte>)
    requires |data| <= |buf|
    ensures data[..|data|] == data && Splice(buf, 0, data)[..|data|] == data
  {
  }

  // ----- paths that stray -----

  /** Components that may stay at the node. */
  predicate Stays(comp: seq<byte>) { comp == [DOT] || comp == DOTS }

  /** Is a child with a name of its own asked for? */
  predicate Makes(comp: seq<byte>) {
    Part(comp) != [] && Part(comp) != [DOT] && Part(comp) != [DOT, DOT] && Part(comp) != DOTS
  }

  /** Does the component ask for the first child of a node that has none? A node yet to be made is null. */
  ghost predicate Halts(n: XNode?, comp: seq<byte>, halted: bool)
    reads n
  {
    if comp == DOTS then n == null || n.children == [] else comp == [DOT] && halted
  }

  /** Does a first-child component come to a node without children, one yet to be made included, and then a name
      of a child follow? `halted`: such a component has just been met. */
  ghost predicate Strays(nodes: set<XNode>, n: XNode?, comps: seq<seq<byte>>, halted: bool)
    requires Closed(nodes) && (n == null || n in nodes)
    reads nodes
    decreases |comps|
  {
    comps != [] && (
      (halted && Makes(comps[0])) ||
      Strays(nodes, if n == null then null else StepTo(nodes, n, comps[0]), comps[1..], Halts(n, comps[0], halted)))
  }

  /** A first-child component and a name: this goes astray exactly from a node without children. */
  lemma DotsThenName(nodes: set<XNode>, n: XNode, name: seq<byte>)
    requires Closed(nodes) && n in nodes && Makes(name)
    ensures Strays(nodes, n, [DOTS, name], false) <==> n.children == []
  {
    PartOf(DOTS);
    var m := StepTo(nodes, n, DOTS);
    assert [DOTS, name][1..] == [name] && [name][1..] == [];
    assert Strays(nodes, m, [name], n.children == []) <==> n.children == [];
  }

  /** Nodes that a component takes one down at least. */
  function Cost1(comp: seq<byte>): nat {
    (if Makes(comp) then 1 else 0) + if IndexOf(comp, COLON) < |comp| then 1 else 0
  }

  function Cost(comps: seq<seq<byte>>): nat {
    if comps == [] then 0 else Cost1(comps[0]) + Cost(comps[1..])
  }

  lemma {:induction false} CostMore(comps: seq<seq<byte>>, comp: seq<byte>)
    ensures Cost(comps + [comp]) == Cost(comps) + Cost1(comp)
  {
    if comps == [] {
      assert [] + [comp] == [comp] && [comp][1..] == [];
    } else {
      assert (comps + [comp])[1..] == comps[1..] + [comp];
      CostMore(comps[1..], comp);
    }
  }

  /** Each node is all that hangs off the one before it, and the last is the deepest. */
  ghost predicate Links(s: seq<XNode>)
    reads s
  {
    && (forall k, x :: 0 <= k < |s| - 1 && x in s[k].attrs + s[k].children ==> x == s[k + 1])
    && (forall k :: 0 <= k < |s| - 1 ==> s[k].depth < s[|s| - 1].depth)
  }

  /** And nothing hangs off the last. */
  ghost predicate Follows(s: seq<XNode>)
    reads s
  {
    Links(s) && (s != [] ==> s[|s| - 1].attrs == [] && s[|s| - 1].children == [])
  }

  lemma JustLinks(s: seq<XNode>, n: XNode)
    requires Links(s) && s != [] && n == s[|s| - 1] && n.attrs == [] && n.children == []
    ensures Follows(s)
  {
  }

  lemma FollowsConcat(a: seq<XNode>, n: XNode, b: seq<XNode>)
    requires Links(a) && Follows(b) && a != [] && b != [] && n == a[|a| - 1]
    requires forall x :: x in n.attrs + n.children ==> x == b[0]
    requires forall x :: x in b ==> n.depth < x.depth
    ensures Follows(a + b)
  {
    var s := a + b;
    forall k | 0 <= k < |s| - 1
      ensures s[k].depth < s[|s| - 1].depth && forall x :: x in s[k].attrs + s[k].children ==> x == s[k + 1]
    {
      if k >= |a| { assert s[k] == b[k - |a|] && s[k + 1] == b[k - |a| + 1]; }
    }
  }

  lemma PartOf(comp: seq<byte>)
    ensures IndexOf(comp, COLON) == |comp| ==> Part(comp) == comp
    ensures Stays(comp) ==> IndexOf(comp, COLON) == |comp| && !Makes(comp)
  {
  }

  /** A component leads down, unless it stays. */
  lemma StepDepth(nodes: set<XNode>, n: XNode, comp: seq<byte>)
    requires Closed(nodes) && n in nodes && Part(comp) != [DOT, DOT] && StepTo(nodes, n, comp) != null
    ensures var r := StepTo(nodes, n, comp);
      if comp == [DOT] || (comp == DOTS && n.children == []) then r == n else n.depth < r.depth
  {
    PartOf(comp);
    assert n.children != [] ==> n.children[0] in n.attrs + n.children;
  }

  lemma StepStays(nodes: set<XNode>, n: XNode, comp: seq<byte>)
    requires Closed(nodes) && n in nodes && (comp == [DOT] || (comp == DOTS && n.children == []))
    ensures StepTo(nodes, n, comp) == n && Part(comp) != [DOT, DOT]
  {
    PartOf(comp);
  }

  /** A name leads nowhere from a node without children. */
  lemma StepMisses(nodes: set<XNode>, n: XNode, comp: seq<byte>)
    requires Closed(nodes) && n in nodes && Makes(comp) && n.children == []
    ensures StepTo(nodes, n, comp) == null
  {
    PartOf(comp);
    NothingFound(Part(comp));
  }

  lemma BlankStep(nodes: set<XNode>, n: XNode, comp: seq<byte>)
    requires Closed(nodes) && n in nodes && Part(comp) != [DOT, DOT] && n.attrs == [] && n.children == []
    ensures StepTo(nodes, n, comp) == if Stays(comp) then n else null
  {
    PartOf(comp);
    NothingFound(comp);
    NothingFound(Part(comp));
  }

  /** Components that stay. */
  lemma {:induction false} WalkStays(nodes: set<XNode>, n: XNode, comps: seq<seq<byte>>)
    requires Closed(nodes) && n in nodes
    requires forall i :: 0 <= i < |comps| ==> comps[i] == [DOT] || (comps[i] == DOTS && n.children == [])
    ensures Walk(nodes, n, comps) == n
    decreases |comps|
  {
    if comps != [] {
      PartOf(comps[0]);
      assert StepTo(nodes, n, comps[0]) == n;
      WalkStays(nodes, n, comps[1..]);
    }
  }

  lemma FollowsStep(nodes: set<XNode>, s: seq<XNode>, k: nat, comp: seq<byte>) returns (j: nat)
    requires Closed(nodes) && Follows(s) && k < |s| && s[k] in nodes
    requires Part(comp) != [DOT, DOT] && StepTo(nodes, s[k], comp) != null
    ensures k + Cost1(comp) <= j < |s| && StepTo(nodes, s[k], comp) == s[j]
  {
    PartOf(comp);
    var i := IndexOf(comp, COLON);
    var n, r := s[k], StepTo(nodes, s[k], comp);
    if i == |comp| {
      assert r == n || r in n.attrs + n.children by { assert n.children != [] ==> n.children[0] in n.children; }
      j := if r == n then k else k + 1;
    } else {
      var m := if i == 0 then n else Child(n, comp[..i]);
      assert m == n || m in n.attrs + n.children by { assert n.children != [] ==> n.children[0] in n.children; }
      assert r in m.attrs + m.children;
      j := if m == n then k + 1 else k + 2;
    }
  }

  /** Going on from inside a chain of nodes, with too many names for it, leads nowhere. */
  lemma {:induction false} Ahead(nodes: set<XNode>, s: seq<XNode>, k: nat, comps: seq<seq<byte>>)
    requires Closed(nodes) && Follows(s) && (forall x :: x in s ==> x in nodes) && NoUp(comps)
    requires k < |s| <= k + Cost(comps)
    ensures Walk(nodes, s[k], comps) == null
    decreases |comps|
  {
    hide StepTo, Cost1, Follows;
    if comps != [] && StepTo(nodes, s[k], comps[0]) != null {
      var j := FollowsStep(nodes, s, k, comps[0]);
      Ahead(nodes, s, j, comps[1..]);
    }
  }
}
