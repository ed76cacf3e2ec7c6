/** Reading and writing values by path, creating nodes on demand. */
module BxmlPath {
  import opened ByteSeq
  import opened BxmlText
  import opened BxmlTree
  import opened BxmlWalk

  /** How far a second walk over the components done follows the first. On its way it arrives at the same node
      after the first `arrived` of them and stays there; from `stop` on there has been a first-child component
      that found no child. `there` says that the node was there before. Off its way, it is at the first node of
      `born` after the first `back` components, while the first walk has made `born` and is at its last. */
  datatype Course = On(arrived: nat, stop: nat, there: bool) | Off(back: nat, born: seq<XNode>)

  /** The course after one more component, the one with number `n`. */
  ghost function NextCourse(c: Course, n: nat, comp: seq<byte>, made: seq<XNode>, childless: bool): Course {
    match c
    case Off(back, born) => Off(back, born + made)
    case On(arrived, stop, there) =>
      if comp == [DOT] || (comp == DOTS && childless) then
        On(arrived, if stop == n && comp == [DOT] then n + 1 else stop, there)
      else if made == [] then On(n + 1, n + 1, there)
      else if stop < n && Makes(comp) then Off(stop + 1, made)
      else On(n + 1, n + 1, false)
  }

  /** One component `comp` of `all`, number `done`, is to be followed from `n`. */
  datatype Move = Move(n: XNode, comp: seq<byte>, start: XNode, all: seq<seq<byte>>, done: nat, c: Course)

  /** A second walk, if it is kept track of: all components, how many are done, and whether the walks will part. */
  datatype Track = Track(kept: bool, all: seq<seq<byte>>, done: nat, c: Course, strays: bool)

  class Document {
    const root: XNode
    var cur: XNode
    ghost var nodes: set<XNode>

    constructor (root: XNode, ghost nodes: set<XNode>)
      requires root in nodes && Closed(nodes)
      ensures Valid() && this.root == root && cur == root && this.nodes == nodes
    {
      this.root, cur, this.nodes := root, root, nodes;
    }

    ghost predicate Valid()
      reads this, nodes
    {
      root in nodes && cur in nodes && Closed(nodes)
    }

    /** Where a path starts. */
    function Origin(path: seq<byte>): XNode
      reads this
    {
      if path != [] && path[0] == SLASH then root else cur
    }

    /** The node that a path names, if it is there. */
    ghost function Named(path: seq<byte>): (r: XNode?)
      requires Valid()
      reads this, nodes
      ensures r == null || r in nodes
    {
      Walk(nodes, Origin(path), PathComps(path))
    }

    /** A path with a slash in front leads where its components lead from the root. */
    lemma AbsolutePath(cs: seq<seq<byte>>)
      requires Valid() && forall c :: c in cs ==> 47 !in c
      ensures Named([47] + Joined(cs)) == Walk(nodes, root, Kept(cs))
    {
      hide Walk, Comps, Kept, Joined, Closed;
      SplitJoined(cs);
      assert ([47] + Joined(cs))[1..] == Joined(cs);
    }

    /** Any other leads from the current node. */
    lemma RelativePath(cs: seq<seq<byte>>)
      requires Valid() && (forall c :: c in cs ==> 47 !in c) && (cs != [] ==> cs[0] != [])
      ensures Named(Joined(cs)) == Walk(nodes, cur, Kept(cs))
    {
      hide Walk, Kept, Closed;
      SplitJoined(cs);
      assert cs != [] ==> Joined(cs)[0] == cs[0][0] && cs[0][0] in cs[0] && cs[0] in cs;
    }

    /** Paths of one component, from the root and from the current node: a child or an attribute. */
    lemma OneComponent(name: seq<byte>, attr: seq<byte>)
      requires Valid() && 47 !in name && 58 !in name && 47 !in attr && |name| < 256 && |attr| < 255
      ensures name != [] ==> ChildIs(root, name, Named([47] + name)) && ChildIs(cur, name, Named(name))
      ensures FirstNamed(root.attrs, attr, Named([47, 58] + attr)) && FirstNamed(cur.attrs, attr, Named([58] + attr))
    {
      hide ChildIs, FirstNamed, StepTo, Comps, Closed;
      if name != [] { OneStep(name); }
      OneStep([58] + attr);
      assert [47] + ([58] + attr) == [47, 58] + attr && [] + [58] + attr == [58] + attr;
      StepMeans(nodes, root, name, attr);
      StepMeans(nodes, cur, name, attr);
      StepMeans(nodes, root, [], attr);
      StepMeans(nodes, cur, [], attr);
    }

    lemma OneStep(comp: seq<byte>)
      requires Valid() && 47 !in comp && 0 < |comp| < 256
      ensures Named([47] + comp) == StepTo(nodes, root, comp) && Named(comp) == StepTo(nodes, cur, comp)
    {
      hide StepTo, Comps, Closed;
      AbsolutePath([comp]);
      RelativePath([comp]);
      assert Joined([comp]) == comp && [comp][1..] == [] && Kept([comp]) == [comp];
      assert Walk(nodes, root, [comp]) == StepTo(nodes, root, comp);
      assert Walk(nodes, cur, [comp]) == StepTo(nodes, cur, comp);
    }

    /** Two documents that differ in their current node only name the same by a path with a slash in front. */
    lemma SameFromRoot(that: Document, path: seq<byte>)
      requires Valid() && that.Valid() && that.root == root && that.nodes == nodes && path != [] && path[0] == 47
      ensures that.Named(path) == Named(path)
    {
    }

    /** Nodes have only been added, in front of lists that did not have their names. */
    twostate predicate Grown()
      reads this, nodes
    {
      && old(nodes) <= nodes && cur == old(cur)
      && (forall n :: n in old(nodes) ==>
            n.value == old(n.value) && Extends(n.attrs, old(n.attrs)) && Extends(n.children, old(n.children)))
      && (forall n :: n in nodes && n !in old(nodes) ==> fresh(n) && n.value == [])
    }

    /** No node has been added anywhere. */
    twostate predicate SameShape()
      reads this, nodes
    {
      nodes == old(nodes) && forall n :: n in nodes ==> n.attrs == old(n.attrs) && n.children == old(n.children)
    }

    twostate lemma ChildKept(p: (XNode, seq<byte>))
      requires old(Valid()) && Grown() && p.0 in old(nodes) && p.1 != DOTS
      requires old(Child(p.0, p.1)) != null
      ensures Child(p.0, p.1) == old(Child(p.0, p.1))
    {
      hide Find, Extends;
      var (n, name) := p;
      if old(Find(n.children, name)) != null {
        FindInExtended(n.children, old(n.children), name);
      }
    }

    twostate lemma StepKept(p: (XNode, seq<byte>))
      requires old(Valid()) && Valid() && Grown() && p.0 in old(nodes) && !Dots(p.1)
      requires old(StepTo(nodes, p.0, p.1)) != null
      ensures StepTo(nodes, p.0, p.1) == old(StepTo(nodes, p.0, p.1))
    {
      hide Find, Child, Extends;
      var (n, comp) := p;
      var i := IndexOf(comp, COLON);
      if i == |comp| {
        assert comp[..i] == comp;
        ChildKept((n, comp));
      } else {
        var m := if i == 0 then n else old(InNodes(nodes, n, comp[..i]));
        if i > 0 { ChildKept((n, comp[..i])); }
        FindInExtended(m.attrs, old(m.attrs), comp[i + 1..]);
      }
    }

    twostate lemma {:induction false} WalkKept(p: (XNode, seq<seq<byte>>))
      requires old(Valid()) && Valid() && Grown() && p.0 in old(nodes) && NoDots(p.1)
      requires old(Walk(nodes, p.0, p.1)) != null
      ensures Walk(nodes, p.0, p.1) == old(Walk(nodes, p.0, p.1))
      decreases |p.1|
    {
      hide StepTo, Dots, Extends;
      var (n, comps) := p;
      if comps != [] {
        StepKept((n, comps[0]));
        WalkKept((old(StepTo(nodes, n, comps[0])), comps[1..]));
      }
    }

    // ----- creating on the way -----

    /** Nothing hangs off `r`, which is below `n`. */
    ghost predicate Blank(r: XNode, n: XNode)
      reads r
    {
      r.attrs == [] && r.children == [] && n.depth < r.depth
    }

    /** The old nodes above depth `d` have kept their attributes and children. */
    twostate predicate Above(d: nat)
      reads this, nodes
    {
      forall x :: x in old(nodes) && x in nodes && x.depth < d ==> x.attrs == old(x.attrs) && x.children == old(x.children)
    }

    /** Nodes one below the other, all below `n`. */
    ghost predicate Chain(made: seq<XNode>, n: XNode)
      reads this, nodes
    {
      made != [] && (forall x :: x in made ==> x in nodes && n.depth < x.depth) && Follows(made)
    }

    /** Only what hangs off `n` has changed: at most the first of `made` has joined. */
    twostate predicate OnlyAt(new p: (XNode, seq<XNode>))
      reads this, nodes
    {
      var (n, made) := p;
      && (forall x :: x in old(nodes) && x in nodes && x != n ==> x.attrs == old(x.attrs) && x.children == old(x.children))
      && (n in nodes ==>
            if made == [] then n.attrs == [] && n.children == [] else forall x :: x in n.attrs + n.children ==> x == made[0])
    }

    /** What a component may change: `made` are the nodes made for it, each below the one before. */
    twostate predicate Stepped(new p: (XNode, seq<byte>, XNode?, seq<XNode>))
      reads this, nodes
    {
      var (n, comp, r, made) := p;
      && old(Valid()) && n in old(nodes) && n in nodes && Above(n.depth) && |made| <= Cost1(comp)
      && (!Makes(comp) ==> n.children == old(n.children))
      && (old(n.attrs) == [] && old(n.children) == [] ==> OnlyAt((n, made)))
      && (if made == [] then SameShape() else
            old(StepTo(nodes, n, comp)) == null && r == made[|made| - 1] && Chain(made, n)
            && (Makes(comp) && old(n.children) == [] ==> n.children == [made[0]]))
    }

    /** create_attrnode: in front of the other attributes. */
    method CreateAttrNode(n: XNode, name: seq<byte>) returns (r: XNode)
      requires Valid() && n in nodes && Find(n.attrs, name) == null
      modifies `nodes, n`attrs
      ensures Valid() && Grown() && r == Find(n.attrs, name) && fresh(r) && r in nodes
      ensures n.attrs == [r] + old(n.attrs) && Blank(r, n)
    {
      hide Extends, Find;
      r := new XNode(name, n);
      ExtendsByOne(n.attrs, r);
      AllExtendNone();
      n.attrs := [r] + n.attrs;
      nodes := nodes + {r};
    }

    /** create_childnode: in front of the other children. */
    method CreateChildNode(n: XNode, name: seq<byte>) returns (r: XNode)
      requires Valid() && n in nodes && Find(n.children, name) == null
      modifies `nodes, n`children
      ensures Valid() && Grown() && r == Find(n.children, name) && fresh(r) && r in nodes
      ensures n.children == [r] + old(n.children) && r.name == name && Blank(r, n)
    {
      hide Extends, Find;
      r := new XNode(name, n);
      ExtendsByOne(n.children, r);
      AllExtendNone();
      n.children := [r] + n.children;
      nodes := nodes + {r};
    }

    lemma AllExtendNone()
      ensures forall x :: x in nodes ==> Extends(x.attrs, x.attrs) && Extends(x.children, x.children)
    {
    }

    /** get_attrnode. */
    method GetAttrNode(n: XNode, name: seq<byte>, create: bool) returns (r: XNode?)
      requires Valid() && n in nodes
      modifies `nodes, n`attrs
      ensures Valid() && Grown() && (r == null ==> !create) && r == Find(n.attrs, name)
      ensures r != null ==> r in nodes
      ensures old(Find(n.attrs, name)) != null || !create ==> SameShape()
      ensures old(Find(n.attrs, name)) == null && create ==> r != null && fresh(r) && n.attrs == [r] + old(n.attrs) && Blank(r, n)
    {
      var i := 0;
      while i < |n.attrs|
        invariant i <= |n.attrs| && Find(n.attrs, name) == Find(n.attrs[i..], name)
      {
        if n.attrs[i].name == name {
          SameGrown();
          return n.attrs[i];
        }
        i := i + 1;
      }
      if !create {
        SameGrown();
        return null;
      }
      r := CreateAttrNode(n, name);
    }

    twostate lemma SameGrown()
      requires unchanged(this) && unchanged(nodes)
      ensures Grown() && SameShape()
    {
    }

    /** get_childnode, without conditions. */
    method GetChildNode(n: XNode, name: seq<byte>, create: bool) returns (r: XNode?)
      requires Valid() && n in nodes
      modifies `nodes, n`children
      ensures Valid() && Grown() && (r == null ==> !create) && r == Child(n, name)
      ensures r != null ==> r in nodes
      ensures old(Child(n, name)) != null || !create ==> SameShape()
      ensures old(Child(n, name)) == null && create ==>
        r != null && fresh(r) && n.children == [r] + old(n.children) && r.name == name && Blank(r, n)
    {
      if name == DOTS {
        SameGrown();
        return if |n.children| > 0 then n.children[0] else n;
      } else if name == [DOT, DOT] {
        SameGrown();
        return if n.parent != null then n.parent else n;
      } else if name == [DOT] {
        SameGrown();
        return n;
      }
      r := SearchChildren(n, name, create);
    }

    method SearchChildren(n: XNode, name: seq<byte>, create: bool) returns (r: XNode?)
      requires Valid() && n in nodes
      modifies `nodes, n`children
      ensures Valid() && Grown() && (r == null ==> !create) && r == Find(n.children, name)
      ensures r != null ==> r in nodes
      ensures old(Find(n.children, name)) != null || !create ==> SameShape()
      ensures old(Find(n.children, name)) == null && create ==>
        r != null && fresh(r) && n.children == [r] + old(n.children) && r.name == name && Blank(r, n)
    {
      var i := 0;
      while i < |n.children|
        invariant i <= |n.children| && Find(n.children, name) == Find(n.children[i..], name)
      {
        if n.children[i].name == name {
          SameGrown();
          return n.children[i];
        }
        i := i + 1;
      }
      if !create {
        SameGrown();
        return null;
      }
      r := CreateChildNode(n, name);
    }

    /** An attribute is made at a node that was there. */
    twostate lemma AttrStepped(p: (XNode, seq<byte>, XNode))
      requires old(Valid()) && Valid() && old(nodes) <= nodes && p.0 in old(nodes) && p.2 in old(nodes)
      requires IndexOf(p.1, COLON) < |p.1| && Part(p.1) != [DOT, DOT]
      requires p.2 == if Part(p.1) == [] then p.0 else old(Child(p.0, Part(p.1)))
      requires forall x :: x in old(nodes) ==> x.children == old(x.children) && (x != p.2 ==> x.attrs == old(x.attrs))
      requires p.2.attrs != [] && p.2.attrs[1..] == old(p.2.attrs) && Blank(p.2.attrs[0], p.2)
      requires old(StepTo(nodes, p.0, p.1)) == null
      ensures Stepped((p.0, p.1, p.2.attrs[0], [p.2.attrs[0]]))
    {
      hide Find;
      var (n, comp, m) := p;
      NothingFound(Part(comp));
      assert m == n || m in old(n.attrs + n.children);
      assert forall x :: x in m.attrs ==> x == m.attrs[0] || x in old(m.attrs);
    }

    /** A child is made, and an attribute of it. */
    twostate lemma BothStepped(p: (XNode, seq<byte>))
      requires old(Valid()) && Valid() && old(nodes) <= nodes && p.0 in old(nodes)
      requires IndexOf(p.1, COLON) < |p.1| && Part(p.1) != [DOT, DOT] && Part(p.1) != []
      requires old(Child(p.0, Part(p.1))) == null
      requires forall x :: x in old(nodes) ==> x.attrs == old(x.attrs) && (x != p.0 ==> x.children == old(x.children))
      requires p.0.children != [] && p.0.children[1..] == old(p.0.children)
      requires var m := p.0.children[0];
        m in nodes && p.0.depth < m.depth && m.children == [] && |m.attrs| == 1 && m.attrs[0] in nodes && Blank(m.attrs[0], m)
      ensures var m := p.0.children[0]; Stepped((p.0, p.1, m.attrs[0], [m, m.attrs[0]]))
    {
      hide Find;
    }

    /** One component of a path. */
    method StepInto(n: XNode, comp: seq<byte>, create: bool) returns (r: XNode?, ghost made: seq<XNode>)
      requires Valid() && n in nodes && comp != []
      modifies `nodes, nodes`attrs, nodes`children
      ensures Valid() && Grown() && (r == null ==> !create) && r == StepTo(nodes, n, comp)
      ensures old(StepTo(nodes, n, comp)) != null || !create ==> SameShape()
      ensures Part(comp) != [DOT, DOT] && create ==> Stepped((n, comp, r, made))
    {
      hide Extends, Child, Find, Stepped, StepTo, Closed;
      var i := IndexOf(comp, COLON);
      if i == |comp| {
        PlainStep(n, comp);
        r, made := ChildStep(n, comp, create);
        PlainStep(n, comp);
      } else if i == 0 {
        r, made := OwnAttr(n, comp, create);
      } else {
        r, made := ChildAttr(n, comp, i, create);
      }
    }

    /** A component that begins with a colon: an attribute of the node. */
    method OwnAttr(n: XNode, comp: seq<byte>, create: bool) returns (r: XNode?, ghost made: seq<XNode>)
      requires Valid() && n in nodes && 0 == IndexOf(comp, COLON) < |comp|
      modifies `nodes, nodes`attrs, nodes`children
      ensures Valid() && Grown() && (r == null ==> !create) && r == StepTo(nodes, n, comp)
      ensures old(StepTo(nodes, n, comp)) != null || !create ==> SameShape()
      ensures Part(comp) != [DOT, DOT] && create ==> Stepped((n, comp, r, made))
    {
      hide Extends, Child, Find, Stepped, StepTo;
      AttrStep(n, comp, n);
      r := GetAttrNode(n, comp[1..], create);
      made := if old(Find(n.attrs, comp[1..])) == null && create then [r] else [];
      AttrStep(n, comp, n);
      if made == [] { SameStepped((n, comp, r)); } else { AttrStepped((n, comp, n)); }
    }

    /** A component with a colon in it: a child and an attribute of it. */
    method ChildAttr(n: XNode, comp: seq<byte>, i: nat, create: bool) returns (r: XNode?, ghost made: seq<XNode>)
      requires Valid() && n in nodes && 0 < i == IndexOf(comp, COLON) < |comp|
      modifies `nodes, nodes`attrs, nodes`children
      ensures Valid() && Grown() && (r == null ==> !create) && r == StepTo(nodes, n, comp)
      ensures old(StepTo(nodes, n, comp)) != null || !create ==> SameShape()
      ensures Part(comp) != [DOT, DOT] && create ==> Stepped((n, comp, r, made))
    {
      hide Extends, Child, Find, Stepped, StepTo;
      AttrStep(n, comp, Child(n, comp[..i]));
      r, made := ChildStep(n, comp[..i], create);
      label Found:
      if r == null {
        AttrStep(n, comp, null);
        return;
      }
      assert r in old(nodes) || fresh(r);
      var m := r;
      r := GetAttrNode(m, comp[i + 1..], create);
      AttrStep(n, comp, m);
      assert Grown() by {
        forall x | x in old(nodes)
          ensures Extends(x.attrs, old(x.attrs)) && Extends(x.children, old(x.children))
        {
          ExtendsMore(x.attrs, old@Found(x.attrs), old(x.attrs));
          ExtendsMore(x.children, old@Found(x.children), old(x.children));
        }
      }
      if create && Part(comp) != [DOT, DOT] {
        if made != [] {
          NothingFound(comp[i + 1..]);
          made := [m, r];
          BothStepped((n, comp));
        } else if old(StepTo(nodes, n, comp)) == null {
          made := [r];
          AttrStepped((n, comp, m));
        } else {
          SameStepped((n, comp, r));
        }
      }
    }

    lemma PlainStep(n: XNode, comp: seq<byte>)
      requires Valid() && n in nodes && IndexOf(comp, COLON) == |comp|
      ensures StepTo(nodes, n, comp) == Child(n, comp)
    {
      hide Find, Closed, Child, IndexOf;
    }

    lemma AttrStep(n: XNode, comp: seq<byte>, m: XNode?)
      requires Valid() && n in nodes && IndexOf(comp, COLON) < |comp|
      requires m == if IndexOf(comp, COLON) == 0 then n else Child(n, comp[..IndexOf(comp, COLON)])
      ensures StepTo(nodes, n, comp) == if m == null then null else Find(m.attrs, comp[IndexOf(comp, COLON) + 1..])
    {
      hide Find, Closed, Child, IndexOf;
    }

    twostate lemma SameStepped(new p: (XNode, seq<byte>, XNode?))
      requires old(Valid()) && p.0 in old(nodes) && SameShape()
      ensures Stepped((p.0, p.1, p.2, []))
    {
      assert forall x :: x in p.0.attrs + p.0.children ==> p.0.attrs != [] || p.0.children != [];
    }

    /** A component that is the name of a child or a special one. */
    method ChildStep(n: XNode, name: seq<byte>, create: bool) returns (r: XNode?, ghost made: seq<XNode>)
      requires Valid() && n in nodes && COLON !in name && name != []
      modifies `nodes, n`children
      ensures Valid() && Grown() && (r == null ==> !create) && (r != null ==> r in nodes) && r == Child(n, name)
      ensures old(Child(n, name)) != null || !create ==> SameShape() && made == [] && r == old(Child(n, name))
      ensures old(Child(n, name)) == null && create ==>
        made == [r] && fresh(r) && n.children == [r] + old(n.children) && Blank(r, n)
      ensures name != [DOT, DOT] && create ==> Stepped((n, name, r, made))
    {
      hide Extends, Find;
      r := GetChildNode(n, name, create);
      made := if old(Child(n, name)) == null && create then [r] else [];
    }

    twostate lemma {:induction false} WalkFrame(p: (XNode?, seq<seq<byte>>))
      requires old(Valid()) && Valid() && SameShape() && (p.0 == null || p.0 in nodes)
      ensures Walk(nodes, p.0, p.1) == old(Walk(nodes, p.0, p.1))
      decreases |p.1|
    {
      hide Find;
      if p.0 != null && p.1 != [] {
        WalkFrame((StepTo(nodes, p.0, p.1[0]), p.1[1..]));
      }
    }

    /** One component behind those walked already. `sure` says that the walk so far is what a new walk would
        do. */
    method Advance(n: XNode, comp: seq<byte>, create: bool, ghost start: XNode, ghost done: seq<seq<byte>>, ghost sure: bool,
                   ghost t: Track)
      returns (r: XNode?, ghost u: Track)
      requires Valid() && n in nodes && start in nodes && comp != [] && OnTrack(create, start, n, t)
      requires t.kept ==> t.done < |t.all| && t.all[t.done] == comp
      requires sure ==> Walk(nodes, start, done) == n
      requires sure ==> !create || NoDots(done) || Walk(nodes, start, done + [comp]) != null
      modifies `nodes, nodes`attrs, nodes`children
      ensures Valid() && Grown() && (r == null ==> !create) && (r != null ==> r in nodes)
      ensures sure ==> Walk(nodes, start, done + [comp]) == r
      ensures !create || (sure && old(Walk(nodes, start, done + [comp])) != null) ==> SameShape()
      ensures u == t.(done := t.done + 1, c := u.c) && (r != null ==> OnTrack(create, start, r, u))
    {
      hide Walk, StepTo, Extends, NoDots, OnTrack;
      if sure { WalkMore(nodes, start, done, comp); }
      r, u := FollowStep(n, comp, create, start, t);
      if sure {
        if !create || old(Walk(nodes, start, done + [comp])) != null {
          WalkFrame((start, done));
        } else {
          WalkKept((start, done));
        }
        WalkMore(nodes, start, done, comp);
      }
    }

    // ----- walking the same path again -----

    /** The components lead to `m`, the last of them downwards. */
    ghost predicate Reached(start: XNode, comps: seq<seq<byte>>, m: XNode)
      requires Valid() && start in nodes
      reads this, nodes
    {
      if comps == [] then m == start
      else
        var p := Walk(nodes, start, comps[..|comps| - 1]);
        p != null && p.depth < m.depth && StepTo(nodes, p, comps[|comps| - 1]) == m
    }

    lemma ReachedWalk(start: XNode, comps: seq<seq<byte>>, m: XNode)
      requires Valid() && start in nodes && Reached(start, comps, m)
      ensures Walk(nodes, start, comps) == m
    {
      hide StepTo, Closed;
      if comps != [] {
        var k := |comps| - 1;
        WalkMore(nodes, start, comps[..k], comps[k]);
        assert comps[..k] + [comps[k]] == comps;
      }
    }

    ghost predicate Holds(start: XNode, done: seq<seq<byte>>, nod: XNode, c: Course)
      requires Valid() && start in nodes
      reads this, nodes
    {
      match c
      case On(arrived, stop, there) =>
        && arrived <= stop <= |done| && nod in nodes && Reached(start, done[..arrived], nod)
        && (forall i :: arrived <= i < stop ==> done[i] == [DOT])
        && (stop < |done| ==> done[stop] == DOTS && nod.children == [])
        && (forall i :: stop <= i < |done| ==> Stays(done[i]))
        && (!there ==> nod.attrs == [] && nod.children == [])
      case Off(back, born) =>
        && back <= |done| && born != [] && nod == born[|born| - 1] && (forall x :: x in born ==> x in nodes)
        && Follows(born) && Reached(start, done[..back], born[0])
        && |born| <= Cost(done[back..])
    }

    /** Where the walks are, and whether they will have parted in the end. */
    ghost predicate Tracked(start: XNode, all: seq<seq<byte>>, done: nat, nod: XNode, c: Course, strays: bool)
      requires Valid() && start in nodes
      reads this, nodes
    {
      && done <= |all| && NoUp(all) && Holds(start, all[..done], nod, c)
      && strays == (c.Off? || Strays(nodes, if c.there then nod else null, all[done..], c.stop < done))
    }

    twostate lemma {:induction false} WalkAbove(p: (XNode, seq<seq<byte>>, nat))
      requires old(Valid()) && Valid() && old(nodes) <= nodes && p.0 in old(nodes) && NoUp(p.1) && Above(p.2)
      requires old(Walk(nodes, p.0, p.1)) != null && old(Walk(nodes, p.0, p.1)).depth < p.2
      ensures Walk(nodes, p.0, p.1) == old(Walk(nodes, p.0, p.1))
      decreases |p.1|
    {
      hide StepTo;
      var (n, comps, d) := p;
      if comps != [] {
        var r := old(StepTo(nodes, n, comps[0]));
        assert old(Walk(nodes, n, comps)) == old(Walk(nodes, r, comps[1..]));
        StepAbove((n, comps[0], d));
        WalkAbove((r, comps[1..], d));
      }
    }

    /** A step that comes no deeper than the nodes that have kept what hangs off them. */
    twostate lemma StepAbove(p: (XNode, seq<byte>, nat))
      requires old(Valid()) && Valid() && old(nodes) <= nodes && p.0 in old(nodes) && Above(p.2) && p.0.depth < p.2
      requires Part(p.1) != [DOT, DOT]
      requires old(StepTo(nodes, p.0, p.1)) != null && old(StepTo(nodes, p.0, p.1)).depth <= p.2
      ensures StepTo(nodes, p.0, p.1) == old(StepTo(nodes, p.0, p.1))
    {
      hide Find;
    }

    twostate lemma ReachedAbove(p: (XNode, seq<seq<byte>>, XNode))
      requires old(Valid()) && Valid() && old(nodes) <= nodes && p.0 in old(nodes) && NoUp(p.1) && p.2 in old(nodes)
      requires old(Reached(p.0, p.1, p.2)) && Above(p.2.depth)
      ensures Reached(p.0, p.1, p.2)
    {
      hide StepTo, Walk;
      var (start, comps, m) := p;
      if comps != [] {
        var k := |comps| - 1;
        WalkAbove((start, comps[..k], m.depth));
        StepAbove((Walk(nodes, start, comps[..k]), comps[k], m.depth));
      }
    }

    twostate lemma {:induction false} StraysFrame(p: (XNode?, seq<seq<byte>>, bool))
      requires old(Valid()) && Valid() && SameShape() && (p.0 == null || p.0 in nodes)
      ensures Strays(nodes, p.0, p.1, p.2) == old(Strays(nodes, p.0, p.1, p.2))
      decreases |p.1|
    {
      hide Makes;
      var (n, comps, halted) := p;
      if comps != [] {
        if n != null { WalkFrame((n, [comps[0]])); }
        StraysFrame((if n == null then null else StepTo(nodes, n, comps[0]), comps[1..], Halts(n, comps[0], halted)));
      }
    }

    twostate lemma {:induction false} StraysNull(p: (seq<seq<byte>>, bool))
      requires old(Valid()) && Valid()
      ensures Strays(nodes, null, p.0, p.1) == old(Strays(nodes, null, p.0, p.1))
      decreases |p.0|
    {
      hide Makes;
      if p.0 != [] {
        StraysNull((p.0[1..], Halts(null, p.0[0], p.1)));
      }
    }

    lemma ReachedNext(start: XNode, comps: seq<seq<byte>>, comp: seq<byte>, nod: XNode, r: XNode)
      requires Valid() && start in nodes && nod in nodes && NoUp(comps + [comp]) && Walk(nodes, start, comps) == nod
      requires StepTo(nodes, nod, comp) == r && nod.depth < r.depth
      ensures Reached(start, comps + [comp], r)
    {
      WalkMore(nodes, start, comps, comp);
      assert (comps + [comp])[..|comps|] == comps;
    }

    lemma ThenStays(start: XNode, comps: seq<seq<byte>>, a: nat, b: nat, nod: XNode)
      requires Valid() && start in nodes && nod in nodes && a <= b <= |comps| && Reached(start, comps[..a], nod)
      requires forall i :: a <= i < b ==> comps[i] == [DOT] || (comps[i] == DOTS && nod.children == [])
      ensures Walk(nodes, start, comps[..b]) == nod
    {
      hide StepTo, Closed, Reached;
      ReachedWalk(start, comps[..a], nod);
      WalkStays(nodes, nod, comps[a..b]);
      WalkConcat(nodes, start, comps[..a], comps[a..b]);
      assert comps[..a] + comps[a..b] == comps[..b];
    }

    /** On its way, the second walk is where the first one is. */
    lemma OnWay(start: XNode, comps: seq<seq<byte>>, nod: XNode, c: Course)
      requires Valid() && start in nodes && c.On? && Holds(start, comps, nod, c)
      ensures Walk(nodes, start, comps) == nod && (c.stop < |comps| ==> Walk(nodes, start, comps[..c.stop]) == nod)
    {
      hide StepTo, Walk, Closed;
      assert comps[..|comps|] == comps;
      ThenStays(start, comps, c.arrived, |comps|, nod);
      ThenStays(start, comps, c.arrived, c.stop, nod);
    }

    lemma CutMore(all: seq<seq<byte>>, done: nat, back: nat)
      requires back <= done < |all|
      ensures all[..done + 1] == all[..done] + [all[done]] && all[done..][0] == all[done] && all[done..][1..] == all[done + 1..]
      ensures all[..done + 1][..done] == all[..done] && all[..done + 1][..back] == all[..back] == all[..done][..back]
      ensures all[..done + 1][back..] == all[..done][back..] + [all[done]]
    {
    }

    twostate lemma LinksKept(p: (XNode, seq<XNode>))
      requires p.1 != [] && p.0 == p.1[|p.1| - 1] && (forall x :: x in p.1 ==> x in old(nodes) && x in nodes) && old(Links(p.1))
      requires forall x :: x in old(nodes) && x in nodes && x != p.0 ==> x.attrs == old(x.attrs) && x.children == old(x.children)
      ensures Links(p.1)
    {
    }

    /** What holds off the way after a component, if its nodes have been made below the last one born. */
    lemma OffHolds(start: XNode, all: seq<seq<byte>>, done: nat, n: XNode, r: XNode, back: nat, born: seq<XNode>, made: seq<XNode>)
      requires Valid() && start in nodes && back <= done < |all| && born != [] && n == born[|born| - 1]
      requires (forall x :: x in born ==> x in nodes) && Links(born) && Reached(start, all[..back], born[0])
      requires |born| <= Cost(all[..done][back..]) && |made| <= Cost1(all[done])
      requires if made == [] then r == n && n.attrs == [] && n.children == [] else
        Chain(made, n) && r == made[|made| - 1] && forall x :: x in n.attrs + n.children ==> x == made[0]
      ensures Holds(start, all[..done + 1], r, Off(back, born + made))
    {
      hide Links, Reached, Closed, Follows;
      CutMore(all, done, back);
      CostMore(all[..done][back..], all[done]);
      if made == [] {
        assert born + made == born;
        JustLinks(born, n);
      } else {
        ChainFollows(made, n);
        FollowsConcat(born, n, made);
      }
    }

    lemma ChainFollows(made: seq<XNode>, n: XNode)
      requires Chain(made, n)
      ensures Follows(made)
    {
    }

    /** What holds after a component that stays. */
    lemma StayHolds(start: XNode, all: seq<seq<byte>>, done: nat, n: XNode, c: Course)
      requires Valid() && start in nodes && done < |all| && c.On? && Holds(start, all[..done], n, c)
      requires all[done] == [DOT] || (all[done] == DOTS && n.children == [])
      ensures Holds(start, all[..done + 1], n, NextCourse(c, done, all[done], [], n.children == []))
    {
      hide Reached, Closed;
      CutMore(all, done, c.arrived);
    }

    /** What holds after a component that leads down, if the second walk has not parted before. */
    lemma DownHolds(start: XNode, all: seq<seq<byte>>, done: nat, n: XNode, r: XNode, arrived: nat, there: bool)
      requires Valid() && start in nodes && n in nodes && r in nodes && arrived <= done < |all| && NoUp(all)
      requires Reached(start, all[..arrived], n)
      requires forall i :: arrived <= i < done ==> all[i] == [DOT] || (all[i] == DOTS && n.children == [])
      requires StepTo(nodes, n, all[done]) == r && n.depth < r.depth && (there || (r.attrs == [] && r.children == []))
      ensures Holds(start, all[..done + 1], r, On(done + 1, done + 1, there))
    {
      hide StepTo, Closed;
      CutMore(all, done, arrived);
      ThenStays(start, all, arrived, done, n);
      ReachedNext(start, all[..done], all[done], n, r);
      assert all[..done + 1][..done + 1] == all[..done + 1];
    }

    lemma PartReached(start: XNode, all: seq<seq<byte>>, n: XNode, arrived: nat, stop: nat, m: XNode)
      requires Valid() && start in nodes && n in nodes && arrived <= stop < |all| && NoUp(all)
      requires Reached(start, all[..arrived], n) && all[stop] == DOTS && n.children == [m] && n.depth < m.depth
      requires forall i :: arrived <= i < stop ==> all[i] == [DOT]
      ensures Reached(start, all[..stop + 1], m)
    {
      hide Closed;
      CutMore(all, stop, stop);
      ThenStays(start, all, arrived, stop, n);
      PartOf(DOTS);
      PlainStep(n, DOTS);
      ReachedNext(start, all[..stop], DOTS, n, m);
    }

    /** What holds when the second walk parts: a first-child component finds what has been made after it. */
    lemma PartHolds(start: XNode, all: seq<seq<byte>>, done: nat, n: XNode, arrived: nat, stop: nat, made: seq<XNode>)
      requires Valid() && start in nodes && n in nodes && arrived <= stop < done < |all| && NoUp(all)
      requires Reached(start, all[..arrived], n) && all[stop] == DOTS
      requires forall i :: arrived <= i < stop ==> all[i] == [DOT]
      requires Chain(made, n) && n.children == [made[0]] && |made| <= Cost1(all[done])
      ensures Holds(start, all[..done + 1], made[|made| - 1], Off(stop + 1, made))
    {
      hide Closed, Reached, Walk, StepTo, Links;
      CutMore(all, done, stop + 1);
      PartReached(start, all, n, arrived, stop, made[0]);
      CostMore(all[..done][stop + 1..], all[done]);
      ChainFollows(made, n);
    }

    /** A component has been followed from `n` to `r`, and `made` are the nodes made for it. */
    twostate predicate Moved(p: Move, new made: seq<XNode>)
      reads this, nodes
    {
      && old(Valid()) && Valid() && old(nodes) <= nodes && p.n in old(nodes) && p.start in old(nodes)
      && p.done < |p.all| && p.all[p.done] == p.comp && p.comp != [] && NoUp(p.all)
      && old(Holds(p.start, p.all[..p.done], p.n, p.c))
      && StepTo(nodes, p.n, p.comp) != null && Stepped((p.n, p.comp, StepTo(nodes, p.n, p.comp), made))
    }

    /** Off its way, the second walk stays off. */
    twostate lemma OffMove(p: Move, new made: seq<XNode>)
      requires Moved(p, made) && p.c.Off?
      ensures Holds(p.start, p.all[..p.done + 1], StepTo(nodes, p.n, p.comp), Off(p.c.back, p.c.born + made))
    {
      hide Extends, Child, Find, StepTo, Walk, Links, Reached, Closed;
      var Move(n, comp, start, all, done, Off(back, born)) := p;
      var r := StepTo(nodes, n, comp);
      CutMore(all, done, back);
      LinksKept((n, born));
      ReachedAbove((start, all[..done][..back], born[0]));
      assert Part(comp) != [DOT, DOT];
      if made == [] { BlankStep(nodes, n, comp); }
      OffHolds(start, all, done, n, r, back, born, made);
    }

    /** On its way, the second walk stays where it is. */
    twostate lemma StayMove(p: Move, new made: seq<XNode>)
      requires Moved(p, made) && p.c.On? && (p.comp == [DOT] || (p.comp == DOTS && old(p.n.children) == []))
      ensures made == [] && StepTo(nodes, p.n, p.comp) == p.n
      ensures Holds(p.start, p.all[..p.done + 1], p.n, NextCourse(p.c, p.done, p.comp, [], true))
    {
      hide Extends, Find, Walk, Reached, Closed, Links;
      var Move(n, comp, start, all, done, c) := p;
      var r := StepTo(nodes, n, comp);
      CutMore(all, done, c.arrived);
      PartOf(comp);
      StepStays(nodes, n, comp);
      ReachedAbove((start, all[..done][..c.arrived], n));
      StayHolds(start, all, done, n, c);
    }

    /** On its way, the second walk parts from the first one. */
    twostate lemma PartMove(p: Move, new made: seq<XNode>)
      requires Moved(p, made) && p.c.On? && p.c.stop < p.done && Makes(p.comp)
      ensures made != [] && Holds(p.start, p.all[..p.done + 1], StepTo(nodes, p.n, p.comp), Off(p.c.stop + 1, made))
    {
      hide Extends, Child, Find, StepTo, Walk, Reached, Closed, Links;
      var Move(n, comp, start, all, done, c) := p;
      var r := StepTo(nodes, n, comp);
      CutMore(all, done, c.arrived);
      assert Part(comp) != [DOT, DOT];
      if made == [] { StepMisses(nodes, n, comp); }
      ReachedAbove((start, all[..done][..c.arrived], n));
      PartHolds(start, all, done, n, c.arrived, c.stop, made);
    }

    /** On its way, the second walk follows the first one down. */
    twostate lemma DownMove(p: Move, new made: seq<XNode>)
      requires Moved(p, made) && p.c.On? && p.comp != [DOT] && (p.comp == DOTS ==> old(p.n.children) != [])
      requires p.c.stop < p.done ==> !Makes(p.comp)
      ensures Holds(p.start, p.all[..p.done + 1], StepTo(nodes, p.n, p.comp), On(p.done + 1, p.done + 1, made == [] && p.c.there))
    {
      hide Extends, Child, Find, StepTo, Walk, Reached, Closed, Links;
      var Move(n, comp, start, all, done, c) := p;
      var r := StepTo(nodes, n, comp);
      CutMore(all, done, c.arrived);
      assert Part(comp) != [DOT, DOT];
      if !c.there && made == [] { BlankStep(nodes, n, comp); }
      StepDepth(nodes, n, comp);
      ReachedAbove((start, all[..done][..c.arrived], n));
      DownHolds(start, all, done, n, r, c.arrived, made == [] && c.there);
    }

    /** Where the second walk is after a component. */
    twostate lemma HoldsNext(p: Move, new made: seq<XNode>)
      requires Moved(p, made)
      ensures Holds(p.start, p.all[..p.done + 1], StepTo(nodes, p.n, p.comp), NextCourse(p.c, p.done, p.comp, made, old(p.n.children) == []))
    {
      hide Moved, StepTo, Holds, Closed, Makes;
      if p.c.Off? {
        OffMove(p, made);
      } else if p.comp == [DOT] || (p.comp == DOTS && old(p.n.children) == []) {
        StayMove(p, made);
      } else if p.c.stop < p.done && Makes(p.comp) {
        PartMove(p, made);
      } else {
        DownMove(p, made);
      }
    }

    twostate lemma StepFrame(p: (XNode, seq<byte>))
      requires old(Valid()) && Valid() && SameShape() && p.0 in nodes
      ensures StepTo(nodes, p.0, p.1) == old(StepTo(nodes, p.0, p.1))
    {
      hide Find;
    }

    /** Whether the walks will part is the same question before and after a component. */
    twostate lemma StraysNext(p: Move, new made: seq<XNode>)
      requires Moved(p, made) && p.c.On?
      ensures var d := NextCourse(p.c, p.done, p.comp, made, old(p.n.children) == []);
        old(Strays(nodes, if p.c.there then p.n else null, p.all[p.done..], p.c.stop < p.done)) ==
        (d.Off? || Strays(nodes, if d.there then StepTo(nodes, p.n, p.comp) else null, p.all[p.done + 1..], d.stop < p.done + 1))
    {
      hide StepTo, Closed, Makes, Reached, Extends;
      var Move(n, comp, start, all, done, c) := p;
      var d := NextCourse(c, done, comp, made, old(n.children) == []);
      CutMore(all, done, c.arrived);
      PartOf(comp);
      if comp == [DOT] || (comp == DOTS && old(n.children) == []) {
        StayMove(p, made);
      } else if c.stop < done && Makes(comp) {
        PartMove(p, made);
      }
      if d.On? {
        var rest, h := all[done + 1..], d.stop < done + 1;
        if d.there {
          StepFrame((n, comp));
          StraysFrame((StepTo(nodes, n, comp), rest, h));
        } else {
          StraysNull((rest, h));
        }
      }
    }

    ghost predicate OnTrack(create: bool, start: XNode, n: XNode, t: Track)
      requires Valid() && start in nodes
      reads this, nodes
    {
      t.kept ==> create && Tracked(start, t.all, t.done, n, t.c, t.strays)
    }

    /** One component, while a second walk is kept track of. */
    method FollowStep(n: XNode, comp: seq<byte>, create: bool, ghost start: XNode, ghost t: Track)
      returns (r: XNode?, ghost u: Track)
      requires Valid() && n in nodes && comp != [] && start in nodes && OnTrack(create, start, n, t)
      requires t.kept ==> t.done < |t.all| && t.all[t.done] == comp
      modifies `nodes, nodes`attrs, nodes`children
      ensures Valid() && Grown() && (r == null ==> !create) && r == StepTo(nodes, n, comp)
      ensures old(StepTo(nodes, n, comp)) != null || !create ==> SameShape()
      ensures u == t.(done := t.done + 1, c := u.c) && (r != null ==> OnTrack(create, start, r, u))
    {
      hide Extends, StepTo, Walk, Stepped, Closed, Holds, Strays;
      ghost var made;
      r, made := StepInto(n, comp, create);
      u := t.(done := t.done + 1);
      if t.kept {
        assert t.all[t.done] == comp && Part(comp) != [DOT, DOT];
        ghost var p := Move(n, comp, start, t.all, t.done, t.c);
        u := t.(done := t.done + 1, c := NextCourse(t.c, t.done, comp, made, old(n.children) == []));
        HoldsNext(p, made);
        if t.c.On? { StraysNext(p, made); }
      }
    }

    lemma TrackStart(create: bool, start: XNode, all: seq<seq<byte>>) returns (t: Track)
      requires Valid() && start in nodes
      ensures t == Track(create && NoUp(all), all, 0, On(0, 0, true), Strays(nodes, start, all, false))
      ensures OnTrack(create, start, start, t)
    {
      hide Strays;
      assert all[0..] == all && all[..0] == [];
      t := Track(create && NoUp(all), all, 0, On(0, 0, true), Strays(nodes, start, all, false));
    }

    /** In the end the second walk is where the first one is, unless it has strayed. */
    lemma TrackEnd(create: bool, start: XNode, n: XNode, t: Track)
      requires Valid() && start in nodes && t.kept && OnTrack(create, start, n, t) && t.done == |t.all|
      ensures Walk(nodes, start, t.all) == if t.strays then null else n
    {
      hide StepTo, Links, Closed, Reached;
      assert t.all[..t.done] == t.all;
      match t.c
      case On(_, _, _) =>
        OnWay(start, t.all, n, t.c);
      case Off(back, born) =>
        var rest := t.all[back..];
        assert forall i :: 0 <= i < |rest| ==> rest[i] == t.all[back + i];
        Ahead(nodes, born, 0, rest);
        ReachedWalk(start, t.all[..back], born[0]);
        WalkConcat(nodes, start, t.all[..back], rest);
        assert t.all[..back] + rest == t.all;
    }

    /** A later walk is bound to go the same way. */
    ghost predicate Sure(create: bool, start: XNode, all: seq<seq<byte>>)
      requires Valid() && start in nodes
      reads this, nodes
    {
      !create || NoDots(all) || Walk(nodes, start, all) != null
    }

    lemma PrefixSure(create: bool, start: XNode, done: seq<seq<byte>>, comp: seq<byte>, rest: seq<seq<byte>>)
      requires Valid() && start in nodes && Sure(create, start, done + [comp] + rest)
      ensures !create || NoDots(done) || Walk(nodes, start, done + [comp]) != null
      ensures Walk(nodes, start, done + [comp] + rest) != null ==> Walk(nodes, start, done + [comp]) != null
    {
      var all := done + [comp] + rest;
      WalkConcat(nodes, start, done + [comp], rest);
      hide Walk;
      if NoDots(all) {
        assert forall i :: 0 <= i < |done| ==> done[i] == all[i];
      }
    }

    /** The end of a component at position `p`. `sure` says that a later walk is bound to go the same way. */
    method EndComponent(path: seq<byte>, v: nat, p: nat, n: XNode, create: bool, ghost sure: bool,
                        ghost start: XNode, ghost all: seq<seq<byte>>, ghost done: seq<seq<byte>>, ghost rest: seq<seq<byte>>,
                        ghost t: Track)
      returns (r: XNode?, ghost u: Track)
      requires Valid() && n in nodes && start in nodes && v <= p <= |path| && all == done + Keep(path[v..p]) + rest
      requires t.all == all && t.done == |done| && OnTrack(create, start, n, t)
      requires sure ==> Sure(create, start, all) && Walk(nodes, start, done) == n
      modifies `nodes, nodes`attrs, nodes`children
      ensures Valid() && Grown() && (r == null ==> !create) && (r != null ==> r in nodes)
      ensures sure ==> Sure(create, start, all) && Walk(nodes, start, done + Keep(path[v..p])) == r
      ensures !create ==> SameShape()
      ensures sure && old(Walk(nodes, start, all)) != null ==> SameShape() && Walk(nodes, start, all) != null
      ensures u == t.(done := |done + Keep(path[v..p])|, c := u.c) && (r != null ==> OnTrack(create, start, r, u))
    {
      hide Walk, NoDots, Extends, OnTrack;
      r, u := n, t;
      var len := p - v;
      if 0 < len < 256 {
        if sure { PrefixSure(create, start, done, path[v..p], rest); }
        assert t.all[t.done] == path[v..p];
        r, u := Advance(n, path[v..p], create, start, done, sure, t);
        if !create || (sure && old(Walk(nodes, start, all)) != null) { WalkFrame((start, all)); }
      } else {
        SameGrown();
        assert done + [] == done;
      }
    }

    /** Going from where it starts, does the path ask for the first child of a node without children, and then for
        a child by its name? */
    ghost predicate MakesAstray(path: seq<byte>)
      requires Valid()
      reads this, nodes
    {
      Strays(nodes, Origin(path), PathComps(path), false)
    }

    /** parse_path: the node that the path names; with `create`, missing nodes are made on the way. Unless a
        component is `..`, the path names the node from then on exactly when it did not go astray. */
    method ParsePath(path: seq<byte>, create: bool) returns (nod: XNode?)
      requires Valid() && QUESTION !in path
      modifies `nodes, nodes`attrs, nodes`children
      ensures Valid() && Grown() && (nod == null ==> !create) && (nod != null ==> nod in nodes)
      ensures !create || old(Named(path)) != null ==> SameShape()
      ensures !create || old(Named(path)) != null || NoDots(PathComps(path)) ==> nod == Named(path)
      ensures create && NoUp(PathComps(path)) ==> Named(path) == if old(MakesAstray(path)) then null else nod
    {
      hide Walk, NoDots, Extends, Comps, Closed, NoUp, Strays;
      if |path| > 0 && path[0] == SLASH {
        nod := FollowPath(path, 1, root, create);
      } else {
        assert path[0..] == path;
        nod := FollowPath(path, 0, cur, create);
      }
    }

    /** The loop over the characters of the path. */
    method FollowPath(path: seq<byte>, first: nat, start: XNode, create: bool) returns (nod: XNode?)
      requires Valid() && QUESTION !in path && first <= |path| && start in nodes
      modifies `nodes, nodes`attrs, nodes`children
      ensures Valid() && Grown() && (nod == null ==> !create) && (nod != null ==> nod in nodes)
      ensures var all := Comps(path[first..], []);
        && (!create || old(Walk(nodes, start, all)) != null ==> SameShape())
        && (!create || old(Walk(nodes, start, all)) != null || NoDots(all) ==> nod == Walk(nodes, start, all))
        && (create && NoUp(all) ==> Walk(nodes, start, all) == if old(Strays(nodes, start, all, false)) then null else nod)
    {
      hide Walk, NoDots, Extends, Keep, Comps, Closed, NoUp, OnTrack, Strays;
      ghost var all, done: seq<seq<byte>> := Comps(path[first..], []), [];
      var v, p := first, first;
      nod := start;
      SameGrown();
      WalkNothing(start);
      Components(path, p, v, []);
      ghost var sure := Sure(create, start, all);
      ghost var track := TrackStart(create, start, all);
      while nod != null
        invariant Valid() && Grown() && v <= p <= |path| && start in nodes
        invariant (nod == null ==> !create) && (nod != null ==> nod in nodes)
        invariant all == done + Comps(path[p..], path[v..p])
        invariant sure ==> Sure(create, start, all) && Walk(nodes, start, done) == nod
        invariant track == Track(create && NoUp(all), all, |done|, track.c, old(Strays(nodes, start, all, false)))
        invariant nod != null ==> OnTrack(create, start, nod, track)
        invariant !create || old(Walk(nodes, start, all)) != null ==> sure && SameShape()
        invariant old(Walk(nodes, start, all)) != null ==> Walk(nodes, start, all) != null
        decreases |path| - p
      {
        Components(path, p, v, done);
        if p == |path| || path[p] == SLASH {
          ghost var rest := if p == |path| then [] else Comps(path[p + 1..], []);
          label Before:
          nod, track := EndComponent(path, v, p, nod, create, sure, start, all, done, rest, track);
          done := done + Keep(path[v..p]);
          assert Grown() by {
            forall x | x in old(nodes)
              ensures Extends(x.attrs, old(x.attrs)) && Extends(x.children, old(x.children))
            {
              ExtendsMore(x.attrs, old@Before(x.attrs), old(x.attrs));
              ExtendsMore(x.children, old@Before(x.children), old(x.children));
            }
          }
          if p == |path| { break; }
          v := p + 1;
        }
        p := p + 1;
      }
      if nod == null {
        WalkEnds(start, done, Comps(path[p..], path[v..p]));
      } else if track.kept {
        TrackEnd(create, start, nod, track);
      }
    }

    lemma WalkEnds(start: XNode, done: seq<seq<byte>>, rest: seq<seq<byte>>)
      requires Valid() && start in nodes && Walk(nodes, start, done) == null
      ensures Walk(nodes, start, done + rest) == null
    {
      WalkConcat(nodes, start, done, rest);
    }

    lemma WalkNothing(start: XNode)
      requires Valid() && start in nodes
      ensures Walk(nodes, start, []) == start
    {
    }

    /** The components still to come at position `p`, behind those walked already. */
    lemma Components(path: seq<byte>, p: nat, v: nat, done: seq<seq<byte>>)
      requires v <= p <= |path|
      ensures done == [] ==> done + Comps(path[p..], path[v..p]) == Comps(path[p..], path[v..p])
      ensures p == |path| ==> done + Comps(path[p..], path[v..p]) == done + Keep(path[v..p]) + []
      ensures p == |path| ==> done + Comps(path[p..], path[v..p]) == done + Keep(path[v..p])
      ensures p < |path| && path[p] == SLASH ==>
        done + Comps(path[p..], path[v..p]) == done + Keep(path[v..p]) + Comps(path[p + 1..], [])
      ensures p < |path| && path[p] != SLASH ==> Comps(path[p..], path[v..p]) == Comps(path[p + 1..], path[v..p + 1])
      ensures path[p..p] == [] && path[0..] == path && (p < |path| ==> path[p + 1..p + 1] == [])
    {
      hide Keep;
      if p < |path| {
        assert path[p..][1..] == path[p + 1..] && path[v..p] + [path[p]] == path[v..p + 1];
      }
    }

    /** bxml_read: copies as much of the value as the buffer takes; -1 when there is no value. */
    method Read(path: seq<byte>, buf: array<byte>, bufSize: nat) returns (r: int)
      requires Valid() && QUESTION !in path && bufSize <= buf.Length
      modifies buf, `nodes, nodes`attrs, nodes`children
      ensures Valid() && Grown() && SameShape() && Named(path) == old(Named(path))
      ensures Named(path) == null || Named(path).value == [] ==> r == -1 && buf[..] == old(buf[..])
      ensures Named(path) != null && Named(path).value != [] ==>
        r == Min(|Named(path).value|, bufSize) && buf[..] == Splice(old(buf[..]), 0, Named(path).value[..r])
    {
      hide Walk, Splice, Extends, PathComps;
      var nod := ParsePath(path, false);
      WalkFrame((Origin(path), PathComps(path)));
      if nod != null && nod.value != [] {
        r := if |nod.value| < bufSize then |nod.value| else bufSize;
        Put(buf, 0, nod.value[..r]);
      } else {
        r := -1;
      }
    }

    /** bxml_write: the named node, made if need be, gets the bytes as its value. */
    method Write(path: seq<byte>, data: seq<byte>) returns (ghost n: XNode)
      requires Valid() && QUESTION !in path
      modifies `nodes, nodes`attrs, nodes`children, nodes`value
      ensures Valid() && n in nodes && n.value == data && cur == old(cur) && old(nodes) <= nodes
      ensures forall x :: x in old(nodes) ==> Extends(x.attrs, old(x.attrs)) && Extends(x.children, old(x.children))
      ensures forall x :: x in old(nodes) && x != n ==> x.value == old(x.value)
      ensures forall x :: x in nodes && x !in old(nodes) ==> fresh(x) && (x != n ==> x.value == [])
      ensures old(Named(path)) != null ==> SameShape()
      ensures old(Named(path)) != null || NoDots(PathComps(path)) ==> n == Named(path)
      ensures NoUp(PathComps(path)) ==> Named(path) == if old(MakesAstray(path)) then null else n
    {
      hide Walk, Extends, PathComps, NoDots, NoUp, Strays;
      var nod := ParsePath(path, true);
      label Found:
      nod.value := data;
      n := nod;
      ValuesDoNotMatter@Found(path);
    }

    twostate lemma ValuesDoNotMatter(path: seq<byte>)
      requires old(Valid()) && Valid() && SameShape() && cur == old(cur)
      ensures Named(path) == old(Named(path))
    {
      WalkFrame((Origin(path), PathComps(path)));
    }

    /** A second walk along the path is known to lead where a walk with creation has led. */
    ghost predicate Steady(path: seq<byte>)
      requires Valid()
      reads this, nodes
    {
      Named(path) != null || NoDots(PathComps(path)) || (NoUp(PathComps(path)) && !MakesAstray(path))
    }

    /** A value written under a path is read back under it; a second write, of `again`, makes no node; and no
        other value changes. `made` are the nodes after the first write. When the path goes astray, nothing is
        read. */
    method WriteThenRead(path: seq<byte>, data: seq<byte>, again: seq<byte>, buf: array<byte>)
      returns (r: int, ghost made: set<XNode>)
      requires Valid() && QUESTION !in path && data != [] && |data| <= buf.Length
      modifies buf, `nodes, nodes`attrs, nodes`children, nodes`value
      ensures Valid() && made >= old(nodes)
      ensures old(Steady(path)) ==> r == |data| && buf[..r] == data
      ensures old(Steady(path)) ==> Named(path) != null && Named(path).value == again && nodes == made
      ensures old(Steady(path)) ==> forall x :: x in old(nodes) && x != Named(path) ==> x.value == old(x.value)
      ensures old(Named(path)) != null ==> made == old(nodes)
      ensures NoUp(PathComps(path)) && old(MakesAstray(path)) ==> r == -1 && buf[..] == old(buf[..])
    {
      hide Walk, Extends, PathComps, NoDots, Splice, NoUp, Strays;
      ghost var n := Write(path, data);
      ReadBack(buf[..], data);
      r := Read(path, buf, buf.Length);
      label Second:
      made := nodes;
      ghost var m := Write(path, again);
      if old(Steady(path)) { ValuesDoNotMatter@Second(path); }
    }
  }
}
