/** The BXML document tree, as lists of attributes and children hang off each node. */
module BxmlTree {
  import opened ByteSeq

  function Min(a: nat, b: nat): nat { if a <= b then a else b }

  /** A node or an attribute; an empty value is a missing one. */
  datatype Node = Node(name: seq<byte>, value: seq<byte>, attrs: seq<Node>, children: seq<Node>)

  /** What both reading directions do to a binary document: every list comes back reversed. */
  function Mirror(n: Node): (m: Node)
    ensures m.name == n.name && m.value == n.value
    ensures |m.attrs| == |n.attrs| && |m.children| == |n.children|
    decreases n, 0
  {
    Node(n.name, n.value, MirrorAll(n.attrs), MirrorAll(n.children))
  }

  function MirrorAll(s: seq<Node>): (m: seq<Node>)
    ensures |m| == |s|
    decreases s, 1
  {
    if s == [] then [] else MirrorAll(s[1..]) + [Mirror(s[0])]
  }

  lemma {:induction false} MirrorAllAppend(s: seq<Node>, x: Node)
    ensures MirrorAll(s + [x]) == [Mirror(x)] + MirrorAll(s)
  {
    if s == [] {
      assert (s + [x])[1..] == [] && [Mirror(x)] + MirrorAll([]) == [] + [Mirror(x)];
    } else {
      assert (s + [x])[1..] == s[1..] + [x];
      MirrorAllAppend(s[1..], x);
    }
  }

  /** The mirror image, list by list: the last comes first, and is a mirror image itself. */
  lemma MirrorIs(n: Node)
    ensures Mirror(n).name == n.name && Mirror(n).value == n.value
    ensures |Mirror(n).attrs| == |n.attrs| && |Mirror(n).children| == |n.children|
    ensures forall i :: 0 <= i < |n.attrs| ==> Mirror(n).attrs[i] == Mirror(n.attrs[|n.attrs| - 1 - i])
    ensures forall i :: 0 <= i < |n.children| ==> Mirror(n).children[i] == Mirror(n.children[|n.children| - 1 - i])
  {
    MirrorAllAt(n.attrs);
    MirrorAllAt(n.children);
  }

  lemma {:induction false} MirrorAllAt(s: seq<Node>)
    ensures forall i :: 0 <= i < |s| ==> MirrorAll(s)[i] == Mirror(s[|s| - 1 - i])
    decreases |s|
  {
    hide Mirror;
    if s != [] { MirrorAllAt(s[1..]); }
  }

  lemma {:induction false} MirrorTwice(n: Node)
    ensures Mirror(Mirror(n)) == n
    decreases n, 0
  {
    MirrorAllTwice(n.attrs);
    MirrorAllTwice(n.children);
  }

  lemma {:induction false} MirrorAllTwice(s: seq<Node>)
    ensures MirrorAll(MirrorAll(s)) == s
    decreases s, 1
  {
    if s != [] {
      MirrorTwice(s[0]);
      MirrorAllTwice(s[1..]);
      MirrorAllAppend(MirrorAll(s[1..]), Mirror(s[0]));
    }
  }
}
