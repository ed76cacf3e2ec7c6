/** The kernel's linked queue. Entries run from the back (popped by RtlPopBackQueue) to the front (filled
    by RtlPushFrontQueue). */
module Queue {
  import opened Lists
  import opened Wrappers

  type Ptr = nat   // a queued address

  class Node {
    const v: Ptr
    var prev: Node?   // towards the back
    var next: Node?   // towards the front

    constructor (v: Ptr)
      ensures this.v == v && prev == null && next == null
    {
      this.v, prev, next := v, null, null;
    }
  }

  ghost function At(s: seq<Node>, i: int): Node? { if 0 <= i < |s| then s[i] else null }

  ghost predicate Linked(s: seq<Node>)
    reads s
  {
    && Distinct(s)
    && (forall i {:trigger s[i].next} :: 0 <= i < |s| ==> s[i].next == At(s, i + 1))
    && (forall i {:trigger s[i].prev} :: 0 <= i < |s| ==> s[i].prev == At(s, i - 1))
  }

  ghost function Values(s: seq<Node>): (r: seq<Ptr>)
    ensures |r| == |s|
    ensures forall i :: 0 <= i < |s| ==> r[i] == s[i].v
  {
    seq(|s|, i requires 0 <= i < |s| => s[i].v)
  }

  lemma ValuesWithout(s: seq<Node>, i: nat)
    requires i < |s|
    ensures Values(Without(s, i)) == Without(Values(s), i)
  {
  }

  method HookFront(nod: Node, front: Node?, ghost s: seq<Node>)
    requires Linked(s) && nod !in s && front == At(s, |s| - 1)
    modifies nod, Elems(s)`next
    ensures Linked(s + [nod])
  {
    if front != null {
      front.next := nod;
    }
    nod.prev := front;
    nod.next := null;
  }

  method HookBack(nod: Node, back: Node?, ghost s: seq<Node>)
    requires Linked(s) && nod !in s && back == At(s, 0)
    modifies nod, Elems(s)`prev
    ensures Linked([nod] + s)
  {
    if back != null {
      back.prev := nod;
    }
    nod.prev := null;
    nod.next := back;
  }

  class KQueue {
    var curNum: int
    var maxNum: int
    var front: Node?
    var back: Node?
    ghost var nodes: seq<Node>

    /** RtlCreateQueue; size 0 stands for practically unbounded. */
    constructor (size: int)
      ensures Valid() && Contents() == [] && curNum == 0 && nodes == []
      ensures maxNum == if size == 0 then 0x7000_0000 else size
    {
      maxNum := if size == 0 then 0x7000_0000 else size;
      front, back, curNum, nodes := null, null, 0, [];
    }

    ghost predicate Valid()
      reads this, nodes
    {
      Linked(nodes) && back == At(nodes, 0) && front == At(nodes, |nodes| - 1)
    }

    ghost function Contents(): seq<Ptr>
      reads this
    {
      Values(nodes)
    }

    method PushFront(data: Ptr) returns (ok: bool)
      requires Valid()
      modifies this, Elems(nodes)`next
      ensures Valid() && ok == (old(curNum) < maxNum) && maxNum == old(maxNum)
      ensures Contents() == old(Contents()) + if ok then [data] else []
      ensures curNum == old(curNum) + if ok then 1 else 0
      ensures fresh(Elems(nodes) - old(Elems(nodes)))
    {
      if curNum >= maxNum {
        return false;
      }
      var nod := new Node(data);
      curNum := curNum + 1;
      if front == null && back == null {
        back := nod;
      }
      HookFront(nod, front, nodes);
      front := nod;
      nodes := nodes + [nod];
      return true;
    }

    method PushBack(data: Ptr) returns (ok: bool)
      requires Valid()
      modifies this, Elems(nodes)`prev
      ensures Valid() && ok == (old(curNum) < maxNum) && maxNum == old(maxNum)
      ensures Contents() == (if ok then [data] else []) + old(Contents())
      ensures curNum == old(curNum) + if ok then 1 else 0
      ensures fresh(Elems(nodes) - old(Elems(nodes)))
    {
      hide Linked, Distinct;
      if curNum >= maxNum {
        return false;
      }
      var nod := new Node(data);
      curNum := curNum + 1;
      if back == null && front == null {
        front := nod;
      }
      HookBack(nod, back, nodes);
      back := nod;
      nodes := [nod] + nodes;
      return true;
    }

    /** Takes the oldest front-pushed entry. The count drops even when there is nothing to take. */
    method PopBack() returns (r: Option<Ptr>)
      requires Valid()
      modifies this, Elems(nodes)`prev
      ensures Valid() && curNum == old(curNum) - 1 && maxNum == old(maxNum)
      ensures if old(Contents()) == [] then r == None && Contents() == []
        else r == Some(old(Contents())[0]) && Contents() == old(Contents())[1..]
      ensures Elems(nodes) <= old(Elems(nodes))
    {
      r := None;
      if back != null {
        r := Some(back.v);
        if back.next != null {
          back.next.prev := null;
        }
        back := back.next;
        if back == null {
          front := null;
        }
        nodes := nodes[1..];
      }
      curNum := curNum - 1;
    }

    /** Takes the newest front-pushed entry, unless the count is 0. */
    method PopFront() returns (r: Option<Ptr>)
      requires Valid()
      modifies this, Elems(nodes)`next
      ensures Valid() && maxNum == old(maxNum)
      ensures curNum == old(curNum) - if old(curNum) == 0 then 0 else 1
      ensures old(curNum) == 0 || old(Contents()) == [] ==> r == None && Contents() == old(Contents())
      ensures old(curNum) != 0 && old(Contents()) != [] ==>
        var n := |old(Contents())| - 1; r == Some(old(Contents())[n]) && Contents() == old(Contents())[..n]
      ensures Elems(nodes) <= old(Elems(nodes))
    {
      r := None;
      if curNum == 0 {
        return;
      }
      if front != null {
        r := Some(front.v);
        if front.prev != null {
          front.prev.next := null;
        }
        front := front.prev;
        if front == null {
          back := null;
        }
        nodes := nodes[..|nodes| - 1];
      }
      curNum := curNum - 1;
    }

    /** The entry nearest the back that holds `v`. */
    method QuickSearch(v: Ptr) returns (nod: Node?, ghost i: nat)
      requires Valid()
      ensures nod == null <==> v !in Contents()
      ensures nod != null ==> i < |nodes| && nodes[i] == nod && nod.v == v && v !in Contents()[..i]
    {
      nod, i := back, 0;
      while nod != null && nod.v != v
        invariant i <= |nodes| && nod == At(nodes, i)
        invariant v !in Contents()[..i]
        decreases |nodes| - i
      {
        nod, i := nod.next, i + 1;
      }
    }

    method RemoveElement(nod: Node, ghost i: nat)
      requires Valid() && i < |nodes| && nodes[i] == nod
      modifies this, Elems(nodes)`next, Elems(nodes)`prev
      ensures Valid() && curNum == old(curNum) - 1 && maxNum == old(maxNum)
      ensures i < |old(Contents())| && Contents() == Without(old(Contents()), i)
      ensures Elems(nodes) <= old(Elems(nodes))
    {
      hide Linked, Values, Without;
      ValuesWithout(nodes, i);
      Unchain(nod, i);
      nodes := Without(nodes, i);
      curNum := curNum - 1;
    }

    method Unchain(nod: Node, ghost i: nat)
      requires Valid() && i < |nodes| && nodes[i] == nod
      modifies this`back, this`front, Elems(nodes)`next, Elems(nodes)`prev
      ensures Linked(Without(nodes, i)) && Elems(Without(nodes, i)) <= Elems(nodes)
      ensures back == At(Without(nodes, i), 0) && front == At(Without(nodes, i), |Without(nodes, i)| - 1)
    {
      if nod.prev == null { back := nod.next; }
      if nod.next == null { front := nod.prev; }
      Unhook(nod, nodes, i);
    }
  }

  /** The links after entry `j` of `s` has been joined over. */
  twostate predicate JoinedOver(p: (seq<Node>, nat))
    requires p.1 < |p.0|
    reads p.0
  {
    && (forall k {:trigger p.0[k].next} :: 0 <= k < |p.0| ==>
          p.0[k].next == if k == p.1 - 1 then At(p.0, p.1 + 1) else old(p.0[k].next))
    && (forall k {:trigger p.0[k].prev} :: 0 <= k < |p.0| ==>
          p.0[k].prev == if k == p.1 + 1 then At(p.0, p.1 - 1) else old(p.0[k].prev))
  }

  twostate lemma JoinedLinks(p: (seq<Node>, nat))
    requires p.1 < |p.0| && old(Linked(p.0)) && JoinedOver(p)
    ensures Linked(Without(p.0, p.1))
  {
    var r := Without(p.0, p.1);
    forall k | 0 <= k < |r|
      ensures r[k].next == At(r, k + 1)
    {
      assert r[k] == p.0[if k < p.1 then k else k + 1];
    }
    forall k | 0 <= k < |r|
      ensures r[k].prev == At(r, k - 1)
    {
      assert r[k] == p.0[if k < p.1 then k else k + 1];
    }
  }

  /** Joins the neighbours of entry `i`. */
  method Unhook(nod: Node, ghost s: seq<Node>, ghost i: nat)
    requires Linked(s) && i < |s| && s[i] == nod
    modifies Elems(s)`next, Elems(s)`prev
    ensures Linked(Without(s, i))
  {
    hide Without;
    assert nod.prev == At(s, i - 1) && nod.next == At(s, i + 1);
    if nod.prev != null { nod.prev.next := nod.next; }
    if nod.next != null { nod.next.prev := nod.prev; }
    JoinedLinks((s, i));
  }

  /** RtlPopBackQueue on an empty queue makes the count lie: one entry pushed afterwards is queued, and
      RtlPopFrontQueue does not return it. */
  method MiscountedQueue(x: Ptr) returns (q: KQueue, r: Option<Ptr>)
    ensures q.Valid() && q.Contents() == [x] && r == None
  {
    q := new KQueue(0);
    var _ := q.PopBack();
    var _ := q.PushFront(x);
    r := q.PopFront();
  }
}
