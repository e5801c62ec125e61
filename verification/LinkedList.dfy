/**
 An intrusive, circular, doubly linked list. The nodes carry the links themselves; a
 list owns a root node that closes the ring and is not one of its elements.
 */
module LinkedList {

  ghost predicate Distinct<T>(s: seq<T>)
  {
    forall i, j :: 0 <= i < j < |s| ==> s[i] != s[j]
  }

  function Reversed<T>(s: seq<T>): (r: seq<T>)
    ensures |r| == |s| && forall i :: 0 <= i < |s| ==> r[i] == s[|s| - 1 - i]
  {
    seq(|s|, i requires 0 <= i < |s| => s[|s| - 1 - i])
  }

  /** Next and previous are mutual inverses and lead through all the nodes, once round. */
  ghost predicate Ring(nodes: seq<LinkNode>)
    reads nodes
  {
    && Distinct(nodes)
    && (forall i {:trigger nodes[i].next} :: 0 <= i < |nodes| - 1 ==> nodes[i].next == nodes[i + 1])
    && (forall i {:trigger nodes[i].previous} :: 1 <= i < |nodes| ==> nodes[i].previous == nodes[i - 1])
    && (nodes != [] ==> nodes[|nodes| - 1].next == nodes[0] && nodes[0].previous == nodes[|nodes| - 1])
  }

  /** The links of a ring, except those between node p - 1 and the node after it. */
  ghost predicate OpenAt(nodes: seq<LinkNode>, p: nat)
    requires 0 < p <= |nodes|
    reads nodes
  {
    && Distinct(nodes)
    && (forall i {:trigger nodes[i].next} :: 0 <= i < |nodes| - 1 && i != p - 1 ==> nodes[i].next == nodes[i + 1])
    && (forall i {:trigger nodes[i].previous} :: 1 <= i < |nodes| && i != p ==> nodes[i].previous == nodes[i - 1])
    && (p < |nodes| ==> nodes[|nodes| - 1].next == nodes[0] && nodes[0].previous == nodes[|nodes| - 1])
  }

  /** A new node with its four links closes the ring. */
  lemma Closed(nodes: seq<LinkNode>, p: nat, x: LinkNode)
    requires 0 < p <= |nodes| && OpenAt(nodes, p) && x !in nodes
    requires nodes[p - 1].next == x && x.previous == nodes[p - 1]
    requires var ahead := nodes[if p == |nodes| then 0 else p]; x.next == ahead && ahead.previous == x
    ensures Ring(nodes[..p] + [x] + nodes[p..])
  {
    var spliced := nodes[..p] + [x] + nodes[p..];
    assert forall k :: 0 <= k < p ==> spliced[k] == nodes[k];
    assert forall k :: p < k < |spliced| ==> spliced[k] == nodes[k - 1];
    forall k | 0 <= k < |spliced| - 1
      ensures spliced[k].next == spliced[k + 1] && spliced[k + 1].previous == spliced[k]
    {
    }
  }

  class LinkNode {
    var previous: LinkNode?
    var next: LinkNode?

    /** A node that is in no list. */
    constructor ()
      ensures previous == null && next == null
    {
      previous, next := null, null;
    }

    /** Inserts this node before e, which is node i of the list's ring; node 0 is the root. */
    method InsertBefore(e: LinkNode, ghost list: List, ghost i: nat)
      requires list.Valid() && i < |list.ring| && list.ring[i] == e && this !in list.ring
      modifies this, e, e.previous, list`ring
      ensures list.Valid()
      ensures var was, p := old(list.ring), if i == 0 then |old(list.ring)| else i;
              list.ring == was[..p] + [this] + was[p..]
    {
      ghost var p := if i == 0 then |list.ring| else i;
      assert e.previous == list.ring[p - 1];
      this.next := e;
      this.previous := e.previous;
      e.previous.next := this;
      e.previous := this;
      assert OpenAt(list.ring, p);
      Closed(list.ring, p, this);
      list.ring := list.ring[..p] + [this] + list.ring[p..];
    }

    /** The same statements with the node itself for e: they break every ring of more than one node. */
    method InsertBeforeItself(ghost list: List, ghost i: nat)
      requires list.Valid() && i < |list.ring| && list.ring[i] == this
      modifies this, previous
      ensures Ring(list.ring) <==> |list.ring| == 1
    {
      var e := this;
      this.next := e;
      this.previous := e.previous;
      e.previous.next := this;
      e.previous := this;
      assert list.ring[i].next == this && list.ring[i].previous == this;
    }

    /** Inserts this node after e, which is node i of the list's ring. */
    method InsertAfter(e: LinkNode, ghost list: List, ghost i: nat)
      requires list.Valid() && i < |list.ring| && list.ring[i] == e && this !in list.ring
      modifies this, e, e.next, list`ring
      ensures list.Valid()
      ensures list.ring == old(list.ring)[..i + 1] + [this] + old(list.ring)[i + 1..]
    {
      assert e.next == list.ring[if i + 1 == |list.ring| then 0 else i + 1];
      this.next := e.next;
      this.previous := e;
      e.next.previous := this;
      e.next := this;
      assert OpenAt(list.ring, i + 1);
      Closed(list.ring, i + 1, this);
      list.ring := list.ring[..i + 1] + [this] + list.ring[i + 1..];
    }

    /** Takes this node, node i of the ring, out of its list. Both links of a node in no list are null. */
    method RemoveFromList(ghost list: List, ghost i: nat)
      requires list.Valid() && 0 < i < |list.ring| && list.ring[i] == this
      modifies this, previous, next, list`ring
      ensures list.Valid() && previous == null && next == null
      ensures list.ring == old(list.ring)[..i] + old(list.ring)[i + 1..]
    {
      this.previous.next := this.next;
      this.next.previous := this.previous;
      this.next := null;
      this.previous := null;
      list.ring := list.ring[..i] + list.ring[i + 1..];
    }
  }

  class List {
    const root: LinkNode
    // The root followed by the elements from head to tail.
    ghost var ring: seq<LinkNode>

    ghost predicate Valid()
      reads this, ring
    {
      ring != [] && ring[0] == root && Ring(ring)
    }

    ghost function Elements(): seq<LinkNode>
      requires Valid()
      reads this, ring
    {
      ring[1..]
    }

    constructor ()
      ensures Valid() && Elements() == [] && fresh(root)
    {
      var r := new LinkNode();
      r.previous, r.next := r, r;
      root := r;
      ring := [r];
    }

    method Append(e: LinkNode)
      requires Valid() && e !in ring
      modifies this`ring, e, root, root.previous
      ensures Valid() && Elements() == old(Elements()) + [e]
    {
      e.InsertBefore(root, this, 0);
    }

    function Head(): (n: LinkNode?)
      reads this, root
    {
      root.next
    }

    function Tail(): (n: LinkNode?)
      reads this, root
    {
      root.previous
    }

    method Empty() returns (b: bool)
      requires Valid()
      ensures b == (Elements() == [])
    {
      b := Head() == root;
    }

    /** Iterating from head to end meets every element once, in order. */
    method Forward() returns (nodes: seq<LinkNode>)
      requires Valid()
      ensures nodes == Elements()
    {
      nodes := [];
      var node := Head();
      while node != root
        invariant |nodes| < |ring| && nodes == ring[1..|nodes| + 1]
        invariant node == ring[if |nodes| + 1 == |ring| then 0 else |nodes| + 1]
        decreases |ring| - |nodes|
      {
        nodes := nodes + [node];
        node := node.next;
      }
    }

    /** Iterating from tail to end meets the elements in the reverse order. */
    method Backward() returns (nodes: seq<LinkNode>)
      requires Valid()
      ensures nodes == Reversed(Elements())
    {
      nodes := [];
      var node := Tail();
      while node != root
        invariant |nodes| < |ring| && node == ring[if |nodes| == 0 then |ring| - 1 else |ring| - 1 - |nodes|]
        invariant forall i :: 0 <= i < |nodes| ==> nodes[i] == ring[|ring| - 1 - i]
        decreases |ring| - |nodes|
      {
        nodes := nodes + [node];
        node := node.previous;
      }
    }

    /** A list none of whose nodes has changed is still valid. */
    twostate lemma Untouched()
      requires old(Valid()) && ring == old(ring)
      requires forall n :: n in ring ==> n.next == old(n.next) && n.previous == old(n.previous)
      ensures Valid()
    {
      assert ring[|ring| - 1] in ring && ring[0] in ring;
      forall i | 0 <= i < |ring| - 1
        ensures ring[i].next == ring[i + 1]
      {
        assert ring[i] in ring;
      }
    }

    /** Moving an element to another list changes each of the two by that element alone. */
    method MoveToEndOf(other: List, e: LinkNode, ghost i: nat)
      requires Valid() && other.Valid() && other != this && i < |Elements()| && Elements()[i] == e
      requires forall n :: n in ring ==> n !in other.ring
      modifies this, other, ring, other.ring
      ensures Valid() && other.Valid()
      ensures other.Elements() == old(other.Elements()) + [e]
      ensures Elements() == old(Elements())[..i] + old(Elements())[i + 1..]
    {
      Detach(e, i, other);
      AppendBeside(other, e);
    }

    method Detach(e: LinkNode, ghost i: nat, ghost other: List)
      requires Valid() && other.Valid() && other != this && i < |Elements()| && Elements()[i] == e
      requires forall n :: n in ring ==> n !in other.ring
      modifies this`ring, ring
      ensures Valid() && other.Valid() && other.ring == old(other.ring)
      ensures Elements() == old(Elements())[..i] + old(Elements())[i + 1..]
      ensures ring == old(ring)[..i + 1] + old(ring)[i + 2..] && e !in ring
    {
      assert e == ring[i + 1] && e.previous == ring[i] && e.next in ring;
      ghost var before, after := e.previous, e.next;
      assert forall n :: n in other.ring ==> n != e && n != before && n != after;
      Unlink(e, i, other, before, after);
    }

    method Unlink(e: LinkNode, ghost i: nat, ghost other: List, ghost before: LinkNode?, ghost after: LinkNode?)
      requires Valid() && other.Valid() && other != this && i < |Elements()| && Elements()[i] == e
      requires before == e.previous && after == e.next
      requires forall n :: n in other.ring ==> n != e && n != before && n != after
      modifies this`ring, e, before, after
      ensures Valid() && other.Valid()
      ensures ring == old(ring)[..i + 1] + old(ring)[i + 2..]
    {
      e.RemoveFromList(this, i + 1);
      other.Untouched();
    }

    method AppendBeside(other: List, e: LinkNode)
      requires Valid() && other.Valid() && other != this && e !in ring && e !in other.ring
      requires forall n :: n in ring ==> n !in other.ring
      modifies e, other`ring, other.ring
      ensures Valid() && ring == old(ring)
      ensures other.Valid() && other.Elements() == old(other.Elements()) + [e]
    {
      assert other.root.previous == other.ring[|other.ring| - 1];
      other.Append(e);
      Untouched();
    }
  }
}
