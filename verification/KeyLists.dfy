/**
 The doubly linked list of keys behind the cache: nodes in a circle through one sentinel, so that a
 node can be unlinked in place by whoever holds a reference to it.
 */
module KeyLists {

  class Node {
    const key: string
    var prev: Node
    var next: Node

    constructor Sentinel()
      ensures prev == this && next == this
    {
      key := "";
      prev := this;
      next := this;
    }

    constructor Linked(key: string, prev: Node, next: Node)
      ensures this.key == key && this.prev == prev && this.next == next
    {
      this.key := key;
      this.prev := prev;
      this.next := next;
    }
  }

  class KeyList {
    const sentinel: Node
    ghost var nodes: seq<Node>  // the nodes from front to back, without the sentinel

    /** The node at place i of the circle; the sentinel stands both before the first and after the last. */
    ghost function Place(i: int): Node
      requires -1 <= i <= |nodes|
      reads this
    {
      if 0 <= i < |nodes| then nodes[i] else sentinel
    }

    ghost predicate Valid()
      reads this, sentinel, nodes
    {
      && sentinel !in nodes
      && (forall i, j :: 0 <= i < j < |nodes| ==> nodes[i] != nodes[j])
      && (forall i {:trigger Place(i).next} :: -1 <= i < |nodes| ==> Place(i).next == Place(i + 1))
      && (forall i {:trigger Place(i).prev} :: 0 <= i <= |nodes| ==> Place(i).prev == Place(i - 1))
    }

    constructor ()
      ensures Valid() && nodes == [] && fresh(sentinel)
    {
      sentinel := new Node.Sentinel();
      nodes := [];
    }

    predicate IsEmpty()
      requires Valid()
      reads this, sentinel, nodes
      ensures IsEmpty() <==> nodes == []
    {
      assert Place(-1).next == Place(0);
      sentinel.next == sentinel
    }

    function Back(): (n: Node)
      requires Valid() && nodes != []
      reads this, sentinel, nodes
      ensures n == nodes[|nodes|-1]
    {
      assert Place(|nodes|).prev == Place(|nodes|-1);
      sentinel.prev
    }

    method PushFront(key: string) returns (n: Node)
      requires Valid()
      modifies this, sentinel, nodes
      ensures Valid() && fresh(n) && n.key == key
      ensures nodes == [n] + old(nodes)
    {
      assert Place(-1).next == Place(0);
      n := new Node.Linked(key, sentinel, sentinel.next);
      sentinel.next.prev := n;
      sentinel.next := n;
      nodes := [n] + nodes;
      assert forall i :: 1 <= i <= |nodes| ==> Place(i) == old(Place(i - 1));
    }

    /** Unlinks the node n, which keeps its own links; i is the place it stood at. */
    method Erase(n: Node) returns (ghost i: nat)
      requires Valid() && n in nodes
      modifies this, sentinel, nodes
      ensures Valid()
      ensures i < |old(nodes)| && old(nodes)[i] == n
      ensures nodes == old(nodes)[..i] + old(nodes)[i+1..]
    {
      i :| 0 <= i < |nodes| && nodes[i] == n;
      assert Place(i) == n;
      assert Place(i).next == Place(i + 1);
      assert Place(i).prev == Place(i - 1);
      n.prev.next := n.next;
      n.next.prev := n.prev;
      nodes := nodes[..i] + nodes[i+1..];
      assert forall j :: -1 <= j < i ==> Place(j) == old(Place(j));
      assert forall j :: i <= j <= |nodes| ==> Place(j) == old(Place(j + 1));
    }
  }
}
