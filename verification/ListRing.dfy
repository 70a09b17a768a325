/** The circular doubly linked list under src/list/container.c, with its sentinel. */
module ListRing {

  newtype int32 = x: int | -0x8000_0000 <= x < 0x8000_0000

  /** A list_head together with the value of the listNode that embeds it. A null link is a poisoned one. */
  class Node {
    var next: Node?
    var prev: Node?
    const value: int32

    /** INIT_LIST_HEAD: the node is a circle of its own. */
    constructor (v: int32)
      ensures next == this && prev == this && value == v
    {
      next := this;
      prev := this;
      value := v;
    }
  }

  /** Once around the circle, from the sentinel back to the sentinel. */
  ghost function Circle(head: Node, nodes: seq<Node>): (r: seq<Node>) {
    [head] + nodes + [head]
  }

  ghost predicate Distinct(head: Node, nodes: seq<Node>) {
    head !in nodes && forall i, j :: 0 <= i < j < |nodes| ==> nodes[i] != nodes[j]
  }

  /** Step `i` of the way around goes forward by `next` and back by `prev`. */
  ghost predicate JoinedAt(head: Node, nodes: seq<Node>, i: nat)
    requires i <= |nodes|
    reads head, nodes
  {
    var c := Circle(head, nodes);
    c[i].next == c[i + 1] && c[i + 1].prev == c[i]
  }

  /** The heap is a well-formed circle: `next` leads once around through exactly these distinct nodes and
      `prev` is its inverse. */
  ghost predicate Ring(head: Node, nodes: seq<Node>)
    reads head, nodes
  {
    Distinct(head, nodes) && forall i :: 0 <= i <= |nodes| ==> JoinedAt(head, nodes, i)
  }

  ghost function Values(nodes: seq<Node>): (r: seq<int32>)
    ensures |r| == |nodes| && forall i :: 0 <= i < |r| ==> r[i] == nodes[i].value
  {
    seq(|nodes|, i requires 0 <= i < |nodes| => nodes[i].value)
  }

  /** No node comes twice on the way around, apart from the sentinel at both ends. */
  lemma CircleDistinct(head: Node, nodes: seq<Node>, i: nat, j: nat)
    requires Distinct(head, nodes) && i < j < |nodes| + 2 && !(i == 0 && j == |nodes| + 1)
    ensures Circle(head, nodes)[i] != Circle(head, nodes)[j]
  {
    if i == 0 {
      assert nodes[j - 1] in nodes;
    } else {
      assert nodes[i - 1] in nodes;
    }
  }

  /** Standing on node `k`: its links, and when they are the sentinel. */
  lemma StepOnCircle(head: Node, nodes: seq<Node>, k: nat)
    requires Ring(head, nodes) && k < |nodes|
    ensures
      var c := Circle(head, nodes);
      && c[k + 1] == nodes[k] != head
      && nodes[k].next == c[k + 2] && (c[k + 2] == head <==> k + 1 == |nodes|)
      && nodes[k].prev == c[k] && (c[k] == head <==> k == 0)
  {
    assert JoinedAt(head, nodes, k) && JoinedAt(head, nodes, k + 1);
    if k + 1 < |nodes| { assert nodes[k + 1] in nodes; }
    if k > 0 { assert nodes[k - 1] in nodes; }
  }

  lemma DistinctInsert(head: Node, nodes: seq<Node>, entry: Node, k: nat)
    requires Distinct(head, nodes) && k <= |nodes| && entry != head && entry !in nodes
    ensures Distinct(head, nodes[..k] + [entry] + nodes[k..])
  {
  }

  /** __list_add: link `entry` between two neighbours. */
  method Link(entry: Node, prev: Node, next: Node, ghost head: Node, ghost nodes: seq<Node>, ghost k: nat)
    requires Ring(head, nodes) && k <= |nodes|
    requires prev == Circle(head, nodes)[k] && next == Circle(head, nodes)[k + 1]
    requires entry != head && entry !in nodes
    modifies entry, prev, next
    ensures Ring(head, nodes[..k] + [entry] + nodes[k..])
  {
    ghost var nodes' := nodes[..k] + [entry] + nodes[k..];
    ghost var c, c' := Circle(head, nodes), Circle(head, nodes');
    assert c' == c[..k + 1] + [entry] + c[k + 1..];
    next.prev := entry;
    entry.next := next;
    entry.prev := prev;
    prev.next := entry;
    DistinctInsert(head, nodes, entry, k);
    forall i | 0 <= i <= |nodes'| ensures JoinedAt(head, nodes', i) {
      if i < k {
        assert old(JoinedAt(head, nodes, i));
        CircleDistinct(head, nodes, i, k);
        if i != 0 || k < |nodes| { CircleDistinct(head, nodes, i + 1, k + 1); }
      } else if i > k + 1 {
        assert old(JoinedAt(head, nodes, i - 1));
        CircleDistinct(head, nodes, k, i - 1);
        CircleDistinct(head, nodes, k + 1, i);
      }
    }
  }

  lemma DistinctRemove(head: Node, nodes: seq<Node>, k: nat)
    requires Distinct(head, nodes) && k < |nodes|
    ensures Distinct(head, nodes[..k] + nodes[k + 1..]) && nodes[k] !in nodes[..k] + nodes[k + 1..]
  {
  }

  /** list_del: unlink `entry` and poison its links. Unlinking the sentinel leaves the nodes in a circle of their own. */
  method Unlink(entry: Node, ghost head: Node, ghost nodes: seq<Node>, ghost k: nat)
    requires Ring(head, nodes) && nodes != [] && k <= |nodes| && entry == Circle(head, nodes)[k + 1]
    modifies head, nodes
    ensures k < |nodes| ==> Ring(head, nodes[..k] + nodes[k + 1..])
    ensures k == |nodes| ==> nodes[0].prev == nodes[|nodes| - 1] && nodes[|nodes| - 1].next == nodes[0]
    ensures entry.next == null && entry.prev == null
  {
    assert JoinedAt(head, nodes, k) && JoinedAt(head, nodes, if k < |nodes| then k + 1 else 0);
    var next, prev := entry.next, entry.prev;
    next.prev := prev;
    prev.next := next;
    entry.next := null;
    entry.prev := null;
    if k < |nodes| {
      ghost var nodes' := nodes[..k] + nodes[k + 1..];
      ghost var c, c' := Circle(head, nodes), Circle(head, nodes');
      assert c' == c[..k + 1] + c[k + 2..];
      DistinctRemove(head, nodes, k);
      forall i | 0 <= i <= |nodes'| ensures JoinedAt(head, nodes', i) {
        if i < k {
          assert old(JoinedAt(head, nodes, i));
          CircleDistinct(head, nodes, i, k);
          if i != 0 || k + 1 < |nodes| { CircleDistinct(head, nodes, i + 1, k + 2); }
        } else if i > k {
          assert old(JoinedAt(head, nodes, i + 1));
          CircleDistinct(head, nodes, k, i + 1);
          CircleDistinct(head, nodes, k + 2, i + 2);
        }
      }
    }
  }
}
