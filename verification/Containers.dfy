/** LinkList, Queue and Stack of src/list/container.c on the heap. The three structs have the same fields and
    share their operations: push at the back (LinkList, Queue), push at the front (Stack), pop at the front. */
module Containers {
  import opened Options
  import opened ListRing
  import Spec = ContainerSpec

  class Container {
    const head: Node
    var count: nat
    ghost var nodes: seq<Node>
    ghost var repr: set<Node>

    /** The heap from the sentinel on is a circle through exactly `nodes`. */
    ghost predicate Valid()
      reads this, repr
    {
      head in repr && (forall n :: n in nodes ==> n in repr) && Ring(head, nodes)
    }

    ghost function Model(): (m: Spec.Model)
      reads this
    {
      Spec.Live(Values(nodes), count)
    }

    /** add_link_list, add_queue, add_stack. */
    constructor ()
      ensures Valid() && fresh(repr) && Model() == Spec.Live([], 0)
    {
      head := new Node(0);
      count := 0;
      nodes := [];
      repr := {head};
      new;
      assert JoinedAt(head, nodes, 0);
    }

    /** link_list_push, enqueue. */
    method PushBack(v: int32)
      requires Valid()
      modifies this, repr
      ensures Valid() && Model() == Spec.PushBack(old(Model()), v)
      ensures fresh(repr - old(repr))
    {
      var node := new Node(v);
      repr := repr + {node};
      assert JoinedAt(head, nodes, |nodes|);
      Link(node, head.prev, head, head, nodes, |nodes|);
      nodes := nodes[..|nodes|] + [node] + nodes[|nodes|..];
      count := count + 1;
      assert Values(nodes) == old(Values(nodes)) + [v];
    }

    /** add_node and list_add: a new node behind the one at place `at` of the circle. */
    method AddAfter(place: Node, v: int32, ghost at: nat)
      requires Valid() && at <= |nodes| && place == Circle(head, nodes)[at]
      modifies this`nodes, this`repr, repr
      ensures Valid() && fresh(repr - old(repr))
      ensures Values(nodes) == old(Values(nodes))[..at] + [v] + old(Values(nodes))[at..]
    {
      var node := new Node(v);
      repr := repr + {node};
      assert JoinedAt(head, nodes, at);
      Link(node, place, place.next, head, nodes, at);
      nodes := nodes[..at] + [node] + nodes[at..];
    }

    /** stack_push. */
    method PushFront(v: int32)
      requires Valid()
      modifies this, repr
      ensures Valid() && Model() == Spec.PushFront(old(Model()), v)
      ensures fresh(repr - old(repr))
    {
      AddAfter(head, v, 0);
      count := count + 1;
      assert Values(nodes) == [v] + old(Values(nodes));
    }

    /** list_empty. */
    method IsEmpty() returns (b: bool)
      requires Valid()
      ensures b <==> nodes == []
    {
      assert JoinedAt(head, nodes, 0);
      b := head.next == head;
    }

    static lemma ValuesRest(ns: seq<Node>)
      requires ns != []
      ensures Values(ns[..0] + ns[1..]) == Values(ns)[1..] && Values(ns)[0] == ns[0].value
    {
    }

    /** link_list_pop, dequeue, stack_pop. */
    method PopFront() returns (r: Option<int32>)
      requires Valid()
      modifies this, repr
      ensures Valid() && Model() == Spec.PopFront(old(Model())) && r == Spec.Popped(old(Model()))
      ensures repr == old(repr)
    {
      var empty := IsEmpty();
      if count == 0 || empty { return None; }
      assert JoinedAt(head, nodes, 0);
      var ptr := head.next;
      Unlink(ptr, head, nodes, 0);
      ValuesRest(nodes);
      nodes := nodes[..0] + nodes[1..];
      count := count - 1;
      r := Some(ptr.value);
    }

    /** link_list_get. */
    method Get(index: int) returns (r: Option<int32>)
      requires Valid()
      ensures r == Spec.Get(Model(), index)
    {
      var empty := IsEmpty();
      if count == 0 || empty || index >= count { return None; }
      assert JoinedAt(head, nodes, 0);
      var pos := head.next;
      var i := index;
      ghost var k := 0;
      r := None;
      while pos != head
        invariant 0 <= k <= |nodes| && i == index - k
        invariant pos == Circle(head, nodes)[k + 1]
        invariant pos == head <==> k == |nodes|
        invariant 0 < k ==> r == Some(nodes[k - 1].value)
        invariant 0 <= index ==> k <= index
        decreases |nodes| - k
      {
        r := Some(pos.value);
        if i == 0 { break; }
        i := i - 1;
        assert JoinedAt(head, nodes, k + 1);
        pos := pos.next;
        k := k + 1;
      }
    }

    /** link_list_insert. */
    method Insert(index: int, v: int32)
      requires Valid()
      modifies this, repr
      ensures Valid() && Model() == Spec.Insert(old(Model()), index, v)
      ensures fresh(repr - old(repr))
    {
      var empty := IsEmpty();
      if count == 0 || empty || index >= count { return; }
      var pos, idx, k := Walk(index);
      if pos != head {
        AddAfter(idx, v, if k + 1 < |nodes| then k + 2 else 0);
      }
    }

    /** The list_for_each_safe walk of insert and remove: it stops at the node with the index, or back at the
        sentinel when there is none. `idx` is the node after `pos`. */
    method Walk(index: int) returns (pos: Node, idx: Node, ghost k: nat)
      requires Valid()
      ensures 0 <= index < |nodes| ==> k == index && pos == nodes[k] && pos != head && idx == Circle(head, nodes)[k + 2]
      ensures !(0 <= index < |nodes|) ==> pos == head
    {
      assert JoinedAt(head, nodes, 0);
      pos := head.next;
      k := 0;
      assert pos != head ==> JoinedAt(head, nodes, 1);
      idx := if pos == head then head else pos.next;
      var i := index;
      while pos != head
        invariant 0 <= k <= |nodes| && i == index - k
        invariant pos == Circle(head, nodes)[k + 1]
        invariant pos == head <==> k == |nodes|
        invariant pos != head ==> idx == Circle(head, nodes)[k + 2]
        invariant 0 <= index ==> k <= index
        decreases |nodes| - k
      {
        if i == 0 { return; }
        i := i - 1;
        pos := idx;
        k := k + 1;
        if pos != head {
          assert JoinedAt(head, nodes, k + 1);
          idx := pos.next;
        }
      }
    }

    /** link_list_remove. When the walk stops at the last node, what is unlinked is the sentinel: the container is
        poisoned, and its nodes close up into a circle that it no longer reaches. */
    method Remove(index: int)
      requires Valid()
      modifies this, repr
      ensures Spec.Remove(old(Model()), index).Live? ==> Valid() && Model() == Spec.Remove(old(Model()), index)
      ensures Spec.Remove(old(Model()), index).Poisoned? ==>
                && head.next == null && head.prev == null && nodes == old(nodes) && count == old(count)
                && nodes[0].prev == nodes[|nodes| - 1] && nodes[|nodes| - 1].next == nodes[0]
      ensures repr == old(repr)
    {
      var empty := IsEmpty();
      if count == 0 || empty || index >= count { return; }
      var pos, idx, k := Walk(index);
      if pos != head {
        Unlink(idx, head, nodes, k + 1);
        if k + 1 < |nodes| {
          nodes := nodes[..k + 1] + nodes[k + 2..];
          assert Values(nodes) == old(Values(nodes))[..k + 1] + old(Values(nodes))[k + 2..];
        }
      }
    }

    /** The loop of del_link_list, del_queue and del_stack. */
    method UnlinkAll()
      requires Valid()
      modifies this, repr
      ensures Valid() && nodes == [] && count == old(count)
    {
      assert JoinedAt(head, nodes, 0);
      var pos := head.next;
      while pos != head
        invariant Valid() && pos == Circle(head, nodes)[1]
        invariant repr == old(repr)
        invariant count == old(count)
        decreases |nodes|
      {
        assert nodes != [];
        assert JoinedAt(head, nodes, 1);
        var idx := pos.next;
        Unlink(pos, head, nodes, 0);
        nodes := nodes[..0] + nodes[1..];
        pos := idx;
      }
    }

    /** One call that does not unlink the sentinel. */
    method Do(op: Spec.Op) returns (out: seq<int32>)
      requires Valid() && Spec.Apply(Model(), op).Live?
      modifies this, repr
      ensures Valid() && fresh(repr - old(repr))
      ensures Model() == Spec.Apply(old(Model()), op) && out == Spec.Output(old(Model()), op)
    {
      out := [];
      match op
      case Back(v) => PushBack(v);
      case Front(v) => PushFront(v);
      case Pop =>
        var r := PopFront();
        if r.Some? { out := [r.value]; }
      case InsertAt(index, v) => Insert(index, v);
      case RemoveAt(index) => Remove(index);
    }

    /** Any run of calls that does not unlink the sentinel: the heap stays a circle that refines the model, and the pops
        hand out what the model says. */
    method Perform(ops: seq<Spec.Op>) returns (outs: seq<int32>)
      requires Valid() && Spec.Run(Model(), ops).Live?
      modifies this, repr
      ensures Valid() && Model() == Spec.Run(old(Model()), ops)
      ensures outs == Spec.Outputs(old(Model()), ops)
    {
      outs := [];
      ghost var start := Model();
      for i := 0 to |ops|
        invariant Valid() && fresh(repr - old(repr))
        invariant Spec.Run(Model(), ops[i..]) == Spec.Run(start, ops)
        invariant outs + Spec.Outputs(Model(), ops[i..]) == Spec.Outputs(start, ops)
      {
        assert ops[i..][0] == ops[i] && ops[i..][1..] == ops[i + 1..];
        if Spec.Apply(Model(), ops[i]).Poisoned? { Spec.StaysPoisoned(ops[i + 1..]); }
        var out := Do(ops[i]);
        outs := outs + out;
      }
    }
  }
}
