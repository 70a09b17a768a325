/** The pool of src/hook/khook.c: the ordered tree behind a spin lock. Each method is one locked section. */
module ProbePool {
  import opened Options
  import SearchTree
  import opened TreeShape
  import opened ProbeProtocol

  class ProbePool<P> {
    const tree: SearchTree.Tree<P>

    ghost predicate Valid()
      reads this, tree, tree.repr
    {
      tree.Valid()
    }

    ghost function Held(): (m: map<int, P>)
      reads this, tree
    {
      tree.Contents()
    }

    /** probe_pool_init. */
    constructor ()
      ensures Valid() && fresh(tree) && fresh(tree.repr) && Held() == map[]
    {
      tree := new SearchTree.Tree<P>();
    }

    /** insert_params: what insert_node says is not passed on. */
    method InsertParams(key: int, params: P, rots: seq<SearchTree.Rotation>)
      requires Valid()
      modifies tree, tree.repr
      ensures Valid() && fresh(tree.repr - old(tree.repr))
      ensures Held() == if key in old(Held()) then old(Held()) else old(Held())[key := params]
    {
      var ignored := tree.Insert(key, params, rots);
    }

    /** pop_params. */
    method PopParams(key: int, rots: seq<SearchTree.Rotation>) returns (r: Option<P>)
      requires Valid()
      modifies tree, tree.repr
      ensures Valid() && tree.repr == old(tree.repr)
      ensures r == Given(old(Held()), key) && Held() == old(Held()) - {key}
    {
      var entry := tree.Delete(key, rots);
      r := if entry == null then None else Some(entry.value);
    }

    /** probe_pool_clear. */
    method Clear(balance: nat -> seq<SearchTree.Rotation>)
      requires Valid()
      modifies tree, tree.repr
      ensures Valid() && tree.repr == old(tree.repr) && Held() == map[] && tree.root == null
    {
      tree.Drain(balance);
    }

    /** entry_handler. */
    method OnEntry(ri: int, hasRegs: bool, params: Option<P>, rots: seq<SearchTree.Rotation>)
      requires Valid()
      modifies tree, tree.repr
      ensures Valid() && fresh(tree.repr - old(tree.repr))
      ensures Held() == Handle(old(Held()), Enter(ri, hasRegs, params))
    {
      if !hasRegs { return; }
      if params.Some? && ri > 0 {
        InsertParams(ri, params.value, rots);
      }
    }

    /** A whole run of handler calls on an empty pool, with any rebalancing: the pool and what the returns get are what
        the protocol says. */
    method Serve(events: seq<Event<P>>, balance: nat -> seq<SearchTree.Rotation>) returns (outs: seq<Option<P>>)
      requires Valid() && Held() == map[]
      modifies tree, tree.repr
      ensures Valid() && Held() == Pool(events) && outs == Outputs(events)
    {
      outs := [];
      for i := 0 to |events|
        invariant Valid() && fresh(tree.repr - old(tree.repr))
        invariant Held() == Pool(events[..i]) && outs == Outputs(events[..i])
      {
        assert events[..i + 1][..i] == events[..i];
        match events[i]
        case Enter(ri, hasRegs, params) =>
          OnEntry(ri, hasRegs, params, balance(i));
        case Return(ri) =>
          var r := PopParams(ri, balance(i));
          outs := outs + [r];
      }
      assert events[..|events|] == events;
    }
  }
}
