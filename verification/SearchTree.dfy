/** The ordered tree that src/rbtree/main.c and src/hook/khook.c keep in an rb_root, linked and erased in place.
    The descent loops are theirs. rb_insert_color and the rebalancing end of rb_erase belong to the kernel: they
    may do any finite sequence of rotations, which the caller of each operation supplies. */
module SearchTree {
  import opened TreeShape

  datatype Result = Ok | Exists

  /** One rotation, at the node that the path of turns from the root (false: left) leads to. */
  datatype Rotation = Rotation(turns: seq<bool>, toRight: bool)

  datatype Op<V> =
    | InsertOp(key: int, value: V, rots: seq<Rotation>)
    | DeleteOp(key: int, rots: seq<Rotation>)
    | RotateOp(rots: seq<Rotation>)

  /** What an operation does to the map that the tree denotes. */
  ghost function ApplyOp<V>(m: map<int, V>, op: Op<V>): (r: map<int, V>) {
    match op
    case InsertOp(k, v, _) => if k in m then m else m[k := v]
    case DeleteOp(k, _) => m - {k}
    case RotateOp(_) => m
  }

  ghost function ApplyOps<V>(m: map<int, V>, ops: seq<Op<V>>): (r: map<int, V>)
    decreases ops
  {
    if ops == [] then m else ApplyOps(ApplyOp(m, ops[0]), ops[1..])
  }

  ghost predicate Deletes<V>(op: Op<V>, k: int) {
    op.DeleteOp? && op.key == k
  }

  ghost predicate Inserts<V>(op: Op<V>, k: int) {
    op.InsertOp? && op.key == k
  }

  /** What a run leaves under a key: the value that it had, if it is not deleted; nothing, if it is not there and not
      inserted. */
  lemma {:induction false} KeyKept<V>(m: map<int, V>, ops: seq<Op<V>>, k: int)
    ensures k in m && (forall i :: 0 <= i < |ops| ==> !Deletes(ops[i], k)) ==>
              k in ApplyOps(m, ops) && ApplyOps(m, ops)[k] == m[k]
    ensures k !in m && (forall i :: 0 <= i < |ops| ==> !Inserts(ops[i], k)) ==> k !in ApplyOps(m, ops)
    decreases ops
  {
    if ops != [] {
      KeyKept(ApplyOp(m, ops[0]), ops[1..], k);
      assert forall i :: 0 < i < |ops| ==> ops[i] == ops[1..][i - 1];
    }
  }

  /** The first insert of a key since its last delete settles its value, and a delete that no insert follows its absence:
      whatever else the run does. */
  lemma {:induction false} FirstInsertSettles<V>(m: map<int, V>, ops: seq<Op<V>>, k: int, i: nat)
    requires i < |ops| && (Inserts(ops[i], k) || Deletes(ops[i], k))
    ensures
      var r := ApplyOps(m, ops);
      && (Inserts(ops[i], k) && k !in ApplyOps(m, ops[..i]) && (forall j :: i < j < |ops| ==> !Deletes(ops[j], k)) ==>
            k in r && r[k] == ops[i].value)
      && (Deletes(ops[i], k) && (forall j :: i < j < |ops| ==> !Inserts(ops[j], k)) ==> k !in r)
    decreases ops
  {
    if i == 0 {
      assert ops[..0] == [];
      KeyKept(ApplyOp(m, ops[0]), ops[1..], k);
      assert forall j :: 0 < j < |ops| ==> ops[j] == ops[1..][j - 1];
    } else {
      FirstInsertSettles(ApplyOp(m, ops[0]), ops[1..], k, i - 1);
      assert ops[..i][1..] == ops[1..][..i - 1];
      assert forall j :: 0 < j < |ops| ==> ops[j] == ops[1..][j - 1];
    }
  }

  class Tree<V> {
    var root: RbNode?<V>
    ghost var shape: Shape<V>
    ghost var repr: set<RbNode<V>>

    /** The heap is a tree of the recorded shape, and its keys ascend strictly from left to right. */
    ghost predicate Valid()
      reads this, repr
    {
      Nodes(shape) <= repr && Linked(shape, root) && Ascending(InOrder(shape))
    }

    /** The entries in key order. */
    ghost function Items(): (r: seq<RbNode<V>>)
      reads this
    {
      InOrder(shape)
    }

    /** The map that the tree denotes. */
    ghost function Contents(): (m: map<int, V>)
      reads this
    {
      ToMap(Items())
    }

    /** RB_ROOT. */
    constructor ()
      ensures Valid() && fresh(repr) && Items() == []
    {
      root, shape, repr := null, Leaf, {};
    }

    // -------------------------------------------------------------- the place of a subtree

    /** The link that holds the subtree under the path: the root, or a child link of `parent`. */
    static ghost predicate IsSlot(c: Path<V>, parent: RbNode?<V>, left: bool) {
      match c
      case Top => parent == null
      case InLeft(_, n, _) => parent == n && left
      case InRight(_, n, _) => parent == n && !left
    }

    /** The tree is the path and the subtree at `p`, and the keys are ordered around the place. */
    ghost predicate At(c: Path<V>, sub: Shape<V>, p: RbNode?<V>)
      reads this, repr
    {
      && PathNodes(c) <= repr && Nodes(sub) <= repr && PathNodes(c) !! Nodes(sub)
      && LinkedPath(c, root, p) && Linked(sub, p) && Plug(c, sub) == shape
    }

    /** Write the link under the path, and so hang another subtree there. */
    method SetSlot(parent: RbNode?<V>, left: bool, p: RbNode?<V>, ghost c: Path<V>, ghost was: RbNode?<V>, ghost sub: Shape<V>)
      requires PathNodes(c) <= repr && Nodes(sub) <= repr && PathNodes(c) !! Nodes(sub)
      requires LinkedPath(c, root, was) && Linked(sub, p) && IsSlot(c, parent, left)
      modifies this`root, this`shape, PathNodes(c)
      ensures Nodes(shape) <= repr && Linked(shape, root) && shape == Plug(c, sub) && At(c, sub, p)
      ensures Items() == Before(c) + InOrder(sub) + After(c)
    {
      if parent == null {
        root := p;
      } else if left {
        parent.left := p;
      } else {
        parent.right := p;
      }
      shape := Plug(c, sub);
      PlugLinked(c, sub, root, p);
      PlugInOrder(c, sub);
    }

    // -------------------------------------------------------------- the descent

    /** The loop that insert_node and search_node share: go left or right until the key or a free link is found. */
    method Descend(key: int) returns (parent: RbNode?<V>, left: bool, cur: RbNode?<V>, ghost c: Path<V>, ghost sub: Shape<V>)
      requires Valid()
      ensures At(c, sub, cur) && IsSlot(c, parent, left)
      ensures Items() == Before(c) + InOrder(sub) + After(c)
      ensures Below(Before(c), key) && Above(After(c), key)
      ensures cur != null ==> cur.key == key
    {
      parent, left, cur, c, sub := null, false, root, Top, shape;
      while cur != null && cur.key != key
        invariant At(c, sub, cur) && IsSlot(c, parent, left)
        invariant Items() == Before(c) + InOrder(sub) + After(c)
        invariant Below(Before(c), key) && Above(After(c), key)
        decreases sub
      {
        parent := cur;
        Down(c, sub, cur);
        StepOrder(c, sub, key, key);
        if key < cur.key {
          left := true;
          c, sub := InLeft(c, sub.n, sub.r), sub.l;
          cur := cur.left;
        } else {
          left := false;
          c, sub := InRight(sub.l, sub.n, c), sub.r;
          cur := cur.right;
        }
      }
    }

    /** Below a node the place is its left or its right link. */
    lemma Down(c: Path<V>, sub: Shape<V>, cur: RbNode<V>)
      requires At(c, sub, cur)
      ensures sub.Branch? && sub.n == cur
      ensures At(InLeft(c, sub.n, sub.r), sub.l, cur.left) && At(InRight(sub.l, sub.n, c), sub.r, cur.right)
    {
    }

    /** Going left leaves the node and all to its right above, going right leaves it and all to its left below. */
    static lemma StepOrder(c: Path<V>, sub: Shape<V>, lo: int, hi: int)
      requires sub.Branch? && Ascending(Before(c) + InOrder(sub) + After(c))
      requires Below(Before(c), lo) && Above(After(c), hi)
      ensures
        var c' := InLeft(c, sub.n, sub.r);
        && Before(c) + InOrder(sub) + After(c) == Before(c') + InOrder(sub.l) + After(c')
        && (hi < sub.n.key ==> Below(Before(c'), lo) && Above(After(c'), hi))
      ensures
        var c' := InRight(sub.l, sub.n, c);
        && Before(c) + InOrder(sub) + After(c) == Before(c') + InOrder(sub.r) + After(c')
        && (sub.n.key < lo ==> Below(Before(c'), lo) && Above(After(c'), hi))
    {
      Regroup(Before(c), InOrder(sub.l), sub.n, InOrder(sub.r), After(c));
      DownInOrder(c, sub.l, sub.n, sub.r);
      AroundOrder(Before(c), InOrder(sub.l), sub.n, InOrder(sub.r), After(c), lo, hi);
    }

    static lemma AroundOrder(a: seq<RbNode<V>>, x: seq<RbNode<V>>, n: RbNode<V>, y: seq<RbNode<V>>, b: seq<RbNode<V>>, lo: int, hi: int)
      requires Ascending((a + x) + [n] + (y + b)) && Below(a, lo) && Above(b, hi)
      ensures hi < n.key ==> Above([n] + y + b, hi)
      ensures n.key < lo ==> Below(a + (x + [n]), lo)
    {
      AscendingSplit(a + x, n, y + b);
      assert forall i :: 0 <= i < |y| ==> (y + b)[i] == y[i];
      assert forall i :: 0 <= i < |x| ==> (a + x)[|a| + i] == x[i];
    }

    /** search_node: the node with the key, found exactly when the key is in the map. */
    method Search(key: int) returns (r: RbNode?<V>)
      requires Valid()
      ensures r != null <==> key in Contents()
      ensures r != null ==> r.key == key && r in repr && r in Items() && Contents()[key] == r.value
    {
      var parent, left, cur, c, sub := Descend(key);
      r := cur;
      Found(c, sub, key, Items());
    }

    /** Where the descent ends tells whether the key is present. */
    lemma Found(c: Path<V>, sub: Shape<V>, key: int, all: seq<RbNode<V>>)
      requires all == Before(c) + InOrder(sub) + After(c) && Ascending(all)
      requires Below(Before(c), key) && Above(After(c), key)
      requires sub.Branch? ==> sub.n.key == key
      ensures key in ToMap(all) <==> sub.Branch?
      ensures sub.Branch? ==> sub.n in all && ToMap(all)[key] == sub.n.value
    {
      if sub.Branch? {
        FoundPresent(c, sub, all);
      } else {
        assert all == Before(c) + After(c);
        ToMapApart(Before(c), After(c), key);
      }
    }

    lemma ToMapApart(a: seq<RbNode<V>>, b: seq<RbNode<V>>, key: int)
      requires Below(a, key) && Above(b, key)
      ensures key !in ToMap(a + b)
    {
    }

    /** Taking the found node out of the order takes its key out of the map. */
    lemma FoundPresent(c: Path<V>, sub: Shape<V>, all: seq<RbNode<V>>)
      requires sub.Branch? && all == Before(c) + InOrder(sub) + After(c) && Ascending(all)
      ensures sub.n in all && sub.n.key in ToMap(all) && ToMap(all)[sub.n.key] == sub.n.value
      ensures
        var rest := Before(c) + (InOrder(sub.l) + InOrder(sub.r)) + After(c);
        ToMap(rest) == ToMap(all) - {sub.n.key} && Ascending(rest) && |rest| == |all| - 1
    {
      var a, b := Before(c) + InOrder(sub.l), InOrder(sub.r) + After(c);
      Regroup(Before(c), InOrder(sub.l), sub.n, InOrder(sub.r), After(c));
      AscendingSplit(a, sub.n, b);
      ToMapRemove(a, sub.n, b);
      assert all[|a|] == sub.n;
    }

    // -------------------------------------------------------------- rotations

    /** Whatever rotations a rebalancer makes, the entries and their order stay. */
    method Rebalance(rots: seq<Rotation>)
      requires Valid()
      modifies this, repr
      ensures Valid() && repr == old(repr) && Items() == old(Items())
    {
      for i := 0 to |rots|
        invariant Valid() && repr == old(repr) && Items() == old(Items())
      {
        Rotate(rots[i]);
      }
    }

    /** One rotation; none if the turns lead nowhere or the child to be raised is missing. */
    method Rotate(rot: Rotation)
      requires Valid()
      modifies this, repr
      ensures Valid() && repr == old(repr) && Items() == old(Items())
    {
      var parent, left, cur, c, sub := Follow(rot.turns);
      if cur == null || (if rot.toRight then cur.left else cur.right) == null { return; }
      var top;
      ghost var sub';
      if rot.toRight {
        top, sub' := RotateRight(cur, sub);
      } else {
        top, sub' := RotateLeft(cur, sub);
      }
      SetSlot(parent, left, top, c, cur, sub');
    }

    static method RotateRight(p: RbNode<V>, ghost s: Shape<V>) returns (top: RbNode<V>, ghost s': Shape<V>)
      requires Linked(s, p) && p.left != null
      modifies Nodes(s)
      ensures Linked(s', top) && Nodes(s') == Nodes(s) && InOrder(s') == InOrder(s)
    {
      assert Linked(s.l, p.left);
      ghost var y := s.l;
      s' := Branch(y.l, y.n, Branch(y.r, s.n, s.r));
      top := p.left;
      p.left := top.right;
      top.right := p;
      assert InOrder(s) == InOrder(y.l) + [y.n] + (InOrder(y.r) + [s.n] + InOrder(s.r));
    }

    static method RotateLeft(p: RbNode<V>, ghost s: Shape<V>) returns (top: RbNode<V>, ghost s': Shape<V>)
      requires Linked(s, p) && p.right != null
      modifies Nodes(s)
      ensures Linked(s', top) && Nodes(s') == Nodes(s) && InOrder(s') == InOrder(s)
    {
      assert Linked(s.r, p.right);
      ghost var y := s.r;
      s' := Branch(Branch(s.l, s.n, y.l), y.n, y.r);
      top := p.right;
      p.right := top.left;
      top.left := p;
      assert InOrder(s) == (InOrder(s.l) + [s.n] + InOrder(y.l)) + [y.n] + InOrder(y.r);
    }

    /** Follow turns from the root as far as there are nodes. */
    method Follow(turns: seq<bool>) returns (parent: RbNode?<V>, left: bool, cur: RbNode?<V>, ghost c: Path<V>, ghost sub: Shape<V>)
      requires Valid()
      ensures At(c, sub, cur) && IsSlot(c, parent, left)
      ensures Items() == Before(c) + InOrder(sub) + After(c)
    {
      parent, left, cur, c, sub := null, false, root, Top, shape;
      for i := 0 to |turns|
        invariant At(c, sub, cur) && IsSlot(c, parent, left)
        invariant Items() == Before(c) + InOrder(sub) + After(c)
      {
        if cur == null { return; }
        parent := cur;
        Down(c, sub, cur);
        DownInOrder(c, sub.l, sub.n, sub.r);
        if turns[i] {
          left := false;
          c, sub := InRight(sub.l, sub.n, c), sub.r;
          cur := cur.right;
        } else {
          left := true;
          c, sub := InLeft(c, sub.n, sub.r), sub.l;
          cur := cur.left;
        }
      }
    }

    // -------------------------------------------------------------- insert

    /** insert_node: a present key is left alone; otherwise the new node is linked where the descent ended. */
    method Insert(key: int, value: V, rots: seq<Rotation>) returns (r: Result)
      requires Valid()
      modifies this, repr
      ensures Valid() && fresh(repr - old(repr))
      ensures r == (if key in old(Contents()) then Exists else Ok)
      ensures Contents() == ApplyOp(old(Contents()), InsertOp(key, value, rots))
      ensures r == Exists ==> Items() == old(Items())
    {
      var parent, left, cur, c, sub := Descend(key);
      Found(c, sub, key, Items());
      if cur != null { return Exists; }
      var node := new RbNode(key, value);
      repr := repr + {node};
      LinkNode(parent, left, node, c);
      Rebalance(rots);
      r := Ok;
    }

    /** rb_link_node at the place where the descent ended. */
    method LinkNode(parent: RbNode?<V>, left: bool, node: RbNode<V>, ghost c: Path<V>)
      requires At(c, Leaf, null) && IsSlot(c, parent, left) && Ascending(Items())
      requires Items() == Before(c) + InOrder<V>(Leaf) + After(c)
      requires Below(Before(c), node.key) && Above(After(c), node.key)
      requires node in repr && node !in PathNodes(c) && node.left == null && node.right == null
      modifies this`root, this`shape, PathNodes(c)
      ensures Valid() && Contents() == old(Contents())[node.key := node.value]
    {
      LinkedOrder(c, node, Items());
      SetSlot(parent, left, node, c, null, Branch(Leaf, node, Leaf));
    }

    /** Linking a new node at a free link puts it in order. */
    lemma LinkedOrder(c: Path<V>, node: RbNode<V>, all: seq<RbNode<V>>)
      requires all == Before(c) + InOrder<V>(Leaf) + After(c) && Ascending(all)
      requires Below(Before(c), node.key) && Above(After(c), node.key)
      ensures
        var more := Before(c) + InOrder(Branch(Leaf, node, Leaf)) + After(c);
        Ascending(more) && ToMap(more) == ToMap(all)[node.key := node.value]
    {
      assert all == Before(c) + After(c);
      assert InOrder(Branch(Leaf, node, Leaf)) == [node];
      AscendingJoin(Before(c), node, After(c));
      ToMapInsert(Before(c), node, After(c));
    }

    // -------------------------------------------------------------- erase

    /** Unlink the leftmost node of a subtree. */
    static method TakeLeftmost(p: RbNode<V>, ghost s: Shape<V>) returns (m: RbNode<V>, q: RbNode?<V>, ghost s': Shape<V>)
      requires Linked(s, p)
      modifies Nodes(s)
      ensures InOrder(s) == [m] + InOrder(s') && Linked(s', q)
      ensures Nodes(s) == {m} + Nodes(s') && m !in Nodes(s')
      decreases s
    {
      if p.left == null {
        m, q, s' := p, p.right, s.r;
        assert Linked(s.l, null);
      } else {
        assert Linked(s.r, p.right);
        ghost var low;
        NodesAllocated(s.r);
        m, q, low := TakeLeftmost(p.left, s.l);
        p.left := q;
        q, s' := p, Branch(low, s.n, s.r);
        assert [m] + InOrder(low) + [s.n] + InOrder(s.r) == [m] + (InOrder(low) + [s.n] + InOrder(s.r));
      }
    }

    /** Take the top node of a subtree out: its only child takes its place, or its in-order successor if it has two. */
    static method TakeTop(p: RbNode<V>, ghost s: Shape<V>) returns (rep: RbNode?<V>, ghost s': Shape<V>)
      requires Linked(s, p)
      modifies Nodes(s)
      ensures Linked(s', rep) && Nodes(s') <= Nodes(s) && InOrder(s') == InOrder(s.l) + InOrder(s.r)
    {
      assert Linked(s.l, p.left) && Linked(s.r, p.right);
      if p.left == null {
        rep, s' := p.right, s.r;
      } else if p.right == null {
        rep, s' := p.left, s.l;
      } else {
        rep, s' := RaiseSuccessor(p, s);
      }
    }

    /** With two children the leftmost node on the right takes the place. */
    static method RaiseSuccessor(p: RbNode<V>, ghost s: Shape<V>) returns (m: RbNode<V>, ghost s': Shape<V>)
      requires Linked(s, p) && p.left != null && p.right != null
      modifies Nodes(s.r)
      ensures Linked(s', m) && Nodes(s') <= Nodes(s) && InOrder(s') == InOrder(s.l) + InOrder(s.r)
    {
      assert Linked(s.l, p.left) && Linked(s.r, p.right);
      var q;
      ghost var rest;
      NodesAllocated(s.l);
      m, q, rest := TakeLeftmost(p.right, s.r);
      m.left := p.left;
      m.right := q;
      s' := Branch(s.l, m, rest);
    }

    /** The unlinking part of rb_erase, at the node that the search found. */
    method EraseAt(parent: RbNode?<V>, left: bool, cur: RbNode<V>, ghost c: Path<V>, ghost sub: Shape<V>)
      requires At(c, sub, cur) && sub.Branch? && IsSlot(c, parent, left)
      requires Ascending(Items()) && Items() == Before(c) + InOrder(sub) + After(c)
      modifies this`root, this`shape, Nodes(sub), PathNodes(c)
      ensures Valid() && Contents() == old(Contents()) - {cur.key} && |Items()| == |old(Items())| - 1
    {
      FoundPresent(c, sub, Items());
      var rep, sub' := TakeTop(cur, sub);
      SetSlot(parent, left, rep, c, cur, sub');
    }

    /** rb_erase and the search before it. */
    method Delete(key: int, rots: seq<Rotation>) returns (r: RbNode?<V>)
      requires Valid()
      modifies this, repr
      ensures Valid() && repr == old(repr)
      ensures r != null <==> key in old(Contents())
      ensures r != null ==> r.key == key && r.value == old(Contents())[key] && |Items()| == |old(Items())| - 1
      ensures Contents() == ApplyOp(old(Contents()), DeleteOp(key, rots))
      ensures r == null ==> Items() == old(Items())
    {
      var parent, left, cur, c, sub := Descend(key);
      Found(c, sub, key, Items());
      r := cur;
      if cur == null { return; }
      EraseAt(parent, left, cur, c, sub);
      Rebalance(rots);
    }

    // -------------------------------------------------------------- iteration

    /** rb_first. */
    method First() returns (r: RbNode?<V>)
      requires Valid()
      ensures r == null <==> Items() == []
      ensures r != null ==> r == Items()[0] && r.key in Contents()
    {
      r := root;
      if r == null { return; }
      ghost var c, sub := Top, shape;
      while r.left != null
        invariant r != null && sub.Branch? && At(c, sub, r) && Before(c) == []
        invariant Items() == Before(c) + InOrder(sub) + After(c)
        decreases sub
      {
        DownInOrder(c, sub.l, sub.n, sub.r);
        c, sub := InLeft(c, sub.n, sub.r), sub.l;
        r := r.left;
      }
      assert Linked(sub.l, null);
      assert Items()[0] == r;
    }

    /** rb_next, found again from the root: the first entry behind entry `i`. */
    method Next(key: int, ghost i: nat) returns (r: RbNode?<V>)
      requires Valid() && i < |Items()| && Items()[i].key == key
      ensures r == if i + 1 < |Items()| then Items()[i + 1] else null
    {
      var cur := root;
      r := null;
      ghost var c, sub := Top, shape;
      while cur != null
        invariant At(c, sub, cur) && Narrowed(c, sub, Items(), key, r)
        decreases sub
      {
        Down(c, sub, cur);
        NarrowStep(c, sub, Items(), key, r);
        if key < cur.key {
          c, sub := InLeft(c, sub.n, sub.r), sub.l;
          r := cur;
          cur := cur.left;
        } else {
          c, sub := InRight(sub.l, sub.n, c), sub.r;
          cur := cur.right;
        }
      }
      Border(Before(c), InOrder(sub), After(c), Items(), key, i);
    }

    /** The search for the next entry: what is left of the place is at most the key, what is right of it is greater, and
        `r` is the first of the greater ones. */
    static ghost predicate Narrowed(c: Path<V>, sub: Shape<V>, all: seq<RbNode<V>>, key: int, r: RbNode?<V>) {
      && all == Before(c) + InOrder(sub) + After(c)
      && Below(Before(c), key + 1) && Above(After(c), key)
      && (if After(c) == [] then r == null else r == After(c)[0])
    }

    static lemma NarrowStep(c: Path<V>, sub: Shape<V>, all: seq<RbNode<V>>, key: int, r: RbNode?<V>)
      requires sub.Branch? && Ascending(all) && Narrowed(c, sub, all, key, r)
      ensures key < sub.n.key ==> Narrowed(InLeft(c, sub.n, sub.r), sub.l, all, key, sub.n)
      ensures key >= sub.n.key ==> Narrowed(InRight(sub.l, sub.n, c), sub.r, all, key, r)
    {
      StepOrder(c, sub, key + 1, key);
      assert After(InLeft(c, sub.n, sub.r)) == [sub.n] + (InOrder(sub.r) + After(c));
    }

    /** The last entry that is not above the key is the one with the key. */
    lemma Border(a: seq<RbNode<V>>, x: seq<RbNode<V>>, b: seq<RbNode<V>>, all: seq<RbNode<V>>, key: int, i: nat)
      requires all == a + x + b && x == [] && Ascending(all) && Below(a, key + 1) && Above(b, key)
      requires i < |all| && all[i].key == key
      ensures |a| == i + 1 && all[i + 1..] == b
    {
      assert all == a + b;
      assert forall j :: 0 <= j < |a| ==> all[j] == a[j];
      assert forall j :: |a| <= j < |all| ==> all[j] == b[j - |a|];
      assert i + 1 < |all| ==> all[i + 1].key > key;
    }

    static ghost function Entries(s: seq<RbNode<V>>): (r: seq<(int, V)>)
      ensures |r| == |s| && forall i :: 0 <= i < |r| ==> r[i] == (s[i].key, s[i].value)
    {
      seq(|s|, i requires 0 <= i < |s| => (s[i].key, s[i].value))
    }

    static lemma EntriesNext(s: seq<RbNode<V>>, i: nat)
      requires i < |s|
      ensures Entries(s[..i + 1]) == Entries(s[..i]) + [(s[i].key, s[i].value)]
    {
    }

    static lemma EntriesComplete(s: seq<RbNode<V>>)
      requires Ascending(s)
      ensures forall i, j :: 0 <= i < j < |s| ==> Entries(s)[i].0 < Entries(s)[j].0
      ensures forall k :: k in ToMap(s) <==> exists i :: 0 <= i < |Entries(s)| && Entries(s)[i].0 == k
    {
      forall k | k in ToMap(s) ensures exists i :: 0 <= i < |Entries(s)| && Entries(s)[i].0 == k {
        var j :| 0 <= j < |s| && s[j].key == k;
        assert Entries(s)[j].0 == k;
      }
      forall j | 0 <= j < |s| ensures Entries(s)[j].0 in ToMap(s) {
        assert s[j].key == Entries(s)[j].0;
      }
    }

    /** print_all_entries: every entry once, in strictly ascending key order. */
    method PrintAll() returns (out: seq<(int, V)>)
      requires Valid()
      ensures out == Entries(Items())
      ensures forall i, j :: 0 <= i < j < |out| ==> out[i].0 < out[j].0
      ensures forall k :: k in Contents() <==> exists i :: 0 <= i < |out| && out[i].0 == k
    {
      out := [];
      ghost var i := 0;
      var n := First();
      while n != null
        invariant 0 <= i <= |Items()| && out == Entries(Items()[..i])
        invariant n == if i < |Items()| then Items()[i] else null
        decreases |Items()| - i
      {
        EntriesNext(Items(), i);
        out := out + [(n.key, n.value)];
        n := Next(n.key, i);
        i := i + 1;
      }
      assert Items()[..i] == Items();
      EntriesComplete(Items());
    }

    lemma EmptyShape()
      requires Valid()
      ensures root == null <==> Items() == []
    {
      InOrderNodes(shape);
    }

    /** The drain loop of end_exit and probe_pool_clear ends, and ends with the empty tree. `balance` is what rb_erase
        does to rebalance in each round. */
    method Drain(balance: nat -> seq<Rotation>)
      requires Valid()
      modifies this, repr
      ensures Valid() && repr == old(repr) && Items() == [] && root == null
    {
      var round := 0;
      var n := First();
      while n != null
        invariant Valid() && repr == old(repr)
        invariant n == null <==> Items() == []
        invariant n != null ==> n.key in Contents()
        decreases |Items()|
      {
        var gone := Delete(n.key, balance(round));
        round := round + 1;
        n := First();
      }
      EmptyShape();
    }

    // -------------------------------------------------------------- runs

    /** Any finite sequence of inserts, deletes and rotations refines the map: the tree stays ordered, and it denotes what
        the operations do to a finite map. */
    method Perform(ops: seq<Op<V>>)
      requires Valid()
      modifies this, repr
      ensures Valid() && fresh(repr - old(repr))
      ensures Contents() == ApplyOps(old(Contents()), ops)
    {
      ghost var start := Contents();
      for i := 0 to |ops|
        invariant Valid() && fresh(repr - old(repr))
        invariant ApplyOps(Contents(), ops[i..]) == ApplyOps(start, ops)
      {
        assert ops[i..][0] == ops[i] && ops[i..][1..] == ops[i + 1..];
        match ops[i]
        case InsertOp(k, v, rots) => var r := Insert(k, v, rots);
        case DeleteOp(k, rots) => var gone := Delete(k, rots);
        case RotateOp(rots) => Rebalance(rots);
      }
    }
  }
}
