/** Binary trees on the heap: the shape of a tree as a value, the path from the root to a place in it, and
    what it means that the heap has that shape. */
module TreeShape {

  /** An rb_node with the key and the payload of the entry that embeds it. */
  class RbNode<V> {
    const key: int
    const value: V
    var left: RbNode?<V>
    var right: RbNode?<V>

    constructor (k: int, v: V)
      ensures key == k && value == v && left == null && right == null
    {
      key, value, left, right := k, v, null, null;
    }
  }

  datatype Shape<V> = Leaf | Branch(l: Shape<V>, n: RbNode<V>, r: Shape<V>)

  /** A tree with one subtree missing: the path from that place up to the root. */
  datatype Path<V> = Top | InLeft(up: Path<V>, n: RbNode<V>, r: Shape<V>) | InRight(l: Shape<V>, n: RbNode<V>, up: Path<V>)

  ghost function Nodes<V>(s: Shape<V>): (r: set<RbNode<V>>) {
    match s
    case Leaf => {}
    case Branch(l, n, r) => Nodes(l) + {n} + Nodes(r)
  }

  ghost function PathNodes<V>(c: Path<V>): (r: set<RbNode<V>>) {
    match c
    case Top => {}
    case InLeft(up, n, r) => PathNodes(up) + {n} + Nodes(r)
    case InRight(l, n, up) => Nodes(l) + {n} + PathNodes(up)
  }

  ghost function Plug<V>(c: Path<V>, s: Shape<V>): (r: Shape<V>)
    decreases c
  {
    match c
    case Top => s
    case InLeft(up, n, r) => Plug(up, Branch(s, n, r))
    case InRight(l, n, up) => Plug(up, Branch(l, n, s))
  }

  /** The heap from `p` on is a tree of this shape, without sharing. */
  ghost predicate Linked<V>(s: Shape<V>, p: RbNode?<V>)
    reads Nodes(s)
  {
    match s
    case Leaf => p == null
    case Branch(l, n, r) =>
      p == n && n !in Nodes(l) && n !in Nodes(r) && Nodes(l) !! Nodes(r) && Linked(l, n.left) && Linked(r, n.right)
  }

  /** The heap along the path is as the path says, and what hangs at its lower end is `p`. */
  ghost predicate LinkedPath<V>(c: Path<V>, root: RbNode?<V>, p: RbNode?<V>)
    reads PathNodes(c)
  {
    match c
    case Top => root == p
    case InLeft(up, n, r) =>
      && n !in Nodes(r) && n !in PathNodes(up) && Nodes(r) !! PathNodes(up)
      && n.left == p && Linked(r, n.right) && LinkedPath(up, root, n)
    case InRight(l, n, up) =>
      && n !in Nodes(l) && n !in PathNodes(up) && Nodes(l) !! PathNodes(up)
      && n.right == p && Linked(l, n.left) && LinkedPath(up, root, n)
  }

  lemma {:induction false} NodesAllocated<V>(s: Shape<V>)
    ensures forall n :: n in Nodes(s) ==> allocated(n)
  {
    match s
    case Leaf =>
    case Branch(l, n, r) => NodesAllocated(l); NodesAllocated(r);
  }

  /** Path and subtree together are the whole tree. */
  lemma {:induction false} PlugLinked<V>(c: Path<V>, s: Shape<V>, root: RbNode?<V>, p: RbNode?<V>)
    requires LinkedPath(c, root, p) && Linked(s, p) && Nodes(s) !! PathNodes(c)
    ensures Linked(Plug(c, s), root) && Nodes(Plug(c, s)) == PathNodes(c) + Nodes(s)
    decreases c
  {
    match c
    case Top =>
    case InLeft(up, n, r) => PlugLinked(up, Branch(s, n, r), root, n);
    case InRight(l, n, up) => PlugLinked(up, Branch(l, n, s), root, n);
  }

  // ---------------------------------------------------------------- order

  ghost function InOrder<V>(s: Shape<V>): (r: seq<RbNode<V>>) {
    match s
    case Leaf => []
    case Branch(l, n, r) => InOrder(l) + [n] + InOrder(r)
  }

  ghost function Before<V>(c: Path<V>): (r: seq<RbNode<V>>) {
    match c
    case Top => []
    case InLeft(up, n, r) => Before(up)
    case InRight(l, n, up) => Before(up) + (InOrder(l) + [n])
  }

  ghost function After<V>(c: Path<V>): (r: seq<RbNode<V>>) {
    match c
    case Top => []
    case InLeft(up, n, r) => [n] + InOrder(r) + After(up)
    case InRight(l, n, up) => After(up)
  }

  lemma Regroup<T>(a: seq<T>, x: seq<T>, n: T, y: seq<T>, b: seq<T>)
    ensures a + (x + [n] + y) + b == a + x + ([n] + y + b)
    ensures a + (x + [n] + y) + b == (a + (x + [n])) + y + b
    ensures a + (x + [n] + y) + b == (a + x) + [n] + (y + b)
    ensures (a + x) + (y + b) == a + (x + y) + b
  {
  }

  /** Looked at one level further down, the order of the nodes is the same. */
  lemma DownInOrder<V>(c: Path<V>, l: Shape<V>, n: RbNode<V>, r: Shape<V>)
    ensures
      var all := Before(c) + InOrder(Branch(l, n, r)) + After(c);
      && all == Before(InLeft(c, n, r)) + InOrder(l) + After(InLeft(c, n, r))
      && all == Before(InRight(l, n, c)) + InOrder(r) + After(InRight(l, n, c))
  {
    Regroup(Before(c), InOrder(l), n, InOrder(r), After(c));
  }

  lemma {:induction false} PlugInOrder<V>(c: Path<V>, s: Shape<V>)
    ensures InOrder(Plug(c, s)) == Before(c) + InOrder(s) + After(c)
    decreases c
  {
    match c
    case Top =>
    case InLeft(up, n, r) =>
      PlugInOrder(up, Branch(s, n, r));
      DownInOrder(up, s, n, r);
    case InRight(l, n, up) =>
      PlugInOrder(up, Branch(l, n, s));
      DownInOrder(up, l, n, s);
  }

  lemma {:induction false} InOrderNodes<V>(s: Shape<V>)
    ensures forall n :: n in InOrder(s) <==> n in Nodes(s)
  {
    match s
    case Leaf =>
    case Branch(l, n, r) => InOrderNodes(l); InOrderNodes(r);
  }

  ghost predicate Ascending<V>(s: seq<RbNode<V>>) {
    forall i, j :: 0 <= i < j < |s| ==> s[i].key < s[j].key
  }

  ghost predicate Below<V>(s: seq<RbNode<V>>, key: int) {
    forall i :: 0 <= i < |s| ==> s[i].key < key
  }

  ghost predicate Above<V>(s: seq<RbNode<V>>, key: int) {
    forall i :: 0 <= i < |s| ==> s[i].key > key
  }

  /** What an ascending sequence says about a node in it. */
  lemma AscendingSplit<V>(a: seq<RbNode<V>>, n: RbNode<V>, b: seq<RbNode<V>>)
    requires Ascending(a + [n] + b)
    ensures Below(a, n.key) && Above(b, n.key) && Ascending(a + b)
  {
    AscendingParts(a, n, b);
    AscendingCut(a, n, b);
  }

  lemma AscendingCut<V>(a: seq<RbNode<V>>, n: RbNode<V>, b: seq<RbNode<V>>)
    requires Ascending(a + [n] + b)
    ensures Ascending(a + b)
  {
    var s := a + [n] + b;
    forall i, j | 0 <= i < j < |a + b| ensures (a + b)[i].key < (a + b)[j].key {
      var k, m := if i < |a| then i else i + 1, if j < |a| then j else j + 1;
      assert s[k] == (a + b)[i] && s[m] == (a + b)[j];
    }
  }

  lemma AscendingParts<V>(a: seq<RbNode<V>>, n: RbNode<V>, b: seq<RbNode<V>>)
    requires Ascending(a + [n] + b)
    ensures Below(a, n.key) && Above(b, n.key)
  {
    var s := a + [n] + b;
    assert s[|a|] == n;
    forall i | 0 <= i < |a| ensures a[i].key < n.key && s[i] == a[i] { assert s[i].key < s[|a|].key; }
    forall i | 0 <= i < |b| ensures b[i].key > n.key && s[|a| + 1 + i] == b[i] {
      assert s[|a|].key < s[|a| + 1 + i].key;
    }
  }

  lemma AscendingJoin<V>(a: seq<RbNode<V>>, n: RbNode<V>, b: seq<RbNode<V>>)
    requires Ascending(a + b) && Below(a, n.key) && Above(b, n.key)
    ensures Ascending(a + [n] + b)
  {
    assert forall i :: 0 <= i < |a| ==> (a + b)[i] == a[i];
    assert forall i :: 0 <= i < |b| ==> (a + b)[|a| + i] == b[i];
  }

  // ---------------------------------------------------------------- the map

  /** The finite map that a sequence of entries denotes. */
  ghost function ToMap<V>(s: seq<RbNode<V>>): (m: map<int, V>)
    ensures forall k :: k in m <==> exists i :: 0 <= i < |s| && s[i].key == k
  {
    if s == [] then map[]
    else
      var m := ToMap(s[1..])[s[0].key := s[0].value];
      assert forall i :: 0 <= i < |s| ==> i == 0 || s[1..][i - 1] == s[i];
      assert forall k :: k in ToMap(s[1..]) ==> exists i :: 0 <= i < |s| && s[i].key == k by {
        forall k | k in ToMap(s[1..]) ensures exists i :: 0 <= i < |s| && s[i].key == k {
          var i :| 0 <= i < |s[1..]| && s[1..][i].key == k;
          assert s[i + 1].key == k;
        }
      }
      m
  }

  lemma NotInMap<V>(s: seq<RbNode<V>>, key: int)
    requires Below(s, key) || Above(s, key)
    ensures key !in ToMap(s)
  {
  }

  lemma InsertTail<T>(a: seq<T>, n: T, b: seq<T>)
    requires a != []
    ensures (a + [n] + b)[0] == a[0] && (a + [n] + b)[1..] == a[1..] + [n] + b
    ensures (a + b)[0] == a[0] && (a + b)[1..] == a[1..] + b
  {
  }

  lemma {:induction false} ToMapInsert<V>(a: seq<RbNode<V>>, n: RbNode<V>, b: seq<RbNode<V>>)
    requires Below(a, n.key) && Above(b, n.key)
    ensures ToMap(a + [n] + b) == ToMap(a + b)[n.key := n.value] && n.key !in ToMap(a + b)
  {
    if a == [] {
      assert a + [n] + b == [n] + b && ([n] + b)[1..] == b && a + b == b;
      NotInMap(b, n.key);
    } else {
      ToMapInsert(a[1..], n, b);
      InsertTail(a, n, b);
    }
  }

  lemma ToMapRemove<V>(a: seq<RbNode<V>>, n: RbNode<V>, b: seq<RbNode<V>>)
    requires Below(a, n.key) && Above(b, n.key)
    ensures ToMap(a + b) == ToMap(a + [n] + b) - {n.key}
    ensures n.key in ToMap(a + [n] + b) && ToMap(a + [n] + b)[n.key] == n.value
  {
    ToMapInsert(a, n, b);
  }
}
