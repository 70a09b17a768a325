/** What the containers of src/list/container.c do to the sequence of their values, and what follows for
    whole runs of calls. */
module ContainerSpec {
  import opened Options
  import opened ListRing
  import opened Bytes

  /** The values from the sentinel on and the separate `count` field. A container whose sentinel has been
      unlinked is poisoned: its links lead nowhere. */
  datatype Model = Live(items: seq<int32>, count: nat) | Poisoned

  /** link_list_push, enqueue. */
  function PushBack(m: Model, v: int32): (r: Model) {
    if m.Poisoned? then m else Live(m.items + [v], m.count + 1)
  }

  /** stack_push. */
  function PushFront(m: Model, v: int32): (r: Model) {
    if m.Poisoned? then m else Live([v] + m.items, m.count + 1)
  }

  /** The guard that every other operation starts with. */
  predicate HasItems(m: Model) {
    m.Live? && m.count != 0 && m.items != []
  }

  /** link_list_pop, dequeue, stack_pop. */
  function PopFront(m: Model): (r: Model) {
    if HasItems(m) then Live(m.items[1..], m.count - 1) else m
  }

  function Popped(m: Model): (r: Option<int32>) {
    if HasItems(m) then Some(m.items[0]) else None
  }

  /** The walk of insert and remove stops at a node. */
  predicate Effective(m: Model, index: int) {
    HasItems(m) && 0 <= index < m.count && index < |m.items|
  }

  /** link_list_insert, as coded: the new value goes after the successor of the indexed node. */
  function Insert(m: Model, index: int, v: int32): (r: Model) {
    if !Effective(m, index) then m
    else if index + 1 < |m.items| then m.(items := m.items[..index + 2] + [v] + m.items[index + 2..])
    else m.(items := [v] + m.items)
  }

  /** link_list_remove, as coded: the successor of the indexed node goes, and the successor of the last node is
      the sentinel. */
  function Remove(m: Model, index: int): (r: Model) {
    if !Effective(m, index) then m
    else if index + 1 < |m.items| then m.(items := m.items[..index + 1] + m.items[index + 2..])
    else Poisoned
  }

  /** link_list_get, as coded: an index that the walk does not reach gives the last value. */
  function Get(m: Model, index: int): (r: Option<int32>) {
    if !HasItems(m) || index >= m.count then None
    else if 0 <= index < |m.items| then Some(m.items[index])
    else Some(m.items[|m.items| - 1])
  }

  // ---------------------------------------------------------------- runs

  datatype Op = Back(v: int32) | Front(v: int32) | Pop | InsertAt(index: int, v: int32) | RemoveAt(index: int)

  function Apply(m: Model, op: Op): (r: Model) {
    match op
    case Back(v) => PushBack(m, v)
    case Front(v) => PushFront(m, v)
    case Pop => PopFront(m)
    case InsertAt(i, v) => Insert(m, i, v)
    case RemoveAt(i) => Remove(m, i)
  }

  function Output(m: Model, op: Op): (r: seq<int32>) {
    if op.Pop? && HasItems(m) then [m.items[0]] else []
  }

  function Run(m: Model, ops: seq<Op>): (r: Model)
    decreases ops
  {
    if ops == [] then m else Run(Apply(m, ops[0]), ops[1..])
  }

  /** Everything that the pops of a run hand out, in order. */
  function Outputs(m: Model, ops: seq<Op>): (r: seq<int32>)
    decreases ops
  {
    if ops == [] then [] else Output(m, ops[0]) + Outputs(Apply(m, ops[0]), ops[1..])
  }

  /** Everything that is pushed at the back, in order. */
  function Pushed(ops: seq<Op>): (r: seq<int32>) {
    if ops == [] then [] else (if ops[0].Back? then [ops[0].v] else []) + Pushed(ops[1..])
  }

  ghost predicate QueueRun(ops: seq<Op>) {
    forall i :: 0 <= i < |ops| ==> ops[i].Back? || ops[i].Pop?
  }

  ghost predicate StackRun(ops: seq<Op>) {
    forall i :: 0 <= i < |ops| ==> ops[i].Front? || ops[i].Pop?
  }

  /** Queue and LinkList are first in, first out over every run of pushes and pops: what has been popped followed by
      what is left is what was there followed by what was pushed. The count is the number of nodes. */
  lemma {:induction false} QueueOrder(m: Model, ops: seq<Op>)
    requires QueueRun(ops) && m.Live? && m.count == |m.items|
    ensures
      var r := Run(m, ops);
      && r.Live? && r.count == |r.items|
      && Outputs(m, ops) + r.items == m.items + Pushed(ops)
    decreases ops
  {
    if ops != [] {
      assert ops[0].Back? || ops[0].Pop?;
      QueueOrder(Apply(m, ops[0]), ops[1..]);
      var next := Apply(m, ops[0]);
      var rest, items := Outputs(next, ops[1..]), Run(next, ops[1..]).items;
      Assoc(Output(m, ops[0]), rest, items);
      if ops[0].Back? {
        Assoc(m.items, [ops[0].v], Pushed(ops[1..]));
      } else {
        assert m.items == Output(m, ops[0]) + next.items;
        Assoc(Output(m, ops[0]), next.items, Pushed(ops[1..]));
      }
    }
  }

  /** Pushes minus pops. */
  function Height(ops: seq<Op>): (r: int) {
    if ops == [] then 0 else (if ops[0].Front? then 1 else -1) + Height(ops[1..])
  }

  /** A stack run that never pops below the level where it started. */
  ghost predicate StaysAbove(ops: seq<Op>) {
    StackRun(ops) && forall i :: 0 <= i <= |ops| ==> Height(ops[..i]) >= 0
  }

  lemma {:induction false} HeightConcat(xs: seq<Op>, ys: seq<Op>)
    ensures Height(xs + ys) == Height(xs) + Height(ys)
  {
    if xs == [] {
      assert xs + ys == ys;
    } else {
      assert (xs + ys)[1..] == xs[1..] + ys;
      HeightConcat(xs[1..], ys);
    }
  }

  lemma {:induction false} RunConcat(m: Model, xs: seq<Op>, ys: seq<Op>)
    ensures Run(m, xs + ys) == Run(Run(m, xs), ys)
    ensures Outputs(m, xs + ys) == Outputs(m, xs) + Outputs(Run(m, xs), ys)
    decreases xs
  {
    if xs == [] {
      assert xs + ys == ys;
    } else {
      assert (xs + ys)[1..] == xs[1..] + ys;
      RunConcat(Apply(m, xs[0]), xs[1..], ys);
    }
  }

  /** A run that stays above its starting level leaves everything below that level alone. */
  lemma {:induction false} StackKeepsBelow(m: Model, ops: seq<Op>)
    requires StaysAbove(ops) && m.Live? && m.count == |m.items|
    ensures
      var r := Run(m, ops);
      && r.Live? && r.count == |r.items| == |m.items| + Height(ops)
      && Height(ops) >= 0 && r.items[Height(ops)..] == m.items
    decreases |ops|
  {
    if ops != [] {
      var front, op := ops[..|ops| - 1], ops[|ops| - 1];
      assert ops == front + [op];
      assert forall i :: 0 <= i <= |front| ==> front[..i] == ops[..i];
      StackKeepsBelow(m, front);
      RunConcat(m, front, [op]);
      HeightConcat(front, [op]);
      assert ops[..|ops|] == ops;
      assert Height([op]) == (if op.Front? then 1 else -1) + Height([]);
      assert op.Front? || op.Pop?;
      assert Run(Run(m, front), [op]) == Apply(Run(m, front), op);
    }
  }

  /** Stack is last in, first out: whatever stays above the pushed value in between, the matching pop hands out
      that value and leaves the stack as it was before the push. */
  lemma StackOrder(m: Model, v: int32, ops: seq<Op>)
    requires StaysAbove(ops) && Height(ops) == 0 && m.Live? && m.count == |m.items|
    ensures
      var run := [Front(v)] + ops + [Pop];
      Run(m, run) == m && Outputs(m, run) == Outputs(PushFront(m, v), ops) + [v]
  {
    var m1 := PushFront(m, v);
    StackKeepsBelow(m1, ops);
    var m2 := Run(m1, ops);
    RunConcat(m, [Front(v)], ops);
    RunConcat(m, [Front(v)] + ops, [Pop]);
    assert m2.items == m1.items;
    assert Run(m2, [Pop]) == Apply(m2, Pop);
    assert Outputs(m2, [Pop]) == Output(m2, Pop) + Outputs(Apply(m2, Pop), []);
    assert Outputs(m, [Front(v)]) == [];
    assert Run(m, [Front(v)]) == m1;
  }

  // ---------------------------------------------------------------- insert and remove

  /** For which indices an insert acts, and what it does: the value comes two places behind the index, or in front if
      the index is the last one. */
  lemma InsertsExactly(m: Model, i: int, v: int32)
    requires m.Live?
    ensures Insert(m, i, v).Live? && Insert(m, i, v).count == m.count
    ensures
      Insert(m, i, v).items ==
      if 0 <= i < m.count && i < |m.items| - 1 then m.items[..i + 2] + [v] + m.items[i + 2..]
      else if 0 <= i < m.count && i == |m.items| - 1 then [v] + m.items
      else m.items
  {
  }

  /** For which indices a remove acts: it takes out the value behind the index, and poisons the container if the index is
      the last one. */
  lemma RemovesExactly(m: Model, i: int)
    requires m.Live?
    ensures
      Remove(m, i) ==
      if 0 <= i < m.count && i < |m.items| - 1 then Live(m.items[..i + 1] + m.items[i + 2..], m.count)
      else if 0 <= i < m.count && i == |m.items| - 1 then Poisoned
      else m
  {
  }

  /** A get of an index inside count and list gives the value there. It gives none exactly for an empty list, a count of
      0 or an index from the count on, and the last value in all other cases, negative indices among them. */
  lemma GetsExactly(m: Model, i: int)
    requires m.Live?
    ensures Get(m, i).None? <==> m.items == [] || m.count == 0 || i >= m.count
    ensures 0 <= i < |m.items| && i < m.count ==> Get(m, i) == Some(m.items[i])
    ensures !(0 <= i < |m.items|) && Get(m, i).Some? ==> Get(m, i) == Some(m.items[|m.items| - 1])
  {
  }

  /** A pop acts if and only if neither the list nor the count is empty, also where the two have drifted apart. */
  lemma PopsExactly(m: Model)
    requires m.Live?
    ensures Popped(m).None? <==> m.items == [] || m.count == 0
    ensures Popped(m).None? ==> PopFront(m) == m && Output(m, Pop) == []
    ensures Popped(m).Some? ==>
              && PopFront(m).Live? && [Popped(m).value] + PopFront(m).items == m.items
              && PopFront(m).count + 1 == m.count && Output(m, Pop) == [Popped(m).value]
  {
  }

  /** An insert that acts changes one place: without it the list is the old one, and a get at that place finds the value
      unless the place is from the count on, where it finds nothing. */
  lemma OnePlace(m: Model, i: int, v: int32)
    requires m.Live? && 0 <= i < m.count && i < |m.items|
    ensures
      var r := Insert(m, i, v);
      var p := if i + 1 < |m.items| then i + 2 else 0;
      && r.Live? && p < |r.items| == |m.items| + 1 && r.items[p] == v
      && r.items[..p] + r.items[p + 1..] == m.items && r.count == m.count
      && Get(r, p) == if p < m.count then Some(v) else None
    ensures
      var r := Remove(m, i);
      && (r.Live? <==> i + 1 < |m.items|)
      && (r.Live? ==> m.items == r.items[..i + 1] + [m.items[i + 1]] + r.items[i + 1..] && r.count == m.count)
  {
  }

  /** Inserting at `i` and then removing at `i + 1` restores the list exactly when the index is one where both walks
      work, or one where neither does anything. */
  lemma InsertThenRemove(m: Model, i: int, v: int32)
    requires m.Live?
    ensures Remove(Insert(m, i, v), i + 1) == m <==>
              (0 <= i < |m.items| - 1 && i + 1 < m.count)
              || i < -1 || i >= m.count || i >= |m.items|
              || (i == -1 && (m.count == 0 || m.items == []))
  {
    if Effective(m, i) {
      var m1 := Insert(m, i, v);
      if i + 1 < |m.items| {
        assert m.items[..i + 2] + m.items[i + 2..] == m.items;
        assert m1.items[..i + 2] == m.items[..i + 2] && m1.items[i + 3..] == m.items[i + 2..];
      } else {
        assert |m1.items| == |m.items| + 1;
      }
    }
  }

  function Inserted(m: Model, ops: seq<Op>): (r: nat)
    decreases ops
  {
    if ops == [] then 0
    else (if ops[0].InsertAt? && Effective(m, ops[0].index) then 1 else 0) + Inserted(Apply(m, ops[0]), ops[1..])
  }

  function Removed(m: Model, ops: seq<Op>): (r: nat)
    decreases ops
  {
    if ops == [] then 0
    else (if ops[0].RemoveAt? && Effective(m, ops[0].index) then 1 else 0) + Removed(Apply(m, ops[0]), ops[1..])
  }

  /** Over every run that does not unlink the sentinel, `count` drifts from the number of nodes by exactly the
      effective inserts and removes. */
  lemma {:induction false} NodeBalance(m: Model, ops: seq<Op>)
    requires m.Live? && Run(m, ops).Live?
    ensures |Run(m, ops).items| - Run(m, ops).count == |m.items| - m.count + Inserted(m, ops) - Removed(m, ops)
    decreases ops
  {
    if ops != [] {
      if Apply(m, ops[0]).Poisoned? {
        StaysPoisoned(ops[1..]);
      } else {
        NodeBalance(Apply(m, ops[0]), ops[1..]);
      }
    }
  }

  lemma {:induction false} StaysPoisoned(ops: seq<Op>)
    ensures Run(Poisoned, ops) == Poisoned
  {
    if ops != [] { StaysPoisoned(ops[1..]); }
  }
}
