/** The pairing of entries and returns in src/hook/khook.c: what the pool holds after any interleaving of
    handler calls, and what each return is given. */
module ProbeProtocol {
  import opened Options

  /** One handler call. `ri` is the address of the kretprobe instance; an entry may come without registers, or fail
      to allocate its params. */
  datatype Event<P> = Enter(ri: int, hasRegs: bool, params: Option<P>) | Return(ri: int)

  /** What an entry tries to store. */
  function Offered<P>(e: Event<P>): (r: Option<P>) {
    if e.Enter? && e.hasRegs && e.params.Some? && e.ri > 0 then e.params else None
  }

  /** entry_handler with insert_params (a present key is left alone), ret_handler with pop_params. */
  function Handle<P>(pool: map<int, P>, e: Event<P>): (r: map<int, P>) {
    if e.Return? then pool - {e.ri}
    else if Offered(e).Some? && e.ri !in pool then pool[e.ri := Offered(e).value]
    else pool
  }

  function Pool<P>(events: seq<Event<P>>): (r: map<int, P>) {
    if events == [] then map[] else Handle(Pool(events[..|events| - 1]), events[|events| - 1])
  }

  /** What ret_handler gets for an instance. */
  function Given<P>(pool: map<int, P>, ri: int): (r: Option<P>) {
    if ri in pool then Some(pool[ri]) else None
  }

  /** What the returns of a run get, in order. */
  function Outputs<P>(events: seq<Event<P>>): (r: seq<Option<P>>) {
    if events == [] then [] else
    var front, e := events[..|events| - 1], events[|events| - 1];
    Outputs(front) + (if e.Return? then [Given(Pool(front), e.ri)] else [])
  }

  function Returns<P>(events: seq<Event<P>>): (r: nat) {
    if events == [] then 0 else Returns(events[..|events| - 1]) + if events[|events| - 1].Return? then 1 else 0
  }

  /** The output of a return is what the pool holds for its instance at that moment. */
  lemma {:induction false} OutputAt<P>(events: seq<Event<P>>, j: nat)
    requires j < |events| && events[j].Return?
    ensures |Outputs(events)| == Returns(events) && Returns(events[..j]) < |Outputs(events)|
    ensures Outputs(events)[Returns(events[..j])] == Given(Pool(events[..j]), events[j].ri)
    decreases |events|
  {
    var front := events[..|events| - 1];
    OutputCount(front);
    OutputCount(events);
    if j < |front| {
      OutputAt(front, j);
      assert front[..j] == events[..j];
    }
  }

  lemma {:induction false} OutputCount<P>(events: seq<Event<P>>)
    ensures |Outputs(events)| == Returns(events)
  {
    if events != [] { OutputCount(events[..|events| - 1]); }
  }

  // ---------------------------------------------------------------- instances in flight

  /** The instance has been entered and has not returned since. */
  predicate InFlight<P>(events: seq<Event<P>>, ri: int) {
    if events == [] then false
    else if events[|events| - 1].ri == ri then events[|events| - 1].Enter?
    else InFlight(events[..|events| - 1], ri)
  }

  /** The last event of an instance, if it has one, and its position. */
  ghost predicate IsLast<P>(events: seq<Event<P>>, ri: int, i: nat) {
    i < |events| && events[i].ri == ri && forall k :: i < k < |events| ==> events[k].ri != ri
  }

  /** An instance is entered again only after it has returned. */
  ghost predicate Disciplined<P>(events: seq<Event<P>>) {
    forall i :: 0 <= i < |events| && events[i].Enter? ==> !InFlight(events[..i], events[i].ri)
  }

  /** Whoever follows the discipline finds the pool free of its own instance: only instances in flight are in it. */
  lemma {:induction false} PoolInFlight<P>(events: seq<Event<P>>)
    ensures forall ri :: ri in Pool(events) ==> InFlight(events, ri)
  {
    if events != [] {
      PoolInFlight(events[..|events| - 1]);
    }
  }

  /** What the pool holds for an instance is settled by its last event and by what was there before it. */
  lemma {:induction false} SettledByLast<P>(events: seq<Event<P>>, ri: int, i: nat)
    requires IsLast(events, ri, i)
    ensures Given(Pool(events), ri) == Given(Pool(events[..i + 1]), ri)
    ensures InFlight(events, ri) <==> events[i].Enter?
    decreases |events|
  {
    var front := events[..|events| - 1];
    if i == |events| - 1 {
      assert events[..i + 1] == events;
    } else {
      assert front[..i + 1] == events[..i + 1];
      assert IsLast(front, ri, i);
      SettledByLast(front, ri, i);
      assert events[|events| - 1].ri != ri;
    }
  }

  /** Under any interleaving, disciplined or not: the return at `j`, whose own entry is the one at `i`, gets what that
      entry offered exactly if the pool did not hold the instance then; otherwise it gets what was already there. */
  lemma ReturnGets<P>(events: seq<Event<P>>, i: nat, j: nat)
    requires i < j < |events| && events[j].Return? && events[i].Enter? && IsLast(events[..j], events[j].ri, i)
    ensures Returns(events[..j]) < |Outputs(events)|
    ensures
      var ri, e := events[j].ri, events[i];
      Outputs(events)[Returns(events[..j])] ==
      if ri in Pool(events[..i]) then Some(Pool(events[..i])[ri])
      else if e.hasRegs && ri > 0 then e.params else None
  {
    OutputAt(events, j);
    var ri := events[j].ri;
    SettledByLast(events[..j], ri, i);
    assert events[..j][..i + 1][..i] == events[..i] && events[..j][..i + 1] == events[..i + 1];
    assert events[..i + 1][i] == events[i];
  }

  /** With the discipline, every return gets exactly the params of its own entry, or none if that entry came without
      registers, without params or without an address; and no entry finds its instance already in the pool. */
  lemma EachReturnGetsItsOwn<P>(events: seq<Event<P>>, i: nat, j: nat)
    requires Disciplined(events)
    requires i < j < |events| && events[j].Return? && events[i].Enter? && IsLast(events[..j], events[j].ri, i)
    ensures events[i].ri !in Pool(events[..i])
    ensures Returns(events[..j]) < |Outputs(events)|
    ensures
      var e, got := events[i], Outputs(events)[Returns(events[..j])];
      && (e.hasRegs && e.ri > 0 ==> got == e.params)
      && (!e.hasRegs || e.ri <= 0 || e.params.None? ==> got == None)
  {
    OutputAt(events, j);
    PoolInFlight(events[..i]);
    assert events[..j][i] == events[i];
    ReturnGets(events, i, j);
  }

  /** A return without an entry since the last return gets nothing. */
  lemma UnmatchedReturnGetsNothing<P>(events: seq<Event<P>>, j: nat)
    requires j < |events| && events[j].Return? && !InFlight(events[..j], events[j].ri)
    ensures Returns(events[..j]) < |Outputs(events)| && Outputs(events)[Returns(events[..j])] == None
  {
    OutputAt(events, j);
    PoolInFlight(events[..j]);
  }

  lemma {:induction false} HasLast<P>(events: seq<Event<P>>, ri: int) returns (i: nat)
    requires InFlight(events, ri)
    ensures IsLast(events, ri, i) && events[i].Enter?
  {
    if events[|events| - 1].ri == ri {
      i := |events| - 1;
    } else {
      i := HasLast(events[..|events| - 1], ri);
      assert events[..|events| - 1][i] == events[i];
    }
  }

  /** With the discipline the pool holds exactly the instances in flight whose entry came with registers, params and an
      address, each with those params. So when all have returned it is empty. */
  lemma PoolIsInFlight<P>(events: seq<Event<P>>, ri: int)
    requires Disciplined(events)
    ensures InFlight(events, ri) ==>
              exists i :: 0 <= i < |events| && IsLast(events, ri, i) && events[i].Enter?
                     && (if events[i].hasRegs && events[i].params.Some? && ri > 0
                         then ri in Pool(events) && Pool(events)[ri] == events[i].params.value
                         else ri !in Pool(events))
    ensures !InFlight(events, ri) ==> ri !in Pool(events)
  {
    PoolInFlight(events);
    if InFlight(events, ri) {
      var i := HasLast(events, ri);
      var more := events + [Return(ri)];
      assert more[..|events|] == events && more[i] == events[i] && more[..i] == events[..i];
      PoolInFlight(events[..i]);
      ReturnGets(more, i, |events|);
      OutputAt(more, |events|);
    }
  }

  /** When every instance has returned, the pool is empty, with or without the discipline. */
  lemma PoolDrains<P>(events: seq<Event<P>>)
    requires forall ri :: !InFlight(events, ri)
    ensures Pool(events) == map[]
  {
    PoolInFlight(events);
    forall ri ensures ri !in Pool(events) { assert !InFlight(events, ri); }
  }

  /** Without the discipline it fails: an instance entered twice hands the first entry's params to its return. */
  lemma ReentryGetsStaleParams()
    ensures
      var events := [Enter(1, true, Some(10)), Enter(1, true, Some(20)), Return(1)];
      !Disciplined(events) && Outputs(events) == [Some(10)]
  {
    var events := [Enter(1, true, Some(10)), Enter(1, true, Some(20)), Return(1)];
    var one, two := events[..1], events[..2];
    assert one[..0] == [] && one[0] == events[0];
    assert Pool(one) == Handle(Pool(one[..0]), one[0]) == map[1 := 10];
    assert two[..1] == one && two[1] == events[1];
    assert Pool(two) == Handle(Pool(two[..1]), two[1]);
    assert events[..|events| - 1] == two && Outputs(one[..0]) == [] && Outputs(one) == [] && Outputs(two) == [];
    assert InFlight(events[..1], 1) && events[1].Enter?;
  }
}
