/** What the chained hash table of src/map/map.c means: one association list, newest entry first. */
module ChainSpec {
  import opened Options

  /** Where the link that points to an entry is: the head of a bucket, or the `next` of the entry before it. */
  datatype Slot = Unhashed | InHead(bucket: nat) | InNext(entry: Entry)

  /** struct my_data with its hlist_node. */
  class Entry {
    const key: int
    const name: string
    var next: Entry?
    var pprev: Slot

    constructor (k: int, n: string)
      ensures key == k && name == n && next == null && pprev == Unhashed
    {
      key, name, next, pprev := k, n, null, Unhashed;
    }
  }

  /** The entries of the list that hash to one bucket, in order. */
  function Chain(all: seq<Entry>, hash: int -> nat, b: nat): (r: seq<Entry>)
    ensures forall e :: e in r ==> e in all && hash(e.key) == b
    ensures forall e :: e in all ==> hash(e.key) == b ==> e in r
  {
    if all == [] then []
    else (if hash(all[0].key) == b then [all[0]] else []) + Chain(all[1..], hash, b)
  }

  /** The first entry with the key. */
  function Lookup(all: seq<Entry>, key: int): (r: Entry?)
    ensures r == null ==> forall e :: e in all ==> e.key != key
    ensures r != null ==> r in all && r.key == key
  {
    if all == [] then null else if all[0].key == key then all[0] else Lookup(all[1..], key)
  }

  /** The list without the entry. */
  function Without(all: seq<Entry>, e: Entry): (r: seq<Entry>)
    ensures forall x :: x in r ==> x in all && x != e
    ensures forall x :: x in all ==> x != e ==> x in r
    ensures |r| <= |all| && (e in all ==> |r| < |all|)
  {
    if all == [] then [] else (if all[0] == e then [] else [all[0]]) + Without(all[1..], e)
  }

  ghost predicate Distinct(all: seq<Entry>) {
    forall i, j :: 0 <= i < j < |all| ==> all[i] != all[j]
  }

  /** The first entry with the key from place `k` on. */
  function ScanFrom(all: seq<Entry>, k: nat, key: int): (r: Entry?)
    requires k <= |all|
    decreases |all| - k
  {
    if k == |all| then null else if all[k].key == key then all[k] else ScanFrom(all, k + 1, key)
  }

  lemma {:induction false} ScanIsLookup(all: seq<Entry>, k: nat, key: int)
    requires k <= |all|
    ensures ScanFrom(all, k, key) == Lookup(all[k..], key)
    decreases |all| - k
  {
    if k < |all| {
      ScanIsLookup(all, k + 1, key);
      assert all[k..][1..] == all[k + 1..];
    }
  }

  // ---------------------------------------------------------------- buckets

  /** Looking in the key's own bucket finds what a scan of the whole list finds. */
  lemma {:induction false} BucketLookup(all: seq<Entry>, hash: int -> nat, key: int)
    ensures Lookup(Chain(all, hash, hash(key)), key) == Lookup(all, key)
  {
    if all != [] {
      BucketLookup(all[1..], hash, key);
      var rest := Chain(all[1..], hash, hash(key));
      if hash(all[0].key) == hash(key) {
        assert ([all[0]] + rest)[1..] == rest;
      } else {
        assert [] + rest == rest;
      }
    }
  }

  lemma DistinctWith(all: seq<Entry>, e: Entry)
    requires Distinct(all) && e !in all
    ensures Distinct([e] + all)
  {
  }

  /** A new entry comes first in its own bucket and leaves the others alone. */
  lemma BucketWith(all: seq<Entry>, hash: int -> nat, e: Entry, b: nat)
    ensures Chain([e] + all, hash, b) == if hash(e.key) == b then [e] + Chain(all, hash, b) else Chain(all, hash, b)
  {
    assert ([e] + all)[1..] == all;
    assert [] + Chain(all, hash, b) == Chain(all, hash, b);
  }

  /** Removing an entry from its bucket removes it from the list, and touches no other bucket. */
  lemma {:induction false} BucketWithout(all: seq<Entry>, hash: int -> nat, e: Entry, b: nat)
    ensures Chain(Without(all, e), hash, b) == Without(Chain(all, hash, b), e)
  {
    if all != [] {
      BucketWithout(all[1..], hash, e, b);
      var x, rest := all[0], Chain(all[1..], hash, b);
      if hash(x.key) == b {
        assert ([x] + rest)[1..] == rest;
      }
      if x != e {
        assert ([x] + Without(all[1..], e))[1..] == Without(all[1..], e);
      } else {
        assert [] + Without(all[1..], e) == Without(all[1..], e);
      }
      assert [] + rest == rest;
    }
  }

  lemma {:induction false} WithoutAbsent(all: seq<Entry>, e: Entry)
    requires e !in all
    ensures Without(all, e) == all
  {
    if all != [] { WithoutAbsent(all[1..], e); }
  }

  /** In a list without repetitions, removing the entry at a place cuts the list there. */
  lemma {:induction false} WithoutAt(all: seq<Entry>, k: nat)
    requires Distinct(all) && k < |all|
    ensures Without(all, all[k]) == all[..k] + all[k + 1..]
  {
    if k == 0 {
      assert all[0] !in all[1..];
      WithoutAbsent(all[1..], all[0]);
    } else {
      WithoutAt(all[1..], k - 1);
      assert all[..k] == [all[0]] + all[1..][..k - 1];
    }
  }

  lemma {:induction false} WithoutDistinct(all: seq<Entry>, e: Entry)
    requires Distinct(all)
    ensures Distinct(Without(all, e))
  {
    if all != [] {
      WithoutDistinct(all[1..], e);
      assert all[0] !in all[1..];
      assert all[0] !in Without(all[1..], e);
    }
  }

  lemma {:induction false} ChainDistinct(all: seq<Entry>, hash: int -> nat, b: nat)
    requires Distinct(all)
    ensures Distinct(Chain(all, hash, b))
  {
    if all != [] {
      ChainDistinct(all[1..], hash, b);
      assert all[0] !in all[1..];
      assert all[0] !in Chain(all[1..], hash, b);
    }
  }

  lemma DistinctCut(all: seq<Entry>, k: nat)
    requires Distinct(all) && k < |all|
    ensures Distinct(all[..k] + all[k + 1..])
  {
  }

  lemma InItsChain(all: seq<Entry>, hash: int -> nat)
    ensures forall e :: e in all ==> e in Chain(all, hash, hash(e.key))
  {
  }

  /** The buckets of a list. */
  ghost predicate AreChains(chains: seq<seq<Entry>>, all: seq<Entry>, hash: int -> nat) {
    forall b :: 0 <= b < |chains| ==> chains[b] == Chain(all, hash, b)
  }

  lemma ChainsWith(chains: seq<seq<Entry>>, all: seq<Entry>, hash: int -> nat, e: Entry, h: nat)
    requires AreChains(chains, all, hash) && h == hash(e.key) && h < |chains|
    ensures AreChains(chains[h := [e] + chains[h]], [e] + all, hash)
  {
    forall b | 0 <= b < |chains| ensures chains[h := [e] + chains[h]][b] == Chain([e] + all, hash, b) {
      BucketWith(all, hash, e, b);
    }
  }

  lemma ChainsWithout(chains: seq<seq<Entry>>, all: seq<Entry>, hash: int -> nat, h: nat, k: nat)
    requires AreChains(chains, all, hash) && Distinct(all) && h < |chains| && k < |chains[h]|
    ensures
      var e, chains' := chains[h][k], chains[h := chains[h][..k] + chains[h][k + 1..]];
      AreChains(chains', Without(all, e), hash) && forall b :: 0 <= b < |chains| ==> chains'[b] == Without(chains[b], e)
  {
    var e, rest := chains[h][k], chains[h][..k] + chains[h][k + 1..];
    ChainDistinct(all, hash, h);
    WithoutAt(chains[h], k);
    forall b | 0 <= b < |chains|
      ensures chains[h := rest][b] == Chain(Without(all, e), hash, b) == Without(chains[b], e)
    {
      BucketWithout(all, hash, e, b);
      if b != h { WithoutAbsent(chains[b], e); }
    }
  }

  // ---------------------------------------------------------------- shadowing

  /** A later add shadows an earlier entry with the same key, and no other key. */
  lemma AddShadows(all: seq<Entry>, e: Entry, key: int)
    ensures Lookup([e] + all, key) == if key == e.key then e else Lookup(all, key)
  {
    assert ([e] + all)[1..] == all;
  }

  /** Wherever the found entry stands, removing it uncovers the next one with its key: the newest entry with the key
      among those behind it. */
  lemma {:induction false} RemoveUncovers(a: seq<Entry>, e: Entry, b: seq<Entry>)
    requires (forall i :: 0 <= i < |a| ==> a[i].key != e.key) && e !in b
    ensures Lookup(a + [e] + b, e.key) == e
    ensures Lookup(Without(a + [e] + b, e), e.key) == Lookup(b, e.key)
  {
    if a == [] {
      assert a + [e] + b == [e] + b;
      WithoutHead(e, b, e);
      WithoutAbsent(b, e);
      AddShadows(b, e, e.key);
    } else {
      var tail := a[1..] + [e] + b;
      assert a + [e] + b == [a[0]] + tail;
      RemoveUncovers(a[1..], e, b);
      WithoutHead(a[0], tail, e);
      AddShadows(tail, a[0], e.key);
      AddShadows(Without(tail, e), a[0], e.key);
    }
  }

  lemma WithoutHead(x: Entry, tail: seq<Entry>, e: Entry)
    ensures Without([x] + tail, e) == if x == e then Without(tail, e) else [x] + Without(tail, e)
  {
    assert ([x] + tail)[1..] == tail;
    assert [] + Without(tail, e) == Without(tail, e);
  }

  /** A lookup finds an entry with no entry of its key before it. */
  lemma {:induction false} LookupSplits(all: seq<Entry>, key: int) returns (k: nat)
    requires Lookup(all, key) != null
    ensures k < |all| && all[k] == Lookup(all, key) && forall i :: 0 <= i < k ==> all[i].key != key
  {
    if all[0].key == key {
      k := 0;
    } else {
      k := LookupSplits(all[1..], key);
      k := k + 1;
    }
  }

  /** Removing an entry changes no lookup that did not find it, and so none of another key. */
  lemma {:induction false} RemoveElsewhere(all: seq<Entry>, e: Entry, key: int)
    requires Lookup(all, key) != e
    ensures Lookup(Without(all, e), key) == Lookup(all, key)
  {
    if all != [] {
      var rest := Without(all[1..], e);
      if all[0] == e {
        assert [] + rest == rest;
      } else {
        assert ([all[0]] + rest)[1..] == rest;
      }
      if all[0].key != key { RemoveElsewhere(all[1..], e, key); }
    }
  }

  // ---------------------------------------------------------------- runs

  /** `Drop` removes what a lookup of the key finds, as the module's own code does. */
  datatype Op = Put(key: int, name: string) | Drop(key: int) | Find(key: int) | Clear

  /** The association list after an operation. */
  function Apply(pairs: seq<(int, string)>, op: Op): (r: seq<(int, string)>) {
    match op
    case Put(key, name) => [(key, name)] + pairs
    case Drop(key) => var i := IndexOf(pairs, key); if i < |pairs| then pairs[..i] + pairs[i + 1..] else pairs
    case Find(_) => pairs
    case Clear => []
  }

  /** The place of the first pair with the key, or the length. */
  function IndexOf(pairs: seq<(int, string)>, key: int): (r: nat)
    ensures r <= |pairs| && (r < |pairs| ==> pairs[r].0 == key)
    ensures forall i :: 0 <= i < r ==> pairs[i].0 != key
  {
    if pairs == [] || pairs[0].0 == key then 0 else 1 + IndexOf(pairs[1..], key)
  }

  function Output(pairs: seq<(int, string)>, op: Op): (r: seq<Option<string>>) {
    if op.Find? then
      var i := IndexOf(pairs, op.key);
      [if i < |pairs| then Some(pairs[i].1) else None]
    else []
  }

  function Run(pairs: seq<(int, string)>, ops: seq<Op>): (r: seq<(int, string)>)
    decreases ops
  {
    if ops == [] then pairs else Run(Apply(pairs, ops[0]), ops[1..])
  }

  /** What the lookups of a run give, in order. */
  function Outputs(pairs: seq<(int, string)>, ops: seq<Op>): (r: seq<Option<string>>)
    decreases ops
  {
    if ops == [] then [] else Output(pairs, ops[0]) + Outputs(Apply(pairs, ops[0]), ops[1..])
  }

  /** One more operation of a run, with the lookups before it in `outs`. */
  lemma RunStep(pairs: seq<(int, string)>, ops: seq<Op>, i: nat, outs: seq<Option<string>>)
    requires i < |ops|
    ensures
      var next, rest := Apply(pairs, ops[i]), ops[i + 1..];
      && Run(pairs, ops[i..]) == Run(next, rest)
      && outs + Outputs(pairs, ops[i..]) == (outs + Output(pairs, ops[i])) + Outputs(next, rest)
  {
    assert ops[i..][1..] == ops[i + 1..];
  }

  /** The names that the list holds for a key, newest first. */
  function NamesOf(pairs: seq<(int, string)>, key: int): (r: seq<string>) {
    if pairs == [] then []
    else (if pairs[0].0 == key then [pairs[0].1] else []) + NamesOf(pairs[1..], key)
  }

  /** The operation concerns the key. */
  predicate Touches(op: Op, key: int) {
    op.Clear? || ((op.Put? || op.Drop?) && op.key == key)
  }

  lemma {:induction false} NamesCut(pairs: seq<(int, string)>, i: nat, key: int)
    requires i < |pairs| && forall k :: 0 <= k < i ==> pairs[k].0 != pairs[i].0
    ensures
      var names, rest := NamesOf(pairs, key), NamesOf(pairs[..i] + pairs[i + 1..], key);
      if pairs[i].0 == key then names != [] && names[0] == pairs[i].1 && rest == names[1..] else rest == names
    decreases i
  {
    var cut := pairs[..i] + pairs[i + 1..];
    if i == 0 {
      assert cut == pairs[1..];
    } else {
      NamesCut(pairs[1..], i - 1, key);
      assert cut[0] == pairs[0] && cut[1..] == pairs[1..][..i - 1] + pairs[1..][i..];
    }
  }

  lemma {:induction false} NoNames(pairs: seq<(int, string)>, key: int)
    ensures NamesOf(pairs, key) == [] <==> forall i :: 0 <= i < |pairs| ==> pairs[i].0 != key
  {
    if pairs != [] {
      NoNames(pairs[1..], key);
      assert forall i :: 0 < i < |pairs| ==> pairs[i] == pairs[1..][i - 1];
    }
  }

  lemma PutNames(pairs: seq<(int, string)>, k: int, name: string, key: int)
    ensures NamesOf([(k, name)] + pairs, key) == (if k == key then [name] else []) + NamesOf(pairs, key)
  {
    assert ([(k, name)] + pairs)[1..] == pairs;
  }

  lemma DropNames(pairs: seq<(int, string)>, k: int, key: int)
    ensures
      var was, now := NamesOf(pairs, key), NamesOf(Apply(pairs, Drop(k)), key);
      now == if k == key && was != [] then was[1..] else was
  {
    NoNames(pairs, key);
    if IndexOf(pairs, k) < |pairs| { NamesCut(pairs, IndexOf(pairs, k), key); }
  }

  /** Each key has a stack of names: a put of the key pushes one, a drop of it pops one, a clear empties all, and nothing
      else concerns it. */
  lemma KeyIsStack(pairs: seq<(int, string)>, op: Op, key: int)
    ensures
      var was, now := NamesOf(pairs, key), NamesOf(Apply(pairs, op), key);
      && (op.Put? && op.key == key ==> now == [op.name] + was)
      && (op.Drop? && op.key == key ==> now == if was == [] then [] else was[1..])
      && (op.Clear? ==> now == [])
      && (!Touches(op, key) ==> now == was)
  {
    match op
    case Put(k, name) => PutNames(pairs, k, name, key);
    case Drop(k) => DropNames(pairs, k, key);
    case _ =>
  }

  /** A lookup gives the top of its key's stack. */
  lemma FindGivesTop(pairs: seq<(int, string)>, key: int)
    ensures
      var names := NamesOf(pairs, key);
      Output(pairs, Find(key)) == [if names == [] then None else Some(names[0])]
  {
    NoNames(pairs, key);
    if IndexOf(pairs, key) < |pairs| { NamesCut(pairs, IndexOf(pairs, key), key); }
  }

  /** In every run a lookup gives the name of the most recent put of its key, if neither a drop of the key nor a clear has
      come since. */
  lemma {:induction false} FindsLatestPut(pairs: seq<(int, string)>, ops: seq<Op>, j: nat, key: int)
    requires j < |ops| && ops[j].Put? && ops[j].key == key && forall i :: j < i < |ops| ==> !Touches(ops[i], key)
    ensures Output(Run(pairs, ops), Find(key)) == [Some(ops[j].name)]
    decreases ops
  {
    var next := Apply(pairs, ops[0]);
    assert forall i :: 0 < i < |ops| ==> ops[i] == ops[1..][i - 1];
    if j > 0 {
      FindsLatestPut(next, ops[1..], j - 1, key);
    } else {
      KeyIsStack(pairs, ops[0], key);
      NamesStay(next, ops[1..], key);
      FindGivesTop(Run(next, ops[1..]), key);
    }
  }

  lemma {:induction false} NamesStay(pairs: seq<(int, string)>, ops: seq<Op>, key: int)
    requires forall i :: 0 <= i < |ops| ==> !Touches(ops[i], key)
    ensures NamesOf(Run(pairs, ops), key) == NamesOf(pairs, key)
    decreases ops
  {
    if ops != [] {
      KeyIsStack(pairs, ops[0], key);
      assert forall i :: 0 < i < |ops| ==> ops[i] == ops[1..][i - 1];
      NamesStay(Apply(pairs, ops[0]), ops[1..], key);
    }
  }

  /** And it gives nothing after a clear that no put of the key follows. */
  lemma {:induction false} FindsNothingAfterClear(pairs: seq<(int, string)>, ops: seq<Op>, j: nat, key: int)
    requires j < |ops| && ops[j].Clear? && forall i :: j < i < |ops| ==> !(ops[i].Put? && ops[i].key == key)
    ensures Output(Run(pairs, ops), Find(key)) == [None]
    decreases ops
  {
    assert forall i :: 0 < i < |ops| ==> ops[i] == ops[1..][i - 1];
    if j > 0 {
      FindsNothingAfterClear(Apply(pairs, ops[0]), ops[1..], j - 1, key);
    } else {
      StaysNameless([], ops[1..], key);
      FindGivesTop(Run([], ops[1..]), key);
    }
  }

  lemma {:induction false} StaysNameless(pairs: seq<(int, string)>, ops: seq<Op>, key: int)
    requires NamesOf(pairs, key) == [] && forall i :: 0 <= i < |ops| ==> !(ops[i].Put? && ops[i].key == key)
    ensures NamesOf(Run(pairs, ops), key) == []
    decreases ops
  {
    if ops != [] {
      KeyIsStack(pairs, ops[0], key);
      assert forall i :: 0 < i < |ops| ==> ops[i] == ops[1..][i - 1];
      StaysNameless(Apply(pairs, ops[0]), ops[1..], key);
    }
  }

  function Pairs(all: seq<Entry>): (r: seq<(int, string)>)
    ensures |r| == |all| && forall i :: 0 <= i < |all| ==> r[i] == (all[i].key, all[i].name)
  {
    seq(|all|, i requires 0 <= i < |all| => (all[i].key, all[i].name))
  }

  lemma {:induction false} LookupIsIndexOf(all: seq<Entry>, key: int)
    ensures
      var i := IndexOf(Pairs(all), key);
      Lookup(all, key) == if i < |all| then all[i] else null
  {
    if all != [] && all[0].key != key {
      LookupIsIndexOf(all[1..], key);
      assert Pairs(all)[1..] == Pairs(all[1..]);
    }
  }

  lemma PairsWith(all: seq<Entry>, e: Entry)
    ensures Pairs([e] + all) == Apply(Pairs(all), Put(e.key, e.name))
  {
  }

  lemma PairsCut(all: seq<Entry>, k: nat)
    requires k < |all|
    ensures Pairs(all[..k] + all[k + 1..]) == Pairs(all)[..k] + Pairs(all)[k + 1..]
  {
  }

  /** Removing the found entry is removing the first pair with its key. */
  lemma DropIsWithout(all: seq<Entry>, key: int)
    requires Distinct(all) && Lookup(all, key) != null
    ensures Pairs(Without(all, Lookup(all, key))) == Apply(Pairs(all), Drop(key))
  {
    LookupIsIndexOf(all, key);
    WithoutAt(all, IndexOf(Pairs(all), key));
    PairsCut(all, IndexOf(Pairs(all), key));
  }
}
