/** The chained hash table of src/map/map.c, with its hlist links on the heap. */
module HashTable {
  import opened ChainSpec
  import opened Options

  const BUCKETS := 128

  /** Entry `i` of a bucket links to the next one, and its back link names the link that points to it. */
  ghost predicate LinkAt(chain: seq<Entry>, i: nat, b: nat)
    requires i < |chain|
    reads chain
  {
    && chain[i].next == (if i + 1 < |chain| then chain[i + 1] else null)
    && chain[i].pprev == (if i == 0 then InHead(b) else InNext(chain[i - 1]))
  }

  /** The heap from the head of a bucket on is this chain. */
  ghost predicate Linked(first: Entry?, chain: seq<Entry>, b: nat)
    reads chain
  {
    && first == (if chain == [] then null else chain[0])
    && forall i :: 0 <= i < |chain| ==> LinkAt(chain, i, b)
  }

  class Table {
    const ht: array<Entry?>
    const hash: int -> nat
    /** All entries, newest first. */
    ghost var all: seq<Entry>
    /** The entries of each bucket, newest first. */
    ghost var chains: seq<seq<Entry>>
    ghost var repr: set<Entry>

    /** The links on the heap: each bucket is the chain of its entries, and no entry is in two buckets. */
    ghost predicate LinksOk()
      reads this, ht, repr
    {
      && ht.Length == BUCKETS == |chains| && (forall k :: hash(k) < BUCKETS)
      && (forall b, e :: 0 <= b < BUCKETS && e in chains[b] ==> e in repr && hash(e.key) == b)
      && (forall b :: 0 <= b < BUCKETS ==> Distinct(chains[b]))
      && forall b :: 0 <= b < BUCKETS ==> Linked(ht[b], chains[b], b)
    }

    ghost predicate Valid()
      reads this, ht, repr
    {
      LinksOk() && Distinct(all) && (forall e :: e in all ==> e in repr) && AreChains(chains, all, hash)
    }

    /** hash_init. */
    constructor (h: int -> nat)
      requires forall k :: h(k) < BUCKETS
      ensures Valid() && fresh(ht) && fresh(repr) && hash == h && all == []
    {
      ht := new Entry?[BUCKETS](_ => null);
      hash := h;
      all, chains, repr := [], seq(BUCKETS, _ => []), {};
    }

    /** hlist_add_head on one bucket. */
    method PutFirst(e: Entry, b: nat, ghost chain: seq<Entry>)
      requires b < ht.Length && Linked(ht[b], chain, b) && Distinct(chain) && e !in chain
      modifies ht, e, chain
      ensures Linked(ht[b], [e] + chain, b)
      ensures forall c :: 0 <= c < ht.Length && c != b ==> ht[c] == old(ht[c])
    {
      var first := ht[b];
      e.next := first;
      if first != null {
        first.pprev := InNext(e);
      }
      ht[b] := e;
      e.pprev := InHead(b);
      forall i | 0 <= i < |chain| + 1 ensures LinkAt([e] + chain, i, b) {
        if i > 0 { assert old(LinkAt(chain, i - 1, b)); }
      }
    }

    /** hlist_del_init: write the link that points to the entry, and the back link of the entry behind it. */
    method CutOut(e: Entry, ghost b: nat, ghost chain: seq<Entry>, ghost k: nat)
      requires b < ht.Length && Linked(ht[b], chain, b) && Distinct(chain) && k < |chain| && chain[k] == e
      modifies ht, chain
      ensures Linked(ht[b], chain[..k] + chain[k + 1..], b) && e.next == null && e.pprev == Unhashed
      ensures forall c :: 0 <= c < ht.Length && c != b ==> ht[c] == old(ht[c])
    {
      assert LinkAt(chain, k, b) && (k + 1 < |chain| ==> LinkAt(chain, k + 1, b));
      var next, pprev := e.next, e.pprev;
      match pprev {
        case Unhashed => assert false;
        case InHead(bucket) => ht[bucket] := next;
        case InNext(before) => before.next := next;
      }
      if next != null {
        next.pprev := pprev;
      }
      e.next, e.pprev := null, Unhashed;
      ghost var rest := chain[..k] + chain[k + 1..];
      forall i | 0 <= i < |rest| ensures LinkAt(rest, i, b) {
        assert old(LinkAt(chain, if i < k then i else i + 1, b));
      }
    }

    /** hash_add: the entry goes to the head of its bucket. */
    method LinkFirst(e: Entry, b: nat)
      requires LinksOk() && b == hash(e.key) && e !in repr
      modifies this`chains, this`repr, ht, e, repr
      ensures LinksOk() && chains == old(chains)[b := [e] + old(chains)[b]] && repr == old(repr) + {e}
    {
      PutFirst(e, b, chains[b]);
      OtherLinksKept(b);
      DistinctWith(chains[b], e);
      chains, repr := chains[b := [e] + chains[b]], repr + {e};
    }

    /** hash_del: the entry goes from its bucket. */
    method Unlink(e: Entry, ghost b: nat, ghost k: nat)
      requires LinksOk() && b < BUCKETS && k < |chains[b]| && chains[b][k] == e
      modifies this`chains, ht, repr
      ensures LinksOk() && chains == old(chains)[b := old(chains)[b][..k] + old(chains)[b][k + 1..]]
    {
      CutOut(e, b, chains[b], k);
      OtherLinksKept(b);
      DistinctCut(chains[b], k);
      chains := chains[b := chains[b][..k] + chains[b][k + 1..]];
    }

    /** What happens in one bucket leaves the links of every other one as they were. */
    twostate lemma OtherLinksKept(b: nat)
      requires old(LinksOk()) && b < BUCKETS == ht.Length && chains == old(chains)
      requires forall c :: 0 <= c < BUCKETS && c != b ==> ht[c] == old(ht[c])
      requires forall e :: e in old(repr) && e !in chains[b] ==> unchanged(e)
      ensures forall c :: 0 <= c < BUCKETS && c != b ==> Linked(ht[c], chains[c], c)
    {
      forall c | 0 <= c < BUCKETS && c != b ensures Linked(ht[c], chains[c], c) {
        assert old(Linked(ht[c], chains[c], c));
        forall i | 0 <= i < |chains[c]| ensures LinkAt(chains[c], i, c) {
          var e := chains[c][i];
          assert old(LinkAt(chains[c], i, c)) && old(e in chains[c] && e in repr) && hash(e.key) == c;
          assert e !in chains[b];
        }
      }
    }

    /** add_element. */
    method Add(key: int, name: string) returns (e: Entry)
      requires Valid()
      modifies this`all, this`chains, this`repr, ht, repr
      ensures Valid() && fresh(e) && e.key == key && e.name == name && all == [e] + old(all)
      ensures fresh(repr - old(repr))
    {
      e := NewEntry(key, name);
      LinkFirst(e, hash(key));
      ChainsWith(old(chains), all, hash, e, hash(key));
      DistinctWith(all, e);
      all := [e] + all;
    }

    /** kmalloc and the fields of an entry: nothing that the table holds changes. */
    method NewEntry(key: int, name: string) returns (e: Entry)
      requires Valid()
      ensures Valid() && fresh(e) && e.key == key && e.name == name
    {
      e := new Entry(key, name);
      OtherLinksKept(0);
      forall i | 0 <= i < |chains[0]| ensures LinkAt(chains[0], i, 0) { assert old(LinkAt(chains[0], i, 0)); }
    }

    /** hash_for_each_possible: the walk along one bucket. */
    method Walk(key: int, b: nat, ghost chain: seq<Entry>) returns (r: Entry?)
      requires b < ht.Length && Linked(ht[b], chain, b)
      ensures r == Lookup(chain, key)
    {
      ghost var k := 0;
      ScanIsLookup(chain, 0, key);
      assert chain[0..] == chain;
      r := ht[b];
      while r != null
        invariant 0 <= k <= |chain| && r == if k < |chain| then chain[k] else null
        invariant ScanFrom(chain, k, key) == Lookup(chain, key)
        decreases |chain| - k
      {
        if r.key == key { return; }
        assert LinkAt(chain, k, b);
        r := r.next;
        k := k + 1;
      }
    }

    /** get_element: what it finds in the key's bucket is what a scan of the whole list finds. */
    method Get(key: int) returns (r: Entry?)
      requires Valid()
      ensures r == Lookup(all, key)
    {
      r := Walk(key, hash(key), chains[hash(key)]);
      BucketLookup(all, hash, key);
    }

    lemma PlaceOf(e: Entry) returns (k: nat)
      requires Valid() && e in all
      ensures hash(e.key) < BUCKETS && k < |chains[hash(e.key)]| && chains[hash(e.key)][k] == e
    {
      InItsChain(all, hash);
      k :| 0 <= k < |chains[hash(e.key)]| && chains[hash(e.key)][k] == e;
    }

    /** remove_element. */
    method Remove(e: Entry)
      requires Valid() && e in all
      modifies this`all, this`chains, ht, repr
      ensures Valid() && all == Without(old(all), e)
      ensures forall b :: 0 <= b < BUCKETS ==> chains[b] == Without(old(chains)[b], e)
    {
      ghost var b := hash(e.key);
      ghost var k := PlaceOf(e);
      ChainsWithout(chains, all, hash, b, k);
      WithoutDistinct(all, e);
      Unlink(e, b, k);
      all := Without(all, e);
    }

    /** The inner loop of clear: the walk along one bucket unlinks every entry that it passes. */
    method ClearBucket(b: nat)
      requires Valid() && b < BUCKETS
      modifies this`all, this`chains, ht, repr
      ensures Valid() && chains[b] == [] && forall c :: 0 <= c < BUCKETS && old(chains)[c] == [] ==> chains[c] == []
    {
      var ptr := ht[b];
      while ptr != null
        invariant Valid() && ptr == ht[b] && forall c :: 0 <= c < BUCKETS && old(chains)[c] == [] ==> chains[c] == []
        decreases |chains[b]|
      {
        ptr := RemoveFirst(ptr, b);
      }
    }

    /** The body of that loop: the link is read before the entry goes. */
    method RemoveFirst(ptr: Entry, b: nat) returns (tmp: Entry?)
      requires Valid() && b < BUCKETS && ht[b] == ptr
      modifies this`all, this`chains, ht, repr
      ensures Valid() && tmp == ht[b] && |chains[b]| == |old(chains)[b]| - 1
      ensures forall c :: 0 <= c < BUCKETS && old(chains)[c] == [] ==> chains[c] == []
    {
      assert ptr == chains[b][0] && ptr in chains[b] && LinkAt(chains[b], 0, b);
      tmp := ptr.next;
      WithoutAt(chains[b], 0);
      Remove(ptr);
    }

    /** clear. */
    method Clear()
      requires Valid()
      modifies this`all, this`chains, ht, repr
      ensures Valid() && all == [] && forall b :: 0 <= b < BUCKETS ==> ht[b] == null
    {
      for b := 0 to BUCKETS
        invariant Valid() && forall c :: 0 <= c < b ==> chains[c] == []
      {
        ClearBucket(b);
      }
      InItsChain(all, hash);
    }

    // -------------------------------------------------------------- runs

    /** A lookup and the removal of what it found. */
    method TakeOut(key: int)
      requires Valid()
      modifies this`all, this`chains, ht, repr
      ensures Valid() && Pairs(all) == Apply(Pairs(old(all)), Drop(key))
    {
      var e := Get(key);
      LookupIsIndexOf(all, key);
      if e != null {
        DropIsWithout(all, key);
        Remove(e);
      }
    }

    method LookUp(key: int) returns (out: seq<Option<string>>)
      requires Valid()
      ensures out == Output(Pairs(all), Find(key))
    {
      var e := Get(key);
      LookupIsIndexOf(all, key);
      out := [if e == null then None else Some(e.name)];
    }

    /** One operation; a `Drop` is a lookup and the removal of what it found. */
    method Do(op: Op) returns (out: seq<Option<string>>)
      requires Valid()
      modifies this`all, this`chains, this`repr, ht, repr
      ensures Valid() && fresh(repr - old(repr))
      ensures Pairs(all) == Apply(Pairs(old(all)), op) && out == Output(Pairs(old(all)), op)
    {
      out := [];
      match op
      case Put(key, name) =>
        var e := Add(key, name);
        PairsWith(old(all), e);
      case Drop(key) =>
        TakeOut(key);
      case Find(key) =>
        out := LookUp(key);
      case Clear =>
        Clear();
    }

    /** For every hash function and every run of operations the table refines one association list, newest first, and the
        lookups give what a scan of that list gives. */
    method Perform(ops: seq<Op>) returns (outs: seq<Option<string>>)
      requires Valid()
      modifies this`all, this`chains, this`repr, ht, repr
      ensures Valid() && Pairs(all) == Run(Pairs(old(all)), ops) && outs == Outputs(Pairs(old(all)), ops)
    {
      outs := [];
      ghost var start := Pairs(all);
      for i := 0 to |ops|
        invariant Valid() && fresh(repr - old(repr))
        invariant Run(Pairs(all), ops[i..]) == Run(start, ops)
        invariant outs + Outputs(Pairs(all), ops[i..]) == Outputs(start, ops)
      {
        RunStep(Pairs(all), ops, i, outs);
        var out := Do(ops[i]);
        outs := outs + out;
      }
    }
  }
}
