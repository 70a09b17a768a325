/** The growth loop of string_growup in src/string/main.c, as arithmetic. */
module CapacityGrowth {

  /** do_div(n, base) replaces n by the quotient and yields the remainder. */
  function DoDiv(n: nat, base: nat): (r: (nat, nat))
    requires base > 0
  {
    (n / base, n % base)
  }

  /** One round of the loop. Above 4096 the division leaves the quotient in the capacity and adds the remainder. */
  function NextCap(cap: nat): (r: nat) {
    if cap <= 4096 then cap + cap
    else if cap <= 8192 then DoDiv(cap, 2).0 + DoDiv(cap, 2).1
    else DoDiv(cap, 4).0 + DoDiv(cap, 4).1
  }

  /** The capacity after `k` rounds. */
  function After(cap: nat, k: nat): (r: nat)
    decreases k
  {
    if k == 0 then cap else After(NextCap(cap), k - 1)
  }

  /** The loop ends: after some number of rounds the capacity is above the request. */
  ghost predicate Ends(cap: nat, request: nat) {
    exists k: nat :: After(cap, k) > request
  }

  /** Where doubling arrives first above 4096, made even. */
  function Peak(cap: nat): (r: nat)
    requires 0 < cap <= 8192
    ensures 4096 < r <= 8192 && cap <= r
    decreases 8192 - cap
  {
    if cap <= 4096 then Peak(cap + cap) else cap + cap % 2
  }

  /** No request from here on is served: neither doubling nor halving ever gets above it. */
  function Limit(cap: nat): (r: nat) {
    if 0 < cap <= 8192 then Peak(cap) else cap
  }

  lemma LimitKept(cap: nat)
    requires 0 < cap <= 8192
    ensures 0 < NextCap(cap) <= 8192 && Peak(NextCap(cap)) == Peak(cap)
  {
    if cap > 4096 {
      var half := cap / 2 + cap % 2;
      assert Peak(half) == Peak(half + half);
    }
  }

  lemma {:induction false} NeverAbove(cap: nat, k: nat)
    ensures After(cap, k) <= (if 0 < cap <= 8192 then Peak(cap) else cap)
    ensures cap <= 8192 ==> After(cap, k) <= 8192
    decreases k
  {
    if k > 0 {
      NeverAbove(NextCap(cap), k - 1);
      if 0 < cap <= 8192 { LimitKept(cap); }
    }
  }

  lemma {:induction false} PeakReached(cap: nat) returns (k: nat)
    requires 0 < cap <= 8192
    ensures After(cap, k) == Peak(cap)
    decreases 8192 - cap
  {
    if cap <= 4096 {
      var j := PeakReached(cap + cap);
      k := j + 1;
    } else if cap % 2 == 0 {
      k := 0;
    } else {
      assert After(cap, 2) == After(NextCap(cap), 1) == After(NextCap(NextCap(cap)), 0);
      k := 2;
    }
  }

  /** Exactly which requests are served, from any capacity at all. */
  lemma EndsExactly(cap: nat, request: nat)
    ensures Ends(cap, request) <==> request < Limit(cap)
  {
    if request < Limit(cap) {
      var k := 0;
      if 0 < cap <= 8192 { k := PeakReached(cap); }
      assert After(cap, k) > request;
    }
    if k: nat :| After(cap, k) > request {
      NeverAbove(cap, k);
    }
  }

  /** From the default capacity exactly the requests below 8192 are served, and from no capacity up to 8192 is any
      request of 8192 or more. */
  lemma DefaultCapacity(request: nat, cap: nat)
    ensures Ends(64, request) <==> request < 8192
    ensures cap <= 8192 && request >= 8192 ==> !Ends(cap, request)
  {
    EndsExactly(64, request);
    EndsExactly(cap, request);
    assert Peak(64) == Peak(256) && Peak(256) == Peak(1024) && Peak(1024) == Peak(4096) && Peak(4096) == Peak(8192);
  }

  // ---------------------------------------------------------------- the result

  /** The capacity with which the loop ends. */
  ghost predicate IsGrown(cap: nat, request: nat, r: nat) {
    exists k: nat :: After(cap, k) == r > request && forall j: nat :: j < k ==> After(cap, j) <= request
  }

  lemma AfterSnoc(cap: nat, k: nat)
    ensures After(cap, k + 1) == NextCap(After(cap, k))
    decreases k
  {
    if k > 0 { AfterSnoc(NextCap(cap), k - 1); }
  }

  lemma {:induction false} AfterKeepsLimit(cap: nat, k: nat)
    requires 0 < cap <= 8192
    ensures 0 < After(cap, k) <= 8192 && Limit(After(cap, k)) == Limit(cap)
    decreases k
  {
    if k > 0 {
      LimitKept(cap);
      AfterKeepsLimit(NextCap(cap), k - 1);
    }
  }

  /** Growing never changes how far a string can grow. */
  lemma GrownKeepsLimit(cap: nat, request: nat, r: nat)
    requires IsGrown(cap, request, r)
    ensures Limit(r) == Limit(cap)
  {
    var k: nat :| After(cap, k) == r > request && forall j: nat :: j < k ==> After(cap, j) <= request;
    assert k > 0 ==> After(cap, 0) <= request;
    if 0 < cap <= 8192 {
      AfterKeepsLimit(cap, k);
    } else if k > 0 {
      NeverAbove(cap, k);
    }
  }

  lemma {:induction false} FirstRound(cap: nat, request: nat, k: nat) returns (r: nat)
    requires After(cap, k) > request
    ensures IsGrown(cap, request, r)
    decreases k
  {
    if j: nat :| j < k && After(cap, j) > request {
      r := FirstRound(cap, request, j);
    } else {
      r := After(cap, k);
      assert After(cap, k) == r > request && forall j: nat :: j < k ==> After(cap, j) <= request;
    }
  }

  lemma GrownExists(cap: nat, request: nat) returns (r: nat)
    requires request < Limit(cap)
    ensures IsGrown(cap, request, r)
  {
    EndsExactly(cap, request);
    var k: nat :| After(cap, k) > request;
    r := FirstRound(cap, request, k);
  }

  /** The loop of string_growup, for the requests for which it ends. */
  method Grow(cap: nat, request: nat) returns (r: nat, changed: bool)
    requires request < Limit(cap)
    ensures IsGrown(cap, request, r) && r > request
    ensures (changed <==> cap <= request) && (!changed ==> r == cap)
    ensures Limit(r) == Limit(cap)
  {
    r, changed := cap, false;
    ghost var k := 0;
    while request >= r
      invariant request < Limit(r) == Limit(cap)
      invariant r == After(cap, k) && forall j: nat :: j < k ==> After(cap, j) <= request
      invariant changed <==> k > 0
      invariant if k > 0 then cap <= request else r == cap
      decreases if r > 4096 && r % 2 == 1 then 8192 else 8192 - r
    {
      AfterSnoc(cap, k);
      LimitKept(r);
      r := NextCap(r);
      changed := true;
      k := k + 1;
    }
    assert After(cap, k) == r;
    if k > 0 { assert After(cap, 0) <= request; }
  }

  /** From a capacity above 4096 growth is possible only for a request equal to an odd capacity, and adds one. */
  lemma GrownFromAbove(cap: nat, request: nat, r: nat)
    requires 4096 < cap && cap <= request && IsGrown(cap, request, r)
    ensures request == cap && cap % 2 == 1 && cap < 8192 && r == cap + 1
  {
    var k: nat :| After(cap, k) == r > request && forall j: nat :: j < k ==> After(cap, j) <= request;
    NeverAbove(cap, k);
    assert After(cap, 0) == cap && After(cap, 1) == After(NextCap(cap), 0);
    assert After(cap, 2) == After(NextCap(cap), 1) == After(NextCap(NextCap(cap)), 0);
  }

  /** The capacity doubled `k` times. */
  function Doubled(cap: nat, k: nat): (r: nat)
    decreases k
  {
    if k == 0 then cap else Doubled(cap + cap, k - 1)
  }

  /** From a capacity up to 4096 the result is the least doubling of it above the request. */
  lemma {:induction false} LeastDoubling(cap: nat, request: nat, k: nat)
    requires 0 < cap <= 4096 && request < Limit(cap)
    requires After(cap, k) > request && forall j: nat :: j < k ==> After(cap, j) <= request
    ensures After(cap, k) == Doubled(cap, k) && forall j: nat :: j < k ==> Doubled(cap, j) <= request
    decreases k
  {
    if k > 0 {
      var next := cap + cap;
      assert next > 4096 ==> Peak(next) == next;
      forall j: nat | j < k - 1 ensures After(next, j) <= request {
        assert After(cap, j + 1) <= request;
      }
      assert After(cap, 0) <= request && After(next, 0) == next;
      if k > 1 {
        LeastDoubling(next, request, k - 1);
      }
      forall j: nat | j < k ensures Doubled(cap, j) <= request {
        if j > 0 { assert Doubled(cap, j) == Doubled(next, j - 1); }
      }
    }
  }
}
