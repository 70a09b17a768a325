/** The growable string of src/string/main.c: a character buffer with a length, a capacity and a terminator. */
module GrowString {
  import opened Options
  import opened CapacityGrowth
  import Search = StringSearch

  const STRING_CAP := 64
  const UINT_RANGE := 0x1_0000_0000
  const INT_RANGE := 0x8000_0000
  const ULONG_RANGE := 0x1_0000_0000_0000_0000

  /** What a C string holds before its terminator. */
  predicate IsText(s: seq<char>) {
    '\0' !in s
  }

  /** An unsigned int sum of lengths. */
  function Sum(len: nat, n: nat): (r: nat)
    ensures r < UINT_RANGE && r <= len + n && (r == len + n <==> len + n < UINT_RANGE)
  {
    (len + n) % UINT_RANGE
  }

  /** The text after a join: the length that counts is the unsigned sum. */
  function Joined(text: seq<char>, s: seq<char>): (r: seq<char>) {
    (text + s)[..Sum(|text|, |s|)]
  }

  function JoinedAll(text: seq<char>, pieces: seq<seq<char>>): (r: seq<char>)
    decreases pieces
  {
    if pieces == [] then text else JoinedAll(Joined(text, pieces[0]), pieces[1..])
  }

  function Concat(pieces: seq<seq<char>>): (r: seq<char>) {
    if pieces == [] then [] else pieces[0] + Concat(pieces[1..])
  }

  // ---------------------------------------------------------------- creation, as arithmetic

  /** A size_t assigned to an int. */
  function AsInt(n: nat): (r: int)
    ensures n < INT_RANGE ==> r == n
  {
    if n % UINT_RANGE < INT_RANGE then n % UINT_RANGE else n % UINT_RANGE - UINT_RANGE
  }

  /** An int compared with an unsigned long. */
  function AsULong(len: int): (r: int) {
    if len < 0 then len + ULONG_RANGE else len
  }

  /** string_new_cap does not refuse a string of `n` characters: `len > cap` is false. */
  predicate Accepts(n: nat, capacity: nat) {
    AsULong(AsInt(n)) <= capacity
  }

  /** The indices that an accepted creation writes: what strncpy copies, and the terminator. */
  predicate CreationWrites(n: nat, i: int) {
    0 <= i < AsInt(n) || i == AsInt(n)
  }

  /** Exactly when creation is safe: it accepts strings up to the capacity, and stays inside its buffer if and only if
      the string is shorter than that. Below 2^31 the int is the length; no buffer of 2^63 bytes is ever allocated. */
  lemma CreationStaysInside(n: nat, capacity: nat)
    requires capacity < ULONG_RANGE / 2
    ensures Accepts(n, capacity) <==> 0 <= AsInt(n) <= capacity
    ensures Accepts(n, capacity) ==> ((forall i :: CreationWrites(n, i) ==> i < capacity) <==> AsInt(n) < capacity)
    ensures n < INT_RANGE ==>
              (Accepts(n, capacity) <==> n <= capacity)
              && ((forall i :: CreationWrites(n, i) ==> i < capacity) <==> n < capacity)
  {
    assert CreationWrites(n, AsInt(n));
  }

  /** A string as long as its capacity is accepted, and its terminator goes behind the buffer. */
  lemma FullStringOverruns(n: nat)
    requires n < INT_RANGE
    ensures Accepts(n, n) && exists i :: CreationWrites(n, i) && i >= n
  {
    assert CreationWrites(n, n);
  }

  /** `Overrun`: the creation has accepted the string and now writes outside its buffer; the run is cut off there. */
  datatype Creation = Refused | Overrun | Created(view: StringView)

  class StringView {
    var str: array<char>
    var len: nat
    var cap: nat

    /** The buffer has room for the terminator, which stands at `len` and nowhere before. */
    ghost predicate Valid()
      reads this, str
    {
      str.Length == cap && len < cap && len < UINT_RANGE && str[len] == '\0' && IsText(str[..len])
    }

    ghost function Text(): (r: seq<char>)
      requires Valid()
      reads this, str
    {
      str[..len]
    }

    /** The end of string_new_cap when its writes stay inside the buffer. */
    constructor (s: seq<char>, capacity: nat)
      requires IsText(s) && |s| < capacity && |s| < INT_RANGE
      ensures Valid() && fresh(str) && Text() == s && cap == capacity
    {
      len := |s|;
      cap := capacity;
      str := new char[capacity];
      new;
      for i := 0 to |s|
        invariant str.Length == cap == capacity && len == |s| && fresh(str)
        invariant forall k :: 0 <= k < i ==> str[k] == s[k]
      {
        str[i] := s[i];
      }
      str[len] := '\0';
      assert str[..len] == s;
    }

    /** string_new_cap; string_new is the call with STRING_CAP. No allocation of 2^63 bytes or more succeeds, so that
        a length that is negative as an int is refused by the test or by the allocation. */
    static method NewCap(s: seq<char>, capacity: nat) returns (r: Creation)
      requires IsText(s)
      ensures r == Refused <==> !Accepts(|s|, capacity) || capacity >= ULONG_RANGE / 2
      ensures r != Refused ==> 0 <= AsInt(|s|) <= |s|
      ensures r != Refused ==> (r == Overrun <==> exists i :: CreationWrites(|s|, i) && i >= capacity)
      ensures r.Created? ==>
                && r.view.Valid() && fresh(r.view) && fresh(r.view.str) && r.view.cap == capacity
                && r.view.Text() == s[..AsInt(|s|)]
    {
      var len := AsInt(|s|);
      if AsULong(len) > capacity { return Refused; }
      if capacity >= ULONG_RANGE / 2 { return Refused; }
      assert CreationWrites(|s|, len);
      if len >= capacity { return Overrun; }
      var view := new StringView(s[..len], capacity);
      r := Created(view);
    }

    /** string_growup: krealloc keeps the old content, because the capacity that the loop ends with is greater. */
    method GrowUp(request: nat)
      requires Valid() && request < Limit(cap)
      modifies this`str, this`cap
      ensures Valid() && len == old(len) && Text() == old(Text())
      ensures IsGrown(old(cap), request, cap) && request < cap && old(cap) <= cap && Limit(cap) == Limit(old(cap))
      ensures str == old(str) || fresh(str)
    {
      var newCap, changed := Grow(cap, request);
      if changed {
        var was, bigger := str, new char[newCap];
        for i := 0 to was.Length
          invariant unchanged(this) && forall k :: 0 <= k < i ==> bigger[k] == was[k]
        {
          bigger[i] := was[i];
        }
        assert bigger[..len] == was[..len];
        str := bigger;
      }
      cap := newCap;
    }

    /** strncat(str, s, n): find the terminator, append at most `n` characters and terminate. */
    method AppendAt(s: seq<char>, n: nat)
      requires Valid() && IsText(s) && len + |s| < cap && |s| < n
      modifies str
      ensures str[..len + |s|] == old(str[..len]) + s && str[len + |s|] == '\0'
    {
      assert forall i :: 0 <= i < len ==> str[i] in str[..len];
      var at := 0;
      while str[at] != '\0'
        invariant 0 <= at <= len
        decreases len - at
      {
        at := at + 1;
      }
      var k := 0;
      while k < |s| && k < n
        invariant 0 <= k <= |s|
        invariant forall i :: len <= i < len + k ==> str[i] == s[i - len]
        invariant forall i :: 0 <= i < len ==> str[i] == old(str[i])
      {
        str[at + k] := s[k];
        k := k + 1;
      }
      str[at + k] := '\0';
    }

    /** string_join, for the texts whose growth loop ends and that then fit: the sum of the lengths may wrap around. */
    method Join(s: seq<char>)
      requires Valid() && IsText(s) && len + |s| < Limit(cap)
      modifies this, str
      ensures Valid() && Text() == Joined(old(Text()), s)
      ensures old(cap) <= cap && Limit(cap) == Limit(old(cap)) && JoinsTo(old(cap), old(len), s, cap)
      ensures str == old(str) || fresh(str)
    {
      var sum := Sum(len, |s|);
      if sum >= cap {
        GrowUp(sum);
      }
      AppendAt(s, cap - len);
      ghost var all := str[..len + |s|];
      len := sum;
      assert str[..len] == all[..sum];
      str[len] := '\0';
    }

    /** Any run of joins whose whole text stays below the limit of the first capacity. The string then holds exactly the
        concatenation if and only if its length fits an unsigned int. */
    method JoinAll(pieces: seq<seq<char>>)
      requires Valid() && forall i :: 0 <= i < |pieces| ==> IsText(pieces[i])
      requires len + |Concat(pieces)| < Limit(cap)
      modifies this, str
      ensures Valid() && Text() == JoinedAll(old(Text()), pieces)
      ensures Text() == old(Text()) + Concat(pieces) <==> old(len) + |Concat(pieces)| < UINT_RANGE
    {
      JoinedExactly(Text(), pieces);
      for i := 0 to |pieces|
        invariant Valid() && (str == old(str) || fresh(str)) && Limit(cap) == Limit(old(cap))
        invariant len + |Concat(pieces[i..])| < Limit(cap)
        invariant JoinedAll(Text(), pieces[i..]) == JoinedAll(old(Text()), pieces)
      {
        assert pieces[i..][0] == pieces[i] && pieces[i..][1..] == pieces[i + 1..];
        Join(pieces[i]);
      }
    }

    // -------------------------------------------------------------- searching

    /** strncmp(str + i, needle, |needle|) == 0. */
    method Matches(i: nat, needle: seq<char>) returns (b: bool)
      requires Valid() && IsText(needle) && i + |needle| <= len
      ensures b <==> Search.Occurs(Text(), needle, i)
    {
      for k := 0 to |needle|
        invariant forall j :: 0 <= j < k ==> str[i + j] == needle[j]
      {
        if str[i + k] != needle[k] {
          assert Text()[i..i + |needle|][k] != needle[k];
          return false;
        }
      }
      assert Text()[i..i + |needle|] == needle;
      b := true;
    }

    /** string_index. Its loop compares the int `i` with an unsigned difference, which is the difference itself because the
        guard has excluded a longer needle; the text and the needle must be shorter than 2^31. */
    method IndexOf(needle: seq<char>) returns (r: int)
      requires Valid() && IsText(needle) && len < INT_RANGE && |needle| < INT_RANGE
      ensures r == Search.Index(Text(), needle)
    {
      if |needle| > len { return -1; }
      var i := 0;
      while i <= len - |needle|
        invariant 0 <= i <= len - |needle| + 1
        invariant Search.Index(Text(), needle) == Search.FirstFrom(Text(), needle, i)
      {
        var b := Matches(i, needle);
        if b { return i; }
        i := i + 1;
      }
      r := -1;
    }

    /** string_last_index. */
    method LastIndexOf(needle: seq<char>) returns (r: int)
      requires Valid() && IsText(needle) && len < INT_RANGE && |needle| < INT_RANGE
      ensures r == Search.LastIndex(Text(), needle)
    {
      if |needle| > len { return -1; }
      var i := len - |needle|;
      while i >= 0
        invariant -1 <= i <= len - |needle|
        invariant Search.LastIndex(Text(), needle) == Search.LastUpTo(Text(), needle, i)
      {
        var b := Matches(i, needle);
        if b { return i; }
        i := i - 1;
      }
      r := -1;
    }

    /** string_has_prefix. */
    method HasPrefix(prefix: seq<char>) returns (b: bool)
      requires Valid() && IsText(prefix) && |prefix| < INT_RANGE
      ensures b <==> Search.HasPrefix(Text(), prefix)
    {
      if |prefix| > len { return false; }
      b := Matches(0, prefix);
    }

    /** string_has_suffix. */
    method HasSuffix(suffix: seq<char>) returns (b: bool)
      requires Valid() && IsText(suffix) && |suffix| < INT_RANGE
      ensures b <==> Search.HasSuffix(Text(), suffix)
    {
      if |suffix| > len { return false; }
      b := Matches(len - |suffix|, suffix);
    }

    /** string_has_substring: strstr looks for the first occurrence. */
    method HasSubstring(substr: seq<char>) returns (b: bool)
      requires Valid() && IsText(substr) && len < INT_RANGE && |substr| < INT_RANGE
      ensures b <==> Search.HasSubstring(Text(), substr)
    {
      Search.SearchesAgree(Text(), substr);
      Search.IndexBounds(Text(), substr);
      if |substr| > len { return false; }
      var i := IndexOf(substr);
      b := i >= 0;
    }

    /** string_substring. */
    method Substring(start: int, end: int) returns (r: Option<seq<char>>)
      requires Valid()
      ensures r == Search.Substring(Text(), start, end)
    {
      if start < 0 || end < 0 || end > len || start >= end { return None; }
      r := Some(str[start..end]);
      assert str[..len][start..end] == str[start..end];
    }
  }

  // ---------------------------------------------------------------- runs of joins

  /** A run of joins gives the concatenation if and only if the length of that fits an unsigned int. */
  lemma {:induction false} JoinedExactly(text: seq<char>, pieces: seq<seq<char>>)
    requires |text| < UINT_RANGE
    ensures |JoinedAll(text, pieces)| < UINT_RANGE
    ensures JoinedAll(text, pieces) == text + Concat(pieces) <==> |text| + |Concat(pieces)| < UINT_RANGE
    decreases pieces
  {
    if pieces != [] {
      JoinedExactly(Joined(text, pieces[0]), pieces[1..]);
      assert text + (pieces[0] + Concat(pieces[1..])) == (text + pieces[0]) + Concat(pieces[1..]);
    }
  }

  /** Joining `s` to a string of this length ends with capacity `r`, and writes only below it. */
  ghost predicate JoinsTo(cap: nat, len: nat, s: seq<char>, r: nat) {
    && (if Sum(len, |s|) < cap then r == cap else IsGrown(cap, Sum(len, |s|), r))
    && len + |s| < r
  }

  /** Every growth loop in the run of joins ends, and no join leaves the buffer. */
  ghost predicate GoesThrough(cap: nat, len: nat, pieces: seq<seq<char>>)
    decreases pieces
  {
    pieces == [] ||
    exists r: nat :: JoinsTo(cap, len, pieces[0], r) && GoesThrough(r, Sum(len, |pieces[0]|), pieces[1..])
  }

  lemma JoinEnds(cap: nat, len: nat, s: seq<char>) returns (r: nat)
    requires len < cap && len + |s| < Limit(cap)
    ensures JoinsTo(cap, len, s, r)
  {
    if Sum(len, |s|) < cap {
      r := cap;
    } else {
      r := GrownExists(cap, Sum(len, |s|));
    }
  }

  lemma JoinKeepsLimit(cap: nat, len: nat, s: seq<char>, r: nat)
    requires JoinsTo(cap, len, s, r)
    ensures Limit(r) == Limit(cap) && len + |s| < Limit(cap)
  {
    if Sum(len, |s|) >= cap { GrownKeepsLimit(cap, Sum(len, |s|), r); }
  }

  /** Whether a run of joins goes through is settled by its total length alone, however it is cut into pieces: below the
      limit of the first capacity it does, and for capacities that an unsigned int can fill it does only then. */
  lemma {:induction false} GoesThroughExactly(cap: nat, len: nat, pieces: seq<seq<char>>)
    requires len < cap
    ensures len + |Concat(pieces)| < Limit(cap) ==> GoesThrough(cap, len, pieces)
    ensures Limit(cap) <= UINT_RANGE && GoesThrough(cap, len, pieces) ==> len + |Concat(pieces)| < Limit(cap)
    decreases pieces
  {
    if pieces != [] {
      var s, sum := pieces[0], Sum(len, |pieces[0]|);
      if len + |Concat(pieces)| < Limit(cap) {
        var r := JoinEnds(cap, len, s);
        JoinKeepsLimit(cap, len, s, r);
        GoesThroughExactly(r, sum, pieces[1..]);
      }
      if r: nat :| JoinsTo(cap, len, s, r) && GoesThrough(r, sum, pieces[1..]) {
        JoinKeepsLimit(cap, len, s, r);
        GoesThroughExactly(r, sum, pieces[1..]);
      }
    }
  }

  /** From the default capacity that is: below 8192. */
  lemma DefaultRuns(s: seq<char>, pieces: seq<seq<char>>)
    requires |s| < STRING_CAP
    ensures GoesThrough(STRING_CAP, |s|, pieces) <==> |s| + |Concat(pieces)| < 8192
  {
    GoesThroughExactly(STRING_CAP, |s|, pieces);
    DefaultCapacity(8191, 0);
    DefaultCapacity(8192, 0);
    EndsExactly(64, 8191);
    EndsExactly(64, 8192);
  }
}
