/** The printed form of a list (to_string in src/list/container.c), its parser, and its length. */
module ListText {
  import opened ListRing
  import opened Bytes

  const PATH_MAX := 4096

  // ---------------------------------------------------------------- printing

  function Digit(d: nat): (c: char)
    requires d < 10
    ensures '0' <= c <= '9'
  {
    '0' + d as char
  }

  function Digits(n: nat): (r: seq<char>) {
    if n < 10 then [Digit(n)] else Digits(n / 10) + [Digit(n % 10)]
  }

  /** What snprintf writes for "%d". */
  function Decimal(v: int32): (r: seq<char>) {
    if v < 0 then ['-'] + Digits(-(v as int)) else Digits(v as int)
  }

  /** The values with commas between them. */
  function Body(xs: seq<int32>): (r: seq<char>) {
    if xs == [] then []
    else if |xs| == 1 then Decimal(xs[0])
    else Decimal(xs[0]) + ([','] + Body(xs[1..]))
  }

  function Text(xs: seq<int32>): (r: seq<char>) {
    ['['] + Body(xs) + [']']
  }

  // ---------------------------------------------------------------- parsing

  function Number(s: seq<char>): (r: int) {
    if s == [] then 0 else 10 * Number(s[..|s| - 1]) + (s[|s| - 1] as int - '0' as int)
  }

  function Value(s: seq<char>): (r: int) {
    if s != [] && s[0] == '-' then -Number(s[1..]) else Number(s)
  }

  /** The position of the first comma, or the length. */
  function CommaAt(s: seq<char>): (r: nat)
    ensures r <= |s| && ',' !in s[..r] && (r < |s| ==> s[r] == ',')
  {
    if s == [] || s[0] == ',' then 0 else 1 + CommaAt(s[1..])
  }

  function Items(s: seq<char>): (r: seq<int>) {
    var c := CommaAt(s);
    [Value(s[..c])] + (if c == |s| then [] else Items(s[c + 1..]))
  }

  /** The list that a text denotes. */
  function Parse(text: seq<char>): (r: seq<int>) {
    if |text| <= 2 then [] else Items(text[1..|text| - 1])
  }

  // ---------------------------------------------------------------- the round trip

  lemma {:induction false} DigitsRead(n: nat)
    ensures Number(Digits(n)) == n && |Digits(n)| >= 1
    ensures forall i :: 0 <= i < |Digits(n)| ==> '0' <= Digits(n)[i] <= '9'
  {
    if n < 10 {
      assert Number([Digit(n)]) == 10 * Number([]) + n;
    } else {
      DigitsRead(n / 10);
      assert Digits(n)[..|Digits(n)| - 1] == Digits(n / 10);
    }
  }

  lemma DecimalRead(v: int32)
    ensures Value(Decimal(v)) == v as int && Decimal(v) != [] && ',' !in Decimal(v)
  {
    if v < 0 {
      DigitsRead(-(v as int));
      assert Decimal(v)[1..] == Digits(-(v as int));
    } else {
      DigitsRead(v as int);
    }
  }

  lemma {:induction false} CommaAfter(d: seq<char>, rest: seq<char>)
    requires ',' !in d
    ensures CommaAt(d) == |d| && CommaAt(d + ([','] + rest)) == |d|
  {
    if d == [] {
      assert d + ([','] + rest) == [','] + rest;
    } else {
      CommaAfter(d[1..], rest);
      assert (d + ([','] + rest))[1..] == d[1..] + ([','] + rest);
    }
  }

  function Ints(xs: seq<int32>): (r: seq<int>)
    ensures |r| == |xs| && forall i :: 0 <= i < |xs| ==> r[i] == xs[i] as int
  {
    seq(|xs|, i requires 0 <= i < |xs| => xs[i] as int)
  }

  lemma {:induction false} ItemsRead(xs: seq<int32>)
    requires xs != []
    ensures Items(Body(xs)) == Ints(xs)
  {
    DecimalRead(xs[0]);
    if |xs| == 1 {
      ItemsOne(Decimal(xs[0]));
    } else {
      ItemsRead(xs[1..]);
      ItemsCons(Decimal(xs[0]), Body(xs[1..]));
      IntsCons(xs);
    }
  }

  lemma IntsCons(xs: seq<int32>)
    requires xs != []
    ensures Ints(xs) == [xs[0] as int] + Ints(xs[1..])
  {
  }

  lemma ItemsOne(d: seq<char>)
    requires ',' !in d
    ensures Items(d) == [Value(d)]
  {
    CommaAfter(d, []);
    assert d[..|d|] == d;
  }

  lemma ItemsCons(d: seq<char>, rest: seq<char>)
    requires ',' !in d
    ensures Items(d + ([','] + rest)) == [Value(d)] + Items(rest)
  {
    CommaAfter(d, rest);
    var s := d + ([','] + rest);
    assert s[..|d|] == d && s[|d| + 1..] == rest;
  }

  lemma BodyEmpty(xs: seq<int32>)
    ensures Body(xs) == [] <==> xs == []
  {
    if xs != [] { DecimalRead(xs[0]); }
  }

  /** The printed form determines the list: parsing it gives back every list of 32-bit ints. */
  lemma PrintParse(xs: seq<int32>)
    ensures Parse(Text(xs)) == Ints(xs)
  {
    BodyEmpty(xs);
    assert Text(xs)[1..|Text(xs)| - 1] == Body(xs);
    if xs != [] { ItemsRead(xs); }
  }

  /** The text stands in brackets; each further value comes behind a comma. */
  lemma TextExactly(xs: seq<int32>, v: int32)
    ensures Text([]) == "[]" && Text([v]) == ['['] + Decimal(v) + [']']
    ensures |Text(xs)| >= 2 && Text(xs)[0] == '[' && Text(xs)[|Text(xs)| - 1] == ']'
    ensures xs != [] ==> Text(xs + [v]) == Text(xs)[..|Text(xs)| - 1] + [','] + Decimal(v) + [']']
  {
    BodySnoc(xs, v);
    if xs != [] {
      assert Text(xs)[..|Text(xs)| - 1] == ['['] + Body(xs);
      Assoc(['['], Body(xs), [',']);
      Assoc(['['], Body(xs) + [','], Decimal(v));
    }
  }

  /** The digits stand at their places: the one at place `k` from the right is the value's digit for 10^k, and there are
      no leading zeros. */
  lemma {:induction false} DigitAt(n: nat, k: nat)
    requires k < |Digits(n)|
    ensures Pow10(k) > 0 && Digits(n)[|Digits(n)| - 1 - k] as int == '0' as int + (n / Pow10(k)) % 10
    ensures n > 0 ==> Digits(n)[0] != '0'
    decreases n
  {
    if n >= 10 {
      DigitAt(n / 10, if k > 0 then k - 1 else 0);
      if k > 0 {
        Pow10Positive(k - 1);
        DivTwice(n, Pow10(k - 1));
      }
    }
  }

  lemma {:induction false} Pow10Positive(k: nat)
    ensures Pow10(k) > 0
  {
    if k > 0 { Pow10Positive(k - 1); }
  }

  lemma DivTwice(n: nat, p: nat)
    requires p > 0
    ensures n / (10 * p) == (n / 10) / p
  {
    var q := (n / 10) / p;
    var r := (n / 10) % p;
    assert n / 10 == q * p + r;
    assert n == 10 * (q * p + r) + n % 10;
    assert 0 <= 10 * r + n % 10 < 10 * p;
    assert n == q * (10 * p) + (10 * r + n % 10);
    DivUnique(n, 10 * p, q, 10 * r + n % 10);
  }

  lemma DivUnique(n: nat, d: nat, q: nat, r: nat)
    requires r < d && n == q * d + r
    ensures n / d == q
  {
    var x := n / d - q;
    assert x * d == (n / d) * d - q * d == r - n % d;
    Multiple(x, d);
  }

  lemma Multiple(x: int, d: nat)
    ensures x >= 1 ==> x * d >= d
    ensures x <= -1 ==> x * d <= 0 - d
  {
  }

  /** A negative value is a minus sign and then the digits of its absolute value. */
  lemma SignExactly(v: int32)
    ensures v >= 0 ==> Decimal(v) == Digits(v as int)
    ensures v < 0 ==> Decimal(v)[0] == '-' && Decimal(v)[1..] == Digits(-(v as int))
  {
  }

  // ---------------------------------------------------------------- the buffer

  /** The text and its terminator fit in the buffer. */
  predicate Fits(xs: seq<int32>) {
    |Text(xs)| + 1 <= PATH_MAX
  }

  function Pow10(k: nat): (r: nat) {
    if k == 0 then 1 else 10 * Pow10(k - 1)
  }

  lemma {:induction false} DigitsLength(n: nat, k: nat)
    requires 1 <= k && n < Pow10(k)
    ensures |Digits(n)| <= k
  {
    if n >= 10 {
      assert Pow10(1) == 10 * Pow10(0);
      DigitsLength(n / 10, k - 1);
    }
  }

  /** No 32-bit int prints longer than the least one. */
  lemma DecimalLength(v: int32)
    ensures |Decimal(v)| <= 11
  {
    assert Pow10(2) == 100 && Pow10(4) == 10_000 && Pow10(6) == 1_000_000 && Pow10(8) == 100_000_000;
    assert Pow10(10) == 10_000_000_000;
    DigitsLength(if v < 0 then -(v as int) else v as int, 10);
  }

  lemma {:induction false} BodySnoc(xs: seq<int32>, y: int32)
    ensures Body(xs + [y]) == Body(xs) + (if xs == [] then [] else [',']) + Decimal(y)
  {
    if xs == [] {
      assert xs + [y] == [y];
    } else {
      BodySnoc(xs[1..], y);
      assert (xs + [y])[1..] == xs[1..] + [y];
      var d := Decimal(xs[0]);
      if |xs| > 1 {
        var b, e := Body(xs[1..]), [','] + Decimal(y);
        assert d + ([','] + (b + [','] + Decimal(y))) == (d + ([','] + b)) + [','] + Decimal(y);
      } else {
        assert d + ([','] + Decimal(y)) == d + [','] + Decimal(y);
      }
    }
  }

  lemma {:induction false} BodyLength(xs: seq<int32>)
    requires xs != []
    ensures |Body(xs)| <= 12 * |xs| - 1
  {
    DecimalLength(xs[0]);
    if |xs| > 1 { BodyLength(xs[1..]); }
  }

  /** One more value printed, and the rest still to come. */
  lemma {:induction false} BodyPrefix(xs: seq<int32>, k: nat)
    requires k < |xs|
    ensures Body(xs[..k + 1]) == Body(xs[..k]) + (if k == 0 then [] else [',']) + Decimal(xs[k])
    ensures |Body(xs[..k + 1])| <= |Body(xs)|
    decreases |xs|
  {
    assert xs[..k + 1] == xs[..k] + [xs[k]];
    BodySnoc(xs[..k], xs[k]);
    var front, last := xs[..|xs| - 1], xs[|xs| - 1];
    if k + 1 == |xs| {
      assert xs[..k + 1] == xs;
    } else {
      BodyPrefix(front, k);
      assert front[..k + 1] == xs[..k + 1] && front + [last] == xs;
      BodySnoc(front, last);
    }
  }

  lemma LeastLength()
    ensures |Decimal(-0x8000_0000)| == 11
  {
    var n := 2147483648;
    assert Digits(n) == Digits(214748364) + [Digit(8)];
    assert |Digits(2147)| == 4 && |Digits(214748)| == 6 && |Digits(21474836)| == 8;
    assert |Digits(214748364)| == 9;
  }

  lemma {:induction false} BodyOfLeast(xs: seq<int32>)
    requires xs != [] && forall i :: 0 <= i < |xs| ==> xs[i] == -0x8000_0000
    ensures |Body(xs)| == 12 * |xs| - 1
  {
    LeastLength();
    if |xs| > 1 {
      BodyOfLeast(xs[1..]);
    }
  }

  /** 341 is the greatest length at which every list fits. */
  lemma FitsUpTo341()
    ensures forall xs: seq<int32> :: |xs| <= 341 ==> Fits(xs)
    ensures exists xs: seq<int32> :: |xs| == 342 && !Fits(xs)
  {
    forall xs: seq<int32> | |xs| <= 341 ensures Fits(xs) {
      if xs != [] { BodyLength(xs); }
    }
    var long: seq<int32> := seq(342, _ => -0x8000_0000);
    BodyOfLeast(long);
    assert |long| == 342 && !Fits(long);
  }

  /** Where the pointer of to_string stands after `k` values. snprintf moves it by the wanted length; once it is past the
      end, the room is a negative number that becomes a huge size, and snprintf refuses and returns 0. */
  function Pointer(xs: seq<int32>, k: nat): (p: nat)
    requires k <= |xs|
  {
    if k == 0 then 1
    else
      var p := Pointer(xs, k - 1) + if k == 1 then 0 else 1;
      if p <= PATH_MAX then p + |Decimal(xs[k - 1])| else p
  }

  /** The length of the text up to and with `k` values. */
  function Wanted(xs: seq<int32>, k: nat): (n: nat)
    requires k <= |xs|
  {
    1 + |Body(xs[..k])|
  }

  lemma WantedGrows(xs: seq<int32>, k: nat)
    requires k < |xs|
    ensures |Decimal(xs[k])| > 0
    ensures Wanted(xs, k + 1) == Wanted(xs, k) + (if k == 0 then 0 else 1) + |Decimal(xs[k])|
    ensures Wanted(xs, k + 1) <= 1 + |Body(xs)|
  {
    BodyPrefix(xs, k);
    DecimalRead(xs[k]);
  }

  /** Up to the end of the buffer the pointer follows the text, and beyond it it stays beyond. */
  lemma {:induction false} PointerFollows(xs: seq<int32>, k: nat)
    requires k <= |xs|
    ensures
      var wanted := Wanted(xs, k);
      if wanted <= PATH_MAX then Pointer(xs, k) == wanted else Pointer(xs, k) > PATH_MAX
  {
    if k == 0 {
      assert xs[..0] == [];
    } else {
      PointerFollows(xs, k - 1);
      WantedGrows(xs, k - 1);
    }
  }

  /** The indices that to_string writes without a check: the brackets, the commas and the terminator. */
  ghost predicate Writes(xs: seq<int32>, i: nat) {
    || i == 0
    || (exists k :: 1 <= k < |xs| && i == Pointer(xs, k))
    || i == Pointer(xs, |xs|) || i == Pointer(xs, |xs|) + 1
  }

  lemma WantedAll(xs: seq<int32>)
    ensures Wanted(xs, |xs|) + 2 <= PATH_MAX <==> Fits(xs)
  {
    assert xs[..|xs|] == xs;
  }

  lemma CommaInside(xs: seq<int32>, k: nat)
    requires 1 <= k < |xs| && Fits(xs)
    ensures Pointer(xs, k) < PATH_MAX
  {
    PointerFollows(xs, k);
    WantedGrows(xs, k - 1);
  }

  /** The code stays inside its buffer if and only if the text and its terminator fit; in all other cases at least the
      terminator goes outside. */
  lemma StaysInsideExactly(xs: seq<int32>)
    ensures (forall i: nat :: Writes(xs, i) ==> i < PATH_MAX) <==> Fits(xs)
    ensures Pointer(xs, |xs|) + 1 < PATH_MAX <==> Fits(xs)
  {
    PointerFollows(xs, |xs|);
    WantedAll(xs);
    assert Writes(xs, Pointer(xs, |xs|) + 1);
    if Fits(xs) {
      forall k | 1 <= k < |xs| ensures Pointer(xs, k) < PATH_MAX { CommaInside(xs, k); }
    }
  }

  /** 342 times the least int: the terminator goes outside. */
  lemma LongListOverruns()
    ensures var xs: seq<int32> := seq(342, _ => -0x8000_0000); Pointer(xs, |xs|) + 1 >= PATH_MAX
  {
    var xs: seq<int32> := seq(342, _ => -0x8000_0000);
    BodyOfLeast(xs);
    StaysInsideExactly(xs);
  }

  // ---------------------------------------------------------------- the loop that fills the buffer

  /** snprintf(buf + at, size, "%d", v): at most `size - 1` characters and a terminator; the result is the length
      that was wanted. */
  method Snprintf(buf: array<char>, at: nat, size: nat, v: int32) returns (written: nat)
    requires at + size <= buf.Length
    modifies buf
    ensures written == |Decimal(v)|
    ensures written < size ==> buf[at..at + written] == Decimal(v)
    ensures var n := if written < size then written else size - 1;
      size > 0 ==> buf[at..at + n] == Decimal(v)[..n] && buf[at + n] == '\0'
    ensures forall i :: 0 <= i < buf.Length && !(at <= i < at + size) ==> buf[i] == old(buf[i])
  {
    var d := Decimal(v);
    written := |d|;
    if size > 0 {
      var n := if written < size then written else size - 1;
      for k := 0 to n
        invariant forall i :: at <= i < at + k ==> buf[i] == d[i - at]
        invariant forall i :: 0 <= i < buf.Length && !(at <= i < at + k) ==> buf[i] == old(buf[i])
      {
        buf[at + k] := d[k];
      }
      buf[at + n] := '\0';
    }
  }

  /** What the loop has printed after `k` values. */
  ghost function Printed(xs: seq<int32>, k: nat): (text: seq<char>)
    requires k <= |xs|
  {
    ['['] + Body(xs[..k])
  }

  lemma PrintedNext(xs: seq<int32>, k: nat)
    requires k < |xs|
    ensures Printed(xs, k + 1) == Printed(xs, k) + (if k == 0 then [] else [',']) + Decimal(xs[k])
    ensures |Printed(xs, k + 1)| <= 1 + |Body(xs)|
  {
    BodyPrefix(xs, k);
    var sep, b, d := if k == 0 then [] else [','], Body(xs[..k]), Decimal(xs[k]);
    Assoc(['['], b, sep);
    Assoc(['['], b + sep, d);
  }

  lemma PrintedEnds(xs: seq<int32>)
    ensures Printed(xs, 0) == ['['] && Printed(xs, |xs|) == ['['] + Body(xs)
  {
    assert xs[..0] == [] && xs[..|xs|] == xs;
  }

  /** snprintf into what is left of the buffer, and the pointer moved by the wanted length. */
  method AppendDecimal(buffer: array<char>, at: nat, v: int32) returns (ptr: nat)
    requires buffer.Length == PATH_MAX && at <= PATH_MAX
    modifies buffer
    ensures ptr == at + |Decimal(v)|
    ensures ptr < PATH_MAX ==> buffer[..ptr] == old(buffer[..at]) + Decimal(v)
  {
    ghost var was := buffer[..];
    var written := Snprintf(buffer, at, PATH_MAX - at, v);
    ptr := at + written;
    if ptr < PATH_MAX {
      assert buffer[..][at..ptr] == buffer[at..ptr];
      BehindText(was, buffer[..], at, Decimal(v));
    }
  }

  lemma BehindText(was: seq<char>, now: seq<char>, at: nat, d: seq<char>)
    requires |was| == |now| && at + |d| <= |now| && now[at..at + |d|] == d
    requires forall i :: 0 <= i < at ==> now[i] == was[i]
    ensures now[..at + |d|] == was[..at] + d
  {
    assert now[..at + |d|] == now[..at] + now[at..at + |d|];
  }

  /** The body of the loop of to_string. The comma is written without a check: where that would be outside the
      buffer, the run is cut off and reported. */
  method AppendValue(buffer: array<char>, at: nat, first: bool, v: int32) returns (ptr: nat, inside: bool)
    requires buffer.Length == PATH_MAX && (first ==> at <= PATH_MAX)
    modifies buffer
    ensures inside <==> first || at < PATH_MAX
    ensures inside ==> ptr == at + (if first then 0 else 1) + |Decimal(v)|
    ensures inside && ptr < PATH_MAX ==> buffer[..ptr] == old(buffer[..at]) + (if first then [] else [',']) + Decimal(v)
  {
    ptr := at;
    if !first {
      if ptr >= PATH_MAX { return ptr, false; }
      buffer[ptr] := ',';
      ptr := ptr + 1;
    }
    assert buffer[..ptr] == old(buffer[..at]) + (if first then [] else [',']);
    ptr := AppendDecimal(buffer, ptr, v);
    inside := true;
  }

  /** The loop of to_string: walk the circle and print the values behind the opening bracket. */
  method AppendAll(buffer: array<char>, head: Node, ghost nodes: seq<Node>) returns (ptr: nat, inside: bool)
    requires Ring(head, nodes) && buffer.Length == PATH_MAX && buffer[0] == '['
    modifies buffer
    ensures inside ==> ptr == 1 + |Body(Values(nodes))|
    ensures inside && ptr < PATH_MAX ==> buffer[..ptr] == ['['] + Body(Values(nodes))
    ensures !inside ==> 1 + |Body(Values(nodes))| > PATH_MAX
  {
    ghost var xs := Values(nodes);
    ptr, inside := 1, true;
    PrintedEnds(xs);
    assert JoinedAt(head, nodes, 0);
    var pos := head.next;
    ghost var k := 0;
    while pos != head
      invariant 0 <= k <= |nodes| && pos == Circle(head, nodes)[k + 1] && (pos == head <==> k == |nodes|)
      invariant Ring(head, nodes) && inside
      invariant ptr == |Printed(xs, k)| && (ptr < PATH_MAX ==> buffer[..ptr] == Printed(xs, k))
      decreases |nodes| - k
    {
      PrintedNext(xs, k);
      StepOnCircle(head, nodes, k);
      var first, next := pos.prev == head, pos.next;
      ptr, inside := AppendValue(buffer, ptr, first, pos.value);
      if !inside { return; }
      pos := next;
      k := k + 1;
    }
  }

  /** to_string: print the list into a buffer of PATH_MAX characters. Every write stays inside the buffer exactly when
      the text and its terminator fit, and then the buffer holds the text and the terminator right behind it. For a
      longer list the run is cut off at the first write outside, and reported. */
  method ToString(head: Node, ghost nodes: seq<Node>) returns (buffer: array<char>, inside: bool)
    requires Ring(head, nodes)
    ensures fresh(buffer) && buffer.Length == PATH_MAX
    ensures inside <==> Fits(Values(nodes))
    ensures inside ==> var text := Text(Values(nodes)); buffer[..|text|] == text && buffer[|text|] == '\0'
  {
    buffer := new char[PATH_MAX];
    buffer[0] := '[';
    var ptr;
    ptr, inside := AppendAll(buffer, head, nodes);
    if !inside || ptr >= PATH_MAX { return buffer, false; }
    buffer[ptr] := ']';
    ptr := ptr + 1;
    if ptr >= PATH_MAX { return buffer, false; }
    buffer[ptr] := '\0';
  }
}
