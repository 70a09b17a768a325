/** Searching in src/string/main.c, on the characters before the terminator. */
module StringSearch {
  import opened Options

  /** The needle stands at position `i` of the text. */
  predicate Occurs(text: seq<char>, needle: seq<char>, i: int) {
    0 <= i && i + |needle| <= |text| && text[i..i + |needle|] == needle
  }

  /** The least position from `i` on at which the needle stands, or -1. */
  function FirstFrom(text: seq<char>, needle: seq<char>, i: nat): (r: int)
    decreases |text| - i
  {
    if i + |needle| > |text| then -1
    else if Occurs(text, needle, i) then i
    else FirstFrom(text, needle, i + 1)
  }

  /** string_index. */
  function Index(text: seq<char>, needle: seq<char>): (r: int) {
    FirstFrom(text, needle, 0)
  }

  /** The greatest position up to `i` at which the needle stands, or -1. */
  function LastUpTo(text: seq<char>, needle: seq<char>, i: int): (r: int)
    requires i + |needle| <= |text|
    decreases i
  {
    if i < 0 then -1 else if Occurs(text, needle, i) then i else LastUpTo(text, needle, i - 1)
  }

  /** string_last_index. */
  function LastIndex(text: seq<char>, needle: seq<char>): (r: int) {
    LastUpTo(text, needle, |text| - |needle|)
  }

  lemma {:induction false} FirstIsLeast(text: seq<char>, needle: seq<char>, i: nat)
    ensures
      var r := FirstFrom(text, needle, i);
      && (r == -1 || (i <= r && Occurs(text, needle, r)))
      && forall k :: i <= k && (r == -1 || k < r) ==> !Occurs(text, needle, k)
    decreases |text| - i
  {
    if i + |needle| <= |text| && !Occurs(text, needle, i) {
      FirstIsLeast(text, needle, i + 1);
    }
  }

  lemma {:induction false} LastIsGreatest(text: seq<char>, needle: seq<char>, i: int)
    requires i + |needle| <= |text|
    ensures
      var r := LastUpTo(text, needle, i);
      && (r == -1 || (r <= i && Occurs(text, needle, r)))
      && forall k :: k <= i && r < k ==> !Occurs(text, needle, k)
    decreases i
  {
    if i >= 0 && !Occurs(text, needle, i) {
      LastIsGreatest(text, needle, i - 1);
    }
  }

  /** string_index gives the least position of the needle and string_last_index the greatest; both give -1 exactly
      when there is none. */
  lemma IndexBounds(text: seq<char>, needle: seq<char>)
    ensures
      var lo, hi := Index(text, needle), LastIndex(text, needle);
      && (lo == -1 <==> hi == -1)
      && (lo != -1 ==> 0 <= lo <= hi && Occurs(text, needle, lo) && Occurs(text, needle, hi))
      && forall k :: Occurs(text, needle, k) ==> 0 <= lo <= k <= hi
  {
    FirstIsLeast(text, needle, 0);
    LastIsGreatest(text, needle, |text| - |needle|);
    forall k | Occurs(text, needle, k) ensures 0 <= Index(text, needle) <= k <= LastIndex(text, needle) {
    }
  }

  /** string_has_prefix, string_has_suffix, string_has_substring, string_substring. */
  predicate HasPrefix(text: seq<char>, needle: seq<char>) {
    |needle| <= |text| && text[..|needle|] == needle
  }

  predicate HasSuffix(text: seq<char>, needle: seq<char>) {
    |needle| <= |text| && text[|text| - |needle|..] == needle
  }

  ghost predicate HasSubstring(text: seq<char>, needle: seq<char>) {
    exists before: seq<char>, after: seq<char> :: text == before + needle + after
  }

  function Substring(text: seq<char>, start: int, end: int): (r: Option<seq<char>>) {
    if start < 0 || end < 0 || end > |text| || start >= end then None else Some(text[start..end])
  }

  /** A substring is given exactly for positions in order inside the text, the end included; it has the length between
      them, and its characters are the text's. */
  lemma SubstringExactly(text: seq<char>, start: int, end: int)
    ensures Substring(text, start, end).Some? <==> 0 <= start < end <= |text|
    ensures
      var r := Substring(text, start, end);
      r.Some? ==> |r.value| == end - start && forall k :: 0 <= k < end - start ==> r.value[k] == text[start + k]
  {
  }

  lemma PrefixAgrees(text: seq<char>, needle: seq<char>)
    ensures HasPrefix(text, needle) <==> Index(text, needle) == 0
  {
    IndexBounds(text, needle);
    if HasPrefix(text, needle) { assert Occurs(text, needle, 0); }
  }

  lemma SuffixAgrees(text: seq<char>, needle: seq<char>)
    ensures HasSuffix(text, needle) <==> LastIndex(text, needle) == |text| - |needle| && |needle| <= |text|
  {
    IndexBounds(text, needle);
    if HasSuffix(text, needle) { assert Occurs(text, needle, |text| - |needle|); }
  }

  lemma SubstringAgrees(text: seq<char>, needle: seq<char>)
    ensures HasSubstring(text, needle) <==> Index(text, needle) >= 0
  {
    IndexBounds(text, needle);
    if before: seq<char>, after: seq<char> :| text == before + needle + after {
      assert Occurs(text, needle, |before|);
    }
    var i := Index(text, needle);
    if i >= 0 { Around(text, needle, i); }
  }

  lemma Around(text: seq<char>, needle: seq<char>, i: nat)
    requires Occurs(text, needle, i)
    ensures text == text[..i] + needle + text[i + |needle|..]
  {
  }

  /** The search functions agree with each other. */
  lemma SearchesAgree(text: seq<char>, needle: seq<char>)
    ensures HasPrefix(text, needle) <==> Index(text, needle) == 0
    ensures HasSuffix(text, needle) <==> LastIndex(text, needle) == |text| - |needle| && |needle| <= |text|
    ensures HasSubstring(text, needle) <==> Index(text, needle) >= 0
    ensures HasSubstring(text, needle) <==> LastIndex(text, needle) >= 0
  {
    PrefixAgrees(text, needle);
    SuffixAgrees(text, needle);
    SubstringAgrees(text, needle);
    IndexBounds(text, needle);
  }

  /** Cutting a non-empty needle out where either search found it gives the needle back. */
  lemma SubstringAtIndex(text: seq<char>, needle: seq<char>)
    requires needle != [] && Index(text, needle) != -1
    ensures Substring(text, Index(text, needle), Index(text, needle) + |needle|) == Some(needle)
    ensures Substring(text, LastIndex(text, needle), LastIndex(text, needle) + |needle|) == Some(needle)
  {
    IndexBounds(text, needle);
  }
}
