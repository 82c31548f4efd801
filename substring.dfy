/**
 Substring search on strings, as the Go library's `strings.Contains(s, substr)`
 answers it: does `substr` occur somewhere in `s`? The empty string occurs in
 every string.
 */
module Substring {

  /** `t` occurs in `s` starting at position `i`. */
  predicate OccursAt(t: string, s: string, i: nat)
  {
    i + |t| <= |s| && s[i..i + |t|] == t
  }

  /** `t` occurs somewhere in `s`. */
  ghost predicate IsSubstring(t: string, s: string)
  {
    exists i: nat :: OccursAt(t, s, i)
  }

  /** An occurrence past the first position is an occurrence in the tail. */
  lemma OccursInTail(t: string, s: string)
    requires s != []
    ensures forall i: nat :: 1 <= i && OccursAt(t, s, i) ==> OccursAt(t, s[1..], i - 1)
    ensures forall j: nat :: OccursAt(t, s[1..], j) ==> OccursAt(t, s, j + 1)
  {
    forall j: nat
      ensures OccursAt(t, s[1..], j) <==> OccursAt(t, s, j + 1)
    {
      if j + 1 + |t| <= |s| {
        assert s[1..][j..j + |t|] == s[j + 1..j + 1 + |t|];
      }
    }
  }

  /** `strings.Contains(s, substr)`: tries every start position from the left. */
  function StringContains(s: string, substr: string): (r: bool)
    ensures r <==> IsSubstring(substr, s)
    decreases |s|
  {
    if |substr| > |s| then
      false
    else if s[..|substr|] == substr then
      assert OccursAt(substr, s, 0);
      true
    else
      OccursInTail(substr, s);
      StringContains(s[1..], substr)
  }

  /** The empty string is a substring of every string. */
  lemma EmptyIsSubstring(s: string)
    ensures StringContains(s, "")
  {
    assert OccursAt("", s, 0);
  }

  /** Every string is a substring of itself. */
  lemma SelfIsSubstring(s: string)
    ensures StringContains(s, s)
  {
    assert OccursAt(s, s, 0);
  }
}
