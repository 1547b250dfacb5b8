// Leftmost occurrences of one sequence inside another, the reference meaning
// of every search in the library.
module Occurrences {
  import opened Common

  predicate OccursAt<T(==)>(s: seq<T>, needle: seq<T>, i: nat) {
    i + |needle| <= |s| && s[i..i + |needle|] == needle
  }

  // The leftmost occurrence that starts at or after `from`.
  function First<T(==)>(s: seq<T>, needle: seq<T>, from: nat): (r: Option<nat>)
    ensures r.Some? ==> from <= r.value && OccursAt(s, needle, r.value)
    ensures r.Some? ==> forall i: nat | from <= i < r.value :: !OccursAt(s, needle, i)
    ensures r.None? ==> forall i: nat | from <= i :: !OccursAt(s, needle, i)
    decreases |s| + 1 - from
  {
    if from + |needle| > |s| then None
    else if OccursAt(s, needle, from) then Some(from)
    else First(s, needle, from + 1)
  }

  lemma FirstUnique<T>(s: seq<T>, needle: seq<T>, from: nat, p: nat)
    requires from <= p && OccursAt(s, needle, p)
    requires forall i: nat | from <= i < p :: !OccursAt(s, needle, i)
    ensures First(s, needle, from) == Some(p)
  {
  }

  // An occurrence stays an occurrence, at the same place, when text is added on the right.
  lemma OccursAtExtends<T>(s: seq<T>, t: seq<T>, needle: seq<T>, i: nat)
    requires i + |needle| <= |s|
    ensures OccursAt(s + t, needle, i) <==> OccursAt(s, needle, i)
  {
    assert (s + t)[i..i + |needle|] == s[i..i + |needle|];
  }

  lemma FirstExtends<T>(s: seq<T>, t: seq<T>, needle: seq<T>)
    requires First(s, needle, 0).Some?
    ensures First(s + t, needle, 0) == First(s, needle, 0)
  {
    var p := First(s, needle, 0).value;
    forall i: nat | i <= p
      ensures OccursAt(s + t, needle, i) <==> OccursAt(s, needle, i)
    {
      OccursAtExtends(s, t, needle, i);
    }
    FirstUnique(s + t, needle, 0, p);
  }

  // Dropping a prefix shifts occurrences.
  lemma OccursAtDrop<T>(s: seq<T>, needle: seq<T>, k: nat, i: nat)
    requires k <= |s|
    ensures OccursAt(s[k..], needle, i) <==> OccursAt(s, needle, k + i)
  {
    if i + |needle| <= |s| - k {
      assert s[k..][i..i + |needle|] == s[k + i..k + i + |needle|];
    }
  }
}
