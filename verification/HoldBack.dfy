// How much of a buffer could still be the beginning of a delimiter.
module HoldBacks {
  import opened Common
  import opened Occurrences

  predicate EndsWithPrefix<T(==)>(s: seq<T>, d: seq<T>, v: nat) {
    v <= |s| && v <= |d| && s[|s| - v..] == d[..v]
  }

  // The longest suffix of s that is a proper prefix of d, by counting down.
  function CountDown<T(==)>(s: seq<T>, d: seq<T>, v: nat): (h: nat)
    requires v <= |s| && v < |d|
    ensures h <= v && EndsWithPrefix(s, d, h)
    ensures forall w: nat | h < w <= v :: !EndsWithPrefix(s, d, w)
  {
    if v == 0 || EndsWithPrefix(s, d, v) then v else CountDown(s, d, v - 1)
  }

  function HoldBack<T(==)>(s: seq<T>, d: seq<T>): (h: nat)
    requires d != []
    ensures h < |d| && EndsWithPrefix(s, d, h)
    ensures forall w: nat | h < w < |d| :: !EndsWithPrefix(s, d, w)
  {
    CountDown(s, d, Min(|s|, |d| - 1))
  }

  lemma HoldBackUnique<T>(s: seq<T>, d: seq<T>, h: nat)
    requires h < |d| && EndsWithPrefix(s, d, h)
    requires forall w: nat | h < w < |d| :: !EndsWithPrefix(s, d, w)
    ensures HoldBack(s, d) == h
  {
  }

  // A suffix that begins a delimiter still does so once data is cut off its end.
  lemma PrefixEarlier<T>(s: seq<T>, x: seq<T>, d: seq<T>, v: nat)
    requires EndsWithPrefix(s + x, d, v) && v >= |x|
    ensures EndsWithPrefix(s, d, v - |x|)
  {
    var k := v - |x|;
    assert s[|s| - k..] == (s + x)[|s + x| - v..][..k];
    assert d[..k] == d[..v][..k];
  }

  lemma EndsWithPrefixOfConcat<T>(a: seq<T>, s: seq<T>, d: seq<T>, v: nat)
    requires v <= |s|
    ensures EndsWithPrefix(a + s, d, v) <==> EndsWithPrefix(s, d, v)
  {
    assert (a + s)[|a + s| - v..] == s[|s| - v..];
  }

  // What was released earlier plays no part any more: if everything before the
  // held bytes was released with the longest possible hold, then the hold of the
  // whole stream is found in the buffer alone ...
  lemma BufferDecidesHold<T>(released: seq<T>, held: seq<T>, x: seq<T>, d: seq<T>)
    requires d != [] && |held| == HoldBack(released + held, d)
    ensures HoldBack(released + held + x, d) == HoldBack(held + x, d)
  {
    var buffer := held + x;
    ConcatAssoc(released, held, x);
    forall w: nat | HoldBack(buffer, d) < w < |d|
      ensures !EndsWithPrefix(released + buffer, d, w)
    {
      if w <= |buffer| {
        EndsWithPrefixOfConcat(released, buffer, d, w);
      } else {
        NoLongerHold(released + held, x, d, w);
      }
    }
    EndsWithPrefixOfConcat(released, buffer, d, HoldBack(buffer, d));
    HoldBackUnique(released + buffer, d, HoldBack(buffer, d));
  }

  // ... and so is its first delimiter.
  lemma BufferDecidesFirst<T>(released: seq<T>, held: seq<T>, x: seq<T>, d: seq<T>)
    requires d != [] && |held| == HoldBack(released + held, d) && First(released + held, d, 0).None?
    ensures First(released + held + x, d, 0) == Shifted(First(held + x, d, 0), |released|)
  {
    ConcatAssoc(released, held, x);
    forall i: nat | i < |released|
      ensures !OccursAt(released + (held + x), d, i)
    {
      NoEarlierStart(released + held, x, d, i);
    }
    FirstAfter(released, held + x, d);
  }

  function Shifted(p: Option<nat>, delta: nat): Option<nat> {
    if p.None? then None else Some(delta + p.value)
  }

  lemma NoLongerHold<T>(s: seq<T>, x: seq<T>, d: seq<T>, w: nat)
    requires d != [] && HoldBack(s, d) + |x| < w < |d|
    ensures !EndsWithPrefix(s + x, d, w)
  {
    if EndsWithPrefix(s + x, d, w) {
      PrefixEarlier(s, x, d, w);
    }
  }

  // A delimiter of s + x that starts before the held bytes would already be in s.
  lemma NoEarlierStart<T>(s: seq<T>, x: seq<T>, d: seq<T>, i: nat)
    requires d != [] && First(s, d, 0).None? && i + HoldBack(s, d) < |s|
    ensures !OccursAt(s + x, d, i)
  {
    if i + |d| <= |s| {
      OccursAtExtends(s, x, d, i);
    } else if OccursAt(s + x, d, i) {
      var v := |s| - i;
      assert s[|s| - v..] == (s + x)[i..i + |d|][..v];
      assert EndsWithPrefix(s, d, v);
    }
  }

  lemma FirstAfter<T>(a: seq<T>, s: seq<T>, d: seq<T>)
    requires forall i: nat | i < |a| :: !OccursAt(a + s, d, i)
    ensures First(a + s, d, 0) == Shifted(First(s, d, 0), |a|)
  {
    assert (a + s)[|a|..] == s;
    forall i: nat
      ensures OccursAt(s, d, i) <==> OccursAt(a + s, d, |a| + i)
    {
      OccursAtDrop(a + s, d, |a|, i);
    }
    if First(s, d, 0).Some? {
      var p := First(s, d, 0).value;
      forall i: nat | i < |a| + p
        ensures !OccursAt(a + s, d, i)
      {
        if i >= |a| {
          assert !OccursAt(s, d, i - |a|);
        }
      }
      FirstUnique(a + s, d, 0, |a| + p);
    } else {
      forall i: nat
        ensures !OccursAt(a + s, d, i)
      {
        if i >= |a| {
          assert !OccursAt(s, d, i - |a|);
        }
      }
    }
  }
}
