// Named keys to positional placeholders: Query::replaceFirstKey (DB/query.cpp), and
// the scan of a query that the drivers mean when they repeat it.
module Placeholders {
  import opened Common
  import opened Occurrences

  // ---- The key list ------------------------------------------------------------

  // The order in which std::map hands out its keys.
  predicate Less(a: string, b: string)
    decreases |a|
  {
    if b == "" then false
    else if a == "" then true
    else a[0] < b[0] || (a[0] == b[0] && Less(a[1..], b[1..]))
  }

  // Lexicographic: a proper prefix first, and otherwise by the first difference.
  lemma {:induction false} LessMeaning(a: string, b: string)
    ensures Less(a, b) <==> (a <= b && a != b) || exists i :: FirstDifference(a, b, i) && a[i] < b[i]
    decreases |a|
  {
    hide FirstDifference;
    if a != "" && b != "" && a[0] == b[0] {
      LessMeaning(a[1..], b[1..]);
      SameFirstCharacter(a, b);
    } else if a != "" && b != "" {
      OtherFirstCharacter(a, b);
    } else {
      NoDifference(a, b);
    }
  }

  lemma NoDifference(a: string, b: string)
    requires a == "" || b == ""
    ensures forall i :: !FirstDifference(a, b, i)
  {
  }

  lemma OtherFirstCharacter(a: string, b: string)
    requires a != "" && b != "" && a[0] != b[0]
    ensures forall i :: FirstDifference(a, b, i) <==> i == 0
    ensures !(a <= b)
  {
  }

  lemma SameFirstCharacter(a: string, b: string)
    requires a != "" && b != "" && a[0] == b[0]
    ensures (a <= b && a != b) <==> (a[1..] <= b[1..] && a[1..] != b[1..])
    ensures (exists i :: FirstDifference(a, b, i) && a[i] < b[i])
       <==> (exists i :: FirstDifference(a[1..], b[1..], i) && a[1..][i] < b[1..][i])
  {
    assert a == [a[0]] + a[1..] && b == [b[0]] + b[1..];
    if i :| FirstDifference(a[1..], b[1..], i) && a[1..][i] < b[1..][i] {
      LaterDifference(a, b, i + 1);
    }
    if i :| FirstDifference(a, b, i) && a[i] < b[i] {
      LaterDifference(a, b, i);
    }
  }

  lemma LaterDifference(a: string, b: string, i: int)
    requires a != "" && b != "" && a[0] == b[0]
    ensures FirstDifference(a, b, i) <==> FirstDifference(a[1..], b[1..], i - 1)
  {
    if 0 < i < |a| && i < |b| {
      assert a[..i] == [a[0]] + a[1..][..i - 1] && b[..i] == [b[0]] + b[1..][..i - 1];
      assert a[1..][..i - 1] == a[..i][1..] && b[1..][..i - 1] == b[..i][1..];
    }
  }

  predicate FirstDifference(a: string, b: string, i: int) {
    0 <= i < |a| && i < |b| && a[..i] == b[..i] && a[i] != b[i]
  }

  ghost predicate Sorted(keys: seq<string>) {
    forall i, j | 0 <= i < j < |keys| :: Less(keys[i], keys[j])
  }

  // Of two keys that begin the same text, the later one is the longer one.
  lemma {:induction false} LaterIsLonger(a: string, b: string, s: string)
    requires Less(a, b) && a <= s && b <= s
    ensures |a| < |b|
    decreases |a|
  {
    if a != "" {
      assert a[0] == s[0] == b[0];
      assert a[1..] <= s[1..] && b[1..] <= s[1..];
      LaterIsLonger(a[1..], b[1..], s[1..]);
    }
  }

  // The keys that still occur somewhere in the query, in their order.
  function Surviving(keys: seq<string>, q: string): (r: seq<string>)
    ensures forall k :: k in r <==> k in keys && First(q, k, 0).Some?
  {
    if keys == [] then []
    else
      var last := keys[|keys| - 1];
      var before := Surviving(keys[..|keys| - 1], q);
      assert keys == keys[..|keys| - 1] + [last];
      if First(q, last, 0).Some? then before + [last] else before
  }

  lemma {:induction false} SurvivingSorted(keys: seq<string>, q: string)
    requires Sorted(keys)
    ensures Sorted(Surviving(keys, q))
    decreases |keys|
  {
    if keys != [] {
      var last, init := keys[|keys| - 1], keys[..|keys| - 1];
      SurvivingSorted(init, q);
      var before := Surviving(init, q);
      forall i | 0 <= i < |before|
        ensures Less(before[i], last)
      {
        assert before[i] in init;
        var j :| 0 <= j < |init| && init[j] == before[i];
        assert keys[j] == before[i] && keys[|keys| - 1] == last;
      }
    }
  }

  // ---- One replacement -----------------------------------------------------------

  datatype Choice = Choice(pos: nat, key: string)

  // The key that occurs first; among keys found at the same place, the last one listed.
  function Choose(q: string, keys: seq<string>): (c: Option<Choice>)
    ensures c.None? ==> forall k | k in keys :: First(q, k, 0).None?
    ensures c.Some? ==> c.value.key in keys && First(q, c.value.key, 0) == Some(c.value.pos)
    ensures c.Some? ==> forall k | k in keys :: First(q, k, 0).None? || c.value.pos <= First(q, k, 0).value
  {
    if keys == [] then None
    else
      var last := keys[|keys| - 1];
      var before := Choose(q, keys[..|keys| - 1]);
      var pos := First(q, last, 0);
      assert keys == keys[..|keys| - 1] + [last];
      if pos.Some? && (before.None? || pos.value <= before.value.pos) then Some(Choice(pos.value, last)) else before
  }

  function Replace(q: string, c: Choice, put: string): string
    requires c.pos + |c.key| <= |q|
  {
    q[..c.pos] + put + q[c.pos + |c.key|..]
  }

  function Remove(keys: seq<string>, key: string): seq<string> {
    if keys == [] then []
    else
      var before := Remove(keys[..|keys| - 1], key);
      if keys[|keys| - 1] == key then before else before + [keys[|keys| - 1]]
  }

  function Except(keys: seq<string>, gone: seq<string>): seq<string> {
    if keys == [] then []
    else
      var before := Except(keys[..|keys| - 1], gone);
      if keys[|keys| - 1] in gone then before else before + [keys[|keys| - 1]]
  }

  lemma {:induction false} RemoveOneMore(keys: seq<string>, gone: seq<string>, key: string)
    ensures Remove(Except(keys, gone), key) == Except(keys, gone + [key])
    decreases |keys|
  {
    if keys != [] {
      var init, last := keys[..|keys| - 1], keys[|keys| - 1];
      RemoveOneMore(init, gone, key);
      var before := Except(init, gone);
      if last !in gone {
        assert (before + [last])[..|before + [last]| - 1] == before;
      }
    }
  }

  lemma {:induction false} ExceptNothing(keys: seq<string>)
    ensures Except(keys, []) == keys
    decreases |keys|
  {
    if keys != [] {
      ExceptNothing(keys[..|keys| - 1]);
    }
  }

  lemma {:induction false} ExceptAbsent(keys: seq<string>, gone: seq<string>, q: string)
    requires forall k :: k in keys ==> (k in gone <==> First(q, k, 0).None?)
    ensures Except(keys, gone) == Surviving(keys, q)
    decreases |keys|
  {
    if keys != [] {
      ExceptAbsent(keys[..|keys| - 1], gone, q);
    }
  }

  // replaceFirstKey, with its in-out parameters as results.
  method ReplaceFirstKey(sqlQuery: string, keysIn: seq<string>, keysOutByPos: seq<string>, replaceBy: string)
    returns (found: bool, query: string, keys: seq<string>, keysOut: seq<string>)
    ensures keys == Surviving(keysIn, sqlQuery)
    ensures found == Choose(sqlQuery, keysIn).Some?
    ensures found ==>
              var c := Choose(sqlQuery, keysIn).value;
              query == Replace(sqlQuery, c, replaceBy) && keysOut == keysOutByPos + [c.key]
    ensures !found ==> query == sqlQuery && keysOut == keysOutByPos
  {
    hide First, Surviving, Except, Remove;
    var toDelete := [];
    var firstKeyPos, firstKeyFound := None, "";
    for i := 0 to |keysIn|
      invariant Choose(sqlQuery, keysIn[..i])
             == if firstKeyPos.None? then None else Some(Choice(firstKeyPos.value, firstKeyFound))
      invariant forall k :: k in toDelete <==> k in keysIn[..i] && First(sqlQuery, k, 0).None?
    {
      var key := keysIn[i];
      assert keysIn[..i + 1][..i] == keysIn[..i];
      assert keysIn[..i + 1] == keysIn[..i] + [key];
      var pos := First(sqlQuery, key, 0);
      if pos.Some? {
        if firstKeyPos.None? || pos.value <= firstKeyPos.value {
          firstKeyPos := pos;
          firstKeyFound := key;
        }
      } else {
        toDelete := toDelete + [key];
      }
    }
    assert keysIn[..|keysIn|] == keysIn;
    keys := keysIn;
    ExceptNothing(keysIn);
    for j := 0 to |toDelete|
      invariant keys == Except(keysIn, toDelete[..j])
    {
      RemoveOneMore(keysIn, toDelete[..j], toDelete[j]);
      assert toDelete[..j + 1] == toDelete[..j] + [toDelete[j]];
      keys := Remove(keys, toDelete[j]);
    }
    assert toDelete[..|toDelete|] == toDelete;
    ExceptAbsent(keysIn, toDelete, sqlQuery);
    if firstKeyPos.Some? {
      query := Replace(sqlQuery, Choice(firstKeyPos.value, firstKeyFound), replaceBy);
      return true, query, keys, keysOutByPos + [firstKeyFound];
    }
    return false, sqlQuery, keys, keysOutByPos;
  }

  // ---- One scan from left to right --------------------------------------------------

  // The longest key that begins s.
  function LongestKey(s: string, keys: seq<string>): (r: Option<string>)
    ensures r.Some? ==> r.value in keys && r.value <= s
    ensures forall k | k in keys && k <= s :: r.Some? && |k| <= |r.value|
  {
    if keys == [] then None
    else
      var last := keys[|keys| - 1];
      var before := LongestKey(s, keys[..|keys| - 1]);
      assert keys == keys[..|keys| - 1] + [last];
      if last <= s && (before.None? || |before.value| < |last|) then Some(last) else before
  }

  // Two keys of the same length that begin the same text are the same key.
  lemma LongestKeyIs(s: string, keys: seq<string>, key: string)
    requires key in keys && key <= s && forall k | k in keys && k <= s :: |k| <= |key|
    ensures LongestKey(s, keys) == Some(key)
  {
    var r := LongestKey(s, keys).value;
    assert r == s[..|r|] && key == s[..|key|];
  }

  datatype Scanned = Scanned(text: string, used: seq<string>)

  // Each place where a key begins is replaced, longest key first, by the mark of
  // its number; every other character is copied.
  function Scan(s: string, keys: seq<string>, mark: nat -> string, n: nat): Scanned
    requires "" !in keys
    decreases |s|
  {
    if s == "" then Scanned("", [])
    else
      var k := LongestKey(s, keys);
      if k.None? then
        var r := Scan(s[1..], keys, mark, n);
        Scanned([s[0]] + r.text, r.used)
      else
        var r := Scan(s[|k.value|..], keys, mark, n + 1);
        Scanned(mark(n) + r.text, [k.value] + r.used)
  }

  function After(text: string, used: seq<string>, r: Scanned): Scanned {
    Scanned(text + r.text, used + r.used)
  }

  lemma AfterAfter(t1: string, u1: seq<string>, t2: string, u2: seq<string>, r: Scanned)
    ensures After(t1, u1, After(t2, u2, r)) == After(t1 + t2, u1 + u2, r)
  {
    ConcatAssoc(t1, t2, r.text);
    ConcatAssoc(u1, u2, r.used);
  }

  lemma KeyHere(s: string, keys: seq<string>)
    ensures LongestKey(s, keys).Some? ==> OccursAt(s, LongestKey(s, keys).value, 0)
  {
  }

  lemma NoKeyHere(s: string, keys: seq<string>)
    requires forall k | k in keys :: !OccursAt(s, k, 0)
    ensures LongestKey(s, keys).None?
  {
    hide LongestKey, OccursAt;
    KeyHere(s, keys);
  }

  lemma ScanOneChar(s: string, keys: seq<string>, mark: nat -> string, n: nat)
    requires "" !in keys && s != "" && LongestKey(s, keys).None?
    ensures Scan(s, keys, mark, n) == After([s[0]], [], Scan(s[1..], keys, mark, n))
  {
  }

  lemma ScanOneKey(s: string, keys: seq<string>, mark: nat -> string, n: nat, k: string)
    requires "" !in keys && LongestKey(s, keys) == Some(k)
    ensures |k| <= |s|
    ensures Scan(s, keys, mark, n) == After(mark(n), [k], Scan(s[|k|..], keys, mark, n + 1))
  {
  }

  // Where no key begins, the scan only copies.
  lemma {:induction false} ScanCopies(s: string, keys: seq<string>, mark: nat -> string, n: nat, p: nat)
    requires "" !in keys && p <= |s|
    requires forall i: nat, k | i < p && k in keys :: !OccursAt(s, k, i)
    ensures Scan(s, keys, mark, n) == After(s[..p], [], Scan(s[p..], keys, mark, n))
    decreases p
  {
    hide Scan, After, LongestKey, OccursAt;
    if p == 0 {
      assert s[0..] == s && s[..0] == "";
      AfterNothing(Scan(s, keys, mark, n));
    } else {
      forall i: nat, k | i < p - 1 && k in keys
        ensures !OccursAt(s[1..], k, i)
      {
        OccursAtDrop(s, k, 1, i);
      }
      NoKeyHere(s, keys);
      ScanOneChar(s, keys, mark, n);
      ScanCopies(s[1..], keys, mark, n, p - 1);
      assert s[1..][p - 1..] == s[p..];
      assert s[..p] == [s[0]] + s[1..][..p - 1];
      var none: seq<string> := [];
      assert none + none == none;
      AfterAfter([s[0]], none, s[1..][..p - 1], none, Scan(s[p..], keys, mark, n));
    }
  }

  lemma AfterNothing(r: Scanned)
    ensures After("", [], r) == r
  {
  }

  // ---- Reading the marks back ------------------------------------------------------------

  // Puts the keys back: the n-th mark, recognised by its first character, becomes
  // the n-th key.
  function Restore(t: string, used: seq<string>, lead: char, mark: nat -> string, n: nat): string
    decreases |t|
  {
    if t == "" then ""
    else if t[0] == lead && used != [] && 0 < |mark(n)| <= |t| then
      used[0] + Restore(t[|mark(n)|..], used[1..], lead, mark, n + 1)
    else [t[0]] + Restore(t[1..], used, lead, mark, n)
  }

  // Nothing is lost, and the k-th key belongs to the k-th mark: for a query without
  // the marks' first character, putting the keys back gives the original query.
  lemma {:induction false} RestoreScan(s: string, keys: seq<string>, lead: char, mark: nat -> string, n: nat)
    requires "" !in keys && lead !in s
    requires forall m :: mark(m) != "" && mark(m)[0] == lead
    ensures Restore(Scan(s, keys, mark, n).text, Scan(s, keys, mark, n).used, lead, mark, n) == s
    decreases |s|
  {
    if s != "" {
      var k := LongestKey(s, keys);
      if k.None? {
        var r := Scan(s[1..], keys, mark, n);
        RestoreScan(s[1..], keys, lead, mark, n);
        assert s[0] in s;
        assert ([s[0]] + r.text)[1..] == r.text;
      } else {
        var r := Scan(s[|k.value|..], keys, mark, n + 1);
        RestoreScan(s[|k.value|..], keys, lead, mark, n + 1);
        assert (mark(n) + r.text)[|mark(n)|..] == r.text;
        assert ([k.value] + r.used)[1..] == r.used;
        assert s == k.value + s[|k.value|..];
      }
    }
  }
}
