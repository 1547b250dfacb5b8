// When the placeholder loops of the database drivers replace only what the query
// holds: exact conditions on the list of keys (DB/query.cpp,
// DB_MariaDB/query_mariadb.cpp, DB_PostgreSQL/query_pgsql.cpp).
module PlaceholderLaws {
  import opened Common
  import opened Occurrences
  import opened Placeholders
  import opened PlaceholderLoops
  import opened PlaceholderDrivers

  // The next key found is not before the end of a placeholder already put in.
  ghost predicate KeepsOrder(s: LoopState) {
    var c := Choose(s.text, s.keys);
    c.Some? ==> s.done <= c.value.pos
  }

  ghost predicate KeepsOrderAt(q: string, keys: seq<string>, mark: nat -> string, n: nat) {
    var s := Rounds(q, keys, mark, n);
    s.Some? ==> KeepsOrder(s.value)
  }

  // In no round, whatever the query.
  ghost predicate Law(keys: seq<string>, mark: nat -> string) {
    forall q, n :: KeepsOrderAt(q, keys, mark, n)
  }

  // Clean keys keep the law; by then the loop is the scan.
  lemma LawOfClean(keys: seq<string>, mark: nat -> string)
    requires Sorted(keys) && Clean(keys, mark)
    ensures Law(keys, mark)
  {
    hide Sorted, Clean, OnItsWay, KeepsOrder, Rounds;
    assert "" !in keys by { CleanNotEmpty(keys, mark); }
    forall q, n
      ensures KeepsOrderAt(q, keys, mark, n)
    {
      CleanProgress(q, keys, mark, n);
      if Rounds(q, keys, mark, n).Some? {
        FoundBehindFront(q, keys, mark, Rounds(q, keys, mark, n).value);
      }
    }
  }

  lemma CleanNotEmpty(keys: seq<string>, mark: nat -> string)
    requires Clean(keys, mark)
    ensures "" !in keys
  {
  }

  lemma FoundBehindFront(q: string, keys: seq<string>, mark: nat -> string, s: LoopState)
    requires "" !in keys && OnItsWay(q, keys, mark, s)
    ensures KeepsOrder(s)
  {
    hide Scan, Sorted;
  }

  // ---- Keys kept apart --------------------------------------------------------------------

  // Text after `sep`, and up to the next `sep`, has its keys chosen as if alone.
  ghost predicate Separates(sep: string, keys: seq<string>) {
    forall w, rest | Choose(w, keys).Some? :: ChosenAlone(sep, w, rest, keys)
  }

  ghost predicate ChosenAlone(sep: string, w: string, rest: string, keys: seq<string>)
    requires Choose(w, keys).Some?
  {
    var c := Choose(w, keys).value;
    Takes(sep + w + (sep + rest), keys, c.key, |sep| + c.pos)
  }

  // A single key needs nothing.
  lemma NothingSeparatesOne(k: string)
    ensures Separates("", [k])
  {
    hide First;
    forall w, rest | Choose(w, [k]).Some?
      ensures ChosenAlone("", w, rest, [k])
    {
      assert "" + w + ("" + rest) == w + rest;
      FirstExtends(w, rest, k);
      ChooseOnly(w, k);
      ChooseOnly(w + rest, k);
    }
  }

  lemma ChooseOnly(q: string, k: string)
    ensures Choose(q, [k]) == if First(q, k, 0).None? then None else Some(Choice(First(q, k, 0).value, k))
    ensures Surviving([k], q) == if First(q, k, 0).None? then [] else [k]
  {
    assert [k][..0] == [];
  }

  lemma OneKeySorted(k: string)
    ensures Sorted([k])
  {
  }

  // For several, a character that is in none of them does.
  lemma ForeignCharSeparates(keys: seq<string>, z: char)
    requires Sorted(keys) && "" !in keys && forall k | k in keys :: z !in k
    ensures Separates([z], keys)
  {
    hide Sorted, Choose, OccursAt;
    forall w, rest | Choose(w, keys).Some?
      ensures ChosenAlone([z], w, rest, keys)
    {
      var c, q := Choose(w, keys).value, [z] + w + ([z] + rest);
      LeftmostIsChosen(w, keys, c);
      OccursInside(w, c.key, c.pos);
      OccursBetween(w, z, rest, c.key, 1 + c.pos);
      forall k, i: nat | k in keys && i <= 1 + c.pos && OccursAt(q, k, i)
        ensures i > 0 && OccursAt(w, k, i - 1)
      {
        OccursBetween(w, z, rest, k, i);
      }
      LeftmostIsChosen(q, keys, Choice(1 + c.pos, c.key));
    }
  }

  lemma OccursBetween(w: string, z: char, rest: string, k: string, i: nat)
    requires k != "" && z !in k && i <= |w| + 1
    ensures OccursAt([z] + w + ([z] + rest), k, i) <==> i > 0 && OccursAt(w, k, i - 1)
  {
    var q := [z] + w + ([z] + rest);
    if i > 0 && i - 1 + |k| <= |w| {
      assert q[i..i + |k|] == w[i - 1..i - 1 + |k|];
    } else if i + |k| <= |q| {
      var at := if i == 0 then 0 else |w| + 1 - i;
      assert q[i + at] == z;
      CharAgrees(q, k, i, at);
    }
  }

  lemma CharAgrees(q: string, k: string, i: nat, j: nat)
    requires j < |k| && i + |k| <= |q|
    ensures OccursAt(q, k, i) ==> q[i + j] == k[j]
  {
    if OccursAt(q, k, i) {
      assert q[i..i + |k|][j] == q[i + j];
    }
  }

  // ---- The first rounds of a query made for the purpose ------------------------------------------

  // What is chosen behind the front, if the order is kept, when all keys would take k' there.
  lemma TakenBehind(s: LoopState, keys: seq<string>, part: string, k': string, i: nat)
    requires Sorted(keys) && Sorted(s.keys) && (forall k | k in s.keys :: k in keys)
    requires s.done <= |s.text| && s.text[s.done..] == part && Takes(part, keys, k', i)
    requires k' in s.keys && KeepsOrder(s)
    ensures Choose(s.text, s.keys) == Some(Choice(s.done + i, k'))
  {
    hide Sorted, Choose, OccursAt;
    LeftmostIsChosen(part, keys, Choice(i, k'));
    OccursAtDrop(s.text, k', s.done, i);
    LeftmostIsLeast(s);
    forall k, at: nat | k in s.keys && at <= s.done + i && OccursAt(s.text, k, at)
      ensures at >= s.done && OccursAt(part, k, at - s.done)
    {
      OccursAtDrop(s.text, k, s.done, at - s.done);
    }
    LeftmostIsChosen(s.text, s.keys, Choice(s.done + i, k'));
  }

  lemma LeftmostIsLeast(s: LoopState)
    requires KeepsOrder(s)
    ensures forall k, at: nat | k in s.keys && at < s.done :: !OccursAt(s.text, k, at)
  {
    hide OccursAt;
    forall k, at: nat | k in s.keys && at < s.done
      ensures !OccursAt(s.text, k, at)
    {
      assert First(s.text, k, 0).None? || s.done <= First(s.text, k, 0).value;
    }
  }

  // The round that replaces it: u is what stands before the key, rest what follows it.
  lemma RoundBehind(s: LoopState, mark: nat -> string, keys: seq<string>, u: string, k': string, rest: string)
    requires Sorted(keys) && Sorted(s.keys) && (forall k | k in s.keys :: k in keys)
    requires s.done <= |s.text| && s.text[s.done..] == u + k' + rest && Takes(u + k' + rest, keys, k', |u|)
    requires k' in s.keys && KeepsOrder(s)
    ensures Round(s, mark).Some?
    ensures var r, put := Round(s, mark).value, mark(|s.used|);
            && r.keys == Surviving(s.keys, s.text) && r.used == s.used + [k']
            && r.done == s.done + |u| + |put| <= |r.text|
            && r.text[s.done..] == u + put + rest && r.text[r.done..] == rest
  {
    hide First, OccursAt, Replace, Choose, Surviving, Sorted;
    TakenBehind(s, keys, u + k' + rest, k', |u|);
    var a := s.text[..s.done];
    assert s.text == a + (u + k' + rest);
    ReplacedBehind(a, u, k', rest, mark(|s.used|));
  }

  lemma ReplacedBehind(a: string, u: string, k: string, rest: string, put: string)
    ensures var r := Replace(a + (u + k + rest), Choice(|a| + |u|, k), put);
            && |a| + |u| + |put| <= |r|
            && r[|a|..] == u + put + rest && r[|a| + |u| + |put|..] == rest
  {
    var q := a + (u + k + rest);
    assert q[..|a| + |u|] == a + u;
    assert q[|a| + |u| + |k|..] == rest;
  }

  lemma OccursBehind(q: string, from: nat, part: string, k: string, i: nat)
    requires from <= |q| && q[from..] == part && OccursAt(part, k, i)
    ensures OccursAt(q, k, from + i) && First(q, k, 0).Some?
  {
    OccursAtDrop(q, k, from, i);
    assert OccursAt(q, k, from + i);
  }

  // ---- Copies of a key, replaced one by one ---------------------------------------------------------

  function Copies(t: string, n: nat): string {
    if n == 0 then "" else t + Copies(t, n - 1)
  }

  // A key alone is taken where it stands.
  lemma AloneIsTaken(keys: seq<string>, k: string)
    requires Sorted(keys) && "" !in keys && k in keys
    ensures Takes(k, keys, k, 0)
  {
    hide Sorted, Choose;
    assert k[0..|k|] == k;
    LeftmostIsChosen(k, keys, Choice(0, k));
  }

  // After i rounds: the rest of the query still to come stands behind the front, and
  // the keys that its tail holds are still looked for.
  ghost predicate Reached(s: LoopState, keys: seq<string>, needed: seq<string>, i: nat, rest: string) {
    && |s.used| == i && s.done <= |s.text| && s.text[s.done..] == rest
    && Sorted(s.keys) && (forall x | x in s.keys :: x in keys) && (forall x | x in needed :: x in s.keys)
  }

  ghost predicate AllIn(needed: seq<string>, keys: seq<string>, tail: string) {
    forall x | x in needed :: x in keys && First(tail, x, 0).Some?
  }

  // A round that finds k' where it would be taken alone keeps the rest behind it.
  lemma ReachNext(s: LoopState, mark: nat -> string, keys: seq<string>, needed: seq<string>, i: nat,
                  u: string, k': string, a: string, tail: string)
    requires Sorted(keys) && AllIn(needed, keys, tail) && k' in s.keys
    requires Reached(s, keys, needed, i, u + k' + (a + tail)) && Takes(u + k' + (a + tail), keys, k', |u|)
    requires KeepsOrder(s)
    ensures Round(s, mark).Some? && Reached(Round(s, mark).value, keys, needed, i + 1, a + tail)
    ensures var r := Round(s, mark).value;
            && r.done == s.done + |u| + |mark(i)| <= |r.text|
            && r.text[s.done..] == u + mark(i) + (a + tail)
  {
    hide Sorted, First, Choose, Takes, Round, KeepsOrder;
    RoundBehind(s, mark, keys, u, k', a + tail);
    SurvivingSorted(s.keys, s.text);
    forall x | x in needed
      ensures x in Surviving(s.keys, s.text)
    {
      FoundInTail(tail, x, s.text[..s.done] + (u + k' + a));
      assert s.text == s.text[..s.done] + (u + k' + a) + tail;
    }
  }

  lemma FoundInTail(tail: string, k: string, a: string)
    requires First(tail, k, 0).Some?
    ensures First(a + tail, k, 0).Some?
  {
    FoundInside(a, tail, "", k);
    assert a + tail + "" == a + tail;
  }

  lemma {:induction false} ReachBehindCopies(keys: seq<string>, mark: nat -> string, sep: string, needed: seq<string>,
                                             k': string, t: string, n: nat, i: nat)
    requires Sorted(keys) && "" !in keys && Separates(sep, keys) && Law(keys, mark)
    requires i <= n && AllIn(needed, keys, sep + t) && k' in needed
    ensures var s := Rounds(Copies(sep + k', n) + (sep + t), keys, mark, i);
            s.Some? && Reached(s.value, keys, needed, i, Copies(sep + k', n - i) + (sep + t))
  {
    hide Sorted, KeepsOrder, Separates, Round, Takes;
    var q := Copies(sep + k', n) + (sep + t);
    if i == 0 {
      StartState(q, keys, mark);
      assert q[0..] == q;
    } else {
      ReachBehindCopies(keys, mark, sep, needed, k', t, n, i - 1);
      assert KeepsOrderAt(q, keys, mark, i - 1);
      CopyIsTaken(keys, sep, k', t, n - i);
      var s, a := Rounds(q, keys, mark, i - 1).value, Copies(sep + k', n - i);
      ReachNext(s, mark, keys, needed, i - 1, sep, k', a, sep + t);
      NextState(q, keys, mark, i - 1);
    }
  }

  lemma CopyIsTaken(keys: seq<string>, sep: string, k': string, t: string, n: nat)
    requires Sorted(keys) && "" !in keys && k' in keys && Separates(sep, keys)
    ensures var rest := Copies(sep + k', n) + (sep + t);
            && Copies(sep + k', n + 1) + (sep + t) == sep + k' + rest
            && Takes(sep + k' + rest, keys, k', |sep|)
  {
    hide Sorted, Choose, Copies;
    AloneIsTaken(keys, k');
    var more := CopiesLed(sep, k', n, t);
    assert ChosenAlone(sep, k', more, keys);
  }

  lemma CopiesLed(sep: string, k: string, n: nat, t: string) returns (more: string)
    ensures Copies(sep + k, n) + (sep + t) == sep + more
    ensures Copies(sep + k, n + 1) + (sep + t) == sep + k + (Copies(sep + k, n) + (sep + t))
  {
    var step := sep + k;
    ConcatAssoc(step, Copies(step, n), sep + t);
    if n == 0 {
      more := t;
      assert "" + (sep + t) == sep + t;
    } else {
      more := k + (Copies(step, n - 1) + (sep + t));
      ConcatAssoc(step, Copies(step, n - 1), sep + t);
      ConcatAssoc(sep, k, Copies(step, n - 1) + (sep + t));
    }
  }

  // ---- A key found too early -----------------------------------------------------------------------

  // The round that replaces k' has k begin before the end of the placeholder.
  lemma ClashInRound(s: LoopState, mark: nat -> string, keys: seq<string>, sep: string, n: nat,
                     u: string, k': string, v: string, k: string, at: nat)
    requires Sorted(keys) && k in keys && k' in keys
    requires Reached(s, keys, [k, k'], n, sep + u + k' + (v + sep + k)) && KeepsOrder(s)
    requires Takes(sep + u + k' + (v + sep + k), keys, k', |sep + u|)
    requires OccursAt(u + mark(n) + v, k, at) && at < |u| + |mark(n)|
    ensures Round(s, mark).Some? && !KeepsOrder(Round(s, mark).value)
  {
    hide Sorted, Takes, OccursAt, First, Choose, Round, KeepsOrder;
    FoundAtStart(k);
    ReachNext(s, mark, keys, [k], n, sep + u, k', v + sep, k);
    ClashShifted(sep, u, mark(n), v, k, at);
    var r := Round(s, mark).value;
    OccursBehind(r.text, s.done, sep + u + mark(n) + (v + sep + k), k, |sep| + at);
    FoundTooEarly(r, k, s.done + |sep| + at);
  }

  lemma FoundAtStart(k: string)
    ensures First(k, k, 0) == Some(0)
  {
    assert k[0..|k|] == k;
  }

  lemma ClashShifted(sep: string, u: string, put: string, v: string, k: string, at: nat)
    requires OccursAt(u + put + v, k, at)
    ensures OccursAt(sep + u + put + (v + sep + k), k, |sep| + at)
  {
    var t := sep + u + put + (v + sep + k);
    assert t == sep + (u + put + v) + (sep + k);
    assert t[|sep| + at..|sep| + at + |k|] == (u + put + v)[at..at + |k|];
  }

  lemma FoundTooEarly(s: LoopState, k: string, at: nat)
    requires k in s.keys && OccursAt(s.text, k, at) && at < s.done
    ensures !KeepsOrder(s)
  {
    var f := First(s.text, k, 0);
    assert f.Some? && f.value <= at;
  }

  // Behind u, k' and v, where k' would be replaced, k stands once more; if with the
  // placeholder in place of k' an occurrence of k begins too early, the law is broken.
  lemma ClashBreaksLaw(keys: seq<string>, mark: nat -> string, sep: string, n: nat,
                       u: string, k': string, v: string, k: string, at: nat)
    requires Sorted(keys) && "" !in keys && Separates(sep, keys)
    requires k' in keys && k in keys && Takes(u + k' + v, keys, k', |u|)
    requires OccursAt(u + mark(n) + v, k, at) && at < |u| + |mark(n)|
    ensures !Law(keys, mark)
  {
    hide Sorted, KeepsOrder, Separates, Round, Takes, OccursAt, Reached, AllIn;
    if Law(keys, mark) {
      var t := u + k' + v + (sep + k);
      var q := Copies(sep + k', n) + (sep + t);
      BothInTail(keys, sep, u, k', v, k);
      ReachBehindCopies(keys, mark, sep, [k, k'], k', t, n, n);
      ClashAlone(keys, sep, u, k', v, k);
      assert KeepsOrderAt(q, keys, mark, n) && KeepsOrderAt(q, keys, mark, n + 1);
      ClashInRound(Rounds(q, keys, mark, n).value, mark, keys, sep, n, u, k', v, k, at);
      NextState(q, keys, mark, n);
    }
  }

  lemma BothInTail(keys: seq<string>, sep: string, u: string, k': string, v: string, k: string)
    requires k in keys && k' in keys
    ensures AllIn([k, k'], keys, sep + (u + k' + v + (sep + k)))
  {
    hide First;
    var tail := sep + (u + k' + v + (sep + k));
    FoundAtStart(k);
    FoundAtStart(k');
    FoundInside(sep + u, k', v + (sep + k), k');
    assert tail == sep + u + k' + (v + (sep + k));
    FoundInside(sep + u + k' + v + sep, k, "", k);
    assert tail == sep + u + k' + v + sep + k + "";
  }

  lemma ClashAlone(keys: seq<string>, sep: string, u: string, k': string, v: string, k: string)
    requires Separates(sep, keys) && Takes(u + k' + v, keys, k', |u|)
    ensures "" + (sep + (u + k' + v + (sep + k))) == sep + u + k' + (v + sep + k)
    ensures Takes(sep + u + k' + (v + sep + k), keys, k', |sep + u|)
  {
    hide Choose;
    var w := u + k' + v;
    assert ChosenAlone(sep, w, k, keys);
    Regroup(sep, u, k', v, sep + k);
    ConcatAssoc(v, sep, k);
    ConcatAssoc(sep, w, sep + k);
    assert "" + (sep + (w + (sep + k))) == sep + (w + (sep + k));
  }

  lemma Regroup(a: string, u: string, k: string, v: string, b: string)
    ensures a + (u + k + v) + b == a + u + k + (v + b)
  {
    ConcatAssoc(a, u + k, v);
    ConcatAssoc(a, u, k);
    ConcatAssoc(a + u + k, v, b);
  }

  // ---- The law, exactly -------------------------------------------------------------------------------

  lemma EmptyKeyBreaksLaw(keys: seq<string>, mark: nat -> string)
    requires "" in keys && mark(0) != ""
    ensures !Law(keys, mark)
  {
    hide KeepsOrder, Surviving, First;
    if Law(keys, mark) {
      StartState("", keys, mark);
      NextState("", keys, mark, 0);
      assert KeepsOrderAt("", keys, mark, 1);
      EmptyFound("");
      var s := LoopState("", keys, [], 0);
      var r := Round(s, mark).value;
      FoundTooEarly(r, "", 0);
    }
  }

  lemma {:induction false} LongestListed(keys: seq<string>) returns (k: string)
    requires keys != []
    ensures k in keys && forall x | x in keys :: |x| <= |k|
    decreases |keys|
  {
    k := keys[0];
    if |keys| > 1 {
      assert keys == [k] + keys[1..];
      var other := LongestListed(keys[1..]);
      k := if |k| < |other| then other else k;
    }
  }

  // The longest key is taken wherever the text begins with it.
  lemma LongestIsTaken(keys: seq<string>, k: string, v: string)
    requires Sorted(keys) && k in keys && forall x | x in keys :: |x| <= |k|
    ensures Takes(k + v, keys, k, 0)
  {
    hide Sorted, Choose;
    assert (k + v)[0..|k|] == k;
    LeftmostIsChosen(k + v, keys, Choice(0, k));
  }

  // A key that begins inside a placeholder breaks the law ...
  lemma InsideBreaksLaw(keys: seq<string>, mark: nat -> string, sep: string, n: nat, k: string, t: nat)
    requires Sorted(keys) && "" !in keys && Separates(sep, keys) && k in keys
    requires 1 <= t < |mark(n)| && Agree(k, mark(n)[t..])
    ensures !Law(keys, mark)
  {
    hide Sorted, Separates, Takes, OccursAt, Law, Agree, Beyond;
    var k' := LongestListed(keys);
    var v := Beyond(k, |mark(n)| - t);
    LongestIsTaken(keys, k', v);
    assert "" + k' + v == k' + v;
    BeginsInside(k, mark(n), t, v);
    ClashBreaksLaw(keys, mark, sep, n, "", k', v, k, t);
  }

  lemma BeginsInside(k: string, put: string, t: nat, v: string)
    requires 1 <= t < |put| && Agree(k, put[t..]) && v == Beyond(k, |put| - t)
    ensures OccursAt("" + put + v, k, t)
  {
    var s := put[t..] + v;
    assert forall i | 0 <= i < |k| :: k[i] == s[i];
    assert ("" + put + v)[t..t + |k|] == k;
  }

  // ... and so does one that reaches into a placeholder from the left, where just the
  // key in the placeholder's place would be replaced.
  lemma IntoBreaksLaw(keys: seq<string>, mark: nat -> string, sep: string, n: nat, k: string, j: nat, k': string)
    requires Sorted(keys) && "" !in keys && Separates(sep, keys) && k in keys && k' in keys
    requires j < |k| && mark(n) != "" && Agree(k[j..], mark(n))
    requires Takes(k[..j] + k' + Beyond(k, j + |mark(n)|), keys, k', j)
    ensures !Law(keys, mark)
  {
    hide Sorted, Separates, Takes, OccursAt, Law, Agree, Beyond;
    var v := Beyond(k, j + |mark(n)|);
    ReachesInto(k, mark(n), j, v);
    ClashBreaksLaw(keys, mark, sep, n, k[..j], k', v, k, 0);
  }

  lemma ReachesInto(k: string, put: string, j: nat, v: string)
    requires j < |k| && Agree(k[j..], put) && v == Beyond(k, j + |put|)
    ensures OccursAt(k[..j] + put + v, k, 0)
  {
    var s := k[..j] + put + v;
    forall i | 0 <= i < |k|
      ensures k[i] == s[i]
    {
      if j <= i < j + |put| {
        assert k[j..][i - j] == put[i - j];
      }
    }
    assert s[0..|k|] == k;
  }

  lemma SeparatedLawExactly(keys: seq<string>, mark: nat -> string, sep: string)
    requires Sorted(keys) && "" !in keys && Separates(sep, keys) && forall n :: mark(n) != ""
    ensures Law(keys, mark) <==> Clean(keys, mark)
  {
    hide Law, Separates, Takes, Agree, Beyond, Sorted;
    if Clean(keys, mark) {
      LawOfClean(keys, mark);
    } else {
      var n, k :| k in keys && !Apart(k, mark(n), keys);
      if !NoneInside(k, mark(n)) {
        var t :| 1 <= t < |mark(n)| && Agree(k, mark(n)[t..]);
        InsideBreaksLaw(keys, mark, sep, n, k, t);
      } else {
        var j, k' :| 0 <= j < |k| && k' in keys && Agree(k[j..], mark(n))
                     && Takes(k[..j] + k' + Beyond(k, j + |mark(n)|), keys, k', j);
        IntoBreaksLaw(keys, mark, sep, n, k, j, k');
      }
    }
  }

  // A loop keeps the law on every query exactly when its keys are clean; z is any
  // character that is in none of them.
  lemma LawExactly(keys: seq<string>, mark: nat -> string, z: char)
    requires Sorted(keys) && (forall k | k in keys :: z !in k) && forall n :: mark(n) != ""
    ensures Law(keys, mark) <==> Clean(keys, mark)
  {
    hide Law, Clean, Separates, Sorted;
    if "" in keys {
      EmptyKeyBreaksLaw(keys, mark);
      EmptyKeyNotClean(keys, mark);
    } else {
      ForeignCharSeparates(keys, z);
      SeparatedLawExactly(keys, mark, [z]);
    }
  }

  lemma EmptyKeyNotClean(keys: seq<string>, mark: nat -> string)
    requires "" in keys
    ensures !Clean(keys, mark)
  {
  }

  // With one key no such character is needed.
  lemma OneKeyLawExactly(k: string, mark: nat -> string)
    requires forall n :: mark(n) != ""
    ensures Law([k], mark) <==> Clean([k], mark)
  {
    hide Law, Clean, Separates, Sorted;
    OneKeySorted(k);
    if k == "" {
      EmptyKeyBreaksLaw([k], mark);
      EmptyKeyNotClean([k], mark);
    } else {
      NothingSeparatesOne(k);
      SeparatedLawExactly([k], mark, "");
    }
  }

  // MariaDB: exactly the lists in which no text around a question mark of a key, with a
  // key in its place, has just that key replaced there.
  lemma QuestionListExactly(keys: seq<string>, z: char)
    requires Sorted(keys) && forall k | k in keys :: z !in k
    ensures Law(keys, QUESTION) <==> QuestionSafe(keys)
  {
    hide Law, Clean, QuestionSafe, Sorted;
    LawExactly(keys, QUESTION, z);
    CleanForQuestion(keys);
  }

  // PostgreSQL: exactly the lists in which no key begins with a digit and the same holds
  // for a dollar sign that a number follows, or nothing.
  lemma DollarListExactly(keys: seq<string>, z: char)
    requires Sorted(keys) && forall k | k in keys :: z !in k
    ensures Law(keys, DOLLAR) <==> DollarSafe(keys)
  {
    hide Law, Clean, DollarSafe, Sorted;
    DollarIsMark();
    LawExactly(keys, DOLLAR, z);
    CleanForDollar(keys);
  }

  // One key and MariaDB: exactly the nonempty keys without a question mark.
  lemma QuestionOneKeyExactly(k: string)
    ensures Law([k], QUESTION) <==> k != "" && '?' !in k
  {
    hide Law, Clean;
    OneKeyLawExactly(k, QUESTION);
    CleanForQuestion([k]);
    FirstQuestionUnsafe(k);
  }

  lemma FirstQuestionUnsafe(k: string)
    ensures QuestionSafe([k]) <==> k != "" && '?' !in k
  {
    hide First;
    if '?' in k {
      var j := FirstQuestion(k, 0);
      FoundBetweenHalves(k, j);
      ChooseOnly(k[..j] + k + k[j + 1..], k);
      assert k in [k] && Takes(k[..j] + k + k[j + 1..], [k], k, j);
      assert !QuestionSafeKey(k, [k]);
    } else {
      forall x, j, k' | x in [k] && 0 <= j < |x| && k' in [k]
        ensures x == k && (x[j] == '?' ==> !Takes(x[..j] + k' + x[j + 1..], [k], k', j))
      {
        assert x[j] in k;
      }
      assert QuestionSafeKey(k, [k]);
    }
  }

  function FirstQuestion(k: string, i: nat): (j: nat)
    requires i <= |k| && '?' in k[i..] && '?' !in k[..i]
    ensures i <= j < |k| && k[j] == '?' && '?' !in k[..j]
    decreases |k| - i
  {
    if k[i] == '?' then i
    else
      assert k[i..] == [k[i]] + k[i + 1..] && k[..i + 1] == k[..i] + [k[i]];
      FirstQuestion(k, i + 1)
  }

  // The first question mark of a key splits it in two; the key put between the two
  // halves is found there and nowhere before.
  lemma FoundBetweenHalves(k: string, j: nat)
    requires j < |k| && k[j] == '?' && '?' !in k[..j]
    ensures First(k[..j] + k + k[j + 1..], k, 0) == Some(j)
  {
    var u, v := k[..j], k[j + 1..];
    var q := u + k + v;
    assert q[j..j + |k|] == k;
    forall i: nat | i < j
      ensures !OccursAt(q, k, i)
    {
      assert q[i + j] == k[i] == u[i] && u[i] in u;
      CharAgrees(q, k, i, j);
    }
    FirstUnique(q, k, 0, j);
  }

  // One key and PostgreSQL.
  lemma DollarOneKeyExactly(k: string)
    ensures Law([k], DOLLAR) <==> DollarSafe([k])
  {
    hide Law, Clean, DollarSafe;
    DollarIsMark();
    OneKeyLawExactly(k, DOLLAR);
    CleanForDollar([k]);
  }

  // Lists that keep the law: any without a dollar sign last or before a digit ...
  lemma PlainDollarsSafe(keys: seq<string>)
    requires forall k | k in keys :: k != "" && !Digit(k[0]) && forall j | 0 <= j < |k| :: !DollarEnds(k, j)
    ensures DollarSafe(keys) && (Sorted(keys) ==> Law(keys, DOLLAR))
  {
    hide Law, Clean, Takes;
    forall k, j, x | k in keys && 0 <= j < |k| && 0 <= x < |k| - j
      ensures !DollarMark(k, j, x)
    {
      MarkEnds(k, j, x);
    }
    CleanForDollar(keys);
    if Sorted(keys) {
      LawOfClean(keys, DOLLAR);
    }
  }

  predicate DollarEnds(k: string, j: nat)
    requires j < |k|
  {
    k[j] == '$' && (j + 1 == |k| || Digit(k[j + 1]))
  }

  lemma MarkEnds(k: string, j: nat, x: nat)
    requires j + x < |k|
    ensures DollarMark(k, j, x) ==> DollarEnds(k, j)
  {
    if DollarMark(k, j, x) && x > 0 {
      assert k[j + 1..j + 1 + x][0] == k[j + 1];
      assert k[j + 1] in k[j + 1..j + 1 + x];
    }
  }

  // ... a key that begins with the dollar sign it ends with ...
  lemma DollarAtBothEndsSafe()
    ensures DollarSafe(["$x$"]) && Law(["$x$"], DOLLAR)
  {
    hide Law, First;
    var k := "$x$";
    forall j, x | 0 <= j < |k| && 0 <= x < |k| - j && DollarMark(k, j, x)
      ensures !Takes(k[..j] + k + k[j + 1 + x..], [k], k, j)
    {
      MarkEnds(k, j, x);
      assert j == 2 && k[..2] + k + k[3..] == "$x$x$";
      assert OccursAt("$x$x$", k, 0);
    }
    DollarOneKeyExactly(k);
  }

  // ... and a key with a question mark beside another one.
  lemma QuestionBesideOtherSafe()
    ensures QuestionSafe(["a", "a?"]) && Law(["a", "a?"], QUESTION)
  {
    hide Law, Clean, Takes, Less;
    var keys := ["a", "a?"];
    forall k, j, k' | k in keys && 0 <= j < |k| && k[j] == '?' && k' in keys
      ensures !Takes(k[..j] + k' + k[j + 1..], keys, k', j)
    {
      assert k == "a?" && j == 1 && k[..1] == "a";
      StartsWithKey("a" + k' + k[2..], keys, "a", k');
    }
    CleanForQuestion(keys);
    assert Less("a", "a?") by { ShorterIsLess(); }
    LawOfClean(keys, QUESTION);
  }

  lemma StartsWithKey(s: string, keys: seq<string>, k: string, k': string)
    requires k in keys && k <= s
    ensures !Takes(s, keys, k', 1)
  {
    assert OccursAt(s, k, 0);
    FirstUnique(s, k, 0, 0);
  }

  lemma ShorterIsLess()
    ensures Less("a", "a?")
  {
    assert "a"[1..] == "" && "a?"[1..] == "?";
  }
}
