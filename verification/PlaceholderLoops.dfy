// The loop of the database drivers over Query::replaceFirstKey (DB/query.cpp): its
// rounds, what it computes when it ends, and when that is one scan of the query.
module PlaceholderLoops {
  import opened Common
  import opened Occurrences
  import opened Placeholders

  // ---- The rounds of a loop -------------------------------------------------------------

  // The loop after some rounds; `done` is where the placeholder put in last ends.
  datatype LoopState = LoopState(text: string, keys: seq<string>, used: seq<string>, done: nat)

  // One call of replaceFirstKey; None when it finds nothing.
  function Round(s: LoopState, mark: nat -> string): Option<LoopState> {
    var c := Choose(s.text, s.keys);
    if c.None? then None
    else
      var put := mark(|s.used|);
      Some(LoopState(Replace(s.text, c.value, put), Surviving(s.keys, s.text), s.used + [c.value.key],
                     c.value.pos + |put|))
  }

  // None when the loop has ended before its n-th round.
  function Rounds(q: string, keys: seq<string>, mark: nat -> string, n: nat): Option<LoopState> {
    if n == 0 then Some(LoopState(q, keys, [], 0))
    else
      var before := Rounds(q, keys, mark, n - 1);
      if before.None? then None else Round(before.value, mark)
  }

  ghost predicate Ends(q: string, keys: seq<string>, mark: nat -> string) {
    exists n :: Rounds(q, keys, mark, n).None?
  }

  // The loop reaches its m-th round, which finds nothing, with this text and these keys.
  ghost predicate EndsWith(q: string, keys: seq<string>, mark: nat -> string, m: nat, r: Scanned) {
    && Rounds(q, keys, mark, m).Some? && Rounds(q, keys, mark, m + 1).None?
    && r == Scanned(Rounds(q, keys, mark, m).value.text, Rounds(q, keys, mark, m).value.used)
  }

  // The text a loop leaves and the keys it notes; None when it does not end.
  ghost function Rewritten(q: string, keys: seq<string>, mark: nat -> string): (r: Option<Scanned>)
    ensures r.Some? <==> Ends(q, keys, mark)
    ensures r.Some? ==> exists m :: EndsWith(q, keys, mark, m, r.value)
  {
    if n :| Rounds(q, keys, mark, n).None? then
      LastRoundExists(q, keys, mark, n);
      var r :| exists m :: EndsWith(q, keys, mark, m, r);
      Some(r)
    else None
  }

  lemma {:induction false} LastRoundExists(q: string, keys: seq<string>, mark: nat -> string, n: nat)
    requires Rounds(q, keys, mark, n).None?
    ensures exists r, m :: EndsWith(q, keys, mark, m, r)
  {
    hide Round;
    StartState(q, keys, mark);
    if Rounds(q, keys, mark, n - 1).None? {
      LastRoundExists(q, keys, mark, n - 1);
    } else {
      var s := Rounds(q, keys, mark, n - 1).value;
      assert EndsWith(q, keys, mark, n - 1, Scanned(s.text, s.used));
    }
  }

  lemma StartState(q: string, keys: seq<string>, mark: nat -> string)
    ensures Rounds(q, keys, mark, 0) == Some(LoopState(q, keys, [], 0))
  {
  }

  lemma NextState(q: string, keys: seq<string>, mark: nat -> string, n: nat)
    requires Rounds(q, keys, mark, n).Some?
    ensures Rounds(q, keys, mark, n + 1) == Round(Rounds(q, keys, mark, n).value, mark)
  {
  }

  lemma {:induction false} EndedStaysEnded(q: string, keys: seq<string>, mark: nat -> string, m: nat, n: nat)
    requires m <= n && Rounds(q, keys, mark, m).None?
    ensures Rounds(q, keys, mark, n).None?
    decreases n
  {
    hide Round;
    if m < n {
      EndedStaysEnded(q, keys, mark, m, n - 1);
    }
  }

  // A loop ends in one state only.
  lemma RewrittenIs(q: string, keys: seq<string>, mark: nat -> string, m: nat)
    requires Rounds(q, keys, mark, m).Some? && Rounds(q, keys, mark, m + 1).None?
    ensures var s := Rounds(q, keys, mark, m).value; Rewritten(q, keys, mark) == Some(Scanned(s.text, s.used))
  {
    hide Round, Rounds;
    var r := Rewritten(q, keys, mark).value;
    var i: nat :| EndsWith(q, keys, mark, i, r);
    assert Rounds(q, keys, mark, i + 1).None?;
    if i < m {
      EndedStaysEnded(q, keys, mark, i + 1, m);
    } else if m < i {
      EndedStaysEnded(q, keys, mark, m + 1, i);
    }
  }

  lemma {:induction false} OneKeyARound(q: string, keys: seq<string>, mark: nat -> string, n: nat)
    ensures Rounds(q, keys, mark, n).Some? ==> |Rounds(q, keys, mark, n).value.used| == n
  {
    hide Choose, Surviving, Replace;
    if n > 0 {
      OneKeyARound(q, keys, mark, n - 1);
    }
  }

  // ---- When a replacement can create a key ---------------------------------------------------

  // Whether two texts agree as far as both of them go.
  predicate Agree(a: string, b: string) {
    forall i | 0 <= i < |a| && i < |b| :: a[i] == b[i]
  }

  function Beyond(k: string, i: nat): string {
    if i < |k| then k[i..] else ""
  }

  // The loop would replace k at i in s.
  predicate Takes(s: string, keys: seq<string>, k: string, i: nat) {
    Choose(s, keys) == Some(Choice(i, k))
  }

  // No occurrence of k can begin inside `put`.
  ghost predicate NoneInside(k: string, put: string) {
    forall t | 1 <= t < |put| :: !Agree(k, put[t..])
  }

  // Where an occurrence of k would reach into `put` from the left, the text that
  // this takes, with a key in place of `put`, has another key replaced first.
  ghost predicate NoneInto(k: string, put: string, keys: seq<string>) {
    forall j, k' | 0 <= j < |k| && k' in keys && Agree(k[j..], put) ::
      !Takes(k[..j] + k' + Beyond(k, j + |put|), keys, k', j)
  }

  // No occurrence of k can come about where `put` replaces a key.
  ghost predicate Apart(k: string, put: string, keys: seq<string>) {
    NoneInside(k, put) && NoneInto(k, put, keys)
  }

  // Keys that a replacement can neither create nor extend.
  ghost predicate Clean(keys: seq<string>, mark: nat -> string) {
    && (forall n :: mark(n) != "")
    && (forall k | k in keys :: k != "")
    && (forall n, k | k in keys :: Apart(k, mark(n), keys))
  }

  // ---- The leftmost and longest key ------------------------------------------------------------

  // The choice is at the leftmost place where any of the keys occurs, and no longer
  // one occurs there.
  ghost predicate Leftmost(q: string, keys: seq<string>, c: Choice) {
    && c.key in keys && OccursAt(q, c.key, c.pos)
    && (forall k, i: nat | k in keys && i < c.pos :: !OccursAt(q, k, i))
    && (forall k | k in keys && OccursAt(q, k, c.pos) :: |k| <= |c.key|)
  }

  // With sorted keys, the key chosen is the longest one that begins at its place.
  lemma {:induction false} ChosenIsLast(q: string, keys: seq<string>, k: string)
    requires Sorted(keys) && Choose(q, keys).Some? && k in keys
    requires OccursAt(q, k, Choose(q, keys).value.pos)
    ensures |k| <= |Choose(q, keys).value.key|
    decreases |keys|
  {
    hide First, Less, OccursAt;
    var init, last := keys[..|keys| - 1], keys[|keys| - 1];
    var c := Choose(q, keys).value;
    assert keys == init + [last];
    if k == last {
      ListedLastIsChosen(q, keys, c.pos);
    } else if c.key == last {
      LastOutlasts(q, keys, c.pos, k);
    } else {
      ChosenIsLast(q, init, k);
    }
  }

  lemma LastOutlasts(q: string, keys: seq<string>, pos: nat, k: string)
    requires Sorted(keys) && keys != [] && k in keys && k != keys[|keys| - 1]
    requires OccursAt(q, k, pos) && OccursAt(q, keys[|keys| - 1], pos)
    ensures |k| < |keys[|keys| - 1]|
  {
    var j :| 0 <= j < |keys| && keys[j] == k;
    var s := q[pos..];
    assert k == s[..|k|] && keys[|keys| - 1] == s[..|keys[|keys| - 1]|];
    LaterIsLonger(k, keys[|keys| - 1], s);
  }

  lemma ListedLastIsChosen(q: string, keys: seq<string>, pos: nat)
    requires keys != [] && Choose(q, keys).Some? && Choose(q, keys).value.pos == pos
    requires OccursAt(q, keys[|keys| - 1], pos)
    ensures Choose(q, keys).value.key == keys[|keys| - 1]
  {
    FirstUnique(q, keys[|keys| - 1], 0, pos);
  }

  // With sorted keys, that is exactly the choice of the loop.
  lemma LeftmostIsChosen(q: string, keys: seq<string>, c: Choice)
    requires Sorted(keys)
    ensures Leftmost(q, keys, c) <==> Choose(q, keys) == Some(c)
  {
    hide Sorted, Choose;
    if Leftmost(q, keys, c) {
      FirstUnique(q, c.key, 0, c.pos);
      var d := Choose(q, keys).value;
      assert d.pos <= c.pos;
      ChosenIsLast(q, keys, c.key);
      assert d.key == q[c.pos..c.pos + |d.key|] && c.key == q[c.pos..c.pos + |c.key|];
    } else if Choose(q, keys) == Some(c) {
      forall k | k in keys && OccursAt(q, k, c.pos)
        ensures |k| <= |c.key|
      {
        ChosenIsLast(q, keys, k);
      }
    }
  }

  // It is still the choice in a part of the query around it.
  lemma LeftmostInPart(q: string, keys: seq<string>, c: Choice, from: nat, to: nat)
    requires Leftmost(q, keys, c) && from <= c.pos && c.pos + |c.key| <= to <= |q|
    ensures Leftmost(q[from..to], keys, Choice(c.pos - from, c.key))
  {
    hide OccursAt;
    var part := q[from..to];
    OccursInPart(q, from, to, c.key, c.pos - from);
    forall k, i: nat | k in keys && i <= c.pos - from && OccursAt(part, k, i)
      ensures OccursAt(q, k, from + i)
    {
      OccursInPart(q, from, to, k, i);
    }
  }

  lemma OccursInPart(q: string, from: nat, to: nat, k: string, i: nat)
    requires from <= to <= |q|
    ensures OccursAt(q[from..to], k, i) ==> OccursAt(q, k, from + i)
    ensures OccursAt(q, k, from + i) && from + i + |k| <= to ==> OccursAt(q[from..to], k, i)
  {
    if from + i + |k| <= to {
      SliceOfSlice(q, from, to, i, i + |k|);
    }
  }

  // ---- One replacement ---------------------------------------------------------------------------

  // What an occurrence of k at i takes that reaches into the placeholder: the text to
  // its left, agreement with it, and the text to its right.
  predicate ReachesIn(q: string, c: Choice, put: string, k: string, i: nat)
    requires i <= c.pos < i + |k| && c.pos + |c.key| <= |q|
  {
    && var right := Beyond(k, c.pos - i + |put|);
    && k[..c.pos - i] == q[i..c.pos] && Agree(k[c.pos - i..], put)
    && right <= q[c.pos + |c.key|..]
  }

  // An occurrence in a query after a replacement is one the query already had,
  // before or after the replaced key, unless it begins inside what was put in or
  // reaches into it from the left.
  lemma OccurrenceAfterReplace(q: string, c: Choice, put: string, k: string, i: nat)
    requires c.pos + |c.key| <= |q| && k != "" && put != ""
    requires OccursAt(Replace(q, c, put), k, i)
    ensures || (i + |k| <= c.pos && OccursAt(q, k, i))
            || (i >= c.pos + |put| && OccursAt(q, k, i - |put| + |c.key|))
            || (c.pos < i < c.pos + |put| && Agree(k, put[i - c.pos..]))
            || (i <= c.pos < i + |k| && ReachesIn(q, c, put, k, i))
  {
    hide ReachesIn;
    var r := Replace(q, c, put);
    if i + |k| <= c.pos {
      assert r[i..i + |k|] == q[i..i + |k|];
    } else if i >= c.pos + |put| {
      var d := i - |put| + |c.key|;
      assert r[i..i + |k|] == q[d..d + |k|];
    } else if i <= c.pos {
      OccurrenceInto(q, c, put, k, i);
    } else {
      assert forall j | 0 <= j < |k| :: k[j] == r[i + j];
    }
  }

  lemma OccurrenceInto(q: string, c: Choice, put: string, k: string, i: nat)
    requires i <= c.pos < i + |k| && c.pos + |c.key| <= |q|
    requires OccursAt(Replace(q, c, put), k, i)
    ensures ReachesIn(q, c, put, k, i)
  {
    var r, j := Replace(q, c, put), c.pos - i;
    SliceOfSlice(r, i, i + |k|, 0, j);
    assert k[..j] == q[i..c.pos];
    assert forall t | 0 <= t < |put| :: r[c.pos + t] == put[t];
    assert forall t | j <= t < |k| :: k[t] == r[i + t];
    if j + |put| < |k| {
      SliceOfSlice(r, i, i + |k|, j + |put|, |k|);
      assert r[c.pos + |put|..] == q[c.pos + |c.key|..];
      SliceOfSuffix(r, c.pos + |put|, |k| - j - |put|);
    }
  }

  // After the leftmost key was replaced, every key occurs after the mark only, and
  // where it already was.
  lemma OnlyAfterMark(q: string, keys: seq<string>, c: Choice, put: string, k: string, i: nat)
    requires Sorted(keys) && Leftmost(q, keys, c) && c.pos + |c.key| <= |q|
    requires k in keys && k != "" && put != "" && Apart(k, put, keys)
    requires OccursAt(Replace(q, c, put), k, i)
    ensures i >= c.pos + |put| && OccursAt(q, k, i - |put| + |c.key|)
  {
    hide Replace, Agree, OccursAt, Sorted, Choose, Beyond, ReachesIn;
    OccurrenceAfterReplace(q, c, put, k, i);
    if i <= c.pos < i + |k| {
      NothingReachesIn(q, keys, c, put, k, i);
    }
  }

  lemma NothingReachesIn(q: string, keys: seq<string>, c: Choice, put: string, k: string, i: nat)
    requires i <= c.pos < i + |k| && c.pos + |c.key| <= |q|
    requires Sorted(keys) && Leftmost(q, keys, c) && Apart(k, put, keys)
    ensures !ReachesIn(q, c, put, k, i)
  {
    hide OccursAt, Sorted, Choose, Beyond, Agree, NoneInside, NoneInto, Leftmost;
    if ReachesIn(q, c, put, k, i) {
      var j, right := c.pos - i, Beyond(k, c.pos - i + |put|);
      assert c.key in keys && OccursAt(q, c.key, c.pos) by { LeftmostOccurs(q, keys, c); }
      TextAround(q, c, i, right);
      LeftmostInPart(q, keys, c, i, c.pos + |c.key| + |right|);
      LeftmostIsChosen(k[..j] + c.key + right, keys, Choice(j, c.key));
      NotTaken(k, put, keys, j, c.key);
    }
  }

  lemma LeftmostOccurs(q: string, keys: seq<string>, c: Choice)
    requires Leftmost(q, keys, c)
    ensures c.key in keys && OccursAt(q, c.key, c.pos)
  {
  }

  lemma NotTaken(k: string, put: string, keys: seq<string>, j: nat, k': string)
    requires NoneInto(k, put, keys) && j < |k| && k' in keys && Agree(k[j..], put)
    ensures !Takes(k[..j] + k' + Beyond(k, j + |put|), keys, k', j)
  {
    hide Takes, Agree, Beyond;
  }

  lemma TextAround(q: string, c: Choice, from: nat, right: string)
    requires from <= c.pos && c.pos + |c.key| <= |q| && OccursAt(q, c.key, c.pos)
    requires right <= q[c.pos + |c.key|..]
    ensures c.pos + |c.key| + |right| <= |q|
    ensures q[from..c.pos + |c.key| + |right|] == q[from..c.pos] + c.key + right
  {
    var m, to := c.pos + |c.key|, c.pos + |c.key| + |right|;
    SliceOfSuffix(q, m, |right|);
    assert q[from..to] == q[from..c.pos] + q[c.pos..m] + q[m..to];
  }

  // A key that is nowhere in the query is nowhere in it after a replacement.
  lemma AbsentStaysAbsent(q: string, keys: seq<string>, c: Choice, put: string, k: string)
    requires Sorted(keys) && Leftmost(q, keys, c) && c.pos + |c.key| <= |q|
    requires k in keys && k != "" && put != "" && Apart(k, put, keys)
    requires First(q, k, 0).None?
    ensures First(Replace(q, c, put), k, 0).None?
  {
    hide First, Replace, Leftmost, Apart, Sorted;
    var r := First(Replace(q, c, put), k, 0);
    if r.Some? {
      OnlyAfterMark(q, keys, c, put, k, r.value);
    }
  }

  // The leftmost choice leaves no key beginning before the end of its mark.
  lemma FrontStaysClean(q: string, keys: seq<string>, c: Choice, put: string, k: string, i: nat)
    requires Sorted(keys) && Leftmost(q, keys, c) && c.pos + |c.key| <= |q|
    requires k in keys && k != "" && put != "" && Apart(k, put, keys)
    requires i < c.pos + |put|
    ensures !OccursAt(Replace(q, c, put), k, i)
  {
    hide OccursAt, Replace, Leftmost, Apart, Sorted;
    if OccursAt(Replace(q, c, put), k, i) {
      OnlyAfterMark(q, keys, c, put, k, i);
    }
  }

  // ---- The loop is the scan ------------------------------------------------------------------------

  // The state of the loop: a finished front in which no key begins any more, and
  // the rest of the original query, still to be scanned.
  ghost predicate Progress(q0: string, keys0: seq<string>, mark: nat -> string,
                           q: string, keys: seq<string>, used: seq<string>, done: nat)
    requires "" !in keys0
  {
    && done <= |q| && Sorted(keys) && Sorted(keys0)
    && (forall k | k in keys :: k in keys0)
    && (forall k | k in keys0 && k !in keys :: First(q, k, 0).None?)
    && (forall k, i: nat | k in keys && i < done :: !OccursAt(q, k, i))
    && Scan(q0, keys0, mark, 0) == After(q[..done], used, Scan(q[done..], keys0, mark, |used|))
  }

  lemma StartOfLoop(q0: string, keys0: seq<string>, mark: nat -> string)
    requires "" !in keys0 && Sorted(keys0)
    ensures Progress(q0, keys0, mark, q0, keys0, [], 0)
  {
    hide Scan;
    assert q0[..0] == "" && q0[0..] == q0;
    AfterNothing(Scan(q0, keys0, mark, 0));
  }

  // No surviving key begins before the chosen place, and no pruned key begins at all.
  lemma NothingBeforeChoice(q: string, keys0: seq<string>, keys: seq<string>, done: nat, k: string, i: nat)
    requires done <= |q| && Choose(q, keys).Some? && k in keys0
    requires forall k | k in keys0 && k !in keys :: First(q, k, 0).None?
    requires i < Choose(q, keys).value.pos
    ensures !OccursAt(q, k, i)
  {
    hide OccursAt, Choose;
    if k in keys {
      assert First(q, k, 0).None? || Choose(q, keys).value.pos <= First(q, k, 0).value;
    } else {
      assert First(q, k, 0).None?;
    }
  }

  // The choice among the keys that are left is the one among all keys.
  lemma LeftmostOfAll(q: string, keys0: seq<string>, keys: seq<string>)
    requires Sorted(keys) && Choose(q, keys).Some?
    requires forall k | k in keys :: k in keys0
    requires forall k | k in keys0 && k !in keys :: First(q, k, 0).None?
    ensures Leftmost(q, keys0, Choose(q, keys).value)
  {
    hide First, Choose, Sorted, OccursAt;
    LeftmostIsChosen(q, keys, Choose(q, keys).value);
  }

  // At the chosen place the scan takes the chosen key.
  lemma ScanTakesChoice(q: string, keys0: seq<string>, keys: seq<string>)
    requires Sorted(keys) && Choose(q, keys).Some?
    requires forall k | k in keys :: k in keys0
    requires forall k | k in keys0 && k !in keys :: First(q, k, 0).None?
    ensures LongestKey(q[Choose(q, keys).value.pos..], keys0) == Some(Choose(q, keys).value.key)
  {
    hide LongestKey, Choose, First, Sorted;
    var c := Choose(q, keys).value;
    var s := q[c.pos..];
    forall k | k in keys0 && k <= s
      ensures |k| <= |c.key|
    {
      assert k == s[..|k|] == q[c.pos..c.pos + |k|];
      assert OccursAt(q, k, c.pos);
      assert k in keys;
      ChosenIsLast(q, keys, k);
    }
    assert c.key == s[..|c.key|];
    LongestKeyIs(s, keys0, c.key);
  }

  // The rest of the query, scanned: a copied stretch, one mark, and what follows the key.
  lemma ScanToNextMark(q: string, keys0: seq<string>, keys: seq<string>, mark: nat -> string, n: nat, done: nat)
    requires "" !in keys0 && Sorted(keys) && Choose(q, keys).Some? && done <= Choose(q, keys).value.pos
    requires forall k | k in keys :: k in keys0
    requires forall k | k in keys0 && k !in keys :: First(q, k, 0).None?
    ensures var c := Choose(q, keys).value;
            c.pos + |c.key| <= |q| &&
            Scan(q[done..], keys0, mark, n)
            == After(q[done..c.pos] + mark(n), [c.key], Scan(q[c.pos + |c.key|..], keys0, mark, n + 1))
  {
    hide Scan, After, LongestKey, Choose, First, OccursAt, Sorted;
    var c := Choose(q, keys).value;
    OccursInside(q, c.key, c.pos);
    var rest := q[done..];
    forall i: nat, k | i < c.pos - done && k in keys0
      ensures !OccursAt(rest, k, i)
    {
      OccursAtDrop(q, k, done, i);
      NothingBeforeChoice(q, keys0, keys, done, k, done + i);
    }
    ScanCopies(rest, keys0, mark, n, c.pos - done);
    assert rest[..c.pos - done] == q[done..c.pos] && rest[c.pos - done..] == q[c.pos..];
    ScanTakesChoice(q, keys0, keys);
    ScanOneKey(q[c.pos..], keys0, mark, n, c.key);
    assert q[c.pos..][|c.key|..] == q[c.pos + |c.key|..];
    assert [] + [c.key] == [c.key];
    AfterAfter(q[done..c.pos], [], mark(n), [c.key], Scan(q[c.pos + |c.key|..], keys0, mark, n + 1));
  }

  lemma OccursInside(q: string, k: string, i: nat)
    requires OccursAt(q, k, i)
    ensures i + |k| <= |q|
  {
  }

  lemma ReplaceParts(q: string, c: Choice, put: string)
    requires c.pos + |c.key| <= |q|
    ensures Replace(q, c, put)[..c.pos + |put|] == q[..c.pos] + put
    ensures Replace(q, c, put)[c.pos + |put|..] == q[c.pos + |c.key|..]
  {
  }

  // One replacement moves the loop forward: the front grows past the new mark, and
  // what is left to scan shrinks.
  lemma NextRound(q0: string, keys0: seq<string>, mark: nat -> string,
                  q: string, keys: seq<string>, used: seq<string>, done: nat)
    requires "" !in keys0 && Clean(keys0, mark) && Progress(q0, keys0, mark, q, keys, used, done)
    requires Choose(q, keys).Some?
    ensures var c := Choose(q, keys).value;
            var done' := c.pos + |mark(|used|)|;
            && c.pos + |c.key| <= |q|
            && Progress(q0, keys0, mark, Replace(q, c, mark(|used|)), Surviving(keys, q), used + [c.key], done')
            && |Replace(q, c, mark(|used|))| - done' < |q| - done
  {
    hide Scan, After, Choose, First, Sorted, Surviving, Replace, Apart;
    var c, n := Choose(q, keys).value, |used|;
    OccursInside(q, c.key, c.pos);
    assert done <= c.pos;
    LeftmostOfAll(q, keys0, keys);
    assert c.key != "" && mark(n) != "";
    var q', keys' := Replace(q, c, mark(n)), Surviving(keys, q);
    ReplaceParts(q, c, mark(n));
    ReplaceLength(q, c, mark(n));
    SurvivingSorted(keys, q);
    ScanToNextMark(q, keys0, keys, mark, n, done);
    AfterAfter(q[..done], used, q[done..c.pos] + mark(n), [c.key], Scan(q[c.pos + |c.key|..], keys0, mark, n + 1));
    assert q[..done] + (q[done..c.pos] + mark(n)) == q[..c.pos] + mark(n);
    forall k | k in keys0 && k !in keys'
      ensures First(q', k, 0).None?
    {
      assert First(q, k, 0).None?;
      AbsentStaysAbsent(q, keys0, c, mark(n), k);
    }
    forall k, i: nat | k in keys' && i < c.pos + |mark(n)|
      ensures !OccursAt(q', k, i)
    {
      FrontStaysClean(q, keys0, c, mark(n), k, i);
    }
  }

  lemma ReplaceLength(q: string, c: Choice, put: string)
    requires c.pos + |c.key| <= |q|
    ensures |Replace(q, c, put)| == |q| - |c.key| + |put|
  {
  }

  // When no key is found any more, the query is the scan of the original one.
  lemma EndOfLoop(q0: string, keys0: seq<string>, mark: nat -> string,
                  q: string, keys: seq<string>, used: seq<string>, done: nat)
    requires "" !in keys0 && Progress(q0, keys0, mark, q, keys, used, done) && Choose(q, keys).None?
    ensures Scan(q0, keys0, mark, 0) == Scanned(q, used)
    ensures forall k | k in keys0 :: First(q, k, 0).None?
  {
    hide Scan, Choose, First, Sorted, OccursAt;
    var rest := q[done..];
    forall i: nat, k | i < |rest| && k in keys0
      ensures !OccursAt(rest, k, i)
    {
      OccursAtDrop(q, k, done, i);
      assert First(q, k, 0).None?;
    }
    ScanCopies(rest, keys0, mark, |used|, |rest|);
    ScanNothing(keys0, mark, |used|);
    assert rest[..|rest|] == rest && rest[|rest|..] == "";
    assert q[..done] + (rest + "") == q;
    var none: seq<string> := [];
    assert used + (none + none) == used;
  }

  lemma ScanNothing(keys: seq<string>, mark: nat -> string, n: nat)
    requires "" !in keys
    ensures Scan("", keys, mark, n) == Scanned("", [])
  {
  }

  // ---- The whole loop --------------------------------------------------------------------------------

  ghost predicate OnItsWay(q: string, keys: seq<string>, mark: nat -> string, s: LoopState)
    requires "" !in keys
  {
    Progress(q, keys, mark, s.text, s.keys, s.used, s.done)
  }

  lemma {:induction false} CleanProgress(q: string, keys: seq<string>, mark: nat -> string, n: nat)
    requires Sorted(keys) && "" !in keys && Clean(keys, mark)
    ensures Rounds(q, keys, mark, n).Some? ==> OnItsWay(q, keys, mark, Rounds(q, keys, mark, n).value)
  {
    hide OnItsWay, Clean, Round;
    if n == 0 {
      StartState(q, keys, mark);
      StartsOnItsWay(q, keys, mark);
    } else {
      CleanProgress(q, keys, mark, n - 1);
      if Rounds(q, keys, mark, n - 1).Some? {
        StaysOnItsWay(q, keys, mark, Rounds(q, keys, mark, n - 1).value);
      }
    }
  }

  lemma StartsOnItsWay(q: string, keys: seq<string>, mark: nat -> string)
    requires Sorted(keys) && "" !in keys
    ensures OnItsWay(q, keys, mark, LoopState(q, keys, [], 0))
  {
    StartOfLoop(q, keys, mark);
  }

  lemma StaysOnItsWay(q: string, keys: seq<string>, mark: nat -> string, s: LoopState)
    requires "" !in keys && Clean(keys, mark) && OnItsWay(q, keys, mark, s)
    ensures Round(s, mark).Some? ==>
              && var r := Round(s, mark).value;
              && OnItsWay(q, keys, mark, r) && r.done <= |r.text| && s.done <= |s.text|
              && |r.text| - r.done < |s.text| - s.done
  {
    hide First, Scan, Sorted, Replace, Surviving, Choose, Apart;
    if Choose(s.text, s.keys).Some? {
      NextRound(q, keys, mark, s.text, s.keys, s.used, s.done);
    }
  }

  // For clean keys the loop ends, and is the scan.
  lemma CleanLoopScans(q: string, keys: seq<string>, mark: nat -> string)
    requires Sorted(keys) && "" !in keys && Clean(keys, mark)
    ensures Rewritten(q, keys, mark) == Some(Scan(q, keys, mark, 0))
    ensures forall k | k in keys :: First(Scan(q, keys, mark, 0).text, k, 0).None?
  {
    hide Sorted, Clean, First, Scan, Progress;
    StartState(q, keys, mark);
    var m := CleanLoopEnds(q, keys, mark, 0);
    var s := Rounds(q, keys, mark, m).value;
    CleanProgress(q, keys, mark, m);
    NextState(q, keys, mark, m);
    EndOfLoop(q, keys, mark, s.text, s.keys, s.used, s.done);
    RewrittenIs(q, keys, mark, m);
  }

  lemma {:induction false} CleanLoopEnds(q: string, keys: seq<string>, mark: nat -> string, n: nat) returns (m: nat)
    requires Sorted(keys) && "" !in keys && Clean(keys, mark) && Rounds(q, keys, mark, n).Some?
    ensures Rounds(q, keys, mark, m).Some? && Rounds(q, keys, mark, m + 1).None?
    decreases |StateAt(q, keys, mark, n).text| - StateAt(q, keys, mark, n).done
  {
    hide Sorted, Clean, OnItsWay, Round, Rounds;
    CleanProgress(q, keys, mark, n);
    StaysOnItsWay(q, keys, mark, StateAt(q, keys, mark, n));
    NextState(q, keys, mark, n);
    m := n;
    if Rounds(q, keys, mark, n + 1).Some? {
      m := CleanLoopEnds(q, keys, mark, n + 1);
    }
  }

  function StateAt(q: string, keys: seq<string>, mark: nat -> string, n: nat): LoopState
    requires Rounds(q, keys, mark, n).Some?
  {
    Rounds(q, keys, mark, n).value
  }

  // ---- Keys that do not occur ------------------------------------------------------------

  // The first round only looks at the keys that occur, and the later ones no longer
  // see the others.
  lemma {:induction false} ChoosePruned(q: string, keys: seq<string>)
    ensures Choose(q, Surviving(keys, q)) == Choose(q, keys)
    ensures Surviving(Surviving(keys, q), q) == Surviving(keys, q)
    decreases |keys|
  {
    hide First;
    if keys != [] {
      var init, last := keys[..|keys| - 1], keys[|keys| - 1];
      var before := Surviving(init, q);
      ChoosePruned(q, init);
      if First(q, last, 0).Some? {
        assert (before + [last])[..|before + [last]| - 1] == before;
      }
    }
  }

  // So does the scan.
  lemma {:induction false} ScanPruned(s: string, keys: seq<string>, kept: seq<string>, mark: nat -> string, n: nat)
    requires "" !in keys && forall k | k in kept :: k in keys
    requires forall k, i: nat | k in keys && k !in kept :: !OccursAt(s, k, i)
    ensures "" !in kept && Scan(s, kept, mark, n) == Scan(s, keys, mark, n)
    decreases |s|
  {
    hide OccursAt, LongestKey;
    if s != "" {
      LongestPruned(s, keys, kept);
      var k := LongestKey(s, keys);
      var d := if k.None? then 1 else |k.value|;
      forall k, i: nat | k in keys && k !in kept
        ensures !OccursAt(s[d..], k, i)
      {
        OccursAtDrop(s, k, d, i);
      }
      ScanPruned(s[d..], keys, kept, mark, if k.None? then n else n + 1);
    }
  }

  lemma LongestPruned(s: string, keys: seq<string>, kept: seq<string>)
    requires forall k | k in kept :: k in keys
    requires forall k | k in keys && k !in kept :: !OccursAt(s, k, 0)
    ensures LongestKey(s, kept) == LongestKey(s, keys)
  {
    hide LongestKey;
    KeyHere(s, keys);
    if LongestKey(s, keys).Some? {
      LongestKeyIs(s, kept, LongestKey(s, keys).value);
    }
  }

  // Whether the keys, or those of them that occur in the query, are clean.
  ghost predicate CleanFor(q: string, keys: seq<string>, mark: nat -> string) {
    Clean(keys, mark) || Clean(Surviving(keys, q), mark)
  }

  ghost function CleanPart(q: string, keys: seq<string>, mark: nat -> string): seq<string> {
    if Clean(keys, mark) then keys else Surviving(keys, q)
  }

  // Dropping the keys that do not occur changes neither the loop nor the scan.
  lemma CleanPartWillDo(q: string, keys: seq<string>, mark: nat -> string)
    requires Sorted(keys) && CleanFor(q, keys, mark)
    ensures var part := CleanPart(q, keys, mark);
            && Clean(part, mark) && Sorted(part) && "" !in part && "" !in keys
            && Scan(q, part, mark, 0) == Scan(q, keys, mark, 0)
            && Rewritten(q, part, mark) == Rewritten(q, keys, mark)
  {
    hide First, Choose, Scan, Sorted, Apart;
    var part := CleanPart(q, keys, mark);
    EmptyKeySurvives(q, keys);
    ChoosePruned(q, keys);
    SurvivingSorted(keys, q);
    ScanPruned(q, keys, part, mark, 0);
    SameRewriting(q, keys, part, mark);
  }

  lemma SameRewriting(q: string, keys: seq<string>, part: seq<string>, mark: nat -> string)
    requires Choose(q, part) == Choose(q, keys) && Surviving(part, q) == Surviving(keys, q)
    ensures Rewritten(q, part, mark) == Rewritten(q, keys, mark)
  {
    hide Choose, Surviving, Rounds;
    forall n: nat
      ensures SameRound(q, keys, part, mark, n) && SameRound(q, part, keys, mark, n)
    {
      SameRounds(q, keys, part, mark, n);
      SameRounds(q, part, keys, mark, n);
    }
    if Ends(q, keys, mark) {
      EndsAlike(q, keys, part, mark);
    } else if Ends(q, part, mark) {
      EndsAlike(q, part, keys, mark);
    }
  }

  ghost predicate SameRound(q: string, keys: seq<string>, part: seq<string>, mark: nat -> string, n: nat) {
    var s, r := Rounds(q, keys, mark, n), Rounds(q, part, mark, n);
    && (s.Some? <==> r.Some?)
    && (s.Some? ==> s.value.text == r.value.text && s.value.used == r.value.used)
    && (n > 0 ==> s == r)
  }

  lemma {:induction false} SameRounds(q: string, keys: seq<string>, part: seq<string>, mark: nat -> string, n: nat)
    requires Choose(q, part) == Choose(q, keys) && Surviving(part, q) == Surviving(keys, q)
    ensures SameRound(q, keys, part, mark, n)
  {
    hide Choose, Surviving, Replace;
    StartState(q, keys, mark);
    StartState(q, part, mark);
    if n > 0 {
      SameRounds(q, keys, part, mark, n - 1);
    }
  }

  lemma EndsAlike(q: string, keys: seq<string>, part: seq<string>, mark: nat -> string)
    requires Ends(q, keys, mark) && forall n: nat :: SameRound(q, keys, part, mark, n)
    ensures Rewritten(q, part, mark) == Rewritten(q, keys, mark)
  {
    hide Rounds;
    var r := Rewritten(q, keys, mark).value;
    var m: nat :| EndsWith(q, keys, mark, m, r);
    assert SameRound(q, keys, part, mark, m) && SameRound(q, keys, part, mark, m + 1);
    RewrittenIs(q, part, mark, m);
  }

  // When the keys that occur are clean, the loop ends and is the scan.
  lemma CleanScans(q: string, keys: seq<string>, mark: nat -> string)
    requires Sorted(keys) && CleanFor(q, keys, mark)
    ensures "" !in keys && Rewritten(q, keys, mark) == Some(Scan(q, keys, mark, 0))
    ensures forall k | k in CleanPart(q, keys, mark) :: First(Scan(q, keys, mark, 0).text, k, 0).None?
  {
    hide First, Scan, Sorted, Clean, CleanFor, CleanPart, Rewritten;
    CleanPartWillDo(q, keys, mark);
    CleanLoopScans(q, CleanPart(q, keys, mark), mark);
  }

  lemma EmptyKeySurvives(q: string, keys: seq<string>)
    ensures "" in keys ==> "" in Surviving(keys, q)
    ensures forall k, i: nat | k in keys && k !in Surviving(keys, q) :: !OccursAt(q, k, i)
  {
    hide First;
    assert OccursAt(q, "", 0);
  }
}
