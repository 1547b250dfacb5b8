// When the MariaDB loop rewrites every query as one scan of it would: an exact
// condition on the list of keys (DB/query.cpp, DB_MariaDB/query_mariadb.cpp).
module PlaceholderScans {
  import opened Common
  import opened Occurrences
  import opened Placeholders
  import opened PlaceholderLoops
  import opened PlaceholderDrivers
  import opened PlaceholderLaws

  // On every query on which the loop ends.
  ghost predicate QuestionLaw(keys: seq<string>)
    requires "" !in keys
  {
    forall q | EndsFor(q, keys) :: IsScan(q, keys)
  }

  ghost predicate IsScan(q: string, keys: seq<string>)
    requires "" !in keys
  {
    Rewritten(q, keys, QUESTION) == Some(Scan(q, keys, QUESTION, 0))
  }

  // ---- Lists for which it is ---------------------------------------------------------------

  // Without question marks in the query, no key that occurs has one.
  lemma PlainQueryScans(q: string, keys: seq<string>)
    requires Sorted(keys) && "" !in keys && '?' !in q
    ensures IsScan(q, keys)
  {
    hide First, Rewritten, Scan, Sorted, Clean, Takes;
    var part := Surviving(keys, q);
    forall k, j: nat | k in part && j < |k|
      ensures k[j] != '?'
    {
      var p := First(q, k, 0).value;
      assert q[p..p + |k|][j] == q[p + j] && q[p + j] in q;
    }
    assert QuestionSafe(part);
    CleanForQuestion(part);
    CleanScans(q, keys, QUESTION);
  }

  lemma SafeKeysScan(keys: seq<string>)
    requires Sorted(keys) && "" !in keys && ("?" in keys || QuestionSafe(keys))
    ensures QuestionLaw(keys)
  {
    hide First, Rewritten, Scan, Sorted, Clean, QuestionSafe, IsScan;
    CleanForQuestion(keys);
    forall q | EndsFor(q, keys)
      ensures IsScan(q, keys)
    {
      if '?' !in q {
        PlainQueryScans(q, keys);
      } else {
        SafeIsScan(q, keys);
      }
    }
  }

  lemma SafeIsScan(q: string, keys: seq<string>)
    requires Sorted(keys) && "" !in keys && Clean(keys, QUESTION)
    ensures IsScan(q, keys)
  {
    hide First, Scan, Sorted, Clean, Rewritten;
    CleanLoopScans(q, keys, QUESTION);
  }

  // ---- Lists for which it is not -------------------------------------------------------------

  lemma TakenAmongFewer(q: string, keys: seq<string>, fewer: seq<string>, k: string, i: nat)
    requires Sorted(keys) && Sorted(fewer) && (forall x | x in fewer :: x in keys)
    requires k in fewer && Takes(q, keys, k, i)
    ensures Takes(q, fewer, k, i)
  {
    hide Sorted, Choose, OccursAt;
    LeftmostIsChosen(q, keys, Choice(i, k));
    LeftmostIsChosen(q, fewer, Choice(i, k));
  }

  // The loop has come to this text, with k still looked for.
  ghost predicate Come(keys: seq<string>, s: Option<LoopState>, text: string, k: string) {
    && s.Some? && s.value.text == text && Sorted(s.value.keys) && k in s.value.keys
    && (forall x | x in s.value.keys :: x in keys)
  }

  // One round from u + k' + v + k to u + "?" + v + k.
  lemma ComeFurther(q: string, keys: seq<string>, n: nat, u: string, k': string, v: string, k: string)
    requires Sorted(keys) && Come(keys, Rounds(q, keys, QUESTION, n), u + k' + v + k, k)
    requires k' in Rounds(q, keys, QUESTION, n).value.keys && Takes(u + k' + v + k, keys, k', |u|)
    ensures Come(keys, Rounds(q, keys, QUESTION, n + 1), u + "?" + v + k, k)
  {
    hide Sorted, Choose, First, Surviving, Rounds;
    var s := Rounds(q, keys, QUESTION, n).value;
    NextState(q, keys, QUESTION, n);
    TakenAmongFewer(s.text, keys, s.keys, k', |u|);
    SurvivingSorted(s.keys, s.text);
    FoundAtStart(k);
    FoundInTail(k, k, u + k' + v);
    assert s.text[..|u|] == u && s.text[|u| + |k'|..] == v + k;
    assert u + "?" + (v + k) == u + "?" + v + k;
  }

  // A loop never makes its text longer.
  lemma {:induction false} LoopShortens(q: string, keys: seq<string>, m: nat, n: nat)
    requires "" !in keys && m <= n && Rounds(q, keys, QUESTION, n).Some?
    ensures Rounds(q, keys, QUESTION, m).Some? && "" !in StateAt(q, keys, QUESTION, n).keys
    ensures |StateAt(q, keys, QUESTION, n).text| <= |StateAt(q, keys, QUESTION, m).text|
    decreases n
  {
    hide Choose, First, Surviving, Round;
    if 0 < n {
      StartState(q, keys, QUESTION);
      LoopShortens(q, keys, if m < n then m else m - 1, n - 1);
      RoundShortens(StateAt(q, keys, QUESTION, n - 1));
    }
  }

  lemma RoundShortens(s: LoopState)
    requires "" !in s.keys && Round(s, QUESTION).Some?
    ensures |Round(s, QUESTION).value.text| <= |s.text| && "" !in Round(s, QUESTION).value.keys
  {
    hide First, Surviving;
  }

  lemma ResultNoLonger(q: string, keys: seq<string>, n: nat)
    requires "" !in keys && Rounds(q, keys, QUESTION, n).Some? && Rewritten(q, keys, QUESTION).Some?
    ensures |Rewritten(q, keys, QUESTION).value.text| <= |StateAt(q, keys, QUESTION, n).text|
  {
    hide Rounds;
    var r := Rewritten(q, keys, QUESTION).value;
    var m: nat :| EndsWith(q, keys, QUESTION, m, r);
    assert Rounds(q, keys, QUESTION, m + 1).None?;
    if m < n {
      EndedStaysEnded(q, keys, QUESTION, m + 1, n);
    }
    LoopShortens(q, keys, n, m);
  }

  // The query u + k' + v, where k is u + "?" + v, with k once more behind it: the loop
  // makes k out of k', and replaces it again.
  lemma LoopShort(keys: seq<string>, sep: string, u: string, k': string, v: string, k: string, i: nat)
    requires Sorted(keys) && "" !in keys && "?" !in keys && Separates(sep, keys)
    requires k' in keys && k in keys && k == u + "?" + v && Takes(u + k' + v, keys, k', |u|)
    requires Takes(sep + "?" + sep + k, keys, k, i)
    ensures var r := Rewritten(sep + u + k' + (v + sep) + k, keys, QUESTION);
            r.Some? && |r.value.text| <= 2 * |sep| + 2
  {
    hide Sorted, Choose, First, Surviving, Rounds, Takes, Separates, Rewritten, Ends;
    var q := sep + u + k' + (v + sep) + k;
    MariaDBEndsExactly(q, keys);
    StartState(q, keys, QUESTION);
    ClashAlone(keys, sep, u, k', v, k);
    ConcatAssoc(sep + u + k', v + sep, k);
    ComeFurther(q, keys, 0, sep + u, k', v + sep, k);
    SecondText(keys, sep, u, v, k);
    ComeFurther(q, keys, 1, sep, k, sep, k);
    OneReplaced(q, keys, 2, sep + "?" + sep + k, k, i);
    ResultNoLonger(q, keys, 3);
  }

  lemma SecondText(keys: seq<string>, sep: string, u: string, v: string, k: string)
    requires Sorted(keys) && "" !in keys && Separates(sep, keys) && k in keys && k == u + "?" + v
    ensures sep + u + "?" + (v + sep) + k == sep + k + sep + k && Takes(sep + k + sep + k, keys, k, |sep|)
  {
    hide Sorted, Choose;
    AloneIsTaken(keys, k);
    assert ChosenAlone(sep, k, k, keys);
    ConcatAssoc(sep + k, sep, k);
    Regroup(sep, u, "?", v, sep);
    ConcatAssoc(sep + u + "?", v, sep);
  }

  lemma OneReplaced(q: string, keys: seq<string>, n: nat, text: string, k: string, i: nat)
    requires Sorted(keys) && Come(keys, Rounds(q, keys, QUESTION, n), text, k) && Takes(text, keys, k, i)
    ensures Rounds(q, keys, QUESTION, n + 1).Some?
    ensures |StateAt(q, keys, QUESTION, n + 1).text| == |text| - |k| + 1
  {
    hide Sorted, First, Surviving, Rounds;
    var s := Rounds(q, keys, QUESTION, n).value;
    NextState(q, keys, QUESTION, n);
    TakenAmongFewer(s.text, keys, s.keys, k, i);
    OccursInside(s.text, k, i);
  }

  // The scan of the same query only replaces what it holds.
  lemma ScanLong(keys: seq<string>, sep: string, u: string, k': string, v: string, k: string)
    requires Sorted(keys) && "" !in keys && Separates(sep, keys) && Takes(u + k' + v, keys, k', |u|)
    ensures |Scan(sep + u + k' + (v + sep) + k, keys, QUESTION, 0).text|
            == |sep| + |u| + 1 + |Scan(v + sep + k, keys, QUESTION, 1).text|
  {
    hide Sorted, Choose, First, Scan, Separates;
    var q := sep + u + k' + (v + sep) + k;
    ClashAlone(keys, sep, u, k', v, k);
    ConcatAssoc(sep + u + k', v + sep, k);
    ScanToNextMark(q, keys, keys, QUESTION, 0, 0);
    assert q[|sep + u| + |k'|..] == v + sep + k;
  }

  lemma LoopIsNotScan(keys: seq<string>, sep: string, u: string, k': string, v: string, k: string, i: nat)
    requires Sorted(keys) && "" !in keys && "?" !in keys && Separates(sep, keys)
    requires k' in keys && k in keys && k == u + "?" + v && Takes(u + k' + v, keys, k', |u|)
    requires Takes(sep + "?" + sep + k, keys, k, i)
    requires |u| + |Scan(v + sep + k, keys, QUESTION, 1).text| > |sep| + 1
    ensures !QuestionLaw(keys)
  {
    hide Sorted, Scan, Separates, Takes, Rewritten;
    var q := sep + u + k' + (v + sep) + k;
    LoopShort(keys, sep, u, k', v, k, i);
    ScanLong(keys, sep, u, k', v, k);
    assert EndsFor(q, keys) && !IsScan(q, keys);
  }

  // ---- Several keys ---------------------------------------------------------------------------

  // Across a character that is in no key, each side keeps something of its own.
  lemma {:induction false} ScanAcross(a: string, z: char, b: string, keys: seq<string>, n: nat)
    requires "" !in keys && (forall k | k in keys :: z !in k) && b != ""
    ensures |Scan(a + [z] + b, keys, QUESTION, n).text| >= (if a == "" then 0 else 1) + 2
    decreases |a|
  {
    hide LongestKey;
    var s := a + [z] + b;
    var k := LongestKey(s, keys);
    assert s[|a|] == z;
    NoKeyAcross(s, keys, z, |a|);
    if a == "" {
      assert s[1..] == b;
    } else {
      var d := if k.None? then 1 else |k.value|;
      assert s[d..] == a[d..] + [z] + b;
      ScanAcross(a[d..], z, b, keys, if k.None? then n else n + 1);
    }
  }

  lemma NoKeyAcross(s: string, keys: seq<string>, z: char, p: nat)
    requires p < |s| && s[p] == z && forall k | k in keys :: z !in k
    ensures LongestKey(s, keys).Some? ==> |LongestKey(s, keys).value| <= p
  {
    hide LongestKey;
    assert forall k | k in keys && p < |k| :: k[p] in k;
  }

  lemma ThirdTaken(keys: seq<string>, z: char, k: string)
    requires Sorted(keys) && "" !in keys && "?" !in keys && (forall x | x in keys :: z !in x) && k in keys
    ensures Takes([z] + "?" + [z] + k, keys, k, 3)
  {
    hide Sorted, Choose;
    var t := [z] + "?" + [z] + k;
    assert t == [z] + "?" + ([z] + k);
    forall x, i: nat | x in keys && i < 3
      ensures !OccursAt(t, x, i)
    {
      assert i <= |"?"| + 1;
      OccursBetween("?", z, k, x, i);
    }
    assert t[3..3 + |k|] == k;
    LeftmostIsChosen(t, keys, Choice(3, k));
  }

  // The MariaDB loop is the scan on every query on which it ends, exactly when a key is a
  // question mark, and so every such query has none, or when the keys are safe.
  lemma QuestionLawExactly(keys: seq<string>, z: char)
    requires Sorted(keys) && "" !in keys && forall k | k in keys :: z !in k
    ensures QuestionLaw(keys) <==> "?" in keys || QuestionSafe(keys)
  {
    hide Sorted, Scan, Separates, Takes, QuestionLaw, LongestKey;
    if "?" in keys || QuestionSafe(keys) {
      SafeKeysScan(keys);
    } else {
      var k :| k in keys && !QuestionSafeKey(k, keys);
      var j, k' :| 0 <= j < |k| && k[j] == '?' && k' in keys && Takes(k[..j] + k' + k[j + 1..], keys, k', j);
      var u, v := k[..j], k[j + 1..];
      assert k == u + "?" + v && "" + "?" + "" == "?";
      ForeignCharSeparates(keys, z);
      ThirdTaken(keys, z, k);
      ScanAcross(v, z, k, keys, 1);
      LoopIsNotScan(keys, [z], u, k', v, k, 3);
    }
  }

  // ---- One key --------------------------------------------------------------------------------

  // In a text shorter than two keys at most one is replaced.
  lemma {:induction false} ScanOnceAtMost(s: string, k: string, n: nat)
    requires k != "" && |s| < 2 * |k|
    ensures var t := Scan(s, [k], QUESTION, n).text; |t| == |s| || (|s| >= |k| && |t| == |s| - |k| + 1)
    decreases |s|
  {
    if s != "" {
      var r := LongestKey(s, [k]);
      ScanOnceAtMost(if r.None? then s[1..] else s[|k|..], k, if r.None? then n else n + 1);
    }
  }

  lemma OneKeyTaken(q: string, k: string) returns (i: nat)
    requires First(q, k, 0).Some?
    ensures Takes(q, [k], k, i) && i == First(q, k, 0).value
  {
    ChooseOnly(q, k);
    i := First(q, k, 0).value;
  }

  lemma OneKeyFails(u: string, v: string, k: string)
    requires k == u + "?" + v && k != "?" && Takes(u + k + v, [k], k, |u|)
    ensures !QuestionLaw([k])
  {
    hide Sorted, Scan, Separates, Takes, QuestionLaw, First;
    OneKeySorted(k);
    NothingSeparatesOne(k);
    FoundAtStart(k);
    FoundInTail(k, k, "" + "?" + "");
    var i := OneKeyTaken("" + "?" + "" + k, k);
    assert v + "" + k == v + k;
    ScanOnceAtMost(v + k, k, 1);
    LoopIsNotScan([k], "", u, k, v, k, i);
  }

  lemma QuestionKeyFails(k: string)
    requires '?' in k && k != "?"
    ensures !QuestionLaw([k])
  {
    hide *;
    assert k == k[0..] && k[..0] == "";
    var j := FirstQuestion(k, 0);
    FoundBetweenHalves(k, j);
    var i := OneKeyTaken(k[..j] + k + k[j + 1..], k);
    assert k == k[..j] + "?" + k[j + 1..];
    OneKeyFails(k[..j], k[j + 1..], k);
  }

  // With one key: exactly when the key has no question mark.
  lemma OneKeyScanExactly(k: string)
    requires k != "" && k != "?"
    ensures QuestionLaw([k]) <==> '?' !in k
  {
    hide Sorted, QuestionLaw, QuestionSafe;
    OneKeySorted(k);
    FirstQuestionUnsafe(k);
    if '?' !in k {
      SafeKeysScan([k]);
    } else {
      QuestionKeyFails(k);
    }
  }
}
