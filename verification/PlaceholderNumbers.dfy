// What the numbers of the PostgreSQL placeholders say to somebody who reads the
// rewritten query alone (DB_PostgreSQL/query_pgsql.cpp).
module PlaceholderNumbers {
  import opened Common
  import opened Occurrences
  import opened Placeholders
  import opened PlaceholderLoops
  import opened PlaceholderDrivers

  // ---- The numbers put in ----------------------------------------------------------------

  lemma {:induction false} ValueOfDigits(k: nat)
    ensures ValueOf(Digits(k)) == k
  {
    if k >= 10 {
      ValueOfDigits(k / 10);
      assert Digits(k)[..|Digits(k)| - 1] == Digits(k / 10);
    }
  }

  // The placeholder put in k-th is a dollar sign and the decimal digits of k.
  lemma DollarNumber(k: nat)
    ensures DOLLAR(k)[0] == '$' && Number(DOLLAR(k)[1..]) && ValueOf(DOLLAR(k)[1..]) == k
    ensures k < 10 ==> DOLLAR(k) == ['$', "0123456789"[k]]
    ensures k >= 10 ==> DOLLAR(k) == DOLLAR(k / 10) + ["0123456789"[k % 10]]
  {
    hide ValueOf, Number;
    assert DOLLAR(k)[1..] == Digits(k);
    DigitsAreNumber(k);
    ValueOfDigits(k);
    DigitCharacter(k % 10);
    if k >= 10 {
      ConcatAssoc("$", Digits(k / 10), ["0123456789"[k % 10]]);
    }
  }

  lemma DigitCharacter(d: nat)
    requires d < 10
    ensures "0123456789"[d] == ('0' as int + d) as char
  {
  }

  // ---- Reading them back -------------------------------------------------------------------

  // The digits that t begins with.
  function Run(t: string): (r: string)
    ensures r <= t && AllDigits(r) && (|r| < |t| ==> !Digit(t[|r|]))
  {
    if t == "" || !Digit(t[0]) then "" else [t[0]] + Run(t[1..])
  }

  // The digits behind each dollar sign of a text.
  function Numbers(t: string): seq<string> {
    if t == "" then []
    else (if t[0] == '$' then [Run(t[1..])] else []) + Numbers(t[1..])
  }

  // Each dollar sign with the number behind it is replaced by the key of that number.
  function Filled(t: string, keys: seq<string>): string
    decreases |t|
  {
    if t == "" then ""
    else
      var run := Run(t[1..]);
      if t[0] == '$' && run != "" && ValueOf(run) < |keys| then keys[ValueOf(run)] + Filled(t[1 + |run|..], keys)
      else [t[0]] + Filled(t[1..], keys)
  }

  // The numbers from n on, as the driver writes them.
  function Counted(n: nat, count: nat): seq<string>
    decreases count
  {
    if count == 0 then [] else [Digits(n)] + Counted(n + 1, count - 1)
  }

  // No key that the scan takes is followed by a digit, unless that begins a key itself.
  predicate NoDigitBehind(s: string, keys: seq<string>)
    requires "" !in keys
    decreases |s|
  {
    if s == "" then true
    else
      var k := LongestKey(s, keys);
      if k.None? then NoDigitBehind(s[1..], keys)
      else
        var rest := s[|k.value|..];
        (rest == "" || !Digit(rest[0]) || LongestKey(rest, keys).Some?) && NoDigitBehind(rest, keys)
  }

  lemma {:induction false} RunBehindDigits(w: string, t: string)
    requires AllDigits(w)
    ensures Run(w + t) == w + Run(t) && Numbers(w + t) == Numbers(t)
  {
    if w == "" {
      assert w + t == t && w + Run(t) == Run(t);
    } else {
      assert w[0] in w && (w + t)[1..] == w[1..] + t;
      RunBehindDigits(w[1..], t);
    }
  }

  // What the scan of a text without dollar signs begins with.
  lemma ScanBegins(s: string, keys: seq<string>, n: nat)
    requires "" !in keys
    ensures var t := Scan(s, keys, DOLLAR, n).text;
            Run(t) != "" <==> s != "" && Digit(s[0]) && LongestKey(s, keys).None?
  {
    hide LongestKey;
    if s != "" {
      var k := LongestKey(s, keys);
      if k.None? {
        ScanOneChar(s, keys, DOLLAR, n);
      } else {
        ScanOneKey(s, keys, DOLLAR, n, k.value);
        DollarIsMark();
      }
    }
  }

  // In a query without dollar signs, the numbers read are those written, each with all
  // of its digits and no more, exactly if no key replaced is followed by a digit.
  lemma {:induction false} NumbersExactly(s: string, keys: seq<string>, n: nat)
    requires "" !in keys && '$' !in s
    ensures var r := Scan(s, keys, DOLLAR, n);
            Numbers(r.text) == Counted(n, |r.used|) <==> NoDigitBehind(s, keys)
    decreases |s|
  {
    hide LongestKey;
    if s != "" {
      var k := LongestKey(s, keys);
      if k.None? {
        ScanOneChar(s, keys, DOLLAR, n);
        NumbersExactly(s[1..], keys, n);
        assert s[0] in s;
        var r := Scan(s[1..], keys, DOLLAR, n);
        assert ([s[0]] + r.text)[1..] == r.text;
      } else {
        var rest := s[|k.value|..];
        NumbersExactly(rest, keys, n + 1);
        NumberTaken(s, keys, n, k.value);
        ScanBegins(rest, keys, n + 1);
      }
    }
  }

  lemma NumberTaken(s: string, keys: seq<string>, n: nat, k: string)
    requires "" !in keys && LongestKey(s, keys) == Some(k)
    ensures var (r, t) := (Scan(s, keys, DOLLAR, n), Scan(s[|k|..], keys, DOLLAR, n + 1));
            && |r.used| == 1 + |t.used| && Numbers(r.text) == [Digits(n) + Run(t.text)] + Numbers(t.text)
            && (Numbers(r.text) == Counted(n, |r.used|) <==>
                  Run(t.text) == "" && Numbers(t.text) == Counted(n + 1, |t.used|))
  {
    hide LongestKey, Run, Numbers, Digits;
    var t := Scan(s[|k|..], keys, DOLLAR, n + 1);
    ScanOneKey(s, keys, DOLLAR, n, k);
    NumbersOfMark(n, t.text);
    assert Counted(n, 1 + |t.used|) == [Digits(n)] + Counted(n + 1, |t.used|);
    SameFirst(Digits(n), Run(t.text), Numbers(t.text), Counted(n + 1, |t.used|));
  }

  lemma SameFirst(a: string, b: string, x: seq<string>, y: seq<string>)
    ensures [a + b] + x == [a] + y <==> b == "" && x == y
  {
    if [a + b] + x == [a] + y {
      assert a + b == ([a + b] + x)[0] == ([a] + y)[0] == a;
      assert x == ([a + b] + x)[1..] == ([a] + y)[1..] == y;
    } else if b == "" {
      assert a + b == a;
    }
  }

  lemma NumbersOfMark(n: nat, t: string)
    ensures Numbers(DOLLAR(n) + t) == [Digits(n) + Run(t)] + Numbers(t)
  {
    assert (DOLLAR(n) + t)[1..] == Digits(n) + t;
    RunBehindDigits(Digits(n), t);
  }

  // Then every number names its argument: putting the keys back by their numbers, read
  // from the text alone, gives the original query.
  lemma {:induction false} FilledBack(s: string, keys: seq<string>, before: seq<string>)
    requires "" !in keys && '$' !in s && NoDigitBehind(s, keys)
    ensures var r := Scan(s, keys, DOLLAR, |before|); Filled(r.text, before + r.used) == s
    decreases |s|
  {
    hide LongestKey, Filled, Scan;
    var k := LongestKey(s, keys);
    if s == "" {
      ScanNothing(keys, DOLLAR, |before|);
      FilledChar("", before + []);
    } else if k.None? {
      FilledBack(s[1..], keys, before);
      FilledPastChar(s, keys, before);
    } else {
      FilledBack(s[|k.value|..], keys, before + [k.value]);
      FilledPastKey(s, keys, before, k.value);
    }
  }

  lemma FilledChar(t: string, keys: seq<string>)
    ensures t == "" ==> Filled(t, keys) == ""
    ensures t != "" && t[0] != '$' ==> Filled(t, keys) == [t[0]] + Filled(t[1..], keys)
  {
  }

  lemma FilledPastChar(s: string, keys: seq<string>, before: seq<string>)
    requires "" !in keys && s != "" && '$' !in s && LongestKey(s, keys).None?
    requires var r := Scan(s[1..], keys, DOLLAR, |before|); Filled(r.text, before + r.used) == s[1..]
    ensures var r := Scan(s, keys, DOLLAR, |before|); Filled(r.text, before + r.used) == s
  {
    hide LongestKey, Filled, Scan;
    var r := Scan(s[1..], keys, DOLLAR, |before|);
    ScanOneChar(s, keys, DOLLAR, |before|);
    assert s[0] in s && ([s[0]] + r.text)[1..] == r.text && [] + r.used == r.used;
    FilledChar([s[0]] + r.text, before + r.used);
  }

  lemma FilledPastKey(s: string, keys: seq<string>, before: seq<string>, k: string)
    requires "" !in keys && s != "" && LongestKey(s, keys) == Some(k) && NoDigitBehind(s, keys)
    requires var r := Scan(s[|k|..], keys, DOLLAR, |before| + 1); Filled(r.text, before + [k] + r.used) == s[|k|..]
    ensures var r := Scan(s, keys, DOLLAR, |before|); Filled(r.text, before + r.used) == s
  {
    hide LongestKey, Filled, Scan, Run;
    var r := Scan(s[|k|..], keys, DOLLAR, |before| + 1);
    ScanOneKey(s, keys, DOLLAR, |before|, k);
    ScanBegins(s[|k|..], keys, |before| + 1);
    ConcatAssoc(before, [k], r.used);
    FilledMark(|before|, r.text, before + ([k] + r.used));
  }

  lemma FilledMark(n: nat, t: string, keys: seq<string>)
    requires n < |keys| && Run(t) == ""
    ensures Filled(DOLLAR(n) + t, keys) == keys[n] + Filled(t, keys)
  {
    hide Filled, ValueOf, Run, Digits;
    var s := DOLLAR(n) + t;
    assert s[1..] == Digits(n) + t && s[1 + |Digits(n)|..] == t;
    RunBehindDigits(Digits(n), t);
    ValueOfDigits(n);
    assert Digits(n) + "" == Digits(n);
    FilledNumber(s, keys, Digits(n));
  }

  lemma FilledNumber(s: string, keys: seq<string>, run: string)
    requires s != "" && s[0] == '$' && Run(s[1..]) == run != "" && ValueOf(run) < |keys|
    ensures 1 + |run| <= |s| && Filled(s, keys) == keys[ValueOf(run)] + Filled(s[1 + |run|..], keys)
  {
    hide ValueOf, Run;
  }

  lemma NumbersReadBack(q: string, keys: seq<string>)
    requires "" !in keys && '$' !in q
    ensures var r := Scan(q, keys, DOLLAR, 0);
            && (Numbers(r.text) == Counted(0, |r.used|) <==> NoDigitBehind(q, keys))
            && (NoDigitBehind(q, keys) ==> Filled(r.text, r.used) == q)
  {
    hide Scan, Numbers, Counted, NoDigitBehind, Filled;
    NumbersExactly(q, keys, 0);
    if NoDigitBehind(q, keys) {
      FilledBack(q, keys, []);
      var r := Scan(q, keys, DOLLAR, 0);
      assert [] + r.used == r.used;
    }
  }

  // It is enough that no key stands before a digit anywhere in the query.
  lemma {:induction false} NoDigitAfterKeys(s: string, keys: seq<string>)
    requires "" !in keys
    requires forall k, i: nat | k in keys && OccursAt(s, k, i) && i + |k| < |s| :: !Digit(s[i + |k|])
    ensures NoDigitBehind(s, keys)
    decreases |s|
  {
    hide LongestKey, OccursAt;
    if s != "" {
      var l := LongestKey(s, keys);
      var d := if l.None? then 1 else |l.value|;
      KeyHere(s, keys);
      forall k, i: nat | k in keys && OccursAt(s[d..], k, i) && i + |k| < |s[d..]|
        ensures !Digit(s[d..][i + |k|])
      {
        OccursAtDrop(s, k, d, i);
      }
      NoDigitAfterKeys(s[d..], keys);
    }
  }

  // The key :a before the digit 1 gives $01, which reads as number 01.
  lemma DigitBehindMisread()
    ensures Scan(":a1", [":a"], DOLLAR, 0) == Scanned("$01", [":a"])
    ensures Numbers("$01") == ["01"] && Filled("$01", [":a"]) == "$01"
  {
    hide Scan, Numbers, Filled, LongestKey;
    var s, keys := ":a1", [":a"];
    assert s[2..] == "1" && "1"[1..] == "" && ":a" == s[..2];
    LongestKeyIs(s, keys, ":a");
    NoKeyHere("1", keys);
    ScanOneKey(s, keys, DOLLAR, 0, ":a");
    ScanOneChar("1", keys, DOLLAR, 1);
    ScanNothing(keys, DOLLAR, 1);
    var text := MisreadNumber();
  }

  lemma MisreadNumber() returns (text: string)
    ensures text == "$01" && Numbers(text) == ["01"] && Filled(text, [":a"]) == text
  {
    text := "$01";
    var keys := [":a"];
    assert "$01"[1..] == "01" && "01"[1..] == "1" && "1"[1..] == "";
    assert Run("1") == "1" && Run("01") == "01";
    assert ValueOf("01") == 1 by { assert "01"[..1] == "0" && "0"[..0] == ""; }
    assert Filled("1", keys) == "1" && Filled("01", keys) == "01";
  }
}
