// The placeholder loops of the MariaDB and PostgreSQL drivers (DB_MariaDB/query_mariadb.cpp,
// DB_PostgreSQL/query_pgsql.cpp): their marks, the keys that cannot mix with these,
// and the calls for which the loops end.
module PlaceholderDrivers {
  import opened Common
  import opened Occurrences
  import opened Placeholders
  import opened PlaceholderLoops

  const QUESTION: nat -> string := (n: nat) => "?"

  function Digits(n: nat): (s: string)
    ensures s != "" && forall c | c in s :: Digit(c)
  {
    if n < 10 then [('0' as int + n) as char] else Digits(n / 10) + [('0' as int + n % 10) as char]
  }

  const DOLLAR: nat -> string := (n: nat) => "$" + Digits(n)

  predicate Digit(c: char) {
    '0' <= c <= '9'
  }

  // ---- Which texts are numbers ---------------------------------------------------------------

  predicate AllDigits(w: string) {
    forall c | c in w :: Digit(c)
  }

  // Digits without a needless zero in front.
  predicate Number(w: string) {
    w != "" && AllDigits(w) && (|w| == 1 || w[0] != '0')
  }

  function ValueOf(w: string): nat
    requires AllDigits(w)
  {
    if w == "" then 0
    else
      var last := w[|w| - 1];
      assert last in w;
      10 * ValueOf(w[..|w| - 1]) + (last as nat - '0' as nat)
  }

  lemma {:induction false} DigitsOfValue(w: string)
    requires Number(w)
    ensures Digits(ValueOf(w)) == w && (w[0] != '0' ==> ValueOf(w) > 0)
    decreases |w|
  {
    var last, front := w[|w| - 1], w[..|w| - 1];
    assert w == front + [last] && last in w;
    assert ('0' as int + (last as int - '0' as int)) as char == last;
    if front != "" {
      assert front[0] == w[0];
      DigitsOfValue(front);
    }
  }

  lemma {:induction false} DigitsAreNumber(n: nat)
    ensures Number(Digits(n)) && (n > 0 ==> Digits(n)[0] != '0')
  {
    if n >= 10 {
      DigitsAreNumber(n / 10);
    }
  }

  // ---- Clean keys, for each driver -------------------------------------------------------------

  // MariaDB: the text around a question mark in a key, with a key in place of the
  // question mark, never has just that key replaced there.
  ghost predicate QuestionSafe(keys: seq<string>) {
    forall k | k in keys :: k != "" && QuestionSafeKey(k, keys)
  }

  ghost predicate QuestionSafeKey(k: string, keys: seq<string>) {
    forall j, k' | 0 <= j < |k| && k[j] == '?' && k' in keys :: !Takes(k[..j] + k' + k[j + 1..], keys, k', j)
  }

  // PostgreSQL: no key begins with a digit, and the same for the text around a
  // dollar sign with a number behind it, or with nothing behind it.
  ghost predicate DollarSafe(keys: seq<string>) {
    forall k | k in keys :: k != "" && !Digit(k[0]) && DollarSafeKey(k, keys)
  }

  ghost predicate DollarSafeKey(k: string, keys: seq<string>) {
    forall j, x, k' | 0 <= j < |k| && 0 <= x < |k| - j && DollarMark(k, j, x) && k' in keys ::
      !Takes(k[..j] + k' + k[j + 1 + x..], keys, k', j)
  }

  // A dollar sign at j with x digits of a number behind it.
  predicate DollarMark(k: string, j: nat, x: nat)
    requires j + x < |k|
  {
    k[j] == '$' && (Number(k[j + 1..j + 1 + x]) || (x == 0 && j + 1 == |k|))
  }

  lemma CleanForQuestion(keys: seq<string>)
    ensures Clean(keys, QUESTION) <==> QuestionSafe(keys)
  {
    hide Takes;
    forall k | k in keys
      ensures Apart(k, "?", keys) <==> QuestionSafeKey(k, keys)
    {
      ApartFromQuestion(k, keys);
    }
    if Clean(keys, QUESTION) {
      forall k | k in keys
        ensures Apart(k, "?", keys)
      {
        assert Apart(k, QUESTION(0), keys);
      }
    }
  }

  lemma ApartFromQuestion(k: string, keys: seq<string>)
    ensures Apart(k, "?", keys) <==> QuestionSafeKey(k, keys)
  {
    hide Takes;
    if QuestionSafeKey(k, keys) {
      forall j, k' | 0 <= j < |k| && k' in keys && Agree(k[j..], "?")
        ensures !Takes(k[..j] + k' + Beyond(k, j + |"?"|), keys, k', j)
      {
        assert k[j..][0] == k[j] == '?';
        assert Beyond(k, j + |"?"|) == k[j + 1..];
      }
    } else {
      var j, k' :| 0 <= j < |k| && k[j] == '?' && k' in keys && Takes(k[..j] + k' + k[j + 1..], keys, k', j);
      assert Agree(k[j..], "?");
      assert Beyond(k, j + |"?"|) == k[j + 1..];
    }
  }

  lemma CleanForDollar(keys: seq<string>)
    ensures Clean(keys, DOLLAR) <==> DollarSafe(keys)
  {
    hide Apart, DollarSafeKey, Digit;
    DollarIsMark();
    if Clean(keys, DOLLAR) {
      forall k | k in keys
        ensures !Digit(k[0]) && DollarSafeKey(k, keys)
      {
        ApartMeansSafe(k, keys);
      }
    } else if DollarSafe(keys) {
      forall n: nat, k | k in keys
        ensures Apart(k, DOLLAR(n), keys)
      {
        SafeMeansApart(k, keys, n);
      }
    }
  }

  lemma DollarIsMark()
    ensures forall n: nat :: DOLLAR(n) != "" && DOLLAR(n)[0] == '$'
  {
    assert forall n: nat :: DOLLAR(n)[0] == '$';
  }

  lemma ApartMeansSafe(k: string, keys: seq<string>)
    requires k != "" && forall n :: Apart(k, DOLLAR(n), keys)
    ensures !Digit(k[0]) && DollarSafeKey(k, keys)
  {
    hide Takes, Apart;
    if Digit(k[0]) {
      DigitsOfValue(k[..1]);
      assert Apart(k, DOLLAR(ValueOf(k[..1])), keys);
      NotInside(k, keys);
    }
    forall j, x, k' | 0 <= j < |k| && 0 <= x < |k| - j && DollarMark(k, j, x) && k' in keys
      ensures !Takes(k[..j] + k' + k[j + 1 + x..], keys, k', j)
    {
      var w := if x == 0 then "0" else k[j + 1..j + 1 + x];
      DigitsOfValue(w);
      assert Apart(k, DOLLAR(ValueOf(w)), keys);
      NotInto(k, keys, j, x, w, k');
    }
  }

  lemma NotInside(k: string, keys: seq<string>)
    requires k != ""
    ensures !Apart(k, "$" + k[..1], keys)
  {
    assert ("$" + k[..1])[1..] == k[..1] && Agree(k, k[..1]);
  }

  lemma NotInto(k: string, keys: seq<string>, j: nat, x: nat, w: string, k': string)
    requires j + x < |k| && DollarMark(k, j, x) && k' in keys
    requires w == if x == 0 then "0" else k[j + 1..j + 1 + x]
    ensures Apart(k, "$" + w, keys) ==> !Takes(k[..j] + k' + k[j + 1 + x..], keys, k', j)
  {
    hide Takes;
    assert Agree(k[j..], "$" + w);
    assert Beyond(k, j + |"$" + w|) == k[j + 1 + x..];
  }

  lemma SafeMeansApart(k: string, keys: seq<string>, n: nat)
    requires k != "" && !Digit(k[0]) && DollarSafeKey(k, keys)
    ensures Apart(k, DOLLAR(n), keys)
  {
    hide Takes, Digit, DollarSafeKey, Agree, Beyond;
    var put := DOLLAR(n);
    SafeMeansNoneInside(k, n);
    forall j, k' | 0 <= j < |k| && k' in keys && Agree(k[j..], put)
      ensures !Takes(k[..j] + k' + Beyond(k, j + |put|), keys, k', j)
    {
      var x := Min(|Digits(n)|, |k| - j - 1);
      AgreesWithNumber(k, j, n, x);
      SafeAt(k, keys, j, x, k');
    }
  }

  lemma SafeMeansNoneInside(k: string, n: nat)
    requires k != "" && !Digit(k[0])
    ensures NoneInside(k, DOLLAR(n))
  {
    hide Digit;
    var put := DOLLAR(n);
    forall t | 1 <= t < |put|
      ensures !Agree(k, put[t..])
    {
      assert put[t] == Digits(n)[t - 1] && Digits(n)[t - 1] in Digits(n);
      assert put[t..][0] == put[t];
    }
  }

  lemma SafeAt(k: string, keys: seq<string>, j: nat, x: nat, k': string)
    requires j + x < |k| && DollarMark(k, j, x) && k' in keys && DollarSafeKey(k, keys)
    ensures !Takes(k[..j] + k' + k[j + 1 + x..], keys, k', j)
  {
    hide Takes, DollarMark;
  }

  lemma AgreesWithNumber(k: string, j: nat, n: nat, x: nat)
    requires j < |k| && Agree(k[j..], DOLLAR(n)) && x == Min(|Digits(n)|, |k| - j - 1)
    ensures DollarMark(k, j, x) && Beyond(k, j + |DOLLAR(n)|) == k[j + 1 + x..]
  {
    hide Digit;
    var w, put := Digits(n), DOLLAR(n);
    DigitsAreNumber(n);
    assert k[j..][0] == k[j] && put[0] == '$';
    forall i | 0 <= i < x
      ensures k[j + 1..j + 1 + x][i] == w[i] && w[i] in w
    {
      assert k[j..][i + 1] == k[j + 1 + i] && put[i + 1] == w[i];
    }
  }

  // ---- When a loop does not end -----------------------------------------------------------------

  // A key that the query holds and that every placeholder holds is found for ever.
  lemma {:induction false} NeverEnds(q: string, keys: seq<string>, mark: nat -> string, k: string, n: nat)
    requires k in keys && First(q, k, 0).Some? && forall m :: First(mark(m), k, 0).Some?
    ensures var s := Rounds(q, keys, mark, n);
            s.Some? && k in s.value.keys && First(s.value.text, k, 0).Some?
  {
    hide First, Surviving, Choose, Round;
    if n > 0 {
      NeverEnds(q, keys, mark, k, n - 1);
      var s := Rounds(q, keys, mark, n - 1).value;
      assert First(mark(|s.used|), k, 0).Some?;
      FoundAgain(s, mark, k);
    }
  }

  lemma FoundAgain(s: LoopState, mark: nat -> string, k: string)
    requires k in s.keys && First(s.text, k, 0).Some? && First(mark(|s.used|), k, 0).Some?
    ensures Round(s, mark).Some?
    ensures var r := Round(s, mark).value; k in r.keys && First(r.text, k, 0).Some?
  {
    hide First, Surviving;
    var c := Choose(s.text, s.keys).value;
    OccursInside(s.text, c.key, c.pos);
    FoundInside(s.text[..c.pos], mark(|s.used|), s.text[c.pos + |c.key|..], k);
  }

  lemma FoundInside(a: string, b: string, c: string, k: string)
    requires First(b, k, 0).Some?
    ensures First(a + b + c, k, 0).Some?
  {
    var i := First(b, k, 0).value;
    assert (a + b + c)[|a| + i..|a| + i + |k|] == b[i..i + |k|];
    assert OccursAt(a + b + c, k, |a| + i);
  }

  lemma EmptyFound(q: string)
    ensures First(q, "", 0) == Some(0)
  {
    assert OccursAt(q, "", 0);
  }

  // A character as a key: an empty key or a placeholder's first character, if the query
  // holds it, keep the loop going.
  lemma StuckForEver(q: string, keys: seq<string>, mark: nat -> string, c: char)
    requires "" in keys || ([c] in keys && c in q)
    requires forall m :: mark(m) != "" && mark(m)[0] == c
    ensures !Ends(q, keys, mark)
  {
    hide First, Rounds;
    var k := if "" in keys then "" else [c];
    EmptyFound(q);
    CharFound(q, c);
    forall m
      ensures First(mark(m), k, 0).Some?
    {
      EmptyFound(mark(m));
      CharFound(mark(m), c);
    }
    forall n
      ensures Rounds(q, keys, mark, n).Some?
    {
      NeverEnds(q, keys, mark, k, n);
    }
  }

  lemma CharFound(q: string, c: char)
    ensures First(q, [c], 0).Some? <==> c in q
  {
    if First(q, [c], 0).Some? {
      assert q[First(q, [c], 0).value] == c;
    } else if c in q {
      var i :| 0 <= i < |q| && q[i] == c;
      assert OccursAt(q, [c], i);
    }
  }

  // ---- When the MariaDB loop ends ---------------------------------------------------------------

  // No key is empty, and none is a question mark that the query holds.
  predicate EndsFor(q: string, keys: seq<string>) {
    "" !in keys && ("?" in keys ==> '?' !in q)
  }

  // After one round no key is a question mark any more.
  lemma EndsForNext(q: string, keys: seq<string>)
    requires EndsFor(q, keys)
    ensures "" !in Surviving(keys, q) && "?" !in Surviving(keys, q)
  {
    hide First;
    CharFound(q, '?');
  }

  function Others(q: string): nat {
    if q == "" then 0 else (if q[0] == '?' then 0 else 1) + Others(q[1..])
  }

  lemma {:induction false} OthersConcat(a: string, b: string)
    ensures Others(a + b) == Others(a) + Others(b)
  {
    if a == "" {
      assert a + b == b;
    } else {
      OthersConcat(a[1..], b);
      assert (a + b)[1..] == a[1..] + b;
    }
  }

  // Replacing by a question mark shortens the query or uses up a character that is
  // not one, as long as the key is neither empty nor a question mark itself.
  lemma QuestionShrinks(q: string, c: Choice)
    requires OccursAt(q, c.key, c.pos) && c.key != "" && c.key != "?"
    ensures |Replace(q, c, "?")| < |q| || (|Replace(q, c, "?")| == |q| && Others(Replace(q, c, "?")) < Others(q))
  {
    if |c.key| == 1 {
      var front, back := q[..c.pos], q[c.pos + 1..];
      assert q == front + c.key + back;
      assert c.key == [c.key[0]] && c.key[1..] == "" && c.key[0] != '?';
      OthersConcat(front + c.key, back);
      OthersConcat(front, c.key);
      OthersConcat(front + "?", back);
      OthersConcat(front, "?");
      assert "?"[1..] == "";
      assert Replace(q, c, "?") == front + "?" + back;
    }
  }

  lemma {:induction false} MariaDBEndsFrom(q: string, keys: seq<string>, n: nat) returns (m: nat)
    requires var s := Rounds(q, keys, QUESTION, n); s.Some? && EndsFor(s.value.text, s.value.keys)
    ensures Rounds(q, keys, QUESTION, m).None?
    decreases |StateAt(q, keys, QUESTION, n).text|, Others(StateAt(q, keys, QUESTION, n).text)
  {
    hide First, Replace, Others, Surviving, EndsFor, Rounds;
    var s := StateAt(q, keys, QUESTION, n);
    NextState(q, keys, QUESTION, n);
    m := n + 1;
    if Rounds(q, keys, QUESTION, n + 1).Some? {
      QuestionRound(s);
      m := MariaDBEndsFrom(q, keys, n + 1);
    }
  }

  lemma QuestionRound(s: LoopState)
    requires EndsFor(s.text, s.keys) && Round(s, QUESTION).Some?
    ensures var r := Round(s, QUESTION).value;
            && (|r.text| < |s.text| || (|r.text| == |s.text| && Others(r.text) < Others(s.text)))
            && EndsFor(r.text, r.keys)
  {
    hide First, Others, Replace;
    EndsForNext(s.text, s.keys);
    assert Choose(s.text, s.keys).value.key in Surviving(s.keys, s.text);
    QuestionShrinks(s.text, Choose(s.text, s.keys).value);
  }

  // The MariaDB loop ends exactly for the calls stated.
  lemma MariaDBEndsExactly(q: string, keys: seq<string>)
    ensures Ends(q, keys, QUESTION) <==> EndsFor(q, keys)
  {
    hide Rounds;
    if EndsFor(q, keys) {
      StartState(q, keys, QUESTION);
      var n := MariaDBEndsFrom(q, keys, 0);
    } else {
      StuckForEver(q, keys, QUESTION, '?');
    }
  }

  // ---- When the PostgreSQL loop ends --------------------------------------------------------------

  // The characters that no placeholder holds, and those that it holds once.
  function Foreign(q: string): nat {
    if q == "" then 0 else (if q[0] == '$' || Digit(q[0]) then 0 else 1) + Foreign(q[1..])
  }

  function Dollars(q: string): nat {
    if q == "" then 0 else (if q[0] == '$' then 1 else 0) + Dollars(q[1..])
  }

  // Keys that take more out of the query than a placeholder puts in.
  predicate Heavy(k: string) {
    Foreign(k) > 0 || Dollars(k) > 1
  }

  lemma {:induction false} CountsConcat(a: string, b: string)
    ensures Foreign(a + b) == Foreign(a) + Foreign(b) && Dollars(a + b) == Dollars(a) + Dollars(b)
  {
    if a == "" {
      assert a + b == b;
    } else {
      CountsConcat(a[1..], b);
      assert (a + b)[1..] == a[1..] + b;
    }
  }

  lemma {:induction false} DigitsCount(w: string)
    requires AllDigits(w)
    ensures Foreign(w) == 0 && Dollars(w) == 0
  {
    if w != "" {
      assert w[0] in w;
      DigitsCount(w[1..]);
    }
  }

  lemma DollarCount(n: nat)
    ensures Foreign(DOLLAR(n)) == 0 && Dollars(DOLLAR(n)) == 1
  {
    DigitsCount(Digits(n));
    assert DOLLAR(n)[1..] == Digits(n);
  }

  lemma ReplaceCounts(q: string, c: Choice, put: string)
    requires OccursAt(q, c.key, c.pos)
    ensures Foreign(Replace(q, c, put)) == Foreign(q) - Foreign(c.key) + Foreign(put)
    ensures Dollars(Replace(q, c, put)) == Dollars(q) - Dollars(c.key) + Dollars(put)
  {
    hide Foreign, Dollars;
    var front, back := q[..c.pos], q[c.pos + |c.key|..];
    assert q == front + c.key + back;
    CountsConcat(front + c.key, back);
    CountsConcat(front, c.key);
    CountsConcat(front + put, back);
    CountsConcat(front, put);
  }

  // The keys that occur are heavy.
  ghost predicate HeavyFor(q: string, keys: seq<string>) {
    forall k | k in keys && First(q, k, 0).Some? :: Heavy(k)
  }

  lemma DollarRound(s: LoopState)
    requires HeavyFor(s.text, s.keys) && Round(s, DOLLAR).Some?
    ensures var r := Round(s, DOLLAR).value;
            && (Foreign(r.text) < Foreign(s.text)
                || (Foreign(r.text) == Foreign(s.text) && Dollars(r.text) < Dollars(s.text)))
            && HeavyFor(r.text, r.keys)
  {
    hide First, Replace, Foreign, Dollars;
    var c := Choose(s.text, s.keys).value;
    ReplaceCounts(s.text, c, DOLLAR(|s.used|));
    DollarCount(|s.used|);
  }

  lemma {:induction false} PostgreSQLEndsFrom(q: string, keys: seq<string>, n: nat) returns (m: nat)
    requires var s := Rounds(q, keys, DOLLAR, n); s.Some? && HeavyFor(s.value.text, s.value.keys)
    ensures Rounds(q, keys, DOLLAR, m).None?
    decreases Foreign(StateAt(q, keys, DOLLAR, n).text), Dollars(StateAt(q, keys, DOLLAR, n).text)
  {
    hide Foreign, Dollars, HeavyFor, Round, Rounds;
    NextState(q, keys, DOLLAR, n);
    m := n + 1;
    if Rounds(q, keys, DOLLAR, n + 1).Some? {
      DollarRound(StateAt(q, keys, DOLLAR, n));
      m := PostgreSQLEndsFrom(q, keys, n + 1);
    }
  }

  // No key is empty, and none is a dollar sign that the query holds.
  predicate DollarFree(q: string, keys: seq<string>) {
    "" !in keys && ("$" in keys ==> '$' !in q)
  }

  // The PostgreSQL loop ends only then, and exactly then when no other light key, digits
  // with at most one dollar sign among them, occurs in the query.
  lemma PostgreSQLEndsExactly(q: string, keys: seq<string>)
    ensures Ends(q, keys, DOLLAR) ==> DollarFree(q, keys)
    ensures (forall k | k in keys && First(q, k, 0).Some? :: k == "" || k == "$" || Heavy(k)) ==>
              (Ends(q, keys, DOLLAR) <==> DollarFree(q, keys))
  {
    hide Rounds, First, Heavy, Foreign, Dollars;
    CharFound(q, '$');
    if !DollarFree(q, keys) {
      DollarIsMark();
      StuckForEver(q, keys, DOLLAR, '$');
    } else if HeavyFor(q, keys) {
      StartState(q, keys, DOLLAR);
      var n := PostgreSQLEndsFrom(q, keys, 0);
    }
  }
}
