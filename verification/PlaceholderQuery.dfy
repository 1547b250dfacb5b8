// The MariaDB and PostgreSQL drivers' queries: the loops that put placeholders in for
// the named keys (DB_MariaDB/query_mariadb.cpp, DB_PostgreSQL/query_pgsql.cpp).
module PlaceholderQueries {
  import opened Common
  import opened Occurrences
  import opened Placeholders
  import opened PlaceholderLoops
  import opened PlaceholderDrivers
  import opened PlaceholderNumbers

  // One turn of a driver's loop.
  lemma TurnIsRound(q: string, keys: seq<string>, mark: nat -> string, n: nat, e: nat)
    requires Rounds(q, keys, mark, e).None? && Rounds(q, keys, mark, n).Some?
    ensures var s := Rounds(q, keys, mark, n).value;
            && n < e && |s.used| == n && Rounds(q, keys, mark, n + 1) == Round(s, mark)
            && (Choose(s.text, s.keys).None? ==> Rewritten(q, keys, mark) == Some(Scanned(s.text, s.used)))
  {
    hide Choose, Replace, Surviving, Rounds, Rewritten;
    OneKeyARound(q, keys, mark, n);
    NextState(q, keys, mark, n);
    if e <= n {
      EndedStaysEnded(q, keys, mark, e, n);
    }
    if Rounds(q, keys, mark, n + 1).None? {
      RewrittenIs(q, keys, mark, n);
    }
  }

  class Query {
    var query: string
    var keysByPos: seq<string>
    var paramCount: nat

    constructor (value: string)
      ensures query == value && keysByPos == [] && paramCount == 0
    {
      query, keysByPos, paramCount := value, [], 0;
    }

    // Query_MariaDB::postBindInputVars, up to the binding of the values.
    method BindMariaDB(inputKeys: seq<string>)
      requires Sorted(inputKeys) && EndsFor(query, inputKeys)
      modifies this`query, this`keysByPos
      ensures var r := Rewritten(old(query), inputKeys, QUESTION);
              r.Some? && query == r.value.text && keysByPos == old(keysByPos) + r.value.used
      ensures CleanFor(old(query), inputKeys, QUESTION) ==>
                && var r := Scan(old(query), inputKeys, QUESTION, 0);
                && query == r.text && keysByPos == old(keysByPos) + r.used
                && forall k | k in CleanPart(old(query), inputKeys, QUESTION) :: First(query, k, 0).None?
      ensures CleanFor(old(query), inputKeys, QUESTION) && '?' !in old(query) && old(keysByPos) == [] ==>
                Restore(query, keysByPos, '?', QUESTION, 0) == old(query)
    {
      hide Restore, Scan, Choose, First, Sorted, Surviving, Replace, CleanFor, CleanPart, EndsFor, Rounds;
      hide Rewritten;
      MariaDBEndsExactly(query, inputKeys);
      ghost var e: nat :| Rounds(query, inputKeys, QUESTION, e).None?;
      if CleanFor(query, inputKeys, QUESTION) {
        CleanScans(query, inputKeys, QUESTION);
        if '?' !in query {
          RestoreScan(query, inputKeys, '?', QUESTION, 0);
        }
      }
      StartState(query, inputKeys, QUESTION);
      var keysIn, more := inputKeys, true;
      ghost var used: seq<string>, done: nat, n: nat := [], 0, 0;
      while more
        invariant keysByPos == old(keysByPos) + used
        invariant more ==> Rounds(old(query), inputKeys, QUESTION, n) == Some(LoopState(query, keysIn, used, done))
        invariant !more ==> Rewritten(old(query), inputKeys, QUESTION) == Some(Scanned(query, used))
        decreases more, e as int - n
      {
        TurnIsRound(old(query), inputKeys, QUESTION, n, e);
        ghost var c := Choose(query, keysIn);
        more, query, keysIn, keysByPos := ReplaceFirstKey(query, keysIn, keysByPos, "?");
        if more {
          n, used, done := n + 1, used + [c.value.key], c.value.pos + 1;
        }
      }
      assert old(keysByPos) == [] ==> keysByPos == used;
    }

    // Query_PostgreSQL::postBindInputVars, up to the binding of the values. The
    // consistency check after the loop fails on every binding but the first.
    method BindPostgreSQL(inputKeys: seq<string>) returns (ok: bool)
      requires Sorted(inputKeys) && Ends(query, inputKeys, DOLLAR)
      modifies this
      ensures ok <==> old(keysByPos) == []
      ensures var r := Rewritten(old(query), inputKeys, DOLLAR);
              && r.Some? && query == r.value.text && keysByPos == old(keysByPos) + r.value.used
              && paramCount == |r.value.used|
      ensures CleanFor(old(query), inputKeys, DOLLAR) ==>
                && var r := Scan(old(query), inputKeys, DOLLAR, 0);
                && query == r.text && keysByPos == old(keysByPos) + r.used
                && forall k | k in CleanPart(old(query), inputKeys, DOLLAR) :: First(query, k, 0).None?
      ensures CleanFor(old(query), inputKeys, DOLLAR) && '$' !in old(query) && old(keysByPos) == [] ==>
                && (Numbers(query) == Counted(0, paramCount) <==> NoDigitBehind(old(query), inputKeys))
                && (NoDigitBehind(old(query), inputKeys) ==> Filled(query, keysByPos) == old(query))
    {
      hide Numbers, Counted, NoDigitBehind, Filled, Scan, Choose, First, Sorted, Surviving, Replace, CleanFor;
      hide CleanPart, Rounds, Rewritten;
      ghost var e: nat :| Rounds(query, inputKeys, DOLLAR, e).None?;
      if CleanFor(query, inputKeys, DOLLAR) {
        CleanScans(query, inputKeys, DOLLAR);
        if '$' !in query {
          NumbersReadBack(query, inputKeys);
        }
      }
      StartState(query, inputKeys, DOLLAR);
      paramCount := 0;
      var keysIn, more := inputKeys, true;
      ghost var used: seq<string>, done: nat := [], 0;
      while more
        invariant keysByPos == old(keysByPos) + used && paramCount == |used|
        invariant more ==>
                    Rounds(old(query), inputKeys, DOLLAR, paramCount) == Some(LoopState(query, keysIn, used, done))
        invariant !more ==> Rewritten(old(query), inputKeys, DOLLAR) == Some(Scanned(query, used))
        decreases more, e as int - paramCount
      {
        TurnIsRound(old(query), inputKeys, DOLLAR, paramCount, e);
        ghost var c := Choose(query, keysIn);
        var put := "$" + Digits(paramCount);
        more, query, keysIn, keysByPos := ReplaceFirstKey(query, keysIn, keysByPos, put);
        if more {
          used, done := used + [c.value.key], c.value.pos + |put|;
          paramCount := paramCount + 1;
        }
      }
      assert old(keysByPos) == [] ==> keysByPos == used;
      ok := paramCount == |keysByPos|;
    }
  }
}
