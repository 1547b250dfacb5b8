// The comma-separated string list (Memory/a_stringlist.cpp): its writer, its reader
// with backtracking, and exactly which lists survive the round trip.
module StringLists {
  import opened Common

  const QUOTE: char := '"'

  // ---- Writing -----------------------------------------------------------------------

  predicate NeedsQuotes(e: string) {
    ',' in e || QUOTE in e
  }

  // Every quote doubled.
  function Escape(e: string): string {
    if e == "" then "" else (if e[0] == QUOTE then [QUOTE, QUOTE] else [e[0]]) + Escape(e[1..])
  }

  function Field(e: string): string {
    if NeedsQuotes(e) then [QUOTE] + Escape(e) + [QUOTE] else e
  }

  function Text(xs: seq<string>): string
    decreases |xs|, 0
  {
    if xs == [] then "" else Field(xs[0]) + Tail(xs[1..])
  }

  // What follows the first field.
  function Tail(rest: seq<string>): string
    decreases |rest|, 1
  {
    if rest == [] then "" else "," + Text(rest)
  }

  // A field is its element as it stands exactly if that has neither a comma nor a quote;
  // otherwise it stands between quotes.
  lemma FieldExactly(e: string)
    ensures Field(e) == e <==> ',' !in e && '"' !in e
    ensures ',' in e || '"' in e ==> Field(e) == ['"'] + Escape(e) + ['"']
  {
    EscapeKeeps(e);
  }

  // Between them every quote stands twice and every other character once.
  lemma EscapeDoubles(c: char)
    ensures Escape([c]) == (if c == '"' then ['"', '"'] else [c]) && Escape("") == ""
  {
    assert [c][1..] == "";
  }

  lemma EscapeNext(e: string)
    requires e != ""
    ensures Escape(e) == (if e[0] == QUOTE then [QUOTE, QUOTE] else [e[0]]) + Escape(e[1..])
  {
  }

  lemma {:induction false} EscapeConcat(a: string, b: string)
    ensures Escape(a + b) == Escape(a) + Escape(b)
  {
    hide Escape;
    if a == "" {
      assert a + b == b;
      EscapeDoubles(',');
      assert "" + Escape(b) == Escape(b);
    } else {
      EscapeConcat(a[1..], b);
      assert (a + b)[1..] == a[1..] + b;
      EscapeNext(a);
      EscapeNext(a + b);
      ConcatAssoc(if a[0] == QUOTE then [QUOTE, QUOTE] else [a[0]], Escape(a[1..]), Escape(b));
    }
  }

  function CommaJoined(xs: seq<string>): string {
    if xs == [] then "" else if |xs| == 1 then xs[0] else xs[0] + "," + CommaJoined(xs[1..])
  }

  // A list none of whose elements has a comma or a quote is written as its elements
  // joined by commas.
  lemma {:induction false} PlainListText(xs: seq<string>)
    ensures (forall e | e in xs :: ',' !in e && '"' !in e) ==> Text(xs) == CommaJoined(xs)
  {
    if xs != [] {
      FieldExactly(xs[0]);
      PlainListText(xs[1..]);
    }
  }

  // ---- Reading -----------------------------------------------------------------------

  // The position of the first comma, or the length.
  function Comma(t: string): (k: nat)
    ensures k <= |t| && ',' !in t[..k] && (k < |t| ==> t[k] == ',')
  {
    if t == "" || t[0] == ',' then 0
    else
      var k := Comma(t[1..]);
      assert t[..1 + k] == [t[0]] + t[1..][..k];
      1 + k
  }

  // The values read from a text; `plain` says that a leading quote is an ordinary
  // character.
  function Values(t: string, plain: bool): seq<string>
    decreases |t|, if plain then 0 else 2, 0
  {
    if t == "" then []
    else if !plain && t[0] == QUOTE then Quoted(t, t[1..], "")
    else if Comma(t) < |t| then [t[..Comma(t)]] + Values(t[Comma(t) + 1..], false)
    else [t]
  }

  // The loop inside quotes: at t, with a value so far. On a quote that is neither
  // doubled nor followed by a comma or the end, or at an end without a quote, it goes
  // back to `start` and reads that as plain. After a closing quote and a comma it
  // stays in this loop.
  function Quoted(start: string, t: string, value: string): seq<string>
    requires |t| <= |start|
    decreases |start|, 1, |t|
  {
    if t == "" then (if value == "" then [] else Values(start, true))
    else if t[0] != QUOTE then Quoted(start, t[1..], value + [t[0]])
    else if |t| == 1 then [value]
    else if t[1] == ',' then [value] + Quoted(t[2..], t[2..], "")
    else if t[1] == QUOTE && |t| != 2 then Quoted(start, t[2..], value + [QUOTE])
    else Values(start, true)
  }

  // The quotes that toString puts around a field, doubling those inside.
  method Encapsulate(element: string) returns (result: string)
    ensures NeedsQuotes(element) ==> result == Field(element)
  {
    result := [QUOTE];
    for i := 0 to |element|
      invariant result + Escape(element[i..]) == [QUOTE] + Escape(element)
    {
      assert element[i..][1..] == element[i + 1..];
      if element[i] == QUOTE {
        result := result + [QUOTE, QUOTE];
      } else {
        result := result + [element[i]];
      }
    }
    result := result + [QUOTE];
  }

  lemma TextStep(value: seq<string>, i: nat, before: string, after: string)
    requires i < |value|
    requires if i == 0 then before == "" else before + Tail(value[i..]) == Text(value)
    requires after == (if i > 0 then before + "," else before) + Field(value[i])
    ensures after + Tail(value[i + 1..]) == Text(value)
  {
    hide Field, Text, Tail;
    var rest := value[i..];
    TextParts(rest);
    assert rest[1..] == value[i + 1..];
    if i == 0 {
      assert rest == value;
      assert after == Field(value[0]);
    } else {
      ConcatAssoc(before, ",", Field(value[i]));
      ConcatAssoc(before, "," + Field(value[i]), Tail(rest[1..]));
      ConcatAssoc(",", Field(value[i]), Tail(rest[1..]));
    }
  }

  lemma TextParts(xs: seq<string>)
    requires xs != []
    ensures Text(xs) == Field(xs[0]) + Tail(xs[1..]) && Tail(xs) == "," + Text(xs)
  {
  }

  lemma PlainField(e: string)
    requires !NeedsQuotes(e)
    ensures Field(e) == e
  {
  }

  lemma ReadStep(t: string, plain: bool)
    requires t != ""
    ensures Values(t, plain) ==
              if !plain && t[0] == QUOTE then Quoted(t, t[1..], "")
              else if Comma(t) < |t| then [t[..Comma(t)]] + Values(t[Comma(t) + 1..], false)
              else [t]
  {
  }

  lemma ReadNothing(start: string, plain: bool)
    ensures Values("", plain) == [] && Quoted(start, "", "") == []
  {
  }

  class StringList {
    var value: seq<string>

    constructor (value: seq<string>)
      ensures this.value == value
    {
      this.value := value;
    }

    method ToString() returns (result: string)
      ensures result == Text(value)
      ensures (forall e | e in value :: ',' !in e && '"' !in e) ==> result == CommaJoined(value)
    {
      PlainListText(value);
      hide Field;
      result := "";
      for i := 0 to |value|
        invariant i == 0 ==> result == ""
        invariant i > 0 ==> result + Tail(value[i..]) == Text(value)
      {
        var element := value[i];
        ghost var before := result;
        if i > 0 {
          result := result + ",";
        }
        if ',' in element || QUOTE in element {
          var quoted := Encapsulate(element);
          result := result + quoted;
        } else {
          PlainField(element);
          result := result + element;
        }
        TextStep(value, i, before, result);
      }
    }

    method FromString(input: string) returns (ok: bool)
      modifies this
      ensures ok && value == Values(input, false)
    {
      var finalValues: seq<string> := [];
      var currentPosition, startOfCurrentField := 0, 0;
      var inQuotes, processWithoutQuotes := false, false;
      hide Values, Quoted, Comma;
      assert input[0..] == input;
      while currentPosition < |input|
        invariant 0 <= startOfCurrentField <= |input| && 0 <= currentPosition <= |input|
        invariant inQuotes ==> startOfCurrentField < currentPosition
        invariant Values(input, false) == finalValues
                    + if inQuotes then Quoted(input[startOfCurrentField..], input[currentPosition..], "")
                      else Values(input[currentPosition..], processWithoutQuotes)
        decreases |input| - (if inQuotes then startOfCurrentField else currentPosition),
                  if inQuotes then 1 else if processWithoutQuotes then 0 else 2
      {
        var currentFieldValue := "";
        ghost var rest, plain := input[currentPosition..], processWithoutQuotes;
        if !inQuotes {
          if !processWithoutQuotes && input[currentPosition] == QUOTE {
            ReadStep(rest, plain);
            inQuotes := true;
            startOfCurrentField := currentPosition;
            currentPosition := currentPosition + 1;
            assert rest[1..] == input[currentPosition..];
          } else {
            processWithoutQuotes := false;
            var more;
            currentFieldValue, currentPosition, more := PlainValue(input, currentPosition, plain);
            ConcatAssoc(finalValues, [currentFieldValue], Values(input[currentPosition..], false));
            finalValues := finalValues + [currentFieldValue];
            if !more {
              break;
            }
          }
        } else {
          finalValues, currentPosition, startOfCurrentField, inQuotes, currentFieldValue :=
            InsideQuotes(input, finalValues, currentPosition, startOfCurrentField);
          if currentFieldValue != "" {
            currentPosition := startOfCurrentField;
            processWithoutQuotes := true;
            inQuotes := false;
          } else {
            assert input[|input|..] == "";
            ReadNothing("", processWithoutQuotes);
          }
        }
      }
      assert input[|input|..] == "";
      ReadNothing(input[startOfCurrentField..], processWithoutQuotes);
      value := finalValues;
      ok := true;
    }
  }

  // std::string::find_first_of for a comma; the length stands for npos.
  method FindComma(input: string, from: nat) returns (at: nat)
    requires from <= |input|
    ensures at == from + Comma(input[from..])
  {
    at := from;
    while at < |input| && input[at] != ','
      invariant from <= at <= |input|
      invariant from + Comma(input[from..]) == at + Comma(input[at..])
    {
      assert input[at..][1..] == input[at + 1..];
      at := at + 1;
    }
  }

  // The value up to the next comma, or the last one.
  method PlainValue(input: string, position: nat, ghost plain: bool) returns (value: string, next: nat, more: bool)
    requires position < |input| && (plain || input[position] != QUOTE)
    ensures position <= next <= |input| && (more ==> position < next)
    ensures Values(input[position..], plain) == [value] + if more then Values(input[next..], false) else []
  {
    hide Values;
    ghost var rest := input[position..];
    ReadStep(rest, plain);
    var commaPosition := FindComma(input, position);
    if commaPosition < |input| {
      assert input[position..commaPosition] == rest[..Comma(rest)];
      assert rest[Comma(rest) + 1..] == input[commaPosition + 1..];
      return input[position..commaPosition], commaPosition + 1, true;
    } else {
      return input[position..], position, false;
    }
  }

  // The inner loop. It leaves a nonempty value behind exactly when it has to go back.
  method InsideQuotes(input: string, values: seq<string>, position: nat, start: nat)
    returns (finalValues: seq<string>, currentPosition: nat, startOfCurrentField: nat, inQuotes: bool,
             currentFieldValue: string)
    requires start < position < |input|
    ensures start <= startOfCurrentField <= |input|
    ensures values + Quoted(input[start..], input[position..], "")
         == finalValues + if currentFieldValue == "" then [] else Values(input[startOfCurrentField..], true)
    ensures currentFieldValue == "" ==> currentPosition == |input| && !inQuotes
  {
    finalValues, currentPosition, startOfCurrentField, inQuotes, currentFieldValue := values, position, start, true, "";
    while currentPosition < |input|
      invariant start <= startOfCurrentField <= currentPosition <= |input|
      invariant values + Quoted(input[start..], input[position..], "")
             == finalValues + Quoted(input[startOfCurrentField..], input[currentPosition..], currentFieldValue)
      invariant currentPosition == |input| && currentFieldValue == "" ==> !inQuotes
      decreases |input| - currentPosition
    {
      var currentChar := input[currentPosition];
      ghost var t := input[currentPosition..];
      if currentChar == QUOTE {
        if currentPosition + 1 == |input| {
          finalValues := finalValues + [currentFieldValue];
          currentPosition := currentPosition + 1;
          currentFieldValue := "";
          inQuotes := false;
          break;
        } else if input[currentPosition + 1] == ',' {
          assert t[2..] == input[currentPosition + 2..];
          finalValues := finalValues + [currentFieldValue];
          currentFieldValue := "";
          inQuotes := false;
          currentPosition := currentPosition + 2;
          startOfCurrentField := currentPosition;
        } else if input[currentPosition + 1] == QUOTE && currentPosition + 2 != |input| {
          assert t[2..] == input[currentPosition + 2..];
          currentFieldValue := currentFieldValue + [currentChar];
          currentPosition := currentPosition + 2;
        } else {
          currentFieldValue := "IGN";
          break;
        }
      } else {
        assert t[1..] == input[currentPosition + 1..];
        currentFieldValue := currentFieldValue + [currentChar];
        currentPosition := currentPosition + 1;
      }
    }
  }

  // ---- The round trip ----------------------------------------------------------------

  // Whether the reader, inside its quote loop by mistake at the start of a list's
  // text, finds its mistake: the first quoted element must not begin with a comma once
  // its leading quotes are off, and one made of quotes alone hides itself.
  predicate FindsMistake(xs: seq<string>) {
    xs == [] ||
    if !NeedsQuotes(xs[0]) then FindsMistake(xs[1..])
    else
      var q := LeadingQuotes(xs[0]);
      if q < |xs[0]| then xs[0][q] != ',' else FindsMistake(xs[1..])
  }

  function LeadingQuotes(e: string): (k: nat)
    ensures k <= |e| && (forall i | 0 <= i < k :: e[i] == QUOTE) && (k < |e| ==> e[k] != QUOTE)
  {
    if e == "" || e[0] != QUOTE then 0 else 1 + LeadingQuotes(e[1..])
  }

  // A list can be read back: it does not end in an empty element, and each quoted
  // element but the last is followed by an unquoted one, from which the reader finds
  // its mistake.
  predicate Restorable(xs: seq<string>) {
    && (xs != [] ==> xs[|xs| - 1] != "")
    && forall i | 0 <= i < |xs| - 1 && NeedsQuotes(xs[i]) :: !NeedsQuotes(xs[i + 1]) && FindsMistake(xs[i + 1..])
  }

  function Quotes(n: nat): (s: string)
    ensures |s| == n && forall i | 0 <= i < n :: s[i] == QUOTE
  {
    seq(n, _ => QUOTE)
  }

  // -- What the reader does with one field

  lemma {:induction false} CommaAfter(u: string, rest: string)
    requires ',' !in u && (rest == "" || rest[0] == ',')
    ensures Comma(u + rest) == |u|
  {
    if u == "" {
      assert u + rest == rest;
    } else {
      assert (u + rest)[1..] == u[1..] + rest;
      CommaAfter(u[1..], rest);
    }
  }

  lemma PlainStep(u: string, tail: seq<string>)
    requires !NeedsQuotes(u)
    ensures Values(u + Tail(tail), true) == if u + Tail(tail) == "" then [] else [u] + Values(Text(tail), false)
    ensures Values(u + Tail(tail), false) == Values(u + Tail(tail), true)
  {
    var t := u + Tail(tail);
    CommaAfter(u, Tail(tail));
    if t != "" {
      assert t[0] != QUOTE by { assert t[0] == if u != "" then u[0] else ','; }
      if tail != [] {
        assert t[|u| + 1..] == Text(tail);
        assert t[..|u|] == u;
      } else {
        assert t == u;
        assert Values("", false) == [];
      }
    }
  }

  lemma {:induction false} Skim(start: string, u: string, t: string, value: string)
    requires QUOTE !in u && |u| + |t| <= |start|
    ensures Quoted(start, u + t, value) == Quoted(start, t, value + u)
  {
    if u == "" {
      assert u + t == t && value + u == value;
    } else {
      assert (u + t)[1..] == u[1..] + t;
      assert value + [u[0]] + u[1..] == value + u;
      Skim(start, u[1..], t, value + [u[0]]);
    }
  }

  lemma {:induction false} SkimPairs(start: string, n: nat, t: string, value: string)
    requires t != "" && 2 * n + |t| <= |start|
    ensures Quoted(start, Quotes(2 * n) + t, value) == Quoted(start, t, value + Quotes(n))
  {
    if n == 0 {
      assert Quotes(0) + t == t && value + Quotes(0) == value;
    } else {
      var s := Quotes(2 * n) + t;
      assert s[2..] == Quotes(2 * (n - 1)) + t;
      assert value + [QUOTE] + Quotes(n - 1) == value + Quotes(n);
      SkimPairs(start, n - 1, t, value + [QUOTE]);
    }
  }

  // A well-formed quoted field is read as its element.
  lemma {:induction false} QuotedField(start: string, e: string, t: string, value: string)
    requires (t == "" || t[0] == ',') && |Escape(e)| + 1 + |t| <= |start|
    ensures Quoted(start, Escape(e) + [QUOTE] + t, value)
         == [value + e] + if t == "" then [] else Quoted(t[1..], t[1..], "")
  {
    var s := Escape(e) + [QUOTE] + t;
    if e == "" {
      assert s == [QUOTE] + t && value + e == value;
      if t != "" {
        assert s[2..] == t[1..];
      }
    } else {
      var rest := Escape(e[1..]) + [QUOTE] + t;
      assert value + [e[0]] + e[1..] == value + e;
      QuotedField(start, e[1..], t, value + [e[0]]);
      if e[0] == QUOTE {
        assert s == [QUOTE, QUOTE] + rest;
        assert s[2..] == rest;
      } else {
        assert s == [e[0]] + rest;
        assert s[1..] == rest;
      }
    }
  }

  // A quoted field at the head of a text is read, and the reader stays in its loop.
  lemma QuotedStep(e: string, tail: seq<string>)
    requires NeedsQuotes(e)
    ensures Values(Field(e) + Tail(tail), false)
         == [e] + if tail == [] then [] else Quoted(Text(tail), Text(tail), "")
  {
    hide Quoted, Values, Escape, Text;
    var t := Field(e) + Tail(tail);
    assert t[1..] == Escape(e) + [QUOTE] + Tail(tail);
    ReadStep(t, false);
    QuotedField(t, e, Tail(tail), "");
    assert "" + e == e;
    if tail != [] {
      assert Tail(tail)[1..] == Text(tail);
    }
  }

  // -- What it does by mistake

  lemma {:induction false} EscapeKeeps(e: string)
    ensures |Escape(e)| >= |e| && (',' in Escape(e) <==> ',' in e)
    ensures e != "" ==> Escape(e)[0] == e[0]
  {
    if e != "" {
      EscapeKeeps(e[1..]);
      assert ',' in e <==> e[0] == ',' || ',' in e[1..];
    }
  }

  lemma MoreQuotes(n: nat)
    ensures [QUOTE] + Quotes(n) == Quotes(n) + [QUOTE] == Quotes(n + 1)
    ensures [QUOTE, QUOTE] + Quotes(n) == Quotes(n + 2)
    ensures Quotes(0) == ""
  {
  }

  lemma EscapeStep(e: string)
    requires e != "" && e[0] == QUOTE
    ensures Escape(e) == [QUOTE, QUOTE] + Escape(e[1..])
  {
  }

  lemma {:induction false} EscapeLeading(e: string)
    ensures var q := LeadingQuotes(e); Escape(e) == Quotes(2 * q) + Escape(e[q..])
  {
    hide Quotes, Escape;
    var q := LeadingQuotes(e);
    MoreQuotes(0);
    if q == 0 {
      assert e[0..] == e;
    } else {
      EscapeStep(e);
      EscapeLeading(e[1..]);
      assert e[1..][q - 1..] == e[q..];
      MoreQuotes(2 * (q - 1));
      ConcatAssoc([QUOTE, QUOTE], Quotes(2 * (q - 1)), Escape(e[q..]));
    }
  }

  // What follows the opening quotes of a quoted field, the last one apart.
  function Inside(e: string): string {
    Escape(e[LeadingQuotes(e)..]) + [QUOTE]
  }

  // All the quotes that open a quoted element's field: an odd number of them before
  // another character, or nothing but an even number of them.
  lemma FieldShape(e: string)
    requires NeedsQuotes(e)
    ensures var q := LeadingQuotes(e);
            && Field(e) == Quotes(2 * q) + ([QUOTE] + Inside(e))
            && (q < |e| ==> |Inside(e)| > 1 && Inside(e)[0] == e[q])
            && (q == |e| ==> q > 0 && Field(e) == Quotes(2 * (q + 1)))
  {
    hide Quotes, Escape;
    var q := LeadingQuotes(e);
    var rest := Escape(e[q..]);
    EscapeLeading(e);
    EscapeKeeps(e[q..]);
    MoreQuotes(2 * q);
    MoreQuotes(2 * q + 1);
    ConcatAssoc([QUOTE], Quotes(2 * q), rest);
    ConcatAssoc(Quotes(2 * q), [QUOTE], rest);
    ConcatAssoc(Quotes(2 * q), [QUOTE] + rest, [QUOTE]);
    ConcatAssoc([QUOTE], rest, [QUOTE]);
    if q == |e| {
      NothingEscaped(e[q..]);
      assert [QUOTE] + Inside(e) == [QUOTE] + [QUOTE];
      ConcatAssoc(Quotes(2 * q), [QUOTE], [QUOTE]);
    }
  }

  lemma NothingEscaped(e: string)
    requires e == ""
    ensures Escape(e) == ""
  {
  }

  // With a value begun, the loop either goes back to the start, if the list lets it
  // find its mistake, or pushes a value that begins with the one begun.
  lemma {:induction false} ByMistake(start: string, xs: seq<string>, value: string)
    requires xs != [] && value != "" && |Text(xs)| <= |start|
    ensures FindsMistake(xs) ==> Quoted(start, Text(xs), value) == Values(start, true)
    ensures !FindsMistake(xs) ==> var r := Quoted(start, Text(xs), value); r != [] && value <= r[0]
    decreases |xs|, 0
  {
    hide Quoted, Values, Quotes, Field, Inside;
    var e, rest := xs[0], xs[1..];
    if !NeedsQuotes(e) {
      PlainField(e);
      assert Text(xs) == e + Tail(rest);
      Skim(start, e, Tail(rest), value);
      MistakeGoesOn(start, rest, value + e);
    } else {
      var q := LeadingQuotes(e);
      FieldShape(e);
      if q < |e| {
        OddQuotes(start, q, Inside(e), Tail(rest), value);
        ConcatAssoc(Quotes(2 * q), [QUOTE] + Inside(e), Tail(rest));
      } else if rest == [] {
        assert Text(xs) == Field(e) && FindsMistake(rest);
        OnlyQuotes(start, q, value);
      } else {
        SkimPairs(start, q + 1, Tail(rest), value);
        MistakeGoesOn(start, rest, value + Quotes(q + 1));
      }
    }
  }

  lemma OddQuotes(start: string, q: nat, inside: string, tail: string, value: string)
    requires |inside| > 1 && inside[0] != QUOTE && 2 * q + 1 + |inside| + |tail| <= |start|
    ensures var r := Quoted(start, Quotes(2 * q) + ([QUOTE] + inside + tail), value);
            if inside[0] == ',' then r != [] && r[0] == value + Quotes(q) else r == Values(start, true)
  {
    var t := [QUOTE] + inside + tail;
    SkimPairs(start, q, t, value);
    assert t[1] == inside[0];
  }

  lemma OnlyQuotes(start: string, q: nat, value: string)
    requires 2 * (q + 1) <= |start|
    ensures Quoted(start, Quotes(2 * (q + 1)), value) == Values(start, true)
  {
    assert Quotes(2 * (q + 1)) == Quotes(2 * q) + [QUOTE, QUOTE];
    SkimPairs(start, q, [QUOTE, QUOTE], value);
  }

  lemma {:induction false} MistakeGoesOn(start: string, rest: seq<string>, value: string)
    requires value != "" && |Tail(rest)| <= |start|
    ensures FindsMistake(rest) ==> Quoted(start, Tail(rest), value) == Values(start, true)
    ensures !FindsMistake(rest) ==> var r := Quoted(start, Tail(rest), value); r != [] && value <= r[0]
    decreases |rest|, 1
  {
    if rest != [] {
      assert Tail(rest)[1..] == Text(rest);
      ByMistake(start, rest, value + ",");
    }
  }

  // Read as plain, a quoted element is never restored.
  lemma PlainLosesQuoted(xs: seq<string>)
    requires xs != [] && NeedsQuotes(xs[0])
    ensures Values(Text(xs), true) != xs
  {
    hide Escape;
    var e, t := xs[0], Text(xs);
    EscapeKeeps(e);
    if ',' !in e {
      CommaAfter(Field(e), Tail(xs[1..]));
      assert t[..Comma(t)] == Field(e);
      assert |Field(e)| > |e|;
    }
    assert Values(t, true)[0] == t[..Comma(t)] by { assert Comma(t) == |t| ==> t[..Comma(t)] == t; }
  }

  // Staying in the quote loop does no harm exactly when the reader finds its mistake
  // on a list that begins with an unquoted element.
  lemma MistakenRead(xs: seq<string>)
    requires xs != []
    ensures Quoted(Text(xs), Text(xs), "") == xs
            <==> !NeedsQuotes(xs[0]) && FindsMistake(xs) && Values(Text(xs), false) == xs
  {
    if NeedsQuotes(xs[0]) {
      MistakenQuoted(xs);
    } else {
      MistakenPlain(xs);
    }
  }

  lemma MistakenPlain(xs: seq<string>)
    requires xs != [] && !NeedsQuotes(xs[0])
    ensures Quoted(Text(xs), Text(xs), "") == xs <==> FindsMistake(xs) && Values(Text(xs), false) == xs
  {
    hide Quoted, Values, Field;
    var e, rest, start := xs[0], xs[1..], Text(xs);
    PlainField(e);
    PlainStep(e, rest);
    Skim(start, e, Tail(rest), "");
    assert "" + e == e;
    if rest == [] {
      ReadNothing("", false);
      assert FindsMistake(rest);
      if e != "" {
        QuotesEnd(start, e);
      }
    } else {
      MistakeGoesOnFrom(start, rest, e);
    }
  }

  lemma QuotesEnd(start: string, value: string)
    requires value != ""
    ensures Quoted(start, "", value) == Values(start, true)
  {
  }

  lemma MistakeGoesOnFrom(start: string, rest: seq<string>, value: string)
    requires rest != [] && |Tail(rest)| <= |start|
    ensures FindsMistake(rest) ==> Quoted(start, Tail(rest), value) == Values(start, true)
    ensures !FindsMistake(rest) ==> var r := Quoted(start, Tail(rest), value); r != [] && r[0] != value
  {
    assert Tail(rest)[1..] == Text(rest);
    ByMistake(start, rest, value + ",");
  }

  lemma MistakenQuoted(xs: seq<string>)
    requires xs != [] && NeedsQuotes(xs[0])
    ensures Quoted(Text(xs), Text(xs), "") != xs
  {
    hide Quoted, Values, Field, Inside, FindsMistake;
    var e, rest, start := xs[0], xs[1..], Text(xs);
    var q := LeadingQuotes(e);
    PlainLosesQuoted(xs);
    FieldShape(e);
    if q < |e| {
      OddQuotes(start, q, Inside(e), Tail(rest), "");
      ConcatAssoc(Quotes(2 * q), [QUOTE] + Inside(e), Tail(rest));
    } else if rest == [] {
      assert start == Field(e);
      OnlyQuotes(start, q, "");
    } else {
      SkimPairs(start, q + 1, Tail(rest), "");
      MistakeGoesOn(start, rest, "" + Quotes(q + 1));
    }
  }

  lemma RestorableStep(xs: seq<string>)
    requires xs != []
    ensures Restorable(xs) <==>
              if xs[1..] == [] then xs[0] != ""
              else Restorable(xs[1..]) && (NeedsQuotes(xs[0]) ==> !NeedsQuotes(xs[1]) && FindsMistake(xs[1..]))
  {
    hide FindsMistake;
    var rest := xs[1..];
    assert forall i | 0 <= i < |rest| :: rest[i] == xs[i + 1] && rest[i..] == xs[i + 1..];
    if Restorable(xs) && rest != [] {
      forall i | 0 <= i < |rest| - 1 && NeedsQuotes(rest[i])
        ensures !NeedsQuotes(rest[i + 1]) && FindsMistake(rest[i + 1..])
      {
        assert NeedsQuotes(xs[i + 1]);
      }
    }
    if rest != [] && Restorable(rest) && (NeedsQuotes(xs[0]) ==> !NeedsQuotes(xs[1]) && FindsMistake(xs[1..])) {
      forall i | 0 <= i < |xs| - 1 && NeedsQuotes(xs[i])
        ensures !NeedsQuotes(xs[i + 1]) && FindsMistake(xs[i + 1..])
      {
        if i > 0 {
          assert NeedsQuotes(rest[i - 1]);
        }
      }
    }
  }

  // -- What the reader makes of other texts

  // A text without quotes is read as its fields between commas; a comma at the end
  // leaves no field behind it.
  lemma {:induction false} PlainTextRead(t: string, plain: bool)
    requires '"' !in t || (plain && '"' !in t[1..])
    ensures var r := Values(t, plain);
            && (forall v | v in r :: ',' !in v)
            && CommaJoined(r) == (if t != "" && t[|t| - 1] == ',' then t[..|t| - 1] else t)
            && (r == [] <==> t == "")
    decreases |t|
  {
    hide Values, Comma, CommaJoined;
    JoinedParts([]);
    if t == "" {
      ReadNothing("", plain);
    } else {
      var k := Comma(t);
      assert plain || t[0] != '"' by { assert t[0] in t; }
      ReadStep(t, plain);
      if k < |t| {
        var rest := t[k + 1..];
        assert forall c | c in rest :: c in t[1..];
        PlainTextRead(rest, false);
        FieldsJoined(t, k, Values(rest, false));
      } else {
        assert t[..k] == t && (t[|t| - 1] == ',' ==> ',' in t);
        JoinedParts([t]);
      }
    }
  }

  lemma JoinedParts(xs: seq<string>)
    ensures CommaJoined(xs) == if xs == [] then "" else if xs[1..] == [] then xs[0]
                               else xs[0] + "," + CommaJoined(xs[1..])
  {
  }

  lemma FieldsJoined(t: string, k: nat, r: seq<string>)
    requires k < |t| && t[k] == ',' && (r == [] <==> t[k + 1..] == "")
    requires var rest := t[k + 1..];
             CommaJoined(r) == (if rest != "" && rest[|rest| - 1] == ',' then rest[..|rest| - 1] else rest)
    ensures CommaJoined([t[..k]] + r) == (if t[|t| - 1] == ',' then t[..|t| - 1] else t)
  {
    hide CommaJoined;
    JoinedParts([t[..k]] + r);
    FieldAndRest(t, k);
    assert ([t[..k]] + r)[1..] == r;
  }

  lemma FieldAndRest(t: string, k: nat)
    requires k < |t| && t[k] == ','
    ensures var rest := t[k + 1..];
            && t == t[..k] + "," + rest && (rest == "" ==> t[|t| - 1] == ',' && t[..|t| - 1] == t[..k])
            && (rest != "" ==> t[|t| - 1] == rest[|rest| - 1]
                               && t[..|t| - 1] == t[..k] + "," + rest[..|rest| - 1])
  {
  }

  // A text with one quote, at its start, is read in the same way, the quote being an
  // ordinary character, unless it is that quote alone, which is read as nothing.
  lemma UnclosedQuoteRead(u: string)
    requires '"' !in u
    ensures Values(['"'] + u, false) == if u == "" then [] else Values(['"'] + u, true)
  {
    hide Values;
    var t := ['"'] + u;
    ReadStep(t, false);
    Skim(t, u, "", "");
    assert t[1..] == u && u + "" == u && "" + u == u;
    if u != "" {
      QuotesEnd(t, u);
    } else {
      ReadNothing(t, false);
    }
  }

  // So is a text whose second quote is followed by something other than a comma or a
  // quote, or doubled at the very end.
  lemma BrokenQuoteRead(u: string, c: char, rest: string)
    requires '"' !in u && ((c != ',' && c != '"') || (c == '"' && rest == ""))
    ensures var t := ['"'] + (u + (['"', c] + rest)); Values(t, false) == Values(t, true)
  {
    hide Values;
    var x := ['"', c] + rest;
    var t := ['"'] + (u + x);
    ReadStep(t, false);
    assert t[1..] == u + x;
    Skim(t, u, x, "");
    QuoteBroken(t, x, "" + u);
  }

  lemma QuoteBroken(start: string, t: string, value: string)
    requires 2 <= |t| <= |start| && t[0] == '"'
    requires (t[1] != ',' && t[1] != '"') || (t[1] == '"' && |t| == 2)
    ensures Quoted(start, t, value) == Values(start, true)
  {
  }

  // Reading back what was written restores a list if and only if it is restorable.
  lemma {:induction false} RoundTripExactly(xs: seq<string>)
    ensures Values(Text(xs), false) == xs <==> Restorable(xs)
  {
    hide Quoted, Values, Field, FindsMistake, Restorable;
    if xs == [] {
      ReadNothing("", false);
      NothingRestorable();
    } else {
      var rest := xs[1..];
      RestorableStep(xs);
      RoundTripExactly(rest);
      if NeedsQuotes(xs[0]) {
        QuotedStep(xs[0], rest);
        if rest != [] {
          MistakenRead(rest);
        }
      } else {
        PlainField(xs[0]);
        PlainStep(xs[0], rest);
        ReadNothing("", false);
      }
    }
  }

  lemma NothingRestorable()
    ensures Restorable([])
  {
  }

  // In particular every list that ends in a nonempty element and holds at most one
  // element to be quoted survives; two of those in a row never do.
  lemma OneQuotedRestored(xs: seq<string>)
    requires xs != [] ==> xs[|xs| - 1] != ""
    requires forall i, j | 0 <= i < j < |xs| :: !NeedsQuotes(xs[i]) || !NeedsQuotes(xs[j])
    ensures Values(Text(xs), false) == xs
  {
    forall i | 0 <= i < |xs| - 1 && NeedsQuotes(xs[i])
      ensures !NeedsQuotes(xs[i + 1]) && FindsMistake(xs[i + 1..])
    {
      UnquotedFindsMistake(xs[i + 1..]);
    }
    RoundTripExactly(xs);
  }

  lemma {:induction false} UnquotedFindsMistake(xs: seq<string>)
    requires forall e | e in xs :: !NeedsQuotes(e)
    ensures FindsMistake(xs)
  {
    if xs != [] {
      UnquotedFindsMistake(xs[1..]);
    }
  }

  lemma TwoQuotedInARowLost(xs: seq<string>, i: nat)
    requires i < |xs| - 1 && NeedsQuotes(xs[i]) && NeedsQuotes(xs[i + 1])
    ensures Values(Text(xs), false) != xs
  {
    RoundTripExactly(xs);
  }
}
