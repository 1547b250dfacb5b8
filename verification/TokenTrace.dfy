// What the recursive driver makes of a stream, told by its trace alone: which
// subparser each token belongs to, what the last answer leads to, and which bytes of
// the stream each token took (Memory/parser.cpp).
module TokenTraces {
  import opened Common
  import opened Occurrences
  import opened Tokens

  // ---- Who is asked -----------------------------------------------------------------

  // Subparser q goes on after the tokens t.
  predicate GoesOn(r: Rules, t: Trace, q: nat)
    requires t != []
  {
    || (r.answer(t) == GetMoreData && q == t[|t| - 1].parser)
    || (r.answer(t) == GotoNextSubparser && r.change(t) == SwitchTo(q))
  }

  // The tokens from place b on, of which the first is for p, follow the answers.
  ghost predicate Orderly(r: Rules, t: Trace, b: nat, p: nat) {
    && b <= |t| && (b < |t| ==> t[b].parser == p)
    && forall i | b < i < |t| :: GoesOn(r, t[..i], t[i].parser)
  }

  // Who is asked after the tokens t: nobody after an error or a refusal, no one any
  // more after the end.
  ghost predicate LeadsTo(r: Rules, t: Trace, b: nat, p: nat, o: Outcome)
    requires b <= |t|
  {
    match o
    case Waiting(_, q, _) => if b == |t| then q == p else GoesOn(r, t, q)
    case Finished(_, _) => b < |t| && r.answer(t) == GotoNextSubparser && r.change(t) == Ended
    case Failed =>
      b < |t| && (r.answer(t) == ParseError || (r.answer(t) == GotoNextSubparser && r.change(t) == Refused))
  }

  // ---- What the tokens took ------------------------------------------------------------

  // The bytes of the stream that a token took: what was shown, and the delimiter.
  function Piece(k: Kind, window: seq<Byte>): seq<Byte> {
    match k
    case UntilDelimiter(d) => window + d
    case OfSize(_) => window
  }

  // A whole token of its kind: the delimiter is nowhere before its end, or the size
  // is right.
  ghost predicate Whole(k: Kind, window: seq<Byte>) {
    match k
    case UntilDelimiter(d) => First(window + d, d, 0) == Some(|window|)
    case OfSize(n) => |window| == n
  }

  ghost predicate WholeFrom(r: Rules, t: Trace, b: nat) {
    forall i | b <= i < |t| :: t[i].parser < |r.kinds| && Whole(r.kinds[t[i].parser], t[i].window)
  }

  // The bytes that the tokens from place b on took.
  function Took(r: Rules, t: Trace, b: nat): seq<Byte>
    requires forall i | b <= i < |t| :: t[i].parser < |r.kinds|
    decreases |t| - b
  {
    if b >= |t| then [] else Piece(r.kinds[t[b].parser], t[b].window) + Took(r, t, b + 1)
  }

  // The bytes of the stream after the last token.
  predicate Left(r: Rules, o: Outcome, rest: seq<Byte>)
    requires r.Valid()
  {
    match o
    case Waiting(_, q, tail) => rest == tail && q < |r.kinds| && NextToken(r.kinds[q], tail).None?
    case Finished(_, unread) => rest == unread
    case Failed => true
  }

  lemma TokenTaken(k: Kind, s: seq<Byte>)
    requires k.Valid() && NextToken(k, s).Some?
    ensures var cut := NextToken(k, s).value;
            Whole(k, cut.window) && s == Piece(k, cut.window) + s[cut.consumed..]
  {
    var cut := NextToken(k, s).value;
    if k.UntilDelimiter? {
      var d := k.delimiter;
      assert s[..cut.consumed] == cut.window + d;
      assert s == s[..cut.consumed] + s[cut.consumed..];
      BeforeEnd(cut.window + d, s[cut.consumed..], d, |cut.window|);
    }
  }

  lemma BeforeEnd(a: seq<Byte>, b: seq<Byte>, d: seq<Byte>, p: nat)
    requires p + |d| <= |a| && First(a + b, d, 0) == Some(p)
    ensures First(a, d, 0) == Some(p)
  {
    forall i: nat | i <= p
      ensures OccursAt(a, d, i) <==> OccursAt(a + b, d, i)
    {
      OccursAtExtends(a, b, d, i);
    }
    FirstUnique(a, d, 0, p);
  }

  lemma TokenTakes(k: Kind, window: seq<Byte>, rest: seq<Byte>)
    requires k.Valid() && Whole(k, window)
    ensures NextToken(k, Piece(k, window) + rest) == Some(Cut(window, |Piece(k, window)|))
    ensures (Piece(k, window) + rest)[|Piece(k, window)|..] == rest
  {
    var s := Piece(k, window) + rest;
    assert s[..|window|] == window;
    if k.UntilDelimiter? {
      FirstExtends(window + k.delimiter, rest, k.delimiter);
    }
  }

  // ---- From the stream to its trace --------------------------------------------------------

  // t and rest tell what happens to s when p is current and the first b tokens of t
  // came before.
  ghost predicate Tells(r: Rules, p: nat, s: seq<Byte>, b: nat, t: Trace, rest: seq<Byte>, o: Outcome)
    requires r.Valid()
  {
    && Orderly(r, t, b, p) && WholeFrom(r, t, b) && s == Took(r, t, b) + rest
    && LeadsTo(r, t, b, p, o) && Left(r, o, rest)
    && (!o.Failed? ==> o.trace == t)
  }

  lemma {:induction false} TraceOf(r: Rules, trace: Trace, p: nat, s: seq<Byte>) returns (t: Trace, rest: seq<Byte>)
    requires r.Valid() && p < |r.kinds|
    ensures trace <= t && Tells(r, p, s, |trace|, t, rest, Consume(r, trace, p, s))
    decreases |s|
  {
    hide NextToken, Whole, Piece;
    var cut := NextToken(r.kinds[p], s);
    if cut.None? {
      return trace, s;
    }
    TokenTaken(r.kinds[p], s);
    t := trace + [Token(p, cut.value.window)];
    rest := s[cut.value.consumed..];
    var b := |trace|;
    if r.answer(t) == GetMoreData {
      var trace' := t;
      t, rest := TraceOf(r, t, p, rest);
      OneMoreToken(r, p, p, s, trace, trace', t, rest, Consume(r, trace, p, s));
    } else if r.answer(t) == GotoNextSubparser && r.change(t).SwitchTo? {
      var trace' := t;
      t, rest := TraceOf(r, t, r.change(t).parser, rest);
      OneMoreToken(r, p, r.change(trace').parser, s, trace, trace', t, rest, Consume(r, trace, p, s));
    } else {
      assert Took(r, t, b) == Piece(r.kinds[p], cut.value.window) + [];
    }
  }

  lemma OneMoreToken(r: Rules, p: nat, q: nat, s: seq<Byte>, trace: Trace, trace': Trace, t: Trace,
                     rest: seq<Byte>, o: Outcome)
    requires r.Valid() && p < |r.kinds| && NextToken(r.kinds[p], s).Some?
    requires trace' == trace + [Token(p, NextToken(r.kinds[p], s).value.window)] && trace' <= t
    requires GoesOn(r, trace', q)
    requires Tells(r, q, s[NextToken(r.kinds[p], s).value.consumed..], |trace'|, t, rest, o)
    ensures Tells(r, p, s, |trace|, t, rest, o)
  {
    hide NextToken, Whole, Piece;
    TokenTaken(r.kinds[p], s);
    var b, w := |trace|, NextToken(r.kinds[p], s).value.window;
    assert t[..b + 1] == trace' && t[b] == trace'[b];
    forall i | b < i < |t|
      ensures GoesOn(r, t[..i], t[i].parser)
    {
      assert i > b + 1 || t[..i] == trace';
    }
    assert |t| == b + 1 ==> t == trace';
    assert Orderly(r, t, b, p) && LeadsTo(r, t, b, p, o);
    ConcatAssoc(Piece(r.kinds[p], w), Took(r, t, b + 1), rest);
  }

  // ---- From a trace to the stream ------------------------------------------------------------

  // What the first b tokens of t have left to be done.
  lemma {:induction false} TraceDecides(r: Rules, p: nat, s: seq<Byte>, b: nat, t: Trace, rest: seq<Byte>, o: Outcome)
    requires r.Valid() && p < |r.kinds| && Tells(r, p, s, b, t, rest, o)
    requires o.Failed? || o.trace == t
    ensures Consume(r, t[..b], p, s) == o
    decreases |t| - b
  {
    hide NextToken, Whole, Piece;
    if b == |t| {
      assert t[..b] == t && s == rest;
    } else {
      var w := t[b].window;
      TokenTakes(r.kinds[p], w, Took(r, t, b + 1) + rest);
      ConcatAssoc(Piece(r.kinds[p], w), Took(r, t, b + 1), rest);
      assert t[..b] + [Token(p, w)] == t[..b + 1];
      if b + 1 < |t| {
        TraceDecides(r, t[b + 1].parser, Took(r, t, b + 1) + rest, b + 1, t, rest, o);
      } else {
        assert t[..b + 1] == t && Took(r, t, b + 1) + rest == rest;
      }
    }
  }

  // ---- What a stream means ---------------------------------------------------------------------

  // An outcome is the one of a stream exactly when some tokens and bytes tell it.
  lemma MeaningExactly(r: Rules, p: nat, s: seq<Byte>, o: Outcome)
    requires r.Valid() && p < |r.kinds|
    ensures Consume(r, [], p, s) == o <==> exists t, rest :: Tells(r, p, s, 0, t, rest, o)
  {
    hide Consume, Tells;
    if Consume(r, [], p, s) == o {
      var t, rest := TraceOf(r, [], p, s);
    }
    if t, rest :| Tells(r, p, s, 0, t, rest, o) {
      TellsItsTrace(r, p, s, 0, t, rest, o);
      TraceDecides(r, p, s, 0, t, rest, o);
      assert t[..0] == [];
    }
  }

  lemma TellsItsTrace(r: Rules, p: nat, s: seq<Byte>, b: nat, t: Trace, rest: seq<Byte>, o: Outcome)
    requires r.Valid() && Tells(r, p, s, b, t, rest, o)
    ensures o.Failed? || o.trace == t
  {
  }

  lemma TellsWho(r: Rules, p: nat, s: seq<Byte>, b: nat, t: Trace, rest: seq<Byte>, o: Outcome)
    requires r.Valid() && Tells(r, p, s, b, t, rest, o)
    ensures b <= |t| && (!o.Failed? ==> o.trace == t)
    ensures b < |t| ==> t[b].parser == p
    ensures b == |t| ==> rest == s && (o.Waiting? ==> o == Waiting(t, p, s)) && !o.Finished? && !o.Failed?
    ensures b < |t| && o.Waiting? ==>
              || (r.answer(t) == GetMoreData && o.parser == t[|t| - 1].parser)
              || (r.answer(t) == GotoNextSubparser && r.change(t) == SwitchTo(o.parser))
    ensures o.Finished? ==> r.answer(t) == GotoNextSubparser && r.change(t) == Ended
  {
    hide Whole, NextToken, Piece;
  }

  lemma TellsNext(r: Rules, p: nat, s: seq<Byte>, b: nat, t: Trace, rest: seq<Byte>, o: Outcome, i: nat)
    requires r.Valid() && Tells(r, p, s, b, t, rest, o) && b < i < |t|
    ensures || (r.answer(t[..i]) == GetMoreData && t[i].parser == t[i - 1].parser)
            || (r.answer(t[..i]) == GotoNextSubparser && r.change(t[..i]) == SwitchTo(t[i].parser))
  {
    hide Whole, NextToken, Piece, Took, Left, LeadsTo, WholeFrom;
    assert t[..i][|t[..i]| - 1] == t[i - 1] && GoesOn(r, t[..i], t[i].parser);
  }

  // The first new token belongs to the subparser that was current. After each token
  // but the last the same subparser goes on if the answer asked for more data, and the
  // one that the protocol changed to if it asked for the next. The outcome follows the
  // last answer in the same way.
  lemma HandsOver(r: Rules, trace: Trace, p: nat, s: seq<Byte>)
    requires r.Valid() && p < |r.kinds| && !Consume(r, trace, p, s).Failed?
    ensures var o := Consume(r, trace, p, s);
            var t := o.trace;
            && trace <= t && (|trace| < |t| ==> t[|trace|].parser == p)
            && (forall i | |trace| < i < |t| ::
                  && r.answer(t[..i]) != ParseError
                  && (r.answer(t[..i]) == GetMoreData ==> t[i].parser == t[i - 1].parser)
                  && (r.answer(t[..i]) == GotoNextSubparser ==> r.change(t[..i]) == SwitchTo(t[i].parser)))
            && (t == trace ==> o == Waiting(trace, p, s))
            && (t != trace && o.Waiting? ==>
                  && r.answer(t) != ParseError
                  && (r.answer(t) == GetMoreData ==> o.parser == t[|t| - 1].parser)
                  && (r.answer(t) == GotoNextSubparser ==> r.change(t) == SwitchTo(o.parser)))
            && (o.Finished? ==> t != trace && r.answer(t) == GotoNextSubparser && r.change(t) == Ended)
  {
    hide Consume, Tells;
    var t, rest := TraceOf(r, trace, p, s);
    TellsWho(r, p, s, |trace|, t, rest, Consume(r, trace, p, s));
    var o := Consume(r, trace, p, s);
    assert t == o.trace && t[..|trace|] == trace;
    forall i | |trace| < i < |o.trace|
      ensures && r.answer(t[..i]) != ParseError
              && (r.answer(t[..i]) == GetMoreData ==> t[i].parser == t[i - 1].parser)
              && (r.answer(t[..i]) == GotoNextSubparser ==> r.change(t[..i]) == SwitchTo(t[i].parser))
    {
      TellsNext(r, p, s, |trace|, t, rest, Consume(r, trace, p, s), i);
    }
  }

  // A stream fails exactly after a token whose answer is an error, or asks for a next
  // subparser that the protocol refuses; the tokens before it follow the answers.
  lemma FailsExactly(r: Rules, p: nat, s: seq<Byte>)
    requires r.Valid() && p < |r.kinds|
    ensures Consume(r, [], p, s).Failed? <==>
            exists t: Trace, rest: seq<Byte> ::
              && t != [] && Orderly(r, t, 0, p) && WholeFrom(r, t, 0) && s == Took(r, t, 0) + rest
              && (r.answer(t) == ParseError || (r.answer(t) == GotoNextSubparser && r.change(t) == Refused))
  {
    hide Consume, NextToken, Took, Orderly;
    MeaningExactly(r, p, s, Failed);
    if Consume(r, [], p, s).Failed? {
      var t, rest :| Tells(r, p, s, 0, t, rest, Failed);
      TellsFailure(r, p, s, t, rest);
      assert t != [] && Orderly(r, t, 0, p) && WholeFrom(r, t, 0) && s == Took(r, t, 0) + rest;
    }
    if t: Trace, rest: seq<Byte> :|
        && t != [] && Orderly(r, t, 0, p) && WholeFrom(r, t, 0) && s == Took(r, t, 0) + rest
        && (r.answer(t) == ParseError || (r.answer(t) == GotoNextSubparser && r.change(t) == Refused)) {
      assert Tells(r, p, s, 0, t, rest, Failed);
    }
  }

  lemma TellsFailure(r: Rules, p: nat, s: seq<Byte>, t: Trace, rest: seq<Byte>)
    requires r.Valid() && Tells(r, p, s, 0, t, rest, Failed)
    ensures WholeFrom(r, t, 0) && Orderly(r, t, 0, p) && s == Took(r, t, 0) + rest && t != []
    ensures r.answer(t) == ParseError || (r.answer(t) == GotoNextSubparser && r.change(t) == Refused)
  {
    hide Whole, NextToken;
  }

  // Nothing of a stream is lost: it is what its tokens took, each up to its first
  // delimiter or of its size, and the bytes left, which hold no whole token more.
  lemma PiecesMakeUpStream(r: Rules, p: nat, s: seq<Byte>)
    requires r.Valid() && p < |r.kinds| && !Consume(r, [], p, s).Failed?
    ensures var o := Consume(r, [], p, s);
            && (forall i | 0 <= i < |o.trace| :: o.trace[i].parser < |r.kinds|)
            && s == Took(r, o.trace, 0) + (if o.Waiting? then o.tail else o.unread)
            && (forall i | 0 <= i < |o.trace| && r.kinds[o.trace[i].parser].OfSize? ::
                  |o.trace[i].window| == r.kinds[o.trace[i].parser].size)
            && (forall i | 0 <= i < |o.trace| && r.kinds[o.trace[i].parser].UntilDelimiter? ::
                  var d := r.kinds[o.trace[i].parser].delimiter;
                  First(o.trace[i].window + d, d, 0) == Some(|o.trace[i].window|))
            && (o.Waiting? ==> o.parser < |r.kinds| && NextToken(r.kinds[o.parser], o.tail).None?)
  {
    hide Consume, NextToken, Orderly, Took, First;
    var t, rest := TraceOf(r, [], p, s);
    forall i | 0 <= i < |t|
      ensures t[i].parser < |r.kinds| && Whole(r.kinds[t[i].parser], t[i].window)
    {
    }
  }

  // A stream takes one call for each token, and one more for bytes left behind the
  // last of them or for a stream without any.
  lemma {:induction false} RoundsCount(r: Rules, trace: Trace, p: nat, s: seq<Byte>)
    requires r.Valid() && p < |r.kinds| && !Consume(r, trace, p, s).Failed?
    ensures var o := Consume(r, trace, p, s);
            var more := o.Waiting? && (o.tail != [] || o.trace == trace);
            |trace| <= |o.trace| && Rounds(r, trace, p, s) == |o.trace| - |trace| + (if more then 1 else 0)
    decreases |s|
  {
    var cut := NextToken(r.kinds[p], s);
    if cut.Some? {
      var trace' := trace + [Token(p, cut.value.window)];
      var rest := s[cut.value.consumed..];
      match r.answer(trace')
      case ParseError =>
      case GetMoreData => RoundsCount(r, trace', p, rest);
      case GotoNextSubparser =>
        match r.change(trace')
        case Refused =>
        case Ended =>
        case SwitchTo(q) => RoundsCount(r, trace', q, rest);
    }
  }
}
