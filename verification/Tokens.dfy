// What an incremental parser is meant to do with a byte stream, said without
// buffers: cut off the next token, show it to the protocol, go on with the rest
// (the contract of Memory/parser.cpp and Memory/subparser.cpp).
module Tokens {
  import opened Common
  import opened Occurrences

  datatype ParseStatus = ParseError | GetMoreData | GotoNextSubparser

  // One call of a subparser's parse(): who was asked, and the bytes it was shown.
  datatype Token = Token(parser: nat, window: seq<Byte>)

  type Trace = seq<Token>

  // What changeToNextParser does: it refuses, ends the protocol (no current
  // parser any more), or selects another subparser.
  datatype Change = Refused | Ended | SwitchTo(parser: nat)

  // How a subparser cuts its tokens.
  datatype Kind = UntilDelimiter(delimiter: seq<Byte>) | OfSize(size: nat) {
    predicate Valid() {
      if UntilDelimiter? then 0 < |delimiter| < SIZE_LIMIT else 0 < size < SIZE_LIMIT
    }
  }

  // A protocol: its subparsers, and the decisions of its virtual functions,
  // which can depend on everything parsed so far.
  datatype Rules = Rules(kinds: seq<Kind>, answer: Trace -> ParseStatus, change: Trace -> Change) {
    ghost predicate Valid() {
      && (forall i | 0 <= i < |kinds| :: kinds[i].Valid())
      && (forall t :: change(t).SwitchTo? ==> change(t).parser < |kinds|)
    }
  }

  datatype Cut = Cut(window: seq<Byte>, consumed: nat)

  // The first token of s, if s holds a whole one.
  function NextToken(k: Kind, s: seq<Byte>): (r: Option<Cut>)
    requires k.Valid()
    ensures r.Some? ==> 0 < r.value.consumed <= |s| && r.value.window <= s && |r.value.window| <= r.value.consumed
  {
    match k
    case UntilDelimiter(d) =>
      var p := First(s, d, 0);
      if p.Some? then Some(Cut(s[..p.value], p.value + |d|)) else None
    case OfSize(n) =>
      if |s| >= n then Some(Cut(s[..n], n)) else None
  }

  // More data on the right never changes a token that is already complete.
  lemma NextTokenExtends(k: Kind, s: seq<Byte>, t: seq<Byte>)
    requires k.Valid() && NextToken(k, s).Some?
    ensures NextToken(k, s + t) == NextToken(k, s)
  {
    match k
    case UntilDelimiter(d) =>
      FirstExtends(s, t, d);
      var p := First(s, d, 0).value;
      assert (s + t)[..p] == s[..p];
    case OfSize(n) =>
      assert (s + t)[..n] == s[..n];
  }

  // A token completed by new data ends inside that data.
  lemma TokenEndsInNewData(k: Kind, held: seq<Byte>, data: seq<Byte>)
    requires k.Valid() && NextToken(k, held).None? && NextToken(k, held + data).Some?
    ensures |held| < NextToken(k, held + data).value.consumed <= |held| + |data|
  {
    var c := NextToken(k, held + data).value;
    if k.UntilDelimiter? && c.consumed <= |held| {
      OccursAtExtends(held, data, k.delimiter, |c.window|);
    }
  }

  // ---- The meaning of a stream ----------------------------------------------

  datatype Outcome =
    // Still parsing: these bytes are waiting for the rest of their token.
    | Waiting(trace: Trace, parser: nat, tail: seq<Byte>)
    // The protocol ended; these bytes were never looked at.
    | Finished(trace: Trace, unread: seq<Byte>)
    // A parse error, or a refused change of subparser.
    | Failed

  // Everything that happens to the bytes s when subparser p is current and the
  // tokens in `trace` came before.
  function Consume(r: Rules, trace: Trace, p: nat, s: seq<Byte>): Outcome
    requires r.Valid() && p < |r.kinds|
    decreases |s|
  {
    var cut := NextToken(r.kinds[p], s);
    if cut.None? then Waiting(trace, p, s)
    else
      var trace' := trace + [Token(p, cut.value.window)];
      var rest := s[cut.value.consumed..];
      match r.answer(trace')
      case ParseError => Failed
      case GetMoreData => Consume(r, trace', p, rest)
      case GotoNextSubparser =>
        match r.change(trace')
        case Refused => Failed
        case Ended => Finished(trace', rest)
        case SwitchTo(q) => Consume(r, trace', q, rest)
  }

  // What remains to be done after an outcome when more bytes arrive.
  function Resume(r: Rules, o: Outcome, more: seq<Byte>): Outcome
    requires r.Valid() && (o.Waiting? ==> o.parser < |r.kinds|)
  {
    match o
    case Waiting(trace, p, tail) => Consume(r, trace, p, tail + more)
    case Finished(trace, unread) => Finished(trace, unread + more)
    case Failed => Failed
  }

  lemma {:induction false} ConsumeShape(r: Rules, trace: Trace, p: nat, s: seq<Byte>)
    requires r.Valid() && p < |r.kinds|
    ensures var o := Consume(r, trace, p, s);
            && (o.Waiting? ==> o.parser < |r.kinds| && NextToken(r.kinds[o.parser], o.tail).None?)
            && (o.Finished? ==> |o.unread| < |s|)
    decreases |s|
  {
    var cut := NextToken(r.kinds[p], s);
    if cut.Some? {
      var trace' := trace + [Token(p, cut.value.window)];
      var rest := s[cut.value.consumed..];
      match r.answer(trace')
      case ParseError =>
      case GetMoreData => ConsumeShape(r, trace', p, rest);
      case GotoNextSubparser =>
        match r.change(trace')
        case Refused =>
        case Ended =>
        case SwitchTo(q) => ConsumeShape(r, trace', q, rest);
    }
  }

  // Cutting a stream in two does not change its meaning.
  lemma {:induction false} ConsumeSplit(r: Rules, trace: Trace, p: nat, s: seq<Byte>, t: seq<Byte>)
    requires r.Valid() && p < |r.kinds|
    ensures Consume(r, trace, p, s).Waiting? ==> Consume(r, trace, p, s).parser < |r.kinds|
    ensures Consume(r, trace, p, s + t) == Resume(r, Consume(r, trace, p, s), t)
    decreases |s|
  {
    ConsumeShape(r, trace, p, s);
    var cut := NextToken(r.kinds[p], s);
    if cut.Some? {
      NextTokenExtends(r.kinds[p], s, t);
      var trace' := trace + [Token(p, cut.value.window)];
      var rest := s[cut.value.consumed..];
      assert (s + t)[cut.value.consumed..] == rest + t;
      match r.answer(trace')
      case ParseError =>
      case GetMoreData => ConsumeSplit(r, trace', p, rest, t);
      case GotoNextSubparser =>
        match r.change(trace')
        case Refused =>
        case Ended =>
        case SwitchTo(q) => ConsumeSplit(r, trace', q, rest, t);
    }
  }

  // How many times a subparser has to be asked to get through s.
  function Rounds(r: Rules, trace: Trace, p: nat, s: seq<Byte>): (n: nat)
    requires r.Valid() && p < |r.kinds|
    ensures 1 <= n
    decreases |s|
  {
    var cut := NextToken(r.kinds[p], s);
    if cut.None? then 1
    else
      var trace' := trace + [Token(p, cut.value.window)];
      var rest := s[cut.value.consumed..];
      if rest == [] then 1
      else
        match r.answer(trace')
        case ParseError => 1
        case GetMoreData => 1 + Rounds(r, trace', p, rest)
        case GotoNextSubparser =>
          match r.change(trace')
          case Refused => 1
          case Ended => 1
          case SwitchTo(q) => 1 + Rounds(r, trace', q, rest)
  }

  // ---- Fragments -------------------------------------------------------------

  function Join(pieces: seq<seq<Byte>>): seq<Byte> {
    if pieces == [] then [] else Join(pieces[..|pieces| - 1]) + pieces[|pieces| - 1]
  }

  // The stream handed over fragment by fragment.
  function ConsumePieces(r: Rules, p: nat, pieces: seq<seq<Byte>>): (o: Outcome)
    requires r.Valid() && p < |r.kinds|
    ensures o.Waiting? ==> o.parser < |r.kinds|
  {
    if pieces == [] then Waiting([], p, [])
    else
      var before := ConsumePieces(r, p, pieces[..|pieces| - 1]);
      var o := Resume(r, before, pieces[|pieces| - 1]);
      assert o.Waiting? ==> o.parser < |r.kinds| by {
        if before.Waiting? {
          ConsumeShape(r, before.trace, before.parser, before.tail + pieces[|pieces| - 1]);
        }
      }
      o
  }

  lemma {:induction false} PiecesMeanTheirJoin(r: Rules, p: nat, pieces: seq<seq<Byte>>)
    requires r.Valid() && p < |r.kinds|
    ensures ConsumePieces(r, p, pieces) == Consume(r, [], p, Join(pieces))
  {
    if pieces == [] {
      assert NextToken(r.kinds[p], []).None?;
    } else {
      var before := pieces[..|pieces| - 1];
      PiecesMeanTheirJoin(r, p, before);
      ConsumeSplit(r, [], p, Join(before), pieces[|pieces| - 1]);
    }
  }

  // Fragmentation independence: any two ways of cutting the same stream lead to
  // the same tokens, in the same order, for the same subparsers, and leave the
  // same bytes waiting.
  lemma FragmentationIndependence(r: Rules, p: nat, cutting1: seq<seq<Byte>>, cutting2: seq<seq<Byte>>)
    requires r.Valid() && p < |r.kinds| && Join(cutting1) == Join(cutting2)
    ensures ConsumePieces(r, p, cutting1) == ConsumePieces(r, p, cutting2)
  {
    PiecesMeanTheirJoin(r, p, cutting1);
    PiecesMeanTheirJoin(r, p, cutting2);
  }

  // ---- One subparser with one delimiter ----------------------------------------

  // The leftmost split of a stream: its pieces between delimiters, and what is
  // left after the last one.
  datatype Pieces = Pieces(words: seq<seq<Byte>>, tail: seq<Byte>)

  function Split(s: seq<Byte>, d: seq<Byte>): Pieces
    requires d != []
    decreases |s|
  {
    var p := First(s, d, 0);
    if p.None? then Pieces([], s)
    else
      var more := Split(s[p.value + |d|..], d);
      Pieces([s[..p.value]] + more.words, more.tail)
  }

  // The pieces joined by the delimiter, and the tail, are the stream; and the
  // delimiter occurs in none of them.
  lemma {:induction false} SplitFaithful(s: seq<Byte>, d: seq<Byte>)
    requires d != []
    ensures Joined(Split(s, d).words, d) + Split(s, d).tail == s
    ensures forall w | w in Split(s, d).words :: First(w, d, 0).None?
    ensures First(Split(s, d).tail, d, 0).None?
    decreases |s|
  {
    var p := First(s, d, 0);
    if p.Some? {
      var rest := s[p.value + |d|..];
      SplitFaithful(rest, d);
      assert s == s[..p.value] + d + rest;
      BeforeFirst(s, d);
      ConcatAssoc(s[..p.value] + d, Joined(Split(rest, d).words, d), Split(rest, d).tail);
    }
  }

  lemma BeforeFirst(s: seq<Byte>, d: seq<Byte>)
    requires d != [] && First(s, d, 0).Some?
    ensures First(s[..First(s, d, 0).value], d, 0).None?
  {
    var p := First(s, d, 0).value;
    assert s[..p] + s[p..] == s;
    forall i: nat
      ensures !OccursAt(s[..p], d, i)
    {
      if i + |d| <= p {
        OccursAtExtends(s[..p], s[p..], d, i);
      }
    }
  }

  function Joined(ws: seq<seq<Byte>>, d: seq<Byte>): seq<Byte> {
    if ws == [] then [] else ws[0] + d + Joined(ws[1..], d)
  }

  function Labelled(p: nat, ws: seq<seq<Byte>>): Trace {
    if ws == [] then [] else [Token(p, ws[0])] + Labelled(p, ws[1..])
  }

  // A subparser that keeps asking for more data sees the leftmost split.
  lemma {:induction false} ConsumeIsSplit(r: Rules, trace: Trace, p: nat, s: seq<Byte>)
    requires r.Valid() && p < |r.kinds| && r.kinds[p].UntilDelimiter?
    requires forall t :: AsksForMore(r, t)
    ensures Consume(r, trace, p, s) == SplitOutcome(trace, p, Split(s, r.kinds[p].delimiter))
    decreases |s|
  {
    hide Consume, Split, SplitOutcome, Labelled, First;
    var d := r.kinds[p].delimiter;
    if First(s, d, 0).None? {
      ConsumeNothing(r, trace, p, s);
      SplitNothing(trace, p, s, d);
    } else {
      var q := First(s, d, 0).value;
      var w, rest := s[..q], s[q + |d|..];
      var trace' := trace + [Token(p, w)];
      ConsumeIsSplit(r, trace', p, rest);
      assert AsksForMore(r, trace');
      ConsumeOneToken(r, trace, p, s, Cut(w, q + |d|), SplitOutcome(trace', p, Split(rest, d)));
      SplitOneWord(trace, p, s, d);
    }
  }

  lemma SplitNothing(trace: Trace, p: nat, s: seq<Byte>, d: seq<Byte>)
    requires d != [] && First(s, d, 0).None?
    ensures SplitOutcome(trace, p, Split(s, d)) == Waiting(trace, p, s)
  {
    assert trace + Labelled(p, []) == trace;
  }

  lemma SplitOneWord(trace: Trace, p: nat, s: seq<Byte>, d: seq<Byte>)
    requires d != [] && First(s, d, 0).Some?
    ensures var q := First(s, d, 0).value;
            SplitOutcome(trace, p, Split(s, d)) == SplitOutcome(trace + [Token(p, s[..q])], p, Split(s[q + |d|..], d))
  {
    var q := First(s, d, 0).value;
    LabelledFirst(trace, p, s[..q], Split(s[q + |d|..], d).words);
  }

  lemma ConsumeNothing(r: Rules, trace: Trace, p: nat, s: seq<Byte>)
    requires r.Valid() && p < |r.kinds| && NextToken(r.kinds[p], s).None?
    ensures Consume(r, trace, p, s) == Waiting(trace, p, s)
  {
  }

  predicate AsksForMore(r: Rules, t: Trace) {
    r.answer(t) == GetMoreData
  }

  function SplitOutcome(trace: Trace, p: nat, split: Pieces): Outcome {
    Waiting(trace + Labelled(p, split.words), p, split.tail)
  }

  lemma ConsumeOneToken(r: Rules, trace: Trace, p: nat, s: seq<Byte>, cut: Cut, o: Outcome)
    requires r.Valid() && p < |r.kinds| && NextToken(r.kinds[p], s) == Some(cut)
    requires r.answer(trace + [Token(p, cut.window)]) == GetMoreData
    requires Consume(r, trace + [Token(p, cut.window)], p, s[cut.consumed..]) == o
    ensures Consume(r, trace, p, s) == o
  {
  }

  lemma LabelledFirst(trace: Trace, p: nat, w: seq<Byte>, ws: seq<seq<Byte>>)
    ensures trace + [Token(p, w)] + Labelled(p, ws) == trace + Labelled(p, [w] + ws)
  {
    assert ([w] + ws)[1..] == ws;
    ConcatAssoc(trace, [Token(p, w)], Labelled(p, ws));
  }
}
