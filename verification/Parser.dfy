// The driver of the incremental parser (Memory/parser.cpp): it hands a write to
// the current subparser, acts on the answer, and calls itself on what is left,
// under a budget of calls.
module Parsers {
  import opened Common
  import opened ChunkVector
  import opened ChunkUpdates
  import opened Tokens
  import opened TokenTraces
  import opened SubParsers

  class Parser {
    const parsers: seq<SubParser>
    const protocol: Protocol
    ghost const rules: Rules
    var current: Option<nat>
    var maxTTL: nat
    var finish: bool

    constructor (parsers: seq<SubParser>, protocol: Protocol, ghost rules: Rules, start: Option<nat>)
      requires rules.Valid() && |rules.kinds| == |parsers|
      requires rules.answer == protocol.answer && rules.change == protocol.change
      requires forall i | 0 <= i < |parsers| ::
                 Serves(parsers[i], i, protocol, rules) && parsers[i].unparsed.chunks == []
      requires forall i, j | 0 <= i < j < |parsers| ::
                 parsers[i] != parsers[j] && parsers[i].unparsed != parsers[j].unparsed
      requires start.Some? ==> start.value < |parsers|
      ensures Valid() && current == start && Pending() == [] && !finish && maxTTL == 4096
      ensures this.parsers == parsers && this.protocol == protocol && this.rules == rules
    {
      this.parsers, this.protocol, this.rules := parsers, protocol, rules;
      current, maxTTL, finish := start, 4096, false;
      new;
      if start.Some? {
        NothingYet(rules.kinds[start.value]);
      }
    }

    // Between writes only the current subparser has bytes in its buffer, and they
    // hold no complete token.
    ghost predicate Valid()
      reads this, protocol, parsers, set p | p in parsers :: p.unparsed
    {
      && rules.Valid() && |rules.kinds| == |parsers|
      && rules.answer == protocol.answer && rules.change == protocol.change
      && (forall i | 0 <= i < |parsers| :: Serves(parsers[i], i, protocol, rules))
      && (forall i, j | 0 <= i < j < |parsers| ::
            parsers[i] != parsers[j] && parsers[i].unparsed != parsers[j].unparsed)
      && (forall i | 0 <= i < |parsers| && current != Some(i) :: parsers[i].unparsed.chunks == [])
      && (current.Some? ==>
            && current.value < |parsers|
            && NextToken(rules.kinds[current.value], parsers[current.value].Buffer()).None?)
    }

    function Pending(): seq<Byte>
      requires current.Some? ==> current.value < |parsers|
      reads this, parsers, set p | p in parsers :: p.unparsed
    {
      if current.None? then [] else parsers[current.value].Buffer()
    }

    // The state a stream leads to is the state the rules describe.
    ghost predicate Reached(o: Outcome)
      reads this, protocol, parsers, set p | p in parsers :: p.unparsed
    {
      match o
      case Waiting(trace, p, tail) =>
        current == Some(p) && p < |parsers| && protocol.trace == trace && parsers[p].Buffer() == tail
      case Finished(trace, unread) =>
        current.None? && finish && protocol.trace == trace
      case Failed => false
    }

    // Every subparser could store this many more bytes.
    ghost predicate Room(count: nat)
      reads parsers, set p | p in parsers :: p.unparsed
    {
      forall i | 0 <= i < |parsers| :: parsers[i].HasRoom(count)
    }

    // ---- The recursive driver -----------------------------------------------------

    // One write into the current subparser: either it shows one more token, the
    // first one of the stream, or it buffers what it took.
    method WriteCurrent(buf: seq<Byte>) returns (r: Option<nat>)
      requires Valid() && current.Some? && 0 < |buf| < SIZE_LIMIT
      modifies protocol`trace, parsers, set p | p in parsers :: p.unparsed
      ensures r.None? ==> !old(Room(|buf|))
      ensures r.Some? ==> Valid() && 0 < r.value <= |buf|
      ensures r.Some? ==> parsers[current.value].Offered(old(protocol.trace), old(Pending()), buf, r.value)
      ensures r.Some? && protocol.trace != old(protocol.trace) ==> Drained()
      ensures r.Some? && old(Room(|buf|)) ==>
                r.value == |buf| || (protocol.trace != old(protocol.trace) && Room(|buf| - r.value))
    {
      hide NextToken, Flatten, Storable, Serves, WellSized;
      var c := current.value;
      var p := parsers[c];
      ServesMeans(p, c, protocol, rules);
      r := p.Offer(buf);
      if r.None? {
        return;
      }
      StillServes(p, c, protocol, rules);
      forall i | 0 <= i < |parsers|
        ensures Serves(parsers[i], i, protocol, rules)
      {
        assert old(Serves(parsers[i], i, protocol, rules));
      }
      NothingYet(rules.kinds[c]);
      EmptyChunks();
      if old(Room(|buf|)) && protocol.trace != old(protocol.trace) {
        forall i | 0 <= i < |parsers|
          ensures parsers[i].HasRoom(|buf| - r.value)
        {
          ServesMeans(parsers[i], i, protocol, rules);
          assert old(parsers[i].HasRoom(|buf|));
          RoomForFewer(parsers[i], |buf|, |old(parsers[i].unparsed.chunks)|, |buf| - r.value);
        }
      }
    }

    // The part of parseData up to its recursive call: `more` says that it goes on
    // with the bytes that were not taken.
    method ParseOnce(buf: seq<Byte>) returns (r: Option<nat>, more: bool)
      requires Valid() && current.Some? && 0 < |buf| < SIZE_LIMIT
      modifies this`current, this`finish, protocol`trace, parsers, set p | p in parsers :: p.unparsed
      ensures more ==> r.Some?
      ensures r.None? && old(Room(|buf|)) ==> old(StreamNow(buf)).Failed?
      ensures r.Some? ==> Valid() && 0 < r.value <= |buf|
      ensures r.Some? && !more ==> Parsed(old(StreamNow(buf)), |buf|, r.value) && old(CallsNow(buf)) == 1
      ensures more ==>
                && r.value < |buf| && current.Some?
                && StreamNow(buf[r.value..]) == old(StreamNow(buf))
                && (old(Room(|buf|)) ==>
                      Room(|buf| - r.value) && old(CallsNow(buf)) == 1 + CallsNow(buf[r.value..]))
    {
      hide Consume, Rounds, NextToken, Flatten, Storable, Serves, WellSized, Room, Decision, Leads, SubParser.Valid;
      ghost var c, trace, pending := current.value, protocol.trace, Pending();
      ghost var o, calls := StreamNow(buf), CallsNow(buf);
      assert o == Consume(rules, trace, c, pending + buf) && calls == Rounds(rules, trace, c, pending + buf);
      more := false;
      r := WriteCurrent(buf);
      if r.None? {
        return;
      }
      var written := r.value;
      ServesMeans(parsers[c], c, protocol, rules);
      EmptyChunks();
      if protocol.trace == trace {
        BufferMeaning(rules, trace, c, pending, buf, written);
      } else {
        TokenMeaning(rules, trace, c, pending, buf);
      }
      var ok := Decide(trace);
      if protocol.trace != trace {
        LeadsOn(rules, protocol.trace, c, buf[written..], o, calls, ok, current);
      }
      if !ok {
        return None, false;
      }
      more := current.Some? && written != |buf|;
      if protocol.trace != trace {
        EmptyLeft(Pending(), buf[written..]);
      }
      if more {
        assert StreamNow(buf[written..]) == o;
      } else {
        assert Parsed(o, |buf|, written);
      }
    }

    // The switch on the parse status. After a shown token it acts on the protocol's
    // decision; if nothing was shown, the status still asks for more data.
    method Decide(ghost before: Trace) returns (ok: bool)
      requires Valid() && current.Some?
      requires if protocol.trace == before then parsers[current.value].status == GetMoreData
               else parsers[current.value].status == protocol.answer(protocol.trace) && Drained()
      modifies this`current, this`finish
      ensures ok ==> Valid()
      ensures protocol.trace == before ==> ok && current == old(current)
      ensures protocol.trace != before ==>
                && var d := Decision(rules, protocol.trace, old(current).value);
                ok == d.Some? && (ok ==> current == d.value)
      ensures ok && current.None? ==> finish
    {
      hide NextToken, Flatten, Serves, WellSized;
      EmptyChunks();
      match parsers[current.value].status {
        case GotoNextSubparser =>
          var change := protocol.change(protocol.trace);
          match change {
            case Refused =>
              return false;
            case Ended =>
              current := None;
              finish := true;
            case SwitchTo(q) =>
              NothingYet(rules.kinds[q]);
              current := Some(q);
          }
          return true;
        case GetMoreData =>
          return true;
        case ParseError =>
          return false;
      }
    }

    ghost predicate Drained()
      reads parsers, set p | p in parsers :: p.unparsed
    {
      forall i | 0 <= i < |parsers| :: parsers[i].unparsed.chunks == []
    }

    // parseData. On success the protocol, its current subparser and the bytes left
    // waiting are what the rules say about the stream so far; and, as long as the
    // containers have room, it succeeds exactly when the rules do not fail and the
    // call budget is not used up. Without a current subparser nothing can be parsed.
    method ParseData(buf: seq<Byte>, ttl: nat) returns (r: Option<nat>)
      requires Valid() && 0 < |buf| < SIZE_LIMIT
      modifies this`current, this`finish, protocol`trace, parsers, set p | p in parsers :: p.unparsed
      ensures old(current).None? ==> r.None?
      ensures r.Some? ==> Valid() && 0 < r.value <= |buf| && Parsed(old(StreamNow(buf)), |buf|, r.value)
      ensures old(current).Some? && old(Room(|buf|)) ==>
                (r.Some? <==> !old(StreamNow(buf)).Failed? && ttl + old(CallsNow(buf)) <= maxTTL + 1)
      decreases maxTTL + 1 - ttl
    {
      hide Consume, Rounds, NextToken, Flatten, Storable, Serves, WellSized, Room;
      if ttl > maxTTL {
        return None;
      }
      var written := 0;
      if current.Some? {
        var taken, more := ParseOnce(buf);
        if taken.None? || !more {
          return taken;
        }
        written := taken.value;
      }
      var later := ParseData(buf[written..], ttl + 1);
      if later.None? {
        return None;
      }
      return Some(later.value + written);
    }

    // Parser::write of at least one byte. The tokens it shows go to the subparsers that
    // the answers lead to, and so does what comes next.
    method Write(buf: seq<Byte>) returns (r: Option<nat>)
      requires Valid() && 0 < |buf| < SIZE_LIMIT
      modifies this`current, this`finish, protocol`trace, parsers, set p | p in parsers :: p.unparsed
      ensures old(current).None? ==> r.None?
      ensures r.Some? ==> Valid() && 0 < r.value <= |buf| && Parsed(old(StreamNow(buf)), |buf|, r.value)
      ensures old(current).Some? && old(Room(|buf|)) ==>
                (r.Some? <==> !old(StreamNow(buf)).Failed? && old(CallsNow(buf)) <= maxTTL + 1)
      ensures r.Some? ==>
                && var (b, t) := (|old(protocol.trace)|, protocol.trace);
                && old(protocol.trace) <= t && (b < |t| ==> Some(t[b].parser) == old(current))
                && (forall i | b < i < |t| ::
                      && protocol.answer(t[..i]) != ParseError
                      && (protocol.answer(t[..i]) == GetMoreData ==> t[i].parser == t[i - 1].parser)
                      && (protocol.answer(t[..i]) == GotoNextSubparser ==>
                            protocol.change(t[..i]) == SwitchTo(t[i].parser)))
      ensures r.Some? ==>
                && var (answer, change) := (protocol.answer(protocol.trace), protocol.change(protocol.trace));
                if protocol.trace == old(protocol.trace) then current == old(current)
                else if answer == GetMoreData then current == Some(protocol.trace[|protocol.trace| - 1].parser)
                else
                  && answer == GotoNextSubparser
                  && (if change == Ended then current == None
                      else change.SwitchTo? && current == Some(change.parser))
    {
      hide Consume, Rounds, NextToken, Flatten, Storable, Serves, WellSized, Room;
      r := ParseData(buf, 0);
      if r.Some? {
        NextAfter(rules, old(protocol.trace), old(current).value, old(Pending()) + buf, protocol.trace, current);
      }
    }

    // Parser::write of nothing, the end of the stream: the bytes still waiting for a
    // delimiter become the last token; bytes still short of a size are dropped.
    method WriteEOF() returns (r: Option<nat>)
      requires Valid()
      modifies this`current, this`finish, protocol`trace, parsers, set p | p in parsers :: p.unparsed
      ensures old(current).None? ==> r == Some(0) && protocol.trace == old(protocol.trace)
      ensures old(current).Some? ==>
                && var (c, t) := (old(current).value, protocol.trace);
                && t == old(protocol.trace)
                          + (if rules.kinds[c].UntilDelimiter? then [Token(c, old(Pending()))] else [])
                && parsers[c].unparsed.chunks == [] && parsers[c].streamEnded
      ensures old(current).Some? ==>
                && var change := protocol.change(protocol.trace);
                && var answer := if rules.kinds[old(current).value].OfSize? then GotoNextSubparser
                                 else protocol.answer(protocol.trace);
                && r == (if answer == ParseError || (answer == GotoNextSubparser && change == Refused) then None
                         else Some(0))
                && (answer == GetMoreData ==> current == old(current))
                && (answer == GotoNextSubparser && change == Ended ==> current == None && finish)
                && (answer == GotoNextSubparser && change.SwitchTo? ==> current == Some(change.parser))
    {
      if current.None? {
        return Some(0);
      }
      ghost var c := current.value;
      var p := parsers[current.value];
      assert Serves(p, c, protocol, rules);
      p.status := GetMoreData;
      r := p.EndOfStream();
      match p.status {
        case GotoNextSubparser =>
          match protocol.change(protocol.trace) {
            case Refused => r := None;
            case Ended =>
              current := None;
              finish := true;
            case SwitchTo(q) => current := Some(q);
          }
        case GetMoreData =>
        case ParseError => r := None;
      }
    }

    // writeFullStream: a protocol that ends before the last of these bytes makes the
    // next write fail, because there is no subparser left to take them.
    method WriteFullStream(buf: seq<Byte>) returns (ok: bool)
      requires Valid() && current.Some? && 0 < |buf| < SIZE_LIMIT
      modifies this`current, this`finish, protocol`trace, parsers, set p | p in parsers :: p.unparsed
      ensures ok ==> Valid() && Reached(old(StreamNow(buf)))
      ensures ok && old(StreamNow(buf)).Finished? ==> old(StreamNow(buf)).unread == []
      ensures old(Room(|buf|)) ==>
                (ok <==>
                  && old(CallsNow(buf)) <= maxTTL + 1
                  && match old(StreamNow(buf))
                     case Waiting(_, _, _) => true
                     case Finished(_, unread) => unread == []
                     case Failed => false)
    {
      hide Consume, Rounds, NextToken, Flatten, Storable, Serves, WellSized, Room;
      var written := 0;
      while written < |buf|
        invariant 0 <= written <= |buf| && Valid()
        invariant written == 0 ==> current == old(current) && Pending() == old(Pending())
                                   && protocol.trace == old(protocol.trace) && (old(Room(|buf|)) ==> Room(|buf|))
        invariant 0 < written ==> Parsed(old(StreamNow(buf)), |buf|, written)
        invariant 0 < written && old(Room(|buf|)) ==> old(CallsNow(buf)) <= maxTTL + 1
      {
        assert buf[0..] == buf;
        var cur := Write(buf[written..]);
        if cur.None? {
          return false;
        }
        written := written + cur.value;
      }
      return true;
    }

    // streamTo: the results of successive reads are written one by one until the
    // data or the protocol ends. However the stream was cut, the protocol is then
    // where the rules put it after the bytes that were used.
    method StreamTo(pieces: seq<seq<Byte>>) returns (ok: bool, ghost used: nat)
      requires Valid() && current.Some? && !finish && protocol.trace == [] && Pending() == []
      requires forall i | 0 <= i < |pieces| :: 0 < |pieces[i]| < SIZE_LIMIT
      modifies this`current, this`finish, protocol`trace, parsers, set p | p in parsers :: p.unparsed
      ensures ok ==> Valid() && used <= |pieces| && (used < |pieces| ==> finish)
      ensures ok ==> Reached(Consume(rules, [], old(current).value, Join(pieces[..used])))
    {
      hide NextToken, Flatten, Serves, WellSized, Room, Rounds, Consume;
      ghost var start := current.value;
      used := 0;
      ConsumeEmpty(rules, start);
      for i := 0 to |pieces|
        invariant Valid() && used == i && current.Some? && !finish
        invariant Reached(Consume(rules, [], start, Join(pieces[..i])))
      {
        ConsumeSplit(rules, [], start, Join(pieces[..i]), pieces[i]);
        JoinNext(pieces, i);
        ok := WriteFullStream(pieces[i]);
        if !ok {
          return;
        }
        used := used + 1;
        if finish {
          return;
        }
      }
      return true, used;
    }

    // The outcome the rules give the stream so far with these bytes added, and the
    // calls that takes.
    ghost function StreamNow(more: seq<Byte>): Outcome
      requires rules.Valid() && (current.Some? ==> current.value < |parsers| == |rules.kinds|)
      reads this, protocol, parsers, set p | p in parsers :: p.unparsed
    {
      if current.None? then Finished(protocol.trace, more)
      else Consume(rules, protocol.trace, current.value, Pending() + more)
    }

    ghost function CallsNow(more: seq<Byte>): nat
      requires rules.Valid() && (current.Some? ==> current.value < |parsers| == |rules.kinds|)
      reads this, protocol, parsers, set p | p in parsers :: p.unparsed
    {
      if current.None? then 1 else Rounds(rules, protocol.trace, current.value, Pending() + more)
    }

    ghost predicate Parsed(o: Outcome, offered: nat, taken: nat)
      reads this, protocol, parsers, set p | p in parsers :: p.unparsed
    {
      && Reached(o)
      && taken == (if o.Finished? then offered - |o.unread| else offered)
    }
  }

  // Subparser i works for this protocol, in the mode the rules give it.
  ghost predicate Serves(p: SubParser, i: nat, protocol: Protocol, rules: Rules)
    requires i < |rules.kinds|
    reads p, p.unparsed
  {
    && p.Valid() && p.id == i && p.protocol == protocol && !p.streamEnded
    && (p.mode == ModeDelimiter || p.mode == ModeSize) && p.Kind() == rules.kinds[i]
  }

  lemma ConsumeEmpty(r: Rules, p: nat)
    requires r.Valid() && p < |r.kinds|
    ensures Consume(r, [], p, []) == Waiting([], p, [])
  {
    NothingYet(r.kinds[p]);
  }

  lemma JoinNext(pieces: seq<seq<Byte>>, i: nat)
    requires i < |pieces|
    ensures Join(pieces[..i + 1]) == Join(pieces[..i]) + pieces[i]
  {
    assert pieces[..i + 1][..i] == pieces[..i];
  }

  lemma EmptyLeft(a: seq<Byte>, b: seq<Byte>)
    requires a == []
    ensures a + b == b
  {
  }

  lemma NothingYet(k: Kind)
    requires k.Valid()
    ensures NextToken(k, []).None?
  {
  }

  // An empty buffer has room for fewer bytes than a used one had.
  lemma RoomForFewer(p: SubParser, count: nat, chunks: nat, count': nat)
    requires Storable(count, chunks, p.unparsed.maxChunkSize, p.unparsed.maxChunks) == count
    requires p.unparsed.Valid() && p.unparsed.chunks == [] && count' <= count
    requires p.mode == ModeDelimiter ==> count <= p.unparsed.maxSize
    ensures p.HasRoom(count')
  {
    StorableMonotone(count, chunks, p.unparsed.maxChunkSize, p.unparsed.maxChunks, count', 0);
  }

  lemma ServesMeans(p: SubParser, i: nat, protocol: Protocol, rules: Rules)
    requires i < |rules.kinds| && Serves(p, i, protocol, rules)
    ensures p.Valid() && p.id == i && p.protocol == protocol && !p.streamEnded
    ensures (p.mode == ModeDelimiter || p.mode == ModeSize) && p.Kind() == rules.kinds[i]
  {
  }

  lemma StillServes(p: SubParser, i: nat, protocol: Protocol, rules: Rules)
    requires i < |rules.kinds|
    requires p.Valid() && p.id == i && p.protocol == protocol && !p.streamEnded
    requires (p.mode == ModeDelimiter || p.mode == ModeSize) && p.Kind() == rules.kinds[i]
    ensures Serves(p, i, protocol, rules)
  {
  }

  // A stream that has come to the tokens t, the last of them for p, and has the bytes in
  // rest left, has this outcome and takes this many calls.
  ghost predicate Leads(r: Rules, t: Trace, p: nat, rest: seq<Byte>, o: Outcome, calls: nat)
    requires r.Valid() && p < |r.kinds|
  {
    match Decision(r, t, p)
    case None => o == Failed
    case Some(None) => o == Finished(t, rest) && calls == 1
    case Some(Some(q)) =>
      && o == Consume(r, t, q, rest) && calls == (if rest == [] then 1 else 1 + Rounds(r, t, q, rest))
      && (rest == [] ==> o == Waiting(t, q, []))
  }

  lemma LeadsOn(r: Rules, t: Trace, p: nat, rest: seq<Byte>, o: Outcome, calls: nat, ok: bool, next: Option<nat>)
    requires r.Valid() && p < |r.kinds| && Leads(r, t, p, rest, o, calls)
    requires ok == Decision(r, t, p).Some? && (ok ==> next == Decision(r, t, p).value)
    ensures !ok ==> o == Failed
    ensures ok && next.None? ==> o == Finished(t, rest) && calls == 1
    ensures ok && next.Some? ==>
              && next.value < |r.kinds| && o == Consume(r, t, next.value, rest)
              && calls == (if rest == [] then 1 else 1 + Rounds(r, t, next.value, rest))
              && (rest == [] ==> o == Waiting(t, next.value, []))
  {
    hide Consume, Rounds, Decision;
  }

  // What an offer of new bytes means for the stream: a token shown, ...
  lemma TokenMeaning(r: Rules, trace: Trace, p: nat, pending: seq<Byte>, buf: seq<Byte>)
    requires r.Valid() && p < |r.kinds|
    requires NextToken(r.kinds[p], pending).None? && NextToken(r.kinds[p], pending + buf).Some?
    ensures var cut := NextToken(r.kinds[p], pending + buf).value;
            var (s, t) := (pending + buf, trace + [Token(p, cut.window)]);
            && 0 < cut.consumed - |pending| <= |buf|
            && var rest := buf[cut.consumed - |pending|..];
            Leads(r, t, p, rest, Consume(r, trace, p, s), Rounds(r, trace, p, s))
  {
    var cut := NextToken(r.kinds[p], pending + buf).value;
    TokenEndsInNewData(r.kinds[p], pending, buf);
    assert (pending + buf)[cut.consumed..] == buf[cut.consumed - |pending|..];
  }

  // ... or bytes buffered.
  lemma BufferMeaning(r: Rules, trace: Trace, p: nat, pending: seq<Byte>, buf: seq<Byte>, taken: nat)
    requires r.Valid() && p < |r.kinds| && taken <= |buf|
    requires NextToken(r.kinds[p], pending + buf[..taken]).None?
    ensures pending + buf[..taken] + buf[taken..] == pending + buf
    ensures taken == |buf| ==>
              && pending + buf[..taken] == pending + buf
              && Consume(r, trace, p, pending + buf) == Waiting(trace, p, pending + buf)
              && Rounds(r, trace, p, pending + buf) == 1
  {
    assert buf[..taken] + buf[taken..] == buf;
    ConcatAssoc(pending, buf[..taken], buf[taken..]);
    if taken == |buf| {
      assert buf[..taken] == buf;
    }
  }

  // Who parses on after a token: nobody (an error), no one any more, or a subparser.
  function Decision(r: Rules, trace: Trace, p: nat): (d: Option<Option<nat>>)
    requires r.Valid() && p < |r.kinds|
    ensures d.Some? && d.value.Some? ==> d.value.value < |r.kinds|
  {
    match r.answer(trace)
    case ParseError => None
    case GetMoreData => Some(Some(p))
    case GotoNextSubparser =>
      match r.change(trace)
      case Refused => None
      case Ended => Some(None)
      case SwitchTo(q) => Some(Some(q))
  }

  // After an error or a refused change nothing goes on; after a request for more data
  // the same subparser does, and after a change the one that was changed to, or none.
  lemma DecisionMeans(r: Rules, trace: Trace, p: nat)
    requires r.Valid() && p < |r.kinds|
    ensures var (d, change) := (Decision(r, trace, p), r.change(trace));
            && (r.answer(trace) == ParseError ==> d == None)
            && (r.answer(trace) == GetMoreData ==> d == Some(Some(p)))
            && (r.answer(trace) == GotoNextSubparser && change == Refused ==> d == None)
            && (r.answer(trace) == GotoNextSubparser && change == Ended ==> d == Some(None))
            && (r.answer(trace) == GotoNextSubparser && change.SwitchTo? ==> d == Some(Some(change.parser)))
  {
  }

  // Where a stream leads, for a parser that has reached its outcome.
  lemma NextAfter(r: Rules, before: Trace, p: nat, s: seq<Byte>, t: Trace, current: Option<nat>)
    requires r.Valid() && p < |r.kinds|
    requires match Consume(r, before, p, s)
             case Waiting(trace, q, _) => t == trace && current == Some(q)
             case Finished(trace, _) => t == trace && current == None
             case Failed => false
    ensures before <= t && (|before| < |t| ==> t[|before|].parser == p)
    ensures forall i | |before| < i < |t| ::
              && r.answer(t[..i]) != ParseError
              && (r.answer(t[..i]) == GetMoreData ==> t[i].parser == t[i - 1].parser)
              && (r.answer(t[..i]) == GotoNextSubparser ==> r.change(t[..i]) == SwitchTo(t[i].parser))
    ensures if t == before then current == Some(p)
            else if r.answer(t) == GetMoreData then current == Some(t[|t| - 1].parser)
            else
              && r.answer(t) == GotoNextSubparser
              && (if r.change(t) == Ended then current == None
                  else r.change(t).SwitchTo? && current == Some(r.change(t).parser))
  {
    hide Consume;
    HandsOver(r, before, p, s);
  }
}
