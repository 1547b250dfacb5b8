// The buffering half of the incremental parser (Memory/subparser.cpp): a
// subparser collects bytes in a chunked container until its parse mode is met
// and then shows a window of them to parse().
module SubParsers {
  import opened Common
  import opened Occurrences
  import opened ChunkVector
  import opened ChunkUpdates
  import opened ChunkedContainer
  import opened Tokens
  import opened HoldBacks
  import DirectDelimiters

  datatype ParseMode = ModeDelimiter | ModeMultiDelimiter | ModeDirectDelimiter | ModeSize

  // A B_Ref onto a container: an offset and at most maxBytes bytes from there.
  datatype Window = Window(offset: nat, maxBytes: nat) {
    function Size(available: nat): (n: nat)
      requires offset <= available
      ensures n <= available - offset
    {
      if maxBytes == MAX_SIZE_T || maxBytes > available - offset then available - offset else maxBytes
    }

    function View(content: seq<Byte>): seq<Byte>
      requires offset <= |content|
    {
      content[offset..offset + Size(|content|)]
    }
  }

  const WHOLE: Window := Window(0, MAX_SIZE_T)

  lemma FirstView(s: seq<Byte>, n: nat)
    requires n <= |s| < SIZE_LIMIT
    ensures Window(0, n).View(s) == s[..n]
  {
  }

  // The difference may wrap below zero; adding the delimiter's length wraps it back.
  lemma WrappedDisplacement(pos: nat, before: nat, length: nat)
    ensures before <= pos + length < SIZE_LIMIT ==> Add64(Sub64(pos, before), length) == pos + length - before
  {
  }

  lemma PlainDifference(end: nat, before: nat)
    ensures before <= end < SIZE_LIMIT ==> Sub64(end, before) == end - before
  {
  }

  lemma WholeView(s: seq<Byte>)
    ensures WHOLE.View(s) == s
  {
  }

  // The object behind the virtual functions: the windows shown to parse() so
  // far, and the decisions taken on them.
  class Protocol {
    var trace: Trace
    const answer: Trace -> ParseStatus
    const change: Trace -> Change

    constructor (answer: Trace -> ParseStatus, change: Trace -> Change)
      ensures trace == [] && this.answer == answer && this.change == change
    {
      this.answer, this.change, trace := answer, change, [];
    }
  }

  class SubParser {
    const id: nat
    const protocol: Protocol
    const unparsed: Container
    var parsed: Window
    var mode: ParseMode
    var delimiter: seq<Byte>
    var multiDelimiters: seq<seq<Byte>>
    var delimiterFound: seq<Byte>
    var status: ParseStatus
    var streamEnded: bool

    constructor (id: nat, protocol: Protocol)
      ensures Valid() && fresh(unparsed) && unparsed.chunks == []
      ensures this.id == id && this.protocol == protocol
      ensures mode == ModeDelimiter && delimiter == [0x0D, 0x0A] && !streamEnded
    {
      this.id, this.protocol := id, protocol;
      unparsed := new Container();
      parsed, mode, status, streamEnded := WHOLE, ModeDelimiter, GetMoreData, false;
      delimiter, multiDelimiters, delimiterFound := [0x0D, 0x0A], [], [];
    }

    ghost predicate Valid()
      reads this, unparsed
    {
      && unparsed.Valid()
      && 0 < |delimiter| < SIZE_LIMIT
      && forall i | 0 <= i < |multiDelimiters| :: 0 < |multiDelimiters[i]| < SIZE_LIMIT
    }

    function Buffer(): seq<Byte>
      reads this, unparsed
    {
      unparsed.Bytes()
    }

    // How much of `count` new bytes goes into the buffer, and whether the
    // container has chunks for it.
    function Taken(count: nat): nat
      reads this, unparsed
    {
      Min(count, unparsed.SizeLeft())
    }

    predicate Stores(count: nat)
      reads this, unparsed
    {
      && (count > 0 ==> unparsed.SizeLeft() > 0)
      && Storable(Taken(count), |unparsed.chunks|, unparsed.maxChunkSize, unparsed.maxChunks) == Taken(count)
    }

    // The virtual parse(): it sees the window, and its answer can depend on
    // everything seen so far.
    method Parse()
      requires unparsed.Valid() && parsed.offset <= |Buffer()|
      modifies protocol`trace, this`status
      ensures protocol.trace == old(protocol.trace) + [Token(id, parsed.View(Buffer()))]
      ensures status == protocol.answer(protocol.trace)
    {
      protocol.trace := protocol.trace + [Token(id, parsed.View(unparsed.Bytes()))];
      status := protocol.answer(protocol.trace);
    }

    // appendToUnparsedBuffer: as much of the data as the target size allows.
    method AppendToUnparsedBuffer(buf: seq<Byte>) returns (r: Option<nat>)
      requires Valid() && |buf| < SIZE_LIMIT
      modifies unparsed`chunks, unparsed`containerBytes
      ensures Valid()
      ensures r.Some? <==> old(Stores(|buf|))
      ensures r.Some? ==> r.value == old(Taken(|buf|)) && Buffer() == old(Buffer()) + buf[..r.value]
      ensures r.Some? ==>
                unparsed.chunks
                  == AppendChunks(old(unparsed.chunks), buf[..r.value], unparsed.maxChunkSize, unparsed.maxChunks)
      ensures old(Contiguous(unparsed.chunks)) ==> Contiguous(unparsed.chunks)
    {
      var leftSize := unparsed.SizeLeft();
      if leftSize == 0 && |buf| > 0 {
        return None;
      }
      var count := Min(|buf|, leftSize);
      if count > 0 {
        var data := buf[..count];
        r := unparsed.Append(data);
        if r.None? || r.value != count {
          unparsed.Clear();
          EmptyChunks();
          return None;
        }
        assert data[..count] == data;
      } else {
        assert buf[..0] == [];
        r := Some(0);
      }
    }

    // ---- Delimiter and size modes --------------------------------------------------

    function Kind(): Tokens.Kind
      reads this, unparsed
    {
      if mode == ModeSize then OfSize(unparsed.maxSize) else UntilDelimiter(delimiter)
    }

    method ParseByDelimiter(buf: seq<Byte>) returns (r: Option<nat>)
      requires Valid() && |buf| < SIZE_LIMIT
      modifies this`parsed, this`status, protocol`trace, unparsed`chunks, unparsed`containerBytes
      ensures Valid()
      ensures r.Some? <==> old(Stores(|buf|))
      ensures r.None? ==> protocol.trace == old(protocol.trace)
      ensures r.Some? ==>
                var s := old(Buffer()) + buf[..old(Taken(|buf|))];
                var p := First(s, delimiter, 0);
                if p.Some? then
                  && Shown(old(protocol.trace), s[..p.value])
                  && unparsed.chunks == []
                  && r.value == Add64(Sub64(p.value, |old(Buffer())|), |delimiter|)
                else if streamEnded then
                  Shown(old(protocol.trace), s) && unparsed.chunks == [] && r.value == old(Taken(|buf|))
                else
                  && protocol.trace == old(protocol.trace) && status == old(status)
                  && Buffer() == s && r.value == old(Taken(|buf|))
    {
      hide Flatten, WellSized, Contiguous, Storable, First, AppendChunks;
      EmptyChunks();
      var prevSize := unparsed.containerBytes;
      var appended := AppendToUnparsedBuffer(buf);
      if appended.None? {
        return None;
      }
      var bytesToDisplace := appended.value;
      WholeView(Buffer());
      parsed := WHOLE;
      var needlePos := unparsed.Find(delimiter, 0, 0);
      if needlePos.Some? {
        parsed := Window(0, needlePos.value);
        Parse();
        unparsed.Clear();
        bytesToDisplace := Add64(Sub64(needlePos.value, prevSize), |delimiter|);
      } else if streamEnded {
        parsed := WHOLE;
        Parse();
        unparsed.Clear();
      }
      return Some(bytesToDisplace);
    }

    // parse() was shown one more window, and its answer is the status.
    ghost predicate Shown(before: Trace, window: seq<Byte>)
      reads this, protocol
    {
      && protocol.trace == before + [Token(id, window)]
      && status == protocol.answer(protocol.trace)
    }

    method ParseBySize(buf: seq<Byte>) returns (r: Option<nat>)
      requires Valid() && |buf| < SIZE_LIMIT
      modifies this`parsed, this`status, protocol`trace, unparsed`chunks, unparsed`containerBytes
      ensures Valid()
      ensures buf == [] ==> r == Some(0) && status == GotoNextSubparser && unparsed.chunks == []
                            && protocol.trace == old(protocol.trace)
      ensures buf != [] ==> (r.Some? <==> old(Stores(|buf|)))
      ensures r.None? ==> protocol.trace == old(protocol.trace)
      ensures buf != [] && r.Some? ==>
                var s := old(Buffer()) + buf[..old(Taken(|buf|))];
                && r.value == old(Taken(|buf|))
                && if |s| >= unparsed.maxSize
                   then Shown(old(protocol.trace), s) && unparsed.chunks == []
                   else protocol.trace == old(protocol.trace) && status == old(status) && Buffer() == s
    {
      hide Flatten, WellSized, Contiguous, Storable, First, AppendChunks;
      EmptyChunks();
      if buf == [] {
        status := GotoNextSubparser;
        unparsed.Clear();
        return Some(0);
      }
      r := AppendToUnparsedBuffer(buf);
      if r.None? {
        return None;
      }
      WholeView(Buffer());
      if unparsed.SizeLeft() == 0 {
        parsed := WHOLE;
        Parse();
        unparsed.Clear();
      }
    }

    // One write in delimiter or size mode, before the end of the stream: a token
    // that the new bytes complete is shown, and exactly the bytes up to its end
    // are taken; the size_t arithmetic behind that number wraps in between.
    method WriteIntoParser(buf: seq<Byte>) returns (r: Option<nat>)
      requires Valid() && 0 < |buf| < SIZE_LIMIT
      requires (mode == ModeDelimiter || mode == ModeSize) && Kind().Valid() && !streamEnded
      requires NextToken(Kind(), Buffer()).None?
      modifies this`parsed, this`status, protocol`trace, unparsed`chunks, unparsed`containerBytes
      ensures Valid() && Kind() == old(Kind())
      ensures r.Some? <==> old(Stores(|buf|))
      ensures r.None? ==> protocol.trace == old(protocol.trace)
      ensures r.Some? ==>
                var cut := NextToken(Kind(), old(Buffer()) + buf[..old(Taken(|buf|))]);
                if cut.Some? then
                  && Shown(old(protocol.trace), cut.value.window) && unparsed.chunks == []
                  && r.value == cut.value.consumed - |old(Buffer())| && 0 < r.value <= |buf|
                else
                  && protocol.trace == old(protocol.trace) && status == old(status)
                  && r.value == old(Taken(|buf|)) && Buffer() == old(Buffer()) + buf[..r.value]
    {
      hide Flatten, WellSized, Contiguous, Storable, First, AppendChunks, NextToken, Shown, Stores;
      EmptyChunks();
      ghost var s := Buffer() + buf[..Taken(|buf|)];
      if NextToken(Kind(), s).Some? {
        TokenEndsInNewData(Kind(), Buffer(), buf[..Taken(|buf|)]);
      }
      if mode == ModeDelimiter {
        TokenByDelimiter(delimiter, s, |Buffer()|);
        r := ParseByDelimiter(buf);
      } else {
        TokenBySize(unparsed.maxSize, s);
        r := ParseBySize(buf);
      }
    }

    // A write as the parser issues it, the status reset first: either it completes
    // the first token of everything offered, or nothing is shown and the bytes it
    // took are in the buffer.
    method Offer(buf: seq<Byte>) returns (r: Option<nat>)
      requires Valid() && 0 < |buf| < SIZE_LIMIT
      requires (mode == ModeDelimiter || mode == ModeSize) && Kind().Valid() && !streamEnded
      requires NextToken(Kind(), Buffer()).None?
      modifies this`parsed, this`status, protocol`trace, unparsed`chunks, unparsed`containerBytes
      ensures Valid() && Kind() == old(Kind())
      ensures r.None? ==> !old(HasRoom(|buf|)) && protocol.trace == old(protocol.trace)
      ensures r.Some? ==> 0 < r.value <= |buf| && Offered(old(protocol.trace), old(Buffer()), buf, r.value)
      ensures r.Some? && old(HasRoom(|buf|)) ==>
                r.value == |buf| || protocol.trace != old(protocol.trace)
    {
      hide Flatten, WellSized, NextToken, Storable;
      status := GetMoreData;
      ghost var pending, taken := Buffer(), Taken(|buf|);
      if HasRoom(|buf|) {
        RoomStores(this, |buf|, buf);
      }
      r := WriteIntoParser(buf);
      if r.Some? {
        ExtendCut(Kind(), pending, buf, taken);
      }
    }

    ghost predicate Offered(trace: Trace, pending: seq<Byte>, buf: seq<Byte>, taken: nat)
      requires Kind().Valid() && taken <= |buf|
      reads this, protocol, unparsed
    {
      if protocol.trace == trace then
        && status == GetMoreData && Buffer() == pending + buf[..taken]
        && NextToken(Kind(), Buffer()).None?
      else
        var cut := NextToken(Kind(), pending + buf);
        && cut.Some? && taken == cut.value.consumed - |pending|
        && Shown(trace, cut.value.window) && unparsed.chunks == []
    }

    // The container could store this many more bytes.
    predicate HasRoom(count: nat)
      reads this, unparsed
    {
      && (mode == ModeDelimiter ==> unparsed.containerBytes + count <= unparsed.maxSize)
      && Storable(count, |unparsed.chunks|, unparsed.maxChunkSize, unparsed.maxChunks) == count
    }

    // The end of the stream (a write of nothing): what is still in the buffer is
    // shown as one last token in delimiter mode, and dropped in size mode.
    method EndOfStream() returns (r: Option<nat>)
      requires Valid() && (mode == ModeDelimiter || mode == ModeSize)
      requires Kind().Valid() && NextToken(Kind(), Buffer()).None?
      modifies this`parsed, this`status, this`streamEnded, protocol`trace, unparsed`chunks, unparsed`containerBytes
      ensures Valid() && streamEnded && r == Some(0) && unparsed.chunks == []
      ensures if mode == ModeDelimiter then Shown(old(protocol.trace), old(Buffer()))
              else protocol.trace == old(protocol.trace) && status == GotoNextSubparser
    {
      streamEnded := true;
      var nothing: seq<Byte> := [];
      assert nothing[..0] == [] && Buffer() + nothing == Buffer();
      if mode == ModeDelimiter {
        r := ParseByDelimiter(nothing);
      } else {
        r := ParseBySize(nothing);
      }
    }

    // ---- Several delimiters ----------------------------------------------------------

    // parseByMultiDelimiter: the first delimiter of the list that occurs at all wins,
    // wherever it is. If none of them occurred before, the hit takes at least one
    // and at most all of the new bytes.
    method ParseByMultiDelimiter(buf: seq<Byte>) returns (r: Option<nat>)
      requires Valid() && |buf| < SIZE_LIMIT
      modifies this`parsed, this`status, this`delimiterFound, protocol`trace, unparsed`chunks, unparsed`containerBytes
      ensures Valid()
      ensures r.Some? <==> old(Stores(|buf|))
      ensures r.Some? ==>
                var s := old(Buffer()) + buf[..old(Taken(|buf|))];
                var hit := FirstListed(s, multiDelimiters);
                if hit.Some? then
                  var d := multiDelimiters[hit.value];
                  && NoneBefore(s, multiDelimiters, hit.value)
                  && Shown(old(protocol.trace), s[..First(s, d, 0).value])
                  && unparsed.chunks == [] && delimiterFound == d
                  && r.value == Sub64(First(s, d, 0).value + |d|, |old(Buffer())|)
                  && (FirstListed(old(Buffer()), multiDelimiters).None? ==> 0 < r.value <= |buf|)
                else
                  && NoneBefore(s, multiDelimiters, |multiDelimiters|) && r.value == old(Taken(|buf|))
                  && if streamEnded then Shown(old(protocol.trace), s) && unparsed.chunks == []
                     else protocol.trace == old(protocol.trace) && Buffer() == s
    {
      hide Flatten, WellSized, Contiguous, Storable, First, AppendChunks, FirstListed, Stores, Sub64, NoneBefore;
      EmptyChunks();
      var prevSize := unparsed.containerBytes;
      var appended := AppendToUnparsedBuffer(buf);
      if appended.None? {
        return None;
      }
      var bytesToDisplace := appended.value;
      WholeView(Buffer());
      parsed := WHOLE;
      var needlePos := FindListed();
      if needlePos.Some? {
        if FirstListed(old(Buffer()), multiDelimiters).None? {
          ListedEndsInNewData(old(Buffer()), buf[..appended.value], multiDelimiters);
          PlainDifference(needlePos.value + |delimiterFound|, prevSize);
        }
        ShowFirst(needlePos.value);
        bytesToDisplace := Sub64(needlePos.value + |delimiterFound|, prevSize);
      } else if streamEnded {
        parsed := WHOLE;
        Parse();
        unparsed.Clear();
      }
      return Some(bytesToDisplace);
    }

    // B_Base::find over a list of needles: the first of the list that occurs, at its
    // leftmost place, and no earlier one of the list occurs anywhere.
    method FindListed() returns (needlePos: Option<nat>)
      requires Valid()
      modifies this`delimiterFound
      ensures Valid()
      ensures needlePos.Some? <==> FirstListed(Buffer(), multiDelimiters).Some?
      ensures needlePos.Some? ==>
                && delimiterFound == multiDelimiters[FirstListed(Buffer(), multiDelimiters).value]
                && needlePos == First(Buffer(), delimiterFound, 0)
      ensures needlePos.Some? ==>
                exists i :: 0 <= i < |multiDelimiters| && delimiterFound == multiDelimiters[i] &&
                  forall j | 0 <= j < i :: First(Buffer(), multiDelimiters[j], 0).None?
      ensures needlePos.None? ==> delimiterFound == [] && forall d | d in multiDelimiters :: First(Buffer(), d, 0).None?
    {
      hide Flatten, WellSized, First;
      delimiterFound := [];
      for i := 0 to |multiDelimiters|
        invariant Valid() && delimiterFound == []
        invariant FirstListedFrom(Buffer(), multiDelimiters, i) == FirstListed(Buffer(), multiDelimiters)
      {
        needlePos := unparsed.Find(multiDelimiters[i], 0, 0);
        if needlePos.Some? {
          delimiterFound := multiDelimiters[i];
          return;
        }
      }
      return None;
    }

    // Shows the first n bytes of the buffer and empties it.
    method ShowFirst(n: nat)
      requires Valid() && n <= |Buffer()|
      modifies this`parsed, this`status, protocol`trace, unparsed`chunks, unparsed`containerBytes
      ensures Valid() && Shown(old(protocol.trace), old(Buffer())[..n]) && unparsed.chunks == []
    {
      hide Flatten, WellSized;
      FirstView(Buffer(), n);
      parsed := Window(0, n);
      Parse();
      unparsed.Clear();
    }

    // ---- Direct delimiter mode --------------------------------------------------------

    // getLastBytesInCommon: the countdown over suffix lengths. Bytes that could not
    // be read back are whatever the scratch buffer happened to contain.
    method GetLastBytesInCommon(boundary: seq<Byte>) returns (v: nat)
      requires Valid() && 0 < |boundary| < SIZE_LIMIT
      ensures DirectDelimiters.CanHold(unparsed.chunks, boundary, v) && v <= |Buffer()|
    {
      hide Flatten, WellSized, Contiguous, ReadAt;
      var size := unparsed.containerBytes;
      v := Min(size, |boundary| - 1);
      while v != 0
        invariant v <= Min(size, |boundary| - 1)
        invariant forall w: nat | v < w <= Min(size, |boundary| - 1) ::
                    DirectDelimiters.Copied(unparsed.chunks, w) != boundary[..w]
      {
        var read := unparsed.CopyOut(v, size - v);
        var copied := if read.Some? then read.value else [];
        assert copied == DirectDelimiters.Copied(unparsed.chunks, v);
        var scratch := Scratch(copied, v);
        if scratch == boundary[..v] {
          return;
        }
        v := v - 1;
      }
    }

    // A v-byte buffer that starts with what was copied into it.
    method Scratch(copied: seq<Byte>, v: nat) returns (memory: seq<Byte>)
      requires |copied| <= v
      ensures |memory| == v && copied <= memory
    {
      var rest: seq<Byte> := *;
      memory := copied + rest;
      if |memory| < v {
        memory := memory + seq(v - |memory|, i => 0);
      } else {
        memory := memory[..v];
      }
    }

    // No delimiter yet: all but a possible beginning of it is shown and dropped.
    method ReleaseSafePart() returns (kept: nat)
      requires Valid()
      modifies this`parsed, this`status, protocol`trace, unparsed`chunks, unparsed`containerBytes
      ensures Valid() && kept <= |old(Buffer())|
      ensures Shown(old(protocol.trace), old(Buffer())[..|old(Buffer())| - kept])
      ensures DirectDelimiters.CanHold(old(unparsed.chunks), delimiter, kept)
      ensures unparsed.chunks == if kept == 0 then [] else DisplaceChunks(old(unparsed.chunks), |old(Buffer())| - kept)
    {
      hide Flatten, WellSized, DisplaceChunks, DirectDelimiters.CanHold;
      kept := GetLastBytesInCommon(delimiter);
      var safe := unparsed.containerBytes - kept;
      if kept == 0 {
        ShowFirst(safe);
      } else {
        FirstView(Buffer(), safe);
        parsed := Window(0, safe);
        Parse();
        var displaced := unparsed.Displace(safe);
      }
    }

    // A delimiter at the very start leaves nothing to show: the buffer is emptied first.
    method ShowBeforeDelimiter(n: nat)
      requires Valid() && n <= |Buffer()|
      modifies this`parsed, this`status, protocol`trace, unparsed`chunks, unparsed`containerBytes
      ensures Valid() && Shown(old(protocol.trace), old(Buffer())[..n]) && unparsed.chunks == []
    {
      hide WellSized;
      if n == 0 {
        unparsed.Clear();
        parsed := WHOLE;
        Parse();
        unparsed.Clear();
      } else {
        ShowFirst(n);
      }
    }

    // parseDirectDelimiter: everything before the delimiter is shown at once, except
    // a possible beginning of it. The bytes shown and kept are exactly the data.
    method ParseDirectDelimiter(buf: seq<Byte>) returns (r: Option<nat>, ghost kept: nat)
      requires Valid() && |buf| < SIZE_LIMIT
      modifies this`parsed, this`status, this`delimiterFound, protocol`trace, unparsed`chunks, unparsed`containerBytes
      ensures Valid()
      ensures r.Some? <==> old(Stores(|buf|))
      ensures r.Some? ==> kept <= |old(Buffer()) + buf[..old(Taken(|buf|))]|
      ensures r.Some? ==>
                var k := old(Taken(|buf|));
                var s := old(Buffer()) + buf[..k];
                var p := First(s, delimiter, 0);
                if p.Some? then
                  && Shown(old(protocol.trace), s[..p.value])
                  && unparsed.chunks == [] && delimiterFound == delimiter
                  && (First(old(Buffer()), delimiter, 0).None? ==>
                        && r.value == p.value + |delimiter| - |old(Buffer())|
                        && 0 < r.value <= |buf|)
                else
                  && Shown(old(protocol.trace), s[..|s| - kept])
                  && DirectDelimiters.Step(delimiter, DirectLimits(), old(unparsed.chunks), buf[..k], kept,
                                           unparsed.chunks)
                  && delimiterFound == [] && r.value == k
    {
      hide Flatten, WellSized, Contiguous, First, AppendChunks, DisplaceChunks;
      hide DirectDelimiters.CanHold, DirectDelimiters.Step;
      kept := 0;
      var prevSize := unparsed.containerBytes;
      delimiterFound := [];
      var appended := AppendToUnparsedBuffer(buf);
      if appended.None? {
        return None, 0;
      }
      ghost var data := buf[..appended.value];
      var delimPos := unparsed.Find(delimiter, 0, 0);
      if delimPos.None? {
        kept := ReleaseSafePart();
        DirectDelimiters.StepOf(delimiter, DirectLimits(), old(unparsed.chunks), data, kept, unparsed.chunks);
        return appended, kept;
      }
      if First(old(Buffer()), delimiter, 0).None? {
        TokenEndsInNewData(UntilDelimiter(delimiter), old(Buffer()), data);
      }
      WrappedDisplacement(delimPos.value, prevSize, |delimiter|);
      delimiterFound := delimiter;
      ShowBeforeDelimiter(delimPos.value);
      return Some(Add64(Sub64(delimPos.value, prevSize), |delimiter|)), kept;
    }

    function DirectLimits(): DirectDelimiters.Limits
      reads unparsed
    {
      DirectDelimiters.Limits(unparsed.maxChunkSize, unparsed.maxChunks)
    }
  }

  // A subparser with room takes all new bytes, unless they complete its size first.
  lemma RoomStores(p: SubParser, count: nat, buf: seq<Byte>)
    requires p.Valid() && 0 < count == |buf| && p.HasRoom(count)
    requires p.Kind().Valid() && NextToken(p.Kind(), p.Buffer()).None?
    requires p.mode == ModeDelimiter || p.mode == ModeSize
    ensures p.Stores(count)
    ensures p.Taken(count) < count ==> NextToken(p.Kind(), p.Buffer() + buf[..p.Taken(count)]).Some?
  {
    StorableMonotone(count, |p.unparsed.chunks|, p.unparsed.maxChunkSize, p.unparsed.maxChunks,
                     p.Taken(count), |p.unparsed.chunks|);
  }

  lemma ExtendCut(k: Tokens.Kind, pending: seq<Byte>, buf: seq<Byte>, taken: nat)
    requires k.Valid() && taken <= |buf|
    ensures NextToken(k, pending + buf[..taken]).Some? ==>
              NextToken(k, pending + buf) == NextToken(k, pending + buf[..taken])
  {
    assert buf[..taken] + buf[taken..] == buf;
    ConcatAssoc(pending, buf[..taken], buf[taken..]);
    if NextToken(k, pending + buf[..taken]).Some? {
      NextTokenExtends(k, pending + buf[..taken], buf[taken..]);
    }
  }

  // The next token of each kind, and how far past the bytes held it ends.
  lemma TokenByDelimiter(d: seq<Byte>, s: seq<Byte>, held: nat)
    requires 0 < |d| < SIZE_LIMIT && |s| < SIZE_LIMIT
    ensures NextToken(UntilDelimiter(d), s)
         == if First(s, d, 0).None? then None else Some(Cut(s[..First(s, d, 0).value], First(s, d, 0).value + |d|))
    ensures First(s, d, 0).Some? && held <= First(s, d, 0).value + |d| ==>
              Add64(Sub64(First(s, d, 0).value, held), |d|) == First(s, d, 0).value + |d| - held
  {
    hide First;
    if First(s, d, 0).Some? {
      WrappedDisplacement(First(s, d, 0).value, held, |d|);
    }
  }

  lemma TokenBySize(n: nat, s: seq<Byte>)
    requires 0 < n < SIZE_LIMIT
    ensures NextToken(OfSize(n), s) == if |s| < n then None else Some(Cut(s[..n], n))
    ensures |s| == n ==> s[..n] == s
  {
  }

  lemma EmptyChunks()
    ensures Contiguous([]) && WellSized([]) && Flatten([]) == []
  {
  }

  // None of the first n delimiters of a list occurs in s.
  predicate NoneBefore(s: seq<Byte>, ds: seq<seq<Byte>>, n: nat)
    requires n <= |ds|
  {
    forall j | 0 <= j < n :: First(s, ds[j], 0).None?
  }

  // The first delimiter of a list, in list order, that occurs in s.
  function FirstListedFrom(s: seq<Byte>, ds: seq<seq<Byte>>, i: nat): (r: Option<nat>)
    requires i <= |ds|
    ensures r.Some? ==> i <= r.value < |ds| && First(s, ds[r.value], 0).Some?
    ensures forall j | i <= j < (if r.Some? then r.value else |ds|) :: First(s, ds[j], 0).None?
    decreases |ds| - i
  {
    if i == |ds| then None
    else if First(s, ds[i], 0).Some? then Some(i)
    else FirstListedFrom(s, ds, i + 1)
  }

  function FirstListed(s: seq<Byte>, ds: seq<seq<Byte>>): (r: Option<nat>)
    ensures r.Some? ==> r.value < |ds| && First(s, ds[r.value], 0).Some?
    ensures NoneBefore(s, ds, if r.Some? then r.value else |ds|)
  {
    FirstListedFrom(s, ds, 0)
  }

  // If no listed delimiter was in the buffer, the one that wins ends in the new data.
  lemma ListedEndsInNewData(held: seq<Byte>, data: seq<Byte>, ds: seq<seq<Byte>>)
    requires forall i | 0 <= i < |ds| :: 0 < |ds[i]| < SIZE_LIMIT
    requires FirstListed(held, ds).None? && FirstListed(held + data, ds).Some?
    ensures var d := ds[FirstListed(held + data, ds).value];
            |held| < First(held + data, d, 0).value + |d| <= |held| + |data|
  {
    TokenEndsInNewData(UntilDelimiter(ds[FirstListed(held + data, ds).value]), held, data);
  }
}
