// Direct-delimiter mode over a buffer that reads back what was put into it: what
// the mode is designed for (Memory/subparser.cpp), for every delimiter.
module DirectStreams {
  import opened Common
  import opened HoldBacks
  import opened Occurrences
  import opened Tokens

  // The bytes handed on so far, the bytes held, and whether the delimiter came.
  datatype Flow = Flow(released: seq<Byte>, held: seq<Byte>, hit: bool)

  // One write: everything before the delimiter if it is there; otherwise everything
  // that cannot be the beginning of one.
  function Written(f: Flow, x: seq<Byte>, d: seq<Byte>): Flow
    requires d != []
  {
    if f.hit then f
    else
      var s := f.held + x;
      var p := First(s, d, 0);
      if p.Some? then Flow(f.released + s[..p.value], [], true)
      else
        var h := HoldBack(s, d);
        Flow(f.released + s[..|s| - h], s[|s| - h..], false)
  }

  function WrittenAll(pieces: seq<seq<Byte>>, d: seq<Byte>): Flow
    requires d != []
  {
    if pieces == [] then Flow([], [], false)
    else Written(WrittenAll(pieces[..|pieces| - 1], d), pieces[|pieces| - 1], d)
  }

  // What the flow should be after a stream.
  ghost predicate Follows(f: Flow, stream: seq<Byte>, d: seq<Byte>)
    requires d != []
  {
    if f.hit then
      f.held == [] && First(stream, d, 0) == Some(|f.released|) && f.released <= stream
    else
      First(stream, d, 0).None? && f.released + f.held == stream && |f.held| == HoldBack(stream, d)
  }

  lemma WriteFollows(f: Flow, stream: seq<Byte>, x: seq<Byte>, d: seq<Byte>)
    requires d != [] && Follows(f, stream, d)
    ensures Follows(Written(f, x, d), stream + x, d)
  {
    hide First, HoldBack, OccursAt, EndsWithPrefix;
    if f.hit {
      FirstExtends(stream, x, d);
    } else {
      BufferDecidesFirst(f.released, f.held, x, d);
      BufferDecidesHold(f.released, f.held, x, d);
      ConcatAssoc(f.released, f.held, x);
      CutAfter(f.released, f.held + x, if First(f.held + x, d, 0).Some? then First(f.held + x, d, 0).value else 0);
      CutAfter(f.released, f.held + x, |f.held + x| - HoldBack(f.held + x, d));
      WithinBuffer(f.held + x, d);
    }
  }

  lemma CutAfter(a: seq<Byte>, s: seq<Byte>, k: int)
    ensures 0 <= k <= |s| ==> a + s[..k] + s[k..] == a + s && a + s[..k] <= a + s
  {
  }

  lemma WithinBuffer(s: seq<Byte>, d: seq<Byte>)
    requires d != []
    ensures HoldBack(s, d) <= |s| && (First(s, d, 0).Some? ==> First(s, d, 0).value <= |s|)
  {
  }

  // However a stream is cut: without a delimiter in it, all is handed on but its
  // longest end that could begin one; with one, exactly the bytes before the leftmost.
  lemma {:induction false} CutsDoNotMatter(pieces: seq<seq<Byte>>, d: seq<Byte>)
    requires d != []
    ensures Follows(WrittenAll(pieces, d), Join(pieces), d)
  {
    hide Follows, Written;
    if pieces == [] {
      StartFollows(d);
    } else {
      var before := pieces[..|pieces| - 1];
      CutsDoNotMatter(before, d);
      WriteFollows(WrittenAll(before, d), Join(before), pieces[|pieces| - 1], d);
    }
  }

  lemma StartFollows(d: seq<Byte>)
    requires d != []
    ensures Follows(Flow([], [], false), [], d)
  {
  }
}
