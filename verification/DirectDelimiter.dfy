// Direct-delimiter streaming over the chunked container: everything but a
// possible beginning of the delimiter is released at once. The last bytes are
// read back by offset (SubParser::getLastBytesInCommon, Memory/subparser.cpp),
// so the result depends on the stored chunk offsets being right.
module DirectDelimiters {
  import opened Common
  import opened Occurrences
  import opened ChunkVector
  import opened ChunkUpdates
  import opened HoldBacks
  import DirectStreams
  import Tokens

  datatype Limits = Limits(chunkSize: nat, maxChunks: nat) {
    predicate Valid() {
      0 < chunkSize < SIZE_LIMIT
    }
  }

  // The bytes actually copied when the last v bytes are asked for. The rest of
  // the v-byte scratch buffer is uninitialised memory.
  function Copied(cs: seq<Chunk>, v: nat): (r: seq<Byte>)
    requires WellSized(cs) && v <= |Flatten(cs)|
    ensures |r| <= v
  {
    var r := ReadAt(cs, v, |Flatten(cs)| - v);
    if r.None? then [] else r.value
  }

  // The lengths getLastBytesInCommon can report: the comparison at that length may
  // succeed, and every longer one may fail, for some content of the scratch buffer.
  ghost predicate CanHold(cs: seq<Chunk>, d: seq<Byte>, h: nat)
    requires WellSized(cs) && d != []
  {
    var m := Min(|Flatten(cs)|, |d| - 1);
    && h <= m
    && (0 < h ==> Copied(cs, h) <= d[..h])
    && (forall v: nat | h < v <= m :: Copied(cs, v) != d[..v])
  }

  // With right offsets, only the true hold-back can be reported.
  lemma ContiguousHold(cs: seq<Chunk>, d: seq<Byte>, h: nat)
    requires WellSized(cs) && Contiguous(cs) && |Flatten(cs)| < SIZE_LIMIT && d != []
    ensures CanHold(cs, d, h) <==> h == HoldBack(Flatten(cs), d)
  {
    forall v: nat | 0 < v <= |Flatten(cs)|
      ensures Copied(cs, v) == Flatten(cs)[|Flatten(cs)| - v..]
    {
      CopiedExactly(cs, v);
    }
    HoldFromCopies(cs, d, h);
  }

  lemma CopiedExactly(cs: seq<Chunk>, v: nat)
    requires WellSized(cs) && Contiguous(cs) && |Flatten(cs)| < SIZE_LIMIT
    requires 0 < v <= |Flatten(cs)|
    ensures Copied(cs, v) == Flatten(cs)[|Flatten(cs)| - v..]
  {
    hide ReadAt, Flatten, Contiguous, WellSized;
    ReadAtContiguous(cs, v, |Flatten(cs)| - v);
  }

  lemma HoldFromCopies(cs: seq<Chunk>, d: seq<Byte>, h: nat)
    requires WellSized(cs) && d != []
    requires forall v: nat | 0 < v <= |Flatten(cs)| :: Copied(cs, v) == Flatten(cs)[|Flatten(cs)| - v..]
    ensures CanHold(cs, d, h) <==> h == HoldBack(Flatten(cs), d)
  {
    hide Copied, Flatten, WellSized, HoldBack;
    var s := Flatten(cs);
    var m := Min(|s|, |d| - 1);
    forall v: nat | 0 < v <= m
      ensures Copied(cs, v) == d[..v] <==> EndsWithPrefix(s, d, v)
      ensures Copied(cs, v) <= d[..v] <==> EndsWithPrefix(s, d, v)
    {
      assert |Copied(cs, v)| == v;
    }
    if CanHold(cs, d, h) {
      forall w: nat | h < w < |d|
        ensures !EndsWithPrefix(s, d, w)
      {
        assert w <= m ==> Copied(cs, w) != d[..w];
      }
      HoldBackUnique(s, d, h);
    }
  }

  // ---- One write ---------------------------------------------------------------

  // A write of x that completes no delimiter releases a piece and keeps `h` bytes.
  ghost predicate Step(d: seq<Byte>, l: Limits, cs: seq<Chunk>, x: seq<Byte>, h: nat, cs': seq<Chunk>)
    requires d != [] && l.Valid() && WellSized(cs)
  {
    var grown := AppendChunks(cs, x, l.chunkSize, l.maxChunks);
    && Storable(|x|, |cs|, l.chunkSize, l.maxChunks) == |x|
    && |Flatten(cs)| + |x| < SIZE_LIMIT
    && WellSized(grown)
    && First(Flatten(grown), d, 0).None?
    && CanHold(grown, d, h)
    && cs' == if h == 0 then [] else DisplaceChunks(grown, |Flatten(grown)| - h)
  }

  lemma StepOf(d: seq<Byte>, l: Limits, cs: seq<Chunk>, x: seq<Byte>, h: nat, cs': seq<Chunk>)
    requires d != [] && l.Valid() && WellSized(cs)
    requires Storable(|x|, |cs|, l.chunkSize, l.maxChunks) == |x| && |Flatten(cs)| + |x| < SIZE_LIMIT
    requires var grown := AppendChunks(cs, x, l.chunkSize, l.maxChunks);
             && WellSized(grown) && First(Flatten(grown), d, 0).None? && CanHold(grown, d, h)
             && cs' == if h == 0 then [] else DisplaceChunks(grown, |Flatten(grown)| - h)
    ensures Step(d, l, cs, x, h, cs')
  {
  }

  // What the grown container holds when nothing was cut short.
  lemma GrownBytes(cs: seq<Chunk>, x: seq<Byte>, l: Limits)
    requires l.Valid() && WellSized(cs) && Storable(|x|, |cs|, l.chunkSize, l.maxChunks) == |x|
    ensures var grown := AppendChunks(cs, x, l.chunkSize, l.maxChunks);
            && Flatten(grown) == Flatten(cs) + x
            && WellSized(grown)
            && (Contiguous(cs) && |Flatten(cs)| + |x| < SIZE_LIMIT ==> Contiguous(grown))
  {
    hide AppendChunks, Flatten, WellSized, Contiguous, Storable;
    AppendChunksMeaning(cs, x, l.chunkSize, l.maxChunks);
    assert x[..|x|] == x;
  }

  lemma StepBytes(d: seq<Byte>, l: Limits, cs: seq<Chunk>, x: seq<Byte>, h: nat, cs': seq<Chunk>)
    requires d != [] && l.Valid() && WellSized(cs) && Step(d, l, cs, x, h, cs')
    ensures h <= |Flatten(cs) + x| && h < |d|
    ensures Flatten(cs') == (Flatten(cs) + x)[|Flatten(cs) + x| - h..]
    ensures WellSized(cs')
  {
    hide AppendChunks, WellSized, Storable, DisplaceChunks, First, Copied, Flatten;
    GrownBytes(cs, x, l);
    var grown := AppendChunks(cs, x, l.chunkSize, l.maxChunks);
    DisplaceChunksMeaning(grown, |Flatten(grown)| - h);
    NoChunks();
  }

  // With right offsets at the start of a write, it keeps exactly the hold-back;
  // and the offsets are right again at its end if at most one chunk is left.
  lemma ContiguousStep(d: seq<Byte>, l: Limits, cs: seq<Chunk>, x: seq<Byte>, h: nat, cs': seq<Chunk>)
    requires d != [] && l.Valid() && WellSized(cs) && Contiguous(cs) && Step(d, l, cs, x, h, cs')
    ensures h == HoldBack(Flatten(cs) + x, d)
    ensures First(Flatten(cs) + x, d, 0).None?
    ensures |cs'| <= 1 ==> Contiguous(cs')
  {
    hide AppendChunks, WellSized, Storable, DisplaceChunks, First, CanHold, HoldBack, Flatten, Contiguous;
    GrownBytes(cs, x, l);
    var grown := AppendChunks(cs, x, l.chunkSize, l.maxChunks);
    ContiguousHold(grown, d, h);
    RightAgain(grown, |Flatten(grown)| - h);
    NoChunks();
  }

  // So on contiguous chunks a write is the designed one.
  lemma ContiguousStepIsDesigned(d: seq<Byte>, l: Limits, cs: seq<Chunk>, released: seq<Byte>, x: seq<Byte>, h: nat,
                                 cs': seq<Chunk>)
    requires d != [] && l.Valid() && WellSized(cs) && Contiguous(cs) && Step(d, l, cs, x, h, cs')
    ensures h <= |Flatten(cs) + x|
    ensures DirectStreams.Written(DirectStreams.Flow(released, Flatten(cs), false), x, d)
         == DirectStreams.Flow(released + (Flatten(cs) + x)[..|Flatten(cs) + x| - h], Flatten(cs'), false)
  {
    hide Step, Contiguous, WellSized, Flatten, HoldBack, First;
    ContiguousStep(d, l, cs, x, h, cs');
    StepBytes(d, l, cs, x, h, cs');
  }

  lemma NoChunks()
    ensures Contiguous([]) && WellSized([]) && Flatten([]) == []
  {
  }

  lemma RightAgain(cs: seq<Chunk>, n: nat)
    requires WellSized(cs) && Contiguous(cs) && n <= |Flatten(cs)|
    ensures |DisplaceChunks(cs, n)| <= 1 ==> Contiguous(DisplaceChunks(cs, n))
  {
    hide DropBytes, Contiguous, Flatten, WellSized;
    DisplaceKeepsOffsets(cs, n);
  }

  // ---- Whole streams -------------------------------------------------------------

  // The container and the bytes released after a stream arrived piece by piece,
  // with no delimiter found yet.
  ghost predicate Reaches(d: seq<Byte>, l: Limits, pieces: seq<seq<Byte>>, cs: seq<Chunk>, released: seq<Byte>)
    requires d != [] && l.Valid()
    decreases |pieces|
  {
    if pieces == [] then cs == [] && released == []
    else
      exists cs0, released0, h :: Follows(d, l, pieces, cs0, released0, h, cs, released)
  }

  ghost predicate Follows(d: seq<Byte>, l: Limits, pieces: seq<seq<Byte>>, cs0: seq<Chunk>, released0: seq<Byte>,
                          h: nat, cs: seq<Chunk>, released: seq<Byte>)
    requires d != [] && l.Valid() && pieces != []
    decreases |pieces|, 0
  {
    var x := pieces[|pieces| - 1];
    && Reaches(d, l, pieces[..|pieces| - 1], cs0, released0)
    && WellSized(cs0)
    && Step(d, l, cs0, x, h, cs)
    && h <= |Flatten(cs0) + x|
    && released == released0 + (Flatten(cs0) + x)[..|Flatten(cs0) + x| - h]
  }

  // No byte is ever lost or repeated, whatever is held back.
  lemma {:induction false} NothingLost(d: seq<Byte>, l: Limits, pieces: seq<seq<Byte>>, cs: seq<Chunk>,
                                       released: seq<Byte>)
    requires d != [] && l.Valid() && Reaches(d, l, pieces, cs, released)
    ensures WellSized(cs) && |Flatten(cs)| < |d|
    ensures released + Flatten(cs) == Tokens.Join(pieces)
    decreases |pieces|
  {
    if pieces != [] {
      var cs0, released0, h :| Follows(d, l, pieces, cs0, released0, h, cs, released);
      var x := pieces[|pieces| - 1];
      NothingLost(d, l, pieces[..|pieces| - 1], cs0, released0);
      StepBytes(d, l, cs0, x, h, cs);
      var buffer := Flatten(cs0) + x;
      CutAndJoin(buffer, |buffer| - h);
      ConcatAssoc(released0, buffer[..|buffer| - h], buffer[|buffer| - h..]);
      ConcatAssoc(released0, Flatten(cs0), x);
    }
  }

  lemma CutAndJoin<T>(s: seq<T>, k: nat)
    requires k <= |s|
    ensures s[..k] + s[k..] == s
  {
  }

  // What direct-delimiter mode is for: the bytes still held are the longest end
  // of the stream that could begin the delimiter, and the delimiter is not in it yet.
  ghost predicate HoldsExactly(d: seq<Byte>, stream: seq<Byte>, cs: seq<Chunk>)
    requires d != []
  {
    && |Flatten(cs)| == HoldBack(stream, d)
    && First(stream, d, 0).None?
  }

  // One more write keeps it so, as long as the offsets were right.
  lemma StepHoldsExactly(d: seq<Byte>, l: Limits, cs: seq<Chunk>, released: seq<Byte>, x: seq<Byte>, h: nat,
                         cs': seq<Chunk>)
    requires d != [] && l.Valid() && WellSized(cs) && Contiguous(cs) && Step(d, l, cs, x, h, cs')
    requires HoldsExactly(d, released + Flatten(cs), cs)
    ensures HoldsExactly(d, released + Flatten(cs) + x, cs')
  {
    ContiguousStep(d, l, cs, x, h, cs');
    StepBytes(d, l, cs, x, h, cs');
    BufferDecidesHold(released, Flatten(cs), x, d);
    BufferDecidesFirst(released, Flatten(cs), x, d);
  }

  // A delimiter of one or two bytes leaves at most one byte behind, hence one chunk.
  lemma {:induction false} ShortDelimiterRun(d: seq<Byte>, l: Limits, pieces: seq<seq<Byte>>, cs: seq<Chunk>,
                                             released: seq<Byte>)
    requires 0 < |d| <= 2 && l.Valid() && Reaches(d, l, pieces, cs, released)
    ensures WellSized(cs) && Contiguous(cs)
    ensures HoldsExactly(d, Tokens.Join(pieces), cs)
    decreases |pieces|
  {
    if pieces == [] {
    } else {
      var cs0, released0, h :| Follows(d, l, pieces, cs0, released0, h, cs, released);
      var x, before := pieces[|pieces| - 1], pieces[..|pieces| - 1];
      ShortDelimiterRun(d, l, before, cs0, released0);
      NothingLost(d, l, before, cs0, released0);
      StepHoldsExactly(d, l, cs0, released0, x, h, cs);
      StepBytes(d, l, cs0, x, h, cs);
      ChunksAtMostBytes(cs);
      ContiguousStep(d, l, cs0, x, h, cs);
    }
  }

  lemma {:induction false} ChunksAtMostBytes(cs: seq<Chunk>)
    requires WellSized(cs)
    ensures |cs| <= |Flatten(cs)|
  {
    if cs != [] {
      ChunksAtMostBytes(cs[1..]);
    }
  }

  // When the write that completes the delimiter comes, the pieces released, with
  // the one released then, are exactly the stream before its leftmost delimiter.
  lemma HitReleasesEverythingBefore(d: seq<Byte>, released: seq<Byte>, cs: seq<Chunk>, x: seq<Byte>)
    requires d != [] && HoldsExactly(d, released + Flatten(cs), cs)
    ensures var stream := released + Flatten(cs) + x;
            && (First(Flatten(cs) + x, d, 0).Some? <==> First(stream, d, 0).Some?)
            && (First(stream, d, 0).Some? ==>
                  released + (Flatten(cs) + x)[..First(Flatten(cs) + x, d, 0).value]
                    == stream[..First(stream, d, 0).value])
  {
    BufferDecidesFirst(released, Flatten(cs), x, d);
    ConcatAssoc(released, Flatten(cs), x);
  }

  // ---- Where it fails ---------------------------------------------------------------

  lemma SingleChunk(a: Byte)
    ensures Flatten([Chunk([a], 0)]) == [a] && Contiguous([Chunk([a], 0)])
  {
    var cs := [Chunk([a], 0)];
    assert cs[1..] == [] && cs[..0] == [];
  }

  lemma TwoChunks(a: Byte, b: Byte, i: nat, j: nat)
    ensures Flatten([Chunk([a], i), Chunk([b], j)]) == [a, b]
  {
    var cs := [Chunk([a], i), Chunk([b], j)];
    assert cs[1..] == [Chunk([b], j)] && cs[1..][1..] == [];
    assert Flatten(cs[1..]) == [b] + Flatten(cs[1..][1..]);
  }

  lemma ThreeChunks(a: Byte, b: Byte, c: Byte, i: nat, j: nat, k: nat)
    ensures Flatten([Chunk([a], i), Chunk([b], j), Chunk([c], k)]) == [a, b, c]
  {
    var cs := [Chunk([a], i), Chunk([b], j), Chunk([c], k)];
    TwoChunks(b, c, j, k);
    assert cs[1..] == [Chunk([b], j), Chunk([c], k)];
    assert Flatten(cs) == [a] + Flatten(cs[1..]);
  }

  // Appending one byte makes one chunk, filed after the last one.
  lemma AppendOneByte(cs: seq<Chunk>, x: Byte, l: Limits)
    requires l.Valid() && |cs| < l.maxChunks
    ensures AppendChunks(cs, [x], l.chunkSize, l.maxChunks) == cs + [Chunk([x], NextChunkOffset(cs))]
    ensures Storable(1, |cs|, l.chunkSize, l.maxChunks) == 1
  {
    hide NextChunkOffset, Storable;
    var next := cs + [Chunk([x], NextChunkOffset(cs))];
    NothingAppended(next, l);
    assert [x][..1] == [x] && [x][1..] == [];
    assert AppendChunks(cs, [x], l.chunkSize, l.maxChunks) == AppendChunks(next, [], l.chunkSize, l.maxChunks);
    NothingStorable(0, |cs| + 1, l.chunkSize, l.maxChunks);
    StorableStep(1, |cs|, l.chunkSize, l.maxChunks);
  }

  lemma NothingAppended(cs: seq<Chunk>, l: Limits)
    requires l.Valid()
    ensures AppendChunks(cs, [], l.chunkSize, l.maxChunks) == cs
  {
  }

  lemma FirstByteHeld(d: seq<Byte>, l: Limits)
    requires |d| >= 3 && l.Valid() && l.maxChunks >= 3
    ensures Step(d, l, [], [d[0]], 1, [Chunk([d[0]], 0)])
  {
    var grown := [Chunk([d[0]], 0)];
    AppendOneByte([], d[0], l);
    SingleChunk(d[0]);
    assert [] + grown == grown;
    assert EndsWithPrefix([d[0]], d, 1);
    HoldBackUnique([d[0]], d, 1);
    ContiguousHold(grown, d, 1);
    assert DisplaceChunks(grown, 0) == grown;
  }

  lemma SecondByteHeld(d: seq<Byte>, l: Limits) returns (cs: seq<Chunk>, held: seq<Chunk>)
    requires |d| >= 3 && l.Valid() && l.maxChunks >= 3
    ensures cs == [Chunk([d[0]], 0)] && held == [Chunk([d[0]], 1), Chunk([d[1]], 1)]
    ensures WellSized(cs) && Step(d, l, cs, [d[1]], 2, held)
  {
    cs, held := [Chunk([d[0]], 0)], [Chunk([d[0]], 1), Chunk([d[1]], 1)];
    var grown := [Chunk([d[0]], 0), Chunk([d[1]], 1)];
    AppendOneByte(cs, d[1], l);
    assert cs + [Chunk([d[1]], 1)] == grown;
    SingleChunk(d[0]);
    TwoChunks(d[0], d[1], 0, 1);
    AppendOneChunk(cs, [d[1]]);
    var s := [d[0], d[1]];
    assert s[|s| - 2..] == d[..2];
    HoldBackUnique(s, d, 2);
    ContiguousHold(grown, d, 2);
    assert DisplaceChunks(grown, 0) == Recalculate(grown) == held;
  }

  // After two single-byte writes both chunks are filed under offset 1. A third
  // byte makes the last two bytes read as the first two, so they match again.
  lemma StaleRead(d: seq<Byte>, x: Byte)
    requires |d| >= 3
    ensures var grown := [Chunk([d[0]], 1), Chunk([d[1]], 1), Chunk([x], 2)];
            && Flatten(grown) == [d[0], d[1], x]
            && WellSized(grown)
            && Copied(grown, 2) == d[..2]
            && Copied(grown, 3) == []
  {
    var grown := [Chunk([d[0]], 1), Chunk([d[1]], 1), Chunk([x], 2)];
    ThreeChunks(d[0], d[1], x, 1, 1, 2);
    assert FindChunk(grown, 1) == Some(0);
    assert FindChunk(grown, 0) == None;
    TwoChunks(d[1], x, 1, 2);
    assert grown[1..] == [Chunk([d[1]], 1), Chunk([x], 2)];
    assert FromChunk(grown, 0, 0) == [d[0], d[1], x];
    assert [d[0], d[1], x][..2] == d[..2];
  }

  lemma NothingToHold(d: seq<Byte>, x: Byte)
    requires |d| >= 3 && x != d[0] && x != d[1] && x != d[2]
    ensures HoldBack([d[0], d[1], x], d) == 0 && First([d[0], d[1], x], d, 0).None?
  {
    hide HoldBack, First;
    var s := [d[0], d[1], x];
    forall w: nat | 0 < w < |d|
      ensures !EndsWithPrefix(s, d, w)
    {
      LastByteAgrees(s, d, w);
    }
    HoldBackUnique(s, d, 0);
    forall i: nat
      ensures !OccursAt(s, d, i)
    {
      if i + |d| <= 3 {
        assert i == 0 && s[0..3][2] != d[2];
      }
    }
  }

  lemma LastByteAgrees(s: seq<Byte>, d: seq<Byte>, w: nat)
    requires 0 < w <= |d| && s != []
    ensures EndsWithPrefix(s, d, w) ==> w <= |s| && s[|s| - 1] == d[w - 1]
  {
    if EndsWithPrefix(s, d, w) {
      assert s[|s| - w..][w - 1] == d[..w][w - 1];
    }
  }

  lemma ThirdByteMisread(d: seq<Byte>, x: Byte, l: Limits) returns (cs: seq<Chunk>, held: seq<Chunk>)
    requires |d| >= 3 && l.Valid() && l.maxChunks >= 3 && x != d[0] && x != d[1] && x != d[2]
    ensures cs == [Chunk([d[0]], 1), Chunk([d[1]], 1)] && held == [Chunk([d[1]], 1), Chunk([x], 2)]
    ensures WellSized(cs) && Step(d, l, cs, [x], 2, held)
  {
    cs, held := [Chunk([d[0]], 1), Chunk([d[1]], 1)], [Chunk([d[1]], 1), Chunk([x], 2)];
    var grown := [Chunk([d[0]], 1), Chunk([d[1]], 1), Chunk([x], 2)];
    TwoChunks(d[0], d[1], 1, 1);
    AppendOneByte(cs, x, l);
    assert cs + [Chunk([x], 2)] == grown;
    StaleRead(d, x);
    NothingToHold(d, x);
    StaleHold(d, x);
    DropOneOfThree(d[0], d[1], x);
  }

  lemma StaleHold(d: seq<Byte>, x: Byte)
    requires |d| >= 3
    ensures WellSized([Chunk([d[0]], 1), Chunk([d[1]], 1), Chunk([x], 2)])
    ensures CanHold([Chunk([d[0]], 1), Chunk([d[1]], 1), Chunk([x], 2)], d, 2)
  {
    StaleRead(d, x);
  }

  lemma DropOneOfThree(a: Byte, b: Byte, c: Byte)
    ensures DisplaceChunks([Chunk([a], 1), Chunk([b], 1), Chunk([c], 2)], 1) == [Chunk([b], 1), Chunk([c], 2)]
  {
    var cs := [Chunk([a], 1), Chunk([b], 1), Chunk([c], 2)];
    assert cs[1..] == [Chunk([b], 1), Chunk([c], 2)];
    assert DropBytes(cs, 1) == DropBytes(cs[1..], 0);
  }

  // A byte different from three others.
  function OtherByte(a: Byte, b: Byte, c: Byte): (x: Byte)
    ensures x != a && x != b && x != c
  {
    if a != 0 && b != 0 && c != 0 then 0
    else if a != 1 && b != 1 && c != 1 then 1
    else if a != 2 && b != 2 && c != 2 then 2
    else 3
  }

  // For every delimiter of three bytes or more, three single-byte writes end with
  // two bytes held that cannot begin the delimiter.
  lemma LongDelimiterFails(d: seq<Byte>, l: Limits)
    returns (pieces: seq<seq<Byte>>, cs: seq<Chunk>, released: seq<Byte>)
    requires |d| >= 3 && l.Valid() && l.maxChunks >= 3
    ensures Reaches(d, l, pieces, cs, released)
    ensures !HoldsExactly(d, Tokens.Join(pieces), cs)
  {
    hide Step, Flatten, HoldBack, First, Follows, Reaches, Tokens.Join;
    var x := OtherByte(d[0], d[1], d[2]);
    pieces, cs, released := [[d[0]], [d[1]], [x]], [Chunk([d[1]], 1), Chunk([x], 2)], [d[0]];
    ThreeWrites(d, x, l);
    NothingToHold(d, x);
    TwoChunks(d[1], x, 1, 2);
    JoinThree(d[0], d[1], x);
  }

  lemma JoinThree(a: Byte, b: Byte, c: Byte)
    ensures Tokens.Join([[a]]) == [a]
    ensures Tokens.Join([[a], [b]]) == [a, b]
    ensures Tokens.Join([[a], [b], [c]]) == [a, b, c]
  {
    assert [[a]][..0] == [] && [[a], [b]][..1] == [[a]] && [[a], [b], [c]][..2] == [[a], [b]];
  }

  lemma ThreeWrites(d: seq<Byte>, x: Byte, l: Limits)
    requires |d| >= 3 && l.Valid() && l.maxChunks >= 3 && x != d[0] && x != d[1] && x != d[2]
    ensures Reaches(d, l, [[d[0]], [d[1]], [x]], [Chunk([d[1]], 1), Chunk([x], 2)], [d[0]])
  {
    hide Step, Flatten, Reaches;
    var c2, c3 := [Chunk([d[0]], 1), Chunk([d[1]], 1)], [Chunk([d[1]], 1), Chunk([x], 2)];
    TwoWrites(d, l);
    var cs, held := ThirdByteMisread(d, x, l);
    TwoChunks(d[0], d[1], 1, 1);
    assert [[d[0]], [d[1]], [x]][..2] == [[d[0]], [d[1]]];
    ReachOneMore(d, l, [[d[0]], [d[1]], [x]], c2, [], 2, c3, [d[0]]);
  }

  // Two single-byte writes are all held, in two chunks.
  lemma TwoWrites(d: seq<Byte>, l: Limits)
    requires |d| >= 3 && l.Valid() && l.maxChunks >= 3
    ensures Reaches(d, l, [[d[0]], [d[1]]], [Chunk([d[0]], 1), Chunk([d[1]], 1)], [])
  {
    hide Step, Flatten, Reaches;
    var p1, p2 := [[d[0]]], [[d[0]], [d[1]]];
    var c1, c2 := [Chunk([d[0]], 0)], [Chunk([d[0]], 1), Chunk([d[1]], 1)];
    FirstByteHeld(d, l);
    var cs, held := SecondByteHeld(d, l);
    NoChunks();
    SingleChunk(d[0]);
    assert p1[..0] == [] && p2[..1] == p1;
    NothingWritten(d, l);
    ReachOneMore(d, l, p1, [], [], 1, c1, []);
    ReachOneMore(d, l, p2, c1, [], 2, c2, []);
  }

  lemma NothingWritten(d: seq<Byte>, l: Limits)
    requires d != [] && l.Valid()
    ensures Reaches(d, l, [], [], [])
  {
  }

  lemma ReachOneMore(d: seq<Byte>, l: Limits, pieces: seq<seq<Byte>>, cs0: seq<Chunk>, released0: seq<Byte>,
                     h: nat, cs: seq<Chunk>, released: seq<Byte>)
    requires d != [] && l.Valid() && pieces != []
    requires Follows(d, l, pieces, cs0, released0, h, cs, released)
    ensures Reaches(d, l, pieces, cs, released)
  {
  }

  // With the fourth byte the container still files its first two chunks under 1 and 2.
  lemma FourthByteReads(b: Byte, c: Byte, e: Byte)
    ensures var grown := [Chunk([b], 1), Chunk([c], 2), Chunk([e], 3)];
            && Flatten(grown) == [b, c, e]
            && WellSized(grown)
            && Copied(grown, 3) == []
            && Copied(grown, 2) == [b, c]
            && Copied(grown, 1) == [c]
  {
    var grown := [Chunk([b], 1), Chunk([c], 2), Chunk([e], 3)];
    ThreeChunks(b, c, e, 1, 2, 3);
    TwoChunks(c, e, 2, 3);
    assert grown[1..] == [Chunk([c], 2), Chunk([e], 3)];
    assert FindChunk(grown, 0) == None;
    assert FindChunk(grown, 1) == Some(0);
    assert FromChunk(grown, 0, 0) == [b] + [c, e];
    assert FindChunk(grown, 2) == Some(1);
    assert grown[2..] == [Chunk([e], 3)];
    assert FromChunk(grown, 1, 0) == [c] + Flatten(grown[2..]);
  }

  // Then the delimiter's first byte, if it comes next, reads as the byte before it and
  // is released.
  lemma FirstByteReleased(d: seq<Byte>, x: Byte, l: Limits) returns (cs: seq<Chunk>, held: seq<Chunk>)
    requires |d| >= 3 && l.Valid() && l.maxChunks >= 3 && x != d[0] && x != d[1]
    ensures cs == [Chunk([d[1]], 1), Chunk([x], 2)] && held == []
    ensures WellSized(cs) && Step(d, l, cs, [d[0]], 0, held)
  {
    hide Copied, AppendChunks, Flatten;
    cs, held := [Chunk([d[1]], 1), Chunk([x], 2)], [];
    var grown := [Chunk([d[1]], 1), Chunk([x], 2), Chunk([d[0]], 3)];
    TwoChunks(d[1], x, 1, 2);
    ThreeChunks(d[1], x, d[0], 1, 2, 3);
    AppendOneByte(cs, d[0], l);
    assert cs + [Chunk([d[0]], 3)] == grown;
    FourthByteReads(d[1], x, d[0]);
    assert d[..1][0] == d[0] && d[..2][1] == d[1] && (|d| > 3 ==> |d[..3]| == 3);
    forall i: nat
      ensures !OccursAt([d[1], x, d[0]], d, i)
    {
      if i + |d| <= 3 {
        assert i == 0 && [d[1], x, d[0]][0..3][1] == x;
      }
    }
  }

  // The rest of the delimiter is shorter than the delimiter.
  lemma RestWritten(d: seq<Byte>, l: Limits) returns (h: nat, cs: seq<Chunk>)
    requires |d| >= 3 && l.Valid() && Fits(d, l)
    ensures Step(d, l, [], d[1..], h, cs) && h <= |d[1..]|
  {
    hide Contiguous, AppendChunks, DisplaceChunks, CanHold, Flatten, WellSized, First, HoldBack, Storable;
    var grown := AppendChunks([], d[1..], l.chunkSize, l.maxChunks);
    NoChunks();
    StorableMonotone(|d|, 0, l.chunkSize, l.maxChunks, |d| - 1, 0);
    GrownBytes([], d[1..], l);
    assert Flatten(grown) == d[1..];
    ShorterThanDelimiter(d[1..], d);
    h := HoldBack(d[1..], d);
    ContiguousHold(grown, d, h);
    cs := if h == 0 then [] else DisplaceChunks(grown, |Flatten(grown)| - h);
  }

  lemma ShorterThanDelimiter(s: seq<Byte>, d: seq<Byte>)
    requires |s| < |d|
    ensures First(s, d, 0).None? && HoldBack(s, d) <= |s|
  {
  }

  // The container can take the whole delimiter.
  predicate Fits(d: seq<Byte>, l: Limits) {
    Storable(|d|, 0, l.chunkSize, l.maxChunks) == |d| < SIZE_LIMIT
  }

  // For every delimiter of three bytes or more there is a stream that holds it, and a
  // cutting of it in which no write finds it.
  lemma DelimiterMissed(d: seq<Byte>, l: Limits)
    returns (pieces: seq<seq<Byte>>, cs: seq<Chunk>, released: seq<Byte>)
    requires |d| >= 3 && l.Valid() && l.maxChunks >= 3 && Fits(d, l)
    ensures Reaches(d, l, pieces, cs, released)
    ensures First(Tokens.Join(pieces), d, 0).Some?
  {
    hide Step, Flatten, Reaches, First, Fits;
    var x := OtherByte(d[0], d[1], d[2]);
    var p3, p4 := [[d[0]], [d[1]], [x]], [[d[0]], [d[1]], [x], [d[0]]];
    var before := [d[0], d[1], x, d[0]];
    ThreeWrites(d, x, l);
    var c3, c4 := FirstByteReleased(d, x, l);
    TwoChunks(d[1], x, 1, 2);
    assert p4[..3] == p3 && [d[0]] + [d[1], x, d[0]] == before;
    ReachOneMore(d, l, p4, [Chunk([d[1]], 1), Chunk([x], 2)], [d[0]], 0, [], before);
    var h;
    h, cs := RestWritten(d, l);
    pieces, released := p4 + [d[1..]], before + d[1..][..|d| - 1 - h];
    NoChunks();
    assert pieces[..4] == p4 && [] + d[1..] == d[1..];
    ReachOneMore(d, l, pieces, [], before, h, cs, released);
    JoinThree(d[0], d[1], x);
    assert Tokens.Join(pieces) == before + d[1..] by {
      assert Tokens.Join(p4) == [d[0], d[1], x] + [d[0]];
    }
    DelimiterBehind([d[0], d[1], x], d);
  }

  lemma DelimiterBehind(a: seq<Byte>, d: seq<Byte>)
    requires d != []
    ensures First(a + [d[0]] + d[1..], d, 0).Some?
  {
    var s := a + [d[0]] + d[1..];
    assert s[|a|..|a| + |d|] == d;
    assert OccursAt(s, d, |a|);
  }

  // The law of direct-delimiter mode, for every stream and every way of cutting it.
  ghost predicate HoldLaw(d: seq<Byte>, l: Limits)
    requires d != [] && l.Valid()
  {
    forall pieces, cs, released | Reaches(d, l, pieces, cs, released) :: HoldsExactly(d, Tokens.Join(pieces), cs)
  }

  // It holds exactly when the delimiter has at most two bytes.
  lemma HoldLawExactly(d: seq<Byte>, l: Limits)
    requires d != [] && l.Valid() && l.maxChunks >= 3
    ensures HoldLaw(d, l) <==> |d| <= 2
  {
    if |d| <= 2 {
      forall pieces, cs, released | Reaches(d, l, pieces, cs, released)
        ensures HoldsExactly(d, Tokens.Join(pieces), cs)
      {
        ShortDelimiterRun(d, l, pieces, cs, released);
      }
    } else {
      var pieces, cs, released := LongDelimiterFails(d, l);
    }
  }

  // What the mode is for: a delimiter in the stream is found.
  ghost predicate FoundLaw(d: seq<Byte>, l: Limits)
    requires d != [] && l.Valid()
  {
    forall pieces, cs, released | Reaches(d, l, pieces, cs, released) :: First(Tokens.Join(pieces), d, 0).None?
  }

  // That, too, holds exactly when the delimiter has at most two bytes.
  lemma FoundLawExactly(d: seq<Byte>, l: Limits)
    requires d != [] && l.Valid() && l.maxChunks >= 3 && Fits(d, l)
    ensures FoundLaw(d, l) <==> |d| <= 2
  {
    hide Reaches, Fits, First;
    if |d| <= 2 {
      forall pieces, cs, released | Reaches(d, l, pieces, cs, released)
        ensures First(Tokens.Join(pieces), d, 0).None?
      {
        ShortDelimiterRun(d, l, pieces, cs, released);
      }
    } else {
      var pieces, cs, released := DelimiterMissed(d, l);
    }
  }
}
