// Whole histories of container calls: the chunk vector refines a plain byte
// sequence (Memory/b_base.cpp in front of Memory/b_chunks.cpp).
module ChunkHistories {
  import opened Common
  import opened ChunkVector
  import opened ChunkUpdates
  import opened ChunkedContainer

  datatype Limits = Limits(maxSize: nat, chunkSize: nat, maxChunks: nat) {
    predicate Valid() {
      maxSize < SIZE_LIMIT && 0 < chunkSize < SIZE_LIMIT
    }
  }

  datatype Call =
    | Append(data: seq<Byte>)
    | Prepend(data: seq<Byte>)
    | Displace(count: nat)
    | Truncate(size: nat)
    | Clear

  // One call on the chunk vector, as the container's methods do it.
  ghost function Apply(cs: seq<Chunk>, c: Call, l: Limits): seq<Chunk>
    requires WellSized(cs) && l.Valid()
  {
    match c
    case Append(data) =>
      if data == [] || |data| + |Flatten(cs)| > l.maxSize then cs
      else AppendChunks(cs, data, l.chunkSize, l.maxChunks)
    case Prepend(data) =>
      if data == [] || |data| + |Flatten(cs)| > l.maxSize then cs
      else PrependChunks(cs, data, l.chunkSize, l.maxChunks)
    case Displace(count) =>
      DisplaceChunks(cs, Min(count, |Flatten(cs)|))
    case Truncate(size) =>
      if size >= |Flatten(cs)| || TruncateChunks(cs, size).None? then cs
      else TruncateChunks(cs, size).value
    case Clear => []
  }

  // The same call on a byte sequence; `chunks` is the number of chunks in use,
  // which only matters once they run out.
  function ApplyToBytes(s: seq<Byte>, c: Call, l: Limits, chunks: nat): seq<Byte> {
    match c
    case Append(data) =>
      if |data| + |s| > l.maxSize then s
      else s + data[..Storable(|data|, chunks, l.chunkSize, l.maxChunks)]
    case Prepend(data) =>
      if |data| + |s| > l.maxSize then s
      else data[..Storable(|data|, chunks, l.chunkSize, l.maxChunks)] + s
    case Displace(count) => s[Min(count, |s|)..]
    case Truncate(size) => if size >= |s| then s else s[..size]
    case Clear => []
  }

  ghost predicate SoundChunks(cs: seq<Chunk>) {
    WellSized(cs) && |Flatten(cs)| < SIZE_LIMIT
  }

  // A truncation finds its chunk by offset, so it needs the offsets to be right (see
  // DisplaceKeepsCuts), and a prepend longer than a chunk would change the order of its
  // bytes.
  ghost predicate Meets(cs: seq<Chunk>, c: Call, l: Limits) {
    match c
    case Append(data) => |data| < SIZE_LIMIT
    case Prepend(data) => |data| <= l.chunkSize
    case Displace(_) => true
    case Truncate(_) => Contiguous(cs)
    case Clear => true
  }

  lemma AppendRefines(cs: seq<Chunk>, data: seq<Byte>, l: Limits)
    requires l.Valid() && SoundChunks(cs)
    ensures SoundChunks(Apply(cs, Append(data), l))
    ensures Flatten(Apply(cs, Append(data), l)) == ApplyToBytes(Flatten(cs), Append(data), l, |cs|)
    ensures Contiguous(cs) ==> Contiguous(Apply(cs, Append(data), l))
  {
    if data != [] && |data| + |Flatten(cs)| <= l.maxSize {
      AppendChunksMeaning(cs, data, l.chunkSize, l.maxChunks);
    }
  }

  lemma PrependRefines(cs: seq<Chunk>, data: seq<Byte>, l: Limits)
    requires l.Valid() && SoundChunks(cs) && |data| <= l.chunkSize
    ensures SoundChunks(Apply(cs, Prepend(data), l))
    ensures Flatten(Apply(cs, Prepend(data), l)) == ApplyToBytes(Flatten(cs), Prepend(data), l, |cs|)
  {
    if data != [] && |data| + |Flatten(cs)| <= l.maxSize {
      var stored := data[..Storable(|data|, |cs|, l.chunkSize, l.maxChunks)];
      PrependChunksMeaning(cs, data, l.chunkSize, l.maxChunks);
      assert ReversedPieces(stored, l.chunkSize) == stored by {
        PrependKeepsOrder(|stored|, l.chunkSize);
      }
    }
  }

  // One call keeps the chunks and the byte sequence in step.
  lemma ApplyRefines(cs: seq<Chunk>, c: Call, l: Limits)
    requires l.Valid() && SoundChunks(cs) && Meets(cs, c, l)
    ensures SoundChunks(Apply(cs, c, l))
    ensures Flatten(Apply(cs, c, l)) == ApplyToBytes(Flatten(cs), c, l, |cs|)
  {
    match c
    case Append(data) =>
      AppendRefines(cs, data, l);
    case Prepend(data) =>
      PrependRefines(cs, data, l);
    case Displace(count) =>
      DisplaceChunksMeaning(cs, Min(count, |Flatten(cs)|));
    case Truncate(size) =>
      TruncateChunksMeaning(cs, size);
    case Clear =>
  }

  // The calls that leave right offsets right.
  predicate KeepsOffsets(cs: seq<Chunk>, c: Call, l: Limits) {
    match c
    case Append(_) => true
    case Prepend(data) => data == [] || |data| + |Flatten(cs)| > l.maxSize || |cs| >= l.maxChunks || cs == []
    case Displace(count) =>
      var n := Min(count, |Flatten(cs)|);
      |DropBytes(cs, n)| <= 1 || (n == 0 && BogusOffset(cs) == 0)
    case Truncate(_) => true
    case Clear => true
  }

  // Those and no others.
  lemma ApplyKeepsOffsets(cs: seq<Chunk>, c: Call, l: Limits)
    requires l.Valid() && SoundChunks(cs) && Contiguous(cs) && Meets(cs, c, l)
    ensures Contiguous(Apply(cs, c, l)) <==> KeepsOffsets(cs, c, l)
  {
    hide Contiguous, Flatten, DropBytes;
    match c
    case Append(data) =>
      AppendRefines(cs, data, l);
    case Prepend(data) =>
      if data != [] && |cs| < l.maxChunks {
        PrependKeepsOffsets(cs, data, l.chunkSize, l.maxChunks);
      }
    case Displace(count) =>
      DisplaceKeepsOffsets(cs, Min(count, |Flatten(cs)|));
    case Truncate(size) =>
      TruncateChunksMeaning(cs, size);
    case Clear =>
      NoChunksContiguous();
  }

  lemma NoChunksContiguous()
    ensures Contiguous([]) && SoundChunks([]) && Flatten([]) == []
  {
  }

  // ---- Histories -------------------------------------------------------------

  // A history, from an empty container, in which each call meets what it needs.
  ghost predicate Orderly(calls: seq<Call>, l: Limits)
    requires l.Valid()
    decreases |calls|, 0
  {
    calls == [] ||
    (var before := calls[..|calls| - 1];
     Orderly(before, l) && Meets(Run(before, l), calls[|calls| - 1], l))
  }

  // The vector a history ends with.
  ghost function Run(calls: seq<Call>, l: Limits): (cs: seq<Chunk>)
    requires l.Valid() && Orderly(calls, l)
    ensures SoundChunks(cs)
    decreases |calls|, 1
  {
    if calls == [] then []
    else
      var cs := Run(calls[..|calls| - 1], l);
      var last := calls[|calls| - 1];
      ApplyRefines(cs, last, l);
      Apply(cs, last, l)
  }

  // The byte sequence the history describes.
  ghost function RunOnBytes(calls: seq<Call>, l: Limits): seq<Byte>
    requires l.Valid() && Orderly(calls, l)
    decreases |calls|
  {
    if calls == [] then []
    else
      var before := calls[..|calls| - 1];
      ApplyToBytes(RunOnBytes(before, l), calls[|calls| - 1], l, |Run(before, l)|)
  }

  // After every such history the chunks spell the byte sequence.
  lemma {:induction false} HistoryRefines(calls: seq<Call>, l: Limits)
    requires l.Valid() && Orderly(calls, l)
    ensures Flatten(Run(calls, l)) == RunOnBytes(calls, l)
    decreases |calls|
  {
    hide Apply, ApplyToBytes, Flatten, SoundChunks, Meets;
    if calls == [] {
      NoChunksContiguous();
    } else {
      var before := calls[..|calls| - 1];
      HistoryRefines(before, l);
      ApplyRefines(Run(before, l), calls[|calls| - 1], l);
    }
  }

  // Every call of the history left right offsets right.
  ghost predicate Steady(calls: seq<Call>, l: Limits)
    requires l.Valid() && Orderly(calls, l)
    decreases |calls|
  {
    calls == [] ||
    (var before := calls[..|calls| - 1];
     Steady(before, l) && KeepsOffsets(Run(before, l), calls[|calls| - 1], l))
  }

  // After a steady history, whatever its mix of calls, every read by offset returns
  // exactly the named bytes of that sequence, and an offset has a chunk exactly when
  // it is below the size.
  lemma HistoryReads(calls: seq<Call>, l: Limits)
    requires l.Valid() && Orderly(calls, l) && Steady(calls, l)
    ensures Contiguous(Run(calls, l)) && ReadsRight(Run(calls, l)) && Flatten(Run(calls, l)) == RunOnBytes(calls, l)
    ensures forall offset: nat :: FindChunk(Run(calls, l), offset).Some? <==> offset < |RunOnBytes(calls, l)|
  {
    hide Contiguous, ReadAt, FindChunk, Flatten;
    var cs := Run(calls, l);
    HistoryRefines(calls, l);
    SteadyOffsets(calls, l);
    forall offset: nat
      ensures FindChunk(cs, offset).Some? <==> offset < |Flatten(cs)|
    {
      FindChunkCorrect(cs, offset);
    }
    forall bytes: nat, offset: nat | 0 < bytes && offset + bytes <= |Flatten(cs)|
      ensures ReadAt(cs, bytes, offset) == Some(Flatten(cs)[offset..offset + bytes])
    {
      ReadAtContiguous(cs, bytes, offset);
    }
  }

  lemma {:induction false} SteadyOffsets(calls: seq<Call>, l: Limits)
    requires l.Valid() && Orderly(calls, l) && Steady(calls, l)
    ensures Contiguous(Run(calls, l))
    decreases |calls|
  {
    hide Apply, SoundChunks, Meets, KeepsOffsets, Contiguous;
    if calls == [] {
      NoChunksContiguous();
    } else {
      var before := calls[..|calls| - 1];
      SteadyOffsets(before, l);
      ApplyKeepsOffsets(Run(before, l), calls[|calls| - 1], l);
    }
  }

  // Appends, truncations and clears only: always orderly and steady.
  lemma {:induction false} AppendsAndCutsSteady(calls: seq<Call>, l: Limits)
    requires l.Valid()
    requires forall c | c in calls :: (c.Append? && |c.data| < SIZE_LIMIT) || c.Truncate? || c.Clear?
    ensures Orderly(calls, l) && Steady(calls, l)
    decreases |calls|
  {
    hide Contiguous;
    if calls != [] {
      var before := calls[..|calls| - 1];
      assert forall c | c in before :: c in calls;
      assert calls[|calls| - 1] in calls;
      AppendsAndCutsSteady(before, l);
      SteadyOffsets(before, l);
    }
  }

  // Appends, prepends of at most a chunk, displaces and clears only: always orderly.
  lemma {:induction false} NoCutsOrderly(calls: seq<Call>, l: Limits)
    requires l.Valid()
    requires forall c | c in calls ::
               || (c.Append? && |c.data| < SIZE_LIMIT) || (c.Prepend? && |c.data| <= l.chunkSize)
               || c.Displace? || c.Clear?
    ensures Orderly(calls, l)
    decreases |calls|
  {
    if calls != [] {
      var before := calls[..|calls| - 1];
      assert forall c | c in before :: c in calls;
      assert calls[|calls| - 1] in calls;
      NoCutsOrderly(before, l);
    }
  }

  // ---- The container through a history -----------------------------------------

  method PerformOne(c: Container, call: Call)
    requires c.Valid() && Meets(c.chunks, call, LimitsOf(c))
    modifies c
    ensures c.Valid() && LimitsOf(c) == old(LimitsOf(c))
    ensures c.chunks == Apply(old(c.chunks), call, LimitsOf(c))
  {
    match call {
      case Append(data) =>
        var r := c.Append(data);
      case Prepend(data) =>
        var r := c.Prepend(data);
      case Displace(count) =>
        var n := c.Displace(count);
      case Truncate(size) =>
        var r := c.Truncate(size);
      case Clear =>
        c.Clear();
    }
  }

  // The methods of a new container, called in any orderly sequence.
  method Perform(c: Container, calls: seq<Call>)
    requires c.Valid() && c.chunks == [] && Orderly(calls, LimitsOf(c))
    modifies c
    ensures c.Valid() && LimitsOf(c) == old(LimitsOf(c))
    ensures c.chunks == Run(calls, LimitsOf(c)) && c.Bytes() == RunOnBytes(calls, LimitsOf(c))
  {
    hide Apply, Meets;
    ghost var l := LimitsOf(c);
    for i := 0 to |calls|
      invariant c.Valid() && LimitsOf(c) == l
      invariant Orderly(calls[..i], l) && c.chunks == Run(calls[..i], l)
    {
      OrderlyPrefix(calls, l, i + 1);
      assert calls[..i + 1][..i] == calls[..i];
      PerformOne(c, calls[i]);
    }
    assert calls[..|calls|] == calls;
    HistoryRefines(calls, l);
  }

  ghost function LimitsOf(c: Container): Limits
    requires c.Valid()
    reads c
    ensures LimitsOf(c).Valid()
  {
    Limits(c.maxSize, c.maxChunkSize, c.maxChunks)
  }

  lemma {:induction false} OrderlyPrefix(calls: seq<Call>, l: Limits, i: nat)
    requires l.Valid() && Orderly(calls, l) && i <= |calls|
    ensures Orderly(calls[..i], l)
    decreases |calls|
  {
    if i < |calls| {
      assert calls[..|calls| - 1][..i] == calls[..i];
      OrderlyPrefix(calls[..|calls| - 1], l, i);
    } else {
      assert calls[..i] == calls;
    }
  }
}
