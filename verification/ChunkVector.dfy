// The chunk vector behind an in-memory B_Chunks: what bytes it holds, and the
// searches by offset that read it (Memory/b_chunk.h, Memory/b_chunks.cpp).
module ChunkVector {
  import opened Common

  datatype Chunk = Chunk(data: seq<Byte>, offset: nat) {
    function NextOffset(): nat {
      Add64(|data|, offset)
    }

    predicate ContainsOffset(o: nat) {
      offset <= o < NextOffset()
    }

    // Drops the first n bytes; the stored offset is left as it was.
    function Displace(n: nat): Chunk
      requires n < |data|
    {
      this.(data := data[n..])
    }

    // Cuts the chunk at an absolute offset, unless that offset does not fall strictly inside.
    function Truncate(n: nat): Chunk
      requires offset <= n
    {
      if n >= offset + |data| || n == 0 || n == offset then this
      else this.(data := data[..n - offset])
    }
  }

  // The byte sequence a chunk vector stands for.
  function Flatten(cs: seq<Chunk>): seq<Byte> {
    if cs == [] then [] else cs[0].data + Flatten(cs[1..])
  }

  // No chunk is empty, and every chunk fits in memory.
  predicate WellSized(cs: seq<Chunk>) {
    forall i {:trigger cs[i].data} | 0 <= i < |cs| :: 0 < |cs[i].data| < SIZE_LIMIT
  }

  // Every chunk is stored with the position of its first byte.
  ghost predicate Contiguous(cs: seq<Chunk>) {
    forall i {:trigger cs[i].offset} | 0 <= i < |cs| :: cs[i].offset == |Flatten(cs[..i])|
  }

  lemma {:induction false} FlattenConcat(a: seq<Chunk>, b: seq<Chunk>)
    ensures Flatten(a + b) == Flatten(a) + Flatten(b)
  {
    if a == [] {
      assert a + b == b;
    } else {
      FlattenConcat(a[1..], b);
      assert (a + b)[1..] == a[1..] + b;
      ConcatAssoc(a[0].data, Flatten(a[1..]), Flatten(b));
    }
  }

  lemma FlattenSplit(cs: seq<Chunk>, i: nat)
    requires i <= |cs|
    ensures Flatten(cs) == Flatten(cs[..i]) + Flatten(cs[i..])
  {
    assert cs == cs[..i] + cs[i..];
    FlattenConcat(cs[..i], cs[i..]);
  }

  lemma FlattenNext(cs: seq<Chunk>, i: nat)
    requires i < |cs|
    ensures Flatten(cs[..i + 1]) == Flatten(cs[..i]) + cs[i].data
    ensures Flatten(cs[i..]) == cs[i].data + Flatten(cs[i + 1..])
  {
    assert cs[..i + 1] == cs[..i] + [cs[i]];
    FlattenConcat(cs[..i], [cs[i]]);
    assert cs[i..][1..] == cs[i + 1..];
  }

  lemma FlattenAll(cs: seq<Chunk>)
    ensures cs[..|cs|] == cs
    ensures Flatten(cs[|cs|..]) == []
  {
  }

  // Chunk i holds the bytes of the whole content from its starting point on.
  lemma FlattenSlice(cs: seq<Chunk>, i: nat)
    requires i < |cs|
    ensures |Flatten(cs[..i + 1])| == |Flatten(cs[..i])| + |cs[i].data| <= |Flatten(cs)|
    ensures Flatten(cs)[|Flatten(cs[..i])|..|Flatten(cs[..i])| + |cs[i].data|] == cs[i].data
  {
    FlattenSplit(cs, i);
    FlattenNext(cs, i);
  }

  lemma FlattenMonotone(cs: seq<Chunk>, i: nat, j: nat)
    requires i <= j <= |cs|
    ensures |Flatten(cs[..i])| <= |Flatten(cs[..j])|
  {
    FlattenSplit(cs[..j], i);
    assert cs[..j][..i] == cs[..i];
  }

  // ---- Binary search by offset --------------------------------------------

  // The next probe of the search. Its rounding keeps it inside [lo, hi].
  function Probe(lo: nat, hi: nat): (p: nat)
    requires lo <= hi
    ensures lo <= p <= hi
  {
    if lo == hi then lo else lo + (hi + 1 - lo) / 2 - (hi - lo) % 2
  }

  // The recursion of I_Chunk_GetPosForOffset. It terminates on every vector,
  // whatever offsets are stored in it, and a chunk it reports claims the offset.
  function SearchChunk(cs: seq<Chunk>, offset: nat, pos: nat, hi: nat, lo: nat): (r: Option<nat>)
    requires lo <= pos <= hi < |cs|
    ensures r.Some? ==> lo <= r.value <= hi && cs[r.value].ContainsOffset(offset)
    decreases hi - lo
  {
    if cs[pos].ContainsOffset(offset) then Some(pos)
    else if offset < cs[pos].offset then
      if pos == lo then None
      else SearchChunk(cs, offset, Probe(lo, pos - 1), pos - 1, lo)
    else
      if pos == hi then None
      else SearchChunk(cs, offset, Probe(pos + 1, hi), hi, pos + 1)
  }

  function FindChunk(cs: seq<Chunk>, offset: nat): (r: Option<nat>)
    ensures r.Some? ==> r.value < |cs| && cs[r.value].ContainsOffset(offset)
  {
    if |cs| == 0 then None
    else if |cs| == 1 then SearchChunk(cs, offset, 0, 0, 0)
    else SearchChunk(cs, offset, |cs| / 2 - 1, |cs| - 1, 0)
  }

  // On a contiguous vector the chunks are disjoint intervals in increasing order.
  lemma ContiguousBounds(cs: seq<Chunk>, i: nat)
    requires Contiguous(cs) && |Flatten(cs)| < SIZE_LIMIT && i < |cs|
    ensures cs[i].NextOffset() == |Flatten(cs[..i + 1])| <= |Flatten(cs)|
    ensures i + 1 < |cs| ==> cs[i + 1].offset == cs[i].NextOffset()
  {
    FlattenNext(cs, i);
    FlattenMonotone(cs, i + 1, |cs|);
    assert cs[..|cs|] == cs;
  }

  // Neighbours fit together and no end wraps around.
  ghost predicate Linked(cs: seq<Chunk>) {
    && (forall i {:trigger cs[i].NextOffset()} | 0 <= i < |cs| :: cs[i].NextOffset() == cs[i].offset + |cs[i].data|)
    && (forall i {:trigger cs[i].NextOffset()} | 0 <= i < |cs| - 1 :: cs[i + 1].offset == cs[i].NextOffset())
  }

  lemma ContiguousLinked(cs: seq<Chunk>)
    requires Contiguous(cs) && |Flatten(cs)| < SIZE_LIMIT
    ensures Linked(cs)
    ensures cs != [] ==> cs[0].offset == 0 && cs[|cs| - 1].NextOffset() == |Flatten(cs)|
  {
    forall i | 0 <= i < |cs|
      ensures cs[i].NextOffset() == cs[i].offset + |cs[i].data|
      ensures i < |cs| - 1 ==> cs[i + 1].offset == cs[i].NextOffset()
    {
      ContiguousBounds(cs, i);
      FlattenNext(cs, i);
    }
    if cs != [] {
      ContiguousBounds(cs, |cs| - 1);
      assert cs[..|cs|] == cs && cs[..0] == [];
    }
  }

  lemma {:induction false} SearchChunkCorrect(cs: seq<Chunk>, offset: nat, pos: nat, hi: nat, lo: nat)
    requires Linked(cs) && lo <= pos <= hi < |cs|
    requires cs[lo].offset <= offset < cs[hi].NextOffset()
    ensures SearchChunk(cs, offset, pos, hi, lo).Some?
    decreases hi - lo
  {
    if cs[pos].ContainsOffset(offset) {
    } else if offset < cs[pos].offset {
      assert cs[pos - 1].NextOffset() == cs[pos].offset;
      SearchChunkCorrect(cs, offset, Probe(lo, pos - 1), pos - 1, lo);
    } else {
      assert cs[pos + 1].offset == cs[pos].NextOffset();
      SearchChunkCorrect(cs, offset, Probe(pos + 1, hi), hi, pos + 1);
    }
  }

  lemma ChunksOrdered(cs: seq<Chunk>, i: nat, j: nat)
    requires Contiguous(cs) && |Flatten(cs)| < SIZE_LIMIT && i < j < |cs|
    ensures cs[i].NextOffset() <= cs[j].offset
  {
    ContiguousBounds(cs, i);
    FlattenMonotone(cs, i + 1, j);
  }

  // At most one chunk of a contiguous vector claims an offset.
  lemma ChunkOfOffsetUnique(cs: seq<Chunk>, offset: nat, i: nat, j: nat)
    requires Contiguous(cs) && |Flatten(cs)| < SIZE_LIMIT
    requires i < |cs| && cs[i].ContainsOffset(offset)
    requires j < |cs| && cs[j].ContainsOffset(offset)
    ensures i == j
  {
    if i < j {
      ChunksOrdered(cs, i, j);
    } else if j < i {
      ChunksOrdered(cs, j, i);
    }
  }

  // The search finds the one chunk that holds an offset, and finds it exactly
  // when the offset is below the size.
  lemma FindChunkCorrect(cs: seq<Chunk>, offset: nat)
    requires Contiguous(cs) && |Flatten(cs)| < SIZE_LIMIT
    ensures FindChunk(cs, offset).Some? <==> offset < |Flatten(cs)|
    ensures FindChunk(cs, offset).Some? ==>
              var i := FindChunk(cs, offset).value;
              && i < |cs|
              && |Flatten(cs[..i])| <= offset < |Flatten(cs[..i])| + |cs[i].data|
              && forall j | 0 <= j < |cs| && cs[j].ContainsOffset(offset) :: j == i
  {
    if |cs| > 0 {
      ContiguousLinked(cs);
      if offset < |Flatten(cs)| {
        SearchChunkCorrect(cs, offset, if |cs| == 1 then 0 else |cs| / 2 - 1, |cs| - 1, 0);
      }
      if FindChunk(cs, offset).Some? {
        var i := FindChunk(cs, offset).value;
        ContiguousBounds(cs, i);
        FlattenNext(cs, i);
        forall j | 0 <= j < |cs| && cs[j].ContainsOffset(offset)
          ensures j == i
        {
          ChunkOfOffsetUnique(cs, offset, i, j);
        }
      }
    }
  }

  // ---- Reads by offset ----------------------------------------------------

  // What copyToBuffer2 copies out: it starts inside the chunk that claims the
  // offset and walks on chunk by chunk. Fewer bytes come out if the vector ends first.
  function ReadAt(cs: seq<Chunk>, bytes: nat, offset: nat): Option<seq<Byte>>
    requires WellSized(cs)
  {
    var pos := FindChunk(cs, offset);
    if pos.None? then None
    else
      var from := FromChunk(cs, pos.value, offset - cs[pos.value].offset);
      Some(from[..Min(bytes, |from|)])
  }

  // The bytes from position `skip` of chunk i to the end.
  function FromChunk(cs: seq<Chunk>, i: nat, skip: nat): seq<Byte>
    requires i < |cs| && skip <= |cs[i].data|
  {
    cs[i].data[skip..] + Flatten(cs[i + 1..])
  }

  lemma FromChunkIsSuffix(cs: seq<Chunk>, i: nat, skip: nat)
    requires i < |cs| && skip <= |cs[i].data|
    ensures |Flatten(cs[..i])| + skip <= |Flatten(cs)|
    ensures FromChunk(cs, i, skip) == Flatten(cs)[|Flatten(cs[..i])| + skip..]
  {
    FlattenSplit(cs, i);
    FlattenNext(cs, i);
  }

  lemma ReadAtFound(cs: seq<Chunk>, bytes: nat, offset: nat, i: nat)
    requires WellSized(cs)
    requires FindChunk(cs, offset) == Some(i)
    requires cs[i].offset == |Flatten(cs[..i])|
    requires offset + bytes <= |Flatten(cs)|
    ensures ReadAt(cs, bytes, offset) == Some(Flatten(cs)[offset..offset + bytes])
  {
    hide FindChunk, Flatten, FromChunk;
    FromChunkIsSuffix(cs, i, offset - cs[i].offset);
    SliceOfSuffix(Flatten(cs), offset, bytes);
  }

  // On a contiguous vector a read returns exactly the bytes it names.
  lemma ReadAtContiguous(cs: seq<Chunk>, bytes: nat, offset: nat)
    requires WellSized(cs) && Contiguous(cs) && |Flatten(cs)| < SIZE_LIMIT
    requires offset + bytes <= |Flatten(cs)| && 0 < bytes
    ensures ReadAt(cs, bytes, offset) == Some(Flatten(cs)[offset..offset + bytes])
  {
    FindChunkCorrect(cs, offset);
    ReadAtFound(cs, bytes, offset, FindChunk(cs, offset).value);
  }
}
