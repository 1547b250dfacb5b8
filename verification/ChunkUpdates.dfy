// What append, prepend, displace and truncate do to a chunk vector, as
// functions, with their effect on the bytes and on the stored offsets
// (Memory/b_chunks.cpp).
module ChunkUpdates {
  import opened Common
  import opened ChunkVector

  function NextChunkOffset(cs: seq<Chunk>): nat {
    if cs == [] then 0 else cs[|cs| - 1].NextOffset()
  }

  // New data is cut into chunks of at most `m` bytes until the chunk limit is met.
  function AppendChunks(cs: seq<Chunk>, data: seq<Byte>, m: nat, limit: nat): seq<Chunk>
    requires 0 < m
    decreases |data|
  {
    if data == [] || |cs| + 1 > limit then cs
    else
      var k := Min(|data|, m);
      AppendChunks(cs + [Chunk(data[..k], NextChunkOffset(cs))], data[k..], m, limit)
  }

  // In prepend mode each piece goes in front of the previous one. Offsets are
  // recalculated only when all the data was stored.
  function PrependChunks(cs: seq<Chunk>, data: seq<Byte>, m: nat, limit: nat): seq<Chunk>
    requires 0 < m
    decreases |data|
  {
    if data == [] then Recalculate(cs)
    else if |cs| + 1 > limit then cs
    else
      var k := Min(|data|, m);
      PrependChunks([Chunk(data[..k], 0)] + cs, data[k..], m, limit)
  }

  // recalcChunkOffsets never moves its pointer: only the first chunk is given a
  // new offset, once for every chunk of the vector.
  function Recalculate(cs: seq<Chunk>): seq<Chunk> {
    if cs == [] then cs else cs[0 := cs[0].(offset := BogusOffset(cs))]
  }

  function BogusOffset(cs: seq<Chunk>): nat
    requires cs != []
  {
    ((|cs| - 1) * |cs[0].data|) % SIZE_LIMIT
  }

  function DropBytes(cs: seq<Chunk>, n: nat): seq<Chunk> {
    if n == 0 || cs == [] then cs
    else if n >= |cs[0].data| then DropBytes(cs[1..], n - |cs[0].data|)
    else [cs[0].Displace(n)] + cs[1..]
  }

  function DisplaceChunks(cs: seq<Chunk>, n: nat): seq<Chunk> {
    Recalculate(DropBytes(cs, n))
  }

  // How many of `len` bytes fit in the chunks that may still be created.
  function Storable(len: nat, chunks: nat, m: nat, limit: nat): (k: nat)
    ensures k <= len
  {
    if chunks >= limit then 0 else Min(len, (limit - chunks) * m)
  }

  lemma StorableStep(len: nat, chunks: nat, m: nat, limit: nat)
    requires 0 < m && chunks < limit
    ensures Storable(len, chunks, m, limit) == Min(len, m) + Storable(len - Min(len, m), chunks + 1, m, limit)
  {
    var n := limit - chunks;
    OneFewer(n, m);
    assert limit - (chunks + 1) == n - 1;
  }

  lemma NothingStorable(len: nat, chunks: nat, m: nat, limit: nat)
    requires len == 0 || chunks >= limit
    ensures Storable(len, chunks, m, limit) == 0
  {
  }

  lemma OneFewer(n: nat, m: nat)
    requires 0 < n
    ensures n * m == m + (n - 1) * m
    ensures (n - 1) * m >= 0
  {
  }

  // Room for `len` bytes is room for fewer, and for fewer chunks in use.
  lemma StorableMonotone(len: nat, chunks: nat, m: nat, limit: nat, len': nat, chunks': nat)
    requires Storable(len, chunks, m, limit) == len && len' <= len && chunks' <= chunks
    ensures Storable(len', chunks', m, limit) == len'
  {
    if len' > 0 {
      var n, n' := limit - chunks, limit - chunks';
      assert n' * m == n * m + (n' - n) * m;
      assert (n' - n) * m >= 0;
    }
  }

  // One new chunk at the end, or at the front under offset 0.
  function AddChunk(cs: seq<Chunk>, piece: seq<Byte>, prependMode: bool): seq<Chunk> {
    if prependMode then [Chunk(piece, 0)] + cs else cs + [Chunk(piece, NextChunkOffset(cs))]
  }

  function GrowChunks(cs: seq<Chunk>, data: seq<Byte>, m: nat, limit: nat, prependMode: bool): seq<Chunk>
    requires 0 < m
  {
    if prependMode then PrependChunks(cs, data, m, limit) else AppendChunks(cs, data, m, limit)
  }

  lemma GrowStep(cs: seq<Chunk>, data: seq<Byte>, m: nat, limit: nat, prependMode: bool)
    requires WellSized(cs) && 0 < m < SIZE_LIMIT && data != [] && |cs| < limit
    ensures var k := Min(|data|, m);
            var r := AddChunk(cs, data[..k], prependMode);
            && WellSized(r)
            && |Flatten(r)| == |Flatten(cs)| + k
            && GrowChunks(r, data[k..], m, limit, prependMode) == GrowChunks(cs, data, m, limit, prependMode)
            && k + Storable(|data| - k, |r|, m, limit) == Storable(|data|, |cs|, m, limit)
  {
    var k := Min(|data|, m);
    StorableStep(|data|, |cs|, m, limit);
    if prependMode {
      assert AddChunk(cs, data[..k], true)[1..] == cs;
    } else {
      AppendOneChunk(cs, data[..k]);
    }
  }

  // ---- Append --------------------------------------------------------------

  lemma AppendOneChunk(cs: seq<Chunk>, piece: seq<Byte>)
    requires WellSized(cs) && 0 < |piece| < SIZE_LIMIT
    ensures var r := cs + [Chunk(piece, NextChunkOffset(cs))];
            && Flatten(r) == Flatten(cs) + piece
            && WellSized(r)
            && (Contiguous(cs) && |Flatten(cs)| + |piece| < SIZE_LIMIT ==> Contiguous(r))
  {
    hide Flatten;
    var last := Chunk(piece, NextChunkOffset(cs));
    FlattenConcat(cs, [last]);
    OneChunkBytes(last);
    if Contiguous(cs) && |Flatten(cs)| + |piece| < SIZE_LIMIT {
      LastChunkOffset(cs);
      forall i | 0 <= i < |cs + [last]|
        ensures (cs + [last])[i].offset == |Flatten((cs + [last])[..i])|
      {
        assert (cs + [last])[..i] == cs[..i];
      }
    }
  }

  lemma OneChunkBytes(c: Chunk)
    ensures Flatten([c]) == c.data
  {
    assert [c][1..] == [];
  }

  lemma LastChunkOffset(cs: seq<Chunk>)
    requires Contiguous(cs) && |Flatten(cs)| < SIZE_LIMIT
    ensures NextChunkOffset(cs) == |Flatten(cs)| && cs[..|cs|] == cs
  {
    if cs != [] {
      ContiguousBounds(cs, |cs| - 1);
      assert cs[..|cs|] == cs;
    }
  }

  lemma JoinPieces(data: seq<Byte>, k: nat, rest: nat)
    requires k + rest <= |data|
    ensures data[..k] + data[k..][..rest] == data[..k + rest]
  {
  }

  // Appending adds a prefix of the data at the end, as long as chunks are left,
  // and keeps the offsets contiguous.
  lemma {:induction false} AppendChunksMeaning(cs: seq<Chunk>, data: seq<Byte>, m: nat, limit: nat)
    requires 0 < m < SIZE_LIMIT && WellSized(cs)
    ensures var r := AppendChunks(cs, data, m, limit);
            && Flatten(r) == Flatten(cs) + data[..Storable(|data|, |cs|, m, limit)]
            && WellSized(r)
            && (Contiguous(cs) && |Flatten(cs)| + |data| < SIZE_LIMIT ==> Contiguous(r))
    decreases |data|
  {
    hide Flatten, WellSized, Contiguous, Storable;
    if data == [] || |cs| + 1 > limit {
      NothingStorable(|data|, |cs|, m, limit);
      assert data[..0] == [];
    } else {
      var k := Min(|data|, m);
      var cs' := cs + [Chunk(data[..k], NextChunkOffset(cs))];
      AppendOneChunk(cs, data[..k]);
      AppendChunksMeaning(cs', data[k..], m, limit);
      StorableStep(|data|, |cs|, m, limit);
      var rest := Storable(|data| - k, |cs| + 1, m, limit);
      JoinPieces(data, k, rest);
      ConcatAssoc(Flatten(cs), data[..k], data[k..][..rest]);
    }
  }

  // ---- Prepend -------------------------------------------------------------

  // The order in which a prepend leaves pieces longer than one chunk.
  ghost function ReversedPieces(data: seq<Byte>, m: nat): seq<Byte>
    requires 0 < m
    decreases |data|
  {
    if data == [] then []
    else ReversedPieces(data[Min(|data|, m)..], m) + data[..Min(|data|, m)]
  }

  lemma RecalculateKeepsBytes(cs: seq<Chunk>)
    ensures Flatten(Recalculate(cs)) == Flatten(cs)
    ensures WellSized(cs) ==> WellSized(Recalculate(cs))
  {
    if cs != [] {
      assert Recalculate(cs)[1..] == cs[1..];
    }
  }

  lemma PrependPiece(data: seq<Byte>, k: nat, rest: nat, m: nat)
    requires 0 < m && k == Min(|data|, m) && k + rest <= |data|
    ensures ReversedPieces(data[..k + rest], m) == ReversedPieces(data[k..][..rest], m) + data[..k]
  {
    var stored := data[..k + rest];
    if data == [] {
      assert data[k..][..rest] == [];
    } else {
      assert stored[..k] == data[..k] && stored[k..] == data[k..][..rest];
      assert Min(|stored|, m) == k;
    }
  }

  lemma {:induction false} PrependChunksMeaning(cs: seq<Chunk>, data: seq<Byte>, m: nat, limit: nat)
    requires 0 < m < SIZE_LIMIT && WellSized(cs)
    ensures var r := PrependChunks(cs, data, m, limit);
            && Flatten(r) == ReversedPieces(data[..Storable(|data|, |cs|, m, limit)], m) + Flatten(cs)
            && WellSized(r)
    decreases |data|
  {
    if data == [] {
      RecalculateKeepsBytes(cs);
    } else if |cs| + 1 > limit {
      assert data[..0] == [];
    } else {
      hide Flatten, Recalculate, ReversedPieces;
      var k := Min(|data|, m);
      var rest := Storable(|data| - k, |cs| + 1, m, limit);
      GrowStep(cs, data, m, limit, true);
      PrependChunksMeaning(AddChunk(cs, data[..k], true), data[k..], m, limit);
      PrependPiece(data, k, rest, m);
      FrontChunk(cs, data[..k]);
      ConcatAssoc(ReversedPieces(data[k..][..rest], m), data[..k], Flatten(cs));
      assert Flatten(PrependChunks(cs, data, m, limit)) == ReversedPieces(data[..k + rest], m) + Flatten(cs);
    }
  }

  lemma FrontChunk(cs: seq<Chunk>, piece: seq<Byte>)
    ensures Flatten(AddChunk(cs, piece, true)) == piece + Flatten(cs)
  {
    assert AddChunk(cs, piece, true)[1..] == cs;
  }

  lemma {:induction false} ReversedPiecesLength(data: seq<Byte>, m: nat)
    requires 0 < m
    ensures |ReversedPieces(data, m)| == |data|
    decreases |data|
  {
    if data != [] {
      ReversedPiecesLength(data[Min(|data|, m)..], m);
    }
  }

  // A prepend puts every data of length n in front in its own order exactly
  // when n bytes fit in one chunk.
  lemma PrependKeepsOrder(n: nat, m: nat)
    requires 0 < m
    ensures (forall data: seq<Byte> | |data| == n :: ReversedPieces(data, m) == data) <==> n <= m
  {
    if n <= m {
      forall data: seq<Byte> | |data| == n
        ensures ReversedPieces(data, m) == data
      {
        if data != [] {
          assert data[n..] == [];
          assert ReversedPieces(data[n..], m) == [];
        }
      }
    } else {
      var data := seq(n, i => if i == n - 1 then 1 else 0);
      ReversedPiecesLength(data[m..], m);
      assert ReversedPieces(data, m) == ReversedPieces(data[m..], m) + data[..m];
      assert ReversedPieces(data, m)[n - 1] == data[..m][m - 1] == 0;
      assert ReversedPieces(data, m) != data;
    }
  }

  // ---- Displace ------------------------------------------------------------

  lemma {:induction false} DropBytesMeaning(cs: seq<Chunk>, n: nat)
    requires WellSized(cs) && n <= |Flatten(cs)|
    ensures Flatten(DropBytes(cs, n)) == Flatten(cs)[n..]
    ensures WellSized(DropBytes(cs, n))
    decreases |cs|
  {
    if n == 0 || cs == [] {
    } else if n >= |cs[0].data| {
      DropBytesMeaning(cs[1..], n - |cs[0].data|);
    } else {
      var r := DropBytes(cs, n);
      assert r[1..] == cs[1..];
      assert (cs[0].data + Flatten(cs[1..]))[n..] == cs[0].data[n..] + Flatten(cs[1..]);
    }
  }

  // Displacing drops exactly the first n bytes.
  lemma DisplaceChunksMeaning(cs: seq<Chunk>, n: nat)
    requires WellSized(cs) && n <= |Flatten(cs)|
    ensures Flatten(DisplaceChunks(cs, n)) == Flatten(cs)[n..]
    ensures WellSized(DisplaceChunks(cs, n))
  {
    DropBytesMeaning(cs, n);
    RecalculateKeepsBytes(DropBytes(cs, n));
  }

  // The chunks that survive whole keep the offset they had: the j-th one from
  // the end is still the j-th one from the end.
  lemma {:induction false} DropBytesSuffix(cs: seq<Chunk>, n: nat)
    requires WellSized(cs) && n <= |Flatten(cs)|
    ensures |DropBytes(cs, n)| <= |cs|
    ensures var d := |cs| - |DropBytes(cs, n)|;
            forall j | 1 <= j < |DropBytes(cs, n)| :: DropBytes(cs, n)[j] == cs[d + j]
    ensures var d := |cs| - |DropBytes(cs, n)|;
            |Flatten(cs[..d])| <= n && (d < |cs| ==> n < |Flatten(cs[..d + 1])|)
    decreases |cs|
  {
    if n == 0 || cs == [] {
      assert cs[..0] == [];
      if cs != [] {
        FlattenNext(cs, 0);
      }
    } else if n >= |cs[0].data| {
      DropBytesSuffix(cs[1..], n - |cs[0].data|);
      var d := |cs| - |DropBytes(cs, n)|;
      assert cs[1..][..d - 1] == cs[..d][1..];
      if d < |cs| {
        assert cs[1..][..d] == cs[..d + 1][1..];
      }
    } else {
      assert cs[..0] == [];
      FlattenNext(cs, 0);
    }
  }

  // After a displace of a contiguous vector, the stored offsets are right again
  // exactly when at most the last chunk is left. (A displace of nothing is
  // harmless too if the bogus offset of the first chunk wraps around to zero.)
  lemma DisplaceKeepsOffsets(cs: seq<Chunk>, n: nat)
    requires WellSized(cs) && Contiguous(cs) && n <= |Flatten(cs)|
    ensures Contiguous(DisplaceChunks(cs, n)) <==>
              |DropBytes(cs, n)| <= 1 || (n == 0 && BogusOffset(cs) == 0)
    ensures |DropBytes(cs, n)| <= 1 <==> cs == [] || n >= cs[|cs| - 1].offset
  {
    var r := DropBytes(cs, n);
    if cs != [] {
      LastChunkOnly(cs, n);
    }
    if |r| <= 1 {
      SingleChunkContiguous(Recalculate(r));
    } else if n == 0 {
      RecalculateAfterNoDrop(cs);
    } else {
      StaleSecondChunk(cs, n);
    }
  }

  lemma SingleChunkContiguous(cs: seq<Chunk>)
    requires |cs| <= 1 && (cs != [] ==> cs[0].offset == 0)
    ensures Contiguous(cs)
  {
    assert cs[..0] == [];
  }

  // If two chunks are left, the second one is still filed under its old offset.
  lemma StaleSecondChunk(cs: seq<Chunk>, n: nat)
    requires WellSized(cs) && Contiguous(cs) && 0 < n <= |Flatten(cs)| && |DropBytes(cs, n)| >= 2
    ensures !Contiguous(DisplaceChunks(cs, n))
  {
    var r := DropBytes(cs, n);
    var r' := Recalculate(r);
    DropBytesSuffix(cs, n);
    FirstSurvivor(cs, n);
    var d := |cs| - |r|;
    assert r'[1].offset == cs[d + 1].offset == |Flatten(cs[..d + 1])| == |r[0].data| + n;
    assert r'[..1][1..] == [] && Flatten(r'[..1]) == r'[0].data + Flatten([]);
    assert r'[1].offset != |Flatten(r'[..1])|;
  }

  lemma LastChunkOnly(cs: seq<Chunk>, n: nat)
    requires WellSized(cs) && Contiguous(cs) && cs != [] && n <= |Flatten(cs)|
    ensures |DropBytes(cs, n)| <= 1 <==> n >= cs[|cs| - 1].offset
  {
    DropBytesSuffix(cs, n);
    var d := |cs| - |DropBytes(cs, n)|;
    if d >= |cs| - 1 {
      FlattenMonotone(cs, |cs| - 1, d);
    } else {
      FlattenMonotone(cs, d + 1, |cs| - 1);
    }
  }

  lemma FirstSurvivor(cs: seq<Chunk>, n: nat)
    requires WellSized(cs) && n <= |Flatten(cs)| && |DropBytes(cs, n)| >= 1
    ensures |DropBytes(cs, n)| <= |cs|
    ensures |DropBytes(cs, n)[0].data| == |Flatten(cs[..|cs| - |DropBytes(cs, n)| + 1])| - n
  {
    var r := DropBytes(cs, n);
    DropBytesSuffix(cs, n);
    DropBytesMeaning(cs, n);
    var d := |cs| - |r|;
    FlattenSplit(cs, d + 1);
    assert r[1..] == cs[d + 1..];
  }

  lemma RecalculateAfterNoDrop(cs: seq<Chunk>)
    requires WellSized(cs) && Contiguous(cs) && |cs| >= 2
    ensures Contiguous(Recalculate(cs)) <==> BogusOffset(cs) == 0
  {
    var r := Recalculate(cs);
    assert r[..0] == [] && cs[..0] == [];
    if r[0].offset == 0 {
      assert r == cs;
    } else {
      assert r[0].offset != |Flatten(r[..0])|;
    }
  }

  // A prepend of one chunk or less leaves right offsets exactly when the
  // container was empty.
  lemma PrependKeepsOffsets(cs: seq<Chunk>, data: seq<Byte>, m: nat, limit: nat)
    requires Contiguous(cs) && data != [] && |data| <= m && |cs| < limit
    ensures Contiguous(PrependChunks(cs, data, m, limit)) <==> cs == []
  {
    assert data[..|data|] == data && data[|data|..] == [];
    var piece := [Chunk(data, 0)];
    var r := Recalculate(piece + cs);
    assert PrependChunks(cs, data, m, limit) == PrependChunks(piece + cs, [], m, limit) == r;
    if cs == [] {
      assert r == piece && r[..0] == [];
    } else {
      assert cs[..0] == [] && cs[0].offset == 0;
      assert r[1] == cs[0];
      assert r[..1][1..] == [] && Flatten(r[..1]) == r[0].data + Flatten([]);
      assert r[1].offset != |Flatten(r[..1])|;
    }
  }

  // ---- Truncate ------------------------------------------------------------

  // The chunk that holds the cut is shortened, or dropped when the cut falls on
  // its first byte; all later chunks go.
  function TruncateChunks(cs: seq<Chunk>, n: nat): Option<seq<Chunk>>
    requires WellSized(cs)
  {
    var found := FindChunk(cs, n);
    if found.None? then None
    else
      var i := found.value;
      Some(if cs[i].offset == n then cs[..i] else cs[..i] + [cs[i].Truncate(n)])
  }

  // On a contiguous vector truncation keeps exactly the first n bytes.
  lemma TruncateChunksMeaning(cs: seq<Chunk>, n: nat)
    requires WellSized(cs) && Contiguous(cs) && |Flatten(cs)| < SIZE_LIMIT
    ensures n >= |Flatten(cs)| <==> TruncateChunks(cs, n).None?
    ensures n < |Flatten(cs)| ==>
              var r := TruncateChunks(cs, n).value;
              Flatten(r) == Flatten(cs)[..n] && WellSized(r) && Contiguous(r)
  {
    FindChunkCorrect(cs, n);
    if n < |Flatten(cs)| {
      var i := FindChunk(cs, n).value;
      var r := TruncateChunks(cs, n).value;
      ContiguousPrefix(cs, r, i);
      if cs[i].offset == n {
        CutBefore(cs, i);
      } else {
        CutInside(cs, i, n);
      }
    }
  }

  lemma CutBefore(cs: seq<Chunk>, i: nat)
    requires WellSized(cs) && i <= |cs|
    ensures |Flatten(cs[..i])| <= |Flatten(cs)|
    ensures Flatten(cs)[..|Flatten(cs[..i])|] == Flatten(cs[..i]) && WellSized(cs[..i])
  {
    FlattenSplit(cs, i);
  }

  lemma CutInside(cs: seq<Chunk>, i: nat, n: nat)
    requires WellSized(cs) && i < |cs| && cs[i].offset == |Flatten(cs[..i])|
    requires cs[i].offset < n < cs[i].offset + |cs[i].data|
    ensures n <= |Flatten(cs)|
    ensures Flatten(cs[..i] + [cs[i].Truncate(n)]) == Flatten(cs)[..n]
    ensures WellSized(cs[..i] + [cs[i].Truncate(n)])
  {
    var k := n - cs[i].offset;
    var cut := [cs[i].Truncate(n)];
    assert Flatten(cut) == cs[i].data[..k] by {
      assert cut[1..] == [];
    }
    FlattenConcat(cs[..i], cut);
    FlattenSplit(cs, i);
    FlattenNext(cs, i);
    SplitTake(Flatten(cs[..i]), cs[i].data, Flatten(cs[i + 1..]), k);
  }

  lemma SplitTake<T>(a: seq<T>, b: seq<T>, c: seq<T>, k: nat)
    requires k <= |b|
    ensures (a + (b + c))[..|a| + k] == a + b[..k]
  {
  }

  // A vector whose first i chunks, and the offset of whose last chunk, are those
  // of a contiguous vector is contiguous.
  lemma ContiguousPrefix(cs: seq<Chunk>, r: seq<Chunk>, i: nat)
    requires Contiguous(cs) && i < |cs| && i <= |r| <= i + 1 && r[..i] == cs[..i]
    requires |r| == i + 1 ==> r[i].offset == cs[i].offset
    ensures Contiguous(r)
  {
    forall j | 0 <= j < |r|
      ensures r[j].offset == |Flatten(r[..j])|
    {
      assert r[..j] == r[..i][..j] == cs[..j];
      assert j < i ==> r[j] == r[..i][j] == cs[j];
    }
  }

  // ---- Reads after a displace ------------------------------------------------

  ghost predicate ReadsRight(cs: seq<Chunk>)
    requires WellSized(cs)
  {
    forall bytes: nat, offset: nat | 0 < bytes && offset + bytes <= |Flatten(cs)| ::
      ReadAt(cs, bytes, offset) == Some(Flatten(cs)[offset..offset + bytes])
  }

  // After a displace of a contiguous vector every read by offset is right in exactly
  // the same cases as the offsets: otherwise the read at the start, or the one right
  // behind the first chunk, finds no chunk at all.
  lemma DisplaceKeepsReads(cs: seq<Chunk>, n: nat)
    requires WellSized(cs) && Contiguous(cs) && |Flatten(cs)| < SIZE_LIMIT && n <= |Flatten(cs)|
    ensures WellSized(DisplaceChunks(cs, n))
    ensures ReadsRight(DisplaceChunks(cs, n)) <==> |DropBytes(cs, n)| <= 1 || (n == 0 && BogusOffset(cs) == 0)
  {
    hide Contiguous, Recalculate, DropBytes;
    var ds := DisplaceChunks(cs, n);
    DisplaceChunksMeaning(cs, n);
    DisplaceKeepsOffsets(cs, n);
    if Contiguous(ds) {
      forall bytes: nat, offset: nat | 0 < bytes && offset + bytes <= |Flatten(ds)|
        ensures ReadAt(ds, bytes, offset) == Some(Flatten(ds)[offset..offset + bytes])
      {
        ReadAtContiguous(ds, bytes, offset);
      }
    } else {
      LaterChunksTooFar(cs, n);
      var offset := if ds[0].offset != 0 then 0 else |ds[0].data|;
      assert ReadAt(ds, 1, offset) == None;
      assert offset + 1 <= |Flatten(ds)|;
    }
  }

  // Every truncation inside the container keeps exactly the bytes before it.
  ghost predicate CutsRight(cs: seq<Chunk>)
    requires WellSized(cs)
  {
    forall size: nat | size < |Flatten(cs)| ::
      TruncateChunks(cs, size).Some? && Flatten(TruncateChunks(cs, size).value) == Flatten(cs)[..size]
  }

  // So do truncations: in the other cases one of them finds no chunk either.
  lemma DisplaceKeepsCuts(cs: seq<Chunk>, n: nat)
    requires WellSized(cs) && Contiguous(cs) && |Flatten(cs)| < SIZE_LIMIT && n <= |Flatten(cs)|
    ensures WellSized(DisplaceChunks(cs, n))
    ensures CutsRight(DisplaceChunks(cs, n)) <==> |DropBytes(cs, n)| <= 1 || (n == 0 && BogusOffset(cs) == 0)
  {
    hide Contiguous, Recalculate, DropBytes;
    var ds := DisplaceChunks(cs, n);
    DisplaceChunksMeaning(cs, n);
    DisplaceKeepsOffsets(cs, n);
    if Contiguous(ds) {
      forall size: nat | size < |Flatten(ds)|
        ensures TruncateChunks(ds, size).Some? && Flatten(TruncateChunks(ds, size).value) == Flatten(ds)[..size]
      {
        TruncateChunksMeaning(ds, size);
      }
    } else {
      LaterChunksTooFar(cs, n);
      var size := if ds[0].offset != 0 then 0 else |ds[0].data|;
      assert TruncateChunks(ds, size) == None;
      assert size < |Flatten(ds)|;
    }
  }

  // With two chunks or more left, all but the first are filed at least n bytes too far.
  lemma LaterChunksTooFar(cs: seq<Chunk>, n: nat)
    requires WellSized(cs) && Contiguous(cs) && n <= |Flatten(cs)| && |DropBytes(cs, n)| >= 2
    ensures var ds := DisplaceChunks(cs, n);
            && |ds| >= 2 && |ds[0].data| > 0 && |ds[0].data| + 1 <= |Flatten(ds)|
            && (n == 0 ==> ds[0].offset == BogusOffset(cs))
            && forall j | 1 <= j < |ds| :: ds[j].offset >= |ds[0].data| + n
  {
    hide Flatten, WellSized, Contiguous;
    var ds := DisplaceChunks(cs, n);
    DisplaceChunksMeaning(cs, n);
    BehindFirstChunk(ds);
    forall j | 1 <= j < |ds|
      ensures ds[j].offset >= |ds[0].data| + n
    {
      ChunkTooFar(cs, n, j);
    }
  }

  lemma ChunkTooFar(cs: seq<Chunk>, n: nat, j: nat)
    requires WellSized(cs) && Contiguous(cs) && n <= |Flatten(cs)| && 1 <= j < |DropBytes(cs, n)|
    ensures var r := DropBytes(cs, n); r[j].offset >= |r[0].data| + n
  {
    hide Flatten, DropBytes;
    var d := |cs| - |DropBytes(cs, n)|;
    DropBytesSuffix(cs, n);
    FirstSurvivor(cs, n);
    FlattenMonotone(cs, d + 1, d + j);
    assert cs[d + j].offset == |Flatten(cs[..d + j])|;
  }

  lemma BehindFirstChunk(cs: seq<Chunk>)
    requires WellSized(cs) && |cs| >= 2
    ensures |cs[0].data| > 0 && |cs[0].data| + 1 <= |Flatten(cs)|
  {
    assert Flatten(cs) == cs[0].data + Flatten(cs[1..]);
    assert Flatten(cs[1..]) == cs[1].data + Flatten(cs[1..][1..]);
  }
}
