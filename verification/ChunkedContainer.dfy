// The in-memory binary container: B_Chunks with the checks of B_Base in front
// of it (Memory/b_chunks.cpp, Memory/b_base.cpp).
module ChunkedContainer {
  import opened Common
  import opened Occurrences
  import opened ChunkVector
  import opened ChunkUpdates

  // ASCII letters, the bytes isalpha accepts in the "C" locale.
  predicate IsAlpha(c: Byte) {
    (0x41 <= c <= 0x5A) || (0x61 <= c <= 0x7A)
  }

  function ToUpper(c: Byte): Byte {
    if 0x61 <= c <= 0x7A then c - 0x20 else c
  }

  function ToLower(c: Byte): Byte {
    if 0x41 <= c <= 0x5A then c + 0x20 else c
  }

  // The bytes findChar stops at. (Its flag works backwards: "case sensitive"
  // searches for both cases of a letter.)
  predicate StopsAt(b: Byte, c: Byte, caseSensitive: bool) {
    if caseSensitive && IsAlpha(c) then b == ToUpper(c) || b == ToLower(c) else b == c
  }

  // In characters: the byte itself, and with the flag the same letter in the other case.
  lemma StopsAtMeaning(b: Byte, c: Byte, caseSensitive: bool)
    ensures StopsAt(b, c, caseSensitive) <==>
            b == c || (caseSensitive && ((0x61 <= c <= 0x7A && b == c - 0x20) || (0x41 <= c <= 0x5A && b == c + 0x20)))
  {
  }

  // The first byte of s[lo..hi] that equals c, as memchr.
  function MemChr(s: seq<Byte>, c: Byte, lo: nat, hi: nat): (r: Option<nat>)
    requires lo <= hi <= |s|
    ensures r.Some? ==> lo <= r.value < hi && s[r.value] == c && forall i | lo <= i < r.value :: s[i] != c
    ensures r.None? ==> forall i | lo <= i < hi :: s[i] != c
    decreases hi - lo
  {
    if lo == hi then None
    else if s[lo] == c then Some(lo)
    else MemChr(s, c, lo + 1, hi)
  }

  // The first stop byte in part of a chunk: one memchr, or the nearer of two
  // when both cases of a letter count.
  function FirstStop(s: seq<Byte>, c: Byte, lo: nat, hi: nat, caseSensitive: bool): (r: Option<nat>)
    requires lo <= hi <= |s|
    ensures r.Some? ==> lo <= r.value < hi && StopsAt(s[r.value], c, caseSensitive)
    ensures forall i | lo <= i < (if r.Some? then r.value else hi) :: !StopsAt(s[i], c, caseSensitive)
  {
    if !(caseSensitive && IsAlpha(c)) then MemChr(s, c, lo, hi)
    else
      var upper, lower := MemChr(s, ToUpper(c), lo, hi), MemChr(s, ToLower(c), lo, hi);
      if upper.Some? && lower.Some? then Some(Min(upper.value, lower.value))
      else if upper.Some? then upper
      else lower
  }

  class Container {
    var chunks: seq<Chunk>
    var containerBytes: nat
    var maxSize: nat
    var maxChunkSize: nat
    var maxChunks: nat

    ghost predicate Valid()
      reads this
    {
      && WellSized(chunks)
      && containerBytes == |Flatten(chunks)| < SIZE_LIMIT
      && maxSize < SIZE_LIMIT
      && 0 < maxChunkSize < SIZE_LIMIT
      && maxChunks < UINT32_LIMIT
    }

    // The bytes this container stands for.
    function Bytes(): seq<Byte>
      reads this
    {
      Flatten(chunks)
    }

    constructor ()
      ensures Valid() && chunks == [] && Bytes() == []
      ensures maxSize == MAX_SIZE_T && maxChunkSize == 65536 && maxChunks == 262144
    {
      chunks, containerBytes := [], 0;
      maxSize, maxChunkSize, maxChunks := MAX_SIZE_T, 65536, 262144;
    }

    // ---- Size ----------------------------------------------------------------

    method SetMaxSize(value: nat)
      requires Valid() && value < SIZE_LIMIT
      modifies this`maxSize
      ensures Valid() && maxSize == value
    {
      maxSize := value;
    }

    function SizeLeft(): nat
      reads this
    {
      if containerBytes > maxSize then 0 else maxSize - containerBytes
    }

    method Clear()
      requires Valid()
      modifies this`chunks, this`containerBytes
      ensures Valid() && chunks == [] && Bytes() == []
    {
      containerBytes := 0;
      chunks := [];
    }

    // ---- Growing -------------------------------------------------------------

    // append2 in both its modes.
    method Append2(buf: seq<Byte>, prependMode: bool) returns (r: Option<nat>)
      requires Valid() && |buf| < SIZE_LIMIT
      modifies this`chunks, this`containerBytes
      ensures Valid()
      ensures |buf| + |old(Bytes())| >= SIZE_LIMIT ==> r.None? && chunks == old(chunks)
      ensures |buf| + |old(Bytes())| < SIZE_LIMIT ==>
                && r == Some(Storable(|buf|, |old(chunks)|, maxChunkSize, maxChunks))
                && chunks == GrowChunks(old(chunks), buf, maxChunkSize, maxChunks, prependMode)
    {
      SumOverflowsMeaning(|buf|, containerBytes);
      if SumOverflows(|buf|, containerBytes) {
        return None;
      }
      var rest, appended := buf, 0;
      while rest != []
        invariant Valid() && appended + |rest| == |buf|
        invariant |rest| + |Flatten(chunks)| < SIZE_LIMIT
        invariant appended + Storable(|rest|, |chunks|, maxChunkSize, maxChunks)
               == Storable(|buf|, |old(chunks)|, maxChunkSize, maxChunks)
        invariant GrowChunks(chunks, rest, maxChunkSize, maxChunks, prependMode)
               == GrowChunks(old(chunks), buf, maxChunkSize, maxChunks, prependMode)
        decreases |rest|
      {
        if |chunks| + 1 > maxChunks {
          return Some(appended);
        }
        var chunkSize := Min(|rest|, maxChunkSize);
        var piece := rest[..chunkSize];
        GrowStep(chunks, rest, maxChunkSize, maxChunks, prependMode);
        chunks := AddChunk(chunks, piece, prependMode);
        containerBytes := containerBytes + |piece|;
        appended := appended + |piece|;
        rest := rest[chunkSize..];
      }
      if prependMode {
        RecalcChunkOffsets();
      }
      return Some(appended);
    }

    // The loop of recalcChunkOffsets, whose chunk pointer stays on the first chunk.
    method RecalcChunkOffsets()
      requires Valid()
      modifies this`chunks
      ensures Valid() && chunks == Recalculate(old(chunks)) && Bytes() == old(Bytes())
    {
      RecalculateKeepsBytes(chunks);
      var currentOffset, vpos, vsize := 0, 0, |chunks|;
      while vpos < vsize
        invariant vpos <= vsize == |chunks|
        invariant vpos == 0 ==> chunks == old(chunks) && currentOffset == 0
        invariant 0 < vpos ==>
                    && currentOffset == (vpos * |old(chunks)[0].data|) % SIZE_LIMIT
                    && var offset := ((vpos - 1) * |old(chunks)[0].data|) % SIZE_LIMIT;
                    chunks == old(chunks)[0 := old(chunks)[0].(offset := offset)]
      {
        WrappedMultiple(vpos, |old(chunks)[0].data|);
        chunks := chunks[0 := chunks[0].(offset := currentOffset)];
        currentOffset := chunks[0].NextOffset();
        vpos := vpos + 1;
      }
    }

    // B_Base::append: a whole piece of data is stored or, when the chunks run
    // out, a prefix of it whose length is reported.
    method Append(buf: seq<Byte>) returns (r: Option<nat>)
      requires Valid() && |buf| < SIZE_LIMIT
      modifies this`chunks, this`containerBytes
      ensures Valid()
      ensures r.None? <==> buf == [] || |buf| + |old(Bytes())| > maxSize
      ensures r.None? ==> chunks == old(chunks)
      ensures r.Some? ==> r.value == Storable(|buf|, |old(chunks)|, maxChunkSize, maxChunks)
      ensures r.Some? ==> r.value == if |old(chunks)| >= maxChunks then 0
                                     else Min(|buf|, (maxChunks - |old(chunks)|) * maxChunkSize)
      ensures r.Some? ==> Bytes() == old(Bytes()) + buf[..r.value]
      ensures r.Some? ==> chunks == AppendChunks(old(chunks), buf, maxChunkSize, maxChunks)
      ensures old(Contiguous(chunks)) ==> Contiguous(chunks)
    {
      SumOverflowsMeaning(|buf|, containerBytes);
      if SumOverflows(|buf|, containerBytes) {
        return None;
      }
      if |buf| + containerBytes > maxSize {
        return None;
      }
      if buf == [] {
        return None;
      }
      AppendChunksMeaning(chunks, buf, maxChunkSize, maxChunks);
      r := Append2(buf, false);
    }

    // B_Base::prepend.
    method Prepend(buf: seq<Byte>) returns (r: Option<nat>)
      requires Valid() && |buf| < SIZE_LIMIT
      modifies this`chunks, this`containerBytes
      ensures Valid()
      ensures r.None? <==> |buf| + |old(Bytes())| > maxSize
      ensures chunks == if r.None? || buf == [] then old(chunks)
                        else PrependChunks(old(chunks), buf, maxChunkSize, maxChunks)
      ensures r.Some? ==> r.value == Storable(|buf|, |old(chunks)|, maxChunkSize, maxChunks)
      ensures r.Some? ==> Bytes() == ReversedPieces(buf[..r.value], maxChunkSize) + old(Bytes())
      ensures r.Some? && |buf| <= maxChunkSize ==> Bytes() == buf[..r.value] + old(Bytes())
    {
      SumOverflowsMeaning(|buf|, containerBytes);
      if SumOverflows(|buf|, containerBytes) {
        return None;
      }
      if |buf| + containerBytes > maxSize {
        return None;
      }
      if buf == [] {
        assert buf[..0] == [];
        return Some(0);
      }
      PrependChunksMeaning(chunks, buf, maxChunkSize, maxChunks);
      r := Append2(buf, true);
      PrependKeepsOrder(r.value, maxChunkSize);
    }

    // ---- Shrinking -----------------------------------------------------------

    method Displace2(bytes: nat) returns (displaced: nat)
      requires Valid()
      modifies this`chunks, this`containerBytes
      ensures Valid()
      ensures displaced == Min(bytes, |old(Bytes())|)
      ensures Bytes() == old(Bytes())[displaced..]
      ensures chunks == DisplaceChunks(old(chunks), bytes)
    {
      var left: nat := bytes;
      displaced := 0;
      DropAllBytes(chunks, bytes);
      while left > 0
        invariant Valid() && displaced + left == bytes && displaced <= |old(Bytes())|
        invariant Bytes() == old(Bytes())[displaced..]
        invariant DropBytes(chunks, left) == DropBytes(old(chunks), bytes)
        decreases left
      {
        if chunks == [] {
          return;
        }
        var first := |chunks[0].data|;
        if left >= first {
          displaced := displaced + first;
          left := left - first;
          containerBytes := containerBytes - first;
          chunks := chunks[1..];
        } else {
          displaced := displaced + left;
          DropBytesMeaning(chunks, left);
          chunks := chunks[0 := chunks[0].Displace(left)];
          containerBytes := containerBytes - left;
          left := 0;
        }
      }
      RecalcChunkOffsets();
    }

    // B_Base::displace.
    method Displace(bytes: nat) returns (displaced: nat)
      requires Valid()
      modifies this`chunks, this`containerBytes
      ensures Valid()
      ensures displaced == Min(bytes, |old(Bytes())|)
      ensures Bytes() == old(Bytes())[displaced..]
      ensures chunks == DisplaceChunks(old(chunks), displaced)
    {
      displaced := Displace2(Min(bytes, containerBytes));
    }

    method Truncate2(bytes: nat) returns (r: Option<nat>)
      requires Valid() && bytes < |Bytes()|
      modifies this`chunks, this`containerBytes
      ensures TruncateChunks(old(chunks), bytes).None? ==>
                r.None? && chunks == old(chunks) && containerBytes == old(containerBytes)
      ensures TruncateChunks(old(chunks), bytes).Some? ==>
                r == Some(bytes) && chunks == TruncateChunks(old(chunks), bytes).value && containerBytes == bytes
    {
      var ival := FindChunk(chunks, bytes);
      if ival.None? {
        return None;
      }
      var keep := ival.value + 1;
      if chunks[ival.value].offset == bytes {
        keep := keep - 1;
      } else {
        chunks := chunks[ival.value := chunks[ival.value].Truncate(bytes)];
      }
      chunks := chunks[..keep];
      containerBytes := bytes;
      return Some(bytes);
    }

    // B_Base::truncate: with contiguous offsets it keeps exactly a prefix. With others
    // it cuts where its search by offset ends.
    method Truncate(bytes: nat) returns (r: Option<nat>)
      requires Valid()
      modifies this`chunks, this`containerBytes
      ensures var cut := if bytes < |old(Bytes())| then TruncateChunks(old(chunks), bytes) else None;
              && r == (if cut.None? then None else Some(bytes))
              && chunks == (if cut.None? then old(chunks) else cut.value)
              && containerBytes == (if cut.None? then old(containerBytes) else bytes)
      ensures old(Contiguous(chunks)) ==>
                && Valid() && Contiguous(chunks)
                && r == (if bytes < |old(Bytes())| then Some(bytes) else None)
                && Bytes() == (if bytes < |old(Bytes())| then old(Bytes())[..bytes] else old(Bytes()))
    {
      if bytes >= containerBytes {
        return None;
      }
      if Contiguous(chunks) {
        TruncateChunksMeaning(chunks, bytes);
      }
      r := Truncate2(bytes);
    }

    // ---- Copying out ---------------------------------------------------------

    // The chunk walk of copyToBuffer2, for a request inside the container.
    method CopyToBuffer2(bytes: nat, offset: nat) returns (r: Option<seq<Byte>>)
      requires Valid() && bytes < SIZE_LIMIT && offset < SIZE_LIMIT
      ensures r == if bytes == 0 && offset + bytes < SIZE_LIMIT then Some([])
                   else if offset + bytes > |Bytes()| then None
                   else ReadAt(chunks, bytes, offset)
    {
      SumOverflowsMeaning(offset, bytes);
      if SumOverflows(offset, bytes) {
        return None;
      }
      if bytes == 0 {
        return Some([]);
      }
      if offset + bytes > containerBytes {
        return None;
      }
      var found := FindChunk(chunks, offset);
      if found.None? {
        return None;
      }
      var i, left, copied := found.value, bytes, [];
      var current := chunks[i].data[offset - chunks[i].offset..];
      ghost var goal := ReadAt(chunks, bytes, offset).value;
      while true
        invariant i < |chunks|
        invariant 0 < left <= bytes
        invariant goal == copied + TakeUpTo(current + Flatten(chunks[i + 1..]), left)
        decreases |chunks| - i
      {
        if left > |current| {
          TakePastFirst(current, Flatten(chunks[i + 1..]), left);
          copied := copied + current;
          left := left - |current|;
        } else {
          TakeWithinFirst(current, Flatten(chunks[i + 1..]), left);
          return Some(copied + current[..left]);
        }
        if i == |chunks| - 1 {
          break;
        }
        i := i + 1;
        FlattenNext(chunks, i);
        current := chunks[i].data;
      }
      return Some(copied);
    }

    // B_Base::copyOut. The largest size_t asks for everything from the offset on.
    method CopyOut(bytes: nat, offset: nat) returns (r: Option<seq<Byte>>)
      requires Valid() && bytes < SIZE_LIMIT && offset < SIZE_LIMIT
      ensures Contiguous(chunks) ==> r == NamedSlice(Bytes(), bytes, offset)
      ensures bytes != MAX_SIZE_T && 0 < bytes && offset + bytes <= |Bytes()| ==> r == ReadAt(chunks, bytes, offset)
    {
      var count := bytes;
      if count == MAX_SIZE_T {
        if offset > containerBytes {
          return None;
        }
        count := containerBytes - offset;
      }
      SumOverflowsMeaning(offset, count);
      if SumOverflows(offset, count) {
        return None;
      }
      if count == 0 {
        return Some([]);
      }
      if offset + count > containerBytes {
        return None;
      }
      if Contiguous(chunks) {
        ReadAtContiguous(chunks, count, offset);
        assert bytes == MAX_SIZE_T ==> Bytes()[offset..offset + count] == Bytes()[offset..];
      }
      r := CopyToBuffer2(count, offset);
    }

    // B_Base::toString: the same bytes, collected 8192 at a time.
    method ToString(bytes: nat, offset: nat) returns (r: Option<seq<Byte>>)
      requires Valid() && bytes < SIZE_LIMIT && offset < SIZE_LIMIT
      ensures Contiguous(chunks) ==> r == NamedSlice(Bytes(), bytes, offset)
    {
      hide Flatten, Contiguous, WellSized;
      var count := bytes;
      if count == MAX_SIZE_T {
        if offset > containerBytes {
          return None;
        }
        count := containerBytes - offset;
      }
      SumOverflowsMeaning(offset, count);
      if SumOverflows(offset, count) {
        return None;
      }
      if count == 0 {
        return Some([]);
      }
      if offset + count > containerBytes {
        return None;
      }
      var text, at := [], offset;
      ghost var end := offset + count;
      assert bytes == MAX_SIZE_T ==> Bytes()[offset..end] == Bytes()[offset..];
      while count > 0
        invariant 0 <= count && offset <= at && at + count == end <= |Bytes()|
        invariant Contiguous(chunks) ==> text == Bytes()[offset..at]
        decreases count
      {
        var copyBytes := Min(count, 8192);
        count := count - copyBytes;
        var piece := CopyOut(copyBytes, at);
        if piece.None? {
          return Some(text);
        }
        SliceNext(Bytes(), offset, at, copyBytes);
        text := text + piece.value;
        at := at + copyBytes;
      }
      return Some(text);
    }

    // ---- Searching -----------------------------------------------------------

    // compare2, case sensitive: it walks the chunks by their sizes alone, so it
    // is right whatever the stored offsets are.
    method Compare2(buf: seq<Byte>, roOffset: nat) returns (same: bool)
      requires Valid() && |buf| < SIZE_LIMIT && roOffset < SIZE_LIMIT
      ensures buf != [] ==> (same <==> OccursAt(Bytes(), buf, roOffset))
      ensures buf == [] ==> same
    {
      SumOverflowsMeaning(roOffset, |buf|);
      if SumOverflows(roOffset, |buf|) {
        return false;
      }
      if buf == [] {
        return true;
      }
      if roOffset + |buf| > containerBytes {
        return false;
      }
      same := CompareChunks(chunks, buf, roOffset);
    }

    // findChar: the first stop byte among the `searchSpace` bytes from the offset.
    method FindChar(c: Byte, roOffset: nat, roSearchSpace: nat, caseSensitive: bool) returns (r: Option<nat>)
      requires Valid() && roOffset < SIZE_LIMIT && roSearchSpace < SIZE_LIMIT
      ensures IsFirstStop(Bytes(), c, roOffset, roSearchSpace, caseSensitive, r)
    {
      SumOverflowsMeaning(roOffset, roSearchSpace);
      if SumOverflows(roOffset, roSearchSpace) {
        return None;
      }
      if roOffset > containerBytes || roOffset + roSearchSpace > containerBytes {
        return None;
      }
      r := ScanChunks(chunks, c, roOffset, roSearchSpace, caseSensitive);
    }

    // B_Base::find, case sensitive: exactly the leftmost occurrence that starts
    // inside the search space, across any number of chunks.
    method Find(needle: seq<Byte>, offset: nat, roSearchSpace: nat) returns (r: Option<nat>)
      requires Valid() && |needle| < SIZE_LIMIT && offset < SIZE_LIMIT && roSearchSpace < SIZE_LIMIT
      ensures needle != [] && roSearchSpace == 0 ==> r == First(Bytes(), needle, offset)
      ensures needle != [] && 0 < roSearchSpace && r.Some? ==>
                r == First(Bytes(), needle, offset) && r.value < offset + roSearchSpace
      ensures needle != [] && |needle| <= roSearchSpace && offset + roSearchSpace <= |Bytes()| && r.None? ==>
                forall i: nat | offset <= i < offset + roSearchSpace :: !OccursAt(Bytes(), needle, i)
      ensures needle == [] && roSearchSpace == 0 ==> r == if offset < |Bytes()| then Some(0) else None
    {
      SumOverflowsMeaning(offset, |needle|);
      if SumOverflows(offset, |needle|) {
        return None;
      }
      SumOverflowsMeaning(offset, roSearchSpace);
      if SumOverflows(offset, roSearchSpace) {
        return None;
      }
      if offset > containerBytes {
        return None;
      }
      var searchSpace := roSearchSpace;
      if searchSpace == 0 {
        searchSpace := containerBytes - offset;
      }
      if searchSpace == 0 {
        return None;
      }
      if searchSpace < |needle| {
        return None;
      }
      if needle == [] {
        return Some(0);
      }
      ghost var end := offset + searchSpace;
      var currentOffset: nat := offset;
      var pos: Option<nat> := FindChar(needle[0], currentOffset, searchSpace, true);
      while pos.Some?
        invariant offset <= currentOffset && 0 <= searchSpace && currentOffset + searchSpace == end < SIZE_LIMIT
        invariant forall i: nat | offset <= i < currentOffset :: !OccursAt(Bytes(), needle, i)
        invariant IsFirstStop(Bytes(), needle[0], currentOffset, searchSpace, true, pos)
        decreases searchSpace, pos.Some?
      {
        NoStartWithoutStop(Bytes(), needle, currentOffset, pos.value);
        var displacement := pos.value - currentOffset;
        currentOffset := currentOffset + displacement;
        searchSpace := searchSpace - displacement;
        var same := Compare2(needle, currentOffset);
        if same {
          FirstUnique(Bytes(), needle, offset, currentOffset);
          return Some(currentOffset);
        }
        if searchSpace == 0 {
          break;
        }
        currentOffset := currentOffset + 1;
        searchSpace := searchSpace - 1;
        pos := FindChar(needle[0], currentOffset, searchSpace, true);
      }
      if end <= |Bytes()| {
        NoStartWithoutStop(Bytes(), needle, currentOffset, end);
      }
      return None;
    }
  }

  // The slice a caller of copyOut or toString names: everything from the offset
  // on for the largest size, and nothing at all outside the container.
  function NamedSlice(s: seq<Byte>, bytes: nat, offset: nat): Option<seq<Byte>> {
    if bytes == MAX_SIZE_T then (if offset <= |s| then Some(s[offset..]) else None)
    else if bytes == 0 && offset < SIZE_LIMIT then Some([])
    else if offset + bytes <= |s| then Some(s[offset..offset + bytes])
    else None
  }

  lemma SliceNext(s: seq<Byte>, from: nat, at: nat, n: nat)
    requires from <= at && at + n <= |s|
    ensures s[from..at] + s[at..at + n] == s[from..at + n]
  {
  }

  function TakeUpTo<T>(s: seq<T>, n: nat): seq<T> {
    s[..Min(n, |s|)]
  }

  lemma TakePastFirst<T>(a: seq<T>, b: seq<T>, n: nat)
    requires n > |a|
    ensures TakeUpTo(a + b, n) == a + TakeUpTo(b, n - |a|)
  {
  }

  lemma TakeWithinFirst<T>(a: seq<T>, b: seq<T>, n: nat)
    requires n <= |a|
    ensures TakeUpTo(a + b, n) == a[..n]
  {
  }

  lemma WrappedMultiple(k: nat, n: nat)
    ensures (n + (k * n) % SIZE_LIMIT) % SIZE_LIMIT == ((k + 1) * n) % SIZE_LIMIT
  {
    assert (k + 1) * n == k * n + n;
  }

  // Dropping at least everything leaves nothing.
  lemma {:induction false} DropAllBytes(cs: seq<Chunk>, n: nat)
    requires WellSized(cs)
    ensures n >= |Flatten(cs)| ==> DropBytes(cs, n) == []
    decreases |cs|
  {
    if cs != [] && n >= |cs[0].data| {
      DropAllBytes(cs[1..], n - |cs[0].data|);
    }
  }

  // Where a chunk walk stands after `passed` bytes: still before the requested
  // offset, or past it with everything since then compared.
  predicate Cursor(from: nat, passed: nat, offset: int, compared: int) {
    if passed < from then offset == from - passed && compared == 0
    else offset == 0 && compared == passed - from
  }

  ghost predicate MatchesUpTo(s: seq<Byte>, buf: seq<Byte>, at: nat, compared: int) {
    0 <= compared <= |buf| && at + compared <= |s| && s[at..at + compared] == buf[..compared]
  }

  // One chunk compared: either it extends the matching part, or there is no match.
  lemma CompareStep(s: seq<Byte>, buf: seq<Byte>, at: nat, compared: nat, chunk: seq<Byte>, start: nat,
                    skip: nat, n: nat)
    requires at + |buf| <= |s| && MatchesUpTo(s, buf, at, compared)
    requires start + |chunk| <= |s| && s[start..start + |chunk|] == chunk
    requires skip + n <= |chunk| && start + skip == at + compared && compared + n <= |buf|
    ensures if chunk[skip..skip + n] == buf[compared..compared + n]
            then MatchesUpTo(s, buf, at, compared + n) && (compared + n == |buf| ==> OccursAt(s, buf, at))
            else !OccursAt(s, buf, at)
  {
    SliceOfSlice(s, start, start + |chunk|, skip, skip + n);
    assert s[at..at + compared + n] == s[at..at + compared] + s[at + compared..at + compared + n];
    assert buf[..compared + n] == buf[..compared] + buf[compared..compared + n];
    if OccursAt(s, buf, at) {
      SliceOfSlice(s, at, at + |buf|, compared, compared + n);
    }
    assert buf[..|buf|] == buf;
  }

  // The chunk walk of compare2, for a non-empty buffer inside the content.
  method CompareChunks(cs: seq<Chunk>, buf: seq<Byte>, roOffset: nat) returns (same: bool)
    requires buf != [] && roOffset + |buf| <= |Flatten(cs)|
    ensures same <==> OccursAt(Flatten(cs), buf, roOffset)
  {
    var offset, compared := roOffset, 0;
    var vpos := 0;
    ghost var content, passed := Flatten(cs), 0;
    while vpos < |cs|
      invariant vpos <= |cs|
      invariant passed == |Flatten(cs[..vpos])| <= |content|
      invariant Cursor(roOffset, passed, offset, compared)
      invariant compared < |buf|
      invariant MatchesUpTo(content, buf, roOffset, compared)
    {
      FlattenSlice(cs, vpos);
      var current := cs[vpos].data;
      if offset > |current| {
        offset := offset - |current|;
      } else {
        var n := Min(|buf| - compared, |current| - offset);
        CompareStep(content, buf, roOffset, compared, current, passed, offset, n);
        if current[offset..offset + n] != buf[compared..compared + n] {
          return false;
        }
        offset := 0;
        compared := compared + n;
        if compared == |buf| {
          return true;
        }
      }
      passed := passed + |current|;
      vpos := vpos + 1;
    }
    FlattenAll(cs);
    return false;
  }

  // What findChar reports: the first stop byte of the search space, or none if
  // the search space holds none (or reaches beyond the content).
  ghost predicate IsFirstStop(s: seq<Byte>, c: Byte, from: nat, space: nat, caseSensitive: bool, r: Option<nat>) {
    if from + space > |s| then r.None?
    else if r.Some? then
      && from <= r.value < from + space && StopsAt(s[r.value], c, caseSensitive)
      && NoStop(s, c, from, r.value, caseSensitive)
    else NoStop(s, c, from, from + space, caseSensitive)
  }

  ghost predicate NoStop(s: seq<Byte>, c: Byte, from: nat, to: nat, caseSensitive: bool) {
    forall i | from <= i < to && i < |s| :: !StopsAt(s[i], c, caseSensitive)
  }

  // The state of the scan once the chunks before position `retpos` are behind it.
  ghost predicate Scanning(s: seq<Byte>, c: Byte, from: nat, space: nat, caseSensitive: bool,
                           retpos: nat, offset: nat, left: nat) {
    && from + space <= |s|
    && NoStop(s, c, from, retpos, caseSensitive)
    && (if retpos < from then offset == from - retpos && left == space
        else offset == 0 && retpos + left == from + space)
  }

  // One chunk scanned: either it gives the answer, or the scan is over, or it
  // moves on to the next chunk.
  lemma ScanStep(s: seq<Byte>, chunk: seq<Byte>, c: Byte, from: nat, space: nat, caseSensitive: bool,
                 retpos: nat, offset: nat, left: nat)
    requires Scanning(s, c, from, space, caseSensitive, retpos, offset, left)
    requires retpos + |chunk| <= |s| && s[retpos..retpos + |chunk|] == chunk && offset <= |chunk|
    ensures var n := Min(left, |chunk| - offset);
            var pos := FirstStop(chunk, c, offset, offset + n, caseSensitive);
            if pos.Some? then IsFirstStop(s, c, from, space, caseSensitive, Some(pos.value + retpos))
            else if left > |chunk| - offset then
              Scanning(s, c, from, space, caseSensitive, retpos + |chunk|, 0, left - (|chunk| - offset))
            else IsFirstStop(s, c, from, space, caseSensitive, None)
  {
    var n := Min(left, |chunk| - offset);
    var pos := FirstStop(chunk, c, offset, offset + n, caseSensitive);
    forall i | 0 <= i < |chunk|
      ensures s[retpos + i] == chunk[i]
    {
      assert s[retpos + i] == s[retpos..retpos + |chunk|][i];
    }
    forall i | retpos + offset <= i < retpos + (if pos.Some? then pos.value else offset + n)
      ensures !StopsAt(s[i], c, caseSensitive)
    {
      assert s[i] == chunk[i - retpos];
    }
  }

  lemma ScanStart(cs: seq<Chunk>, c: Byte, from: nat, space: nat, caseSensitive: bool)
    requires from + space <= |Flatten(cs)|
    ensures Flatten(cs[..0]) == []
    ensures Scanning(Flatten(cs), c, from, space, caseSensitive, 0, from, space)
  {
  }

  // A chunk passed over because the search begins after it.
  lemma ScanPast(s: seq<Byte>, c: Byte, from: nat, space: nat, caseSensitive: bool,
                 retpos: nat, offset: nat, left: nat, passed: nat)
    requires Scanning(s, c, from, space, caseSensitive, retpos, offset, left) && offset > passed
    ensures Scanning(s, c, from, space, caseSensitive, retpos + passed, offset - passed, left)
  {
  }

  lemma ScanEnd(s: seq<Byte>, c: Byte, from: nat, space: nat, caseSensitive: bool, offset: nat, left: nat)
    requires Scanning(s, c, from, space, caseSensitive, |s|, offset, left)
    ensures IsFirstStop(s, c, from, space, caseSensitive, None)
  {
  }

  // The chunk walk of findChar, for a search space inside the content.
  method ScanChunks(cs: seq<Chunk>, c: Byte, roOffset: nat, roSearchSpace: nat, caseSensitive: bool)
    returns (r: Option<nat>)
    requires roOffset + roSearchSpace <= |Flatten(cs)|
    ensures IsFirstStop(Flatten(cs), c, roOffset, roSearchSpace, caseSensitive, r)
  {
    hide Flatten, NoStop, IsFirstStop, StopsAt, Scanning;
    var offset: nat, searchSpace: nat, retpos: nat := roOffset, roSearchSpace, 0;
    var vpos := 0;
    ghost var content := Flatten(cs);
    ScanStart(cs, c, roOffset, roSearchSpace, caseSensitive);
    while vpos < |cs|
      invariant vpos <= |cs|
      invariant retpos == |Flatten(cs[..vpos])| <= |content|
      invariant Scanning(content, c, roOffset, roSearchSpace, caseSensitive, retpos, offset, searchSpace)
    {
      FlattenSlice(cs, vpos);
      var original := cs[vpos].data;
      if offset > |original| {
        ScanPast(content, c, roOffset, roSearchSpace, caseSensitive, retpos, offset, searchSpace, |original|);
        offset := offset - |original|;
      } else {
        var pos := FirstStop(original, c, offset, offset + Min(searchSpace, |original| - offset), caseSensitive);
        ScanStep(content, original, c, roOffset, roSearchSpace, caseSensitive, retpos, offset, searchSpace);
        if pos.Some? {
          return Some(pos.value + retpos);
        }
        var current := |original| - offset;
        offset := 0;
        if searchSpace > current {
          searchSpace := searchSpace - current;
        } else {
          return None;
        }
      }
      retpos := retpos + |original|;
      vpos := vpos + 1;
    }
    FlattenAll(cs);
    ScanEnd(content, c, roOffset, roSearchSpace, caseSensitive, offset, searchSpace);
    return None;
  }

  // A needle cannot start at a byte findChar would not stop at.
  lemma NoStartWithoutStop(s: seq<Byte>, needle: seq<Byte>, from: nat, to: nat)
    requires needle != [] && to <= |s|
    requires NoStop(s, needle[0], from, to, true)
    ensures forall i: nat | from <= i < to :: !OccursAt(s, needle, i)
  {
    forall i: nat | from <= i < to
      ensures !OccursAt(s, needle, i)
    {
      OccursOnlyAtStop(s, needle, i);
    }
  }

  lemma OccursOnlyAtStop(s: seq<Byte>, needle: seq<Byte>, i: nat)
    requires needle != [] && i < |s|
    ensures OccursAt(s, needle, i) ==> StopsAt(s[i], needle[0], true)
  {
    if OccursAt(s, needle, i) {
      assert s[i] == s[i..i + |needle|][0];
    }
  }
}
