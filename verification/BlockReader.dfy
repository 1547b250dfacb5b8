// Reading a block up to a delimiter into a buffer that grows by 64 KB at a time
// (Net_Sockets/socket_stream_reader.cpp).
module BlockReaders {
  import opened Common
  import opened SocketStreams

  const BLOCK: nat := 65536

  // Whether the first n bytes of a stream, of which there is at least one, end in the
  // delimiter.
  predicate EndsAt(s: seq<Byte>, delim: seq<Byte>, n: nat) {
    1 <= n <= |s| && |delim| <= n && s[n - |delim|..n] == delim
  }

  predicate NoneUpTo(s: seq<Byte>, delim: seq<Byte>, n: nat) {
    forall m: nat | m <= n :: !EndsAt(s, delim, m)
  }

  // n is the length of the shortest prefix that ends in the delimiter.
  predicate Shortest(s: seq<Byte>, delim: seq<Byte>, n: nat) {
    EndsAt(s, delim, n) && forall m: nat | m < n :: !EndsAt(s, delim, m)
  }

  lemma NoneFurther(s: seq<Byte>, delim: seq<Byte>, n: nat)
    requires n > 0 && NoneUpTo(s, delim, n - 1)
    ensures EndsAt(s, delim, n) ==> Shortest(s, delim, n)
    ensures !EndsAt(s, delim, n) ==> NoneUpTo(s, delim, n)
  {
    hide EndsAt;
  }

  // The bytes read so far, and the window the comparison looks at.
  lemma OneMoreByte(block: seq<Byte>, s: seq<Byte>, end: nat, delim: seq<Byte>)
    requires 1 <= end <= |block| && end <= |s|
    requires block[..end - 1] == s[..end - 1] && block[end - 1] == s[end - 1]
    ensures block[..end] == s[..end]
    ensures EndsAt(s, delim, end) <==> |delim| <= end && block[end - |delim|..end] == delim
  {
    assert block[..end] == block[..end - 1] + [block[end - 1]];
    assert s[..end] == s[..end - 1] + [s[end - 1]];
    if |delim| <= end {
      assert block[end - |delim|..end] == block[..end][end - |delim|..];
      assert s[end - |delim|..end] == s[..end][end - |delim|..];
    }
  }

  method ReadU8(base: SocketStream) returns (readOK: bool, b: Byte)
    modifies base.inWire
    ensures readOK ==> |old(base.inWire.pending)| > 0 && b == old(base.inWire.pending)[0]
                       && base.inWire.pending == old(base.inWire.pending)[1..]
    ensures base.healthy && base.live && |old(base.inWire.pending)| > 0 ==> readOK
  {
    var data;
    readOK, data := base.ReadFull(1);
    b := if readOK then data[0] else 0;
  }

  datatype BlockResult = Found(pos: nat) | NotFound | ReadError

  // read64KBlockDelim fills the block that starts at `at`; the comparison reaches back
  // into the blocks before it. s is the whole stream, from the first block on.
  method Read64KBlockDelim(base: SocketStream, block: array<Byte>, at: nat, delim: seq<Byte>, blockNo: nat,
                           ghost s: seq<Byte>) returns (r: BlockResult)
    requires block.Length == at + BLOCK && at == blockNo * BLOCK && |delim| < BLOCK
    requires at <= |s| && block[..at] == s[..at] && base.inWire.pending == s[at..]
    requires NoneUpTo(s, delim, at)
    modifies base.inWire, block
    ensures r.Found? ==> 1 <= r.pos <= BLOCK && Shortest(s, delim, at + r.pos)
                         && block[..at + r.pos] == s[..at + r.pos] && base.inWire.pending == s[at + r.pos..]
    ensures r.NotFound? ==> at + BLOCK <= |s| && NoneUpTo(s, delim, at + BLOCK)
                            && block[..] == s[..at + BLOCK] && base.inWire.pending == s[at + BLOCK..]
    ensures r.ReadError? && base.healthy && base.live ==> |s| < at + BLOCK && NoneUpTo(s, delim, |s|)
  {
    hide NoneUpTo, Shortest, EndsAt;
    for pos := 1 to BLOCK + 1
      invariant at + pos - 1 <= |s|
      invariant block[..at + pos - 1] == s[..at + pos - 1]
      invariant base.inWire.pending == s[at + pos - 1..]
      invariant NoneUpTo(s, delim, at + pos - 1)
    {
      var end := at + pos;
      var readOK, b := ReadU8(base);
      if !readOK {
        return ReadError;
      }
      block[end - 1] := b;
      assert block[..][..end - 1] == s[..end - 1];
      OneMoreByte(block[..], s, end, delim);
      NoneFurther(s, delim, end);
      if (blockNo == 0 && pos >= |delim|) || blockNo > 0 {
        if block[end - |delim|..end] == delim {
          return Found(pos);
        }
      }
    }
    assert block[..] == block[..at + BLOCK];
    return NotFound;
  }

  // A longer buffer that begins with the old one.
  method CopyInto(size: nat, block: array<Byte>) returns (next: array<Byte>)
    requires block.Length <= size
    ensures fresh(next) && next.Length == size && next[..block.Length] == block[..]
  {
    next := new Byte[size];
    for i := 0 to block.Length
      invariant next[..i] == block[..i]
    {
      next[i] := block[i];
    }
    assert block[..block.Length] == block[..];
  }

  lemma NoneWithin(s: seq<Byte>, delim: seq<Byte>, n: nat, capacity: nat)
    ensures NoneUpTo(s, delim, 0)
    ensures Shortest(s, delim, n) ==> n <= |s| && (n <= capacity ==> !NoneUpTo(s, delim, capacity))
    ensures NoneUpTo(s, delim, |s|) ==> NoneUpTo(s, delim, capacity)
  {
  }

  // What readBlock32WAllocAndDelim gives back: the block and its length; null because
  // the limit is below one block, the stream failed or the limit is reached; or no
  // defined result, because the 32-bit size sum wrapped and the copy overran.
  datatype Block = Block(data: seq<Byte>) | TooSmall | Failed | LimitReached | Overrun

  // The most a limit lets the buffer grow to: whole blocks, and not past 32 bits.
  function Capacity(datalen: nat): nat {
    datalen / BLOCK * BLOCK
  }

  const WRAPS: nat := 0xFFFF_0000

  lemma WholeBlocks(blockNo: nat, size: nat, datalen: nat)
    requires size == blockNo * BLOCK + BLOCK && size <= datalen < UINT32_LIMIT
    ensures size + BLOCK >= UINT32_LIMIT <==> size == WRAPS
    ensures size + BLOCK > datalen <==> size == Capacity(datalen)
    ensures size <= Capacity(datalen) && Capacity(datalen) <= WRAPS
    ensures Capacity(datalen) == WRAPS <==> datalen >= WRAPS
  {
  }

  // The block, if there is one, is exactly the shortest prefix of the stream that ends
  // in the delimiter, across any block boundary. There is one whenever that prefix
  // fits in the whole blocks of the limit; and the size sum wraps only for a limit of
  // 0xFFFF0000 or more.
  method ReadBlock32WAllocAndDelim(base: SocketStream, datalen: nat, delim: seq<Byte>)
    returns (r: Block, ghost buffer: nat)
    requires datalen < UINT32_LIMIT && |delim| < BLOCK
    modifies base.inWire
    ensures r.Block? ==>
              && var s := old(base.inWire.pending);
              Shortest(s, delim, |r.data|) && r.data == s[..|r.data|] && base.inWire.pending == s[|r.data|..]
              && |r.data| <= Capacity(datalen) && |r.data| <= buffer
    ensures buffer <= datalen
    ensures r.TooSmall? <==> datalen < BLOCK
    ensures datalen >= BLOCK && base.healthy && base.live ==>
              && var s := old(base.inWire.pending);
              && (r.Block? <==> !NoneUpTo(s, delim, Capacity(datalen)))
              && (r.Failed? ==> |s| < Capacity(datalen))
              && (r.LimitReached? || r.Overrun? ==> NoneUpTo(s, delim, Capacity(datalen)))
    ensures r.Overrun? ==> datalen >= WRAPS
    ensures r.LimitReached? ==> datalen < WRAPS
  {
    hide NoneUpTo, Shortest, EndsAt, Capacity;
    if datalen <= 65535 {
      return TooSmall, 0;
    }
    ghost var s := base.inWire.pending;
    var currentBlock := new Byte[BLOCK];
    var currentBlockSize, blockNo := BLOCK, 0;
    assert currentBlock[..0] == s[..0] && s[0..] == s;
    NoneWithin(s, delim, 0, Capacity(datalen));
    while true
      invariant fresh(currentBlock) && currentBlock.Length == currentBlockSize == blockNo * BLOCK + BLOCK
      invariant BLOCK <= currentBlockSize <= datalen
      invariant currentBlockSize - BLOCK <= |s| && NoneUpTo(s, delim, currentBlockSize - BLOCK)
      invariant currentBlock[..currentBlockSize - BLOCK] == s[..currentBlockSize - BLOCK]
      invariant base.inWire.pending == s[currentBlockSize - BLOCK..]
      decreases datalen - currentBlockSize
    {
      WholeBlocks(blockNo, currentBlockSize, datalen);
      var bytesRecv := Read64KBlockDelim(base, currentBlock, currentBlockSize - BLOCK, delim, blockNo, s);
      match bytesRecv
      case ReadError =>
        return Failed, currentBlockSize;
      case NotFound =>
        var wanted := (currentBlockSize + 65536) % UINT32_LIMIT;
        if wanted > datalen {
          return LimitReached, currentBlockSize;
        }
        if wanted < currentBlockSize {
          return Overrun, currentBlockSize;
        }
        var nextBlock := CopyInto(wanted, currentBlock);
        blockNo := blockNo + 1;
        currentBlock := nextBlock;
        currentBlockSize := currentBlockSize + BLOCK;
      case Found(pos) =>
        var size := currentBlockSize - 65536 + pos;
        NoneWithin(s, delim, size, Capacity(datalen));
        return Block(currentBlock[..size]), currentBlockSize;
    }
  }
}
