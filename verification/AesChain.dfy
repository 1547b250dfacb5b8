// The AES/XOR stream layer (Net_Chains/socket_chain_aes.h and .cpp): each side
// grows a keystream block by block and consumes it by the bytes that were really
// transferred.
module AesChain {
  import opened Common
  import opened Bits
  import opened SocketStreams

  // The cryptography, as fixed functions: the ciphertext of the generated plain
  // text under a key and an initialisation vector, and the n-th vector that the
  // two generators give for a seed.
  datatype Crypto = Crypto(block: (seq<Byte>, seq<Byte>) -> seq<Byte>,
                           iv: (seq<Byte>, nat) -> seq<Byte>,
                           blockSize: nat) {
    ghost predicate Valid() {
      0 < blockSize && forall k, v :: |block(k, v)| == blockSize
    }

    // Byte i of the keystream of a phase-2 key and a seed.
    ghost function KeyByte(key: seq<Byte>, seed: seq<Byte>, i: nat): Byte
      requires Valid()
    {
      block(key, iv(seed, i / blockSize))[i % blockSize]
    }

    ghost function KeyStream(key: seq<Byte>, seed: seq<Byte>, from: nat, count: nat): (s: seq<Byte>)
      requires Valid()
      ensures |s| == count
    {
      seq(count, j requires 0 <= j => KeyByte(key, seed, from + j))
    }
  }

  function XorBytes(a: seq<Byte>, b: seq<Byte>): (r: seq<Byte>)
    requires |a| <= |b|
    ensures |r| == |a|
  {
    seq(|a|, i requires 0 <= i < |a| => Xor(a[i], b[i]))
  }

  lemma XorBytesTwice(a: seq<Byte>, k: seq<Byte>)
    requires |a| <= |k|
    ensures XorBytes(XorBytes(a, k), k) == a
  {
    forall i | 0 <= i < |a|
      ensures XorBytes(XorBytes(a, k), k)[i] == a[i]
    {
      XorTwice(a[i], k[i]);
    }
  }

  // ---- One side of one direction ---------------------------------------------------

  // sHandShakeHeader.
  datatype Header = Header(magic: seq<Byte>, ivSeed: seq<Byte>, phase2Key: seq<Byte>, reserved: seq<Byte>) {
    predicate Valid() {
      |magic| == 4 && |ivSeed| == 16 && |phase2Key| == 32 && |reserved| == 60
    }

    function Bytes(): (s: seq<Byte>)
      ensures Valid() ==> |s| == HEADER_SIZE
    {
      magic + ivSeed + phase2Key + reserved
    }
  }

  const HEADER_SIZE: nat := 112
  const IV_SIZE: nat := 16
  const MAGIC: seq<Byte> := [0x49, 0x48, 0x44, 0x52] // "IHDR"

  function ParseHeader(s: seq<Byte>): (h: Header)
    requires |s| == HEADER_SIZE
    ensures h.Valid()
  {
    Header(s[..4], s[4..20], s[20..52], s[52..])
  }

  lemma HeaderRoundTrip(h: Header)
    requires h.Valid()
    ensures ParseHeader(h.Bytes()) == h && |h.Bytes()| == 112
    ensures h.Bytes()[..4] == h.magic && h.Bytes()[4..20] == h.ivSeed
    ensures h.Bytes()[20..52] == h.phase2Key && h.Bytes()[52..] == h.reserved
  {
    var s := h.Bytes();
    assert s[..4] == h.magic && s[4..20] == h.ivSeed && s[20..52] == h.phase2Key && s[52..] == h.reserved;
  }

  // sSideParams. `generated` counts the blocks made since the last seeding and
  // `consumed` the keystream bytes used up.
  class SideParams {
    var handshake: Header
    var aesBlock: seq<Byte>
    var generated: nat
    ghost var consumed: nat

    constructor ()
      ensures aesBlock == [] && generated == 0 && consumed == 0
    {
      handshake := Header(MAGIC, seq(16, _ => 0), seq(32, _ => 0), seq(60, _ => 0));
      aesBlock, generated, consumed := [], 0, 0;
    }

    // The block holds the keystream between the consumed and the generated positions.
    ghost predicate Aligned(c: Crypto)
      requires c.Valid()
      reads this
    {
      && consumed + |aesBlock| == generated * c.blockSize
      && aesBlock == c.KeyStream(handshake.phase2Key, handshake.ivSeed, consumed, |aesBlock|)
    }

    method AppendAESBlock(block: seq<Byte>)
      modifies this`aesBlock
      ensures aesBlock == old(aesBlock) + block
    {
      aesBlock := aesBlock + block;
    }

    method CleanAESBlock()
      modifies this`aesBlock
      ensures aesBlock == []
    {
      aesBlock := [];
    }

    method Reduce(bytes: nat)
      modifies this`aesBlock
      ensures aesBlock == old(aesBlock)[Min(bytes, |old(aesBlock)|)..]
    {
      if bytes >= |aesBlock| {
        CleanAESBlock();
      } else {
        aesBlock := aesBlock[bytes..];
      }
    }

    // cryptoXOR: in place over the data block; it refuses when the keystream is short.
    method CryptoXOR(dataBlock: array<Byte>, dontReduce: bool) returns (ok: bool)
      modifies dataBlock, this`aesBlock
      ensures ok <==> dataBlock.Length <= |old(aesBlock)|
      ensures ok ==> dataBlock[..] == XorBytes(old(dataBlock[..]), old(aesBlock))
      ensures ok ==> forall i | 0 <= i < dataBlock.Length :: dataBlock[i] == Xor(old(dataBlock[i]), old(aesBlock)[i])
      ensures ok ==> aesBlock == if dontReduce then old(aesBlock) else old(aesBlock)[dataBlock.Length..]
      ensures !ok ==> dataBlock[..] == old(dataBlock[..]) && aesBlock == old(aesBlock)
    {
      if dataBlock.Length > |aesBlock| {
        return false;
      }
      for i := 0 to dataBlock.Length
        invariant aesBlock == old(aesBlock)
        invariant forall j | 0 <= j < i :: dataBlock[j] == Xor(old(dataBlock[j]), aesBlock[j])
        invariant forall j | i <= j < dataBlock.Length :: dataBlock[j] == old(dataBlock[j])
      {
        dataBlock[i] := Xor(dataBlock[i], aesBlock[i]);
      }
      if !dontReduce {
        Reduce(dataBlock.Length);
      }
      return true;
    }

    // One more block: regenIV and appendNewAESBlock.
    method Extend(c: Crypto)
      requires c.Valid() && Aligned(c)
      modifies this`aesBlock, this`generated
      ensures Aligned(c) && generated == old(generated) + 1
      ensures aesBlock == old(aesBlock) + c.block(handshake.phase2Key, c.iv(handshake.ivSeed, old(generated)))
      ensures |aesBlock| == |old(aesBlock)| + c.blockSize
    {
      var currentIV := c.iv(handshake.ivSeed, generated);
      NextBlock(c, handshake.phase2Key, handshake.ivSeed, consumed, |aesBlock|, generated);
      AppendAESBlock(c.block(handshake.phase2Key, currentIV));
      generated := generated + 1;
    }

    // Blocks are made until the keystream covers a transfer.
    method Cover(c: Crypto, size: nat)
      requires c.Valid() && Aligned(c)
      modifies this`aesBlock, this`generated
      ensures Aligned(c) && size <= |aesBlock|
    {
      while |aesBlock| < size
        invariant Aligned(c)
        decreases size - |aesBlock|
      {
        Extend(c);
      }
    }
  }

  // The block made with vector number `generated` continues the keystream.
  lemma NextBlock(c: Crypto, key: seq<Byte>, seed: seq<Byte>, from: nat, count: nat, generated: nat)
    requires c.Valid() && from + count == generated * c.blockSize
    ensures (generated + 1) * c.blockSize == generated * c.blockSize + c.blockSize
    ensures c.KeyStream(key, seed, from, count) + c.block(key, c.iv(seed, generated))
         == c.KeyStream(key, seed, from, count + c.blockSize)
  {
    var b := c.block(key, c.iv(seed, generated));
    forall j | 0 <= j < c.blockSize
      ensures c.KeyByte(key, seed, from + (count + j)) == b[j]
    {
      PositionInBlock(generated, c.blockSize, j);
    }
  }

  lemma PositionInBlock(n: nat, size: nat, j: nat)
    requires j < size
    ensures (n * size + j) / size == n && (n * size + j) % size == j
  {
    var q, r := (n * size + j) / size, (n * size + j) % size;
    assert n * size + j == q * size + r;
    if q < n {
      MulLess(q, n, size);
    } else if n < q {
      MulLess(n, q, size);
    }
  }

  lemma {:induction false} MulLess(a: nat, b: nat, m: nat)
    requires a < b
    ensures a * m + m <= b * m
    decreases b
  {
    assert b * m == (b - 1) * m + m;
    if a < b - 1 {
      MulLess(a, b - 1, m);
    }
  }

  // The bytes on the wire for plain bytes from a stream position on.
  ghost function Encrypt(c: Crypto, h: Header, from: nat, data: seq<Byte>): (e: seq<Byte>)
    requires c.Valid()
    ensures |e| == |data|
  {
    XorBytes(data, c.KeyStream(h.phase2Key, h.ivSeed, from, |data|))
  }

  // Byte i of a transfer meets one byte of the block made with the vector of its number,
  // and goes out as it is exactly where that byte is zero.
  lemma OnTheWire(c: Crypto, h: Header, from: nat, data: seq<Byte>, i: nat)
    requires c.Valid() && i < |data|
    ensures var k := c.block(h.phase2Key, c.iv(h.ivSeed, (from + i) / c.blockSize))[(from + i) % c.blockSize];
            && Encrypt(c, h, from, data)[i] == Xor(data[i], k)
            && (Encrypt(c, h, from, data)[i] == data[i] <==> k == 0)
  {
    XorKeepsExactly(data[i], c.KeyByte(h.phase2Key, h.ivSeed, from + i));
  }

  // The wire shows a byte of the data as it is exactly where the keystream is zero.
  ghost predicate Shielded(c: Crypto, h: Header, from: nat, data: seq<Byte>, wire: seq<Byte>)
    requires c.Valid()
  {
    |wire| == |data| &&
    forall i | 0 <= i < |data| ::
      var block := c.block(h.phase2Key, c.iv(h.ivSeed, (from + i) / c.blockSize));
      wire[i] == data[i] <==> block[(from + i) % c.blockSize] == 0
  }

  lemma EncryptShields(c: Crypto, h: Header, from: nat, data: seq<Byte>)
    requires c.Valid()
    ensures Shielded(c, h, from, data, Encrypt(c, h, from, data))
  {
    hide Encrypt, Xor;
    forall i | 0 <= i < |data|
      ensures Encrypt(c, h, from, data)[i] == data[i]
         <==> c.block(h.phase2Key, c.iv(h.ivSeed, (from + i) / c.blockSize))[(from + i) % c.blockSize] == 0
    {
      OnTheWire(c, h, from, data, i);
    }
  }

  // What was encrypted from a longer keystream is, for each prefix, what the
  // prefix alone encrypts to.
  lemma EncryptPrefix(c: Crypto, h: Header, from: nat, data: seq<Byte>, stream: seq<Byte>, n: nat)
    requires c.Valid() && n <= |data| <= |stream|
    requires stream == c.KeyStream(h.phase2Key, h.ivSeed, from, |stream|)
    ensures XorBytes(data, stream)[..n] == Encrypt(c, h, from, data[..n])
  {
  }

  lemma EncryptConcat(c: Crypto, h: Header, from: nat, x: seq<Byte>, y: seq<Byte>)
    requires c.Valid()
    ensures Encrypt(c, h, from, x + y) == Encrypt(c, h, from, x) + Encrypt(c, h, from + |x|, y)
  {
    forall i | 0 <= i < |x| + |y|
      ensures Encrypt(c, h, from, x + y)[i] == (Encrypt(c, h, from, x) + Encrypt(c, h, from + |x|, y))[i]
    {
      assert from + i == from + |x| + (i - |x|);
    }
  }

  lemma EncryptTwice(c: Crypto, h: Header, from: nat, x: seq<Byte>)
    requires c.Valid()
    ensures Encrypt(c, h, from, Encrypt(c, h, from, x)) == x
  {
    XorBytesTwice(x, c.KeyStream(h.phase2Key, h.ivSeed, from, |x|));
  }

  // ---- The handshake -----------------------------------------------------------------

  // What a side sends first: its vector in the clear, then its header. A block size
  // below the header's leaves the header as it is, on both ends.
  function HandshakeMessage(c: Crypto, phase1Key: seq<Byte>, iv: seq<Byte>, header: seq<Byte>): seq<Byte> {
    iv + Mask(c, phase1Key, iv, header)
  }

  function Mask(c: Crypto, phase1Key: seq<Byte>, iv: seq<Byte>, header: seq<Byte>): (r: seq<Byte>)
    ensures |r| == |header|
  {
    if |header| <= |c.block(phase1Key, iv)| then XorBytes(header, c.block(phase1Key, iv)) else header
  }

  lemma MaskTwice(c: Crypto, phase1Key: seq<Byte>, iv: seq<Byte>, header: seq<Byte>)
    ensures Mask(c, phase1Key, iv, Mask(c, phase1Key, iv, header)) == header
  {
    if |header| <= |c.block(phase1Key, iv)| {
      XorBytesTwice(header, c.block(phase1Key, iv));
    }
  }

  // The vector goes out in the clear, and so does a byte of the header exactly where the
  // block is zero, or everywhere if the block is shorter than the header.
  lemma HandshakeMasked(c: Crypto, phase1Key: seq<Byte>, iv: seq<Byte>, header: seq<Byte>)
    requires |iv| == 16 && |header| == 112
    ensures var (m, b) := (HandshakeMessage(c, phase1Key, iv, header), c.block(phase1Key, iv));
            && |m| == 128 && m[..16] == iv
            && forall i | 0 <= i < 112 ::
                 if |b| < 112 then m[16 + i] == header[i]
                 else m[16 + i] == Xor(header[i], b[i]) && (m[16 + i] == header[i] <==> b[i] == 0)
  {
    var m, b := HandshakeMessage(c, phase1Key, iv, header), c.block(phase1Key, iv);
    forall i | 0 <= i < 112
      ensures m[16 + i] == if |b| < 112 then header[i] else Xor(header[i], b[i])
      ensures |b| >= 112 ==> (Xor(header[i], b[i]) == header[i] <==> b[i] == 0)
    {
      if |b| >= 112 {
        XorKeepsExactly(header[i], b[i]);
      }
    }
  }

  // The header a side reads out of a handshake message.
  function OpenHandshake(c: Crypto, phase1Key: seq<Byte>, message: seq<Byte>): Header
    requires |message| == IV_SIZE + HEADER_SIZE
  {
    ParseHeader(Mask(c, phase1Key, message[..IV_SIZE], message[IV_SIZE..]))
  }

  // With the same phase-1 key on both ends, the header arrives as it was sent.
  lemma HandshakeOpens(c: Crypto, phase1Key: seq<Byte>, iv: seq<Byte>, h: Header)
    requires |iv| == IV_SIZE && h.Valid()
    ensures |HandshakeMessage(c, phase1Key, iv, h.Bytes())| == IV_SIZE + HEADER_SIZE
    ensures OpenHandshake(c, phase1Key, HandshakeMessage(c, phase1Key, iv, h.Bytes())) == h
  {
    var m := HandshakeMessage(c, phase1Key, iv, h.Bytes());
    assert m[..IV_SIZE] == iv && m[IV_SIZE..] == Mask(c, phase1Key, iv, h.Bytes());
    MaskTwice(c, phase1Key, iv, h.Bytes());
    HeaderRoundTrip(h);
  }

  // ---- The socket --------------------------------------------------------------------

  // Socket_Chain_AES over a plain stream socket.
  class ChainSocket {
    const base: SocketStream
    const readParams: SideParams
    const writeParams: SideParams
    const crypto: Crypto
    var phase1Key: seq<Byte>
    var initialized: bool
    // Everything partialWrite reported sent, and everything partialRead returned.
    ghost var sent: seq<Byte>
    ghost var received: seq<Byte>

    constructor (base: SocketStream, crypto: Crypto, phase1Key: seq<Byte>)
      ensures this.base == base && this.crypto == crypto && this.phase1Key == phase1Key
      ensures fresh(readParams) && fresh(writeParams) && readParams != writeParams
      ensures readParams.aesBlock == [] && writeParams.aesBlock == []
      ensures !initialized && sent == [] && received == []
    {
      this.base, this.crypto, this.phase1Key := base, crypto, phase1Key;
      readParams := new SideParams();
      writeParams := new SideParams();
      initialized, sent, received := false, [], [];
    }

    // Ready to exchange data: both keystreams stand where the bytes stand.
    ghost predicate Ready()
      reads this, readParams, writeParams
    {
      && initialized && crypto.Valid() && readParams != writeParams
      && base.outWire != base.inWire
      && writeParams.Aligned(crypto) && writeParams.consumed == |sent|
      && readParams.Aligned(crypto) && readParams.consumed == |received|
    }

    // The transmitting half of postAcceptSubInitialization, with the random bytes as
    // parameters.
    method SendHandshake(iv: seq<Byte>, phase2Key: seq<Byte>, ivSeed: seq<Byte>) returns (ok: bool)
      requires !initialized && crypto.Valid() && writeParams.aesBlock == []
      requires |iv| == IV_SIZE && |phase2Key| == 32 && |ivSeed| == 16
      modifies base.outWire, base`live, writeParams
      ensures ok ==>
                && var h := writeParams.handshake;
                h == Header([0x49, 0x48, 0x44, 0x52], ivSeed, phase2Key, h.reserved) && h.Valid()
                && base.outWire.pending
                     == old(base.outWire.pending) + HandshakeMessage(crypto, phase1Key, iv, h.Bytes())
                && writeParams.Aligned(crypto) && writeParams.consumed == 0
                && base.live == old(base.live)
      ensures base.healthy && old(base.live) ==> ok
    {
      ok := base.WriteFull(iv);
      if !ok {
        return;
      }
      writeParams.AppendAESBlock(crypto.block(phase1Key, iv));
      assert writeParams.aesBlock == crypto.block(phase1Key, iv);
      var h := Header(MAGIC, ivSeed, phase2Key, seq(60, _ => 0));
      writeParams.handshake := h;
      var bytes := h.Bytes();
      var firstLoad := new Byte[|bytes|](i requires 0 <= i < |bytes| => bytes[i]);
      assert firstLoad[..] == bytes;
      var masked := writeParams.CryptoXOR(firstLoad, false);
      assert firstLoad[..] == Mask(crypto, phase1Key, iv, bytes);
      ok := base.WriteFull(firstLoad[..]);
      if !ok {
        return;
      }
      ConcatAssoc(old(base.outWire.pending), iv, firstLoad[..]);
      writeParams.CleanAESBlock();
      writeParams.generated, writeParams.consumed := 0, 0;
      EmptyStream(crypto, h);
    }

    // Its receiving half: it succeeds only if the header decrypts to one that begins
    // with the magic bytes.
    method ReceiveHandshake() returns (ok: bool)
      requires !initialized && crypto.Valid() && readParams.aesBlock == []
      modifies base.inWire, readParams, this`initialized
      ensures ok == initialized
      ensures ok ==>
                && IV_SIZE + HEADER_SIZE <= |old(base.inWire.pending)|
                && readParams.handshake
                     == OpenHandshake(crypto, phase1Key, old(base.inWire.pending)[..IV_SIZE + HEADER_SIZE])
                && readParams.handshake.magic == MAGIC
                && base.inWire.pending == old(base.inWire.pending)[IV_SIZE + HEADER_SIZE..]
                && readParams.Aligned(crypto) && readParams.consumed == 0
      ensures base.healthy && base.live && IV_SIZE + HEADER_SIZE <= |old(base.inWire.pending)| ==>
                (ok <==>
                   OpenHandshake(crypto, phase1Key, old(base.inWire.pending)[..IV_SIZE + HEADER_SIZE]).magic == MAGIC)
    {
      ghost var stream := base.inWire.pending;
      var iv, bytes;
      ok, iv := base.ReadFull(IV_SIZE);
      if !ok {
        return;
      }
      ok, bytes := base.ReadFull(HEADER_SIZE);
      if !ok {
        return;
      }
      MessageParts(stream);
      readParams.AppendAESBlock(crypto.block(phase1Key, iv));
      assert readParams.aesBlock == crypto.block(phase1Key, iv);
      var firstLoad := new Byte[HEADER_SIZE](i requires 0 <= i < HEADER_SIZE => bytes[i]);
      assert firstLoad[..] == bytes;
      var masked := readParams.CryptoXOR(firstLoad, false);
      assert firstLoad[..] == Mask(crypto, phase1Key, iv, bytes);
      readParams.handshake := ParseHeader(firstLoad[..]);
      if readParams.handshake.magic != MAGIC {
        return false;
      }
      readParams.CleanAESBlock();
      readParams.generated, readParams.consumed := 0, 0;
      EmptyStream(crypto, readParams.handshake);
      initialized := true;
    }

    // partialWrite: the data is encrypted whole, but the keystream is consumed only
    // for the part the network took.
    method PartialWrite(data: seq<Byte>) returns (r: int)
      requires Ready()
      modifies base.outWire, writeParams, this`sent
      ensures Ready() && r <= |data|
      ensures writeParams.handshake == old(writeParams.handshake)
      ensures sent == old(sent) + (if r > 0 then data[..r] else [])
      ensures base.outWire.pending == old(base.outWire.pending)
                + Encrypt(crypto, writeParams.handshake, |old(sent)|, if r > 0 then data[..r] else [])
      ensures var taken := if r > 0 then data[..r] else [];
              Shielded(crypto, writeParams.handshake, |old(sent)|, taken,
                       base.outWire.pending[|old(base.outWire.pending)|..])
      ensures base.healthy && base.live && data != [] ==> r > 0
    {
      hide Encrypt, Xor, XorBytes, Shielded;
      var edata := new Byte[|data|](i requires 0 <= i < |data| => data[i]);
      assert edata[..] == data;
      writeParams.Cover(crypto, |data|);
      var ok := writeParams.CryptoXOR(edata, true);
      r := base.PartialWrite(edata[..]);
      ghost var taken := if r > 0 then data[..r] else [];
      EncryptPrefix(crypto, writeParams.handshake, |sent|, data, writeParams.aesBlock, |taken|);
      if r > 0 {
        StreamDrop(crypto, writeParams.handshake, writeParams.consumed, |writeParams.aesBlock|, r);
        writeParams.Reduce(r);
        writeParams.consumed := writeParams.consumed + r;
      }
      assert base.outWire.pending[|old(base.outWire.pending)|..]
          == Encrypt(crypto, writeParams.handshake, |sent|, taken);
      EncryptShields(crypto, writeParams.handshake, |sent|, taken);
      sent := sent + taken;
    }

    // partialRead: decrypts what arrived, and consumes as much keystream.
    method PartialRead(max: nat) returns (r: int, data: seq<Byte>)
      requires Ready()
      modifies base.inWire, readParams, this`received
      ensures Ready() && r <= max
      ensures readParams.handshake == old(readParams.handshake)
      ensures r > 0 ==>
                && r <= |old(base.inWire.pending)|
                && data == Encrypt(crypto, readParams.handshake, |old(received)|, old(base.inWire.pending)[..r])
                && received == old(received) + data
                && base.inWire.pending == old(base.inWire.pending)[r..]
      ensures r <= 0 ==> received == old(received) && base.inWire.pending == old(base.inWire.pending)
      ensures base.healthy && base.live && max > 0 && old(base.inWire.pending) != [] ==> r > 0
    {
      var raw;
      r, raw := base.PartialRead(max);
      if r <= 0 {
        return r, [];
      }
      readParams.Cover(crypto, r);
      var block := new Byte[|raw|](i requires 0 <= i < |raw| => raw[i]);
      assert block[..] == raw;
      EncryptPrefix(crypto, readParams.handshake, |received|, raw, readParams.aesBlock, r);
      StreamDrop(crypto, readParams.handshake, readParams.consumed, |readParams.aesBlock|, r);
      assert raw[..r] == raw;
      var ok := readParams.CryptoXOR(block, false);
      data := block[..];
      assert data[..r] == data;
      readParams.consumed := readParams.consumed + r;
      received := received + data;
    }
  }

  lemma EmptyStream(c: Crypto, h: Header)
    requires c.Valid()
    ensures c.KeyStream(h.phase2Key, h.ivSeed, 0, 0) == []
  {
  }

  lemma MessageParts(s: seq<Byte>)
    requires IV_SIZE + HEADER_SIZE <= |s|
    ensures s[..IV_SIZE + HEADER_SIZE][..IV_SIZE] == s[..IV_SIZE]
    ensures s[..IV_SIZE + HEADER_SIZE][IV_SIZE..] == s[IV_SIZE..][..HEADER_SIZE]
    ensures s[IV_SIZE..][HEADER_SIZE..] == s[IV_SIZE + HEADER_SIZE..]
  {
  }

  // Dropping used keystream leaves the keystream from the later position on.
  lemma StreamDrop(c: Crypto, h: Header, from: nat, count: nat, n: nat)
    requires c.Valid() && n <= count
    ensures c.KeyStream(h.phase2Key, h.ivSeed, from, count)[n..]
         == c.KeyStream(h.phase2Key, h.ivSeed, from + n, count - n)
  {
    forall j | 0 <= j < count - n
      ensures c.KeyStream(h.phase2Key, h.ivSeed, from, count)[n..][j] == c.KeyByte(h.phase2Key, h.ivSeed, from + n + j)
    {
      assert from + (n + j) == from + n + j;
    }
  }
}
