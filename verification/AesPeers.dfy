// Two Socket_Chain_AES sockets joined by two wires: the receiving end of each
// direction stays in step with the sending end (Net_Chains/socket_chain_aes.cpp).
module AesPeers {
  import opened Common
  import opened SocketStreams
  import opened AesChain

  // The objects of the two ends are distinct, and the wires are crossed.
  ghost predicate Joined(a: ChainSocket, b: ChainSocket) {
    && a != b && a.base != b.base
    && a.base.outWire == b.base.inWire && b.base.outWire == a.base.inWire && a.base.outWire != b.base.outWire
    && a.readParams != a.writeParams && b.readParams != b.writeParams
    && a.readParams != b.readParams && a.readParams != b.writeParams
    && a.writeParams != b.readParams && a.writeParams != b.writeParams
    && a.crypto == b.crypto && a.crypto.Valid()
  }

  // A sending side whose handshake is out.
  ghost predicate Sending(a: ChainSocket)
    requires a.crypto.Valid()
    reads a, a.writeParams
  {
    a.writeParams.Aligned(a.crypto) && a.writeParams.consumed == |a.sent|
  }

  // A receiving side, before or after it has read the peer's handshake.
  ghost predicate Receiving(b: ChainSocket)
    requires b.crypto.Valid()
    reads b, b.readParams
  {
    if b.initialized then
      b.readParams.Aligned(b.crypto) && b.readParams.consumed == |b.received|
    else
      b.readParams.aesBlock == [] && b.received == []
  }

  // What is under way from a to b: the bytes sent and not yet received, enciphered
  // from the position where b stands, after the handshake if b still has to read it.
  ghost predicate InStep(a: ChainSocket, b: ChainSocket)
    requires a.crypto.Valid()
    reads a, a.writeParams, a.base.outWire, b, b.readParams
  {
    var h := a.writeParams.handshake;
    if b.initialized then
      && b.readParams.handshake == h
      && b.received <= a.sent
      && a.base.outWire.pending == Encrypt(a.crypto, h, |b.received|, a.sent[|b.received|..])
    else
      && h.Valid() && h.magic == MAGIC
      && exists iv: seq<Byte> | |iv| == IV_SIZE ::
        a.base.outWire.pending
          == HandshakeMessage(a.crypto, b.phase1Key, iv, h.Bytes()) + Encrypt(a.crypto, h, 0, a.sent)
  }

  // Both directions of a joined pair.
  ghost predicate Linked(a: ChainSocket, b: ChainSocket)
    reads a, a.readParams, a.writeParams, a.base.outWire
    reads b, b.readParams, b.writeParams, b.base.outWire
  {
    && Joined(a, b) && a.phase1Key == b.phase1Key
    && Sending(a) && Receiving(a) && Sending(b) && Receiving(b)
    && InStep(a, b) && InStep(b, a)
  }

  // Both ends send their handshakes; neither has read yet.
  method SendBoth(a: ChainSocket, b: ChainSocket, ivs: (seq<Byte>, seq<Byte>), keys: (seq<Byte>, seq<Byte>),
                  seeds: (seq<Byte>, seq<Byte>)) returns (ok: bool)
    requires Joined(a, b) && a.phase1Key == b.phase1Key
    requires !a.initialized && a.writeParams.aesBlock == [] && a.readParams.aesBlock == [] && a.sent == [] == a.received
    requires !b.initialized && b.writeParams.aesBlock == [] && b.readParams.aesBlock == [] && b.sent == [] == b.received
    requires a.base.outWire.pending == [] && b.base.outWire.pending == []
    requires |ivs.0| == IV_SIZE == |ivs.1| && |keys.0| == 32 == |keys.1| && |seeds.0| == 16 == |seeds.1|
    modifies a.base.outWire, b.base.outWire, a.base`live, b.base`live, a.writeParams, b.writeParams
    ensures ok ==> Linked(a, b)
    ensures a.base.healthy && b.base.healthy && old(a.base.live && b.base.live) ==> ok && a.base.live && b.base.live
  {
    ok := a.SendHandshake(ivs.0, keys.0, seeds.0);
    if !ok {
      return;
    }
    ok := b.SendHandshake(ivs.1, keys.1, seeds.1);
    if !ok {
      return;
    }
    AfterHandshake(a, b, ivs.0);
    AfterHandshake(b, a, ivs.1);
  }

  lemma AfterHandshake(a: ChainSocket, b: ChainSocket, iv: seq<Byte>)
    requires a.crypto.Valid() && !b.initialized && a.sent == [] && |iv| == IV_SIZE
    requires a.writeParams.handshake.Valid() && a.writeParams.handshake.magic == MAGIC
    requires a.base.outWire.pending == [] + HandshakeMessage(a.crypto, b.phase1Key, iv, a.writeParams.handshake.Bytes())
    ensures InStep(a, b)
  {
    var h := a.writeParams.handshake;
    var m := HandshakeMessage(a.crypto, b.phase1Key, iv, h.Bytes());
    assert a.base.outWire.pending == m + Encrypt(a.crypto, h, 0, a.sent);
  }

  // One end writes: any part of the data may be taken.
  method WriteSome(a: ChainSocket, b: ChainSocket, data: seq<Byte>) returns (r: int)
    requires Linked(a, b) && a.initialized
    modifies a.base.outWire, a.writeParams, a`sent
    ensures Linked(a, b) && r <= |data|
    ensures a.sent == old(a.sent) + (if r > 0 then data[..r] else [])
  {
    ghost var sent, pending := a.sent, a.base.outWire.pending;
    r := a.PartialWrite(data);
    ghost var taken := if r > 0 then data[..r] else [];
    WriteKeeps(a, b, sent, taken, pending);
  }

  lemma WriteKeeps(a: ChainSocket, b: ChainSocket, sent: seq<Byte>, taken: seq<Byte>, pending: seq<Byte>)
    requires a.crypto.Valid() && a.sent == sent + taken
    requires var h := a.writeParams.handshake;
             && a.base.outWire.pending == pending + Encrypt(a.crypto, h, |sent|, taken)
             && if b.initialized then
                  && b.readParams.handshake == h && b.received <= sent
                  && pending == Encrypt(a.crypto, h, |b.received|, sent[|b.received|..])
                else
                  && h.Valid() && h.magic == MAGIC
                  && exists iv: seq<Byte> | |iv| == IV_SIZE ::
                    pending == HandshakeMessage(a.crypto, b.phase1Key, iv, h.Bytes()) + Encrypt(a.crypto, h, 0, sent)
    ensures InStep(a, b)
  {
    hide Encrypt, HandshakeMessage;
    var c, h := a.crypto, a.writeParams.handshake;
    if b.initialized {
      WrittenBehind(c, h, |b.received|, sent, taken);
    } else {
      var iv: seq<Byte> :| |iv| == IV_SIZE
        && pending == HandshakeMessage(c, b.phase1Key, iv, h.Bytes()) + Encrypt(c, h, 0, sent);
      var m := HandshakeMessage(c, b.phase1Key, iv, h.Bytes());
      EncryptConcat(c, h, 0, sent, taken);
      ConcatAssoc(m, Encrypt(c, h, 0, sent), Encrypt(c, h, |sent|, taken));
      assert a.base.outWire.pending == m + Encrypt(c, h, 0, a.sent);
    }
  }

  lemma WrittenBehind(c: Crypto, h: Header, n: nat, sent: seq<Byte>, taken: seq<Byte>)
    requires c.Valid() && n <= |sent|
    ensures Encrypt(c, h, n, sent[n..]) + Encrypt(c, h, |sent|, taken) == Encrypt(c, h, n, (sent + taken)[n..])
  {
    hide Encrypt;
    assert (sent + taken)[n..] == sent[n..] + taken;
    EncryptConcat(c, h, n, sent[n..], taken);
  }

  // The other end reads: what it gets is what was sent next.
  method ReadSome(a: ChainSocket, b: ChainSocket, max: nat) returns (r: int, data: seq<Byte>)
    requires Linked(a, b) && b.initialized
    modifies b.base.inWire, b.readParams, b`received
    ensures Linked(a, b)
    ensures r > 0 ==> b.received == old(b.received) + data && b.received <= a.sent && |data| == r
    ensures r <= 0 ==> b.received == old(b.received)
    ensures b.base.healthy && b.base.live && max > 0 && |old(b.received)| < |a.sent| ==> r > 0
  {
    hide Encrypt, HandshakeMessage;
    ghost var n := |b.received|;
    ghost var rest := a.sent[n..];
    ghost var pending := b.base.inWire.pending;
    r, data := b.PartialRead(max);
    if r > 0 {
      ReadDecrypts(a.crypto, a.writeParams.handshake, n, rest, r);
      assert data == rest[..r];
      assert a.sent[n + r..] == rest[r..];
      assert a.sent[..n + r] == a.sent[..n] + rest[..r];
    }
  }

  lemma ReadDecrypts(c: Crypto, h: Header, from: nat, rest: seq<Byte>, r: nat)
    requires c.Valid() && r <= |rest|
    ensures Encrypt(c, h, from, Encrypt(c, h, from, rest)[..r]) == rest[..r]
    ensures Encrypt(c, h, from, rest)[r..] == Encrypt(c, h, from + r, rest[r..])
  {
    hide Encrypt;
    assert rest == rest[..r] + rest[r..];
    EncryptConcat(c, h, from, rest[..r], rest[r..]);
    EncryptTwice(c, h, from, rest[..r]);
  }

  // The other end reads the handshake, whatever has been sent behind it.
  method Receive(a: ChainSocket, b: ChainSocket) returns (ok: bool)
    requires Linked(a, b) && !b.initialized
    modifies b.base.inWire, b.readParams, b`initialized
    ensures ok ==> Linked(a, b)
    ensures b.base.healthy && b.base.live ==> ok
  {
    ghost var c, h := a.crypto, a.writeParams.handshake;
    ghost var iv: seq<Byte> :| |iv| == IV_SIZE
      && a.base.outWire.pending == HandshakeMessage(c, b.phase1Key, iv, h.Bytes()) + Encrypt(c, h, 0, a.sent);
    ghost var m := HandshakeMessage(c, b.phase1Key, iv, h.Bytes());
    HandshakeOpens(c, b.phase1Key, iv, h);
    assert a.base.outWire.pending[..|m|] == m && a.base.outWire.pending[|m|..] == Encrypt(c, h, 0, a.sent);
    ok := b.ReceiveHandshake();
    assert a.sent[0..] == a.sent;
  }

  // What the two applications and the network do, in any order.
  datatype Action = Handshake(first: bool) | Write(first: bool, data: seq<Byte>) | Read(first: bool, max: nat)

  // Any schedule of handshake receptions, partial writes and partial reads.
  method Exchange(a: ChainSocket, b: ChainSocket, schedule: seq<Action>) returns (ok: bool)
    requires Linked(a, b)
    modifies a, b, a.readParams, a.writeParams, b.readParams, b.writeParams, a.base.outWire, b.base.outWire
    ensures a.received <= b.sent && b.received <= a.sent
    ensures ok ==> Linked(a, b)
    ensures ok && b.initialized && a.base.outWire.pending == [] ==> b.received == a.sent
    ensures ok && a.initialized && b.base.outWire.pending == [] ==> a.received == b.sent
    ensures a.base.healthy && a.base.live && b.base.healthy && b.base.live ==> ok
  {
    var i := 0;
    ok := true;
    while i < |schedule| && ok
      invariant 0 <= i <= |schedule|
      invariant a.received <= b.sent && b.received <= a.sent
      invariant ok ==> Linked(a, b)
      invariant a.base.healthy && a.base.live && b.base.healthy && b.base.live ==> ok
    {
      if schedule[i].first {
        ok := Perform(a, b, schedule[i]);
      } else {
        ok := Perform(b, a, schedule[i]);
      }
      i := i + 1;
    }
  }

  // One action of the end x. An application has no socket to use before the
  // handshake is done.
  method Perform(x: ChainSocket, y: ChainSocket, action: Action) returns (ok: bool)
    requires Linked(x, y)
    modifies x, x.readParams, x.writeParams, x.base.outWire, x.base.inWire
    ensures ok ==> Linked(x, y)
    ensures x.received <= y.sent && y.received <= x.sent
    ensures x.base.healthy && x.base.live ==> ok
  {
    ok := true;
    match action {
      case Handshake(_) =>
        if !x.initialized {
          ok := Receive(y, x);
        }
      case Write(_, data) =>
        if x.initialized {
          var r := WriteSome(x, y, data);
        }
      case Read(_, max) =>
        if x.initialized {
          var r, data := ReadSome(y, x, max);
        }
    }
  }
}
