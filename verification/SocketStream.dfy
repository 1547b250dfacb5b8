// A stream socket over a reliable connection, and its loops over partial
// transfers (Net_Sockets/socket_stream.cpp).
module SocketStreams {
  import opened Common

  // One direction of a connection: the bytes sent and not yet received.
  class Wire {
    var pending: seq<Byte>

    constructor ()
      ensures pending == []
    {
      pending := [];
    }
  }

  const MAX_TRANSFER: nat := 4096
  const SSIZE_LIMIT: nat := 0x8000_0000_0000_0000

  class SocketStream {
    const outWire: Wire
    const inWire: Wire
    // Whether the socket has not been shut down, and whether the network below it
    // always moves at least one byte when it can.
    var live: bool
    const healthy: bool

    constructor (outWire: Wire, inWire: Wire, healthy: bool)
      ensures this.outWire == outWire && this.inWire == inWire && this.healthy == healthy && live
    {
      this.outWire, this.inWire, this.healthy, live := outWire, inWire, healthy, true;
    }

    // One send call: the system takes any positive number of the bytes, or fails.
    method PartialWrite(data: seq<Byte>) returns (r: int)
      modifies outWire
      ensures r <= |data|
      ensures outWire.pending == old(outWire.pending) + (if r > 0 then data[..r] else [])
      ensures healthy && live && data != [] ==> r > 0
    {
      r :| r <= |data| && (healthy && live && data != [] ==> r > 0);
      if r > 0 {
        outWire.pending := outWire.pending + data[..r];
      }
    }

    // One receive call: any positive number of the bytes that have arrived, or a
    // failure, or the end of the connection.
    method PartialRead(max: nat) returns (r: int, data: seq<Byte>)
      modifies inWire
      ensures r <= max && r <= |old(inWire.pending)|
      ensures data == if r > 0 then old(inWire.pending)[..r] else []
      ensures inWire.pending == old(inWire.pending)[|data|..]
      ensures healthy && live && max > 0 && old(inWire.pending) != [] ==> r > 0
    {
      var most := Min(max, |inWire.pending|);
      r :| r <= most && (healthy && live && most > 0 ==> r > 0);
      data := if r > 0 then inWire.pending[..r] else [];
      inWire.pending := inWire.pending[|data|..];
    }

    method ShutdownSocket()
      modifies this`live
      ensures !live
    {
      live := false;
    }

    // writeFull: all of the data, in pieces, however the transfers are cut.
    method WriteFull(data: seq<Byte>) returns (ok: bool)
      modifies outWire, this`live
      ensures ok ==> outWire.pending == old(outWire.pending) + data && live == old(live)
      ensures healthy && old(live) && |data| < SSIZE_LIMIT ==> ok
      ensures !ok ==> exists k: nat | k <= |data| :: outWire.pending == old(outWire.pending) + data[..k]
    {
      assert old(outWire.pending) + data[..0] == old(outWire.pending);
      if |data| >= SSIZE_LIMIT {
        return false;
      }
      var remaining := |data|;
      while remaining > 0
        invariant 0 <= remaining <= |data| && live == old(live)
        invariant outWire.pending == old(outWire.pending) + data[..|data| - remaining]
      {
        var at := |data| - remaining;
        var chunkSize := Min(remaining, MAX_TRANSFER);
        var sentBytes := PartialWrite(data[at..at + chunkSize]);
        if sentBytes <= 0 {
          ShutdownSocket();
          return false;
        }
        assert data[..at] + data[at..at + chunkSize][..sentBytes] == data[..at + sentBytes];
        ConcatAssoc(old(outWire.pending), data[..at], data[at..at + chunkSize][..sentBytes]);
        remaining := remaining - sentBytes;
      }
      assert data[..|data|] == data;
      return true;
    }

    // readFull: exactly the next bytes of the stream, or failure.
    method ReadFull(expected: nat) returns (ok: bool, data: seq<Byte>)
      modifies inWire
      ensures ok ==> expected <= |old(inWire.pending)| && data == old(inWire.pending)[..expected]
                     && inWire.pending == old(inWire.pending)[expected..]
      ensures healthy && live && expected <= |old(inWire.pending)| ==> ok
    {
      data := [];
      while |data| < expected
        invariant |data| <= expected && |data| <= |old(inWire.pending)|
        invariant data == old(inWire.pending)[..|data|]
        invariant inWire.pending == old(inWire.pending)[|data|..]
      {
        var bytesToRead := Min(MAX_TRANSFER, expected - |data|);
        var r, piece := PartialRead(bytesToRead);
        if r < 0 {
          return false, data;
        } else if r == 0 {
          break;
        }
        data := data + piece;
      }
      ok := |data| == expected;
    }
  }
}
