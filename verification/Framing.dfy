// Length-prefixed blocks and strings on a stream
// (Net_Sockets/socket_stream_writer.h and .cpp, socket_stream_reader.h and .cpp).
module Framing {
  import opened Common
  import opened SocketStreams

  // ---- Integers in network byte order ----------------------------------------------

  // The number of values of an unsigned integer of w bytes.
  function Limit(w: nat): (n: nat)
    ensures n > 0
  {
    if w == 0 then 1 else 256 * Limit(w - 1)
  }

  // The w bytes of a number, most significant first.
  function BigEndian(v: nat, w: nat): (s: seq<Byte>)
    ensures |s| == w
  {
    if w == 0 then [] else BigEndian(v / 256, w - 1) + [(v % 256) as Byte]
  }

  function FromBigEndian(s: seq<Byte>): nat {
    if s == [] then 0 else 256 * FromBigEndian(s[..|s| - 1]) + s[|s| - 1] as nat
  }

  lemma {:induction false} BigEndianRoundTrip(v: nat, w: nat)
    requires v < Limit(w)
    ensures FromBigEndian(BigEndian(v, w)) == v
  {
    if w > 0 {
      BigEndianRoundTrip(v / 256, w - 1);
      assert BigEndian(v, w)[..w - 1] == BigEndian(v / 256, w - 1);
    }
  }

  lemma {:induction false} BytesBack(s: seq<Byte>)
    ensures FromBigEndian(s) < Limit(|s|) && BigEndian(FromBigEndian(s), |s|) == s
  {
    if s != [] {
      var front := s[..|s| - 1];
      BytesBack(front);
      var v := 256 * FromBigEndian(front) + s[|s| - 1] as nat;
      assert v / 256 == FromBigEndian(front) && v % 256 == s[|s| - 1] as nat;
      assert front + [s[|s| - 1]] == s;
    }
  }

  const HALF: nat := 0x1_0000_0000

  lemma FourDigits(v: nat)
    ensures BigEndian(v, 4) == [(v / 0x100_0000 % 256) as Byte, (v / 0x1_0000 % 256) as Byte,
                                (v / 256 % 256) as Byte, (v % 256) as Byte]
  {
    assert v / 256 / 256 == v / 0x1_0000;
    assert v / 256 / 256 / 256 == v / 0x100_0000;
    assert BigEndian(v / 256 / 256 / 256 / 256, 0) == [];
    assert BigEndian(v / 256 / 256 / 256, 1) == [(v / 0x100_0000 % 256) as Byte];
    assert BigEndian(v / 256 / 256, 2) == BigEndian(v / 256 / 256 / 256, 1) + [(v / 0x1_0000 % 256) as Byte];
    assert BigEndian(v / 256, 3) == BigEndian(v / 256 / 256, 2) + [(v / 256 % 256) as Byte];
  }

  lemma ShortDigits(v: nat)
    ensures BigEndian(v, 1) == [(v % 256) as Byte]
    ensures BigEndian(v, 2) == [(v / 256 % 256) as Byte, (v % 256) as Byte]
  {
    assert BigEndian(v / 256 / 256, 0) == [] && BigEndian(v / 256, 0) == [];
    assert BigEndian(v / 256, 1) == [(v / 256 % 256) as Byte];
  }

  lemma EightDigits(v: nat)
    ensures BigEndian(v, 8) == BigEndian(v / HALF, 4)
              + [(v / 0x100_0000 % 256) as Byte, (v / 0x1_0000 % 256) as Byte,
                 (v / 256 % 256) as Byte, (v % 256) as Byte]
  {
    assert v / 256 / 256 == v / 0x1_0000;
    assert v / 256 / 256 / 256 == v / 0x100_0000;
    assert v / 256 / 256 / 256 / 256 == v / HALF;
    assert BigEndian(v / 256 / 256 / 256, 5) == BigEndian(v / HALF, 4) + [(v / 0x100_0000 % 256) as Byte];
    assert BigEndian(v / 256 / 256, 6) == BigEndian(v / 256 / 256 / 256, 5) + [(v / 0x1_0000 % 256) as Byte];
    assert BigEndian(v / 256, 7) == BigEndian(v / 256 / 256, 6) + [(v / 256 % 256) as Byte];
    assert BigEndian(v, 8) == BigEndian(v / 256, 7) + [(v % 256) as Byte];
  }

  // The 64-bit writer swaps the two 32-bit halves and the bytes of each: that is
  // the same as writing the whole number most significant byte first.
  lemma SwappedHalves(v: nat)
    ensures BigEndian(v, 8) == BigEndian(v / HALF, 4) + BigEndian(v % HALF, 4)
  {
    hide BigEndian;
    EightDigits(v);
    FourDigits(v % HALF);
    LowDigits(v);
  }

  lemma LowDigits(v: nat)
    ensures v % HALF / 0x100_0000 % 256 == v / 0x100_0000 % 256
    ensures v % HALF / 0x1_0000 % 256 == v / 0x1_0000 % 256
    ensures v % HALF / 256 % 256 == v / 256 % 256
    ensures v % HALF % 256 == v % 256
  {
    var hi, lo := v / HALF, v % HALF;
    assert v == hi * HALF + lo;
    LowDigit3(hi, lo);
    LowDigit2(hi, lo);
    LowDigit1(hi, lo);
    LowDigit0(hi, lo);
  }

  lemma LowDigit3(hi: nat, lo: nat)
    ensures (hi * HALF + lo) / 0x100_0000 % 256 == lo / 0x100_0000 % 256
  {
    assert (hi * HALF + lo) / 0x100_0000 == hi * 256 + lo / 0x100_0000;
  }

  lemma LowDigit2(hi: nat, lo: nat)
    ensures (hi * HALF + lo) / 0x1_0000 % 256 == lo / 0x1_0000 % 256
  {
    assert (hi * HALF + lo) / 0x1_0000 == hi * 0x1_0000 + lo / 0x1_0000;
  }

  lemma LowDigit1(hi: nat, lo: nat)
    ensures (hi * HALF + lo) / 256 % 256 == lo / 256 % 256
  {
    assert (hi * HALF + lo) / 256 == hi * 0x100_0000 + lo / 256;
  }

  lemma LowDigit0(hi: nat, lo: nat)
    ensures (hi * HALF + lo) % 256 == lo % 256
  {
  }

  // The bytes of a number in the memory of a little-endian machine.
  function LittleEndian(v: nat, w: nat): (s: seq<Byte>)
    ensures |s| == w
  {
    if w == 0 then [] else [(v % 256) as Byte] + LittleEndian(v / 256, w - 1)
  }

  function FromLittleEndian(s: seq<Byte>): (v: nat)
    ensures v < Limit(|s|)
  {
    if s == [] then 0 else s[0] as nat + 256 * FromLittleEndian(s[1..])
  }

  // htons and htonl: the number whose bytes in memory are the digits of x, most
  // significant first.
  function Hton(x: nat, w: nat): (r: nat)
    ensures r < Limit(w)
  {
    FromLittleEndian(BigEndian(x, w))
  }

  // The macro htonll: the halves swapped, each through htonl.
  function Htonll(v: nat): nat {
    Hton(v % HALF, 4) * HALF + Hton(v / HALF, 4)
  }

  lemma LimitOfFour()
    ensures Limit(4) == HALF
  {
    assert Limit(0) == 1 && Limit(1) == 256 && Limit(2) == 256 * 256;
    assert Limit(3) == 256 * Limit(2) && Limit(4) == 256 * Limit(3);
  }

  lemma {:induction false} LittleEndianRoundTrip(s: seq<Byte>)
    ensures LittleEndian(FromLittleEndian(s), |s|) == s
  {
    if s != [] {
      var rest := FromLittleEndian(s[1..]);
      LittleEndianRoundTrip(s[1..]);
      assert (s[0] as nat + 256 * rest) / 256 == rest && (s[0] as nat + 256 * rest) % 256 == s[0] as nat;
    }
  }

  // A number of two parts lies in memory with its low part first.
  lemma {:induction false} LittleEndianParts(hi: nat, lo: nat, w: nat, w': nat)
    requires lo < Limit(w)
    ensures LittleEndian(hi * Limit(w) + lo, w + w') == LittleEndian(lo, w) + LittleEndian(hi, w')
    decreases w
  {
    if w == 0 {
      assert hi * 1 + 0 == hi;
    } else {
      var m := Limit(w - 1);
      assert Limit(w) == 256 * m;
      ShiftOut(hi, m, lo);
      LittleEndianParts(hi, lo / 256, w - 1, w');
    }
  }

  lemma ShiftOut(hi: nat, m: nat, lo: nat)
    ensures (hi * (256 * m) + lo) / 256 == hi * m + lo / 256 && (hi * (256 * m) + lo) % 256 == lo % 256
  {
    assert hi * (256 * m) == 256 * (hi * m);
  }

  // On a little-endian machine what writeU64 sends is the number in network byte order.
  lemma HtonllOnTheWire(v: nat)
    ensures LittleEndian(Htonll(v), 8) == BigEndian(v, 8)
  {
    hide LittleEndian, FromLittleEndian, BigEndian;
    LimitOfFour();
    LittleEndianParts(Hton(v % HALF, 4), Hton(v / HALF, 4), 4, 4);
    LittleEndianRoundTrip(BigEndian(v / HALF, 4));
    LittleEndianRoundTrip(BigEndian(v % HALF, 4));
    SwappedHalves(v);
  }

  // ---- One frame -------------------------------------------------------------------

  predicate Width(w: nat) {
    w == 1 || w == 2 || w == 4 || w == 8
  }

  // The longest string a length field of w bytes is used for.
  function MaxLength(w: nat): nat {
    if Limit(w) < 2 then 0 else Limit(w) - 2
  }

  // Two less than the number of values of the field: the largest value is never used.
  lemma MaxLengthValues()
    ensures MaxLength(1) == 254 && MaxLength(2) == 65534
    ensures MaxLength(4) == 4294967294 && MaxLength(8) == 18446744073709551614
  {
    LimitOfFour();
    assert Limit(5) == 256 * HALF && Limit(6) == 256 * Limit(5) && Limit(7) == 256 * Limit(6);
    assert Limit(1) == 256 * Limit(0) && Limit(2) == 256 * Limit(1) && Limit(8) == 256 * Limit(7);
  }

  // A block on the wire: its length, then its bytes.
  function Frame(w: nat, data: seq<Byte>): seq<Byte> {
    BigEndian(|data|, w) + data
  }

  // Taking one block off the front of a stream.
  function Unframe(w: nat, s: seq<Byte>): Option<(seq<Byte>, seq<Byte>)> {
    if |s| < w then None
    else
      var n := FromBigEndian(s[..w]);
      if n > MaxLength(w) || w + n > |s| then None
      else Some((s[w..w + n], s[w + n..]))
  }

  lemma UnframeFrame(w: nat, data: seq<Byte>, rest: seq<Byte>)
    requires |data| <= MaxLength(w)
    ensures Unframe(w, Frame(w, data) + rest) == Some((data, rest))
  {
    var s := Frame(w, data) + rest;
    assert s == BigEndian(|data|, w) + (data + rest);
    assert s[..w] == BigEndian(|data|, w);
    BigEndianRoundTrip(|data|, w);
    assert s[w..w + |data|] == data && s[w + |data|..] == rest;
  }

  // Only frames are taken.
  lemma OnlyFrames(w: nat, s: seq<Byte>)
    requires Unframe(w, s).Some?
    ensures var (data, rest) := Unframe(w, s).value;
            |data| <= MaxLength(w) && s == BigEndian(|data|, w) + data + rest
  {
    var (data, rest) := Unframe(w, s).value;
    BytesBack(s[..w]);
    assert s == s[..w] + data + rest;
  }

  // ---- Many frames -----------------------------------------------------------------

  function Frames(w: nat, strs: seq<seq<Byte>>): seq<Byte> {
    if strs == [] then [] else Frame(w, strs[0]) + Frames(w, strs[1..])
  }

  function Unframes(w: nat, s: seq<Byte>, count: nat): Option<(seq<seq<Byte>>, seq<Byte>)>
    decreases count
  {
    if count == 0 then Some(([], s))
    else
      var one := Unframe(w, s);
      if one.None? then None
      else
        var more := Unframes(w, one.value.1, count - 1);
        if more.None? then None else Some(([one.value.0] + more.value.0, more.value.1))
  }

  // Any list of strings, none longer than the length field allows, is read back in
  // order and nothing of what follows is consumed.
  lemma {:induction false} FramesRoundTrip(w: nat, strs: seq<seq<Byte>>, rest: seq<Byte>)
    requires forall i | 0 <= i < |strs| :: |strs[i]| <= MaxLength(w)
    ensures Unframes(w, Frames(w, strs) + rest, |strs|) == Some((strs, rest))
    decreases |strs|
  {
    if strs == [] {
      assert Frames(w, strs) + rest == rest;
    } else {
      FramesRoundTrip(w, strs[1..], rest);
      ConcatAssoc(Frame(w, strs[0]), Frames(w, strs[1..]), rest);
      UnframeFrame(w, strs[0], Frames(w, strs[1..]) + rest);
      assert strs == [strs[0]] + strs[1..];
    }
  }

  // ---- The writer and the reader -----------------------------------------------------

  // writeU: the length field, sent from the memory of a little-endian machine.
  method WriteU(s: SocketStream, w: nat, v: nat) returns (ok: bool)
    requires Width(w) && v < Limit(w)
    modifies s.outWire, s`live
    ensures ok ==> s.outWire.pending == old(s.outWire.pending) + BigEndian(v, w) && s.live == old(s.live)
    ensures s.healthy && old(s.live) ==> ok
  {
    if w == 8 {
      HtonllOnTheWire(v);
      ok := s.WriteFull(LittleEndian(Htonll(v), 8));
    } else {
      LittleEndianRoundTrip(BigEndian(v, w));
      ok := s.WriteFull(LittleEndian(Hton(v, w), w));
    }
    if !ok {
      s.ShutdownSocket();
    }
  }

  // writeStringEx with its default size limit.
  method WriteString(s: SocketStream, w: nat, str: seq<Byte>) returns (ok: bool)
    requires Width(w) && |str| < SSIZE_LIMIT
    modifies s.outWire, s`live
    ensures ok ==> |str| <= MaxLength(w)
    ensures ok ==> s.outWire.pending == old(s.outWire.pending) + Frame(w, str) && s.live == old(s.live)
    ensures ok ==> s.outWire.pending == old(s.outWire.pending) + BigEndian(|str|, w) + str
    ensures s.healthy && old(s.live) && |str| <= MaxLength(w) ==> ok
  {
    if |str| > MaxLength(w) {
      s.ShutdownSocket();
      return false;
    }
    ok := WriteU(s, w, |str|);
    if !ok {
      return false;
    }
    ConcatAssoc(old(s.outWire.pending), BigEndian(|str|, w), str);
    if str == [] {
      assert BigEndian(|str|, w) + [] == BigEndian(|str|, w);
      return true;
    }
    ok := s.WriteFull(str);
    if !ok {
      s.ShutdownSocket();
    }
  }

  // readU: a length field, or a desynchronised socket.
  method ReadU(s: SocketStream, w: nat) returns (readOK: bool, v: nat)
    requires Width(w)
    modifies s.inWire, s`live
    ensures readOK ==> w <= |old(s.inWire.pending)| && v == FromBigEndian(old(s.inWire.pending)[..w])
                       && s.inWire.pending == old(s.inWire.pending)[w..] && s.live == old(s.live)
    ensures s.healthy && old(s.live) && w <= |old(s.inWire.pending)| ==> readOK
  {
    var bytes;
    readOK, bytes := s.ReadFull(w);
    if !readOK {
      s.ShutdownSocket();
      return false, 0;
    }
    v := FromBigEndian(bytes);
  }

  // readStringEx with its default size limit.
  method ReadString(s: SocketStream, w: nat) returns (readOK: bool, str: seq<Byte>)
    requires Width(w)
    modifies s.inWire, s`live
    ensures readOK ==>
              && Unframe(w, old(s.inWire.pending)) == Some((str, s.inWire.pending))
              && s.live == old(s.live)
    ensures s.healthy && old(s.live) && Unframe(w, old(s.inWire.pending)).Some? ==> readOK
    ensures !readOK ==> str == []
  {
    var stream := s.inWire.pending;
    var expected;
    readOK, expected := ReadU(s, w);
    if !readOK {
      return false, [];
    }
    if expected > MaxLength(w) {
      s.ShutdownSocket();
      return false, [];
    }
    if expected == 0 {
      assert stream[w..w] == [];
      return true, [];
    }
    readOK, str := s.ReadFull(expected);
    if !readOK {
      s.ShutdownSocket();
      return false, [];
    }
    assert stream[w..][..expected] == stream[w..w + expected];
    assert stream[w..][expected..] == stream[w + expected..];
  }

  // Writing a list of strings and reading it back, over any schedule of transfers.
  method WriteStrings(s: SocketStream, w: nat, strs: seq<seq<Byte>>) returns (ok: bool)
    requires Width(w) && forall i | 0 <= i < |strs| :: |strs[i]| < SSIZE_LIMIT
    modifies s.outWire, s`live
    ensures ok ==> s.outWire.pending == old(s.outWire.pending) + Frames(w, strs)
    ensures s.healthy && old(s.live) && (forall i | 0 <= i < |strs| :: |strs[i]| <= MaxLength(w)) ==> ok
  {
    assert strs[..0] == [];
    for i := 0 to |strs|
      invariant s.live == old(s.live)
      invariant s.outWire.pending == old(s.outWire.pending) + Frames(w, strs[..i])
    {
      ok := WriteString(s, w, strs[i]);
      if !ok {
        return false;
      }
      FramesNext(w, strs, i);
      ConcatAssoc(old(s.outWire.pending), Frames(w, strs[..i]), Frame(w, strs[i]));
    }
    assert strs[..|strs|] == strs;
    return true;
  }

  lemma {:induction false} FramesConcat(w: nat, a: seq<seq<Byte>>, b: seq<seq<Byte>>)
    ensures Frames(w, a + b) == Frames(w, a) + Frames(w, b)
    decreases |a|
  {
    if a == [] {
      assert a + b == b;
    } else {
      FramesConcat(w, a[1..], b);
      assert (a + b)[1..] == a[1..] + b;
      ConcatAssoc(Frame(w, a[0]), Frames(w, a[1..]), Frames(w, b));
    }
  }

  lemma FramesNext(w: nat, strs: seq<seq<Byte>>, i: nat)
    requires i < |strs|
    ensures Frames(w, strs[..i + 1]) == Frames(w, strs[..i]) + Frame(w, strs[i])
  {
    assert strs[..i + 1] == strs[..i] + [strs[i]];
    FramesConcat(w, strs[..i], [strs[i]]);
    assert [strs[i]][1..] == [];
    assert Frames(w, [strs[i]]) == Frame(w, strs[i]) + [];
  }

  // The receiver of exactly those frames gets exactly those strings.
  lemma NextFrame(w: nat, strs: seq<seq<Byte>>, i: nat, rest: seq<Byte>)
    requires i < |strs| && |strs[i]| <= MaxLength(w)
    ensures Unframe(w, Frames(w, strs[i..]) + rest) == Some((strs[i], Frames(w, strs[i + 1..]) + rest))
  {
    hide Unframe;
    assert strs[i..][1..] == strs[i + 1..];
    ConcatAssoc(Frame(w, strs[i]), Frames(w, strs[i + 1..]), rest);
    UnframeFrame(w, strs[i], Frames(w, strs[i + 1..]) + rest);
  }

  lemma NoFrames(w: nat, strs: seq<seq<Byte>>, rest: seq<Byte>)
    ensures Frames(w, strs[|strs|..]) + rest == rest && strs[..|strs|] == strs
  {
  }

  method ReadStrings(s: SocketStream, w: nat, count: nat, ghost strs: seq<seq<Byte>>, ghost rest: seq<Byte>)
    returns (ok: bool, got: seq<seq<Byte>>)
    requires Width(w) && |strs| == count && forall i | 0 <= i < |strs| :: |strs[i]| <= MaxLength(w)
    requires s.inWire.pending == Frames(w, strs) + rest
    modifies s.inWire, s`live
    ensures ok ==> got == strs && s.inWire.pending == rest
    ensures s.healthy && old(s.live) ==> ok
  {
    hide Frames, Unframe, MaxLength;
    got := [];
    assert strs[0..] == strs;
    for i := 0 to count
      invariant got == strs[..i] && s.live == old(s.live)
      invariant s.inWire.pending == Frames(w, strs[i..]) + rest
    {
      NextFrame(w, strs, i, rest);
      var str;
      ok, str := ReadString(s, w);
      if !ok {
        return false, got;
      }
      got := got + [str];
    }
    NoFrames(w, strs, rest);
    return true, got;
  }
}
