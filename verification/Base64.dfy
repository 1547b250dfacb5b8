// Obfuscated base64 (Helpers/encoders.cpp): bytes combined with a generator's stream
// and encoded as in section 4 of RFC 4648, and the decoder written by hand.
module Base64s {
  import opened Common
  import opened Bits

  // The bytes a generator gives for a seed, one per call.
  type Generator = nat -> Byte

  // ---- The alphabet ------------------------------------------------------------------

  // m_b64Chars: the capitals, the small letters, the digits, plus and slash.
  function Letter(v: nat): char
    requires v < 64
  {
    if v < 26 then 'A' + v as char
    else if v < 52 then 'a' + (v - 26) as char
    else if v < 62 then '0' + (v - 52) as char
    else if v == 62 then '+' else '/'
  }

  // std::string::find in the alphabet, stored in one byte: 255 where it finds nothing.
  function Index(c: char): nat {
    if 'A' <= c <= 'Z' then c as nat - 'A' as nat
    else if 'a' <= c <= 'z' then c as nat - 'a' as nat + 26
    else if '0' <= c <= '9' then c as nat - '0' as nat + 52
    else if c == '+' then 62
    else if c == '/' then 63
    else 255
  }

  predicate Accepted(c: char) {
    'A' <= c <= 'Z' || 'a' <= c <= 'z' || '0' <= c <= '9' || c == '/' || c == '+'
  }

  lemma IndexOfLetter(v: nat)
    requires v < 64
    ensures Index(Letter(v)) == v && Accepted(Letter(v))
  {
  }

  // The alphabet of section 4 of RFC 4648, in order.
  lemma LetterOfAlphabet(v: nat)
    requires v < 64
    ensures Letter(v) == "ABCDEFGHIJKLMNOPQRSTUVWXYZabcdefghijklmnopqrstuvwxyz0123456789+/"[v]
  {
    hide Stretch;
    Alphabet();
    var (a, b, c) := (Stretch('A', 26), Stretch('a', 26), Stretch('0', 10));
    if v < 26 {
      StretchAt('A', 26, v);
    } else if v < 52 {
      StretchAt('a', 26, v - 26);
    } else if v < 62 {
      StretchAt('0', 10, v - 52);
    }
    FourParts(a, b, c, "+/", v);
  }

  lemma FourParts(a: string, b: string, c: string, d: string, v: nat)
    requires v < |a + b + c + d|
    ensures (a + b + c + d)[v] == if v < |a| then a[v] else if v < |a + b| then b[v - |a|]
                                  else if v < |a + b + c| then c[v - |a + b|] else d[v - |a + b + c|]
  {
  }

  lemma Alphabet()
    ensures "ABCDEFGHIJKLMNOPQRSTUVWXYZabcdefghijklmnopqrstuvwxyz0123456789+/"
         == Stretch('A', 26) + Stretch('a', 26) + Stretch('0', 10) + "+/"
  {
    Capitals();
    SmallLetters();
    DecimalDigits();
  }

  // n characters from c on.
  function Stretch(c: char, n: nat): (s: string)
    requires c as nat + n <= 256
    ensures |s| == n
  {
    seq(n, i requires 0 <= i < n => (c as nat + i) as char)
  }

  lemma StretchAt(c: char, n: nat, i: nat)
    requires c as nat + n <= 256 && i < n
    ensures Stretch(c, n)[i] == (c as nat + i) as char
  {
  }

  lemma Capitals()
    ensures Stretch('A', 26) == "ABCDEFGHIJKLMNOPQRSTUVWXYZ"
  {
  }

  lemma SmallLetters()
    ensures Stretch('a', 26) == "abcdefghijklmnopqrstuvwxyz"
  {
  }

  lemma DecimalDigits()
    ensures Stretch('0', 10) == "0123456789"
  {
  }

  // ---- Encoding, as section 4 of RFC 4648 has it ---------------------------------------

  function Quad(b0: nat, b1: nat, b2: nat): (s: string)
    requires b0 < 256 && b1 < 256 && b2 < 256
    ensures |s| == 4
  {
    [Letter(b0 / 4), Letter(b0 % 4 * 16 + b1 / 16), Letter(b1 % 16 * 4 + b2 / 64), Letter(b2 % 64)]
  }

  function Base64(b: seq<Byte>): string {
    if |b| == 0 then ""
    else if |b| == 1 then Quad(b[0] as nat, 0, 0)[..2] + "=="
    else if |b| == 2 then Quad(b[0] as nat, b[1] as nat, 0)[..3] + "="
    else Quad(b[0] as nat, b[1] as nat, b[2] as nat) + Base64(b[3..])
  }

  // Four letters, read as digits to the base 64, are three bytes, read to the base 256.
  lemma QuadValue(b0: nat, b1: nat, b2: nat)
    requires b0 < 256 && b1 < 256 && b2 < 256
    ensures var q := Quad(b0, b1, b2);
            && Index(q[0]) * 262144 + Index(q[1]) * 4096 + Index(q[2]) * 64 + Index(q[3])
               == b0 * 65536 + b1 * 256 + b2
            && Index(q[0]) * 64 + Index(q[1]) == b0 * 16 + b1 / 16
            && (b2 == 0 ==> Index(q[0]) * 4096 + Index(q[1]) * 64 + Index(q[2]) == (b0 * 256 + b1) * 4)
  {
    hide Letter, Index;
    IndexOfLetter(b0 / 4);
    IndexOfLetter(b0 % 4 * 16 + b1 / 16);
    IndexOfLetter(b1 % 16 * 4 + b2 / 64);
    IndexOfLetter(b2 % 64);
  }

  // An encoding has four characters for every three bytes and for what is left over.
  lemma {:induction false} EncodedLength(b: seq<Byte>)
    ensures |Base64(b)| == (|b| + 2) / 3 * 4
  {
    hide Quad;
    if |b| >= 3 {
      EncodedLength(b[3..]);
    }
  }

  // Group by group they are the same number; the last group has its missing bits zero,
  // and padding up to four characters.
  lemma {:induction false} EncodedGroup(b: seq<Byte>, g: nat)
    requires 3 * g < |b|
    ensures 4 * g + 4 <= |Base64(b)|
    ensures var (s, d) := (Base64(b)[4 * g..], b[3 * g..]);
            if |d| > 2 then
              Index(s[0]) * 262144 + Index(s[1]) * 4096 + Index(s[2]) * 64 + Index(s[3])
                == d[0] as nat * 65536 + d[1] as nat * 256 + d[2] as nat
            else if |d| == 2 then
              && Index(s[0]) * 4096 + Index(s[1]) * 64 + Index(s[2]) == (d[0] as nat * 256 + d[1] as nat) * 4
              && s[3] == '='
            else Index(s[0]) * 64 + Index(s[1]) == d[0] as nat * 16 && s[2] == s[3] == '='
    decreases |b|
  {
    hide Quad, Index;
    if g == 0 {
      assert b[0..] == b && Base64(b)[0..] == Base64(b);
      FirstEncoded(b);
    } else {
      EncodedGroup(b[3..], g - 1);
      assert b[3..][3 * (g - 1)..] == b[3 * g..];
      assert Base64(b)[4..] == Base64(b[3..]);
      assert Base64(b)[4..][4 * (g - 1)..] == Base64(b)[4 * g..];
    }
  }

  lemma FirstEncoded(b: seq<Byte>)
    requires b != []
    ensures 4 <= |Base64(b)|
    ensures var s := Base64(b);
            if |b| > 2 then
              Index(s[0]) * 262144 + Index(s[1]) * 4096 + Index(s[2]) * 64 + Index(s[3])
                == b[0] as nat * 65536 + b[1] as nat * 256 + b[2] as nat
            else if |b| == 2 then
              && Index(s[0]) * 4096 + Index(s[1]) * 64 + Index(s[2]) == (b[0] as nat * 256 + b[1] as nat) * 4
              && s[3] == '='
            else Index(s[0]) * 64 + Index(s[1]) == b[0] as nat * 16 && s[2] == s[3] == '='
  {
    hide Quad, Index;
    if |b| == 1 {
      QuadValue(b[0] as nat, 0, 0);
    } else if |b| == 2 {
      QuadValue(b[0] as nat, b[1] as nat, 0);
    } else {
      QuadValue(b[0] as nat, b[1] as nat, b[2] as nat);
    }
  }

  // ---- Decoding ------------------------------------------------------------------------

  // The characters up to the first one the decoder does not take.
  function Taken(s: string): string {
    if s == "" || !Accepted(s[0]) then "" else [s[0]] + Taken(s[1..])
  }

  // The three bytes of four values, each cut to eight bits.
  function Triple(c0: nat, c1: nat, c2: nat, c3: nat): seq<Byte> {
    [((c0 * 4 + c1 / 16 % 4) % 256) as Byte, (c1 % 16 * 16 + c2 / 4 % 16) as Byte, ((c2 % 4 * 64 + c3) % 256) as Byte]
  }

  // These are the decoder's shifts and masks.
  lemma ShiftsAndMasks(c: bv8)
    ensures (c << 2) as int == c as int * 4 % 256 && ((c & 0x30) >> 4) as int == c as int / 16 % 4
    ensures ((c & 0xf) << 4) as int == c as int % 16 * 16 && ((c & 0x3c) >> 2) as int == c as int / 4 % 16
    ensures ((c & 0x3) << 6) as int == c as int % 4 * 64
  {
    FirstByteBits(c);
    SecondByteBits(c);
    ThirdByteBits(c);
    MiddleBits(c);
    HighBits(c);
    LowBits(c >> 2);
  }

  lemma FirstByteBits(c: bv8)
    ensures (c << 2) as int == c as int * 4 % 256 && ((c & 0x30) >> 4) as int == c as int / 16 % 4
  {
  }

  lemma SecondByteBits(c: bv8)
    ensures ((c & 0xf) << 4) as int == c as int % 16 * 16
  {
  }

  lemma ThirdByteBits(c: bv8)
    ensures ((c & 0x3) << 6) as int == c as int % 4 * 64
  {
  }

  lemma MiddleBits(c: bv8)
    ensures (c & 0x3c) >> 2 == (c >> 2) & 0xf
  {
  }

  lemma HighBits(c: bv8)
    ensures (c >> 2) as int == c as int / 4
  {
  }

  lemma LowBits(c: bv8)
    ensures (c & 0xf) as int == c as int % 16
  {
  }

  // Groups of four characters, and what a last group of fewer gives: one byte less
  // than its characters, its missing characters standing for 255.
  function Plain(p: string): seq<Byte> {
    if |p| == 0 then []
    else if |p| < 4 then
      Triple(Index(p[0]), if |p| > 1 then Index(p[1]) else 255, if |p| > 2 then Index(p[2]) else 255, 255)[..|p| - 1]
    else Triple(Index(p[0]), Index(p[1]), Index(p[2]), Index(p[3])) + Plain(p[4..])
  }

  function Obfuscated(b: seq<Byte>, gen: Generator): (r: seq<Byte>)
    ensures |r| == |b|
  {
    seq(|b|, i requires 0 <= i < |b| => Xor(b[i], gen(i)))
  }

  // Each byte is combined with the generator's byte of the same number, and shows as
  // it is exactly where that one is zero.
  lemma ObfuscatedByte(b: seq<Byte>, gen: Generator, i: nat)
    requires i < |b|
    ensures Obfuscated(b, gen)[i] == Xor(b[i], gen(i))
    ensures Obfuscated(b, gen)[i] == b[i] <==> gen(i) == 0
  {
    XorKeepsExactly(b[i], gen(i));
  }

  lemma TripleLength(c0: nat, c1: nat, c2: nat, c3: nat)
    ensures |Triple(c0, c1, c2, c3)| == 3
  {
  }

  // Four values below 64, read to the base 64, are the three bytes, read to the base 256;
  // of fewer values the whole bytes are the leading ones.
  lemma FirstByte(c0: nat, c1: nat, c2: nat, c3: nat)
    requires c0 < 64 && c1 < 64
    ensures Triple(c0, c1, c2, c3)[0] as nat == (c0 * 64 + c1) / 16
  {
  }

  lemma SecondByte(c0: nat, c1: nat, c2: nat, c3: nat)
    requires c2 < 64
    ensures Triple(c0, c1, c2, c3)[1] as nat == c1 % 16 * 16 + c2 / 4
  {
  }

  lemma LastFourBits(c0: nat, c1: nat)
    ensures var m := c0 * 64 + c1; m == m / 16 * 16 + c1 % 16
  {
  }

  lemma FirstTwoBytes(c0: nat, c1: nat, c2: nat, c3: nat)
    requires c0 < 64 && c1 < 64 && c2 < 64
    ensures var t := Triple(c0, c1, c2, c3);
            t[0] as nat * 256 + t[1] as nat == (c0 * 4096 + c1 * 64 + c2) / 4
  {
    hide Triple;
    TripleLength(c0, c1, c2, c3);
    FirstByte(c0, c1, c2, c3);
    SecondByte(c0, c1, c2, c3);
    LastFourBits(c0, c1);
    Quartered(c0 * 64 + c1, c2);
  }

  lemma Quartered(m: nat, c2: nat)
    ensures (m * 64 + c2) / 4 == m * 16 + c2 / 4
  {
  }

  lemma ThreeBytes(c0: nat, c1: nat, c2: nat, c3: nat)
    requires c0 < 64 && c1 < 64 && c2 < 64 && c3 < 64
    ensures var t := Triple(c0, c1, c2, c3);
            t[0] as nat * 65536 + t[1] as nat * 256 + t[2] as nat == c0 * 262144 + c1 * 4096 + c2 * 64 + c3
  {
    hide Triple;
    FirstTwoBytes(c0, c1, c2, c3);
    ThirdByte(c0, c1, c2, c3);
    LastTwoBits(c0, c1, c2);
  }

  lemma ThirdByte(c0: nat, c1: nat, c2: nat, c3: nat)
    requires c3 < 64
    ensures Triple(c0, c1, c2, c3)[2] as nat == c2 % 4 * 64 + c3
  {
  }

  lemma LastTwoBits(c0: nat, c1: nat, c2: nat)
    ensures var n := c0 * 4096 + c1 * 64 + c2; n == n / 4 * 4 + c2 % 4
  {
  }

  lemma {:induction false} DecodedLength(p: string)
    ensures |Plain(p)| == |p| / 4 * 3 + (if |p| % 4 == 0 then 0 else |p| % 4 - 1)
  {
    hide Triple, Index;
    TripleLength(Value(p, 0), Value(p, 1), Value(p, 2), Value(p, 3));
    TripleLength(Value(p, 0), Value(p, 1), Value(p, 2), 255);
    if |p| >= 4 {
      DecodedLength(p[4..]);
    }
  }

  // What accepted characters decode to, group by group; the bits left over at the end
  // of the last group are dropped, whatever they are.
  lemma {:induction false} DecodedGroup(p: string, g: nat)
    requires 4 * g + 1 < |p| && forall c | c in p :: Accepted(c)
    ensures 3 * g + Min(|p| - 4 * g, 4) - 1 <= |Plain(p)|
    ensures var (t, q) := (Plain(p)[3 * g..], p[4 * g..]);
            if |q| > 3 then
              t[0] as nat * 65536 + t[1] as nat * 256 + t[2] as nat
                == Index(q[0]) * 262144 + Index(q[1]) * 4096 + Index(q[2]) * 64 + Index(q[3])
            else if |q| == 3 then
              t[0] as nat * 256 + t[1] as nat == (Index(q[0]) * 4096 + Index(q[1]) * 64 + Index(q[2])) / 4
            else t[0] as nat == (Index(q[0]) * 64 + Index(q[1])) / 16
    decreases |p|
  {
    hide Triple, Index, Accepted;
    if g == 0 {
      assert p[0..] == p && Plain(p)[0..] == Plain(p);
      FirstGroup(p);
    } else {
      assert forall c | c in p[4..] :: c in p;
      TripleLength(Index(p[0]), Index(p[1]), Index(p[2]), Index(p[3]));
      DecodedGroup(p[4..], g - 1);
      assert p[4..][4 * (g - 1)..] == p[4 * g..];
      assert Plain(p)[3..] == Plain(p[4..]);
      assert Plain(p)[3..][3 * (g - 1)..] == Plain(p)[3 * g..];
    }
  }

  lemma FirstGroup(p: string)
    requires |p| > 1 && forall c | c in p :: Accepted(c)
    ensures |Plain(p)| >= Min(|p|, 4) - 1
    ensures if |p| > 3 then
              Plain(p)[0] as nat * 65536 + Plain(p)[1] as nat * 256 + Plain(p)[2] as nat
                == Index(p[0]) * 262144 + Index(p[1]) * 4096 + Index(p[2]) * 64 + Index(p[3])
            else if |p| == 3 then
              Plain(p)[0] as nat * 256 + Plain(p)[1] as nat
                == (Index(p[0]) * 4096 + Index(p[1]) * 64 + Index(p[2])) / 4
            else Plain(p)[0] as nat == (Index(p[0]) * 64 + Index(p[1])) / 16
  {
    hide Triple, Index, Accepted;
    IndexOfAccepted(p[0]);
    IndexOfAccepted(p[1]);
    TripleLength(Value(p, 0), Value(p, 1), Value(p, 2), Value(p, 3));
    if |p| == 2 {
      FirstByte(Index(p[0]), Index(p[1]), 255, 255);
    } else {
      IndexOfAccepted(p[2]);
      if |p| == 3 {
        FirstTwoBytes(Index(p[0]), Index(p[1]), Index(p[2]), 255);
      } else {
        IndexOfAccepted(p[3]);
        ThreeBytes(Index(p[0]), Index(p[1]), Index(p[2]), Index(p[3]));
      }
    }
  }

  lemma IndexOfAccepted(c: char)
    requires Accepted(c)
    ensures Index(c) < 64
  {
  }

  function Encode(b: seq<Byte>, gen: Generator): string {
    Base64(Obfuscated(b, gen))
  }

  function Decode(s: string, gen: Generator): seq<Byte> {
    Obfuscated(Plain(Taken(s)), gen)
  }

  method EncodeToBase64Obf(buf: seq<Byte>, gen: Generator) returns (r: string)
    ensures r == Encode(buf, gen)
  {
    hide Base64, Xor;
    var obfBuf := new Byte[|buf|];
    for i := 0 to |buf|
      invariant obfBuf[..i] == Obfuscated(buf, gen)[..i]
    {
      obfBuf[i] := Xor(buf[i], gen(i));
    }
    assert obfBuf[..] == obfBuf[..|buf|] && Obfuscated(buf, gen)[..|buf|] == Obfuscated(buf, gen);
    r := Base64(obfBuf[..]);
  }

  // The three bytes of the four values in the buffer, combined with the generator's
  // next ones.
  method Emit(cont4: array<nat>, count: nat, from: nat, gen: Generator) returns (out: seq<Byte>)
    requires cont4.Length == 4 && count <= 3
    ensures |out| == count
    ensures forall i | 0 <= i < count :: out[i] == Xor(Triple(cont4[0], cont4[1], cont4[2], cont4[3])[i], gen(from + i))
  {
    var cont3 := Triple(cont4[0], cont4[1], cont4[2], cont4[3]);
    out := [];
    for x := 0 to count
      invariant |out| == x && forall i | 0 <= i < x :: out[i] == Xor(cont3[i], gen(from + i))
    {
      out := out + [Xor(cont3[x], gen(from + x))];
    }
  }

  // A piece of output, combined with the generator from a position on.
  ghost function Shifted(b: seq<Byte>, from: nat, gen: Generator): (r: seq<Byte>)
    ensures |r| == |b|
  {
    seq(|b|, i requires 0 <= i < |b| => Xor(b[i], gen(from + i)))
  }

  lemma ShiftedConcat(a: seq<Byte>, b: seq<Byte>, from: nat, gen: Generator)
    ensures Shifted(a + b, from, gen) == Shifted(a, from, gen) + Shifted(b, from + |a|, gen)
    ensures Shifted([], from, gen) == [] && Shifted(a, 0, gen) == Obfuscated(a, gen)
  {
    forall i | 0 <= i < |a| + |b|
      ensures Shifted(a + b, from, gen)[i] == (Shifted(a, from, gen) + Shifted(b, from + |a|, gen))[i]
    {
      assert i >= |a| ==> from + i == from + |a| + (i - |a|);
    }
  }

  lemma {:induction false} TakenPrefix(s: string)
    ensures var n := |Taken(s)|; n <= |s| && Taken(s) == s[..n] && (n < |s| ==> !Accepted(s[n]))
    ensures forall i | 0 <= i < |Taken(s)| :: Accepted(s[i])
  {
    if s != "" && Accepted(s[0]) {
      TakenPrefix(s[1..]);
    }
  }

  lemma WholeGroup(p: string, from: nat, gen: Generator)
    requires |p| >= 4
    ensures var t := Triple(Index(p[0]), Index(p[1]), Index(p[2]), Index(p[3]));
            Shifted(Plain(p), from, gen) == Shifted(t, from, gen) + Shifted(Plain(p[4..]), from + 3, gen)
  {
    ShiftedConcat(Triple(Index(p[0]), Index(p[1]), Index(p[2]), Index(p[3])), Plain(p[4..]), from, gen);
  }

  lemma GroupEmitted(p: string, decoded: seq<Byte>, out: seq<Byte>, gen: Generator)
    requires |p| >= 4 && |out| == 3
    requires out == Shifted(Triple(Index(p[0]), Index(p[1]), Index(p[2]), Index(p[3])), |decoded|, gen)
    ensures decoded + Shifted(Plain(p), |decoded|, gen)
         == decoded + out + Shifted(Plain(p[4..]), |decoded + out|, gen)
  {
    hide Plain, Triple, Index, Shifted;
    WholeGroup(p, |decoded|, gen);
    ConcatAssoc(decoded, out, Shifted(Plain(p[4..]), |decoded| + 3, gen));
  }

  // The values of a group, a missing character counting as 255.
  function Value(p: string, i: nat): nat {
    if i < |p| then Index(p[i]) else 255
  }

  lemma PartGroup(p: string)
    requires 0 < |p| < 4
    ensures Plain(p) == Triple(Value(p, 0), Value(p, 1), Value(p, 2), Value(p, 3))[..|p| - 1]
  {
  }

  lemma NothingPlain(from: nat, gen: Generator)
    ensures Shifted(Plain(""), from, gen) == []
  {
  }

  method DecodeFromBase64Obf(s: string, gen: Generator) returns (decoded: seq<Byte>)
    ensures decoded == Decode(s, gen)
  {
    hide Plain, Triple, Accepted, Index, Taken, Shifted, Obfuscated, Xor;
    var cont4 := new char[4];
    var values := new nat[4];
    var x, bufPos := 0, 0;
    decoded := [];
    ghost var whole := Taken(s);
    TakenPrefix(s);
    ShiftedConcat(Plain(whole), [], 0, gen);
    assert whole[0..] == whole;
    while bufPos < |s| && Accepted(s[bufPos])
      invariant 0 <= x < 4 && x <= bufPos <= |whole|
      invariant forall i | 0 <= i < x :: cont4[i] == whole[bufPos - x + i]
      invariant decoded + Shifted(Plain(whole[bufPos - x..]), |decoded|, gen) == Obfuscated(Plain(whole), gen)
      decreases |s| - bufPos
    {
      cont4[x] := s[bufPos];
      x, bufPos := x + 1, bufPos + 1;
      if x == 4 {
        ghost var group := whole[bufPos - 4..];
        Fill(cont4, values, 4);
        var out := Emit(values, 3, |decoded|, gen);
        assert group[4..] == whole[bufPos..];
        EmitIsShifted(values[0], values[1], values[2], values[3], out, |decoded|, gen);
        GroupEmitted(group, decoded, out, gen);
        decoded := decoded + out;
        x := 0;
      }
    }
    assert bufPos == |whole|;
    ghost var last := whole[bufPos - x..];
    if x != 0 {
      Fill(cont4, values, x);
      var out := Emit(values, x - 1, |decoded|, gen);
      PartGroup(last);
      EmitIsShifted(values[0], values[1], values[2], values[3], out, |decoded|, gen);
      decoded := decoded + out;
    } else {
      assert last == "";
      NothingPlain(|decoded|, gen);
    }
  }

  // The values of the characters held, and 255 for the others, whose character is zero.
  method Fill(cont4: array<char>, values: array<nat>, x: nat)
    requires cont4.Length == 4 == values.Length && x <= 4
    modifies cont4, values
    ensures forall i | 0 <= i < 4 :: values[i] == if i < x then Index(old(cont4[i])) else 255
  {
    for y := x to 4
      invariant forall i | 0 <= i < x :: cont4[i] == old(cont4[i])
      invariant forall i | x <= i < y :: cont4[i] == 0 as char
    {
      cont4[y] := 0 as char;
    }
    for y := 0 to 4
      invariant forall i | 0 <= i < x :: cont4[i] == old(cont4[i])
      invariant forall i | x <= i < 4 :: cont4[i] == 0 as char
      invariant forall i | 0 <= i < y :: values[i] == Index(cont4[i])
    {
      values[y] := Index(cont4[y]);
    }
  }

  lemma EmitIsShifted(c0: nat, c1: nat, c2: nat, c3: nat, out: seq<Byte>, from: nat, gen: Generator)
    requires |out| <= 3 && forall i | 0 <= i < |out| :: out[i] == Xor(Triple(c0, c1, c2, c3)[i], gen(from + i))
    ensures out == Shifted(Triple(c0, c1, c2, c3)[..|out|], from, gen)
    ensures |out| == 3 ==> Triple(c0, c1, c2, c3)[..3] == Triple(c0, c1, c2, c3)
  {
  }

  // ---- The round trip ----------------------------------------------------------------

  lemma {:induction false} TakenAll(p: string, rest: string)
    requires forall c | c in p :: Accepted(c)
    requires rest == "" || !Accepted(rest[0])
    ensures Taken(p + rest) == p
  {
    if p == "" {
      assert p + rest == rest;
    } else {
      assert (p + rest)[1..] == p[1..] + rest;
      TakenAll(p[1..], rest);
    }
  }

  // An encoding is accepted characters, from which its bytes are read, and padding.
  lemma {:induction false} DecodedGroups(b: seq<Byte>)
    ensures Plain(Taken(Base64(b))) == b
  {
    var p, pad := Groups(b), Padding(b);
    SplitEncoding(b);
    GroupsAccepted(b);
    TakenAll(p, pad);
    GroupsDecode(b);
  }

  // The characters of an encoding before its padding.
  function Groups(b: seq<Byte>): string {
    if |b| == 0 then ""
    else if |b| == 1 then Quad(b[0] as nat, 0, 0)[..2]
    else if |b| == 2 then Quad(b[0] as nat, b[1] as nat, 0)[..3]
    else Quad(b[0] as nat, b[1] as nat, b[2] as nat) + Groups(b[3..])
  }

  function Padding(b: seq<Byte>): string {
    if |b| % 3 == 0 then "" else if |b| % 3 == 1 then "==" else "="
  }

  lemma {:induction false} SplitEncoding(b: seq<Byte>)
    ensures Base64(b) == Groups(b) + Padding(b)
  {
    hide Quad;
    if |b| >= 3 {
      SplitEncoding(b[3..]);
      ConcatAssoc(Quad(b[0] as nat, b[1] as nat, b[2] as nat), Groups(b[3..]), Padding(b[3..]));
    }
  }

  lemma {:induction false} GroupsAccepted(b: seq<Byte>)
    ensures forall c | c in Groups(b) :: Accepted(c)
  {
    hide Quad, Accepted;
    if |b| >= 3 {
      QuadAccepted(b[0] as nat, b[1] as nat, b[2] as nat);
      GroupsAccepted(b[3..]);
    } else if |b| > 0 {
      QuadAccepted(b[0] as nat, if |b| > 1 then b[1] as nat else 0, 0);
    }
  }

  lemma QuadAccepted(b0: nat, b1: nat, b2: nat)
    requires b0 < 256 && b1 < 256 && b2 < 256
    ensures forall c | c in Quad(b0, b1, b2) :: Accepted(c)
  {
    IndexOfLetter(b0 / 4);
    IndexOfLetter(b0 % 4 * 16 + b1 / 16);
    IndexOfLetter(b1 % 16 * 4 + b2 / 64);
    IndexOfLetter(b2 % 64);
  }

  lemma GroupOfThree(b0: nat, b1: nat, b2: nat)
    requires b0 < 256 && b1 < 256 && b2 < 256
    ensures Triple(b0 / 4, b0 % 4 * 16 + b1 / 16, b1 % 16 * 4 + b2 / 64, b2 % 64)
         == [b0 as Byte, b1 as Byte, b2 as Byte]
  {
    assert (b0 % 4 * 16 + b1 / 16) / 16 == b0 % 4;
    assert (b0 % 4 * 16 + b1 / 16) % 16 == b1 / 16;
    assert (b1 % 16 * 4 + b2 / 64) / 4 == b1 % 16;
    assert (b1 % 16 * 4 + b2 / 64) % 4 == b2 / 64;
  }

  // Four characters give their three bytes back; the first two or three of them the
  // first or the first two bytes, whatever stands for the others.
  lemma QuadDecodes(b0: nat, b1: nat, b2: nat, c2: nat, c3: nat)
    requires b0 < 256 && b1 < 256 && b2 < 256
    ensures var q := Quad(b0, b1, b2);
            && Triple(Index(q[0]), Index(q[1]), Index(q[2]), Index(q[3])) == [b0 as Byte, b1 as Byte, b2 as Byte]
            && Triple(Index(q[0]), Index(q[1]), Index(q[2]), c3)[..2] == [b0 as Byte, b1 as Byte]
            && Triple(Index(q[0]), Index(q[1]), c2, c3)[..1] == [b0 as Byte]
  {
    hide Index, Letter, Accepted;
    IndexOfLetter(b0 / 4);
    IndexOfLetter(b0 % 4 * 16 + b1 / 16);
    IndexOfLetter(b1 % 16 * 4 + b2 / 64);
    IndexOfLetter(b2 % 64);
    GroupOfThree(b0, b1, b2);
    var t := Triple(b0 / 4, b0 % 4 * 16 + b1 / 16, b1 % 16 * 4 + b2 / 64, b2 % 64);
    assert t[0] == b0 as Byte && t[1] == b1 as Byte;
  }

  lemma {:induction false} GroupsDecode(b: seq<Byte>)
    ensures Plain(Groups(b)) == b
  {
    hide Quad, Triple, Index;
    if |b| >= 3 {
      GroupsDecode(b[3..]);
      var q := Quad(b[0] as nat, b[1] as nat, b[2] as nat);
      QuadDecodes(b[0] as nat, b[1] as nat, b[2] as nat, 255, 255);
      assert Groups(b)[4..] == Groups(b[3..]);
      assert b == b[..3] + b[3..] && b[..3] == [b[0], b[1], b[2]];
      assert q == Groups(b)[..4];
    } else if |b| == 2 {
      QuadDecodes(b[0] as nat, b[1] as nat, 0, 255, 255);
    } else if |b| == 1 {
      QuadDecodes(b[0] as nat, 0, 0, 255, 255);
    }
  }

  // Decoding with the generator of the encoding gives every byte string back.
  lemma RoundTrip(b: seq<Byte>, gen: Generator)
    ensures Decode(Encode(b, gen), gen) == b
  {
    DecodedGroups(Obfuscated(b, gen));
    forall i | 0 <= i < |b|
      ensures Obfuscated(Obfuscated(b, gen), gen)[i] == b[i]
    {
      XorTwice(b[i], gen(i));
    }
  }
}
