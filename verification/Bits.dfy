// Bytes combined bit by bit, and what that means in numbers.
module Bits {
  import opened Common

  function Xor(a: Byte, b: Byte): Byte {
    ((a as bv8) ^ (b as bv8)) as Byte
  }

  lemma XorTwice(a: Byte, k: Byte)
    ensures Xor(Xor(a, k), k) == a
  {
    BitXorTwice(a as bv8, k as bv8);
    BitsBack((a as bv8) ^ (k as bv8));
    ByteBack(a);
  }

  lemma BitXorTwice(a: bv8, k: bv8)
    ensures (a ^ k) ^ k == a
  {
  }

  lemma BitsBack(x: bv8)
    ensures (x as Byte) as bv8 == x
  {
  }

  lemma ByteBack(x: Byte)
    ensures (x as bv8) as Byte == x
  {
    var y := BitsOf(x as nat);
    BitsBack(y);
  }

  // Every byte is the value of some eight bits.
  lemma {:induction false} BitsOf(x: nat) returns (y: bv8)
    requires x < 256
    ensures y as int == x
  {
    y := 0;
    if x > 0 {
      y := BitsOf(x - 1);
      NextBits(y);
      y := y + 1;
    }
  }

  lemma NextBits(y: bv8)
    requires y as int < 255
    ensures (y + 1) as int == y as int + 1
  {
  }

  lemma LowBit(p: bv8)
    ensures (p & 1) as int == p as int % 2
  {
  }

  lemma HalfBits(p: bv8)
    ensures (p >> 1) as int == p as int / 2
  {
  }

  lemma XorApart(p: bv8, q: bv8)
    ensures (p ^ q) >> 1 == (p >> 1) ^ (q >> 1)
    ensures (p ^ q) & 1 == if p & 1 == q & 1 then 0 else 1
  {
  }

  lemma BitValue(p: bv8)
    ensures p & 1 == 0 <==> p as int % 2 == 0
  {
    LowBit(p);
  }

  lemma IntParity(x: int, y: int, z: int)
    requires z % 2 == 0 <==> (x % 2 == 0 <==> y % 2 == 0)
    ensures z % 2 == (x + y) % 2
  {
  }

  lemma SameOrNot(p: bv8, q: bv8)
    ensures p & 1 == q & 1 <==> (p & 1 == 0 <==> q & 1 == 0)
  {
  }

  lemma LowSum(p: bv8, q: bv8, x: int, y: int, z: int)
    requires x == p as int && y == q as int && z == (p ^ q) as int
    ensures z % 2 == (x + y) % 2
  {
    BitValue(p);
    BitValue(q);
    BitValue(p ^ q);
    XorApart(p, q);
    SameOrNot(p, q);
    IntParity(x, y, z);
  }

  lemma AsBits(a: Byte, b: Byte) returns (p: bv8, q: bv8)
    ensures p as int == a as int && q as int == b as int && (p ^ q) as int == Xor(a, b) as int
    ensures p == a as bv8 && q == b as bv8
  {
    p, q := a as bv8, b as bv8;
    ByteBack(a);
    ByteBack(b);
  }

  // The lowest bit is the sum of the two lowest, modulo two.
  lemma XorLowBit(a: Byte, b: Byte)
    ensures Xor(a, b) as int % 2 == (a as int + b as int) % 2
  {
    hide Xor;
    var p, q := AsBits(a, b);
    LowSum(p, q, a as int, b as int, Xor(a, b) as int);
  }

  // The other bits are those of the halves.
  lemma XorHalves(a: Byte, b: Byte)
    ensures Xor(a, b) / 2 == Xor(a / 2, b / 2)
  {
    hide Xor;
    var p, q := AsBits(a, b);
    var p2, q2 := AsBits(a / 2, b / 2);
    HalfValues(p, q, p2, q2, a as int, b as int, Xor(a, b) as int, Xor(a / 2, b / 2) as int);
  }

  lemma HalfValues(p: bv8, q: bv8, p2: bv8, q2: bv8, x: int, y: int, z: int, z2: int)
    requires p as int == x && q as int == y && (p ^ q) as int == z && (p2 ^ q2) as int == z2
    requires p2 as int == x / 2 && q2 as int == y / 2
    ensures z / 2 == z2
  {
    HalfBits(p);
    HalfBits(q);
    HalfBits(p ^ q);
    XorApart(p, q);
    SameBits(p >> 1, p2);
    SameBits(q >> 1, q2);
  }

  lemma SameBits(p: bv8, q: bv8)
    requires p as int == q as int
    ensures p == q
  {
  }

  lemma TwoBits(a: Byte, b: Byte)
    ensures var (x, y, z) := (a as int, b as int, Xor(a, b) as int);
            z % 2 == (x + y) % 2 && z / 2 % 2 == (x / 2 + y / 2) % 2
    ensures Xor(a, b) / 4 == Xor(a / 4, b / 4)
  {
    hide Xor;
    XorLowBit(a, b);
    XorHalves(a, b);
    XorLowBit(a / 2, b / 2);
    XorHalves(a / 2, b / 2);
  }

  lemma Quarters(x: nat)
    ensures x / 4 / 2 == x / 8 && x / 4 / 4 == x / 16
  {
  }

  lemma Sixteenths(x: nat)
    ensures x / 16 / 2 == x / 32 && x / 16 / 4 == x / 64 && x / 16 / 8 == x / 128
  {
  }

  // The sum of two bits at the place worth w.
  predicate BitAt(x: nat, y: nat, z: nat, w: nat)
    requires w > 0
  {
    z / w % 2 == (x / w + y / w) % 2
  }

  lemma FourBits(a: Byte, b: Byte)
    ensures var (x, y, z) := (a as int, b as int, Xor(a, b) as int);
            BitAt(x, y, z, 1) && BitAt(x, y, z, 2) && BitAt(x, y, z, 4) && BitAt(x, y, z, 8)
    ensures Xor(a, b) / 16 == Xor(a / 16, b / 16)
  {
    hide Xor;
    TwoBits(a, b);
    TwoBits(a / 4, b / 4);
    Quarters(a as nat);
    Quarters(b as nat);
    Quarters(Xor(a, b) as nat);
  }

  lemma EightBits(a: Byte, b: Byte)
    ensures var (x, y, z) := (a as int, b as int, Xor(a, b) as int);
            && BitAt(x, y, z, 1) && BitAt(x, y, z, 2) && BitAt(x, y, z, 4) && BitAt(x, y, z, 8)
            && BitAt(x, y, z, 16) && BitAt(x, y, z, 32) && BitAt(x, y, z, 64) && BitAt(x, y, z, 128)
  {
    hide Xor, BitAt;
    FourBits(a, b);
    FourBits(a / 16, b / 16);
    HigherBits(a as nat, b as nat, Xor(a, b) as nat);
  }

  lemma HigherBits(x: nat, y: nat, z: nat)
    ensures BitAt(x / 16, y / 16, z / 16, 1) == BitAt(x, y, z, 16)
    ensures BitAt(x / 16, y / 16, z / 16, 2) == BitAt(x, y, z, 32)
    ensures BitAt(x / 16, y / 16, z / 16, 4) == BitAt(x, y, z, 64)
    ensures BitAt(x / 16, y / 16, z / 16, 8) == BitAt(x, y, z, 128)
  {
    Sixteenths(x);
    Sixteenths(y);
    Sixteenths(z);
  }

  // Each bit of the result is the sum of the two bits, modulo two.
  lemma XorBits(a: Byte, b: Byte)
    ensures var (x, y, z) := (a as int, b as int, Xor(a, b) as int);
            && z % 2 == (x + y) % 2 && z / 2 % 2 == (x / 2 + y / 2) % 2
            && z / 4 % 2 == (x / 4 + y / 4) % 2 && z / 8 % 2 == (x / 8 + y / 8) % 2
            && z / 16 % 2 == (x / 16 + y / 16) % 2 && z / 32 % 2 == (x / 32 + y / 32) % 2
            && z / 64 % 2 == (x / 64 + y / 64) % 2 && z / 128 % 2 == (x / 128 + y / 128) % 2
  {
    hide Xor;
    EightBits(a, b);
  }

  // Combining with a byte changes nothing exactly if the byte is zero.
  lemma XorKeepsExactly(a: Byte, k: Byte)
    ensures Xor(a, k) == a <==> k == 0
  {
    hide Xor;
    var p, q := AsBits(a, k);
    ZeroBits(p, q);
    if Xor(a, k) == a {
      SameBits(p ^ q, p);
    }
  }

  lemma ZeroBits(p: bv8, q: bv8)
    ensures p ^ q == p <==> q == 0
  {
  }
}
