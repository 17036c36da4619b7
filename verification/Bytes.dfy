/** Bytes as small integers, and their reading as bit patterns. */
module Bytes {
  type byte = b: int | 0 <= b < 256
  type bytes = seq<byte>

  const FLAG: byte := 0x7E
  const ESC: byte := 0x7D

  /** A little-endian 16-bit number. */
  function U16(lo: int, hi: int): int {
    lo + 256 * hi
  }

  function Le16(x: int): (r: bytes)
    requires 0 <= x < 0x1_0000
    ensures |r| == 2 && U16(r[0], r[1]) == x
  {
    [x % 256, x / 256]
  }

  /** A little-endian 32-bit number. */
  function U32(a: int, b: int, c: int, d: int): int {
    U16(a, b) + 0x1_0000 * U16(c, d)
  }

  function Le32(x: int): (r: bytes)
    requires 0 <= x < 0x1_0000_0000
    ensures |r| == 4 && U32(r[0], r[1], r[2], r[3]) == x
  {
    Le16(x % 0x1_0000) + Le16(x / 0x1_0000)
  }

  lemma Le16OfU16(a: byte, b: byte)
    ensures 0 <= U16(a, b) < 0x1_0000 && Le16(U16(a, b)) == [a, b]
  {
  }

  lemma HalvesOf32(lo: int, hi: int)
    requires 0 <= lo < 0x1_0000 && 0 <= hi < 0x1_0000
    ensures (lo + 0x1_0000 * hi) % 0x1_0000 == lo && (lo + 0x1_0000 * hi) / 0x1_0000 == hi
    ensures 0 <= lo + 0x1_0000 * hi < 0x1_0000_0000
  {
  }

  lemma Le32OfU32(bs: bytes)
    requires |bs| == 4
    ensures 0 <= U32(bs[0], bs[1], bs[2], bs[3]) < 0x1_0000_0000
    ensures Le32(U32(bs[0], bs[1], bs[2], bs[3])) == bs
  {
    hide Le16, U16;
    Le16OfU16(bs[0], bs[1]);
    Le16OfU16(bs[2], bs[3]);
    HalvesOf32(U16(bs[0], bs[1]), U16(bs[2], bs[3]));
  }

  function Pow2(k: nat): (r: nat)
    ensures r > 0
  {
    if k == 0 then 1 else 2 * Pow2(k - 1)
  }

  /** Bit `k` of a number, the lowest being bit 0. */
  predicate Bit(n: nat, k: nat) {
    (n / Pow2(k)) % 2 == 1
  }

  lemma PowersOfByte()
    ensures Pow2(0) == 1 && Pow2(1) == 2 && Pow2(2) == 4 && Pow2(3) == 8
    ensures Pow2(4) == 16 && Pow2(5) == 32 && Pow2(6) == 64 && Pow2(7) == 128
  {
    assert Pow2(2) == 4 && Pow2(4) == 16;
  }

  /** `1 << k` */
  function BitAt(k: nat): bv8
    requires k < 8
  {
    if k == 0 then 1 else if k == 1 then 2 else if k == 2 then 4 else if k == 3 then 8
    else if k == 4 then 16 else if k == 5 then 32 else if k == 6 then 64 else 128
  }

  predicate TestBit(v: bv8, k: nat)
    requires k < 8
  {
    v & BitAt(k) != 0
  }

  lemma BitIsTest(b: byte, k: nat)
    requires k < 8
    ensures Bit(b, k) <==> TestBit(b as bv8, k)
  {
    PowersOfByte();
  }

  /** On the wire the low byte comes first. */
  lemma LowByteFirst16(x: int)
    requires 0 <= x < 0x1_0000
    ensures Le16(x) == [x % 256, x / 256]
  {
  }

  lemma LowByteFirst32(a: byte, b: byte, c: byte, d: byte)
    ensures Le32(a + 0x100 * b + 0x1_0000 * c + 0x100_0000 * d) == [a, b, c, d]
  {
    hide Le16;
    HalvesOf32(a + 256 * b, c + 256 * d);
    LowByteFirst16(a + 256 * b);
    LowByteFirst16(c + 256 * d);
  }

  /** The number in the four bytes from `off` on, the low byte first. */
  function NumberAt(body: bytes, off: nat): int
    requires off + 4 <= |body|
  {
    var (a: int, b: int, c: int, d: int) := (body[off], body[off + 1], body[off + 2], body[off + 3]);
    a + 0x100 * b + 0x1_0000 * c + 0x100_0000 * d
  }

  function Zeros(n: nat): (r: bytes)
    ensures |r| == n && forall i :: 0 <= i < n ==> r[i] == 0
  {
    seq(n, _ => 0)
  }

  // Bit operations have names, so that a proof can leave them uninterpreted.
  function Xor(a: bv16, b: bv16): bv16 { a ^ b }
  function Low(v: bv16): bv16 { v & 0xFF }
  function Top(v: bv16): bv16 { v >> 8 }

  /** The eight bits of a byte, as the low half of a 16-bit register. */
  function ToBits(b: byte): bv16 {
    (b as bv8) as bv16
  }

  /** The byte with the low eight bits of `v`. */
  function LowByte(v: bv16): byte {
    ((v & 0xFF) as bv8) as int
  }

  lemma IntOfByteBits(b: int)
    requires 0 <= b < 256
    ensures (b as bv8) as int == b
  {
    // the binary digits, each half of the one before
    var b1 := b / 2; var b2 := b1 / 2; var b3 := b2 / 2; var b4 := b3 / 2;
    var b5 := b4 / 2; var b6 := b5 / 2; var b7 := b6 / 2;
    assert b2 == b / 4 && b3 == b / 8 && b4 == b / 16 && b5 == b / 32 && b6 == b / 64 && b7 == b / 128 && b / 256 == 0;
  }

  lemma ByteBitsOfInt(v: bv8)
    ensures (v as int) as bv8 == v
  {
  }

  lemma ToBitsSmall(b: byte)
    ensures Low(ToBits(b)) == ToBits(b)
  {
  }

  lemma ToBitsInjective(a: byte, b: byte)
    requires ToBits(a) == ToBits(b)
    ensures a == b
  {
    assert (a as bv8) == (b as bv8);
    IntOfByteBits(a);
    IntOfByteBits(b);
  }

  lemma ToBitsOfLowByte(v: bv16)
    ensures ToBits(LowByte(v)) == Low(v)
  {
    ByteBitsOfInt((v & 0xFF) as bv8);
  }

  /** Little-endian 16-bit pack of a bit pattern. */
  function Le16Bits(c: bv16): (r: bytes)
    ensures |r| == 2
  {
    [LowByte(c), LowByte(Top(c))]
  }

  lemma Le16BitsBack(c: bv16)
    ensures ToBits(Le16Bits(c)[0]) == Low(c) && ToBits(Le16Bits(c)[1]) == Top(c)
  {
    ToBitsOfLowByte(c);
    ToBitsOfLowByte(Top(c));
    assert Low(Top(c)) == Top(c);
  }
}
