/**
 The 16-bit frame check sequence of Appendix C.2 of RFC 1662: a bitwise register, the
 byte-at-a-time table form the transport uses, and what the check can and cannot miss.
 */
module Crc {
  import opened Bytes

  const POLY: bv16 := 0x8408
  const RESIDUE: bv16 := 0xF0B8

  /** One shift of the reflected register. */
  function BitStep(c: bv16): bv16 {
    if c & 1 == 1 then Xor(c >> 1, POLY) else c >> 1
  }

  function Bits(c: bv16, n: nat): bv16
    decreases n
  {
    if n == 0 then c else Bits(BitStep(c), n - 1)
  }

  /** The simple form: every byte goes in bit by bit. */
  function Register(c: bv16, data: bytes): bv16
    decreases data
  {
    if data == [] then c else Register(Bits(Xor(c, ToBits(data[0])), 8), data[1..])
  }

  function Crc16(data: bytes): bv16 {
    Xor(Register(0xFFFF, data), 0xFFFF)
  }

  // ---------- Exclusive or ----------

  lemma XorAssoc(a: bv16, b: bv16, c: bv16)
    ensures Xor(Xor(a, b), c) == Xor(a, Xor(b, c))
  {
  }

  lemma XorComm(a: bv16, b: bv16)
    ensures Xor(a, b) == Xor(b, a)
  {
  }

  lemma XorSelf(a: bv16)
    ensures Xor(a, a) == 0 && Xor(a, 0) == a && Xor(0, a) == a
  {
  }

  lemma XorCancel(s: bv16, b: bv16, b': bv16)
    requires Xor(s, b) == Xor(s, b')
    ensures b == b'
  {
  }

  lemma XorSwap(s: bv16, b: bv16, s': bv16, b': bv16)
    requires Xor(s, b) == Xor(s', b')
    ensures Xor(s, s') == Xor(b, b')
  {
    hide Xor;
    XorAssoc(s, b, b);
    XorAssoc(s', b', b');
    XorSelf(b);
    XorSelf(b');
    XorSelf(s);
    XorSelf(s');
    XorShared(Xor(s, b), b, b');
  }

  lemma XorShared(c: bv16, a: bv16, b: bv16)
    ensures Xor(Xor(c, a), Xor(c, b)) == Xor(a, b)
  {
    hide Xor;
    XorComm(c, a);
    XorAssoc(a, c, Xor(c, b));
    XorAssoc(c, c, b);
    XorSelf(c);
    XorSelf(b);
  }

  lemma XorSmall(a: bv16, b: bv16)
    requires Low(a) == a && Low(b) == b
    ensures Low(Xor(a, b)) == Xor(a, b)
  {
  }

  lemma XorZero(a: bv16, b: bv16)
    ensures Xor(a, b) == 0 <==> a == b
  {
    hide Xor;
    XorSelf(a);
    if Xor(a, b) == 0 {
      XorCancel(a, a, b);
    }
  }

  // ---------- The table ----------

  lemma LowBitXor(x: bv16, y: bv16)
    ensures Xor(x, y) & 1 == if x & 1 == y & 1 then 0 else 1
  {
  }

  lemma ShiftXor(x: bv16, y: bv16)
    ensures Xor(x, y) >> 1 == Xor(x >> 1, y >> 1)
  {
    assert (x ^ y) >> 1 == (x >> 1) ^ (y >> 1);
  }

  lemma BothPoly(a: bv16, b: bv16)
    ensures Xor(Xor(a, POLY), Xor(b, POLY)) == Xor(a, b)
  {
    XorComm(a, POLY);
    XorComm(b, POLY);
    XorShared(POLY, a, b);
  }

  lemma OnePoly(a: bv16, b: bv16)
    ensures Xor(Xor(a, POLY), b) == Xor(Xor(a, b), POLY) == Xor(a, Xor(b, POLY))
  {
    XorAssoc(a, POLY, b);
    XorAssoc(a, b, POLY);
    XorComm(POLY, b);
  }

  lemma LowBit(x: bv16)
    ensures x & 1 == 0 || x & 1 == 1
  {
  }

  lemma BitStepLinear(x: bv16, y: bv16)
    ensures BitStep(Xor(x, y)) == Xor(BitStep(x), BitStep(y))
  {
    hide Xor;
    LowBitXor(x, y);
    ShiftXor(x, y);
    LowBit(x);
    LowBit(y);
    BothPoly(x >> 1, y >> 1);
    OnePoly(x >> 1, y >> 1);
  }

  lemma BitStepInjective(x: bv16, y: bv16)
    requires BitStep(x) == BitStep(y)
    ensures x == y
  {
  }

  lemma {:induction false} BitsLinear(x: bv16, y: bv16, n: nat)
    ensures Bits(Xor(x, y), n) == Xor(Bits(x, n), Bits(y, n))
    decreases n
  {
    hide BitStep, Xor;
    if n == 0 {
    } else {
      BitStepLinear(x, y);
      BitsLinear(BitStep(x), BitStep(y), n - 1);
    }
  }

  lemma {:induction false} BitsInjective(x: bv16, y: bv16, n: nat)
    requires Bits(x, n) == Bits(y, n)
    ensures x == y
    decreases n
  {
    hide BitStep;
    if n == 0 {
    } else {
      BitsInjective(BitStep(x), BitStep(y), n - 1);
      BitStepInjective(x, y);
    }
  }

  lemma BitsUnroll(c: bv16)
    ensures Bits(c, 8) ==
            BitStep(BitStep(BitStep(BitStep(BitStep(BitStep(BitStep(BitStep(c))))))))
  {
    hide BitStep;
    var c2 := BitStep(BitStep(c));
    var c4 := BitStep(BitStep(c2));
    var c6 := BitStep(BitStep(c4));
    assert Bits(c, 8) == Bits(c2, 6) == Bits(c4, 4) == Bits(c6, 2);
  }

  function HighPart(c: bv16): bv16 { c & 0xFF00 }

  /** Eight zero bits at the bottom are shifted out without meeting the polynomial. */
  lemma BitsOfHighPart(c: bv16)
    ensures Bits(HighPart(c), 8) == Top(c)
  {
    var h := HighPart(c);
    BitsUnroll(h);
    assert BitStep(h) == h >> 1;
    assert BitStep(h >> 1) == h >> 2;
    assert BitStep(h >> 2) == h >> 3;
    assert BitStep(h >> 3) == h >> 4;
    assert BitStep(h >> 4) == h >> 5;
    assert BitStep(h >> 5) == h >> 6;
    assert BitStep(h >> 6) == h >> 7;
    assert BitStep(h >> 7) == h >> 8;
    assert h >> 8 == c >> 8;
  }

  lemma Halves(x: bv16)
    ensures Xor(HighPart(x), Low(x)) == x
  {
  }

  lemma TopUntouched(c: bv16, b: bv16)
    requires Low(b) == b
    ensures Top(Xor(c, b)) == Top(c)
  {
  }

  /** A table look-up with the low byte, xored into the shifted register, is eight bit steps. */
  lemma TableStepIsEightBitSteps(c: bv16, b: byte)
    ensures Xor(Top(c), Bits(Low(Xor(c, ToBits(b))), 8)) == Bits(Xor(c, ToBits(b)), 8)
  {
    hide Bits, ToBits, Xor, Low, Top, HighPart;
    var x := Xor(c, ToBits(b));
    Halves(x);
    BitsLinear(HighPart(x), Low(x), 8);
    BitsOfHighPart(x);
    ToBitsSmall(b);
    TopUntouched(c, ToBits(b));
  }

  method BuildTable() returns (table: seq<bv16>)
    ensures |table| == 256
    ensures forall i :: 0 <= i < 256 ==> table[i] == Bits(ToBits(i), 8)
  {
    table := [];
    for i := 0 to 256
      invariant |table| == i
      invariant forall k :: 0 <= k < i ==> table[k] == Bits(ToBits(k), 8)
    {
      var crc := ToBits(i);
      for j := 0 to 8
        invariant Bits(crc, 8 - j) == Bits(ToBits(i), 8)
      {
        crc := if crc & 1 == 1 then Xor(crc >> 1, POLY) else crc >> 1;
      }
      table := table + [crc];
    }
  }

  /** The fast form computes the simple one. */
  method Crc16ByTable(table: seq<bv16>, data: bytes) returns (crc: bv16)
    requires |table| == 256 && forall i :: 0 <= i < 256 ==> table[i] == Bits(ToBits(i), 8)
    ensures crc == Crc16(data)
  {
    hide Bits, ToBits, LowByte, Xor, Top, Low;
    crc := 0xFFFF;
    assert data[0..] == data;
    for i := 0 to |data|
      invariant Register(crc, data[i..]) == Register(0xFFFF, data)
    {
      var index := LowByte(Xor(crc, ToBits(data[i])));
      ToBitsOfLowByte(Xor(crc, ToBits(data[i])));
      TableStepIsEightBitSteps(crc, data[i]);
      assert data[i..][1..] == data[i + 1..];
      crc := Xor(Top(crc), table[index]);
    }
    crc := Xor(crc, 0xFFFF);
  }

  // ---------- What the check detects ----------

  lemma {:induction false} RegisterConcat(c: bv16, a: bytes, b: bytes)
    ensures Register(c, a + b) == Register(Register(c, a), b)
    decreases a
  {
    hide Bits, ToBits, Xor;
    if a == [] {
      assert a + b == b;
    } else {
      assert (a + b)[1..] == a[1..] + b;
      RegisterConcat(Bits(Xor(c, ToBits(a[0])), 8), a[1..], b);
    }
  }

  lemma {:induction false} RegisterInjective(c: bv16, d: bv16, data: bytes)
    requires Register(c, data) == Register(d, data)
    ensures c == d
    decreases data
  {
    hide Bits, ToBits, Xor;
    if data == [] {
    } else {
      var x := ToBits(data[0]);
      RegisterInjective(Bits(Xor(c, x), 8), Bits(Xor(d, x), 8), data[1..]);
      BitsInjective(Xor(c, x), Xor(d, x), 8);
      XorComm(c, x);
      XorComm(d, x);
      XorCancel(x, c, d);
    }
  }

  /** Eight steps push a non-zero low byte into the high byte. */
  lemma LowByteRises(x: bv16)
    requires Low(x) == x && Low(Bits(x, 8)) == Bits(x, 8)
    ensures x == 0
  {
    BitsUnroll(x);
  }

  lemma RegisterOfTwo(c: bv16, p: bytes)
    requires |p| == 2
    ensures Register(c, p) == Bits(Xor(Bits(Xor(c, ToBits(p[0])), 8), ToBits(p[1])), 8)
  {
    hide Bits, ToBits, Xor;
    var s := Bits(Xor(c, ToBits(p[0])), 8);
    assert p[1..] == [p[1]] && p[1..][1..] == [];
    assert Register(s, p[1..]) == Register(Bits(Xor(s, ToBits(p[1])), 8), []);
  }

  /** From one register, different byte pairs lead to different registers. */
  lemma PairsDiffer(c: bv16, p: bytes, q: bytes)
    requires |p| == |q| == 2 && Register(c, p) == Register(c, q)
    ensures p == q
  {
    hide Bits, ToBits, Register, Xor, Low;
    var a, b, a', b' := ToBits(p[0]), ToBits(p[1]), ToBits(q[0]), ToBits(q[1]);
    RegisterOfTwo(c, p);
    RegisterOfTwo(c, q);
    var s, s' := Bits(Xor(c, a), 8), Bits(Xor(c, a'), 8);
    BitsInjective(Xor(s, b), Xor(s', b'), 8);
    XorSwap(s, b, s', b');
    BitsLinear(Xor(c, a), Xor(c, a'), 8);
    XorShared(c, a, a');
    ToBitsSmall(p[0]); ToBitsSmall(p[1]); ToBitsSmall(q[0]); ToBitsSmall(q[1]);
    XorSmall(a, a');
    XorSmall(b, b');
    LowByteRises(Xor(a, a'));
    XorZero(a, a');
    XorCancel(s, b, b');
    ToBitsInjective(p[0], q[0]);
    ToBitsInjective(p[1], q[1]);
  }

  /** Any change confined to two neighbouring bytes changes the register, from whatever start. */
  lemma BurstChangesRegister(c: bv16, before: bytes, p: bytes, q: bytes, after: bytes)
    requires |p| == |q| == 2 && p != q
    ensures Register(c, before + p + after) != Register(c, before + q + after)
  {
    hide Register;
    RegisterConcat(c, before + p, after);
    RegisterConcat(c, before + q, after);
    RegisterConcat(c, before, p);
    RegisterConcat(c, before, q);
    var s := Register(c, before);
    if Register(c, before + p + after) == Register(c, before + q + after) {
      RegisterInjective(Register(s, p), Register(s, q), after);
      PairsDiffer(s, p, q);
    }
  }

  lemma BurstChangesCrc(before: bytes, p: bytes, q: bytes, after: bytes)
    requires |p| == |q| == 2 && p != q
    ensures Crc16(before + p + after) != Crc16(before + q + after)
  {
    hide Register, Xor;
    BurstChangesRegister(0xFFFF, before, p, q, after);
    var r, r' := Register(0xFFFF, before + p + after), Register(0xFFFF, before + q + after);
    XorComm(r, 0xFFFF);
    XorComm(r', 0xFFFF);
    if Xor(0xFFFF, r) == Xor(0xFFFF, r') {
      XorCancel(0xFFFF, r, r');
    }
  }

  /** The check of the transport: the last two bytes are the CRC of the others. */
  predicate Checks(frame: bytes)
    requires |frame| >= 2
  {
    frame[|frame| - 2..] == Le16Bits(Crc16(frame[..|frame| - 2]))
  }

  lemma ResidueOfPair(s: bv16)
    ensures var crc := Xor(s, 0xFFFF);
            Bits(Xor(Bits(Xor(s, Low(crc)), 8), Top(crc)), 8) == RESIDUE
  {
    var crc := Xor(s, 0xFFFF);
    BitsUnroll(Xor(s, Low(crc)));
    BitsUnroll(Xor(Bits(Xor(s, Low(crc)), 8), Top(crc)));
  }

  lemma ResidueOfOwnCrc(s: bv16)
    ensures Register(s, Le16Bits(Xor(s, 0xFFFF))) == RESIDUE
  {
    hide Register, Bits, Xor, Top, Low, ToBits, Le16Bits;
    var crc := Xor(s, 0xFFFF);
    RegisterOfTwo(s, Le16Bits(crc));
    Le16BitsBack(crc);
    ResidueOfPair(s);
  }

  /** Only its own CRC takes a register to the residue. */
  lemma ResidueNeedsOwnCrc(s: bv16, tail: bytes)
    requires |tail| == 2
    ensures Register(s, tail) == RESIDUE <==> tail == Le16Bits(Xor(s, 0xFFFF))
  {
    hide Register, Xor, Le16Bits;
    ResidueOfOwnCrc(s);
    if Register(s, tail) == RESIDUE {
      PairsDiffer(s, tail, Le16Bits(Xor(s, 0xFFFF)));
    }
  }

  /** The transport's check and the residue check of the RFC accept the same frames. */
  lemma ChecksByResidue(frame: bytes)
    requires |frame| >= 2
    ensures Checks(frame) <==> Register(0xFFFF, frame) == RESIDUE
  {
    hide Register, Xor, Le16Bits;
    var body, tail := frame[..|frame| - 2], frame[|frame| - 2..];
    assert body + tail == frame;
    RegisterConcat(0xFFFF, body, tail);
    ResidueNeedsOwnCrc(Register(0xFFFF, body), tail);
  }

  /** A frame that checks no longer does after a change confined to two neighbouring bytes. */
  lemma BurstRejected(before: bytes, p: bytes, q: bytes, after: bytes)
    requires |p| == |q| == 2 && p != q && Checks(before + p + after)
    ensures !Checks(before + q + after)
  {
    hide Register, Checks;
    ChecksByResidue(before + p + after);
    ChecksByResidue(before + q + after);
    BurstChangesRegister(0xFFFF, before, p, q, after);
  }
}
