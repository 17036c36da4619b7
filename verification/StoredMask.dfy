/** What the modem stores when every mask is set at once: a running OR over the four bytes. */
module StoredMask {
  import opened Bytes
  import opened Circular

  function Or(a: byte, b: byte): byte {
    ((a as bv8) | (b as bv8)) as int
  }

  /** `a` has no bit that `b` lacks. */
  predicate Under(a: byte, b: byte) {
    Or(a, b) == b
  }

  lemma OrPattern(a: byte, b: byte)
    ensures Or(a, b) as bv8 == (a as bv8) | (b as bv8)
  {
    ByteBitsOfInt((a as bv8) | (b as bv8));
  }

  lemma OrBits(a: byte, b: byte, k: nat)
    requires k < 8
    ensures Bit(Or(a, b), k) <==> Bit(a, k) || Bit(b, k)
  {
    hide Bit, BitAt, Or;
    OrPattern(a, b);
    BitIsTest(a, k);
    BitIsTest(b, k);
    BitIsTest(Or(a, b), k);
    PatternsMeet(a as bv8, b as bv8, BitAt(k));
  }

  lemma PatternsMeet(x: bv8, y: bv8, bit: bv8)
    ensures (x | y) & bit != 0 <==> x & bit != 0 || y & bit != 0
  {
  }

  lemma OrZero(a: byte)
    ensures Or(0, a) == a && Or(a, a) == a
  {
    assert (a as bv8) | (a as bv8) == a as bv8 && 0 | (a as bv8) == a as bv8;
    IntOfByteBits(a);
  }

  lemma PatternsAbsorb(x: bv8, y: bv8)
    ensures x | (x | y) == x | y && y | (x | y) == x | y && (x | y) | y == x | y
  {
  }

  lemma OrAbsorbs(a: byte, b: byte)
    ensures Under(a, Or(a, b)) && Under(b, Or(a, b))
    ensures Or(Or(a, b), b) == Or(a, b)
  {
    PatternsAbsorb(a as bv8, b as bv8);
    OrPattern(a, b);
  }

  lemma OrAssoc(a: byte, b: byte, c: byte)
    ensures Or(Or(a, b), c) == Or(a, Or(b, c)) && Or(a, b) == Or(b, a)
  {
    var x, y, z := a as bv8, b as bv8, c as bv8;
    OrPattern(a, b);
    OrPattern(b, c);
    assert (x | y) | z == x | (y | z) && x | y == y | x;
  }

  lemma OrMonotone(a: byte, a': byte, b: byte, b': byte)
    requires Under(a, a') && Under(b, b')
    ensures Under(Or(a, b), Or(a', b'))
  {
    hide Or;
    OrAssoc(Or(a, b), a', b');
    OrAssoc(a, b, a');
    OrAssoc(a, a', b);
    OrAssoc(b, a', b');
    OrAssoc(a', b, b');
  }

  /** The running OR, started at `acc`. */
  function PrefixOr(bs: bytes, acc: byte): (r: bytes)
    ensures |r| == |bs|
  {
    if bs == [] then []
    else
      var next := Or(acc, bs[0]);
      [next] + PrefixOr(bs[1..], next)
  }

  method RunningOr(bs: bytes) returns (out: bytes)
    ensures out == PrefixOr(bs, 0)
  {
    hide Or;
    out := [];
    var acc: byte := 0;
    for i := 0 to |bs|
      invariant PrefixOr(bs, 0) == out + PrefixOr(bs[i..], acc)
    {
      assert bs[i..][1..] == bs[i + 1..];
      acc := Or(acc, bs[i]);
      out := out + [acc];
    }
  }

  ghost predicate AllUnder(a: bytes, b: bytes) {
    |a| == |b| && forall i :: 0 <= i < |a| ==> Under(a[i], b[i])
  }

  /** A chain of bytes, the first above `acc`, that never loses a bit. */
  predicate Rises(bs: bytes, acc: byte) {
    bs != [] ==> Under(acc, bs[0]) && Rises(bs[1..], bs[0])
  }

  /** Extensive: no requested bit is lost. */
  lemma {:induction false} PrefixOrExtends(bs: bytes, acc: byte)
    ensures AllUnder(bs, PrefixOr(bs, acc))
    decreases bs
  {
    hide Or;
    if bs == [] {
    } else {
      OrAbsorbs(acc, bs[0]);
      PrefixOrExtends(bs[1..], Or(acc, bs[0]));
    }
  }

  /** Monotone: asking for more stores more. */
  lemma {:induction false} PrefixOrMonotone(a: bytes, b: bytes, x: byte, y: byte)
    requires AllUnder(a, b) && Under(x, y)
    ensures AllUnder(PrefixOr(a, x), PrefixOr(b, y))
    decreases a
  {
    hide Or;
    if a == [] {
    } else {
      OrMonotone(x, y, a[0], b[0]);
      assert forall i :: 0 <= i < |a| - 1 ==> Under(a[1..][i], b[1..][i]);
      PrefixOrMonotone(a[1..], b[1..], Or(x, a[0]), Or(y, b[0]));
    }
  }

  /** What is stored verbatim is exactly a rising chain of bytes. */
  lemma {:induction false} FixedPointsRise(bs: bytes, acc: byte)
    ensures PrefixOr(bs, acc) == bs <==> Rises(bs, acc)
    decreases bs
  {
    hide Or;
    if bs == [] {
    } else {
      var next := Or(acc, bs[0]);
      FixedPointsRise(bs[1..], bs[0]);
      assert PrefixOr(bs, acc)[0] == next && PrefixOr(bs, acc)[1..] == PrefixOr(bs[1..], next);
      assert next == bs[0] && PrefixOr(bs[1..], next) == bs[1..] ==> PrefixOr(bs, acc) == bs by {
        assert [bs[0]] + bs[1..] == bs;
      }
    }
  }

  lemma {:induction false} PrefixOrRises(bs: bytes, acc: byte)
    ensures Rises(PrefixOr(bs, acc), acc)
    decreases bs
  {
    hide Or;
    if bs == [] {
    } else {
      OrAbsorbs(acc, bs[0]);
      PrefixOrRises(bs[1..], Or(acc, bs[0]));
      assert PrefixOr(bs, acc)[1..] == PrefixOr(bs[1..], Or(acc, bs[0]));
    }
  }

  /** A bit is stored in a byte exactly if it was asked for in that byte or a lower one. */
  lemma {:induction false} PrefixOrBits(bs: bytes, acc: byte, i: nat, k: nat)
    requires i < |bs| && k < 8
    ensures Bit(PrefixOr(bs, acc)[i], k) <==> Bit(acc, k) || exists j :: 0 <= j <= i && Bit(bs[j], k)
    decreases bs
  {
    hide Or, Bit;
    var next := Or(acc, bs[0]);
    OrBits(acc, bs[0], k);
    if i == 0 {
    } else {
      PrefixOrBits(bs[1..], next, i - 1, k);
      if exists j :: 0 <= j <= i && Bit(bs[j], k) {
        var j :| 0 <= j <= i && Bit(bs[j], k);
        assert j > 0 ==> bs[j] == bs[1..][j - 1];
      }
    }
  }

  function Stored(requested: u32): u32 {
    var out := PrefixOr(Le32(requested), 0);
    U32(out[0], out[1], out[2], out[3])
  }

  /** Idempotent: storing what was stored changes nothing; and what is fixed has a rising chain. */
  lemma StoredIsClosed(v: u32)
    ensures Stored(Stored(v)) == Stored(v)
    ensures Stored(v) == v <==> Rises(Le32(v), 0)
  {
    hide PrefixOr, Rises;
    var out := PrefixOr(Le32(v), 0);
    Le32OfU32(out);
    PrefixOrRises(Le32(v), 0);
    FixedPointsRise(out, 0);
    FixedPointsRise(Le32(v), 0);
  }

  /** In plain numbers: byte `i` of the stored mask is the OR of the bytes of the request up to it. */
  lemma StoredBits(v: u32, i: nat, k: nat)
    requires i < 4 && k < 8
    ensures var (asked, stored) := (Le32(v), Le32(Stored(v)));
            Bit(stored[i], k) <==> exists j :: 0 <= j <= i && Bit(asked[j], k)
  {
    hide PrefixOr, Bit, Le32;
    var out := PrefixOr(Le32(v), 0);
    Le32OfU32(out);
    ZeroBit(k);
    PrefixOrBits(Le32(v), 0, i, k);
  }

  lemma ZeroBit(k: nat)
    ensures !Bit(0, k)
  {
  }

  /** A measured request, in which a fold from the high byte would give another mask. */
  lemma MeasuredStore()
    ensures Stored(0x0804_0201) == 0x0F07_0301
  {
    hide Le32;
    LowByteFirst32(1, 2, 4, 8);
    assert Or(0, 1) == 1 && Or(1, 2) == 3 && Or(3, 4) == 7 && Or(7, 8) == 15;
    assert PrefixOr([8], 7) == [15];
    assert PrefixOr([4, 8], 3) == [7, 15];
    assert PrefixOr([2, 4, 8], 1) == [3, 7, 15];
    assert PrefixOr([1, 2, 4, 8], 0) == [1, 3, 7, 15];
  }

  /** Asking for nothing stores nothing. */
  lemma StoredZero()
    ensures Stored(0) == 0
  {
    hide PrefixOr, Or;
    var zeros := Le32(0);
    OrZero(0);
    ZerosRise(zeros);
    StoredIsClosed(0);
  }

  lemma {:induction false} ZerosRise(bs: bytes)
    requires forall b :: b in bs ==> b == 0
    ensures Rises(bs, 0)
    decreases bs
  {
    hide Or;
    OrZero(0);
    if bs == [] {
    } else {
      assert bs[0] in bs && forall b :: b in bs[1..] ==> b in bs;
      ZerosRise(bs[1..]);
    }
  }
}
