/**
 HDLC framing: splitting at the flag byte, the octet stuffing of section 4.2 of RFC 1662 as the
 transport performs it, with whole-string replacements, and the frames made of it.
 */
module Hdlc {
  import opened Bytes
  import opened Wrappers
  import opened Sequences
  import Crc

  const ESC_OF_ESC: byte := 0x5D
  const ESC_OF_FLAG: byte := 0x5E

  // ---------- Splitting ----------

  /** The parts between flags, empty ones included; the last is what no flag has ended yet. */
  function Split(s: bytes): (r: seq<bytes>)
    ensures r != []
  {
    if s == [] then [[]] else Extend(Split(Init(s)), Last(s))
  }

  /** One more byte ends the open part or makes it longer. */
  function Extend(parts: seq<bytes>, b: byte): (r: seq<bytes>)
    requires parts != []
    ensures r != []
  {
    if b == FLAG then parts + [[]] else Init(parts) + [Last(parts) + [b]]
  }

  function Join(parts: seq<bytes>): bytes
    requires parts != []
  {
    if |parts| == 1 then parts[0] else Join(Init(parts)) + [FLAG] + Last(parts)
  }

  ghost predicate FlagFree(parts: seq<bytes>) {
    forall p :: p in parts ==> FLAG !in p
  }

  lemma ExtendJoins(parts: seq<bytes>, b: byte)
    requires parts != [] && FlagFree(parts)
    ensures Join(Extend(parts, b)) == Join(parts) + [b] && FlagFree(Extend(parts, b))
  {
    var r := Extend(parts, b);
    assert Last(parts) in parts;
    forall p | p in r ensures FLAG !in p {
      if p in Init(parts) { assert p in parts; }
    }
    if b == FLAG {
      assert Init(r) == parts;
    } else {
      assert Init(r) == Init(parts);
      assert Join(Init(parts) + [Last(parts)]) == Join(parts) by { assert Init(parts) + [Last(parts)] == parts; }
    }
  }

  lemma {:induction false} SplitJoins(s: bytes)
    ensures Join(Split(s)) == s && FlagFree(Split(s))
    decreases |s|
  {
    hide Extend;
    if s == [] {
    } else {
      SplitJoins(Init(s));
      ExtendJoins(Split(Init(s)), Last(s));
      assert s == Init(s) + [Last(s)];
    }
  }

  /** There is only one way to read a stream as flag-free parts. */
  lemma {:induction false} SplitOfJoin(parts: seq<bytes>)
    requires parts != [] && FlagFree(parts)
    ensures Split(Join(parts)) == parts
    decreases |parts|
  {
    if |parts| == 1 {
      SplitFlagFree(parts[0]);
      assert parts == [parts[0]];
    } else {
      forall p | p in Init(parts) ensures FLAG !in p { assert p in parts; }
      SplitOfJoin(Init(parts));
      SplitAtFlag(Join(Init(parts)), Last(parts));
      assert Last(parts) in parts;
      SplitFlagFree(Last(parts));
      assert parts == Init(parts) + [Last(parts)];
    }
  }

  lemma {:induction false} SplitFlagFree(s: bytes)
    requires FLAG !in s
    ensures Split(s) == [s]
    decreases |s|
  {
    if s == [] {
    } else {
      assert FLAG !in Init(s) by { assert forall b :: b in Init(s) ==> b in s; }
      SplitFlagFree(Init(s));
      assert s == Init(s) + [Last(s)];
      assert Extend([Init(s)], Last(s)) == [s];
    }
  }

  lemma ExtendBehind(a: seq<bytes>, parts: seq<bytes>, b: byte)
    requires parts != []
    ensures Extend(a + parts, b) == a + Extend(parts, b)
  {
    assert Init(a + parts) == a + Init(parts);
  }

  /** Splitting goes on where it stopped: only the open part meets what comes later. */
  lemma {:induction false} SplitConcat(a: bytes, b: bytes)
    ensures Split(a + b) == Init(Split(a)) + Split(Last(Split(a)) + b)
    decreases |b|
  {
    hide Extend;
    var open := Last(Split(a));
    if b == [] {
      SplitJoins(a);
      assert open in Split(a);
      SplitFlagFree(open);
      assert a + b == a && open + b == open;
    } else {
      SplitConcat(a, Init(b));
      assert Init(a + b) == a + Init(b) && Last(a + b) == Last(b);
      assert Init(open + b) == open + Init(b) && Last(open + b) == Last(b);
      ExtendBehind(Init(Split(a)), Split(open + Init(b)), Last(b));
    }
  }

  lemma SplitAtFlag(a: bytes, b: bytes)
    ensures Split(a + [FLAG] + b) == Split(a) + Split(b)
  {
    var c := a + [FLAG];
    assert Init(c) == a;
    SplitConcat(c, b);
    assert [] + b == b;
  }

  // ---------- Stuffing ----------

  /** Replace every occurrence of the pair `x y`, scanning from the left. */
  function ReplacePair(s: bytes, x: byte, y: byte, z: byte): bytes {
    if |s| < 2 then s
    else if s[0] == x && s[1] == y then [z] + ReplacePair(s[2..], x, y, z)
    else [s[0]] + ReplacePair(s[1..], x, y, z)
  }

  function ReplaceByte(s: bytes, x: byte, y: byte, z: byte): bytes {
    if s == [] then [] else (if s[0] == x then [y, z] else [s[0]]) + ReplaceByte(s[1..], x, y, z)
  }

  /** Unstuffing as written: the flag's escape first, then the escape's own. */
  function Unescape(s: bytes): bytes {
    ReplacePair(ReplacePair(s, ESC, ESC_OF_FLAG, FLAG), ESC, ESC_OF_ESC, ESC)
  }

  /** Unstuffing in one pass. A lone or unknown escape stands for itself. */
  function Scan(s: bytes): bytes {
    if |s| >= 2 && s[0] == ESC && s[1] == ESC_OF_FLAG then [FLAG] + Scan(s[2..])
    else if |s| >= 2 && s[0] == ESC && s[1] == ESC_OF_ESC then [ESC] + Scan(s[2..])
    else if s == [] then []
    else [s[0]] + Scan(s[1..])
  }

  function Escape(s: bytes): bytes {
    ReplaceByte(ReplaceByte(s, ESC, ESC, ESC_OF_ESC), FLAG, ESC, ESC_OF_FLAG)
  }

  /** The stuffing of one byte. */
  function Stuff(b: byte): bytes {
    if b == ESC then [ESC, ESC_OF_ESC] else if b == FLAG then [ESC, ESC_OF_FLAG] else [b]
  }

  lemma ReplacePairFirst(s: bytes, x: byte, y: byte, z: byte)
    requires s != []
    ensures var r := ReplacePair(s, x, y, z); r != [] && (r[0] == s[0] || (r[0] == z && s[0] == x))
  {
  }

  lemma ReplacePairCons(b: byte, s: bytes, x: byte, y: byte, z: byte)
    requires b != x || s == [] || s[0] != y
    ensures ReplacePair([b] + s, x, y, z) == [b] + ReplacePair(s, x, y, z)
  {
    assert ([b] + s)[1..] == s;
  }

  /** The two replacements, in this order, are one scan from left to right on every string. */
  lemma {:induction false} UnescapeIsScan(s: bytes)
    ensures Unescape(s) == Scan(s)
    decreases |s|
  {
    if |s| >= 2 && s[0] == ESC && s[1] == ESC_OF_FLAG {
      UnescapeIsScan(s[2..]);
      ReplacePairCons(FLAG, ReplacePair(s[2..], ESC, ESC_OF_FLAG, FLAG), ESC, ESC_OF_ESC, ESC);
    } else if |s| >= 2 && s[0] == ESC && s[1] == ESC_OF_ESC {
      UnescapeIsScan(s[2..]);
      var r := ReplacePair(s[2..], ESC, ESC_OF_FLAG, FLAG);
      assert s[1..] == [ESC_OF_ESC] + s[2..] && s == [ESC] + s[1..];
      ReplacePairCons(ESC_OF_ESC, s[2..], ESC, ESC_OF_FLAG, FLAG);
      ReplacePairCons(ESC, s[1..], ESC, ESC_OF_FLAG, FLAG);
      assert ReplacePair(s, ESC, ESC_OF_FLAG, FLAG) == [ESC] + ([ESC_OF_ESC] + r);
      assert ([ESC] + ([ESC_OF_ESC] + r))[2..] == r;
    } else if s != [] {
      UnescapeIsScan(s[1..]);
      assert s == [s[0]] + s[1..];
      ReplacePairCons(s[0], s[1..], ESC, ESC_OF_FLAG, FLAG);
      if |s| > 1 {
        ReplacePairFirst(s[1..], ESC, ESC_OF_FLAG, FLAG);
      }
      ReplacePairCons(s[0], ReplacePair(s[1..], ESC, ESC_OF_FLAG, FLAG), ESC, ESC_OF_ESC, ESC);
    }
  }

  lemma {:induction false} ReplaceByteConcat(a: bytes, b: bytes, x: byte, y: byte, z: byte)
    ensures ReplaceByte(a + b, x, y, z) == ReplaceByte(a, x, y, z) + ReplaceByte(b, x, y, z)
    decreases a
  {
    if a == [] {
      assert a + b == b;
    } else {
      assert (a + b)[1..] == a[1..] + b;
      ReplaceByteConcat(a[1..], b, x, y, z);
    }
  }

  lemma ReplaceOne(b: byte, x: byte, y: byte, z: byte)
    ensures ReplaceByte([b], x, y, z) == if b == x then [y, z] else [b]
  {
    assert [b][1..] == [];
  }

  /** Escaping works byte by byte. */
  lemma EscapeCons(b: byte, s: bytes)
    ensures Escape([b] + s) == Stuff(b) + Escape(s)
  {
    ReplaceByteConcat([b], s, ESC, ESC, ESC_OF_ESC);
    ReplaceOne(b, ESC, ESC, ESC_OF_ESC);
    var first := ReplaceByte([b], ESC, ESC, ESC_OF_ESC);
    ReplaceByteConcat(first, ReplaceByte(s, ESC, ESC, ESC_OF_ESC), FLAG, ESC, ESC_OF_FLAG);
    if b == ESC {
      assert first == [ESC] + [ESC_OF_ESC];
      ReplaceByteConcat([ESC], [ESC_OF_ESC], FLAG, ESC, ESC_OF_FLAG);
      ReplaceOne(ESC, FLAG, ESC, ESC_OF_FLAG);
      ReplaceOne(ESC_OF_ESC, FLAG, ESC, ESC_OF_FLAG);
    } else {
      ReplaceOne(b, FLAG, ESC, ESC_OF_FLAG);
    }
  }

  /** Whatever follows, unstuffing undoes stuffing and the result has no flag in it. */
  lemma {:induction false} ScanOfEscape(s: bytes)
    ensures Scan(Escape(s)) == s && FLAG !in Escape(s)
    ensures |s| <= |Escape(s)|
    decreases |s|
  {
    if s == [] {
    } else {
      ScanOfEscape(s[1..]);
      EscapeCons(s[0], s[1..]);
      assert s == [s[0]] + s[1..];
      var rest := Escape(s[1..]);
      assert (Stuff(s[0]) + rest)[|Stuff(s[0])|..] == rest;
    }
  }

  // ---------- Frames ----------

  function Encapsulate(payload: bytes): bytes {
    Escape(payload + Le16Bits(Crc.Crc16(payload))) + [FLAG]
  }

  /** The payload of a frame without its flag, or None where the source's assertions fail. */
  function Decapsulate(frame: bytes, noCrc: bool): Option<bytes> {
    var raw := Unescape(frame);
    if frame == [] || |raw| < 2 then None
    else if noCrc || Crc.Checks(raw) then Some(raw[..|raw| - 2])
    else None
  }

  /** What one side encapsulates the other gets back, whether it checks the CRC or not. */
  lemma DecapsulateOfEncapsulate(payload: bytes, noCrc: bool)
    ensures var frame := Init(Encapsulate(payload));
            FLAG !in frame && Decapsulate(frame, noCrc) == Some(payload)
  {
    var raw := payload + Le16Bits(Crc.Crc16(payload));
    var frame := Escape(raw);
    ScanOfEscape(raw);
    UnescapeIsScan(frame);
    assert Init(frame + [FLAG]) == frame;
    assert raw[..|raw| - 2] == payload && raw[|raw| - 2..] == Le16Bits(Crc.Crc16(payload));
  }

  /** A change to two neighbouring bytes of what was sent, however it is stuffed, is rejected. */
  lemma CorruptionRejected(before: bytes, p: bytes, q: bytes, after: bytes, payload: bytes)
    requires |p| == |q| == 2 && p != q
    requires before + p + after == payload + Le16Bits(Crc.Crc16(payload))
    ensures Decapsulate(Escape(before + q + after), false) == None
  {
    var good, bad := before + p + after, before + q + after;
    assert good[..|good| - 2] == payload && good[|good| - 2..] == Le16Bits(Crc.Crc16(payload));
    Crc.BurstRejected(before, p, q, after);
    ScanOfEscape(bad);
    UnescapeIsScan(Escape(bad));
  }
}
