/** QSH-trace masksets on the wire: the SET command, and its harvest from a file of HDLC frames. */
module Maskset {
  import opened Bytes
  import opened Wrappers
  import opened Circular
  import opened F3Mask
  import opened Hdlc
  import opened Sequences

  type Pairs = seq<(int, int)>

  const DIAG_SUBSYS_CMD_F: byte := 0x4B
  const DIAG_SUBSYS_LTE: byte := 0x44
  const SET_SUBCMD := 0x9001
  const SET_MIN_ARGS := 3
  const SET_HEAD: bytes := [DIAG_SUBSYS_CMD_F, DIAG_SUBSYS_LTE, 0x01, 0x90]

  predicate Legal(pairs: Pairs) {
    && |pairs| + SET_MIN_ARGS < 0x1_0000_0000
    && forall p :: p in pairs ==> 0 <= p.0 < 0x1_0000 && 0 <= p.1 < 0x1_0000
  }

  // ---------- The command ----------

  function PackPair(p: (int, int)): (r: bytes)
    requires 0 <= p.0 < 0x1_0000 && 0 <= p.1 < 0x1_0000
    ensures |r| == 4
  {
    Le16(p.0) + Le16(p.1)
  }

  function PackPairs(pairs: Pairs): (r: bytes)
    requires Legal(pairs)
    ensures |r| == 4 * |pairs|
  {
    if pairs == [] then [] else PackPairs(Init(pairs)) + PackPair(Last(pairs))
  }

  function Head(n: nat, wordA: u32, wordB: u32): (r: bytes)
    requires n + SET_MIN_ARGS < 0x1_0000_0000
    ensures |r| == 16
  {
    Le32(SET_MIN_ARGS + n) + Le32(wordA) + Le32(wordB) + Le32(n)
  }

  function SetHead(subsys: byte): bytes {
    [DIAG_SUBSYS_CMD_F, subsys] + Le16(SET_SUBCMD)
  }

  /** The command for these pairs to some subsystem, before the framing. */
  function CommandTo(subsys: byte, pairs: Pairs, wordA: u32, wordB: u32): bytes
    requires Legal(pairs)
  {
    SetHead(subsys) + (Head(|pairs|, wordA, wordB) + PackPairs(pairs))
  }

  /** The command to the subsystem that masksets belong to. */
  function SetCommand(pairs: Pairs, wordA: u32, wordB: u32): (r: bytes)
    requires Legal(pairs)
    ensures |r| == 4 + 16 + 4 * |pairs| && r == CommandTo(DIAG_SUBSYS_LTE, pairs, wordA, wordB)
  {
    SET_HEAD + (Head(|pairs|, wordA, wordB) + PackPairs(pairs))
  }

  /** The command byte by byte: opcode, subsystem, 0x9001, four words, then each pair, low bytes first. */
  lemma CommandOnWire(subsys: byte, pairs: Pairs, wordA: u32, wordB: u32)
    requires Legal(pairs)
    ensures var r, n := CommandTo(subsys, pairs, wordA, wordB), |pairs|;
            && |r| == 20 + 4 * n && r[..4] == [0x4B, subsys, 0x01, 0x90]
            && (subsys == 0x44 ==> r == SetCommand(pairs, wordA, wordB))
            && NumberAt(r, 4) == 3 + n && NumberAt(r, 8) == wordA && NumberAt(r, 12) == wordB && NumberAt(r, 16) == n
            && forall i :: 0 <= i < n ==>
                 r[20 + 4 * i..24 + 4 * i] ==
                 [pairs[i].0 % 256, pairs[i].0 / 256, pairs[i].1 % 256, pairs[i].1 / 256]
  {
    hide Le32, PackPairs, Legal, NumberAt, Head, CommandTo;
    LegalCount(pairs);
    var r, n := CommandTo(subsys, pairs, wordA, wordB), |pairs|;
    var head, packed := Head(n, wordA, wordB), PackPairs(pairs);
    CommandParts(subsys, pairs, wordA, wordB);
    HeadOnWire(n, wordA, wordB);
    NumberMoved(r, head, 0);
    NumberMoved(r, head, 4);
    NumberMoved(r, head, 8);
    NumberMoved(r, head, 12);
    forall i | 0 <= i < n
      ensures Legal(pairs) && r[20 + 4 * i..24 + 4 * i] ==
              [pairs[i].0 % 256, pairs[i].0 / 256, pairs[i].1 % 256, pairs[i].1 / 256]
    {
      PairOnWire(pairs, i);
      SliceMoved(r, packed, i);
    }
  }

  lemma LegalCount(pairs: Pairs)
    requires Legal(pairs)
    ensures |pairs| + SET_MIN_ARGS < 0x1_0000_0000
  {
  }

  lemma CommandParts(subsys: byte, pairs: Pairs, wordA: u32, wordB: u32)
    requires Legal(pairs)
    ensures var r := CommandTo(subsys, pairs, wordA, wordB);
            && |r| == 20 + 4 * |pairs| && r[..4] == [0x4B, subsys, 0x01, 0x90]
            && r[4..20] == Head(|pairs|, wordA, wordB) && r[20..] == PackPairs(pairs)
            && (subsys == 0x44 ==> r == SetCommand(pairs, wordA, wordB))
  {
    hide Head, PackPairs, Legal;
    LegalCount(pairs);
    LowByteFirst16(SET_SUBCMD);
  }

  lemma NumberMoved(r: bytes, head: bytes, off: nat)
    requires |r| >= 20 && |head| == 16 && r[4..20] == head && off + 4 <= 16
    ensures NumberAt(r, 4 + off) == NumberAt(head, off)
  {
    assert forall i :: 0 <= i < 16 ==> r[4 + i] == r[4..20][i];
  }

  lemma SliceMoved(r: bytes, packed: bytes, i: nat)
    requires |r| == 20 + |packed| && r[20..] == packed && 4 * i + 4 <= |packed|
    ensures r[20 + 4 * i..24 + 4 * i] == packed[4 * i..4 * i + 4]
  {
  }

  lemma HeadOnWire(n: nat, wordA: u32, wordB: u32)
    requires n + SET_MIN_ARGS < 0x1_0000_0000
    ensures var h := Head(n, wordA, wordB);
            NumberAt(h, 0) == 3 + n && NumberAt(h, 4) == wordA && NumberAt(h, 8) == wordB && NumberAt(h, 12) == n
  {
    hide Le32;
  }

  lemma {:induction false} PairOnWire(pairs: Pairs, i: nat)
    requires Legal(pairs) && i < |pairs|
    ensures PackPairs(pairs)[4 * i..4 * i + 4] ==
            [pairs[i].0 % 256, pairs[i].0 / 256, pairs[i].1 % 256, pairs[i].1 / 256]
    decreases |pairs|
  {
    hide Le16, Legal;
    LegalInit(pairs);
    var front, p := Init(pairs), Last(pairs);
    LowByteFirst16(p.0);
    LowByteFirst16(p.1);
    if i == |pairs| - 1 {
      assert PackPairs(pairs)[4 * i..4 * i + 4] == PackPair(p);
    } else {
      PairOnWire(front, i);
      assert PackPairs(pairs)[4 * i..4 * i + 4] == PackPairs(front)[4 * i..4 * i + 4];
    }
  }

  /** None where the source refuses a number that does not fit its field. */
  method BuildSet(pairs: Pairs, wordA: int, wordB: int, subsys: int) returns (r: Option<bytes>)
    ensures r.Some? <==> Legal(pairs) && 0 <= wordA < MODULUS && 0 <= wordB < MODULUS && 0 <= subsys < 256
    ensures r.Some? ==> r.value == CommandTo(subsys, pairs, wordA, wordB)
  {
    hide Head, PackPair;
    if |pairs| + SET_MIN_ARGS >= 0x1_0000_0000 || !(0 <= wordA < MODULUS) || !(0 <= wordB < MODULUS) {
      return None;
    }
    var payload := Head(|pairs|, wordA, wordB);
    for i := 0 to |pairs|
      invariant Legal(pairs[..i])
      invariant payload == Head(|pairs|, wordA, wordB) + PackPairs(pairs[..i])
    {
      var (ssid, level) := pairs[i];
      if !(0 <= ssid <= 0xFFFF) || !(0 <= level <= 0xFFFF) {
        assert pairs[i] in pairs;
        return None;
      }
      assert Init(pairs[..i + 1]) == pairs[..i] && Last(pairs[..i + 1]) == pairs[i];
      payload := payload + PackPair((ssid, level));
    }
    assert pairs[..|pairs|] == pairs;
    if !(0 <= subsys < 256) {
      return None;
    }
    r := Some(SetHead(subsys) + payload);
  }

  // ---------- The harvest ----------

  function PairOf(bs: bytes): (int, int)
    requires |bs| == 4
  {
    (U16(bs[0], bs[1]), U16(bs[2], bs[3]))
  }

  function UnpackPairs(bs: bytes): (r: Pairs)
    requires |bs| % 4 == 0
    ensures |r| == |bs| / 4
  {
    if bs == [] then [] else UnpackPairs(bs[..|bs| - 4]) + [PairOf(bs[|bs| - 4..])]
  }

  /** The maskset in an unstuffed frame; None for any other frame and for one of another length. */
  function ParseSet(f: bytes): Option<Pairs> {
    hide Word, UnpackPairs;
    if !(SET_HEAD <= f) || |f| < 4 + 16 + 2 then None
    else
      var body := f[4..|f| - 2];
      var argc, n := Word(body[..4]), Word(body[12..16]);
      if argc != SET_MIN_ARGS + n || |body| != 16 + 4 * n then None
      else Some(UnpackPairs(body[16..]))
  }

  function HarvestParts(parts: seq<bytes>): seq<Pairs> {
    if parts == [] then []
    else
      var got := ParseSet(Unescape(Last(parts)));
      HarvestParts(Init(parts)) + if got.Some? then [got.value] else []
  }

  method HarvestCfg(data: bytes) returns (out: seq<Pairs>)
    ensures out == HarvestParts(Split(data))
  {
    hide ParseSet, Unescape, Split;
    out := [];
    var parts := Split(data);
    for i := 0 to |parts|
      invariant out == HarvestParts(parts[..i])
    {
      assert Init(parts[..i + 1]) == parts[..i] && Last(parts[..i + 1]) == parts[i];
      var f := Unescape(parts[i]);
      var got := ParseSet(f);
      if got.Some? {
        out := out + [got.value];
      }
    }
    assert parts[..|parts|] == parts;
  }

  // ---------- One frame ----------

  lemma PairBack(p: (int, int))
    requires 0 <= p.0 < 0x1_0000 && 0 <= p.1 < 0x1_0000
    ensures PairOf(PackPair(p)) == p
  {
    hide Le16, U16;
  }

  lemma PairOut(bs: bytes)
    requires |bs| == 4
    ensures var p := PairOf(bs); 0 <= p.0 < 0x1_0000 && 0 <= p.1 < 0x1_0000 && PackPair(p) == bs
  {
    hide Le16, U16;
    Le16OfU16(bs[0], bs[1]);
    Le16OfU16(bs[2], bs[3]);
  }

  lemma LegalInit(pairs: Pairs)
    requires Legal(pairs) && pairs != []
    ensures Legal(Init(pairs)) && 0 <= Last(pairs).0 < 0x1_0000 && 0 <= Last(pairs).1 < 0x1_0000
  {
    assert forall p :: p in Init(pairs) ==> p in pairs;
    assert Last(pairs) in pairs;
  }

  lemma {:induction false} UnpackOfPack(pairs: Pairs)
    requires Legal(pairs)
    ensures UnpackPairs(PackPairs(pairs)) == pairs
    decreases |pairs|
  {
    hide PackPair, PairOf, Legal;
    if pairs == [] {
    } else {
      LegalInit(pairs);
      UnpackOfPack(Init(pairs));
      PairBack(Last(pairs));
      var bs := PackPairs(pairs);
      assert bs[..|bs| - 4] == PackPairs(Init(pairs)) && bs[|bs| - 4..] == PackPair(Last(pairs));
      assert pairs == Init(pairs) + [Last(pairs)];
    }
  }

  lemma NoneLegal()
    ensures Legal([])
  {
  }

  lemma LegalSnoc(pairs: Pairs, p: (int, int))
    requires Legal(pairs) && 0 <= p.0 < 0x1_0000 && 0 <= p.1 < 0x1_0000
    requires |pairs| + 1 + SET_MIN_ARGS < 0x1_0000_0000
    ensures Legal(pairs + [p])
  {
  }

  lemma {:induction false} PackOfUnpack(bs: bytes)
    requires |bs| % 4 == 0 && |bs| / 4 + SET_MIN_ARGS < 0x1_0000_0000
    ensures Legal(UnpackPairs(bs)) && PackPairs(UnpackPairs(bs)) == bs
    decreases |bs|
  {
    hide PackPair, PairOf, Legal;
    NoneLegal();
    if bs == [] {
    } else {
      var front, back := bs[..|bs| - 4], bs[|bs| - 4..];
      PackOfUnpack(front);
      PairOut(back);
      var pairs := UnpackPairs(bs);
      LegalSnoc(UnpackPairs(front), PairOf(back));
      assert Init(pairs) == UnpackPairs(front) && Last(pairs) == PairOf(back);
      assert bs == front + back;
    }
  }

  /** A command with any two-byte trailer parses to its pairs. */
  lemma ParseOfCommand(pairs: Pairs, wordA: u32, wordB: u32, trailer: bytes)
    requires Legal(pairs) && |trailer| == 2
    ensures ParseSet(SetCommand(pairs, wordA, wordB) + trailer) == Some(pairs)
  {
    hide Le32, Word, Legal, PackPairs, UnpackPairs;
    var f := SetCommand(pairs, wordA, wordB) + trailer;
    var head := Head(|pairs|, wordA, wordB);
    var body := f[4..|f| - 2];
    assert body == head + PackPairs(pairs);
    assert body[..4] == Le32(SET_MIN_ARGS + |pairs|) && body[12..16] == Le32(|pairs|) && body[16..] == PackPairs(pairs);
    WordOfLe32(SET_MIN_ARGS + |pairs|);
    WordOfLe32(|pairs|);
    UnpackOfPack(pairs);
  }

  lemma SliceOfSlice(s: bytes, i: nat, j: nat, a: nat, b: nat)
    requires i <= j <= |s| && a <= b <= j - i
    ensures s[i..j][a..b] == s[i + a..i + b]
  {
    assert forall k :: 0 <= k < b - a ==> s[i..j][a..b][k] == s[i..j][a + k] == s[i + a + k] == s[i + a..i + b][k];
  }

  lemma Quarters(h: bytes)
    requires |h| == 16
    ensures h == h[..4] + h[4..8] + h[8..12] + h[12..]
  {
    assert h[..8] == h[..4] + h[4..8];
    assert h[..12] == h[..8] + h[8..12];
    assert h == h[..12] + h[12..];
  }

  /** Four words whose first is three more than the last are the head of a command. */
  lemma HeadOut(argc: bytes, a: bytes, b: bytes, n: bytes)
    requires |argc| == |a| == |b| == |n| == 4 && Word(argc) == SET_MIN_ARGS + Word(n)
    ensures argc + a + b + n == Head(Word(n), Word(a), Word(b))
  {
    hide Le32, U32;
    Le32OfU32(argc);
    Le32OfU32(a);
    Le32OfU32(b);
    Le32OfU32(n);
  }

  /** And whatever parses is such a command: a frame is never misread. */
  lemma ParsedIsCommand(f: bytes)
    ensures var got := ParseSet(f);
            got.Some? ==>
              && |f| >= 22 && Legal(got.value)
              && f == SetCommand(got.value, Word(f[8..12]), Word(f[12..16])) + f[|f| - 2..]
  {
    hide Le32, Word, PackPairs, UnpackPairs, Legal, Head, CommandTo;
    var got := ParseSet(f);
    if got.Some? {
      var body, h := f[4..|f| - 2], f[4..20];
      SliceOfSlice(f, 4, |f| - 2, 0, 4);
      SliceOfSlice(f, 4, |f| - 2, 12, 16);
      SliceOfSlice(f, 4, |f| - 2, 0, 16);
      SliceOfSlice(f, 4, 20, 0, 4);
      SliceOfSlice(f, 4, 20, 4, 8);
      SliceOfSlice(f, 4, 20, 8, 12);
      SliceOfSlice(f, 4, 20, 12, 16);
      assert h[12..16] == h[12..] && body[0..4] == body[..4] && body[0..16] == body[..16] && h[0..4] == h[..4];
      Quarters(h);
      HeadOut(h[..4], h[4..8], h[8..12], h[12..]);
      PackOfUnpack(body[16..]);
      assert body == body[..16] + body[16..];
      assert f == SET_HEAD + body + f[|f| - 2..];
    }
  }

  /** A SET command of some legal pairs, with some two-byte trailer. */
  ghost predicate IsCommand(f: bytes) {
    exists pairs: Pairs, wordA: u32, wordB: u32, trailer: bytes ::
      Legal(pairs) && |trailer| == 2 && f == SetCommand(pairs, wordA, wordB) + trailer
  }

  /** Exactly the commands parse; a frame whose counts disagree with its length is not one. */
  lemma ParsesExactlyCommands(f: bytes)
    ensures ParseSet(f).Some? <==> IsCommand(f)
  {
    hide ParseSet, Legal;
    ParsedIsCommand(f);
    if IsCommand(f) {
      var pairs: Pairs, wordA: u32, wordB: u32, trailer: bytes :|
        Legal(pairs) && |trailer| == 2 && f == SetCommand(pairs, wordA, wordB) + trailer;
      ParseOfCommand(pairs, wordA, wordB, trailer);
    }
  }

  // ---------- A whole file ----------

  /** One frame of a file: a command with its trailer, or anything else. */
  datatype Item = Command(pairs: Pairs, wordA: u32, wordB: u32, trailer: bytes) | Other(frame: bytes)
  {
    ghost predicate Valid() {
      match this
      case Command(pairs, _, _, trailer) => Legal(pairs) && |trailer| == 2
      case Other(frame) => FLAG !in frame && !IsCommand(Unescape(frame))
    }

    /** The frame as it stands in the file, without its flag. */
    function Frame(): bytes
      requires Valid()
    {
      match this
      case Command(pairs, wordA, wordB, trailer) => Escape(SetCommand(pairs, wordA, wordB) + trailer)
      case Other(frame) => frame
    }
  }

  function Flatten(items: seq<Item>): bytes
    requires forall i :: i in items ==> i.Valid()
  {
    if items == [] then [] else Flatten(Init(items)) + Last(items).Frame() + [FLAG]
  }

  /** The masksets of the commands, in order. */
  function Masksets(items: seq<Item>): seq<Pairs> {
    if items == [] then []
    else Masksets(Init(items)) + if Last(items).Command? then [Last(items).pairs] else []
  }

  lemma FrameParses(item: Item)
    requires item.Valid()
    ensures FLAG !in item.Frame()
    ensures ParseSet(Unescape(item.Frame())) == if item.Command? then Some(item.pairs) else None
  {
    hide Escape, Unescape, Scan, SetCommand, Legal, IsCommand, ParseSet;
    match item
    case Command(pairs, wordA, wordB, trailer) =>
      var f := SetCommand(pairs, wordA, wordB) + trailer;
      ScanOfEscape(f);
      UnescapeIsScan(Escape(f));
      ParseOfCommand(pairs, wordA, wordB, trailer);
    case Other(frame) =>
      ParsesExactlyCommands(Unescape(frame));
  }

  lemma NoPartsHarvested()
    ensures HarvestParts([[]]) == []
  {
    var parts: seq<bytes> := [[]];
    assert Init(parts) == [] && Last(parts) == [];
  }

  /** Every maskset of a file is harvested, as it was built and in file order, and nothing else is. */
  lemma {:induction false} HarvestInverts(items: seq<Item>)
    requires forall i :: i in items ==> i.Valid()
    ensures HarvestParts(Split(Flatten(items))) == Masksets(items)
    decreases |items|
  {
    hide ParseSet, Unescape, Item.Valid, Item.Frame;
    if items == [] {
      NoPartsHarvested();
    } else {
      var front, item := Init(items), Last(items);
      assert item in items && forall i :: i in front ==> i in items;
      HarvestInverts(front);
      FrameParses(item);
      FlagEnds(Flatten(front), item.Frame());
      HarvestOfFlagged(Split(Flatten(front)), item.Frame());
    }
  }

  /** A stream that ends in a flag has an empty open part, and a whole frame before it. */
  lemma FlagEnds(a: bytes, frame: bytes)
    requires FLAG !in frame
    requires a == [] || Last(a) == FLAG
    ensures Split(a + frame + [FLAG]) == Init(Split(a)) + [frame, []]
  {
    var s := a + frame + [FLAG];
    assert Init(s) == a + frame && Last(s) == FLAG;
    SplitConcat(a, frame);
    assert Last(Split(a)) == [];
    assert [] + frame == frame;
    SplitFlagFree(frame);
    assert Init(Split(a)) + [frame] + [[]] == Init(Split(a)) + [frame, []];
  }

  lemma HarvestOfFlagged(parts: seq<bytes>, frame: bytes)
    requires parts != [] && Last(parts) == []
    ensures HarvestParts(Init(parts) + [frame, []]) ==
            HarvestParts(parts) + if ParseSet(Unescape(frame)).Some? then [ParseSet(Unescape(frame)).value] else []
  {
    hide ParseSet;
    var all := Init(parts) + [frame, []];
    assert Init(all) == Init(parts) + [frame] && Last(all) == [];
    assert Init(Init(all)) == Init(parts) && Last(Init(all)) == frame;
    EmptyParses();
  }

  lemma EmptyParses()
    ensures ParseSet(Unescape([])) == None
  {
  }
}
