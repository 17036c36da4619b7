/**
 A modem with some advertised F3 ranges and an event mask, as the measured ones behave: a read brings the whole
 range that begins there, a SET_ALL the running OR, and padding bits of the event mask are not kept. It is
 all that the theorems on saving and restoring ask for, so both masks make the round trip.
 */
module RangeModem {
  import opened Bytes
  import opened Wrappers
  import opened Circular
  import opened EventMask
  import opened F3Mask
  import opened MaskState
  import opened MaskRoundTrip
  import StoredMask

  datatype Config = Config(ranges: seq<(int, int)>, bits: int)
  {
    ghost predicate Valid() {
      && 0 < |ranges| <= 0xFFFF && 1 <= bits <= 0xFFFF
      && (forall p :: p in ranges ==> RangeOk(p.0, p.1))
      && (forall i, j :: 0 <= i < j < |ranges| ==> ranges[i].0 != ranges[j].0)
    }
  }

  /** The F3 masks that are held, zero elsewhere, and the armed events. */
  datatype Device = Device(masks: map<int, u32>, armed: set<int>)

  function View(d: Device, ss: int): u32 {
    if ss in d.masks then d.masks[ss] else 0
  }

  // ---------- The event mask ----------

  /** The mask of the armed ids below `upTo`, padding clear. */
  function Rebuild(armed: set<int>, bits: int, upTo: nat): (m: EventMask)
    requires 1 <= bits <= 0xFFFF && upTo <= bits
    ensures m.Valid() && m.numBits == bits && m.status == 0
  {
    hide PutBit, EventMask.IsSet;
    if upTo == 0 then Empty(bits)
    else
      var m := Rebuild(armed, bits, upTo - 1);
      if upTo - 1 in armed then Put(m, upTo - 1, true) else m
  }

  lemma {:induction false} RebuildSets(armed: set<int>, bits: int, upTo: nat)
    requires 1 <= bits <= 0xFFFF && upTo <= bits
    ensures Rebuild(armed, bits, upTo).SetIds() == set i | 0 <= i < upTo && i in armed
    decreases upTo
  {
    hide EventMask.SetIds, Put;
    if upTo == 0 {
      EmptyArmsNothing(bits);
    } else {
      RebuildSets(armed, bits, upTo - 1);
      PutOne(Rebuild(armed, bits, upTo - 1), upTo - 1, true);
    }
  }

  lemma {:induction false} RebuildSame(a: set<int>, b: set<int>, bits: int, upTo: nat)
    requires 1 <= bits <= 0xFFFF && upTo <= bits && forall i :: 0 <= i < upTo ==> (i in a <==> i in b)
    ensures Rebuild(a, bits, upTo) == Rebuild(b, bits, upTo)
    decreases upTo
  {
    hide Put;
    if upTo == 0 {
    } else {
      RebuildSame(a, b, bits, upTo - 1);
    }
  }

  function HeldEvents(cfg: Config, d: Device): (m: EventMask)
    requires cfg.Valid()
    ensures m.Valid() && m.numBits == cfg.bits && m.status == 0
  {
    Rebuild(d.armed, cfg.bits, cfg.bits)
  }

  function EventsOf(cfg: Config): Device -> bytes
    requires cfg.Valid()
  {
    d => HeldEvents(cfg, d).mask
  }

  /** Writing back what was held arms the same events, and so holds the same bytes. */
  lemma HeldAgain(cfg: Config, d: Device, home: Device, mask: EventMask)
    requires cfg.Valid() && mask.Valid() && mask.numBits == cfg.bits && mask.mask == HeldEvents(cfg, home).mask
    ensures HeldEvents(cfg, d.(armed := mask.SetIds())).mask == mask.mask
  {
    hide EventMask.SetIds, EventMask.Valid;
    RebuildSets(home.armed, cfg.bits, cfg.bits);
    SameIdsSet(mask, HeldEvents(cfg, home));
    RebuildSame(mask.SetIds(), home.armed, cfg.bits, cfg.bits);
  }

  // ---------- The modem ----------

  function PackRanges(rs: seq<(int, int)>): bytes
    requires forall p :: p in rs ==> RangeOk(p.0, p.1)
  {
    if rs == [] then []
    else
      var p := rs[0];
      assert p in rs && RangeOk(p.0, p.1);
      Le16(p.0) + Le16(p.1) + PackRanges(rs[1..])
  }

  function RangesReply(cfg: Config): bytes
    requires cfg.Valid()
  {
    [QUERY_SSID_RANGES, 0, 0] + Le16(|cfg.ranges|) + [0, 0] + PackRanges(cfg.ranges)
  }

  /** The range that begins at `first`. */
  function Beginning(rs: seq<(int, int)>, first: int): (p: Option<(int, int)>)
    ensures p.Some? ==> p.value in rs && p.value.0 == first
  {
    if rs == [] then None else if rs[0].0 == first then Some(rs[0]) else Beginning(rs[1..], first)
  }

  function Table(d: Device, p: (int, int)): (masks: seq<u32>)
    requires p.0 <= p.1
    ensures |masks| == p.1 - p.0 + 1 && forall i :: 0 <= i < |masks| ==> masks[i] == View(d, p.0 + i)
  {
    seq<u32>(p.1 - p.0 + 1, i => View(d, p.0 + i))
  }

  function TableReply(request: bytes, masks: seq<u32>): bytes
    requires |request| == 5
  {
    request + [1, 0] + PackMasks(masks)
  }

  /** The whole range that begins where the request does, whatever its end. */
  function ReadStep(cfg: Config, d: Device, payload: bytes): Answer
    requires cfg.Valid() && payload != [] && payload[0] == GET_RT_MASK
  {
    if |payload| != 5 then Silence
    else
      var p := Beginning(cfg.ranges, U16(payload[1], payload[2]));
      if p.None? then Silence else Reply(EXT_MSG_CONFIG_F, TableReply(payload, Table(d, p.value)))
  }

  predicate Covered(rs: seq<(int, int)>, ss: int) {
    exists p :: p in rs && p.0 <= ss <= p.1
  }

  function SetAllStep(cfg: Config, d: Device, payload: bytes): Device {
    if |payload| != 7 then d
    else
      var v := StoredMask.Stored(Word(payload[3..]));
      d.(masks := map ss | 0 <= ss <= 0xFFFF && Covered(cfg.ranges, ss) :: v)
  }

  predicate InWindow(ss: int, first: int, n: nat) {
    first <= ss < first + n
  }

  function Lay(d: Device, first: int, masks: seq<u32>): Device {
    d.(masks := d.masks + map ss | first <= ss < first + |masks| && InWindow(ss, first, |masks|) :: masks[ss - first])
  }

  /** As many of the masks as the range that is named has SSIDs. */
  function SetArrayStep(d: Device, payload: bytes): Device {
    if |payload| < 7 || (|payload| - 7) % 4 != 0 then d
    else
      var first, last := U16(payload[1], payload[2]), U16(payload[3], payload[4]);
      var masks := Words(payload[7..]);
      if 0 <= last - first < |masks| then Lay(d, first, masks[..last - first + 1]) else d
  }

  function EventStep(cfg: Config, d: Device, payload: bytes): Device {
    var mask := Parse(payload);
    if mask.Some? && mask.value.numBits == cfg.bits then d.(armed := mask.value.SetIds()) else d
  }

  function EventReply(cfg: Config, d: Device): bytes
    requires cfg.Valid()
  {
    [0, 0, 0] + Le16(cfg.bits) + HeldEvents(cfg, d).mask
  }

  function Step(cfg: Config, d: Device, op: byte, payload: bytes): (Device, Answer)
    requires cfg.Valid()
  {
    hide Config.Valid, RangesReply, ReadStep, SetAllStep, SetArrayStep, EventStep, EventReply;
    if op == EVENT_MASK_GET_F then (d, Reply(op, EventReply(cfg, d)))
    else if op == EVENT_MASK_SET_F then (EventStep(cfg, d, payload), Reply(op, payload))
    else if op != EXT_MSG_CONFIG_F || payload == [] then (d, Silence)
    else if payload[0] == QUERY_SSID_RANGES then (d, Reply(op, RangesReply(cfg)))
    else if payload[0] == GET_RT_MASK then (d, ReadStep(cfg, d, payload))
    else if payload[0] == SET_ALL_RT_MASKS then (SetAllStep(cfg, d, payload), Reply(op, payload))
    else if payload[0] == SET_RT_MASK then (SetArrayStep(d, payload), Reply(op, payload))
    else (d, Silence)
  }

  function Measured(cfg: Config): Modem<Device>
    requires cfg.Valid()
  {
    Modem((d, op, payload) => Step(cfg, d, op, payload))
  }

  // ---------- Its ranges and tables ----------

  lemma {:induction false} RangesBack(pre: bytes, rs: seq<(int, int)>)
    requires forall p :: p in rs ==> RangeOk(p.0, p.1)
    ensures RangesFrom(pre + PackRanges(rs), |pre|, |rs|) == rs
    decreases rs
  {
    hide Le16, U16, RangesFrom, PackRanges;
    var body := pre + PackRanges(rs);
    if rs == [] {
      NoRanges(body, |pre|);
    } else {
      assert rs[0] in rs && forall p :: p in rs[1..] ==> p in rs;
      var one := Le16(rs[0].0) + Le16(rs[0].1);
      PackedFirst(rs);
      assert body == (pre + one) + PackRanges(rs[1..]);
      RangesBack(pre + one, rs[1..]);
      FirstRange(body, |pre|, rs[0], |rs|);
      assert rs == [rs[0]] + rs[1..];
    }
  }

  lemma NoRanges(body: bytes, off: nat)
    ensures RangesFrom(body, off, 0) == []
  {
  }

  lemma PackedFirst(rs: seq<(int, int)>)
    requires rs != [] && forall p :: p in rs ==> RangeOk(p.0, p.1)
    ensures rs[0] in rs && PackRanges(rs) == Le16(rs[0].0) + Le16(rs[0].1) + PackRanges(rs[1..])
  {
  }

  lemma FirstRange(body: bytes, off: nat, p: (int, int), n: nat)
    requires RangeOk(p.0, p.1) && off + 4 <= |body| && n > 0
    requires body[off..off + 4] == Le16(p.0) + Le16(p.1)
    ensures RangesFrom(body, off, n) == [p] + RangesFrom(body, off + 4, n - 1)
  {
    hide Le16, U16;
    var one := body[off..off + 4];
    assert body[off] == one[0] && body[off + 1] == one[1] && body[off + 2] == one[2] && body[off + 3] == one[3];
  }

  lemma RangesTold(cfg: Config, d: Device)
    requires cfg.Valid()
    ensures QueryRanges(Measured(cfg), d) == (d, cfg.ranges)
  {
    hide Le16, U16, ReadStep, PackRanges, RangesFrom;
    var pre := [QUERY_SSID_RANGES, 0, 0] + Le16(|cfg.ranges|) + [0, 0];
    RangesBack(pre, cfg.ranges);
    var body := RangesReply(cfg);
    assert body == pre + PackRanges(cfg.ranges);
    assert body[3] == Le16(|cfg.ranges|)[0] && body[4] == Le16(|cfg.ranges|)[1];
  }

  lemma {:induction false} BeginningFound(rs: seq<(int, int)>, p: (int, int))
    requires p in rs && forall i, j :: 0 <= i < j < |rs| ==> rs[i].0 != rs[j].0
    ensures Beginning(rs, p.0) == Some(p)
    decreases rs
  {
    if rs[0] == p {
    } else {
      var i :| 0 <= i < |rs| && rs[i] == p;
      assert rs[0].0 != rs[i].0 && rs[1..][i - 1] == p;
      BeginningFound(rs[1..], p);
    }
  }

  /** A range that is read is told in full. */
  lemma TableTold(cfg: Config, d: Device, p: (int, int))
    requires cfg.Valid() && p in cfg.ranges
    ensures RangeOk(p.0, p.1)
    ensures var ans := Measured(cfg).step(d, EXT_MSG_CONFIG_F, GetRequest(p.0, p.1)).1;
            && ans == Reply(EXT_MSG_CONFIG_F, TableReply(GetRequest(p.0, p.1), Table(d, p)))
            && ParseTable(ans.body) == Some(Table(d, p))
  {
    hide Le16, U16, Words, PackMasks, SetAllStep, SetArrayStep, EventStep, EventReply, RangesReply, Beginning;
    var payload := GetRequest(p.0, p.1);
    assert payload[1] == Le16(p.0)[0] && payload[2] == Le16(p.0)[1];
    BeginningFound(cfg.ranges, p);
    WordsOfPack(Table(d, p));
    var body := TableReply(payload, Table(d, p));
    assert body[TABLE_HDR_LEN..] == PackMasks(Table(d, p));
  }

  lemma EventsReplied(cfg: Config, d: Device)
    requires cfg.Valid()
    ensures Parse(EventReply(cfg, d)) == Some(HeldEvents(cfg, d))
  {
    hide Parse, HeldEvents, Config.Valid;
    ParseOfReply(HeldEvents(cfg, d));
  }

  // ---------- It is trusted ----------

  lemma LeavesAndTells(cfg: Config)
    requires cfg.Valid()
    ensures ReadsLeave(Measured(cfg), View) && TellsTruthOn(Measured(cfg), View, cfg.ranges)
  {
    hide RangesReply, SetAllStep, SetArrayStep, EventStep, EventReply, ReadStep, Config.Valid, ParseTable,
         GetRequest, View;
    forall d: Device, p | p in cfg.ranges && RangeOk(p.0, p.1)
      ensures var ans := Measured(cfg).step(d, EXT_MSG_CONFIG_F, GetRequest(p.0, p.1)).1;
              ans.Reply? && ans.op == EXT_MSG_CONFIG_F && ParseTable(ans.body).Some? ==>
                Shows(View, d, p.0, p.1, ParseTable(ans.body).value)
    {
      TableTold(cfg, d, p);
    }
  }

  lemma KeepsApart(cfg: Config)
    requires cfg.Valid()
    ensures Separate(Measured(cfg), View, EventsOf(cfg)) && EventsTold(Measured(cfg), EventsOf(cfg))
  {
    hide RangesReply, EventReply, ReadStep, Config.Valid, Parse, HeldEvents, EventMask.SetIds, StoredMask.Stored,
         Words, Word;
    forall d: Device ensures Parse(EventReply(cfg, d)) == Some(HeldEvents(cfg, d)) {
      EventsReplied(cfg, d);
    }
    forall d: Device, payload ensures EventsOf(cfg)(SetAllStep(cfg, d, payload)) == EventsOf(cfg)(d) {
      SameArmed(cfg, d, SetAllStep(cfg, d, payload));
    }
    forall d: Device, payload ensures EventsOf(cfg)(SetArrayStep(d, payload)) == EventsOf(cfg)(d) {
      SameArmed(cfg, d, SetArrayStep(d, payload));
    }
  }

  lemma SameArmed(cfg: Config, d: Device, e: Device)
    requires cfg.Valid() && d.armed == e.armed
    ensures EventsOf(cfg)(d) == EventsOf(cfg)(e)
  {
    hide Config.Valid, Rebuild;
  }

  // ---------- And it cooperates ----------

  lemma AppliesAll(cfg: Config)
    requires cfg.Valid()
    ensures AppliesSetAll(Measured(cfg), View, cfg.ranges)
  {
    hide RangesReply, EventReply, EventStep, ReadStep, StoredMask.Stored, Le32;
    forall d: Device, v: u32
      ensures var (e, ans) := Measured(cfg).step(d, EXT_MSG_CONFIG_F, SetAllRequest(v));
              && Accepted(ans)
              && forall p, ss :: p in cfg.ranges && p.0 <= ss <= p.1 ==> View(e, ss) == StoredMask.Stored(v)
    {
      assert SetAllRequest(v)[3..] == Le32(v);
      WordOfLe32(v);
      var e := SetAllStep(cfg, d, SetAllRequest(v));
      forall p, ss | p in cfg.ranges && p.0 <= ss <= p.1 ensures View(e, ss) == StoredMask.Stored(v) {
        assert RangeOk(p.0, p.1) && Covered(cfg.ranges, ss);
      }
    }
  }

  lemma ArrayLaid(d: Device, first: int, masks: seq<u32>)
    requires SetArrayRequest(first, masks).Done?
    ensures SetArrayStep(d, SetArrayRequest(first, masks).value) == Lay(d, first, masks)
  {
    hide Le16, U16, Words, PackMasks;
    var payload := SetArrayRequest(first, masks).value;
    WordsOfPack(masks);
    assert payload[7..] == PackMasks(masks);
    var last := first + |masks| - 1;
    assert payload[1] == Le16(first)[0] && payload[2] == Le16(first)[1];
    assert payload[3] == Le16(last)[0] && payload[4] == Le16(last)[1];
    assert masks[..|masks|] == masks;
  }

  lemma LaysArrays(cfg: Config)
    requires cfg.Valid()
    ensures AppliesArrays(Measured(cfg), View, cfg.ranges)
  {
    hide RangesReply, EventReply, EventStep, ReadStep, SetAllStep, SetArrayStep, Config.Valid, SetArrayRequest, Lay,
         View, Overlaid;
    forall d: Device, p, masks |
      p in cfg.ranges && |masks| == p.1 - p.0 + 1 && SetArrayRequest(p.0, masks).Done?
      ensures var (e, ans) := Measured(cfg).step(d, EXT_MSG_CONFIG_F, SetArrayRequest(p.0, masks).value);
              Accepted(ans) && Overlaid(View, d, e, p.0, masks, cfg.ranges)
    {
      ArrayLaid(d, p.0, masks);
      ArraySeen(d, p.0, masks, cfg.ranges);
      ArrayHead(p.0, masks);
    }
  }

  lemma ArraySeen(d: Device, first: int, masks: seq<u32>, rs: seq<(int, int)>)
    ensures Overlaid(View, d, Lay(d, first, masks), first, masks, rs)
  {
  }

  lemma ArrayHead(first: int, masks: seq<u32>)
    requires SetArrayRequest(first, masks).Done?
    ensures var payload := SetArrayRequest(first, masks).value; payload != [] && payload[0] == SET_RT_MASK
  {
  }

  lemma AnswersTables(cfg: Config)
    requires cfg.Valid()
    ensures AnswersReads(Measured(cfg), cfg.ranges)
  {
    hide Measured, Config.Valid, ParseTable, GetRequest, Table, TableReply;
    forall d: Device, p | p in cfg.ranges ensures Answered(ReadMask(Measured(cfg), d, p.0, p.1).1) {
      TableTold(cfg, d, p);
    }
  }

  lemma AnswersIds(cfg: Config)
    requires cfg.Valid()
    ensures AnswersEvents(Measured(cfg), cfg.bits)
  {
    hide RangesReply, EventReply, EventStep, ReadStep, SetAllStep, SetArrayStep, Config.Valid, Parse, HeldEvents;
    forall d: Device ensures ReadEvents(Measured(cfg), d) == (d, Some(HeldEvents(cfg, d))) {
      EventsReplied(cfg, d);
    }
  }

  lemma AcksWrites(cfg: Config)
    requires cfg.Valid()
    ensures AcksEvents(Measured(cfg), cfg.bits)
  {
    hide RangesReply, EventReply, EventStep, ReadStep, SetAllStep, SetArrayStep, Config.Valid, BuildSet;
    forall d: Device, mask: EventMask | mask.Valid() && mask.numBits == cfg.bits
      ensures WriteEvents(Measured(cfg), d, mask).1
    {
      ParseOfBuildSet(mask);
      var payload: bytes := BuildSet(mask)[1..];
      assert Step(cfg, d, EVENT_MASK_SET_F, payload).1 == Reply(EVENT_MASK_SET_F, payload);
      assert Measured(cfg).step(d, EVENT_MASK_SET_F, payload) == Step(cfg, d, EVENT_MASK_SET_F, payload);
    }
  }

  lemma HoldsEvents(cfg: Config)
    requires cfg.Valid()
    ensures AppliesEvents(Measured(cfg), EventsOf(cfg), cfg.bits)
    ensures Holdable(EventsOf(cfg), Zeros((cfg.bits + 7) / 8))
  {
    hide RangesReply, EventReply, ReadStep, SetAllStep, SetArrayStep, Config.Valid, Parse, HeldEvents, BuildSet,
         EventMask.SetIds, EventMask.Valid;
    var events := EventsOf(cfg);
    forall d: Device, mask: EventMask | mask.Valid() && mask.numBits == cfg.bits && Holdable(events, mask.mask)
      ensures events(WriteEvents(Measured(cfg), d, mask).0) == mask.mask
    {
      var home :| events(home) == mask.mask;
      EventsWritten(cfg, d, mask);
      HeldAgain(cfg, d, home, mask.(status := 0));
    }
    NoneHeld(cfg);
  }

  lemma EventsWritten(cfg: Config, d: Device, mask: EventMask)
    requires cfg.Valid() && mask.Valid() && mask.numBits == cfg.bits
    ensures WriteEvents(Measured(cfg), d, mask).0 == d.(armed := mask.(status := 0).SetIds())
  {
    hide RangesReply, EventReply, ReadStep, SetAllStep, SetArrayStep, Config.Valid, Parse, BuildSet, EventMask.SetIds;
    ParseOfBuildSet(mask);
    var payload: bytes := BuildSet(mask)[1..];
    assert WriteEvents(Measured(cfg), d, mask).0 == Step(cfg, d, EVENT_MASK_SET_F, payload).0;
  }

  lemma NoneHeld(cfg: Config)
    requires cfg.Valid()
    ensures Holdable(EventsOf(cfg), Zeros((cfg.bits + 7) / 8))
  {
    hide Put;
    var d := Device(map[], {});
    NothingRebuilt({}, cfg.bits, cfg.bits);
    assert EventsOf(cfg)(d) == Zeros((cfg.bits + 7) / 8);
  }

  lemma {:induction false} NothingRebuilt(armed: set<int>, bits: int, upTo: nat)
    requires 1 <= bits <= 0xFFFF && upTo <= bits && armed == {}
    ensures Rebuild(armed, bits, upTo) == Empty(bits)
    decreases upTo
  {
    if upTo == 0 {
    } else {
      NothingRebuilt(armed, bits, upTo - 1);
    }
  }

  /** The hypotheses on saving and restoring hold of every such modem in every state. */
  lemma MeasuredCooperates(cfg: Config, d: Device)
    requires cfg.Valid()
    ensures QueryRanges(Measured(cfg), d).1 == cfg.ranges
    ensures Trusted(Measured(cfg), View, EventsOf(cfg), cfg.ranges)
    ensures Cooperates(Measured(cfg), View, EventsOf(cfg), cfg.ranges, cfg.bits)
    ensures Holdable(EventsOf(cfg), Zeros((cfg.bits + 7) / 8))
  {
    hide Measured, View, EventsOf, Config.Valid, QueryRanges, ReadsLeave, TellsTruthOn, Separate, EventsTold,
         AppliesSetAll, AppliesArrays, AnswersReads, AnswersEvents, AcksEvents, AppliesEvents, Holdable;
    RangesTold(cfg, d);
    LeavesAndTells(cfg);
    KeepsApart(cfg);
    AppliesAll(cfg);
    LaysArrays(cfg);
    AnswersTables(cfg);
    AnswersIds(cfg);
    AcksWrites(cfg);
    HoldsEvents(cfg);
  }

  /**
   The round trip of such a modem: the save leaves no mask set, the restore reports success for both
   whatever happened in between, and every mask that was zeroed is again as it was found.
   */
  lemma MeasuredRoundTrip(cfg: Config, d: Device, mid: Device)
    requires cfg.Valid()
    ensures var m, events := Measured(cfg), EventsOf(cfg);
            var (quiet, got) := SaveAndZero(m, d);
            && got.Done? && got.value.f3.Some? && got.value.events.Some?
            && AllZero(View, quiet, got.value.f3.value.ranges) && Disarmed(events, quiet, got.value.events.value)
            && var (end, oks) := RestoreMasks(m, mid, got.value);
               && oks == Done((true, true))
               && (got.value.f3Zeroed ==> AgreeOn(View, end, d, got.value.f3.value.ranges))
               && (got.value.eventsZeroed ==> events(end) == events(d))
  {
    hide Measured, View, EventsOf, Config.Valid, QueryRanges, Trusted, Cooperates, Holdable, SaveAndZero, RestoreMasks,
         AllZero, Disarmed, AgreeOn;
    MeasuredCooperates(cfg, d);
    BitsPositive(cfg);
    SaveQuiets(Measured(cfg), d, View, EventsOf(cfg), cfg.bits);
    CooperativeRoundTrip(Measured(cfg), d, mid, View, EventsOf(cfg), cfg.bits);
  }

  lemma BitsPositive(cfg: Config)
    requires cfg.Valid()
    ensures cfg.bits >= 0 && cfg.ranges != []
  {
  }
}
