/** A modem that obeys the zeroing writes but whose answers to them are lost: both masks stay zeroed. */
module LostReply {
  import opened Bytes
  import opened Wrappers
  import opened Circular
  import opened EventMask
  import opened F3Mask
  import opened MaskState

  const ONE_RANGE: bytes := [1, 1, 0, 1, 0, 0, 0, 5, 0, 5, 0]
  const EIGHT_IDS := 8

  /** One F3 mask for every SSID, and eight events. */
  datatype Held = Held(mask: u32, events: byte)

  function MaskOf(s: Held, ss: int): u32 { s.mask }

  function EventsOf(s: Held): bytes { [s.events] }

  /** The eight events as a mask. */
  function EightIds(events: byte): (m: EventMask)
    ensures m.Valid() && m.numBits == EIGHT_IDS && m.mask == [events] && m.status == 0
  {
    Empty(EIGHT_IDS).(mask := [events])
  }

  function TableOf(first: int, last: int, mask: u32): bytes
    requires RangeOk(first, last)
  {
    [GET_RT_MASK] + Le16(first) + Le16(last) + [0, 0] + PackMasks(seq(last - first + 1, _ => mask))
  }

  function EventReply(events: byte): bytes {
    [0, 0, 0] + Le16(EIGHT_IDS) + [events]
  }

  /** The table of a read request, as long as was asked for; silence for anything else. */
  function ReadStep(s: Held, payload: bytes): Answer {
    if |payload| != 5 || U16(payload[1], payload[2]) > U16(payload[3], payload[4]) then Silence
    else
      Le16OfU16(payload[1], payload[2]);
      Le16OfU16(payload[3], payload[4]);
      Reply(EXT_MSG_CONFIG_F, TableOf(U16(payload[1], payload[2]), U16(payload[3], payload[4]), s.mask))
  }

  /** A write to all masks: obeyed in silence. */
  function WriteStep(s: Held, payload: bytes): Held {
    if |payload| == 7 then s.(mask := Word(payload[3..])) else s
  }

  /** A write to the event mask: obeyed in silence. */
  function EventStep(s: Held, payload: bytes): Held {
    var mask := Parse(payload);
    if mask.Some? && mask.value.numBits == EIGHT_IDS then s.(events := mask.value.mask[0]) else s
  }

  function LossyStep(s: Held, op: byte, payload: bytes): (Held, Answer) {
    hide EventStep, WriteStep, ReadStep, EventReply;
    if op == EVENT_MASK_GET_F then (s, Reply(EVENT_MASK_GET_F, EventReply(s.events)))
    else if op == EVENT_MASK_SET_F then (EventStep(s, payload), Silence)
    else if op != EXT_MSG_CONFIG_F || payload == [] then (s, Silence)
    else if payload[0] == QUERY_SSID_RANGES then (s, Reply(EXT_MSG_CONFIG_F, ONE_RANGE))
    else if payload[0] == GET_RT_MASK then (s, ReadStep(s, payload))
    else if payload[0] == SET_ALL_RT_MASKS then (WriteStep(s, payload), Silence)
    else (s, Silence)
  }

  function Lossy(): Modem<Held> {
    Modem((s, op, payload) => LossyStep(s, op, payload))
  }

  // ---------- It is trusted ----------

  lemma TableTold(s: Held, first: int, last: int)
    requires RangeOk(first, last)
    ensures ReadStep(s, GetRequest(first, last)) == Reply(EXT_MSG_CONFIG_F, TableOf(first, last, s.mask))
    ensures ParseTable(TableOf(first, last, s.mask)) == Some(seq(last - first + 1, _ => s.mask))
  {
    hide Le16, U16, Words, PackMasks;
    var payload := GetRequest(first, last);
    assert payload[1] == Le16(first)[0] && payload[2] == Le16(first)[1];
    assert payload[3] == Le16(last)[0] && payload[4] == Le16(last)[1];
    var masks := seq(last - first + 1, _ => s.mask);
    WordsOfPack(masks);
    assert TableOf(first, last, s.mask)[TABLE_HDR_LEN..] == PackMasks(masks);
  }

  lemma EventsReplied(s: Held)
    ensures Parse(EventReply(s.events)) == Some(EightIds(s.events))
  {
    hide Parse, EightIds;
    ParseOfReply(EightIds(s.events));
  }

  lemma LossyReadsLeave()
    ensures ReadsLeave(Lossy(), MaskOf)
  {
    hide ReadStep, WriteStep, EventStep, EventReply;
  }

  lemma LossyTellsTruth(rs: seq<(int, int)>)
    ensures TellsTruthOn(Lossy(), MaskOf, rs)
  {
    hide ReadStep, WriteStep, EventStep, EventReply, ParseTable, TableOf, GetRequest;
    forall s: Held, p | p in rs && RangeOk(p.0, p.1)
      ensures var ans := Lossy().step(s, EXT_MSG_CONFIG_F, GetRequest(p.0, p.1)).1;
              ans.Reply? && ans.op == EXT_MSG_CONFIG_F && ParseTable(ans.body).Some? ==>
                Shows(MaskOf, s, p.0, p.1, ParseTable(ans.body).value)
    {
      TableTold(s, p.0, p.1);
      GetIsRead(p.0, p.1);
    }
  }

  lemma GetIsRead(first: int, last: int)
    requires RangeOk(first, last)
    ensures GetRequest(first, last) != [] && GetRequest(first, last)[0] == GET_RT_MASK
  {
  }

  /** It is everything that the theorems on saving and restoring ask of a modem. */
  lemma LossyIsTrusted(rs: seq<(int, int)>)
    ensures Trusted(Lossy(), MaskOf, EventsOf, rs)
  {
    hide ReadStep, EventReply, Parse, ReadsLeave, TellsTruthOn, Word;
    LossyReadsLeave();
    LossyTellsTruth(rs);
    forall s: Held ensures Parse(EventReply(s.events)) == Some(EightIds(s.events)) {
      EventsReplied(s);
    }
  }

  // ---------- And loses both masks ----------

  lemma RangesTold()
    ensures ParseRanges(ONE_RANGE) == [(5, 5)]
  {
    assert RangesFrom(ONE_RANGE, 7, 1) == [(5, 5)] + RangesFrom(ONE_RANGE, 11, 0);
  }

  lemma OneRangeRead<S>(m: Modem<S>, st: S, rs: seq<(int, int)>, masks: seq<u32>)
    requires rs == [(5, 5)] && |masks| == 1 && ReadMask(m, st, 5, 5) == (st, Done(Some(masks)))
    ensures ReadRanges(m, st, rs) == (st, Done([Range(5, 5, Some(masks))]))
  {
    hide ReadMask;
    var one := Range(5, 5, Some(masks));
    assert ReadRanges(m, st, rs[1..]) == (st, Done([]));
    assert [one] + [] == [one];
  }

  lemma SnapshotTold(s: Held)
    ensures ReadSnapshot(Lossy(), s) == (s, Done(Some(Snapshot([Range(5, 5, Some([s.mask]))], true))))
  {
    hide ParseRanges, ParseTable, TableOf, ReadStep, EventStep, WriteStep, GetRequest;
    RangesTold();
    TableTold(s, 5, 5);
    GetIsRead(5, 5);
    assert seq(1, _ => s.mask) == [s.mask];
    var rs := [(5, 5)];
    assert QueryRanges(Lossy(), s) == (s, rs);
    assert ReadMask(Lossy(), s, 5, 5) == (s, Done(Some([s.mask])));
    OneRangeRead(Lossy(), s, rs, [s.mask]);
    var one := Range(5, 5, Some([s.mask]));
    assert one in [one];
  }

  lemma ZeroObeyed(s: Held)
    ensures Lossy().step(s, EXT_MSG_CONFIG_F, SetAllRequest(0)) == (s.(mask := 0), Silence)
  {
    hide Le32, U32, Word, EventStep, ReadStep;
    assert SetAllRequest(0)[3..] == Le32(0);
    WordOfLe32(0);
  }

  lemma EventsObeyed(s: Held)
    ensures WriteEvents(Lossy(), s, Empty(EIGHT_IDS)) == (s.(events := 0), false)
  {
    hide Parse, BuildSet, ReadStep, WriteStep;
    ParseOfBuildSet(Empty(EIGHT_IDS));
    var payload: bytes := BuildSet(Empty(EIGHT_IDS))[1..];
    assert EventStep(s, payload) == s.(events := 0);
    assert WriteEvents(Lossy(), s, Empty(EIGHT_IDS)).0 == LossyStep(s, EVENT_MASK_SET_F, payload).0;
  }

  lemma F3Lost(s: Held)
    requires s.mask != 0
    ensures SaveF3(Lossy(), s) == (s.(mask := 0), Done((Some(Snapshot([Range(5, 5, Some([s.mask]))], true)), false)))
    ensures F3ZeroedUnacked(Lossy(), s, MaskOf)
  {
    hide ReadSnapshot, SetAllRequest;
    SnapshotTold(s);
    ZeroObeyed(s);
    var saved := Snapshot([Range(5, 5, Some([s.mask]))], true);
    assert saved.ranges[1..] == [];
    assert saved.AllMasks() == [s.mask] + Gather(saved.ranges[1..]);
    assert s.mask in saved.AllMasks();
    assert MaskOf(s.(mask := 0), 5) != MaskOf(s, 5);
  }

  lemma EventsLost(s: Held, id: nat)
    requires id < EIGHT_IDS && Bit(s.events, id)
    ensures SaveEvents(Lossy(), s) == (s.(events := 0), (Some(EightIds(s.events)), false))
    ensures EventsZeroedUnacked(Lossy(), s, EventsOf)
  {
    hide WriteEvents, Parse, Bit, Empty;
    EventsReplied(s);
    EventsObeyed(s);
    ZeroHasNoBits(id);
    var mask := EightIds(s.events);
    assert ReadEvents(Lossy(), s) == (s, Some(mask));
    assert mask.IsSet(id) && id in mask.SetIds();
  }

  /**
   For every modem state with an F3 mask and an event set: the save leaves both masks zeroed and reports
   both as left alone, and the restore reports success over it.
   */
  lemma LostReplyLosesTheMasks(s: Held, id: nat)
    requires s.mask != 0 && id < EIGHT_IDS && Bit(s.events, id)
    ensures Trusted(Lossy(), MaskOf, EventsOf, QueryRanges(Lossy(), s).1)
    ensures var (st, got) := SaveAndZero(Lossy(), s);
            && st == Held(0, 0) && got.Done? && !got.value.f3Zeroed && !got.value.eventsZeroed
            && RestoreMasks(Lossy(), st, got.value) == (Held(0, 0), Done((true, true)))
  {
    hide SaveF3, SaveEvents, Lossy, Trusted, QueryRanges, Bit, EventMask.Valid;
    LossyIsTrusted(QueryRanges(Lossy(), s).1);
    F3Lost(s);
    EventsLost(s.(mask := 0), id);
  }
}
