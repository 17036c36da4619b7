/** What saving and restoring send, byte for byte, and what they make of the answers. */
module MaskWrites {
  import opened Bytes
  import opened Wrappers
  import opened Circular
  import opened EventMask
  import opened F3Mask
  import opened MaskState
  import opened Recording

  // ---------- The requests ----------

  /** A read of the table of one range. */
  ghost predicate IsReadOf(x: Exchange, p: (int, int)) {
    && x.op == 0x7D && RangeOk(p.0, p.1)
    && x.payload == [3, p.0 % 256, p.0 / 256, p.1 % 256, p.1 / 256]
  }

  /** Reads of these ranges in order: of all of them, or up to one that cannot be asked for. */
  ghost predicate Reads(sent: Log, rs: seq<(int, int)>, all: bool) {
    && |sent| <= |rs| && (all ==> |sent| == |rs|)
    && forall i :: 0 <= i < |sent| ==> IsReadOf(sent[i], rs[i])
  }

  /** The ranges in a reply to the query. */
  function Advertised(ans: Answer): seq<(int, int)> {
    if ans.Reply? && ans.op == 0x7D then ParseRanges(ans.body) else []
  }

  /** The query for the ranges, then a read of each, or of range 0 for want of any. */
  ghost predicate SnapshotSends(sent: Log, rs: seq<(int, int)>, all: bool) {
    && sent != [] && sent[0].op == 0x7D && sent[0].payload == [1] && rs == Advertised(sent[0].answer)
    && Reads(sent[1..], if rs == [] then [(0, 120)] else rs, all)
  }

  /** The longer form of the event request, and the shorter one if the longer is not answered. */
  ghost predicate EventReads(sent: Log) {
    && 1 <= |sent| <= 2 && (|sent| == 2 <==> sent[0].answer.Silence?)
    && sent[0].op == 0x81 && sent[0].payload == [0, 0, 0]
    && (|sent| == 2 ==> sent[1].op == 0x81 && sent[1].payload == [])
  }

  /** A reply that is no rejection. */
  predicate Acknowledged(x: Exchange) {
    x.answer.Reply? && x.answer.op != 0x13
  }

  predicate ZeroesAll(x: Exchange) {
    x.op == 0x7D && x.payload == [5, 0, 0, 0, 0, 0, 0]
  }

  /** One SET_ALL of zero if all masks were read and one is set; the answer decides whether it counts. */
  ghost predicate ZeroesF3(sent: Log, f3: Option<Snapshot>, zeroed: bool) {
    if Restorable(f3) && AnySet(f3.value.AllMasks()) then
      |sent| == 1 && ZeroesAll(sent[0]) && (zeroed <==> Acknowledged(sent[0]))
    else sent == [] && !zeroed
  }

  /** One empty event mask of the size read if an event is armed; only a reply of its opcode counts. */
  ghost predicate ZeroesEvents(sent: Log, events: Option<EventMask>, zeroed: bool)
    requires events.Some? ==> events.value.Valid()
  {
    if events.Some? && events.value.SetIds() != {} then
      var n := events.value.numBits;
      && |sent| == 1 && sent[0].op == 0x82
      && sent[0].payload == [0, 0, 0, n % 256, n / 256] + Zeros(n / 8 + 1)
      && (zeroed <==> sent[0].answer.Reply? && sent[0].answer.op == 0x82)
    else sent == [] && !zeroed
  }

  // ---------- Recording changes nothing ----------

  lemma ReadMaskRecorded<S>(m: Modem<S>, st: S, log: Log, first: int, last: int) returns (sent: Log)
    ensures var (end, got) := ReadMask(Recorded(m), (st, log), first, last);
            && (end.0, got) == ReadMask(m, st, first, last) && Since(log, end.1, sent)
            && (got.Raised? <==> !RangeOk(first, last))
            && (got.Done? ==> |sent| == 1 && IsReadOf(sent[0], (first, last))) && (got.Raised? ==> sent == [])
  {
    hide ParseTable, Le16;
    sent := [];
    if RangeOk(first, last) {
      var request := GetRequest(first, last);
      RecordedStep(m, st, log, EXT_MSG_CONFIG_F, request);
      LowByteFirst16(first);
      LowByteFirst16(last);
      sent := [Exchange(EXT_MSG_CONFIG_F, request, m.step(st, EXT_MSG_CONFIG_F, request).1)];
    }
  }

  lemma ReadsCons(one: Exchange, rest: Log, rs: seq<(int, int)>, all: bool)
    requires rs != [] && IsReadOf(one, rs[0]) && Reads(rest, rs[1..], all)
    ensures Reads([one] + rest, rs, all)
  {
    hide IsReadOf;
    var sent := [one] + rest;
    forall i | 0 <= i < |sent| ensures IsReadOf(sent[i], rs[i]) {
      if i > 0 {
        assert sent[i] == rest[i - 1] && rs[i] == rs[1..][i - 1];
      }
    }
  }

  lemma {:induction false} ReadRangesRecorded<S>(m: Modem<S>, st: S, log: Log, rs: seq<(int, int)>) returns (sent: Log)
    ensures var (end, out) := ReadRanges(Recorded(m), (st, log), rs);
            (end.0, out) == ReadRanges(m, st, rs) && Since(log, end.1, sent) && Reads(sent, rs, out.Done?)
    decreases rs
  {
    hide ReadMask, Cut, Recorded, IsReadOf, RangeOk;
    sent := [];
    if rs == [] {
    } else {
      var (first, last) := rs[0];
      sent := ReadMaskRecorded(m, st, log, first, last);
      var (mid, got) := ReadMask(Recorded(m), (st, log), first, last);
      if got.Done? {
        var rest := ReadRangesRecorded(m, mid.0, mid.1, rs[1..]);
        ReadsCons(sent[0], rest, rs, ReadRanges(Recorded(m), mid, rs[1..]).1.Done?);
        assert sent == [sent[0]];
        SinceThen(log, mid.1, ReadRanges(Recorded(m), mid, rs[1..]).0.1, sent, rest);
        sent := sent + rest;
      }
    }
  }

  lemma SnapshotRecorded<S>(m: Modem<S>, st: S, log: Log) returns (sent: Log)
    ensures var (end, got) := ReadSnapshot(Recorded(m), (st, log));
            && (end.0, got) == ReadSnapshot(m, st) && Since(log, end.1, sent)
            && SnapshotSends(sent, QueryRanges(m, st).1, got.Done?)
  {
    hide ReadRanges, ParseRanges, NoneRead, AllRead, Reads, Recorded;
    RecordedStep(m, st, log, EXT_MSG_CONFIG_F, [QUERY_SSID_RANGES]);
    var (mid, rs) := QueryRanges(Recorded(m), (st, log));
    var query := Exchange(EXT_MSG_CONFIG_F, [QUERY_SSID_RANGES], m.step(st, EXT_MSG_CONFIG_F, [QUERY_SSID_RANGES]).1);
    var asked := if rs == [] then [(0, SS_RANGE0_LAST)] else rs;
    var queries := ReadRangesRecorded(m, mid.0, mid.1, asked);
    SinceThen(log, mid.1, ReadRanges(Recorded(m), mid, asked).0.1, [query], queries);
    sent := [query] + queries;
    assert sent[1..] == queries;
  }

  lemma ReadEventsRecorded<S>(m: Modem<S>, st: S, log: Log) returns (sent: Log)
    ensures var (end, got) := ReadEvents(Recorded(m), (st, log));
            (end.0, got) == ReadEvents(m, st) && Since(log, end.1, sent) && EventReads(sent)
  {
    hide Parse, Recorded;
    RecordedStep(m, st, log, EVENT_MASK_GET_F, [0, 0, 0]);
    var (st1, ans) := m.step(st, EVENT_MASK_GET_F, [0, 0, 0]);
    sent := [Exchange(EVENT_MASK_GET_F, [0, 0, 0], ans)];
    if ans.Silence? {
      RecordedStep(m, st1, log + sent, EVENT_MASK_GET_F, []);
      sent := sent + [Exchange(EVENT_MASK_GET_F, [], m.step(st1, EVENT_MASK_GET_F, []).1)];
    }
  }

  // ---------- Saving ----------

  /** The tables come back one for each range asked for, in order. */
  lemma {:induction false} RangesAreThoseAsked<S>(m: Modem<S>, st: S, rs: seq<(int, int)>)
    ensures var out := ReadRanges(m, st, rs).1; out.Done? ==> Bounds(out.value) == rs
    decreases rs
  {
    hide ReadMask, Cut, Bounds;
    if rs == [] {
      NoBounds([]);
    } else {
      var (first, last) := rs[0];
      ReadMaskInRange(m, st, first, last);
      var (mid, got) := ReadMask(m, st, first, last);
      RangesAreThoseAsked(m, mid, rs[1..]);
      var rest := ReadRanges(m, mid, rs[1..]).1;
      if got.Done? && rest.Done? {
        BoundsCons(Range(first, last, Cut(got.value, last - first + 1)), rest.value);
        assert rs == [rs[0]] + rs[1..];
      }
    }
  }

  lemma NoBounds(ranges: seq<Range>)
    requires ranges == []
    ensures Bounds(ranges) == []
  {
  }

  lemma BoundsCons(one: Range, rest: seq<Range>)
    ensures Bounds([one] + rest) == [(one.first, one.last)] + Bounds(rest)
  {
    assert ([one] + rest)[1..] == rest;
  }

  /** Whatever the modem answers: a complete snapshot has read every range that was advertised. */
  lemma CompleteReadsEverything<S>(m: Modem<S>, st: S)
    ensures var got := ReadSnapshot(m, st).1;
            got.Done? && Restorable(got.value) ==>
              var ranges := got.value.value.ranges;
              AllRead(ranges) && ranges != [] && Bounds(ranges) == QueryRanges(m, st).1
  {
    hide ReadRanges, ParseRanges;
    var (mid, rs) := QueryRanges(m, st);
    RangesAreThoseAsked(m, mid, rs);
  }

  lemma SaveF3Recorded<S>(m: Modem<S>, st: S, log: Log) returns (queries: Log, zeroing: Log)
    ensures var (end, got) := SaveF3(Recorded(m), (st, log));
            && (end.0, got) == SaveF3(m, st) && Since(log, end.1, queries + zeroing)
            && SnapshotSends(queries, QueryRanges(m, st).1, got.Done?)
            && (got.Raised? ==> zeroing == [])
            && (got.Done? ==> ZeroesF3(zeroing, got.value.0, got.value.1))
  {
    hide ReadSnapshot, SnapshotSends, QueryRanges, AnySet, Snapshot.AllMasks, Recorded, ZeroesAll, Acknowledged,
         Accepted, SetAllRequest;
    queries := SnapshotRecorded(m, st, log);
    var (mid, f3) := ReadSnapshot(Recorded(m), (st, log));
    zeroing := [];
    assert queries + [] == queries;
    if f3.Done? && Restorable(f3.value) && AnySet(f3.value.value.AllMasks()) {
      var x := ZeroWriteRecorded(m, mid.0, mid.1);
      zeroing := [x];
      SinceThen(log, mid.1, mid.1 + zeroing, queries, zeroing);
    }
  }

  lemma ZeroWord()
    ensures Le32(0) == [0, 0, 0, 0]
  {
    hide Le32;
    LowByteFirst32(0, 0, 0, 0);
  }

  lemma SetAllZero()
    ensures SetAllRequest(0) == [5, 0, 0, 0, 0, 0, 0]
  {
    hide Le32;
    ZeroWord();
    BeforeZeros(Le32(0));
  }

  lemma BeforeZeros(word: bytes)
    requires word == [0, 0, 0, 0]
    ensures [SET_ALL_RT_MASKS, 0, 0] + word == [5, 0, 0, 0, 0, 0, 0]
  {
  }

  lemma ZeroWriteRecorded<S>(m: Modem<S>, st: S, log: Log) returns (x: Exchange)
    ensures var (end, ans) := Recorded(m).step((st, log), EXT_MSG_CONFIG_F, SetAllRequest(0));
            && (end.0, ans) == m.step(st, EXT_MSG_CONFIG_F, SetAllRequest(0)) && Since(log, end.1, [x])
            && ZeroesAll(x) && (Accepted(ans) <==> Acknowledged(x))
  {
    hide Recorded, SetAllRequest;
    var request := SetAllRequest(0);
    SetAllZero();
    RecordedStep(m, st, log, EXT_MSG_CONFIG_F, request);
    x := Exchange(EXT_MSG_CONFIG_F, request, m.step(st, EXT_MSG_CONFIG_F, request).1);
  }

  lemma EmptyOnWire(numBits: int)
    requires 1 <= numBits <= 0xFFFF
    ensures BuildSet(Empty(numBits))[1..] == [0, 0, 0, numBits % 256, numBits / 256] + Zeros(numBits / 8 + 1)
  {
    LowByteFirst16(numBits);
  }

  lemma WriteEventsRecorded<S>(m: Modem<S>, st: S, log: Log, mask: EventMask) returns (x: Exchange)
    requires mask.Valid()
    ensures var (end, ok) := WriteEvents(Recorded(m), (st, log), mask);
            && (end.0, ok) == WriteEvents(m, st, mask) && Since(log, end.1, [x])
            && x.op == 0x82 && x.payload == BuildSet(mask)[1..] && (ok <==> x.answer.Reply? && x.answer.op == 0x82)
  {
    hide Recorded;
    var request: bytes := BuildSet(mask)[1..];
    RecordedStep(m, st, log, EVENT_MASK_SET_F, request);
    x := Exchange(EVENT_MASK_SET_F, request, m.step(st, EVENT_MASK_SET_F, request).1);
  }

  lemma SaveEventsRecorded<S>(m: Modem<S>, st: S, log: Log) returns (queries: Log, zeroing: Log)
    ensures var (end, got) := SaveEvents(Recorded(m), (st, log));
            && (end.0, got) == SaveEvents(m, st) && Since(log, end.1, queries + zeroing)
            && EventReads(queries) && ZeroesEvents(zeroing, got.0, got.1)
  {
    hide ReadEvents, WriteEvents, EventReads, EventMask.SetIds, Empty, EventMask.Valid, Recorded, BuildSet;
    queries := ReadEventsRecorded(m, st, log);
    ReadEventsValid(m, st);
    var (mid, events) := ReadEvents(Recorded(m), (st, log));
    zeroing := [];
    assert queries + [] == queries;
    if events.Some? && events.value.SetIds() != {} {
      var n := events.value.numBits;
      assert 1 <= n <= 0xFFFF by { ValidBits(events.value); }
      EmptyOnWire(n);
      var x := WriteEventsRecorded(m, mid.0, mid.1, Empty(n));
      zeroing := [x];
      SinceThen(log, mid.1, mid.1 + zeroing, queries, zeroing);
    }
  }

  lemma ValidBits(mask: EventMask)
    requires mask.Valid()
    ensures 1 <= mask.numBits <= 0xFFFF
  {
  }

  /** Reads, the zeroing of what they showed, more reads, the zeroing of what those showed. */
  ghost predicate SaveSends(sent: Log, rs: seq<(int, int)>, saved: SavedMasks)
    requires saved.events.Some? ==> saved.events.value.Valid()
  {
    exists f3Reads: Log, f3Zeroing: Log, eventReads: Log, eventZeroing: Log ::
      && sent == f3Reads + f3Zeroing + (eventReads + eventZeroing)
      && SnapshotSends(f3Reads, rs, true) && ZeroesF3(f3Zeroing, saved.f3, saved.f3Zeroed)
      && EventReads(eventReads) && ZeroesEvents(eventZeroing, saved.events, saved.eventsZeroed)
  }

  /**
   Whatever the modem answers, a save sends the query, one read for each range, and at most two writes, each to
   a mask that was read before and whole; a mask counts as zeroed exactly if its write was acknowledged.
   */
  lemma SaveWritesOnlyWhatWasRead<S>(m: Modem<S>, st: S, log: Log) returns (sent: Log)
    ensures var (end, got) := SaveAndZero(Recorded(m), (st, log));
            && (end.0, got) == SaveAndZero(m, st) && Since(log, end.1, sent)
            && (got.Raised? ==> SnapshotSends(sent, QueryRanges(m, st).1, false))
            && (got.Done? ==> SaveSends(sent, QueryRanges(m, st).1, got.value))
  {
    hide SaveF3, SaveEvents, ZeroesF3, ZeroesEvents, SnapshotSends, EventReads, EventMask.Valid, QueryRanges, Recorded;
    var f3Reads, f3Zeroing := SaveF3Recorded(m, st, log);
    sent := f3Reads + f3Zeroing;
    var (st1, f3) := SaveF3(Recorded(m), (st, log));
    if f3.Done? {
      var eventReads, eventZeroing := SaveEventsRecorded(m, st1.0, st1.1);
      SinceThen(log, st1.1, SaveEvents(Recorded(m), st1).0.1, sent, eventReads + eventZeroing);
      sent := sent + (eventReads + eventZeroing);
    } else {
      assert f3Reads + [] == f3Reads;
    }
  }

  /** The F3 masks are reported as zeroed exactly if the SET_ALL of zero was sent and not rejected. */
  lemma F3ZeroedIfAcknowledged<S>(m: Modem<S>, st: S, log: Log) returns (sent: Log)
    ensures var (end, got) := SaveAndZero(Recorded(m), (st, log));
            && Since(log, end.1, sent)
            && (got.Done? ==> (got.value.f3Zeroed <==> exists x :: x in sent && ZeroesAll(x) && Acknowledged(x)))
  {
    hide SaveAndZero, SaveSends, ZeroesAll, Acknowledged, Recorded, QueryRanges, EventMask.Valid;
    sent := SaveWritesOnlyWhatWasRead(m, st, log);
    var got := SaveAndZero(Recorded(m), (st, log)).1;
    if got.Done? {
      ZeroedIfAcknowledged(sent, QueryRanges(m, st).1, got.value);
    }
  }

  lemma ZeroedIfAcknowledged(sent: Log, rs: seq<(int, int)>, saved: SavedMasks)
    requires (saved.events.Some? ==> saved.events.value.Valid()) && SaveSends(sent, rs, saved)
    ensures saved.f3Zeroed <==> exists x :: x in sent && ZeroesAll(x) && Acknowledged(x)
  {
    hide EventMask.SetIds, EventMask.Valid, SnapshotSends, ZeroesEvents, EventReads, Restorable, AnySet,
         Snapshot.AllMasks;
    var a: Log, z: Log, b: Log, y: Log :|
      && sent == a + z + (b + y)
      && SnapshotSends(a, rs, true) && ZeroesF3(z, saved.f3, saved.f3Zeroed)
      && EventReads(b) && ZeroesEvents(y, saved.events, saved.eventsZeroed);
    ReadsDoNotZero(a, rs);
    EventsDoNotZero(b, y, saved);
    assert forall x :: x in sent <==> x in a || x in z || x in b || x in y;
    if z != [] {
      assert z[0] in sent && forall x :: x in z ==> x == z[0];
    }
  }

  lemma EventsDoNotZero(b: Log, y: Log, saved: SavedMasks)
    requires saved.events.Some? ==> saved.events.value.Valid()
    requires EventReads(b) && ZeroesEvents(y, saved.events, saved.eventsZeroed)
    ensures forall x :: x in b || x in y ==> !ZeroesAll(x)
  {
    hide EventMask.SetIds, EventMask.Valid;
  }

  lemma ReadsDoNotZero(sent: Log, rs: seq<(int, int)>)
    requires SnapshotSends(sent, rs, true)
    ensures forall x :: x in sent ==> !ZeroesAll(x)
  {
    forall x | x in sent ensures !ZeroesAll(x) {
      var i :| 0 <= i < |sent| && sent[i] == x;
      if i > 0 {
        assert sent[1..][i - 1] == x;
      }
    }
  }

  // ---------- Restoring ----------

  /** Writes in order, each but perhaps the last acknowledged; none after one that was not. */
  ghost predicate WritesUpTo(sent: Log, writes: seq<bytes>, all: bool) {
    && |sent| <= |writes| && (forall i :: 0 <= i < |sent| ==> sent[i].op == 0x7D && sent[i].payload == writes[i])
    && (forall i :: 0 <= i < |sent| - 1 ==> Acknowledged(sent[i]))
    && (all ==> |sent| == |writes| && (sent != [] ==> Acknowledged(sent[|sent| - 1])))
    && (!all ==> sent != [] && !Acknowledged(sent[|sent| - 1]))
  }

  lemma {:induction false} SendWritesRecorded<S>(m: Modem<S>, st: S, log: Log, writes: seq<bytes>) returns (sent: Log)
    ensures var (end, ok) := SendWrites(Recorded(m), (st, log), writes);
            (end.0, ok) == SendWrites(m, st, writes) && Since(log, end.1, sent) && WritesUpTo(sent, writes, ok)
    decreases writes
  {
    hide Recorded;
    sent := [];
    if writes == [] {
    } else {
      RecordedStep(m, st, log, EXT_MSG_CONFIG_F, writes[0]);
      var (st1, ans) := m.step(st, EXT_MSG_CONFIG_F, writes[0]);
      var one := Exchange(EXT_MSG_CONFIG_F, writes[0], ans);
      sent := [one];
      if Accepted(ans) {
        var rest := SendWritesRecorded(m, st1, log + [one], writes[1..]);
        assert log + [one] + rest == log + ([one] + rest);
        sent := [one] + rest;
        assert forall i :: 0 < i < |sent| ==> sent[i] == rest[i - 1] && writes[i] == writes[1..][i - 1];
      }
    }
  }

  /** A SET_ALL of the one value, or for each range with masks one array that names its first and last SSID. */
  ghost predicate WritesOf(writes: seq<bytes>, saved: Snapshot) {
    if SetAllValue(saved).Some? then
      writes == [[5, 0, 0] + Le32(SetAllValue(saved).value)]
    else ArraysOf(writes, saved.ranges)
  }

  ghost predicate ArraysOf(writes: seq<bytes>, ranges: seq<Range>) {
    if ranges == [] then writes == []
    else if ranges[0].masks.None? || ranges[0].masks.value == [] then ArraysOf(writes, ranges[1..])
    else
      && writes != [] && IsArrayOf(writes[0], ranges[0].first, ranges[0].masks.value)
      && ArraysOf(writes[1..], ranges[1..])
  }

  ghost predicate IsArrayOf(write: bytes, first: int, masks: seq<u32>) {
    var last := first + |masks| - 1;
    && 0 <= first <= last <= 0xFFFF && |write| == 7 + 4 * |masks|
    && write[..7] == [4, first % 256, first / 256, last % 256, last / 256, 0, 0]
    && Words(write[7..]) == masks
  }

  lemma {:induction false} ArrayWritesPlain(ranges: seq<Range>)
    ensures ArrayWrites(ranges).Done? ==> ArraysOf(ArrayWrites(ranges).value, ranges)
    decreases ranges
  {
    hide Le16, PackMasks, IsArrayOf, Words;
    if ranges == [] {
    } else {
      ArrayWritesPlain(ranges[1..]);
      var r := ranges[0];
      if ArrayWrites(ranges).Done? && r.masks.Some? && r.masks.value != [] {
        ArrayPlain(r.first, r.masks.value);
        var rest := ArrayWrites(ranges[1..]).value;
        assert ([SetArrayRequest(r.first, r.masks.value).value] + rest)[1..] == rest;
      }
    }
  }

  lemma ArrayPlain(first: int, masks: seq<u32>)
    requires SetArrayRequest(first, masks).Done?
    ensures IsArrayOf(SetArrayRequest(first, masks).value, first, masks)
  {
    hide Le16, PackMasks, Words;
    var last := first + |masks| - 1;
    LowByteFirst16(first);
    LowByteFirst16(last);
    WordsOfPack(masks);
    var write := SetArrayRequest(first, masks).value;
    assert write[7..] == PackMasks(masks);
  }

  /** What a restore of the F3 masks sends: its writes up to the first refusal, and then the readback. */
  ghost predicate RestoreSends(sent: Log, saved: Option<Snapshot>, ok: Try<bool>) {
    if saved.None? || saved.value.ranges == [] then sent == [] && ok == Done(false)
    else if Writes(saved.value).Raised? then sent == [] && ok == Raised
    else
      exists writes: seq<bytes>, wrote: Log, queries: Log ::
        sent == wrote + queries && WritesOf(writes, saved.value)
        && (|| (WritesUpTo(wrote, writes, true) && Reads(queries, Bounds(saved.value.ranges), ok.Done?))
            || (WritesUpTo(wrote, writes, false) && queries == [] && ok == Done(false)))
  }

  lemma WritesPlain(saved: Snapshot)
    ensures Writes(saved).Done? ==> WritesOf(Writes(saved).value, saved)
  {
    hide ArrayWrites, SetAllValue, ArraysOf, Le32;
    ArrayWritesPlain(saved.ranges);
  }

  /** Whatever the modem answers, a restore stops at the first write that is rejected or not answered. */
  lemma RestoreStopsAtRefusal<S>(m: Modem<S>, st: S, log: Log, saved: Option<Snapshot>) returns (sent: Log)
    ensures var (end, ok) := Restore(Recorded(m), (st, log), saved);
            (end.0, ok) == Restore(m, st, saved) && Since(log, end.1, sent) && RestoreSends(sent, saved, ok)
  {
    hide Writes, WritesOf, WritesUpTo, Reads, Recorded, SendWrites, ReadRanges, NoneRead, AllRead, Confirms;
    sent := [];
    if saved.None? || saved.value.ranges == [] || Writes(saved.value).Raised? {
    } else {
      WritesPlain(saved.value);
      var writes := Writes(saved.value).value;
      var wrote := SendWritesRecorded(m, st, log, writes);
      sent := wrote;
      var (mid, all) := SendWrites(Recorded(m), (st, log), writes);
      if all {
        var rs := Bounds(saved.value.ranges);
        var queries := ReadRangesRecorded(m, mid.0, mid.1, rs);
        SinceThen(log, mid.1, ReadRanges(Recorded(m), mid, rs).0.1, wrote, queries);
        sent := wrote + queries;
      } else {
        assert sent == wrote + [];
      }
    }
  }

  /** A modem that rejects every write, to the F3 masks and to the event mask. */
  ghost predicate RejectsWrites<S(!new)>(m: Modem<S>) {
    && (forall st, payload :: payload != [] && payload[0] in {4, 5} ==> Rejection(m.step(st, 0x7D, payload).1))
    && (forall st, payload :: Rejection(m.step(st, 0x82, payload).1))
  }

  predicate Rejection(ans: Answer) {
    ans.Reply? && ans.op == 0x13
  }

  lemma RejectedF3<S(!new)>(m: Modem<S>, st: S)
    requires RejectsWrites(m)
    ensures var got := SaveF3(m, st).1; got.Done? ==> !got.value.1
  {
    hide ReadSnapshot, AnySet, Snapshot.AllMasks;
    assert Rejection(m.step(ReadSnapshot(m, st).0, 0x7D, SetAllRequest(0)).1);
  }

  lemma RejectedEvents<S(!new)>(m: Modem<S>, st: S)
    requires RejectsWrites(m)
    ensures !SaveEvents(m, st).1.1
  {
    hide ReadEvents, EventMask.SetIds, EventMask.Valid, BuildSet, Empty;
    ReadEventsValid(m, st);
    var (st1, events) := ReadEvents(m, st);
    if events.Some? && events.value.SetIds() != {} {
      ValidBits(events.value);
      var none := Empty(events.value.numBits);
      RejectedWrite(m, st1, none);
    }
  }

  lemma RejectedWrite<S(!new)>(m: Modem<S>, st: S, mask: EventMask)
    requires RejectsWrites(m) && mask.Valid()
    ensures !WriteEvents(m, st, mask).1
  {
    assert Rejection(m.step(st, 0x82, BuildSet(mask)[1..]).1);
  }

  /** From such a modem a save reports nothing zeroed, and the restore sends nothing and reports success. */
  lemma RejectedSaveLeavesAll<S(!new)>(m: Modem<S>, st: S, mid: S, log: Log)
    requires RejectsWrites(m)
    ensures var got := SaveAndZero(m, st).1;
            got.Done? ==>
              && !got.value.f3Zeroed && !got.value.eventsZeroed
              && RestoreMasks(Recorded(m), (mid, log), got.value) == ((mid, log), Done((true, true)))
  {
    hide SaveF3, SaveEvents, RejectsWrites, EventMask.Valid, Recorded, Restore, RestoreEvents;
    RejectedF3(m, st);
    RejectedEvents(m, SaveF3(m, st).0);
  }
}
