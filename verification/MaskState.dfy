/** Save, zero and restore of both masks: as functions of the modem's state, and their promises. */
module MaskState {
  import opened Bytes
  import opened Wrappers
  import opened Circular
  import opened EventMask
  import opened F3Mask

  datatype SavedMasks = SavedMasks(f3: Option<Snapshot>, events: Option<EventMask>, f3Zeroed: bool, eventsZeroed: bool)

  // ---------- The protocol ----------

  /** One of the two request forms; the four-byte form is tried first. */
  function EventGetPayload(full: bool): bytes {
    if full then [0, 0, 0] else []
  }

  function ReadEventsFrom<S>(m: Modem<S>, st: S, full: bool): (S, Option<EventMask>)
    decreases full
  {
    var (st', ans) := m.step(st, EVENT_MASK_GET_F, EventGetPayload(full));
    if ans.Silence? then if full then ReadEventsFrom(m, st', false) else (st', None)
    else (st', if ans.op == EVENT_MASK_GET_F then Parse(ans.body) else None)
  }

  function ReadEvents<S>(m: Modem<S>, st: S): (S, Option<EventMask>) {
    ReadEventsFrom(m, st, true)
  }

  function WriteEvents<S>(m: Modem<S>, st: S, mask: EventMask): (S, bool)
    requires mask.Valid()
  {
    var (st', ans) := m.step(st, EVENT_MASK_SET_F, BuildSet(mask)[1..]);
    (st', ans.Reply? && ans.op == EVENT_MASK_SET_F)
  }

  predicate Restorable(f3: Option<Snapshot>) {
    f3.Some? && f3.value.complete
  }

  predicate AnySet(masks: seq<u32>) {
    exists v :: v in masks && v != 0
  }

  function SaveF3<S>(m: Modem<S>, st: S): (S, Try<(Option<Snapshot>, bool)>) {
    var (st1, f3) := ReadSnapshot(m, st);
    if f3.Raised? then (st1, Raised)
    else if !Restorable(f3.value) || !AnySet(f3.value.value.AllMasks()) then (st1, Done((f3.value, false)))
    else
      var (st2, ans) := m.step(st1, EXT_MSG_CONFIG_F, SetAllRequest(0));
      (st2, Done((f3.value, Accepted(ans))))
  }

  function SaveEvents<S>(m: Modem<S>, st: S): (r: (S, (Option<EventMask>, bool)))
    ensures r.1.0.Some? ==> r.1.0.value.Valid()
  {
    var (st1, events) := ReadEvents(m, st);
    ReadEventsValid(m, st);
    if events.None? || events.value.SetIds() == {} then (st1, (events, false))
    else
      var (st2, ok) := WriteEvents(m, st1, Empty(events.value.numBits));
      (st2, (events, ok))
  }

  lemma ReadEventsValid<S>(m: Modem<S>, st: S)
    ensures ReadEvents(m, st).1.Some? ==> ReadEvents(m, st).1.value.Valid()
  {
  }

  function SaveAndZero<S>(m: Modem<S>, st: S): (r: (S, Try<SavedMasks>))
    ensures r.1.Done? && r.1.value.events.Some? ==> r.1.value.events.value.Valid()
  {
    var (st1, f3) := SaveF3(m, st);
    if f3.Raised? then (st1, Raised)
    else
      var (st2, events) := SaveEvents(m, st1);
      (st2, Done(SavedMasks(f3.value.0, events.0, f3.value.1, events.1)))
  }

  function RestoreEvents<S>(m: Modem<S>, st: S, mask: EventMask): (S, bool)
    requires mask.Valid()
  {
    var (st1, written) := WriteEvents(m, st, mask);
    if !written then (st1, false)
    else
      var (st2, back) := ReadEvents(m, st1);
      (st2, back.Some? && back.value.mask == mask.mask)
  }

  function RestoreMasks<S>(m: Modem<S>, st: S, saved: SavedMasks): (S, Try<(bool, bool)>)
    requires saved.events.Some? ==> saved.events.value.Valid()
  {
    var (st1, f3Ok) := if saved.f3Zeroed then Restore(m, st, saved.f3) else (st, Done(true));
    if f3Ok.Raised? then (st1, Raised)
    else
      var (st2, eventsOk) :=
        if saved.eventsZeroed && saved.events.Some? then RestoreEvents(m, st1, saved.events.value) else (st1, true);
      (st2, Done((f3Ok.value, eventsOk)))
  }

  // ---------- What the modem is trusted with ----------

  /** Requests to the event mask leave the F3 masks alone, and the other way round. */
  ghost predicate Separate<S(!new)>(m: Modem<S>, view: (S, int) -> u32, events: S -> bytes) {
    && (forall st, full :: SameView(view, m.step(st, EVENT_MASK_GET_F, EventGetPayload(full)).0, st))
    && (forall st, payload :: SameView(view, m.step(st, EVENT_MASK_SET_F, payload).0, st))
    && (forall st, payload :: events(m.step(st, EXT_MSG_CONFIG_F, payload).0) == events(st))
  }

  /** Reading the event mask, in either form, changes nothing and tells the mask held. */
  ghost predicate EventsTold<S(!new)>(m: Modem<S>, events: S -> bytes) {
    forall st, full ::
      var (st', ans) := m.step(st, EVENT_MASK_GET_F, EventGetPayload(full));
      && events(st') == events(st)
      && (ans.Reply? && ans.op == EVENT_MASK_GET_F && Parse(ans.body).Some? ==>
            Parse(ans.body).value.mask == events(st))
  }

  /** What saving and restoring ask of a modem, for the ranges that it advertises. */
  ghost predicate Trusted<S(!new)>(m: Modem<S>, view: (S, int) -> u32, events: S -> bytes, rs: seq<(int, int)>) {
    ReadsLeave(m, view) && TellsTruthOn(m, view, rs) && Separate(m, view, events) && EventsTold(m, events)
  }

  // ---------- Saving and restoring ----------

  lemma ReadEventsTold<S(!new)>(m: Modem<S>, st: S, view: (S, int) -> u32, events: S -> bytes)
    requires Separate(m, view, events) && EventsTold(m, events)
    ensures var (st', got) := ReadEvents(m, st);
            && SameView(view, st', st) && events(st') == events(st)
            && (got.Some? ==> got.value.mask == events(st))
  {
    hide ReadEventsFrom, SameView;
    ReadEventsFromTold(m, st, true, view, events);
  }

  lemma {:induction false} ReadEventsFromTold<S(!new)>(m: Modem<S>, st: S, full: bool, view: (S, int) -> u32,
                                                       events: S -> bytes)
    requires Separate(m, view, events) && EventsTold(m, events)
    ensures var (st', got) := ReadEventsFrom(m, st, full);
            && SameView(view, st', st) && events(st') == events(st)
            && (got.Some? ==> got.value.mask == events(st))
    decreases full
  {
    hide Parse, EventGetPayload;
    var (st', ans) := m.step(st, EVENT_MASK_GET_F, EventGetPayload(full));
    if !full || ans.Reply? {
    } else {
      ReadEventsFromTold(m, st', false, view, events);
    }
  }

  lemma {:induction false} ReadRangesKeepsEvents<S(!new)>(m: Modem<S>, st: S, rs: seq<(int, int)>,
                                                         view: (S, int) -> u32, events: S -> bytes)
    requires Separate(m, view, events)
    ensures events(ReadRanges(m, st, rs).0) == events(st)
    decreases rs
  {
    if rs == [] {
    } else {
      ReadRangesKeepsEvents(m, ReadMask(m, st, rs[0].0, rs[0].1).0, rs[1..], view, events);
    }
  }

  lemma {:induction false} SendWritesKeepsEvents<S(!new)>(m: Modem<S>, st: S, writes: seq<bytes>,
                                                         view: (S, int) -> u32, events: S -> bytes)
    requires Separate(m, view, events)
    ensures events(SendWrites(m, st, writes).0) == events(st)
    decreases writes
  {
    if writes == [] {
    } else {
      SendWritesKeepsEvents(m, m.step(st, EXT_MSG_CONFIG_F, writes[0]).0, writes[1..], view, events);
    }
  }

  lemma RestoreKeepsEvents<S(!new)>(m: Modem<S>, st: S, saved: Option<Snapshot>, view: (S, int) -> u32,
                                    events: S -> bytes)
    requires Separate(m, view, events)
    ensures events(Restore(m, st, saved).0) == events(st)
  {
    hide Separate, Writes, Confirms;
    if saved.Some? && Writes(saved.value).Done? {
      SendWritesKeepsEvents(m, st, Writes(saved.value).value, view, events);
      var st1 := SendWrites(m, st, Writes(saved.value).value).0;
      var rs := Bounds(saved.value.ranges);
      ReadRangesKeepsEvents(m, st1, if rs == [] then [(0, SS_RANGE0_LAST)] else rs, view, events);
    }
  }

  /** The write that zeroes the F3 masks is sent, not acknowledged, and yet changes a mask. */
  ghost predicate F3ZeroedUnacked<S>(m: Modem<S>, st: S, view: (S, int) -> u32) {
    var (st1, f3) := ReadSnapshot(m, st);
    && f3.Done? && Restorable(f3.value) && AnySet(f3.value.value.AllMasks())
    && var (st2, ans) := m.step(st1, EXT_MSG_CONFIG_F, SetAllRequest(0));
       !Accepted(ans) && !SameView(view, st2, st1)
  }

  /** The write that zeroes the event mask is sent, not acknowledged, and yet changes it. */
  ghost predicate EventsZeroedUnacked<S>(m: Modem<S>, st: S, events: S -> bytes) {
    var (st1, got) := ReadEvents(m, st);
    ReadEventsValid(m, st);
    && got.Some? && got.value.SetIds() != {}
    && var (st2, ok) := WriteEvents(m, st1, Empty(got.value.numBits));
       !ok && events(st2) != events(st1)
  }

  /** What was read of advertised ranges is what was held, and a complete snapshot is of all of them. */
  ghost predicate F3Right<S>(m: Modem<S>, st: S, f3: Option<Snapshot>, view: (S, int) -> u32) {
    var rs := QueryRanges(m, st).1;
    f3.Some? ==>
      && (rs != [] ==> AllExact(view, st, f3.value.ranges) && Bounds(f3.value.ranges) == rs)
      && (f3.value.complete ==> rs != [] && AllRead(f3.value.ranges))
  }

  /** After saving: what was read is what was held; a mask not zeroed is as found except after such a write. */
  ghost predicate SavedRight<S>(m: Modem<S>, st: S, saved: SavedMasks, view: (S, int) -> u32, events: S -> bytes) {
    var st' := SaveAndZero(m, st).0;
    && F3Right(m, st, saved.f3, view)
    && (saved.f3Zeroed ==> Restorable(saved.f3))
    && (!saved.f3Zeroed ==> (SameView(view, st', st) <==> !F3ZeroedUnacked(m, st, view)))
    && (saved.events.Some? ==> saved.events.value.Valid() && saved.events.value.mask == events(st))
    && (saved.eventsZeroed ==> saved.events.Some?)
    && (!saved.eventsZeroed ==> (events(st') == events(st) <==> !EventsZeroedUnacked(m, SaveF3(m, st).0, events)))
  }

  lemma SameViewTransitive<S>(view: (S, int) -> u32, a: S, b: S, c: S)
    requires SameView(view, b, c)
    ensures SameView(view, a, b) <==> SameView(view, a, c)
  {
  }

  lemma SaveF3Right<S(!new)>(m: Modem<S>, st: S, view: (S, int) -> u32, events: S -> bytes)
    requires Trusted(m, view, events, QueryRanges(m, st).1)
    ensures var (st', got) := SaveF3(m, st);
            && events(st') == events(st)
            && (got.Done? ==>
                  && F3Right(m, st, got.value.0, view)
                  && (got.value.1 ==> Restorable(got.value.0))
                  && (!got.value.1 ==> (SameView(view, st', st) <==> !F3ZeroedUnacked(m, st, view))))
  {
    hide ReadSnapshot, QueryRanges, AllExact, ReadsLeave, TellsTruthOn, AnySet, Snapshot.AllMasks, SameView;
    SnapshotTruthful(m, st, view);
    SnapshotKeepsEvents(m, st, view, events);
    var st1 := ReadSnapshot(m, st).0;
    SameViewSymmetric(view, st, st1);
    SameViewTransitive(view, SaveF3(m, st).0, st1, st);
  }

  lemma SameViewSymmetric<S>(view: (S, int) -> u32, a: S, b: S)
    requires SameView(view, a, b)
    ensures SameView(view, b, a)
  {
  }

  lemma SnapshotKeepsEvents<S(!new)>(m: Modem<S>, st: S, view: (S, int) -> u32, events: S -> bytes)
    requires Separate(m, view, events)
    ensures events(ReadSnapshot(m, st).0) == events(st)
  {
    hide ReadRanges, ParseRanges, SameView;
    var (st1, rs) := QueryRanges(m, st);
    assert events(st1) == events(st);
    ReadRangesKeepsEvents(m, st1, if rs == [] then [(0, SS_RANGE0_LAST)] else rs, view, events);
  }

  lemma WriteEventsKeepsView<S(!new)>(m: Modem<S>, st: S, mask: EventMask, view: (S, int) -> u32, events: S -> bytes)
    requires Separate(m, view, events) && mask.Valid()
    ensures SameView(view, WriteEvents(m, st, mask).0, st)
  {
    hide SameView;
    var payload: bytes := BuildSet(mask)[1..];
    assert WriteEvents(m, st, mask).0 == m.step(st, EVENT_MASK_SET_F, payload).0;
  }

  lemma SaveEventsRight<S(!new)>(m: Modem<S>, st: S, view: (S, int) -> u32, events: S -> bytes)
    requires Separate(m, view, events) && EventsTold(m, events)
    ensures var (st', got) := SaveEvents(m, st);
            && SameView(view, st', st)
            && (got.0.Some? ==> got.0.value.mask == events(st))
            && (got.1 ==> got.0.Some?)
            && (!got.1 ==> (events(st') == events(st) <==> !EventsZeroedUnacked(m, st, events)))
  {
    hide ReadEvents, WriteEvents, EventMask.SetIds, EventMask.Valid, Empty;
    ReadEventsTold(m, st, view, events);
    ReadEventsValid(m, st);
    var (st1, got) := ReadEvents(m, st);
    if got.Some? && got.value.SetIds() != {} {
      WriteEventsKeepsView(m, st1, Empty(got.value.numBits), view, events);
    }
  }

  lemma SaveIsRight<S(!new)>(m: Modem<S>, st: S, view: (S, int) -> u32, events: S -> bytes)
    requires Trusted(m, view, events, QueryRanges(m, st).1)
    ensures var got := SaveAndZero(m, st).1;
            got.Done? ==> SavedRight(m, st, got.value, view, events)
  {
    hide SaveF3, SaveEvents, Trusted, F3Right, QueryRanges, SameView, F3ZeroedUnacked, EventsZeroedUnacked;
    TrustedParts(m, view, events, QueryRanges(m, st).1);
    SaveF3Right(m, st, view, events);
    var st1 := SaveF3(m, st).0;
    SaveEventsRight(m, st1, view, events);
    var st2 := SaveEvents(m, st1).0;
    SameViewSwap(view, st2, st1, st);
  }

  lemma SameViewSwap<S>(view: (S, int) -> u32, a: S, b: S, c: S)
    requires SameView(view, a, b)
    ensures SameView(view, a, c) <==> SameView(view, b, c)
  {
  }

  lemma RestoreEventsRight<S(!new)>(m: Modem<S>, st: S, mask: EventMask, view: (S, int) -> u32, events: S -> bytes)
    requires Separate(m, view, events) && EventsTold(m, events) && mask.Valid()
    ensures var (st', ok) := RestoreEvents(m, st, mask);
            SameView(view, st', st) && (ok ==> events(st') == mask.mask)
  {
    hide ReadEvents, WriteEvents, Separate, EventsTold;
    WriteEventsKeepsView(m, st, mask, view, events);
    ReadEventsTold(m, WriteEvents(m, st, mask).0, view, events);
  }

  lemma HeldBoth<S>(view: (S, int) -> u32, a: S, b: S, saved: Snapshot)
    requires AllExact(view, a, saved.ranges) && HoldsSnapshot(view, b, saved)
    ensures AgreeOn(view, a, b, saved.ranges)
  {
    forall r, ss | r in saved.ranges && r.first <= ss <= r.last ensures view(a, ss) == view(b, ss) {
      assert Exact(view, a, r);
      assert r.masks.value[ss - r.first] == view(a, r.first + (ss - r.first));
      assert r.masks.value[ss - r.first] == view(b, r.first + (ss - r.first));
    }
  }

  /**
   Save, zero, and restore. A mask that was zeroed is as it was found or its restore reports failure,
   whatever became of it in between. A mask that was not zeroed is reported as restored, and after a run
   that did not touch it it is as found if and only if no zeroing write was applied unacknowledged.
   */
  lemma SaveThenRestore<S(!new)>(m: Modem<S>, st: S, mid: S, view: (S, int) -> u32, events: S -> bytes)
    requires Trusted(m, view, events, QueryRanges(m, st).1) && SaveAndZero(m, st).1.Done?
    ensures var st1, saved := SaveAndZero(m, st).0, SaveAndZero(m, st).1.value;
            var (end, oks) := RestoreMasks(m, mid, saved);
            oks.Done? ==>
              && (saved.f3Zeroed && oks.value.0 ==> AgreeOn(view, st, end, saved.f3.value.ranges))
              && (!saved.f3Zeroed ==> oks.value.0)
              && (!saved.f3Zeroed && SameView(view, mid, st1) ==>
                    (SameView(view, end, st) <==> !F3ZeroedUnacked(m, st, view)))
              && (saved.eventsZeroed && oks.value.1 ==> events(end) == events(st))
              && (!saved.eventsZeroed ==> oks.value.1)
              && (!saved.eventsZeroed && events(mid) == events(st1) ==>
                    (events(end) == events(st) <==> !EventsZeroedUnacked(m, SaveF3(m, st).0, events)))
  {
    hide SaveAndZero, Restore, RestoreEvents, AllExact, HoldsSnapshot, TellsTruthOn, ReadsLeave, Separate, QueryRanges,
         EventsTold, AgreeOn, SameView, F3ZeroedUnacked, EventsZeroedUnacked, SaveF3, Trusted;
    SaveIsRight(m, st, view, events);
    var st1, saved := SaveAndZero(m, st).0, SaveAndZero(m, st).1.value;
    var afterF3 := if saved.f3Zeroed then Restore(m, mid, saved.f3).0 else mid;
    var end := RestoreMasks(m, mid, saved).0;
    TrustedParts(m, view, events, QueryRanges(m, st).1);
    RestoreKeepsEvents(m, mid, saved.f3, view, events);
    if saved.eventsZeroed {
      RestoreEventsRight(m, afterF3, saved.events.value, view, events);
      SameViewSwap(view, end, afterF3, st);
    }
    if SameView(view, mid, st1) {
      SameViewSwap(view, mid, st1, st);
    }
    if saved.f3Zeroed && Restore(m, mid, saved.f3).1 == Done(true) {
      RestoreIsTruthful(m, mid, saved.f3, view);
      if saved.eventsZeroed {
        HoldsInSameView(view, afterF3, end, saved.f3.value);
      }
      HeldBoth(view, st, end, saved.f3.value);
    }
  }

  lemma TrustedParts<S(!new)>(m: Modem<S>, view: (S, int) -> u32, events: S -> bytes, rs: seq<(int, int)>)
    requires Trusted(m, view, events, rs)
    ensures ReadsLeave(m, view) && TellsTruthOn(m, view, rs) && Separate(m, view, events) && EventsTold(m, events)
  {
  }

  lemma HoldsInSameView<S>(view: (S, int) -> u32, a: S, b: S, saved: Snapshot)
    requires HoldsSnapshot(view, a, saved) && SameView(view, b, a)
    ensures HoldsSnapshot(view, b, saved)
  {
  }
}
