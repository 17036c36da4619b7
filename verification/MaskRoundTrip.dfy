/** Saving quiets and restoring succeeds: with a modem that answers and applies what it is sent. */
module MaskRoundTrip {
  import opened Bytes
  import opened Wrappers
  import opened Circular
  import opened EventMask
  import opened F3Mask
  import opened MaskState
  import MaskWrites
  import StoredMask

  /** Every read of one of these ranges is answered with a table. */
  ghost predicate AnswersReads<S(!new)>(m: Modem<S>, rs: seq<(int, int)>) {
    forall st, p :: p in rs ==> Answered(ReadMask(m, st, p.0, p.1).1)
  }

  predicate Answered(got: Try<Option<seq<u32>>>) {
    got.Done? && got.value.Some?
  }

  /** A SET_ALL stores its running OR on every SSID of these ranges. */
  ghost predicate AppliesSetAll<S(!new)>(m: Modem<S>, view: (S, int) -> u32, rs: seq<(int, int)>) {
    forall st, v: u32 ::
      var (st', ans) := m.step(st, EXT_MSG_CONFIG_F, SetAllRequest(v));
      Accepted(ans) && forall p, ss :: p in rs && p.0 <= ss <= p.1 ==> view(st', ss) == StoredMask.Stored(v)
  }

  /** On the SSIDs of these ranges `st'` is `st` with an array laid over it. */
  ghost predicate Overlaid<S>(view: (S, int) -> u32, st: S, st': S, first: int, masks: seq<u32>, rs: seq<(int, int)>) {
    forall p, ss :: p in rs && p.0 <= ss <= p.1 ==>
      view(st', ss) == if first <= ss < first + |masks| then masks[ss - first] else view(st, ss)
  }

  /** A SET of a whole range stores it verbatim, and touches no other SSID of these ranges. */
  ghost predicate AppliesArrays<S(!new)>(m: Modem<S>, view: (S, int) -> u32, rs: seq<(int, int)>) {
    forall st, p, masks :: p in rs && |masks| == p.1 - p.0 + 1 && SetArrayRequest(p.0, masks).Done? ==>
      var (st', ans) := m.step(st, EXT_MSG_CONFIG_F, SetArrayRequest(p.0, masks).value);
      Accepted(ans) && Overlaid(view, st, st', p.0, masks, rs)
  }

  /** Every range was read, legally and in full, from `st`. */
  ghost predicate TakenFrom<S>(view: (S, int) -> u32, st: S, ranges: seq<Range>) {
    forall r :: r in ranges ==> RangeOk(r.first, r.last) && r.masks.Some? && Exact(view, st, r)
  }

  /** On the SSIDs of these ranges every mask of `b` is the one `a` holds or the one `c` holds. */
  ghost predicate Between<S>(view: (S, int) -> u32, a: S, b: S, c: S, rs: seq<(int, int)>) {
    forall p, ss :: p in rs && p.0 <= ss <= p.1 ==> view(b, ss) == view(a, ss) || view(b, ss) == view(c, ss)
  }

  lemma OverlayRestores<S>(view: (S, int) -> u32, st: S, st': S, home: S, r: Range, rs: seq<(int, int)>)
    requires RangeOk(r.first, r.last) && r.masks.Some? && Exact(view, home, r) && (r.first, r.last) in rs
    requires Overlaid(view, st, st', r.first, r.masks.value, rs)
    ensures AgreeOn(view, st', home, [r]) && Between(view, home, st', st, rs)
  {
    forall p, ss | p in rs && p.0 <= ss <= p.1
      ensures view(st', ss) == if r.first <= ss <= r.last then view(home, ss) else view(st, ss)
    {
      if r.first <= ss <= r.last {
        assert r.masks.value[ss - r.first] == view(home, r.first + (ss - r.first));
      }
    }
  }

  lemma {:induction false} ArraysRestore<S(!new)>(m: Modem<S>, st: S, home: S, ranges: seq<Range>,
                                                  view: (S, int) -> u32, rs: seq<(int, int)>)
    requires AppliesArrays(m, view, rs) && TakenFrom(view, home, ranges)
    requires forall r :: r in ranges ==> (r.first, r.last) in rs
    ensures ArrayWrites(ranges).Done?
    ensures var (st', sent) := SendWrites(m, st, ArrayWrites(ranges).value);
            sent && AgreeOn(view, st', home, ranges) && Between(view, home, st', st, rs)
    decreases ranges
  {
    hide Exact, Overlaid, AppliesArrays, RangeOk, SetArrayRequest;
    if ranges == [] {
    } else {
      var r := ranges[0];
      assert r in ranges && forall q :: q in ranges[1..] ==> q in ranges;
      var st1 := OneArray(m, st, home, r, view, rs);
      ArraysRestore(m, st1, home, ranges[1..], view, rs);
      var one := SetArrayRequest(r.first, r.masks.value).value;
      var all := ArrayWrites(ranges).value;
      assert all[0] == one && all[1..] == ArrayWrites(ranges[1..]).value;
      HeadStays(view, home, st, st1, SendWrites(m, st, all).0, ranges, rs);
    }
  }

  /** What the first array restored, the later ones leave restored. */
  lemma HeadStays<S>(view: (S, int) -> u32, home: S, st: S, st1: S, end: S, ranges: seq<Range>, rs: seq<(int, int)>)
    requires ranges != [] && forall r :: r in ranges ==> (r.first, r.last) in rs
    requires AgreeOn(view, st1, home, [ranges[0]]) && Between(view, home, st1, st, rs)
    requires AgreeOn(view, end, home, ranges[1..]) && Between(view, home, end, st1, rs)
    ensures AgreeOn(view, end, home, ranges) && Between(view, home, end, st, rs)
  {
    var head := ranges[0];
    assert head in [head] && head in ranges;
    forall r, ss | r in ranges && r.first <= ss <= r.last ensures view(end, ss) == view(home, ss) {
      if r == head {
        assert view(st1, ss) == view(home, ss) && (r.first, r.last) in rs;
      } else {
        assert r in ranges[1..];
      }
    }
  }

  lemma OneArray<S(!new)>(m: Modem<S>, st: S, home: S, r: Range, view: (S, int) -> u32, rs: seq<(int, int)>)
    returns (st1: S)
    requires AppliesArrays(m, view, rs) && (r.first, r.last) in rs
    requires RangeOk(r.first, r.last) && r.masks.Some? && Exact(view, home, r)
    ensures r.masks.value != [] && SetArrayRequest(r.first, r.masks.value).Done?
    ensures var (st', ans) := m.step(st, EXT_MSG_CONFIG_F, SetArrayRequest(r.first, r.masks.value).value);
            st1 == st' && Accepted(ans)
    ensures AgreeOn(view, st1, home, [r]) && Between(view, home, st1, st, rs)
  {
    hide Accepted, Overlaid;
    var p := (r.first, r.last);
    st1 := m.step(st, EXT_MSG_CONFIG_F, SetArrayRequest(p.0, r.masks.value).value).0;
    OverlayRestores(view, st, st1, home, r, rs);
  }

  lemma {:induction false} GatherHolds(ranges: seq<Range>, r: Range)
    requires r in ranges && r.masks.Some?
    ensures forall v :: v in r.masks.value ==> v in Gather(ranges)
    decreases ranges
  {
    if ranges[0] == r {
    } else {
      GatherHolds(ranges[1..], r);
    }
  }

  lemma SetAllRestores<S(!new)>(m: Modem<S>, st: S, home: S, saved: Snapshot, v: u32, view: (S, int) -> u32)
    requires AppliesSetAll(m, view, Bounds(saved.ranges)) && TakenFrom(view, home, saved.ranges)
    requires SetAllValue(saved) == Some(v)
    ensures var (st', sent) := SendWrites(m, st, [SetAllRequest(v)]);
            sent && AgreeOn(view, st', home, saved.ranges)
  {
    hide StoredMask.Stored, SetAllRequest;
    var (st', ans) := m.step(st, EXT_MSG_CONFIG_F, SetAllRequest(v));
    assert SendWrites(m, st, [SetAllRequest(v)]) == (st', true) by {
      assert [SetAllRequest(v)][1..] == [];
    }
    forall r, ss | r in saved.ranges && r.first <= ss <= r.last ensures view(st', ss) == view(home, ss) {
      GatherHolds(saved.ranges, r);
      BoundsOf(saved.ranges, r);
      assert Exact(view, home, r);
      assert r.masks.value[ss - r.first] == view(home, r.first + (ss - r.first));
      assert r.masks.value[ss - r.first] in saved.AllMasks();
    }
  }

  lemma BoundsOf(ranges: seq<Range>, r: Range)
    requires r in ranges
    ensures (r.first, r.last) in Bounds(ranges)
  {
    var i :| 0 <= i < |ranges| && ranges[i] == r;
    assert Bounds(ranges)[i] == (r.first, r.last);
  }

  lemma {:induction false} ReadsAnswered<S(!new)>(m: Modem<S>, st: S, rs: seq<(int, int)>)
    requires AnswersReads(m, rs)
    ensures var out := ReadRanges(m, st, rs).1; out.Done? && AllRead(out.value)
    decreases rs
  {
    hide ReadMask, Cut;
    if rs == [] {
    } else {
      assert rs[0] in rs;
      var (first, last) := rs[0];
      var (st', got) := ReadMask(m, st, first, last);
      assert Answered(got);
      ReadMaskInRange(m, st, first, last);
      ReadsAnswered(m, st', rs[1..]);
      CutIsSome(got.value, last - first + 1);
      var one := Range(first, last, Cut(got.value, last - first + 1));
      var rest := ReadRanges(m, st', rs[1..]).1.value;
      assert forall r :: r in [one] + rest <==> r == one || r in rest;
    }
  }

  lemma CutIsSome(masks: Option<seq<u32>>, n: nat)
    ensures Cut(masks, n).Some? <==> masks.Some?
  {
  }

  lemma SameTable<S>(view: (S, int) -> u32, home: S, now: S, r: Range, q: Range)
    requires Exact(view, home, r) && Exact(view, now, q) && r.masks.Some? && q.masks.Some?
    requires q.first == r.first && q.last == r.last && AgreeOn(view, now, home, [r])
    ensures q.masks == r.masks
  {
    var a, b := r.masks.value, q.masks.value;
    forall i | 0 <= i < |a| ensures a[i] == b[i] {
      assert r in [r] && view(now, r.first + i) == view(home, r.first + i);
      assert b[i] == view(now, q.first + i) && a[i] == view(home, r.first + i);
    }
    assert a == b;
  }

  /** Reading a state that agrees with the snapshot confirms the snapshot. */
  lemma AgreementConfirms<S>(view: (S, int) -> u32, home: S, now: S, ranges: seq<Range>, post: Snapshot)
    requires TakenFrom(view, home, ranges) && AgreeOn(view, now, home, ranges)
    requires AllExact(view, now, post.ranges) && AllRead(post.ranges) && Bounds(post.ranges) == Bounds(ranges)
    ensures Confirms(ranges, Some(post))
  {
    hide Exact;
    forall i | 0 <= i < |ranges| ensures i < |post.ranges| && post.ranges[i].masks == ranges[i].masks {
      var r, q := ranges[i], post.ranges[i];
      assert r in ranges && q in post.ranges;
      assert Bounds(ranges)[i] == (r.first, r.last) && Bounds(post.ranges)[i] == (q.first, q.last);
      SameTable(view, home, now, r, q);
    }
  }

  lemma WritesRestore<S(!new)>(m: Modem<S>, st: S, home: S, saved: Snapshot, view: (S, int) -> u32)
    requires AppliesSetAll(m, view, Bounds(saved.ranges)) && AppliesArrays(m, view, Bounds(saved.ranges))
    requires TakenFrom(view, home, saved.ranges)
    ensures Writes(saved).Done?
    ensures var (st', sent) := SendWrites(m, st, Writes(saved).value);
            sent && AgreeOn(view, st', home, saved.ranges)
  {
    hide AppliesSetAll, AppliesArrays, TakenFrom, AgreeOn, SetAllValue;
    var v := SetAllValue(saved);
    if v.Some? {
      SetAllRestores(m, st, home, saved, v.value, view);
    } else {
      forall r | r in saved.ranges ensures (r.first, r.last) in Bounds(saved.ranges) {
        BoundsOf(saved.ranges, r);
      }
      ArraysRestore(m, st, home, saved.ranges, view, Bounds(saved.ranges));
    }
  }

  /**
   A complete snapshot taken from `home` can be put back: whatever the masks became since, the restore
   reports success, and the masks are again those of `home` on every range.
   */
  lemma RestoreSucceeds<S(!new)>(m: Modem<S>, st: S, home: S, saved: Snapshot, view: (S, int) -> u32)
    requires ReadsLeave(m, view) && TellsTruthOn(m, view, Bounds(saved.ranges)) && AnswersReads(m, Bounds(saved.ranges))
    requires AppliesSetAll(m, view, Bounds(saved.ranges)) && AppliesArrays(m, view, Bounds(saved.ranges))
    requires saved.complete && saved.ranges != [] && TakenFrom(view, home, saved.ranges)
    ensures var (end, ok) := Restore(m, st, Some(saved));
            ok == Done(true) && AgreeOn(view, end, home, saved.ranges)
  {
    hide ReadsLeave, TellsTruthOn, AppliesSetAll, AppliesArrays, AnswersReads, TakenFrom, Writes, SendWrites, Confirms,
         ReadRanges;
    WritesRestore(m, st, home, saved, view);
    var st1 := SendWrites(m, st, Writes(saved).value).0;
    var rs := Bounds(saved.ranges);
    ReadsAnswered(m, st1, rs);
    ReadTheseTruthful(m, st1, rs, view);
    var (st2, post) := ReadThese(m, st1, rs);
    ReadRangesTruthful(m, st1, rs, view);
    assert ReadRanges(m, st1, rs).1.value[0] in ReadRanges(m, st1, rs).1.value;
    AgreementConfirms(view, home, st1, saved.ranges, post.value.value);
  }

  // ---------- The event mask ----------

  /** Every read of the event mask is answered, with one number of ids. */
  ghost predicate AnswersEvents<S(!new)>(m: Modem<S>, bits: int) {
    forall st :: var got := ReadEvents(m, st).1; got.Some? && got.value.numBits == bits
  }

  /** Every write to the event mask is acknowledged. */
  ghost predicate AcksEvents<S(!new)>(m: Modem<S>, bits: int) {
    forall st, mask: EventMask :: mask.Valid() && mask.numBits == bits ==> WriteEvents(m, st, mask).1
  }

  /** A mask that the modem holds in some state; one that clears padding bits holds none with a bit there. */
  ghost predicate Holdable<S(!new)>(events: S -> bytes, mask: bytes) {
    exists st :: events(st) == mask
  }

  /** A mask that can be held is held after it was written. */
  ghost predicate AppliesEvents<S(!new)>(m: Modem<S>, events: S -> bytes, bits: int) {
    forall st, mask: EventMask :: mask.Valid() && mask.numBits == bits && Holdable(events, mask.mask) ==>
      events(WriteEvents(m, st, mask).0) == mask.mask
  }

  /**
   With a modem that answers, the restore of the event mask reports success if and only if the modem
   holds it byte for byte: one that clears padding bits fails it exactly when one was set.
   */
  lemma RestoreEventsExactly<S(!new)>(m: Modem<S>, st: S, mask: EventMask, view: (S, int) -> u32, events: S -> bytes)
    requires Separate(m, view, events) && EventsTold(m, events)
    requires AnswersEvents(m, mask.numBits) && AcksEvents(m, mask.numBits) && mask.Valid()
    ensures var (end, ok) := RestoreEvents(m, st, mask);
            ok <==> events(end) == mask.mask
  {
    hide ReadEvents, WriteEvents, Separate, EventsTold;
    ReadEventsTold(m, WriteEvents(m, st, mask).0, view, events);
  }

  lemma RestoreEventsSucceeds<S(!new)>(m: Modem<S>, st: S, mask: EventMask, view: (S, int) -> u32, events: S -> bytes)
    requires Separate(m, view, events) && EventsTold(m, events) && mask.Valid()
    requires AnswersEvents(m, mask.numBits) && AcksEvents(m, mask.numBits) && AppliesEvents(m, events, mask.numBits)
    requires Holdable(events, mask.mask)
    ensures var (end, ok) := RestoreEvents(m, st, mask);
            ok && events(end) == mask.mask
  {
    hide ReadEvents, WriteEvents, Separate, EventsTold;
    RestoreEventsExactly(m, st, mask, view, events);
    ReadEventsTold(m, WriteEvents(m, st, mask).0, view, events);
  }

  // ---------- Both masks ----------

  /** A modem that answers its ranges and its event mask, and applies every write that fits them. */
  ghost predicate Cooperates<S(!new)>(m: Modem<S>, view: (S, int) -> u32, events: S -> bytes,
                                      rs: seq<(int, int)>, bits: int) {
    && AppliesSetAll(m, view, rs) && AppliesArrays(m, view, rs) && AnswersReads(m, rs)
    && AnswersEvents(m, bits) && AcksEvents(m, bits) && AppliesEvents(m, events, bits)
  }

  lemma {:induction false} RangesInRange<S>(m: Modem<S>, st: S, rs: seq<(int, int)>)
    ensures var out := ReadRanges(m, st, rs).1;
            out.Done? ==> forall r :: r in out.value ==> RangeOk(r.first, r.last)
    decreases rs
  {
    hide ReadMask, Cut, RangeOk;
    if rs == [] {
    } else {
      var (first, last) := rs[0];
      ReadMaskInRange(m, st, first, last);
      RangesInRange(m, ReadMask(m, st, first, last).0, rs[1..]);
    }
  }

  /** A complete snapshot is one that can be put back. */
  lemma SnapshotTaken<S(!new)>(m: Modem<S>, st: S, view: (S, int) -> u32)
    requires ReadsLeave(m, view) && TellsTruthOn(m, view, QueryRanges(m, st).1)
    ensures var got := ReadSnapshot(m, st).1;
            got.Done? && Restorable(got.value) ==>
              var ranges := got.value.value.ranges;
              TakenFrom(view, st, ranges) && ranges != [] && Bounds(ranges) == QueryRanges(m, st).1
  {
    hide ReadRanges, ParseRanges, Exact, RangeOk, ReadsLeave, TellsTruthOn;
    SnapshotTruthful(m, st, view);
    var (mid, rs) := QueryRanges(m, st);
    RangesInRange(m, mid, rs);
  }

  lemma SavedCanBeRestored<S(!new)>(m: Modem<S>, st: S, view: (S, int) -> u32, events: S -> bytes)
    requires Trusted(m, view, events, QueryRanges(m, st).1)
    ensures var got := SaveAndZero(m, st).1;
            got.Done? && got.value.f3Zeroed ==>
              && got.value.f3.Some? && got.value.f3.value.complete
              && TakenFrom(view, st, got.value.f3.value.ranges) && got.value.f3.value.ranges != []
              && Bounds(got.value.f3.value.ranges) == QueryRanges(m, st).1
  {
    hide ReadSnapshot, SaveEvents, TakenFrom, QueryRanges, AnySet, ReadsLeave, TellsTruthOn, Separate, EventsTold;
    SnapshotTaken(m, st, view);
  }

  lemma SavedEvents<S(!new)>(m: Modem<S>, st: S, view: (S, int) -> u32, events: S -> bytes, bits: int)
    requires Trusted(m, view, events, QueryRanges(m, st).1) && AnswersEvents(m, bits)
    ensures var got := SaveAndZero(m, st).1;
            got.Done? ==> got.value.events.Some? && got.value.events.value.Valid()
                          && got.value.events.value.numBits == bits && got.value.events.value.mask == events(st)
  {
    hide SaveF3, QueryRanges, ReadEvents, WriteEvents, ReadsLeave, TellsTruthOn, EventMask.SetIds, EventMask.Valid,
         Empty;
    var st1 := SaveF3(m, st).0;
    SaveF3Right(m, st, view, events);
    TrustedParts(m, view, events, QueryRanges(m, st).1);
    ReadEventsTold(m, st1, view, events);
    ReadEventsValid(m, st1);
  }

  /**
   A cooperative modem gets both masks back: whatever became of them since the save, the restore
   reports success for both, and what was zeroed is as it was found.
   */
  lemma CooperativeRoundTrip<S(!new)>(m: Modem<S>, st: S, mid: S, view: (S, int) -> u32, events: S -> bytes, bits: int)
    requires Trusted(m, view, events, QueryRanges(m, st).1) && Cooperates(m, view, events, QueryRanges(m, st).1, bits)
    requires SaveAndZero(m, st).1.Done?
    ensures var saved := SaveAndZero(m, st).1.value;
            var (end, oks) := RestoreMasks(m, mid, saved);
            && oks == Done((true, true))
            && (saved.f3Zeroed ==> AgreeOn(view, end, st, saved.f3.value.ranges))
            && (saved.eventsZeroed ==> events(end) == events(st))
  {
    hide SaveAndZero, Restore, RestoreEvents, ReadsLeave, TellsTruthOn, Separate, EventsTold, QueryRanges, AgreeOn,
         AppliesSetAll, AppliesArrays, AnswersReads, AnswersEvents, AcksEvents, AppliesEvents, TakenFrom,
         SameView, Trusted;
    TrustedParts(m, view, events, QueryRanges(m, st).1);
    SavedCanBeRestored(m, st, view, events);
    SavedEvents(m, st, view, events, bits);
    var saved := SaveAndZero(m, st).1.value;
    var end := RestoreMasks(m, mid, saved).0;
    var afterF3 := if saved.f3Zeroed then Restore(m, mid, saved.f3).0 else mid;
    if saved.f3Zeroed {
      RestoreSucceeds(m, mid, st, saved.f3.value, view);
      assert Some(saved.f3.value) == saved.f3;
    }
    if saved.eventsZeroed {
      RestoreEventsSucceeds(m, afterF3, saved.events.value, view, events);
      RestoreEventsRight(m, afterF3, saved.events.value, view, events);
      if saved.f3Zeroed {
        AgreeInSameView(view, end, afterF3, st, saved.f3.value.ranges);
      }
    }
  }

  lemma AgreeInSameView<S>(view: (S, int) -> u32, a: S, b: S, c: S, ranges: seq<Range>)
    requires SameView(view, a, b) && AgreeOn(view, b, c, ranges)
    ensures AgreeOn(view, a, c, ranges)
  {
  }

  // ---------- What a save is for ----------

  /** No mask is set on any SSID of these ranges. */
  ghost predicate AllZero<S>(view: (S, int) -> u32, st: S, ranges: seq<Range>) {
    forall r, ss :: r in ranges && r.first <= ss <= r.last ==> view(st, ss) == 0
  }

  lemma NothingSetIsZero<S>(view: (S, int) -> u32, st: S, saved: Snapshot)
    requires TakenFrom(view, st, saved.ranges) && !AnySet(saved.AllMasks())
    ensures AllZero(view, st, saved.ranges)
  {
    forall r, ss | r in saved.ranges && r.first <= ss <= r.last ensures view(st, ss) == 0 {
      GatherHolds(saved.ranges, r);
      assert Exact(view, st, r);
      assert r.masks.value[ss - r.first] == view(st, r.first + (ss - r.first));
      assert r.masks.value[ss - r.first] in saved.AllMasks();
    }
  }

  /** When every range is answered the snapshot is complete. */
  lemma SnapshotComplete<S(!new)>(m: Modem<S>, st: S)
    requires QueryRanges(m, st).1 != [] && AnswersReads(m, QueryRanges(m, st).1)
    ensures var got := ReadSnapshot(m, st).1; got.Done? && Restorable(got.value)
  {
    hide ReadRanges, ParseRanges;
    var (mid, rs) := QueryRanges(m, st);
    ReadsAnswered(m, mid, rs);
    MaskWrites.RangesAreThoseAsked(m, mid, rs);
    var out := ReadRanges(m, mid, rs).1.value;
    assert out[0] in out;
  }

  lemma SaveF3Quiets<S(!new)>(m: Modem<S>, st: S, view: (S, int) -> u32)
    requires ReadsLeave(m, view) && TellsTruthOn(m, view, QueryRanges(m, st).1)
    requires QueryRanges(m, st).1 != [] && AnswersReads(m, QueryRanges(m, st).1)
    requires AppliesSetAll(m, view, QueryRanges(m, st).1)
    ensures var (st', got) := SaveF3(m, st);
            got.Done? && got.value.0.Some? && AllZero(view, st', got.value.0.value.ranges)
  {
    hide ReadSnapshot, QueryRanges, TakenFrom, AnySet, SetAllRequest, StoredMask.Stored, ReadsLeave, TellsTruthOn,
         AnswersReads;
    SnapshotComplete(m, st);
    SnapshotTaken(m, st, view);
    SnapshotTruthful(m, st, view);
    StoredMask.StoredZero();
    var (st1, f3) := ReadSnapshot(m, st);
    if !AnySet(f3.value.value.AllMasks()) {
      NothingSetIsZero(view, st, f3.value.value);
    }
  }

  /** Read with the size of `was`, the event mask held arms nothing. */
  ghost predicate Disarmed<S>(events: S -> bytes, st: S, was: EventMask) {
    was.Valid() && |events(st)| == |was.mask| && was.(mask := events(st)).SetIds() == {}
  }

  lemma SaveEventsQuiets<S(!new)>(m: Modem<S>, st: S, view: (S, int) -> u32, events: S -> bytes, bits: int)
    requires Separate(m, view, events) && EventsTold(m, events) && bits >= 0
    requires AnswersEvents(m, bits) && AppliesEvents(m, events, bits) && Holdable(events, Zeros((bits + 7) / 8))
    ensures var (st', got) := SaveEvents(m, st);
            SameView(view, st', st) && got.0.Some? && Disarmed(events, st', got.0.value)
  {
    hide ReadEvents, WriteEvents, EventMask.SetIds;
    ReadEventsTold(m, st, view, events);
    ReadEventsValid(m, st);
    var (st1, got) := ReadEvents(m, st);
    var none := Empty(bits);
    if got.value.SetIds() != {} {
      WriteEventsKeepsView(m, st1, none, view, events);
      EmptyArmsNothing(bits);
      SameIdsSet(got.value.(mask := none.mask), none);
    } else {
      assert got.value.(mask := got.value.mask) == got.value;
    }
  }

  lemma SameIdsSet(a: EventMask, b: EventMask)
    requires a.Valid() && b.Valid() && a.numBits == b.numBits && a.mask == b.mask
    ensures a.SetIds() == b.SetIds()
  {
    hide Bit;
  }

  /** After a save of a cooperative modem no F3 mask is set on any advertised SSID and no event is armed. */
  lemma SaveQuiets<S(!new)>(m: Modem<S>, st: S, view: (S, int) -> u32, events: S -> bytes, bits: int)
    requires Trusted(m, view, events, QueryRanges(m, st).1) && Cooperates(m, view, events, QueryRanges(m, st).1, bits)
    requires QueryRanges(m, st).1 != [] && bits >= 0 && Holdable(events, Zeros((bits + 7) / 8))
    ensures var (st', got) := SaveAndZero(m, st);
            && got.Done? && got.value.f3.Some? && got.value.events.Some?
            && AllZero(view, st', got.value.f3.value.ranges)
            && Disarmed(events, st', got.value.events.value)
  {
    hide SaveF3, SaveEvents, ReadsLeave, TellsTruthOn, Separate, EventsTold, QueryRanges, Disarmed, AppliesSetAll,
         AppliesArrays, AnswersReads, AnswersEvents, AcksEvents, AppliesEvents;
    SaveF3Quiets(m, st, view);
    SaveEventsQuiets(m, SaveF3(m, st).0, view, events, bits);
  }
}
