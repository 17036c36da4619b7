/**
 The mask procedures as they run: loops of requests to a modem whose state moves with every one.
 Each is proved to end in the state, and with the result, of its function in F3Mask or MaskState.
 */
module MaskLink {
  import opened Bytes
  import opened Wrappers
  import opened Circular
  import opened EventMask
  import opened F3Mask
  import M = MaskState

  /** As many complete pairs as the reply announces and holds. */
  method TakeRanges(body: bytes) returns (ranges: seq<(int, int)>)
    ensures ranges == F3Mask.ParseRanges(body)
  {
    hide U16;
    if |body| < RANGES_HDR_LEN {
      return [];
    }
    var num := U16(body[3], body[4]);
    Le16OfU16(body[3], body[4]);
    var off, left := RANGES_HDR_LEN, num;
    ranges := [];
    while left > 0
      invariant 0 <= left && 0 <= off
      invariant ranges + RangesFrom(body, off, left) == F3Mask.ParseRanges(body)
    {
      if off + 4 > |body| {
        return;
      }
      var pair := (U16(body[off], body[off + 1]), U16(body[off + 2], body[off + 3]));
      assert RangesFrom(body, off, left) == [pair] + RangesFrom(body, off + 4, left - 1);
      ranges := ranges + [pair];
      off, left := off + 4, left - 1;
    }
  }

  /** `out` put before the tables of a run of reads. */
  function After<S>(out: seq<Range>, run: (S, Try<seq<Range>>)): (S, Try<seq<Range>>) {
    (run.0, if run.1.Raised? then Raised else Done(out + run.1.value))
  }

  lemma ReadOne<S>(m: Modem<S>, st: S, rs: seq<(int, int)>, out: seq<Range>)
    requires rs != []
    ensures var (st', got) := F3Mask.ReadMask(m, st, rs[0].0, rs[0].1);
            var all := After(out, ReadRanges(m, st, rs));
            && (got.Raised? ==> all == (st', Raised))
            && (got.Done? ==>
                  && RangeOk(rs[0].0, rs[0].1)
                  && var one := Range(rs[0].0, rs[0].1, Cut(got.value, rs[0].1 - rs[0].0 + 1));
                     all == After(out + [one], ReadRanges(m, st', rs[1..]))
                     && (AllRead(out + [one]) <==> AllRead(out) && got.value.Some?))
  {
    hide ParseTable, GetRequest;
    var (st', got) := F3Mask.ReadMask(m, st, rs[0].0, rs[0].1);
    if got.Done? {
      var one := Range(rs[0].0, rs[0].1, Cut(got.value, rs[0].1 - rs[0].0 + 1));
      assert forall r :: r in out + [one] <==> r in out || r == one;
      var rest := ReadRanges(m, st', rs[1..]).1;
      assert rest.Done? ==> out + ([one] + rest.value) == (out + [one]) + rest.value;
    }
  }

  lemma NothingUnread(out: seq<Range>)
    requires out == []
    ensures AllRead(out)
  {
  }

  lemma NothingBefore<S>(run: (S, Try<seq<Range>>))
    ensures After([], run) == run
  {
    assert run.1.Done? ==> [] + run.1.value == run.1.value;
  }

  lemma NothingLeft<S>(m: Modem<S>, st: S, rs: seq<(int, int)>, out: seq<Range>)
    requires rs == []
    ensures After(out, ReadRanges(m, st, rs)) == (st, Done(out))
  {
    assert out + [] == out;
  }

  class Link<S> {
    const modem: Modem<S>
    var state: S

    constructor (modem: Modem<S>, state: S)
      ensures this.modem == modem && this.state == state
    {
      this.modem, this.state := modem, state;
    }

    method SendRecv(op: byte, payload: bytes) returns (ans: Answer)
      modifies this
      ensures (state, ans) == modem.step(old(state), op, payload)
    {
      var (st, reply) := modem.step(state, op, payload);
      state, ans := st, reply;
    }

    method QueryRanges() returns (ranges: seq<(int, int)>)
      modifies this
      ensures (state, ranges) == F3Mask.QueryRanges(modem, old(state))
    {
      var ans := SendRecv(EXT_MSG_CONFIG_F, [QUERY_SSID_RANGES]);
      if ans.Silence? || ans.op != EXT_MSG_CONFIG_F {
        return [];
      }
      ranges := TakeRanges(ans.body);
    }

    method ReadMask(first: int, last: int) returns (got: Try<Option<seq<u32>>>)
      modifies this
      ensures (state, got) == F3Mask.ReadMask(modem, old(state), first, last)
    {
      if !RangeOk(first, last) {
        return Raised;
      }
      var ans := SendRecv(EXT_MSG_CONFIG_F, GetRequest(first, last));
      if ans.Silence? || ans.op != EXT_MSG_CONFIG_F {
        return Done(None);
      }
      got := Done(ParseTable(ans.body));
    }

    /** Read the given ranges, or ask which there are if none are given. */
    method ReadSnapshot(given: Option<seq<(int, int)>>) returns (got: Try<Option<Snapshot>>)
      modifies this
      ensures (state, got) == if given.Some? then ReadThese(modem, old(state), given.value)
                              else F3Mask.ReadSnapshot(modem, old(state))
    {
      hide F3Mask.QueryRanges, F3Mask.ReadMask, Cut, AllRead, ReadRanges, NoneRead;
      var ranges := [];
      if given.Some? {
        ranges := given.value;
      } else {
        ranges := QueryRanges();
      }
      ghost var start := state;
      var complete := ranges != [];
      var asked := if ranges == [] then [(0, SS_RANGE0_LAST)] else ranges;
      var out: seq<Range> := [];
      NothingUnread(out);
      NothingBefore(ReadRanges(modem, state, asked));
      assert asked[0..] == asked;
      for i := 0 to |asked|
        invariant complete == (ranges != [] && AllRead(out))
        invariant ReadRanges(modem, start, asked) == After(out, ReadRanges(modem, state, asked[i..]))
      {
        var (first, last) := asked[i];
        ReadOne(modem, state, asked[i..], out);
        assert asked[i..][1..] == asked[i + 1..];
        var masks := ReadMask(first, last);
        if masks.Raised? {
          return Raised;
        }
        if masks.value.None? {
          complete := false;
        }
        out := out + [Range(first, last, Cut(masks.value, last - first + 1))];
      }
      NothingLeft(modem, state, asked[|asked|..], out);
      if NoneRead(out) {
        return Done(None);
      }
      got := Done(Some(Snapshot(out, complete)));
    }

    /** Write back every range, then believe only what a second reading says. */
    method Restore(saved: Option<Snapshot>) returns (ok: Try<bool>)
      modifies this
      ensures (state, ok) == F3Mask.Restore(modem, old(state), saved)
    {
      hide Writes, ReadThese, Confirms;
      if saved.None? || saved.value.ranges == [] {
        return Done(false);
      }
      var writes := Writes(saved.value);
      if writes.Raised? {
        return Raised;
      }
      for i := 0 to |writes.value|
        invariant SendWrites(modem, old(state), writes.value) == SendWrites(modem, state, writes.value[i..])
      {
        var ans := SendRecv(EXT_MSG_CONFIG_F, writes.value[i]);
        if !Accepted(ans) {
          return Done(false);
        }
      }
      var post := ReadSnapshot(Some(Bounds(saved.value.ranges)));
      if post.Raised? {
        return Raised;
      }
      ok := Done(Confirms(saved.value.ranges, post.value) && saved.value.complete);
    }

    /** The four-byte request first, then the bare opcode; the first answer settles it. */
    method ReadEvents() returns (got: Option<EventMask>)
      modifies this
      ensures (state, got) == M.ReadEvents(modem, old(state))
    {
      hide Parse;
      var forms := [true, false];
      for i := 0 to |forms|
        invariant M.ReadEvents(modem, old(state)) ==
                  if i < 2 then M.ReadEventsFrom(modem, state, i == 0) else (state, None)
      {
        var ans := SendRecv(EVENT_MASK_GET_F, M.EventGetPayload(forms[i]));
        if ans.Reply? {
          if ans.op != EVENT_MASK_GET_F {
            return None;
          }
          return Parse(ans.body);
        }
      }
      got := None;
    }

    method WriteEvents(mask: EventMask) returns (ok: bool)
      requires mask.Valid()
      modifies this
      ensures (state, ok) == M.WriteEvents(modem, old(state), mask)
    {
      var ans := SendRecv(EVENT_MASK_SET_F, BuildSet(mask)[1..]);
      ok := ans.Reply? && ans.op == EVENT_MASK_SET_F;
    }

    /** Read both masks, and zero each that was read whole and has something set. */
    method SaveAndZero() returns (saved: Try<M.SavedMasks>)
      modifies this
      ensures (state, saved) == M.SaveAndZero(modem, old(state))
    {
      hide F3Mask.ReadSnapshot, M.ReadEvents, M.WriteEvents, M.AnySet, EventMask.SetIds;
      var f3 := ReadSnapshot(None);
      if f3.Raised? {
        return Raised;
      }
      var f3Zeroed := false;
      if M.Restorable(f3.value) && M.AnySet(f3.value.value.AllMasks()) {
        var ans := SendRecv(EXT_MSG_CONFIG_F, SetAllRequest(0));
        f3Zeroed := Accepted(ans);
      }
      M.ReadEventsValid(modem, state);
      var events := ReadEvents();
      var eventsZeroed := false;
      if events.Some? && events.value.SetIds() != {} {
        eventsZeroed := WriteEvents(Empty(events.value.numBits));
      }
      saved := Done(M.SavedMasks(f3.value, events, f3Zeroed, eventsZeroed));
    }

    /** Put back what was zeroed; a mask that was not counts as restored. */
    method RestoreMasks(saved: M.SavedMasks) returns (oks: Try<(bool, bool)>)
      requires saved.events.Some? ==> saved.events.value.Valid()
      modifies this
      ensures (state, oks) == M.RestoreMasks(modem, old(state), saved)
    {
      hide F3Mask.Restore, M.ReadEvents, M.WriteEvents, EventMask.Valid;
      var f3Ok, eventsOk := Done(true), true;
      if saved.f3Zeroed {
        f3Ok := Restore(saved.f3);
        if f3Ok.Raised? {
          return Raised;
        }
      }
      if saved.eventsZeroed && saved.events.Some? {
        eventsOk := false;
        var written := WriteEvents(saved.events.value);
        if written {
          var back := ReadEvents();
          eventsOk := back.Some? && back.value.mask == saved.events.value.mask;
        }
      }
      oks := Done((f3Ok.value, eventsOk));
    }
  }
}
