/** The reorder buffer's bound: exactly which datagram breaks it, and what that costs. */
module TrackerWindow {
  import opened Circular
  import opened Wrappers
  import opened TrackerModel
  import opened TrackerRuns

  /** Inside the window there is no room for more datagrams than the window, nor than the switch floor. */
  lemma WithinSize<P>(t: Tracker<P>, window: nat)
    requires Within(t, window)
    ensures |t.pending| <= window && |t.pending| <= INTERLEAVE_GAP_FLOOR
  {
    if t.expected.Some? {
      assert |t.pending| == |t.pending.Keys|;
      var bound := if window < INTERLEAVE_GAP_FLOOR then window else INTERLEAVE_GAP_FLOOR;
      Pigeonhole(t.pending.Keys, t.expected.value, bound);
    }
  }

  /** Enforcing stops only when the buffer is no larger than the window. */
  lemma {:induction false} ShrinkSize<P>(t: Tracker<P>, window: nat, ahead: int)
    requires t.expected.Some?
    ensures |Shrink(t, window, ahead).t.pending| <= window
    decreases |t.pending|, Remaining(t)
  {
    if t.pending == map[] || (ahead < window && |t.pending| <= window) {
      LoopsStop(t, window, ahead);
    } else {
      ShrinkStep(t, window, ahead, []);
      ShrinkSize(Advance(t).t, window, ahead - 1);
    }
  }

  lemma DrainSize<P>(t: Tracker<P>)
    requires t.expected.Some?
    ensures |Drain(t).t.pending| <= |t.pending|
  {
    hide Drain;
    var k := DrainIsAdvance(t);
    AdvanceByCounts(t, k);
  }

  lemma FeedSize<P>(t: Tracker<P>, window: nat, payload: P, s: u32, restart: bool)
    requires window >= 1 && |t.pending| <= window
    ensures |Feed(t, window, payload, s, restart).t.pending| <= window
  {
    hide Drain, Shrink;
    if Rebaselines(t, s, restart) {
      DrainSize(Rebase(Cleared(t, restart), s));
    } else if s == t.expected.value {
      DrainSize(Rebase(t, s));
    } else if Dist(s, t.expected.value) < HALF && s !in t.pending && s !in t.seenSet {
      var b := Buffer(t, payload, s);
      BufferFields(t, payload, s);
      ShrinkSize(b, window, Furthest(b.pending, b.expected.value));
    }
  }

  /** Over every run, repeats at the base included, no more datagrams are buffered than the window. */
  lemma RunSize<P>(window: nat, inputs: seq<Input<P>>)
    requires window >= 1
    ensures |Run(window, inputs).t.pending| <= window
  {
    hide Feed, Flush;
    var inv := (h: History<P>) => h.t.Valid() && |h.t.pending| <= window;
    forall h: History<P>, i | 0 <= i < |inputs| && inv(h) ensures inv(Apply(window, h, inputs[i])) {
      match inputs[i]
      case Datagram(payload, s, restart) => FeedSize(h.t, window, payload, s, restart);
      case EndOfStream =>
    }
    FoldInduction((h, input) => Apply(window, h, input), Start(), inputs, inv);
  }

  /** Advancing by `k` leaves what lies at least `k` ahead, now `k` closer. */
  lemma AdvanceByDistances<P>(t: Tracker<P>, k: nat)
    requires t.expected.Some? && k <= MODULUS
    ensures var r := AdvanceBy(t, k).t;
            forall s :: s in r.pending <==> s in t.pending && Dist(s, t.expected.value) >= k
    ensures var r := AdvanceBy(t, k).t;
            forall s :: s in r.pending ==> Dist(s, r.expected.value) == Dist(s, t.expected.value) - k
  {
    AdvanceByPending(t, k);
    AdvanceByBase(t, k);
    forall s | s in AdvanceBy(t, k).t.pending
      ensures Dist(s, Wrap(t.expected.value + k)) == Dist(s, t.expected.value) - k
    {
      DistShift(s, t.expected.value, k);
    }
  }

  lemma EnforceWithin<P>(t: Tracker<P>, window: nat)
    requires window >= 1 && t.expected.Some?
    requires forall s :: s in t.pending ==> Dist(s, t.expected.value) < INTERLEAVE_GAP_FLOOR
    ensures Within(Enforce(t, window).t, window)
  {
    if t.pending != map[] {
      var d := Furthest(t.pending, t.expected.value);
      ShrinkLength(t, window, d);
      AdvanceByDistances(t, if d >= window then d - window + 1 else 0);
    }
  }

  /** Draining after the base has moved onto `t.expected`. */
  lemma DrainWithin<P>(t: Tracker<P>, window: nat)
    requires window >= 1 && Within(t, window)
    requires t.expected.Some?
    ensures Within(Drain(t).t, window)
  {
    var k := DrainIsAdvance(t);
    WithinSize(t, window);
    AdvanceByDistances(t, k);
  }

  /** A copy left at the base falls behind it and is then almost a full circle away. */
  lemma RepeatLeavesBehind<P>(t: Tracker<P>, window: nat, payload: P, s: u32) returns (k: nat)
    requires window >= 1 && Within(t, window) && RepeatsAtBase(t, s, false)
    ensures var after := Feed(t, window, payload, s, false).t;
            && k <= INTERLEAVE_GAP_FLOOR
            && after.expected.Some? && s in after.pending
            && Dist(s, after.expected.value) == MODULUS - 1 - k
            && |after.pending| <= INTERLEAVE_GAP_FLOOR
  {
    var rebased := Rebase(t, s);
    k := DrainIsAdvance(rebased);
    WithinSize(t, window);
    AdvanceByDistances(rebased, k);
    AdvanceByCounts(rebased, k);
  }

  /**
   The buffer stays inside the window after a datagram if and only if that datagram does not
   repeat, at the base, a number that is still buffered.
   */
  lemma FeedWithin<P>(t: Tracker<P>, window: nat, payload: P, s: u32, restart: bool)
    requires window >= 1 && Within(t, window)
    ensures Within(Feed(t, window, payload, s, restart).t, window) <==> !RepeatsAtBase(t, s, restart)
  {
    if Rebaselines(t, s, restart) {
      DrainWithin(Rebase(Cleared(t, restart), s), window);
    } else if s == t.expected.value {
      if s in t.pending {
        var k := RepeatLeavesBehind(t, window, payload, s);
      } else {
        DrainWithin(Rebase(t, s), window);
      }
    } else if Dist(s, t.expected.value) < HALF && s !in t.pending && s !in t.seenSet {
      BufferFields(t, payload, s);
      EnforceWithin(Buffer(t, payload, s), window);
    }
  }

  lemma ApplyWithin<P>(window: nat, h: History<P>, input: Input<P>)
    requires window >= 1 && h.t.Valid()
    requires (h.within <==> h.repeats == 0) && (h.within ==> Within(h.t, window))
    ensures var next := Apply(window, h, input);
            && next.t.Valid()
            && (next.within <==> next.repeats == 0) && (next.within ==> Within(next.t, window))
  {
    if input.Datagram? && h.within {
      FeedWithin(h.t, window, input.payload, input.s, input.restart);
    }
  }

  /** Along a whole run the bound holds throughout exactly when no input repeats at the base. */
  lemma RunWithin<P>(window: nat, inputs: seq<Input<P>>)
    requires window >= 1
    ensures var h := Run(window, inputs);
            (h.within <==> h.repeats == 0) && (h.within ==> Within(h.t, window))
  {
    var inv := (h: History<P>) =>
      h.t.Valid() && (h.within <==> h.repeats == 0) && (h.within ==> Within(h.t, window));
    forall h: History<P>, i | 0 <= i < |inputs| && inv(h) ensures inv(Apply(window, h, inputs[i])) {
      ApplyWithin(window, h, inputs[i]);
    }
    FoldInduction((h, input) => Apply(window, h, input), Start(), inputs, inv);
  }

  /** Inside the window a flush gives up fewer numbers than the window. */
  lemma FlushWithin<P>(t: Tracker<P>, window: nat)
    requires window >= 1 && Within(t, window)
    ensures Flush(t).t.missing < t.missing + window
  {
    hide Flush, AdvanceBy;
    if t.pending != map[] {
      var d := Furthest(t.pending, t.expected.value);
      FlushLength(t, d);
      AdvanceByCounts(t, d + 1);
      assert Flush(t).t.pending == map[];
      assert |t.pending| > 0 by { assert t.pending.Keys != {}; }
    }
  }

  /** After a repeat at the base, the next flush reports over four thousand million losses. */
  lemma FlushAfterRepeat<P>(t: Tracker<P>, window: nat, payload: P, s: u32)
    requires window >= 1 && Within(t, window) && RepeatsAtBase(t, s, false)
    ensures Flush(Feed(t, window, payload, s, false).t).t.missing >= MODULUS - 2 * INTERLEAVE_GAP_FLOOR
  {
    hide Feed, Flush, AdvanceBy, Dist;
    var k := RepeatLeavesBehind(t, window, payload, s);
    var after := Feed(t, window, payload, s, false).t;
    var d: int := Furthest(after.pending, after.expected.value);
    FlushLength(after, d);
    AdvanceByCounts(after, d + 1);
  }

  /** It need not come to a flush: the next early arrival already forces the base almost once round the circle. */
  lemma EarlyAfterRepeat<P>(t: Tracker<P>, window: nat, payload: P, s: u32, early: P, u: u32)
    requires 1 <= window <= INTERLEAVE_GAP_FLOOR && Within(t, window) && RepeatsAtBase(t, s, false)
    requires var after := Feed(t, window, payload, s, false).t;
             && after.expected.Some? && u !in after.pending && u !in after.seenSet
             && 0 < Dist(u, after.expected.value) < INTERLEAVE_GAP_FLOOR
    ensures var after := Feed(t, window, payload, s, false).t;
            Feed(after, window, early, u, false).t.missing >= MODULUS - 4 * INTERLEAVE_GAP_FLOOR
  {
    hide Feed, AdvanceBy, Dist, Buffer;
    var k := RepeatLeavesBehind(t, window, payload, s);
    var after := Feed(t, window, payload, s, false).t;
    BufferFields(after, early, u);
    var b := Buffer(after, early, u);
    var d: int := Furthest(b.pending, after.expected.value);
    assert s in b.pending && d >= Dist(s, after.expected.value);
    FeedEarly(after, window, early, u, d);
    AdvanceByCounts(b, d - window + 1);
  }

  lemma RepeatExampleStart() returns (t: Tracker<char>)
    ensures t == Run(2, [Datagram('a', 9, false)] + [Datagram('b', 11, false)]).t
    ensures t.expected == Some(10) && t.pending == map[11 := 'b'] && t.seenSet == {9, 11}
  {
    var first := Rebase(Fresh<char>(), 9);
    assert [] + [Datagram('a', 9, false)] == [Datagram('a', 9, false)];
    RunLast(2, [], Datagram('a', 9, false));
    RunLast(2, [Datagram('a', 9, false)], Datagram('b', 11, false));
    assert Run(2, [Datagram('a', 9, false)]).t == first;
    assert 11 in first.pending[11 := 'b'] && Dist(11, 10) == 1;
    FeedEarly(first, 2, 'b', 11, 1);
    t := Buffer(first, 'b', 11);
  }

  /** With window 2 the second early arrival forces the base onto a number already buffered. */
  lemma RepeatExampleBase()
    ensures var t := Run(2, [Datagram('a', 9, false)] + [Datagram('b', 11, false)] + [Datagram('c', 12, false)]).t;
            t.expected == Some(11) && t.pending == map[11 := 'b', 12 := 'c']
  {
    var t := RepeatExampleStart();
    RunLast(2, [Datagram('a', 9, false)] + [Datagram('b', 11, false)], Datagram('c', 12, false));
    var b := Buffer(t, 'c', 12);
    assert 12 in b.pending && Dist(12, 10) == 2;
    FeedEarly(t, 2, 'c', 12, 2);
    assert AdvanceBy(b, 1).t == Advance(b).t;
  }

  /** Feeding 9, 11, 12 and 11 again to a tracker with window 2 breaks the bound. */
  lemma RepeatExample()
    ensures !Run(2, [Datagram('a', 9, false)] + [Datagram('b', 11, false)] + [Datagram('c', 12, false)]
                    + [Datagram('b', 11, false)]).within
  {
    var inputs := [Datagram('a', 9, false)] + [Datagram('b', 11, false)] + [Datagram('c', 12, false)];
    RepeatExampleBase();
    RunLast(2, inputs, Datagram('b', 11, false));
    FeedWithin(Run(2, inputs).t, 2, 'b', 11, false);
  }
}
