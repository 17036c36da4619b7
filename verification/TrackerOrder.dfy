/** Delivery is in sequence order: every payload handed out belongs to a position of its own. */
module TrackerOrder {
  import opened Circular
  import opened Wrappers
  import opened TrackerModel
  import opened TrackerRuns

  /** Payloads that say which number they were sent with. */
  ghost predicate Tagged<P>(t: Tracker<P>, tag: P -> u32) {
    forall s :: s in t.pending ==> tag(t.pending[s]) == s
  }

  /** `out` sits at strictly rising positions of `[lo, hi)`, each with the number of its position. */
  ghost predicate Placed<P>(out: seq<P>, at: seq<int>, lo: int, hi: int, tag: P -> u32) {
    && |at| == |out|
    && (forall i :: 0 <= i < |at| ==> lo <= at[i] < hi && Wrap(at[i]) == tag(out[i]))
    && (forall i, j :: 0 <= i < j < |at| ==> at[i] < at[j])
  }

  lemma PlacedConcat<P>(a: seq<P>, x: seq<int>, b: seq<P>, y: seq<int>, lo: int, mid: int, hi: int, tag: P -> u32)
    requires Placed(a, x, lo, mid, tag) && Placed(b, y, mid, hi, tag)
    requires lo <= mid <= hi
    ensures Placed(a + b, x + y, lo, hi, tag)
  {
  }

  lemma {:induction false} AdvanceByPlaced<P>(t: Tracker<P>, k: nat, base: int, tag: P -> u32) returns (at: seq<int>)
    requires t.expected == Some(Wrap(base)) && Tagged(t, tag)
    ensures Placed(AdvanceBy(t, k).out, at, base, base + k, tag)
    ensures Tagged(AdvanceBy(t, k).t, tag)
    decreases k
  {
    at := [];
    if k == 0 {
    } else {
      var next := Advance(t);
      WrapNext(base);
      var rest := AdvanceByPlaced(next.t, k - 1, base + 1, tag);
      var here := if next.out == [] then [] else [base];
      assert Placed(next.out, here, base, base + 1, tag);
      PlacedConcat(next.out, here, AdvanceBy(next.t, k - 1).out, rest, base, base + 1, base + k, tag);
      at := here + rest;
    }
  }

  lemma DeliverPlaced<P>(t: Tracker<P>, payload: P, s: u32, base: int, tag: P -> u32) returns (at: seq<int>)
    requires Wrap(base) == s == tag(payload) && Tagged(t, tag)
    ensures var step := Deliver(t, payload, s);
            && Ledger(step.t) >= Ledger(t)
            && Placed(step.out, at, base, base + (Ledger(step.t) - Ledger(t)), tag)
            && Tagged(step.t, tag)
  {
    var rebased := Rebase(t, s);
    WrapNext(base);
    var k := DrainIsAdvance(rebased);
    AdvanceByCounts(rebased, k);
    at := AdvanceByPlaced(rebased, k, base + 1, tag);
    PlacedConcat([payload], [base], Drain(rebased).out, at, base, base + 1, base + 1 + k, tag);
    at := [base] + at;
  }

  lemma TrackPlaced<P>(t: Tracker<P>, payload: P, s: u32, restart: bool, origin: int, tag: P -> u32)
    returns (at: seq<int>)
    requires t.Valid() && Synced(t, origin) && Tagged(t, tag) && tag(payload) == s
    ensures var step := Feed(t, 0, payload, s, restart);
            var base := OriginAfter(t, s, restart, origin) + Ledger(t);
            && Ledger(step.t) >= Ledger(t)
            && Placed(step.out, at, base, base + (Ledger(step.t) - Ledger(t)), tag)
            && Tagged(step.t, tag)
  {
    var base := OriginAfter(t, s, restart, origin) + Ledger(t);
    if Rebaselines(t, s, restart) {
      at := [base];
    } else if Dist(s, t.expected.value) < HALF {
      WrapPlus(base, Dist(s, t.expected.value));
      at := [base + Dist(s, t.expected.value)];
    } else {
      at := [];
    }
  }

  lemma EnforcePlaced<P>(t: Tracker<P>, window: nat, base: int, tag: P -> u32) returns (at: seq<int>)
    requires t.expected == Some(Wrap(base)) && Tagged(t, tag)
    ensures var step := Enforce(t, window);
            && Ledger(step.t) >= Ledger(t)
            && Placed(step.out, at, base, base + (Ledger(step.t) - Ledger(t)), tag)
            && Tagged(step.t, tag)
  {
    at := [];
    if t.pending != map[] {
      var k := ShrinkIsAdvance(t, window, Furthest(t.pending, t.expected.value));
      AdvanceByCounts(t, k);
      at := AdvanceByPlaced(t, k, base, tag);
    }
  }

  /** What one datagram releases lies between the old and the new base. */
  lemma FeedPlaced<P>(t: Tracker<P>, window: int, payload: P, s: u32, restart: bool, origin: int, tag: P -> u32)
    returns (at: seq<int>)
    requires t.Valid() && Synced(t, origin) && Tagged(t, tag) && tag(payload) == s
    ensures var step := Feed(t, window, payload, s, restart);
            var base := OriginAfter(t, s, restart, origin) + Ledger(t);
            && Ledger(step.t) >= Ledger(t)
            && Placed(step.out, at, base, base + (Ledger(step.t) - Ledger(t)), tag)
            && Tagged(step.t, tag)
  {
    at := [];
    var base := OriginAfter(t, s, restart, origin) + Ledger(t);
    if window <= 0 {
      at := TrackPlaced(t, payload, s, restart, origin, tag);
    } else if Rebaselines(t, s, restart) {
      at := DeliverPlaced(Cleared(t, restart), payload, s, base, tag);
    } else if s == t.expected.value {
      at := DeliverPlaced(t, payload, s, base, tag);
    } else if Dist(s, t.expected.value) < HALF && s !in t.pending && s !in t.seenSet {
      BufferFields(t, payload, s);
      at := EnforcePlaced(Buffer(t, payload, s), window, base, tag);
    }
  }

  /** One input of a run that stays on its numbering releases the next positions. */
  lemma ApplyPlaced<P>(window: int, h: History<P>, input: Input<P>, tag: P -> u32)
    returns (released: seq<P>, at: seq<int>)
    requires h.t.Valid() && Synced(h.t, h.origin) && Tagged(h.t, tag)
    requires input.Datagram? ==> tag(input.payload) == input.s
    ensures var next := Apply(window, h, input);
            && next.out == h.out + released
            && Ledger(next.t) >= Ledger(h.t)
            && Placed(released, at, next.origin + Ledger(h.t), next.origin + Ledger(next.t), tag)
            && Tagged(next.t, tag)
  {
    match input
    case Datagram(payload, s, restart) =>
      at := FeedPlaced(h.t, window, payload, s, restart, h.origin, tag);
      released := Feed(h.t, window, payload, s, restart).out;
    case EndOfStream =>
      released, at := Flush(h.t).out, [];
      if h.t.expected.Some? {
        var k := FlushIsAdvance(h.t);
        AdvanceByCounts(h.t, k);
        at := AdvanceByPlaced(h.t, k, h.origin + Ledger(h.t), tag);
      }
  }

  /** How many payloads and ledger positions there were when epoch `e` ended, or are now. */
  function EpochEnd<P>(h: History<P>, e: nat): (r: (nat, nat))
    requires e < |h.cuts|
  {
    if e + 1 < |h.cuts| then (h.cuts[e + 1].index, h.cuts[e + 1].ledger) else (|h.out|, Ledger(h.t))
  }

  /** The cuts are in order, cover the whole output, and the last one fixes the numbering in force. */
  ghost predicate CutsOk<P>(h: History<P>) {
    && (h.cuts == [] ==> h.out == [] && h.t.expected.None?)
    && (h.cuts != [] ==> h.cuts[0].index == 0 && h.t.expected.Some?)
    && (forall e :: 0 <= e < |h.cuts| ==> h.cuts[e].index <= EpochEnd(h, e).0 <= |h.out|)
    && (forall e :: 0 <= e < |h.cuts| ==> h.cuts[e].ledger <= EpochEnd(h, e).1)
    && (h.cuts != [] ==>
          var last := h.cuts[|h.cuts| - 1]; h.origin + last.ledger == last.position)
  }

  /** What epoch `e` has handed out. */
  function EpochOut<P>(h: History<P>, e: nat): seq<P>
    requires e < |h.cuts|
  {
    var from, to := h.cuts[e].index, EpochEnd(h, e).0;
    if from <= to <= |h.out| then h.out[from..to] else []
  }

  /** How far the base has moved in epoch `e`. */
  function Span<P>(h: History<P>, e: nat): int
    requires e < |h.cuts|
  {
    EpochEnd(h, e).1 - h.cuts[e].ledger
  }

  /** The payloads of epoch `e` sit at rising positions that the base has passed since the epoch began. */
  ghost predicate EpochPlaced<P>(h: History<P>, e: nat, at: seq<int>, tag: P -> u32)
    requires e < |h.cuts|
  {
    Placed(EpochOut(h, e), at, h.cuts[e].position, h.cuts[e].position + Span(h, e), tag)
  }

  ghost predicate EpochRises<P>(h: History<P>, e: nat, tag: P -> u32)
    requires e < |h.cuts|
  {
    exists at :: EpochPlaced(h, e, at, tag)
  }

  ghost predicate InOrder<P>(h: History<P>, tag: P -> u32) {
    && h.t.Valid() && Synced(h.t, h.origin) && Tagged(h.t, tag) && CutsOk(h)
    && forall e :: 0 <= e < |h.cuts| ==> EpochRises(h, e, tag)
  }

  lemma ApplySynced<P>(window: int, h: History<P>, input: Input<P>)
    requires h.t.Valid() && Synced(h.t, h.origin)
    ensures Synced(Apply(window, h, input).t, Apply(window, h, input).origin)
  {
    match input
    case Datagram(payload, s, restart) =>
      if window <= 0 {
        TrackSynced(h.t, s, restart, h.origin);
      } else {
        FeedKeeps(h.t, window, payload, s, restart, h.origin);
      }
    case EndOfStream =>
      if h.t.expected.Some? {
        var k := FlushIsAdvance(h.t);
        AdvanceKeepsSync(h.t, k, h.origin);
      }
  }

  /** What one input does to the record of epochs. */
  lemma ApplyCuts<P>(window: int, h: History<P>, input: Input<P>, released: seq<P>)
    requires CutsOk(h) && h.t.Valid()
    requires Apply(window, h, input).out == h.out + released && Ledger(Apply(window, h, input).t) >= Ledger(h.t)
    ensures var next := Apply(window, h, input);
            && CutsOk(next)
            && h.cuts <= next.cuts && |next.cuts| <= |h.cuts| + 1
            && (|next.cuts| == |h.cuts| ==> next.origin == h.origin)
            && (|next.cuts| > |h.cuts| ==>
                  next.cuts[|h.cuts|] == Cut(|h.out|, Ledger(h.t), next.origin + Ledger(h.t)))
  {
    hide Feed, Flush, Within, RepeatsAtBase;
    var next := Apply(window, h, input);
    match input
    case Datagram(payload, s, restart) =>
      if h.t.expected.None? {
        assert Rebaselines(h.t, s, restart);
      }
    case EndOfStream =>
      assert h.t.expected.None? ==> next.out == h.out;
  }

  /** An epoch that is over, or is ended by this input, keeps its payloads and its span. */
  lemma EpochOver<P>(h: History<P>, next: History<P>, released: seq<P>, e: nat)
    requires CutsOk(h) && CutsOk(next) && h.cuts <= next.cuts && next.out == h.out + released && e < |h.cuts|
    requires e + 1 == |h.cuts| ==>
               && |next.cuts| > |h.cuts|
               && next.cuts[e + 1].index == |h.out| && next.cuts[e + 1].ledger == Ledger(h.t)
    ensures EpochOut(next, e) == EpochOut(h, e) && Span(next, e) == Span(h, e)
  {
    assert EpochEnd(next, e) == EpochEnd(h, e);
  }

  /** The epoch in force grows by what is released. */
  lemma EpochGrows<P>(h: History<P>, next: History<P>, released: seq<P>, e: nat)
    requires CutsOk(h) && CutsOk(next) && h.cuts == next.cuts && next.out == h.out + released && e + 1 == |h.cuts|
    ensures EpochOut(next, e) == EpochOut(h, e) + released
    ensures Span(h, e) == Ledger(h.t) - h.cuts[e].ledger && Span(next, e) == Ledger(next.t) - h.cuts[e].ledger
    ensures h.cuts[e].position == h.origin + h.cuts[e].ledger
  {
  }

  /** A new epoch begins with what is released. */
  lemma EpochBegins<P>(h: History<P>, next: History<P>, released: seq<P>, e: nat)
    requires CutsOk(next) && |next.cuts| == e + 1 && next.out == h.out + released
    requires next.cuts[e] == Cut(|h.out|, Ledger(h.t), next.origin + Ledger(h.t))
    ensures EpochOut(next, e) == released && Span(next, e) == Ledger(next.t) - Ledger(h.t)
    ensures next.cuts[e].position == next.origin + Ledger(h.t)
  {
  }

  lemma EpochKept<P>(h: History<P>, next: History<P>, released: seq<P>, more: seq<int>, tag: P -> u32, e: nat)
    requires CutsOk(h) && CutsOk(next) && Ledger(next.t) >= Ledger(h.t) && next.out == h.out + released
    requires forall i :: 0 <= i < |h.cuts| ==> EpochRises(h, i, tag)
    requires h.cuts <= next.cuts && |next.cuts| <= |h.cuts| + 1 && e < |next.cuts|
    requires |next.cuts| == |h.cuts| ==> next.origin == h.origin
    requires |next.cuts| > |h.cuts| ==> next.cuts[|h.cuts|] == Cut(|h.out|, Ledger(h.t), next.origin + Ledger(h.t))
    requires Placed(released, more, next.origin + Ledger(h.t), next.origin + Ledger(next.t), tag)
    ensures EpochRises(next, e, tag)
  {
    hide Placed, EpochOut, Span, CutsOk, Ledger;
    if e == |h.cuts| {
      EpochBegins(h, next, released, e);
      assert EpochPlaced(next, e, more, tag);
    } else {
      assert EpochRises(h, e, tag);
      var at :| EpochPlaced(h, e, at, tag);
      var lo := h.cuts[e].position;
      if e + 1 < |h.cuts| || |next.cuts| > |h.cuts| {
        EpochOver(h, next, released, e);
        assert EpochPlaced(next, e, at, tag);
      } else {
        EpochGrows(h, next, released, e);
        SpanNotNegative(h, e);
        PlacedConcat(EpochOut(h, e), at, released, more, lo, lo + Span(h, e), lo + Span(next, e), tag);
        assert EpochPlaced(next, e, at + more, tag);
      }
    }
  }

  lemma SpanNotNegative<P>(h: History<P>, e: nat)
    requires CutsOk(h) && e < |h.cuts|
    ensures Span(h, e) >= 0
  {
  }

  lemma ApplyValid<P>(window: int, h: History<P>, input: Input<P>)
    requires h.t.Valid()
    ensures Apply(window, h, input).t.Valid()
  {
  }

  lemma ApplyInOrder<P>(window: int, h: History<P>, input: Input<P>, tag: P -> u32)
    requires InOrder(h, tag) && (input.Datagram? ==> tag(input.payload) == input.s)
    ensures InOrder(Apply(window, h, input), tag)
  {
    hide Apply, Placed, Tagged, Synced, CutsOk, EpochRises, Tracker.Valid, Ledger;
    var next := Apply(window, h, input);
    ApplySynced(window, h, input);
    ApplyValid(window, h, input);
    var released, more := ApplyPlaced(window, h, input, tag);
    ApplyCuts(window, h, input, released);
    forall e | 0 <= e < |next.cuts| ensures EpochRises(next, e, tag) {
      EpochKept(h, next, released, more, tag, e);
    }
  }

  /**
   However the network reorders, repeats or loses datagrams, and however often the numbering is set
   anew, each epoch of a run hands out strictly rising positions, those that the base passed in it.
   */
  lemma DeliveredInOrder<P>(window: int, inputs: seq<Input<P>>, tag: P -> u32)
    requires forall i :: 0 <= i < |inputs| && inputs[i].Datagram? ==> tag(inputs[i].payload) == inputs[i].s
    ensures InOrder(Run(window, inputs), tag)
  {
    hide Apply;
    var inv := (h: History<P>) => InOrder(h, tag);
    forall h: History<P>, i | 0 <= i < |inputs| && inv(h) ensures inv(Apply(window, h, inputs[i])) {
      ApplyInOrder(window, h, inputs[i], tag);
    }
    FoldInduction((h, input) => Apply(window, h, input), Start(), inputs, inv);
  }

  lemma PlacedDistinct<P>(out: seq<P>, at: seq<int>, lo: int, hi: int, tag: P -> u32, i: nat, j: nat)
    requires Placed(out, at, lo, hi, tag) && hi - lo <= MODULUS && i < j < |out|
    ensures tag(out[i]) != tag(out[j])
  {
    DistOfPositions(at[j], at[i]);
  }

  /** No epoch delivers a number twice while the base has not gone once round the circle in it. */
  lemma DeliveredOnce<P>(window: int, inputs: seq<Input<P>>, tag: P -> u32, e: nat, i: nat, j: nat)
    requires forall i :: 0 <= i < |inputs| && inputs[i].Datagram? ==> tag(inputs[i].payload) == inputs[i].s
    requires var h := Run(window, inputs);
             && e < |h.cuts| && Span(h, e) <= MODULUS && i < j < |EpochOut(h, e)|
    ensures var out := EpochOut(Run(window, inputs), e);
            tag(out[i]) != tag(out[j])
  {
    hide Run, Placed, EpochOut, Span, CutsOk;
    DeliveredInOrder(window, inputs, tag);
    var h := Run(window, inputs);
    assert EpochRises(h, e, tag);
    var at :| EpochPlaced(h, e, at, tag);
    var lo := h.cuts[e].position;
    PlacedDistinct(EpochOut(h, e), at, lo, lo + Span(h, e), tag, i, j);
  }
}
