/** What every run of the tracker keeps: the ledger, the order of delivery, the buffer bound. */
module TrackerRuns {
  import opened Circular
  import opened Wrappers
  import opened TrackerModel

  // ---------- Every loop of the tracker is a number of single advances ----------

  /** Positions accounted for so far, delivered or given up. */
  function Ledger<P>(t: Tracker<P>): nat {
    t.received + t.missing
  }

  lemma {:induction false} AdvanceByCounts<P>(t: Tracker<P>, k: nat)
    requires t.expected.Some?
    ensures var r := AdvanceBy(t, k);
            && Ledger(r.t) == Ledger(t) + k
            && |r.out| == r.t.received - t.received == |t.pending| - |r.t.pending|
    decreases k
  {
    if k == 0 {
    } else {
      AdvanceByCounts(Advance(t).t, k - 1);
      RemovalSize(t.pending, t.expected.value);
    }
  }

  /** The counters and the memory that advancing leaves alone. */
  ghost predicate SameRest<P>(t: Tracker<P>, t': Tracker<P>) {
    t' == t.(expected := t'.expected, received := t'.received, missing := t'.missing, pending := t'.pending)
  }

  lemma {:induction false} AdvanceByFrame<P>(t: Tracker<P>, k: nat)
    requires t.expected.Some?
    ensures SameRest(t, AdvanceBy(t, k).t)
    decreases k
  {
    if k == 0 {
    } else {
      AdvanceByFrame(Advance(t).t, k - 1);
    }
  }

  lemma {:induction false} AdvanceByBase<P>(t: Tracker<P>, k: nat)
    requires t.expected.Some?
    ensures AdvanceBy(t, k).t.expected == Some(Wrap(t.expected.value + k))
    decreases k
  {
    if k == 0 {
    } else {
      var e: int := t.expected.value;
      AdvanceByBase(Advance(t).t, k - 1);
      WrapPlus(e + 1, k - 1);
    }
  }

  lemma AdvanceByPlus<P>(t: Tracker<P>, k: nat)
    requires t.expected.Some? && k <= MODULUS
    ensures AdvanceBy(t, k).t.expected == Some(Plus(t.expected.value, k))
  {
    AdvanceByBase(t, k);
    PlusIsWrap(t.expected.value, k);
  }

  /** After fewer than a full turn, exactly the numbers the base did not pass are buffered. */
  lemma {:induction false} AdvanceByPending<P>(t: Tracker<P>, k: nat)
    requires t.expected.Some? && k <= MODULUS
    ensures AdvanceBy(t, k).t.pending == map s | s in t.pending && Dist(s, t.expected.value) >= k :: t.pending[s]
    decreases k
  {
    hide Dist, Next;
    var e := t.expected.value;
    forall s ensures Dist(s, e) == 0 <==> s == e
             ensures s != e ==> Dist(s, Next(e)) == Dist(s, e) - 1
    {
      DistNext(s, e);
    }
    if k == 0 {
    } else {
      var next := Advance(t).t;
      AdvanceByPending(next, k - 1);
      assert next.pending == map s | s in t.pending && s != e :: t.pending[s];
    }
  }

  lemma {:induction false} AdvanceBySplit<P>(t: Tracker<P>, a: nat, b: nat)
    requires t.expected.Some?
    ensures var first := AdvanceBy(t, a);
            var second := AdvanceBy(first.t, b);
            AdvanceBy(t, a + b) == Step(second.t, first.out + second.out)
    decreases a
  {
    if a == 0 {
    } else {
      AdvanceBySplit(Advance(t).t, a - 1, b);
    }
  }

  lemma {:induction false} DrainIsAdvance<P>(t: Tracker<P>) returns (k: nat)
    requires t.expected.Some?
    ensures Drain(t) == AdvanceBy(t, k)
    ensures Drain(t).t.expected.value !in Drain(t).t.pending
    ensures k <= |t.pending|
    decreases |t.pending|
  {
    k := 0;
    if t.expected.value !in t.pending {
    } else {
      AdvanceDecreases(t);
      k := DrainIsAdvance(Advance(t).t);
      k := k + 1;
    }
  }

  lemma {:induction false} ShrinkIsAdvance<P>(t: Tracker<P>, window: nat, ahead: int) returns (k: nat)
    requires t.expected.Some?
    ensures Shrink(t, window, ahead) == AdvanceBy(t, k)
    decreases |t.pending|, Remaining(t)
  {
    k := 0;
    if t.pending == map[] || (ahead < window && |t.pending| <= window) {
    } else {
      ShrinkStep(t, window, ahead, []);
      k := ShrinkIsAdvance(Advance(t).t, window, ahead - 1);
      k := k + 1;
    }
  }

  lemma {:induction false} FlushIsAdvance<P>(t: Tracker<P>) returns (k: nat)
    requires t.expected.Some?
    ensures Flush(t) == AdvanceBy(t, k)
    decreases |t.pending|, Remaining(t)
  {
    k := 0;
    if t.pending == map[] {
    } else {
      AdvanceDecreases(t);
      k := FlushIsAdvance(Advance(t).t);
      k := k + 1;
    }
  }

  lemma FurthestAfterAdvance<P>(t: Tracker<P>, d: u32)
    requires t.expected.Some? && IsFurthest(t.pending, t.expected.value, d)
    ensures d == 0 ==> Advance(t).t.pending == map[]
    ensures d > 0 ==> IsFurthest(Advance(t).t.pending, Next(t.expected.value), d - 1)
  {
    hide Dist, Next, Remaining;
    var e := t.expected.value;
    var next := Advance(t).t;
    AdvanceDecreases(t);
    forall s ensures Dist(s, e) == 0 <==> s == e
             ensures s != e ==> Dist(s, Next(e)) == Dist(s, e) - 1
    {
      DistNext(s, e);
    }
    if d > 0 {
      var s :| s in t.pending && Dist(s, e) == d;
      assert s in next.pending && Dist(s, Next(e)) == d - 1;
    } else {
      assert forall s :: s !in next.pending;
    }
  }

  /** Flushing stops right after the furthest buffered number, so its cost is that distance. */
  lemma {:induction false} FlushLength<P>(t: Tracker<P>, d: u32)
    requires t.expected.Some? && IsFurthest(t.pending, t.expected.value, d)
    ensures Flush(t) == AdvanceBy(t, d + 1)
    decreases d
  {
    hide IsFurthest, Remaining, Flush, Dist, Next;
    var next := Advance(t).t;
    FurthestUnique(t.pending, t.expected.value, d);
    FlushStep(t, []);
    NothingFirst(Flush(t));
    FurthestAfterAdvance(t, d);
    if d == 0 {
      assert Flush(next) == AdvanceBy(next, 0);
    } else {
      FlushLength(next, d - 1);
    }
  }

  /**
   Measured once and lowered by one a step, `ahead` stays the exact furthest distance. Distinct
   distances up to it leave no room for more than `window` datagrams once it is below the
   window, so the size test never acts alone: the base moves exactly `ahead - window + 1`.
   */
  lemma {:induction false} ShrinkLength<P>(t: Tracker<P>, window: nat, ahead: u32)
    requires t.expected.Some? && window >= 1
    requires IsFurthest(t.pending, t.expected.value, ahead)
    ensures Shrink(t, window, ahead) == AdvanceBy(t, if ahead >= window then ahead - window + 1 else 0)
    decreases ahead
  {
    hide IsFurthest, Remaining, Shrink, Dist, Next;
    FurthestUnique(t.pending, t.expected.value, ahead);
    if ahead < window {
      FewerThanWindow(t, window, ahead);
      LoopsStop(t, window, ahead);
    } else {
      FurthestAfterAdvance(t, ahead);
      ShrinkStep(t, window, ahead, []);
      NothingFirst(Shrink(t, window, ahead));
      ShrinkLength(Advance(t).t, window, ahead - 1);
    }
  }

  lemma FewerThanWindow<P>(t: Tracker<P>, window: nat, ahead: u32)
    requires t.expected.Some? && IsFurthest(t.pending, t.expected.value, ahead) && ahead < window
    ensures |t.pending| <= window
  {
    assert |t.pending| == |t.pending.Keys|;
    Pigeonhole(t.pending.Keys, t.expected.value, ahead + 1);
  }

  /** An early arrival is buffered, then the base moves exactly far enough to fit the window. */
  lemma FeedEarly<P>(t: Tracker<P>, window: nat, payload: P, s: u32, furthest: u32)
    requires window >= 1 && t.expected.Some? && s !in t.pending && s !in t.seenSet
    requires 0 < Dist(s, t.expected.value) < INTERLEAVE_GAP_FLOOR
    requires IsFurthest(t.pending[s := payload], t.expected.value, furthest)
    ensures Feed(t, window, payload, s, false) ==
            AdvanceBy(Buffer(t, payload, s), if furthest >= window then furthest - window + 1 else 0)
  {
    var b := Buffer(t, payload, s);
    FurthestUnique(b.pending, t.expected.value, furthest);
    ShrinkLength(b, window, furthest);
  }

  // ---------- Runs ----------

  datatype Input<P> = Datagram(payload: P, s: u32, restart: bool) | EndOfStream

  /** Everything buffered lies ahead of the base, inside the window and below the switch floor. */
  ghost predicate Within<P>(t: Tracker<P>, window: int) {
    && t.Valid()
    && (t.expected.Some? ==>
          forall s :: s in t.pending ==>
            Dist(s, t.expected.value) < window && Dist(s, t.expected.value) < INTERLEAVE_GAP_FLOOR)
  }

  /** The datagram expected next arrives although a copy of it is still in the buffer. */
  predicate RepeatsAtBase<P>(t: Tracker<P>, s: u32, restart: bool) {
    !restart && t.expected == Some(s) && s in t.pending
  }

  /** Where a numbering began: after how many payloads, at what ledger, on which number. */
  datatype Cut = Cut(index: nat, ledger: nat, position: int)

  /** The tracker after some inputs, with what a bystander would have written down. */
  datatype History<P> = History(
    t: Tracker<P>,
    out: seq<P>,
    fed: nat,
    dropped: nat,   // buffered datagrams thrown away by a restart or a stream switch
    cuts: seq<Cut>, // where each numbering began, set by the first datagram or afresh
    repeats: nat,   // datagrams that repeated a buffered number at the base
    within: bool,   // the buffer was inside the window after every input
    origin: int)    // position `n` of the ledger is number Wrap(origin + n)

  function OriginAfter<P>(t: Tracker<P>, s: u32, restart: bool, origin: int): int {
    if Rebaselines(t, s, restart) then s - Ledger(t) else origin
  }

  ghost function Apply<P>(window: int, h: History<P>, input: Input<P>): History<P> {
    match input
    case EndOfStream =>
      var step := Flush(h.t);
      h.(t := step.t, out := h.out + step.out, within := h.within && Within(step.t, window))
    case Datagram(payload, s, restart) =>
      var step := Feed(h.t, window, payload, s, restart);
      var anew := Rebaselines(h.t, s, restart);
      History(step.t, h.out + step.out, h.fed + 1,
              h.dropped + (if anew then |h.t.pending| else 0),
              h.cuts + (if anew then [Cut(|h.out|, Ledger(h.t), s)] else []),
              h.repeats + (if RepeatsAtBase(h.t, s, restart) then 1 else 0),
              h.within && Within(step.t, window),
              OriginAfter(h.t, s, restart, h.origin))
  }

  function Start<P>(): History<P> {
    History(Fresh(), [], 0, 0, [], 0, true, 0)
  }

  ghost function Fold<S, I>(f: (S, I) -> S, start: S, inputs: seq<I>): S
    decreases |inputs|
  {
    if inputs == [] then start
    else f(Fold(f, start, inputs[..|inputs| - 1]), inputs[|inputs| - 1])
  }

  /** What the start satisfies and every input keeps holds of every run. */
  lemma {:induction false} FoldInduction<S, I>(f: (S, I) -> S, start: S, inputs: seq<I>, inv: S -> bool)
    requires inv(start)
    requires forall x, i :: 0 <= i < |inputs| && inv(x) ==> inv(f(x, inputs[i]))
    ensures inv(Fold(f, start, inputs))
    decreases |inputs|
  {
    if inputs == [] {
    } else {
      var before := inputs[..|inputs| - 1];
      forall x, i | 0 <= i < |before| && inv(x) ensures inv(f(x, before[i])) {
        assert before[i] == inputs[i];
      }
      FoldInduction(f, start, before, inv);
    }
  }

  ghost function Run<P>(window: int, inputs: seq<Input<P>>): History<P> {
    Fold((h, input) => Apply(window, h, input), Start(), inputs)
  }

  lemma RunLast<P>(window: int, inputs: seq<Input<P>>, last: Input<P>)
    ensures Run(window, inputs + [last]) == Apply(window, Run(window, inputs), last)
  {
    assert (inputs + [last])[..|inputs|] == inputs;
  }

  lemma RunNothing<P>(window: int, inputs: seq<Input<P>>)
    requires inputs == []
    ensures Run(window, inputs) == Start()
  {
  }

  // ---------- The ledger ----------

  /** Every datagram fed is delivered, dropped as late, buffered or thrown away. */
  ghost predicate Balanced<P>(h: History<P>) {
    && |h.out| == h.t.received
    && h.fed == h.t.received + h.t.dups + |h.t.pending| + h.dropped
    && h.t.dups == h.t.reordered + h.t.trueDups
  }

  /** The base stands where the ledger says. */
  ghost predicate Synced<P>(t: Tracker<P>, origin: int) {
    t.expected.Some? ==> t.expected.value == Wrap(origin + Ledger(t))
  }

  lemma AdvanceKeepsSync<P>(t: Tracker<P>, k: nat, origin: int)
    requires t.expected.Some? && Synced(t, origin)
    ensures Synced(AdvanceBy(t, k).t, origin)
  {
    AdvanceByCounts(t, k);
    AdvanceByBase(t, k);
    WrapPlus(origin + Ledger(t), k);
  }

  /** Delivering `s` and draining what follows it, from a tracker about to be rebased. */
  lemma DeliverKeeps<P>(t: Tracker<P>, payload: P, s: u32, origin: int)
    requires Wrap(origin + Ledger(t)) == s
    ensures var step := Deliver(t, payload, s);
            && Synced(step.t, origin)
            && |step.out| == step.t.received - t.received
            && step.t.received + |step.t.pending| == t.received + 1 + |t.pending|
            && (step.t.dups, step.t.reordered, step.t.trueDups) == (t.dups, t.reordered, t.trueDups)
  {
    hide Drain, AdvanceBy;
    var rebased := Rebase(t, s);
    WrapNext(origin + Ledger(t));
    var k := DrainIsAdvance(rebased);
    AdvanceByCounts(rebased, k);
    AdvanceByFrame(rebased, k);
    AdvanceKeepsSync(rebased, k, origin);
  }

  lemma EnforceKeeps<P>(t: Tracker<P>, window: nat, origin: int)
    requires t.expected.Some? && Synced(t, origin)
    ensures var step := Enforce(t, window);
            && Synced(step.t, origin)
            && |step.out| == step.t.received - t.received
            && step.t.received + |step.t.pending| == t.received + |t.pending|
            && (step.t.dups, step.t.reordered, step.t.trueDups) == (t.dups, t.reordered, t.trueDups)
  {
    if t.pending != map[] {
      var k := ShrinkIsAdvance(t, window, Furthest(t.pending, t.expected.value));
      AdvanceByCounts(t, k);
      AdvanceByFrame(t, k);
      AdvanceKeepsSync(t, k, origin);
    }
  }

  /** What one datagram adds to the accounts. */
  ghost predicate Accounted<P>(t: Tracker<P>, step: Step<P>, anew: bool) {
    && |step.out| == step.t.received - t.received
    && step.t.received + step.t.dups + |step.t.pending|
       == t.received + t.dups + 1 + (if anew then 0 else |t.pending|)
    && step.t.dups - t.dups == step.t.reordered - t.reordered + step.t.trueDups - t.trueDups
  }

  lemma TrackSynced<P>(t: Tracker<P>, s: u32, restart: bool, origin: int)
    requires Synced(t, origin)
    ensures Synced(Track(t, s, restart).0, OriginAfter(t, s, restart, origin))
  {
    if Rebaselines(t, s, restart) {
      WrapNext(s);
    } else {
      var gap := Dist(s, t.expected.value);
      WrapPlus(origin + Ledger(t), gap);
      WrapNext(origin + Ledger(t) + gap);
      assert s == Wrap(t.expected.value + gap);
    }
  }

  lemma TrackKeeps<P>(t: Tracker<P>, payload: P, s: u32, restart: bool, origin: int)
    requires Synced(t, origin) && t.pending == map[]
    ensures var step := Feed(t, 0, payload, s, restart);
            && Accounted(t, step, Rebaselines(t, s, restart)) && step.t.pending == map[]
            && Synced(step.t, OriginAfter(t, s, restart, origin))
  {
    TrackSynced(t, s, restart, origin);
  }

  lemma BufferFields<P>(t: Tracker<P>, payload: P, s: u32)
    requires s !in t.pending
    ensures var b := Buffer(t, payload, s);
            && b.pending == t.pending[s := payload]
            && |b.pending| == |t.pending| + 1
            && b == t.(seen := b.seen, seenSet := b.seenSet, pending := b.pending)
  {
    assert Buffer(t, payload, s).pending.Keys == t.pending.Keys + {s};
  }

  lemma BufferKeeps<P>(t: Tracker<P>, window: nat, payload: P, s: u32, origin: int)
    requires t.expected.Some? && Synced(t, origin) && s !in t.pending
    ensures var step := Enforce(Buffer(t, payload, s), window);
            Accounted(t, step, false) && Synced(step.t, origin)
  {
    var buffered := Buffer(t, payload, s);
    BufferFields(t, payload, s);
    EnforceKeeps(buffered, window, origin);
  }

  lemma FeedKeeps<P>(t: Tracker<P>, window: nat, payload: P, s: u32, restart: bool, origin: int)
    requires window > 0 && t.Valid() && Synced(t, origin)
    ensures var step := Feed(t, window, payload, s, restart);
            && Accounted(t, step, Rebaselines(t, s, restart))
            && Synced(step.t, OriginAfter(t, s, restart, origin))
  {
    hide Deliver, Enforce, Buffer;
    if Rebaselines(t, s, restart) {
      DeliverKeeps(Cleared(t, restart), payload, s, s - Ledger(t));
    } else if s == t.expected.value {
      DeliverKeeps(t, payload, s, origin);
    } else if Dist(s, t.expected.value) < HALF && s !in t.pending && s !in t.seenSet {
      BufferKeeps(t, window, payload, s, origin);
    }
  }

  ghost predicate Accounts<P>(h: History<P>, window: int) {
    && h.t.Valid() && Balanced(h) && Synced(h.t, h.origin)
    && (window <= 0 ==> h.t.pending == map[])
  }

  lemma ApplyKeeps<P>(window: int, h: History<P>, input: Input<P>)
    requires Accounts(h, window)
    ensures Accounts(Apply(window, h, input), window)
  {
    match input
    case Datagram(payload, s, restart) =>
      if window <= 0 {
        TrackKeeps(h.t, payload, s, restart, h.origin);
      } else {
        FeedKeeps(h.t, window, payload, s, restart, h.origin);
      }
    case EndOfStream =>
      if h.t.expected.Some? {
        var k := FlushIsAdvance(h.t);
        AdvanceByCounts(h.t, k);
        AdvanceByFrame(h.t, k);
        AdvanceKeepsSync(h.t, k, h.origin);
      }
  }

  /** Over every run, whatever is fed in whatever order, the counters account for everything. */
  lemma LedgerConservation<P>(window: int, inputs: seq<Input<P>>)
    ensures Accounts(Run(window, inputs), window)
  {
    var inv := (h: History<P>) => Accounts(h, window);
    forall h: History<P>, i | 0 <= i < |inputs| && inv(h) ensures inv(Apply(window, h, inputs[i])) {
      ApplyKeeps(window, h, inputs[i]);
    }
    FoldInduction((h, input) => Apply(window, h, input), Start(), inputs, inv);
  }

  predicate AnyDatagram<P>(inputs: seq<Input<P>>) {
    exists i :: 0 <= i < |inputs| && inputs[i].Datagram?
  }

  /** How many datagrams after the first one ask for a restart. */
  function RestartsIn<P>(inputs: seq<Input<P>>): nat {
    if inputs == [] then 0
    else
      var front, last := inputs[..|inputs| - 1], inputs[|inputs| - 1];
      RestartsIn(front) + (if last.Datagram? && last.restart && AnyDatagram(front) then 1 else 0)
  }

  /** Every numbering began with the first datagram, with one that asks for a restart, or with a switch of streams. */
  lemma {:induction false} CutsCounted<P>(window: int, inputs: seq<Input<P>>)
    ensures var h := Run(window, inputs);
            && (h.t.expected.Some? <==> AnyDatagram(inputs))
            && h.t.restarts == RestartsIn(inputs)
            && |h.cuts| == h.t.restarts + h.t.switches + (if h.t.expected.Some? then 1 else 0)
    decreases |inputs|
  {
    hide Run;
    if inputs == [] {
      RunNothing(window, inputs);
    } else {
      var front, last := inputs[..|inputs| - 1], inputs[|inputs| - 1];
      assert inputs == front + [last];
      CutsCounted(window, front);
      RunLast(window, front, last);
      OneCut(window, Run(window, front), last);
      OneMoreInput(front, last);
    }
  }

  lemma OneMoreInput<P>(front: seq<Input<P>>, last: Input<P>)
    ensures AnyDatagram(front + [last]) <==> AnyDatagram(front) || last.Datagram?
  {
    var all := front + [last];
    assert all[|front|] == last && forall i :: 0 <= i < |front| ==> all[i] == front[i];
  }

  lemma EnforceFrame<P>(t: Tracker<P>, window: nat)
    requires t.expected.Some?
    ensures SameRest(t, Enforce(t, window).t)
  {
    if t.pending != map[] {
      var k := ShrinkIsAdvance(t, window, Furthest(t.pending, t.expected.value));
      AdvanceByFrame(t, k);
    }
  }

  lemma DrainFrame<P>(t: Tracker<P>)
    requires t.expected.Some?
    ensures SameRest(t, Drain(t).t)
  {
    var k := DrainIsAdvance(t);
    AdvanceByFrame(t, k);
  }

  lemma FlushFrame<P>(t: Tracker<P>)
    ensures SameRest(t, Flush(t).t)
  {
    if t.expected.Some? {
      var k := FlushIsAdvance(t);
      AdvanceByFrame(t, k);
    }
  }

  lemma OneCut<P>(window: int, h: History<P>, input: Input<P>)
    ensures var next := Apply(window, h, input);
            && (next.t.expected.Some? <==> h.t.expected.Some? || input.Datagram?)
            && next.t.restarts == h.t.restarts +
                                  (if input.Datagram? && input.restart && h.t.expected.Some? then 1 else 0)
            && |next.cuts| - next.t.restarts - next.t.switches ==
               |h.cuts| - h.t.restarts - h.t.switches + (if input.Datagram? && h.t.expected.None? then 1 else 0)
  {
    hide Drain, Enforce, Flush, MarkSeen;
    match input
    case EndOfStream => FlushFrame(h.t);
    case Datagram(payload, s, restart) =>
      CutFed(window, h.t, payload, s, restart);
  }

  lemma CutFed<P>(window: int, t: Tracker<P>, payload: P, s: u32, restart: bool)
    ensures var next := Feed(t, window, payload, s, restart).t;
            && next.restarts == t.restarts + (if restart && t.expected.Some? then 1 else 0)
            && next.switches == t.switches + (if !restart && SwitchesStream(t, s) then 1 else 0)
  {
    hide Drain, Enforce;
    if window > 0 {
      if Rebaselines(t, s, restart) {
        DrainFrame(Rebase(Cleared(t, restart), s));
      } else if s == t.expected.value {
        DrainFrame(Rebase(t, s));
      } else {
        EnforceFrame(Buffer(t, payload, s), window);
      }
    }
  }

  // ---------- The memory of recent numbers ----------

  /** The queue and the set hold the same numbers, each once, at most the window of them. */
  ghost predicate SeenOk<P>(t: Tracker<P>) {
    && |t.seen| <= 8192
    && (forall i, j :: 0 <= i < j < |t.seen| ==> t.seen[i] != t.seen[j])
    && (forall s :: s in t.seenSet <==> s in t.seen)
  }

  lemma MarkSeenOk<P>(t: Tracker<P>, s: u32)
    requires SeenOk(t)
    ensures SeenOk(MarkSeen(t, s)) && s in MarkSeen(t, s).seenSet
  {
    var m := MarkSeen(t, s);
    if s !in t.seenSet {
      forall x ensures x in m.seenSet <==> x in m.seen {
        if |t.seen| == SEEN_WINDOW {
          assert t.seen == [t.seen[0]] + t.seen[1..];
        }
      }
    }
  }

  /** The only ways the memory ever changes. */
  predicate SeenStep<P>(t: Tracker<P>, t': Tracker<P>, s: u32) {
    || (t'.seen == t.seen && t'.seenSet == t.seenSet)
    || (t'.seen == MarkSeen(t, s).seen && t'.seenSet == MarkSeen(t, s).seenSet)
  }

  lemma FeedSeen<P>(t: Tracker<P>, window: int, payload: P, s: u32, restart: bool)
    ensures SeenStep(t, Feed(t, window, payload, s, restart).t, s)
  {
    if window > 0 {
      if Rebaselines(t, s, restart) || s == t.expected.value {
        var rebased := Rebase(if Rebaselines(t, s, restart) then Cleared(t, restart) else t, s);
        var k := DrainIsAdvance(rebased);
        AdvanceByFrame(rebased, k);
      } else if Dist(s, t.expected.value) < HALF && s !in t.pending && s !in t.seenSet {
        var buffered := Buffer(t, payload, s);
        BufferFields(t, payload, s);
        var k := ShrinkIsAdvance(buffered, window, Furthest(buffered.pending, buffered.expected.value));
        AdvanceByFrame(buffered, k);
      }
    }
  }

  lemma ApplySeen<P>(window: int, h: History<P>, input: Input<P>)
    requires SeenOk(h.t)
    ensures SeenOk(Apply(window, h, input).t)
  {
    match input
    case Datagram(payload, s, restart) =>
      FeedSeen(h.t, window, payload, s, restart);
      MarkSeenOk(h.t, s);
    case EndOfStream =>
      if h.t.expected.Some? {
        var k := FlushIsAdvance(h.t);
        AdvanceByFrame(h.t, k);
      }
  }

  lemma SeenConsistent<P>(window: int, inputs: seq<Input<P>>)
    ensures SeenOk(Run(window, inputs).t)
  {
    var inv := (h: History<P>) => SeenOk(h.t);
    forall h: History<P>, i | 0 <= i < |inputs| && inv(h) ensures inv(Apply(window, h, inputs[i])) {
      ApplySeen(window, h, inputs[i]);
    }
    FoldInduction((h, input) => Apply(window, h, input), Start(), inputs, inv);
  }
}
