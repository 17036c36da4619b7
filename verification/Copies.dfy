/** Copies of datagrams: what the tracker takes for one, and that such a copy does nothing but count. */
module Copies {
  import opened Circular
  import opened TrackerModel
  import opened TrackerRuns
  import opened Resequencing
  import opened Lossless
  import opened LossAndReordering
  import opened Sequences

  /** A number that is remembered, or ahead and buffered; not the one expected, and no fresh start. */
  predicate IsCopy<P>(t: Tracker<P>, window: int, s: u32, restart: bool) {
    && !restart && t.expected.Some?
    && var ahead := Dist(s, t.expected.value);
       if ahead >= 0x8000_0000 then s in t.seenSet
       else window > 0 && 0 < ahead < 0x100_0000 && (s in t.pending || s in t.seenSet)
  }

  /** The tracker with `n` more copies counted. */
  function Counting<P>(t: Tracker<P>, n: nat): Tracker<P> {
    t.(dups := t.dups + n, trueDups := t.trueDups + n)
  }

  function CountingStep<P>(step: Step<P>, n: nat): Step<P> {
    Step(Counting(step.t, n), step.out)
  }

  /** A datagram changes nothing besides the count of copies if and only if it is one. */
  lemma CopyOnlyCounts<P>(t: Tracker<P>, window: int, payload: P, s: u32, restart: bool)
    ensures Feed(t, window, payload, s, restart) == Step(Counting(t, 1), []) <==> IsCopy(t, window, s, restart)
  {
    hide Drain, Enforce;
    if window > 0 && !Rebaselines(t, s, restart) && !IsCopy(t, window, s, restart) {
      EnforceFrame(Buffer(t, payload, s), window);
    }
  }

  // ---------- The count of copies decides nothing ----------

  lemma {:induction false} DrainCounting<P>(t: Tracker<P>, n: nat)
    requires t.expected.Some?
    ensures Drain(Counting(t, n)) == CountingStep(Drain(t), n)
    decreases |t.pending|
  {
    if t.expected.value !in t.pending {
    } else {
      AdvanceDecreases(t);
      assert Advance(Counting(t, n)).t == Counting(Advance(t).t, n);
      DrainCounting(Advance(t).t, n);
    }
  }

  lemma {:induction false} FlushCounting<P>(t: Tracker<P>, n: nat)
    ensures Flush(Counting(t, n)) == CountingStep(Flush(t), n)
    decreases |t.pending|, Remaining(t)
  {
    if t.pending == map[] || t.expected.None? {
    } else {
      AdvanceDecreases(t);
      assert Advance(Counting(t, n)).t == Counting(Advance(t).t, n);
      FlushCounting(Advance(t).t, n);
    }
  }

  lemma {:induction false} ShrinkCounting<P>(t: Tracker<P>, window: nat, ahead: int, n: nat)
    requires t.expected.Some?
    ensures Shrink(Counting(t, n), window, ahead) == CountingStep(Shrink(t, window, ahead), n)
    decreases |t.pending|, Remaining(t)
  {
    hide Shrink, Remaining;
    if t.pending == map[] || (ahead < window && |t.pending| <= window) {
      LoopsStop(t, window, ahead);
      LoopsStop(Counting(t, n), window, ahead);
    } else {
      ShrinkStep(t, window, ahead, []);
      ShrinkStep(Counting(t, n), window, ahead, []);
      NothingFirst(Shrink(t, window, ahead));
      NothingFirst(Shrink(Counting(t, n), window, ahead));
      assert Advance(Counting(t, n)).t == Counting(Advance(t).t, n);
      ShrinkCounting(Advance(t).t, window, ahead - 1, n);
    }
  }

  lemma EnforceCounting<P>(t: Tracker<P>, window: nat, n: nat)
    requires t.expected.Some?
    ensures Enforce(Counting(t, n), window) == CountingStep(Enforce(t, window), n)
  {
    hide Shrink;
    if t.pending != map[] {
      ShrinkCounting(t, window, Furthest(t.pending, t.expected.value), n);
    }
  }

  lemma DeliverCounting<P>(t: Tracker<P>, payload: P, s: u32, n: nat)
    ensures Deliver(Counting(t, n), payload, s) == CountingStep(Deliver(t, payload, s), n)
  {
    hide Drain;
    DrainCounting(Rebase(t, s), n);
  }

  lemma MarkCounting<P>(t: Tracker<P>, s: u32, n: nat)
    ensures MarkSeen(Counting(t, n), s) == Counting(MarkSeen(t, s), n)
  {
  }

  lemma LateCounting<P>(t: Tracker<P>, s: u32, n: nat)
    ensures Late(Counting(t, n), s) == Counting(Late(t, s), n)
  {
    hide MarkSeen;
    MarkCounting(t.(dups := t.dups + 1, reordered := t.reordered + 1), s, n);
  }

  lemma TrackCounting<P>(t: Tracker<P>, s: u32, restart: bool, n: nat)
    ensures Track(Counting(t, n), s, restart) == (Counting(Track(t, s, restart).0, n), Track(t, s, restart).1)
  {
    hide Late;
    LateCounting(t, s, n);
  }

  lemma BufferCounting<P>(t: Tracker<P>, payload: P, s: u32, n: nat)
    ensures Buffer(Counting(t, n), payload, s) == Counting(Buffer(t, payload, s), n)
  {
  }

  lemma FeedCounting<P>(t: Tracker<P>, window: int, payload: P, s: u32, restart: bool, n: nat)
    ensures Feed(Counting(t, n), window, payload, s, restart) == CountingStep(Feed(t, window, payload, s, restart), n)
  {
    hide Deliver, Enforce, Late, Track, Buffer, Dist;
    if window <= 0 {
      TrackCounting(t, s, restart, n);
    } else if Rebaselines(t, s, restart) {
      DeliverCounting(Cleared(t, restart), payload, s, n);
    } else if s == t.expected.value {
      DeliverCounting(t, payload, s, n);
    } else if Dist(s, t.expected.value) >= HALF {
      LateCounting(t, s, n);
    } else if s !in t.pending && s !in t.seenSet {
      BufferCounting(t, payload, s, n);
      BufferFields(t, payload, s);
      EnforceCounting(Buffer(t, payload, s), window, n);
    }
  }

  lemma SameCopies<P>(t: Tracker<P>, window: int, s: u32, restart: bool, n: nat)
    ensures IsCopy(Counting(t, n), window, s, restart) == IsCopy(t, window, s, restart)
  {
  }

  // ---------- Whole runs ----------

  /** A run in which `n` more copies were fed. */
  function CountingRun<P>(h: History<P>, n: nat): History<P> {
    h.(t := Counting(h.t, n), fed := h.fed + n)
  }

  lemma ApplyCounting<P>(window: int, h: History<P>, input: Input<P>, n: nat)
    ensures Apply(window, CountingRun(h, n), input) == CountingRun(Apply(window, h, input), n)
  {
    hide Feed, Flush;
    match input
    case Datagram(payload, s, restart) => FeedCounting(h.t, window, payload, s, restart, n);
    case EndOfStream => FlushCounting(h.t, n);
  }

  predicate CopyFed<P>(window: int, h: History<P>, input: Input<P>) {
    input.Datagram? && IsCopy(h.t, window, input.s, input.restart)
  }

  lemma ApplyCopy<P>(window: int, h: History<P>, input: Input<P>)
    requires CopyFed(window, h, input) && (h.within ==> Within(h.t, window))
    ensures Apply(window, h, input) == CountingRun(h, 1)
  {
    hide Feed;
    CopyOnlyCounts(h.t, window, input.payload, input.s, input.restart);
  }

  /** The inputs without those that were copies when they were fed. */
  ghost function Originals<P>(window: int, inputs: seq<Input<P>>): seq<Input<P>> {
    if inputs == [] then []
    else
      var h := Run(window, Init(inputs));
      Originals(window, Init(inputs)) + (if CopyFed(window, h, Last(inputs)) then [] else [Last(inputs)])
  }

  lemma {:induction false} OriginalsFewer<P>(window: int, inputs: seq<Input<P>>)
    ensures |Originals(window, inputs)| <= |inputs|
    decreases |inputs|
  {
    if inputs == [] {
    } else {
      OriginalsFewer(window, Init(inputs));
    }
  }

  lemma WithinSoFar<P>(window: int, inputs: seq<Input<P>>)
    ensures Run(window, inputs).within ==> Within(Run(window, inputs).t, window)
  {
    if inputs != [] {
      assert inputs == Init(inputs) + [Last(inputs)];
      RunLast(window, Init(inputs), Last(inputs));
    }
  }

  /**
   Over every run, restarts, switches and flushes included, the copies may as well not have been sent:
   without them everything is the same except how many datagrams were fed and how many of them were copies.
   */
  lemma {:induction false} CopiesOnlyCount<P>(window: int, inputs: seq<Input<P>>)
    ensures var originals := Originals(window, inputs);
            && |originals| <= |inputs|
            && Run(window, inputs) == CountingRun(Run(window, originals), |inputs| - |originals|)
    decreases |inputs|
  {
    hide Run, Apply, IsCopy;
    OriginalsFewer(window, inputs);
    if inputs == [] {
      assert Originals(window, inputs) == inputs;
    } else {
      var front, input := Init(inputs), Last(inputs);
      assert inputs == front + [input];
      OriginalsFewer(window, front);
      CopiesOnlyCount(window, front);
      RunLast(window, front, input);
      WithinSoFar(window, front);
      var h, kept := Run(window, front), Originals(window, front);
      if CopyFed(window, h, input) {
        ApplyCopy(window, h, input);
        assert Originals(window, inputs) == kept;
      } else {
        ApplyCounting(window, Run(window, kept), input, |front| - |kept|);
        RunLast(window, kept, input);
      }
    }
  }

  // ---------- Streams with copies ----------

  /** The positions without repeats, each where it came first. */
  function Firsts(us: seq<int>): seq<int> {
    if us == [] then []
    else Firsts(Init(us)) + (if Last(us) in Init(us) then [] else [Last(us)])
  }

  lemma {:induction false} FirstsOf(us: seq<int>)
    ensures forall x :: x in Firsts(us) <==> x in us
    ensures us != [] ==> Firsts(us) != [] && Firsts(us)[0] == us[0]
    decreases |us|
  {
    if us == [] {
    } else {
      FirstsOf(Init(us));
      assert us == Init(us) + [Last(us)];
    }
  }

  /** The last ones, as many as the memory has room for. */
  function Recent<T>(us: seq<T>): seq<T> {
    if |us| <= 8192 then us else us[|us| - 8192..]
  }

  function Wraps(us: seq<int>): seq<u32> {
    seq(|us|, i requires 0 <= i < |us| => Wrap(us[i]))
  }

  /** A number that is no copy is remembered. */
  lemma FeedMarks<P>(t: Tracker<P>, window: nat, payload: P, s: u32)
    requires window >= 1 && s !in t.seenSet && !IsCopy(t, window, s, false)
    ensures Feed(t, window, payload, s, false).t.seen == MarkSeen(t, s).seen
  {
    hide Drain, Enforce;
    if Rebaselines(t, s, false) || s == t.expected.value {
      var rebased := Rebase(if Rebaselines(t, s, false) then Cleared(t, false) else t, s);
      var k := DrainIsAdvance(rebased);
      AdvanceByFrame(rebased, k);
    } else if Dist(s, t.expected.value) < HALF {
      EnforceFrame(Buffer(t, payload, s), window);
    }
  }

  lemma MarkingRecent<P>(t: Tracker<P>, us: seq<int>, u: int)
    requires t.seen == Recent(Wraps(us)) && Wrap(u) !in t.seenSet
    ensures MarkSeen(t, Wrap(u)).seen == Recent(Wraps(us + [u]))
  {
    hide Wrap;
    assert Wraps(us + [u]) == Wraps(us) + [Wrap(u)];
  }

  /** A position that has not come before is taken for none that has. */
  lemma NewIsNoCopy<P>(h: History<P>, us: seq<int>, b: int, window: nat, pay: int -> P)
    requires |us| > 1 && window >= 1 && Admissible(us, window) && Follows(h, Init(us), b, window, pay)
    ensures Wrap(Last(us)) !in h.t.seenSet && !IsCopy(h.t, window, Wrap(Last(us)), false)
  {
    hide LossAndReordering.Kept, InTime, Newest, Picked, Wrap, Dist;
    AdmissibleFront(us, window);
    NewNumber(h.t.seenSet, {}, us);
    BaseFacts(Init(us), b, window);
    KeptGrows(us, b, window);
    var u := Last(us);
    if u >= b {
      DistOfPositions(u, b);
    } else {
      LateDistance(u, b);
    }
  }

  lemma ArrivalsEnds<P>(us: seq<int>, pay: int -> P)
    requires us != []
    ensures Arrivals(us, pay) == Arrivals(Init(us), pay) + [Arrival(pay, Last(us))]
    ensures Init(Arrivals(us, pay)) == Arrivals(Init(us), pay) && Last(Arrivals(us, pay)) == Arrival(pay, Last(us))
  {
    hide Wrap;
  }

  /** The memory of a stream without copies: its last numbers, in order of arrival. */
  lemma {:induction false} StreamRemembered<P>(window: nat, us: seq<int>, pay: int -> P)
    requires window >= 1 && Admissible(us, window)
    ensures Run(window, Arrivals(us, pay)).t.seen == Recent(Wraps(us))
    decreases |us|
  {
    hide Run, Follows, Admits, Feed, Wrap, Rebase, IsCopy, MarkSeen;
    ArrivalsEnds(us, pay);
    var front, u := Init(us), Last(us);
    assert us == front + [u];
    if |us| == 1 {
      FirstDatagram(window, Wrap(u), pay(u));
      FirstRebase<P>(Wrap(u));
      assert Arrivals(us, pay) == [Arrival(pay, u)];
    } else {
      AdmissibleFront(us, window);
      StreamRemembered(window, front, pay);
      var b := RunFollows(window, front, pay);
      RunLast(window, Arrivals(front, pay), Arrival(pay, u));
      var h := Run(window, Arrivals(front, pay));
      NewIsNoCopy(h, us, b, window, pay);
      FeedMarks(h.t, window, pay(u), Wrap(u));
      MarkingRecent(h.t, front, u);
    }
  }

  /**
   A repeated position that the tracker can know: ahead of the base, so still buffered, or behind it and
   among the last 8192 different ones. The base is as far on as positions were delivered or given up.
   */
  ghost predicate Recognised<P>(window: nat, before: seq<int>, u: int, pay: int -> P)
    requires before != []
  {
    var base := before[0] + Ledger(Run(window, Arrivals(before, pay)).t);
    u > base || (base - HALF <= u < base && u in Recent(Firsts(before)))
  }

  lemma BaseOfLedger<P>(h: History<P>, us: seq<int>, b: int, window: nat, pay: int -> P)
    requires us != [] && Follows(h, us, b, window, pay)
    ensures b == us[0] + Ledger(h.t)
  {
    hide LossAndReordering.Kept, Picked;
  }

  lemma RecentWraps(us: seq<int>, u: int)
    requires u in Recent(us)
    ensures Wrap(u) in Recent(Wraps(us))
  {
    hide Wrap;
    var i :| 0 <= i < |Recent(us)| && Recent(us)[i] == u;
    assert Recent(Wraps(us))[i] == Wrap(u);
  }

  /** What has arrived and is not behind the base was kept. */
  lemma AheadIsKept(us: seq<int>, b: int, window: nat, u: int)
    requires us != [] && BaseOk(us, b, window) && u in us && u >= b
    ensures u in LossAndReordering.Kept(us, window)
  {
    hide LossAndReordering.Kept, Newest;
    var i :| 0 <= i < |us| && us[i] == u;
    KeptExactly(us, window, u);
    if i > 0 {
      assert forall x :: x in us[..i] ==> x in us;
      NewestOf(us[..i]);
      NewestOf(us);
      assert InTime(us[..i], us[i], window);
    }
  }

  lemma WindowFits(us: seq<int>, window: nat)
    requires Admissible(us, window) && |us| > 1
    ensures window <= INTERLEAVE_GAP_FLOOR
  {
    hide Newest, InTime;
    assert Admits(us[..1], us[1], window);
  }

  /** A copy that can be known is taken for one. */
  lemma KnownIsCopy<P>(window: nat, us: seq<int>, u: int, pay: int -> P)
    requires window >= 1 && Admissible(us, window) && u in us
    requires var b := us[0] + Ledger(Run(window, Arrivals(us, pay)).t);
             u > b || (b - HALF <= u < b && u in Recent(us))
    ensures IsCopy(Run(window, Arrivals(us, pay)).t, window, Wrap(u), false)
  {
    hide LossAndReordering.Kept, InTime, Newest, Picked, Wrap, Dist, Run, Admits, Recent;
    var b := RunFollows(window, us, pay);
    var h := Run(window, Arrivals(us, pay));
    BaseOfLedger(h, us, b, window, pay);
    BaseFacts(us, b, window);
    if u > b {
      NewestOf(us);
      assert us[0] in us && |us| > 1;
      WindowFits(us, window);
      AheadIsKept(us, b, window, u);
      DistOfPositions(u, b);
    } else {
      LateDistance(u, b);
      StreamRemembered(window, us, pay);
      RecentWraps(us, u);
      SeenConsistent(window, Arrivals(us, pay));
    }
  }

  /** The inputs of a stream that are no copies are those of its positions without repeats. */
  lemma {:induction false} OriginalsAreFirsts<P>(window: nat, us: seq<int>, pay: int -> P)
    requires window >= 1 && us != [] && Admissible(Firsts(us), window)
    requires forall i :: 0 < i < |us| && us[i] in us[..i] ==> Recognised(window, us[..i], us[i], pay)
    ensures Originals(window, Arrivals(us, pay)) == Arrivals(Firsts(us), pay)
    decreases |us|
  {
    hide Run, Recognised, Admissible, IsCopy, Wrap;
    var front, u, inputs := Init(us), Last(us), Arrivals(us, pay);
    ArrivalsEnds(us, pay);
    assert us[..|us| - 1] == front && us[|us| - 1] == u;
    if |us| == 1 {
      FirstIsOriginal(window, us, pay);
    } else {
      FirstsOf(front);
      FirstsAdmissible(us, window);
      assert forall i :: 0 < i < |front| ==> front[..i] == us[..i] && front[i] == us[i];
      OriginalsAreFirsts(window, front, pay);
      LastIsCopyOrNot(window, us, pay);
      if u !in front {
        ArrivalsEnds(Firsts(us), pay);
        assert Init(Firsts(us)) == Firsts(front);
      }
    }
  }

  lemma FirstIsOriginal<P>(window: nat, us: seq<int>, pay: int -> P)
    requires |us| == 1
    ensures Firsts(us) == us && Originals(window, Arrivals(us, pay)) == Arrivals(us, pay)
  {
    assert Init(us) == [] && Firsts(Init(us)) == [];
    var inputs := Arrivals(us, pay);
    assert Init(inputs) == [] && inputs == [Last(inputs)];
    assert Run<P>(window, []) == Start();
  }

  lemma FirstsStep(us: seq<int>)
    requires |us| > 1
    ensures Last(us) in Init(us) ==> Firsts(us) == Firsts(Init(us))
    ensures Last(us) !in Init(us) ==>
              |Firsts(us)| > 1 && Init(Firsts(us)) == Firsts(Init(us)) && Last(Firsts(us)) == Last(us)
    ensures Firsts(Init(us)) != [] && Firsts(Init(us))[0] == us[0]
    ensures forall x :: x in Firsts(Init(us)) <==> x in Init(us)
  {
    FirstsOf(Init(us));
  }

  lemma FirstsAdmissible(us: seq<int>, window: nat)
    requires |us| > 1 && Admissible(Firsts(us), window)
    ensures Admissible(Firsts(Init(us)), window)
  {
    hide Admissible, Firsts;
    FirstsStep(us);
    if Last(us) !in Init(us) {
      AdmissibleFront(Firsts(us), window);
    }
  }

  /** The last of a stream is taken for a copy exactly if its position has come before. */
  lemma LastIsCopyOrNot<P>(window: nat, us: seq<int>, pay: int -> P)
    requires window >= 1 && |us| > 1 && Admissible(Firsts(us), window)
    requires Last(us) in Init(us) ==> Recognised(window, Init(us), Last(us), pay)
    requires Originals(window, Arrivals(Init(us), pay)) == Arrivals(Firsts(Init(us)), pay)
    ensures CopyFed(window, Run(window, Arrivals(Init(us), pay)), Arrival(pay, Last(us))) <==> Last(us) in Init(us)
  {
    hide Run, Admissible, Wrap, Originals, Recent, Firsts, IsCopy, Arrivals, Follows;
    var front, u := Init(us), Last(us);
    var firsts := Firsts(front);
    FirstsStep(us);
    FirstsAdmissible(us, window);
    CopiesOnlyCount(window, Arrivals(front, pay));
    SameCopies(Run(window, Arrivals(firsts, pay)).t, window, Wrap(u), false,
               |Arrivals(front, pay)| - |Arrivals(firsts, pay)|);
    if u in front {
      KnownIsCopy(window, firsts, u, pay);
    } else {
      var b := RunFollows(window, firsts, pay);
      NewIsNoCopy(Run(window, Arrivals(firsts, pay)), Firsts(us), b, window, pay);
    }
  }

  /**
   However datagrams are lost, reordered and repeated: as long as each repeat can be recognised, and none comes
   just when it is expected again, the stream without its repeats is delivered and counted as if they had not
   been sent, and they are the copies counted.
   */
  lemma DeliversDespiteCopies<P>(window: nat, us: seq<int>, pay: int -> P)
    requires window >= 1 && us != [] && Admissible(Firsts(us), window)
    requires forall i :: 0 < i < |us| && us[i] in us[..i] ==> Recognised(window, us[..i], us[i], pay)
    ensures var h, kept := Run(window, Arrivals(us, pay) + [EndOfStream]), LossAndReordering.Kept(Firsts(us), window);
            && h.out == Run(window, Arrivals(Firsts(us), pay) + [EndOfStream]).out
            && h.out == Picked(kept, pay, us[0], Newest(us) + 1)
            && |h.out| == h.t.received == |kept|
            && h.t.missing == Newest(us) + 1 - us[0] - |kept|
            && h.t.reordered == |Firsts(us)| - |kept| && h.t.trueDups == |us| - |Firsts(us)|
            && h.t.dups == h.t.reordered + h.t.trueDups
  {
    hide Run, Apply, Admissible, Recognised, Picked, LossAndReordering.Kept, Originals, Newest;
    var firsts, inputs := Firsts(us), Arrivals(us, pay);
    FirstsOf(us);
    NewestOf(us);
    NewestOf(firsts);
    OriginalsAreFirsts(window, us, pay);
    CopiesOnlyCount(window, inputs);
    RunLast(window, inputs, EndOfStream);
    RunLast(window, Arrivals(firsts, pay), EndOfStream);
    ApplyCounting(window, Run(window, Arrivals(firsts, pay)), EndOfStream, |us| - |firsts|);
    DeliversWhatIsInTime(window, firsts, pay);
  }
}
