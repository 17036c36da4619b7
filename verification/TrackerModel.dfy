/**
 The DGE1 sequence tracker as a value and its transitions as functions. The class
 in Dge1.dfy changes its fields step by step and is proved to follow these functions; the
 theorems of TrackerRuns.dfy and Resequencing.dfy are about them.
 */
module TrackerModel {
  import opened Circular
  import opened Wrappers

  const SEEN_WINDOW := 8192
  const INTERLEAVE_GAP_FLOOR := 0x100_0000
  const HALF := 0x8000_0000

  datatype Tracker<P> = Tracker(
    expected: Option<u32>,
    received: nat,
    missing: nat,
    dups: nat,
    reordered: nat,
    trueDups: nat,
    restarts: nat,
    switches: nat,
    seen: seq<u32>,
    seenSet: set<u32>,
    pending: map<u32, P>)
  {
    /** Nothing can be buffered before the first datagram has set the base. */
    predicate Valid() {
      expected.None? ==> pending == map[]
    }
  }

  /** A tracker and the payloads handed to the caller on the way to it. */
  datatype Step<P> = Step(t: Tracker<P>, out: seq<P>)

  /** Payloads already handed out, then the rest of a transition. */
  function Resume<P>(out: seq<P>, step: Step<P>): Step<P> {
    Step(step.t, out + step.out)
  }

  function Fresh<P>(): Tracker<P> {
    Tracker(None, 0, 0, 0, 0, 0, 0, 0, [], {}, map[])
  }

  function MarkSeen<P>(t: Tracker<P>, s: u32): Tracker<P> {
    if s in t.seenSet then t
    else if |t.seen| == SEEN_WINDOW then
      t.(seen := t.seen[1..] + [s], seenSet := t.seenSet - {t.seen[0]} + {s})
    else
      t.(seen := t.seen + [s], seenSet := t.seenSet + {s})
  }

  /** Take `s` as the newest delivered number and expect its successor. */
  function Rebase<P>(t: Tracker<P>, s: u32): Tracker<P> {
    MarkSeen(t.(expected := Some(Next(s)), received := t.received + 1), s)
  }

  /** A number behind the base: a copy if it was seen, otherwise a reordered arrival. */
  function Late<P>(t: Tracker<P>, s: u32): Tracker<P> {
    if s in t.seenSet then t.(dups := t.dups + 1, trueDups := t.trueDups + 1)
    else MarkSeen(t.(dups := t.dups + 1, reordered := t.reordered + 1), s)
  }

  /** The unbuffered decision: the new tracker and whether the datagram is delivered. */
  function Track<P>(t: Tracker<P>, s: u32, restart: bool): (Tracker<P>, bool) {
    if restart || t.expected.None? then
      (Rebase(if t.expected.Some? then t.(restarts := t.restarts + 1) else t, s), true)
    else
      var gap := Dist(s, t.expected.value);
      if gap == 0 then (Rebase(t, s), true)
      else if gap < HALF then
        if gap >= INTERLEAVE_GAP_FLOOR then (Rebase(t.(switches := t.switches + 1), s), true)
        else (Rebase(t.(missing := t.missing + gap), s), true)
      else (Late(t, s), false)
  }

  /** Move the base by one: hand out the payload buffered there, or count it missing. */
  function Advance<P>(t: Tracker<P>): Step<P>
    requires t.expected.Some?
  {
    var e := t.expected.value;
    var next := t.(expected := Some(Next(e)));
    if e in t.pending then
      Step(next.(pending := t.pending - {e}, received := t.received + 1), [t.pending[e]])
    else
      Step(next.(missing := t.missing + 1), [])
  }

  function AdvanceBy<P>(t: Tracker<P>, k: nat): (r: Step<P>)
    requires t.expected.Some?
    ensures r.t.expected.Some?
    decreases k
  {
    if k == 0 then Step(t, [])
    else
      Resume(Advance(t).out, AdvanceBy(Advance(t).t, k - 1))
  }

  /** Some buffered number; which one does not matter, it only measures progress. */
  ghost function Witness<P>(pending: map<u32, P>): (s: u32)
    ensures pending != map[] ==> s in pending
  {
    if pending != map[] then
      assert exists s :: s in pending by { assert pending.Keys != {}; }
      var s :| s in pending; s
    else 0
  }

  /** The loops below either shrink the buffer or bring the base closer to the witness. */
  ghost function Remaining<P>(t: Tracker<P>): nat {
    if t.expected.Some? then Dist(Witness(t.pending), t.expected.value) else 0
  }

  lemma RemovalSize<P>(m: map<u32, P>, e: u32)
    ensures e in m ==> |m - {e}| == |m| - 1
    ensures e !in m ==> m - {e} == m
  {
    assert (m - {e}).Keys == m.Keys - {e};
  }

  lemma AdvanceDecreases<P>(t: Tracker<P>)
    requires t.expected.Some? && t.pending != map[]
    ensures Advance(t).t.pending == t.pending - {t.expected.value}
    ensures t.expected.value in t.pending ==> |Advance(t).t.pending| == |t.pending| - 1
    ensures t.expected.value !in t.pending ==>
              Advance(t).t.pending == t.pending && Remaining(Advance(t).t) < Remaining(t)
  {
    RemovalSize(t.pending, t.expected.value);
  }

  /** Hand out the contiguous run buffered at the base. */
  function Drain<P>(t: Tracker<P>): (r: Step<P>)
    requires t.expected.Some?
    ensures r.t.expected.Some?
    decreases |t.pending|
  {
    if t.expected.value in t.pending then
      AdvanceDecreases(t);
      Resume(Advance(t).out, Drain(Advance(t).t))
    else Step(t, [])
  }

  /** Advance until the buffer is empty. */
  function Flush<P>(t: Tracker<P>): (r: Step<P>)
    ensures t.Valid() ==> r.t.Valid() && r.t.pending == map[]
    ensures r.t.expected.Some? <==> t.expected.Some?
    ensures t.pending == map[] ==> r == Step(t, [])
    decreases |t.pending|, Remaining(t)
  {
    if t.pending == map[] || t.expected.None? then Step(t, [])
    else
      AdvanceDecreases(t);
      Resume(Advance(t).out, Flush(Advance(t).t))
  }

  /** Advance while `ahead`, lowered by one a step, reaches the window or too much is buffered. */
  function Shrink<P>(t: Tracker<P>, window: nat, ahead: int): (r: Step<P>)
    requires t.expected.Some?
    ensures r.t.expected.Some?
    decreases |t.pending|, Remaining(t)
  {
    if t.pending == map[] || (ahead < window && |t.pending| <= window) then Step(t, [])
    else
      AdvanceDecreases(t);
      Resume(Advance(t).out, Shrink(Advance(t).t, window, ahead - 1))
  }

  lemma ResumeTwice<P>(a: seq<P>, b: seq<P>, step: Step<P>)
    ensures Resume(a, Resume(b, step)) == Resume(a + b, step)
  {
    assert a + (b + step.out) == a + b + step.out;
  }

  lemma NothingFirst<P>(step: Step<P>)
    ensures Resume([], step) == step
  {
    assert [] + step.out == step.out;
  }

  /** One turn of the loop that `Drain` describes. */
  lemma DrainStep<P>(t: Tracker<P>, out: seq<P>)
    requires t.expected.Some? && t.expected.value in t.pending
    ensures Resume(out, Drain(t)) == Resume(out + Advance(t).out, Drain(Advance(t).t))
    ensures |Advance(t).t.pending| == |t.pending| - 1 && Advance(t).t.expected.Some?
  {
    hide Resume;
    AdvanceDecreases(t);
    ResumeTwice(out, Advance(t).out, Drain(Advance(t).t));
  }

  /** Each turn of the two loops below makes this pair smaller. */
  ghost predicate Closer<P>(t: Tracker<P>, t': Tracker<P>) {
    || |t'.pending| < |t.pending|
    || (|t'.pending| == |t.pending| && Remaining(t') < Remaining(t))
  }

  /** One turn of the loop that `Flush` describes. */
  lemma FlushStep<P>(t: Tracker<P>, out: seq<P>)
    requires t.expected.Some? && t.pending != map[]
    ensures Resume(out, Flush(t)) == Resume(out + Advance(t).out, Flush(Advance(t).t))
    ensures Closer(t, Advance(t).t) && Advance(t).t.expected.Some?
  {
    hide Resume;
    AdvanceDecreases(t);
    ResumeTwice(out, Advance(t).out, Flush(Advance(t).t));
  }

  /** One turn of the loop that `Shrink` describes. */
  lemma ShrinkStep<P>(t: Tracker<P>, window: nat, ahead: int, out: seq<P>)
    requires t.expected.Some? && t.pending != map[] && (ahead >= window || |t.pending| > window)
    ensures Resume(out, Shrink(t, window, ahead)) ==
            Resume(out + Advance(t).out, Shrink(Advance(t).t, window, ahead - 1))
    ensures Closer(t, Advance(t).t) && Advance(t).t.expected.Some?
  {
    hide Resume;
    AdvanceDecreases(t);
    ResumeTwice(out, Advance(t).out, Shrink(Advance(t).t, window, ahead - 1));
  }

  /** When the loops stop. */
  lemma LoopsStop<P>(t: Tracker<P>, window: nat, ahead: int)
    requires t.expected.Some?
    ensures t.expected.value !in t.pending ==> Drain(t) == Step(t, [])
    ensures t.pending == map[] || (ahead < window && |t.pending| <= window) ==> Shrink(t, window, ahead) == Step(t, [])
  {
  }

  /** The distance of the buffered number furthest ahead of `e`. */
  ghost predicate IsFurthest<P>(pending: map<u32, P>, e: u32, d: u32) {
    && (exists s :: s in pending && Dist(s, e) == d)
    && (forall s :: s in pending ==> Dist(s, e) <= d)
  }

  lemma {:induction false} FurthestExists(s: set<u32>, e: u32) returns (m: u32)
    requires s != {}
    ensures m in s && forall x :: x in s ==> Dist(x, e) <= Dist(m, e)
    decreases |s|
  {
    m :| m in s;
    if s == {m} {
    } else {
      var other := FurthestExists(s - {m}, e);
      m := if Dist(other, e) > Dist(m, e) then other else m;
    }
  }

  ghost function Furthest<P>(pending: map<u32, P>, e: u32): (d: u32)
    requires pending != map[]
    ensures IsFurthest(pending, e, d)
  {
    assert exists d :: IsFurthest(pending, e, d) by {
      assert pending.Keys != {};
      var m := FurthestExists(pending.Keys, e);
      assert m in pending && IsFurthest(pending, e, Dist(m, e));
    }
    var d :| IsFurthest(pending, e, d); d
  }

  lemma FurthestUnique<P>(pending: map<u32, P>, e: u32, d: u32)
    requires IsFurthest(pending, e, d)
    ensures pending != map[] && d == Furthest(pending, e)
  {
  }

  ghost function Enforce<P>(t: Tracker<P>, window: nat): (r: Step<P>)
    requires t.expected.Some?
    ensures r.t.expected.Some?
  {
    if t.pending == map[] then Step(t, [])
    else Shrink(t, window, Furthest(t.pending, t.expected.value))
  }

  function Deliver<P>(t: Tracker<P>, payload: P, s: u32): (r: Step<P>)
    ensures r.t.expected.Some?
  {
    var step := Drain(Rebase(t, s));
    Step(step.t, [payload] + step.out)
  }

  predicate SwitchesStream<P>(t: Tracker<P>, s: u32) {
    t.expected.Some? && INTERLEAVE_GAP_FLOOR <= Dist(s, t.expected.value) < HALF
  }

  /** The datagrams that start the numbering afresh instead of continuing it. */
  predicate Rebaselines<P>(t: Tracker<P>, s: u32, restart: bool) {
    restart || t.expected.None? || SwitchesStream(t, s)
  }

  /** The tracker with its buffer thrown away and the reason counted. */
  function Cleared<P>(t: Tracker<P>, restart: bool): Tracker<P> {
    if t.expected.None? then t
    else if restart then t.(restarts := t.restarts + 1, pending := map[])
    else t.(switches := t.switches + 1, pending := map[])
  }

  /** The resequencing decision: the new tracker and the payloads it releases. */
  ghost function Feed<P>(t: Tracker<P>, window: int, payload: P, s: u32, restart: bool): (r: Step<P>)
    ensures r.t.expected.Some?
  {
    if window <= 0 then
      var (t', deliver) := Track(t, s, restart);
      Step(t', if deliver then [payload] else [])
    else if Rebaselines(t, s, restart) then Deliver(Cleared(t, restart), payload, s)
    else if s == t.expected.value then Deliver(t, payload, s)
    else if Dist(s, t.expected.value) >= HALF then Step(Late(t, s), [])
    else if s in t.pending || s in t.seenSet then
      Step(t.(dups := t.dups + 1, trueDups := t.trueDups + 1), [])
    else Enforce(Buffer(t, payload, s), window)
  }

  function Buffer<P>(t: Tracker<P>, payload: P, s: u32): Tracker<P> {
    MarkSeen(t.(pending := t.pending[s := payload]), s)
  }
}
