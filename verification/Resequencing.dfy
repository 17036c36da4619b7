/** What the reorder buffer is for: a late datagram costs nothing, an orderly stream nothing at all. */
module Resequencing {
  import opened Circular
  import opened Wrappers
  import opened TrackerModel
  import opened TrackerRuns
  import opened TrackerWindow

  // ---------- A stream that only loses datagrams ----------

  /** Something buffered beyond the next `n` numbers does not change advancing by `n`. */
  lemma {:induction false} AdvanceByIgnoresAhead<P>(t: Tracker<P>, b: Tracker<P>, s: u32, payload: P, n: nat)
    requires t.expected.Some? && b.expected == t.expected && s !in t.pending
    requires b.pending == t.pending[s := payload] && n <= Dist(s, t.expected.value)
    requires (b.received, b.missing) == (t.received, t.missing)
    ensures var r, q := AdvanceBy(t, n), AdvanceBy(b, n);
            && q.out == r.out && q.t.expected == r.t.expected
            && (q.t.received, q.t.missing) == (r.t.received, r.t.missing)
            && s !in r.t.pending && q.t.pending == r.t.pending[s := payload]
    decreases n
  {
    if n == 0 {
    } else {
      var e := t.expected.value;
      assert b.pending - {e} == (t.pending - {e})[s := payload];
      AdvanceByIgnoresAhead(Advance(t).t, Advance(b).t, s, payload, n - 1);
    }
  }

  /** Advancing over numbers that are not buffered counts them missing. */
  lemma {:induction false} AdvanceBySkips<P>(t: Tracker<P>, n: nat)
    requires t.expected.Some? && n <= MODULUS
    requires forall s :: s in t.pending ==> Dist(s, t.expected.value) >= n
    ensures AdvanceBy(t, n) == Step(t.(expected := Some(Plus(t.expected.value, n)), missing := t.missing + n), [])
    decreases n
  {
    if n == 0 {
    } else {
      AdvanceBySkips(Advance(t).t, n - 1);
    }
  }

  /** Advancing onto the only buffered number, `d` ahead, loses `d` numbers and delivers one. */
  lemma AdvanceOntoLast<P>(t: Tracker<P>, s: u32, payload: P)
    requires t.expected.Some? && t.pending == map[s := payload]
    ensures var d := Dist(s, t.expected.value);
            var r := AdvanceBy(t, d as int + 1);
            r.out == [payload] && r.t.received == t.received + 1 && r.t.missing == t.missing + d
  {
    var d := Dist(s, t.expected.value);
    AdvanceBySkips(t, d);
    var there := AdvanceBy(t, d).t;
    assert there.expected == Some(s);
    assert AdvanceBy(there, 1) == Step(Advance(there).t, [payload]);
    AdvanceBySplit(t, d, 1);
  }

  /** With `s` buffered beyond the `m` numbers that hold everything else. */
  lemma AdvanceOverArrival<P>(f: Tracker<P>, m: nat, s: u32, payload: P)
    requires f.expected.Some? && s !in f.pending && m <= Dist(s, f.expected.value)
    requires forall x :: x in f.pending ==> Dist(x, f.expected.value) < m
    ensures var d := Dist(s, f.expected.value);
            var all, before := AdvanceBy(Buffer(f, payload, s), d as int + 1), AdvanceBy(f, m);
            && all.out == before.out + [payload]
            && all.t.received == before.t.received + 1
            && all.t.missing == before.t.missing + (d - m)
  {
    hide Buffer, AdvanceBy;
    var buffered := Buffer(f, payload, s);
    BufferFields(f, payload, s);
    AdvanceByIgnoresAhead(f, buffered, s, payload, m);
    AdvanceByPending(f, m);
    AdvanceByPlus(f, m);
    var there := AdvanceBy(buffered, m).t;
    assert there.pending == map[s := payload];
    AdvanceOntoLast(there, s, payload);
    AdvanceBySplit(buffered, m, Dist(s, f.expected.value) as int - m + 1);
  }

  /** How far the base is forced by an arrival `d` ahead. */
  function Forced(d: nat, window: nat): nat {
    if d >= window then d - window + 1 else 0
  }

  lemma EarlyBuffer<P>(f: Tracker<P>, m: nat, window: nat, payload: P, s: u32)
    requires window >= 1 && f.expected.Some? && s !in f.seenSet
    requires 0 < Dist(s, f.expected.value) < INTERLEAVE_GAP_FLOOR && m <= Dist(s, f.expected.value)
    requires forall x :: x in f.pending ==> Dist(x, f.expected.value) < m
    ensures var d := Dist(s, f.expected.value);
            var k := Forced(d, window);
            var next := Feed(f, window, payload, s, false).t;
            && s !in f.pending
            && Feed(f, window, payload, s, false) == AdvanceBy(Buffer(f, payload, s), k)
            && next.expected == Some(Plus(f.expected.value, k))
            && IsFurthest(next.pending, next.expected.value, d - k)
            && next.dups == f.dups && next.seenSet <= f.seenSet + {s}
  {
    var d := Dist(s, f.expected.value);
    var k := Forced(d, window);
    var buffered := Buffer(f, payload, s);
    BufferFields(f, payload, s);
    assert s in buffered.pending;
    FeedEarly(f, window, payload, s, d);
    AdvanceByDistances(buffered, k);
    AdvanceByPlus(buffered, k);
    AdvanceByFrame(buffered, k);
    assert s in AdvanceBy(buffered, k).t.pending;
  }

  /**
   The buffered tracker `f` trails the unbuffered `t` by `n` numbers, and advancing `f` by `n`
   makes up exactly the difference. `span` numbers have passed since `first`.
   */
  ghost predicate Trails<P>(f: Tracker<P>, fOut: seq<P>, t: Tracker<P>, tOut: seq<P>, n: nat, first: u32, span: nat) {
    && n <= span <= MODULUS
    && f.expected.Some? && t.expected.Some?
    && t.expected.value == Plus(f.expected.value, n) == Plus(first, span)
    && (if n == 0 then f.pending == map[] else IsFurthest(f.pending, f.expected.value, n - 1))
    && SeenBefore(f.seenSet, first, span)
    && f.dups == t.dups
    && CatchesUp(f, fOut, t, tOut, n)
  }

  /** Every remembered number is among the first `span` from `first` on. */
  ghost predicate SeenBefore(seenSet: set<u32>, first: u32, span: nat) {
    forall s :: s in seenSet ==> Dist(s, first) < span
  }

  lemma SeenGrows(seenSet: set<u32>, more: set<u32>, s: u32, first: u32, span: nat)
    requires SeenBefore(seenSet, first, span) && span <= Dist(s, first) && more <= seenSet + {s}
    ensures s !in seenSet && SeenBefore(more, first, Dist(s, first) as int + 1)
  {
  }

  ghost predicate CatchesUp<P>(f: Tracker<P>, fOut: seq<P>, t: Tracker<P>, tOut: seq<P>, n: nat)
    requires f.expected.Some?
  {
    var rest := AdvanceBy(f, n);
    (rest.t.received, rest.t.missing) == (t.received, t.missing) && fOut + rest.out == tOut
  }

  /** The unbuffered tracker's step: the skipped numbers are lost, the payload delivered. */
  lemma TrackForward<P>(t: Tracker<P>, payload: P, gap: nat)
    requires t.expected.Some? && gap < INTERLEAVE_GAP_FLOOR
    ensures var s := Plus(t.expected.value, gap);
            var plain := Feed(t, 0, payload, s, false);
            && plain.out == [payload] && plain.t.dups == t.dups
            && plain.t.expected == Some(Plus(t.expected.value, gap + 1))
            && plain.t.received == t.received + 1 && plain.t.missing == t.missing + gap
  {
    assert Dist(Plus(t.expected.value, gap), t.expected.value) == gap;
  }

  lemma CatchUpEarly<P>(f: Tracker<P>, fOut: seq<P>, t: Tracker<P>, tOut: seq<P>, n: nat,
                        window: nat, payload: P, s: u32, plain: Tracker<P>)
    requires window >= 1 && f.expected.Some? && s !in f.seenSet && CatchesUp(f, fOut, t, tOut, n)
    requires 0 < Dist(s, f.expected.value) < INTERLEAVE_GAP_FLOOR && n <= Dist(s, f.expected.value)
    requires forall x :: x in f.pending ==> Dist(x, f.expected.value) < n
    requires plain.received == t.received + 1 && plain.missing == t.missing + (Dist(s, f.expected.value) - n)
    ensures var d := Dist(s, f.expected.value);
            var step := Feed(f, window, payload, s, false);
            CatchesUp(step.t, fOut + step.out, plain, tOut + [payload], d + 1 - Forced(d, window))
  {
    hide Feed, Buffer, AdvanceBy;
    BufferFields(f, payload, s);
    var d: int := Dist(s, f.expected.value);
    var k := Forced(d, window);
    EarlyBuffer(f, n, window, payload, s);
    AdvanceOverArrival(f, n, s, payload);
    AdvanceBySplit(Buffer(f, payload, s), k, d + 1 - k);
    var step := Feed(f, window, payload, s, false);
    var rest := AdvanceBy(step.t, d + 1 - k);
    assert step.out + rest.out == AdvanceBy(f, n).out + [payload];
    assert fOut + step.out + rest.out == fOut + (step.out + rest.out);
    assert fOut + (AdvanceBy(f, n).out + [payload]) == fOut + AdvanceBy(f, n).out + [payload];
  }

  /** One more number of a rising stream, `gap` beyond the newest, keeps the relation. */
  lemma TrailsEarly<P>(f: Tracker<P>, fOut: seq<P>, t: Tracker<P>, tOut: seq<P>, n: nat, first: u32, span: nat,
                       window: nat, payload: P, gap: nat)
    requires window >= 1 && Trails(f, fOut, t, tOut, n, first, span) && 0 < n + gap < INTERLEAVE_GAP_FLOOR
    requires span + gap < MODULUS
    ensures var s, k := Plus(t.expected.value, gap), Forced(n + gap, window);
            var step, plain := Feed(f, window, payload, s, false), Feed(t, 0, payload, s, false);
            Trails(step.t, fOut + step.out, plain.t, tOut + plain.out, n + gap + 1 - k, first, span + gap + 1)
  {
    hide Feed, CatchesUp, SeenBefore, Plus, Dist;
    var s, k := Plus(t.expected.value, gap), Forced(n + gap, window);
    PlusFurther(f.expected.value, n, gap, k);
    PlusFurther(first, span, gap, 0);
    SeenGrows(f.seenSet, {}, s, first, span);
    TrackForward(t, payload, gap);
    EarlyBuffer(f, n, window, payload, s);
    SeenGrows(f.seenSet, Feed(f, window, payload, s, false).t.seenSet, s, first, span);
    CatchUpEarly(f, fOut, t, tOut, n, window, payload, s, Feed(t, 0, payload, s, false).t);
  }

  lemma TrailsNext<P>(f: Tracker<P>, fOut: seq<P>, t: Tracker<P>, tOut: seq<P>, first: u32, span: nat,
                      window: nat, payload: P)
    requires window >= 1 && Trails(f, fOut, t, tOut, 0, first, span) && span < MODULUS
    ensures var s := t.expected.value;
            var step, plain := Feed(f, window, payload, s, false), Feed(t, 0, payload, s, false);
            Trails(step.t, fOut + step.out, plain.t, tOut + plain.out, 0, first, span + 1)
  {
    TrackForward(t, payload, 0);
  }

  /** One more number, whether it is the next or leaves a gap. */
  lemma TrailsStep<P>(f: Tracker<P>, fOut: seq<P>, t: Tracker<P>, tOut: seq<P>, n: nat, first: u32, span: nat,
                      window: nat, payload: P, gap: nat) returns (n': nat)
    requires window >= 1 && Trails(f, fOut, t, tOut, n, first, span) && n <= window
    requires gap + window < INTERLEAVE_GAP_FLOOR && span + gap < MODULUS
    ensures var s := Plus(t.expected.value, gap);
            var step, plain := Feed(f, window, payload, s, false), Feed(t, 0, payload, s, false);
            Trails(step.t, fOut + step.out, plain.t, tOut + plain.out, n', first, span + gap + 1)
    ensures n' <= window
  {
    hide Feed;
    if n + gap == 0 {
      TrailsNext(f, fOut, t, tOut, first, span, window, payload);
      n' := 0;
    } else {
      TrailsEarly(f, fOut, t, tOut, n, first, span, window, payload, gap);
      n' := n + gap + 1 - Forced(n + gap, window);
    }
  }

  /** Numbers shown on the wire for rising positions, with their payloads. */
  function Stream<P>(us: seq<int>, ps: seq<P>): seq<Input<P>>
    requires |us| == |ps|
  {
    seq(|us|, i requires 0 <= i < |us| => Datagram(ps[i], Wrap(us[i]), false))
  }

  /** Positions rise, span less than one turn, and no hole comes near the switch floor. */
  predicate Rising(us: seq<int>, window: nat) {
    && |us| > 0 && us[|us| - 1] - us[0] < MODULUS
    && (forall i, j :: 0 <= i < j < |us| ==> us[i] < us[j])
    && (forall i :: 0 < i < |us| ==> us[i] - us[i - 1] - 1 + window < INTERLEAVE_GAP_FLOOR)
  }

  /** The two trackers after `k` datagrams of a rising stream. */
  ghost predicate SideBySide<P>(window: nat, us: seq<int>, ps: seq<P>, k: nat, n: nat)
    requires 0 < k <= |us| == |ps|
  {
    var f, t := Run(window, Stream(us, ps)[..k]), Run(0, Stream(us, ps)[..k]);
    var span := us[k - 1] - us[0] + 1;
    && n <= window && span >= k
    && Trails(f.t, f.out, t.t, t.out, n, Wrap(us[0]), span)
    && t.out == ps[..k] && t.t.received == k && t.t.missing == span - k
  }

  lemma FirstDatagram<P>(window: nat, s: u32, payload: P)
    ensures var h := Run(window, [Datagram(payload, s, false)]);
            h.t == Rebase(Fresh<P>(), s) && h.out == [payload]
    ensures Trails(Rebase(Fresh<P>(), s), [payload], Rebase(Fresh<P>(), s), [payload], 0, s, 1)
  {
    RunLast(window, [], Datagram(payload, s, false));
    assert [] + [Datagram(payload, s, false)] == [Datagram(payload, s, false)];
    LoopsStop(Rebase(Fresh<P>(), s), 0, 0);
  }

  lemma {:induction false} RunsTrail<P>(window: nat, us: seq<int>, ps: seq<P>, k: nat) returns (n: nat)
    requires window >= 1 && |us| == |ps| && Rising(us, window) && 0 < k <= |us|
    ensures SideBySide(window, us, ps, k, n)
    decreases k
  {
    hide Run, Feed, CatchesUp, Plus, IsFurthest, SeenBefore;
    var inputs := Stream(us, ps);
    if k == 1 {
      n := 0;
      assert inputs[..1] == [inputs[0]];
      FirstDatagram(window, Wrap(us[0]), ps[0]);
      FirstDatagram(0, Wrap(us[0]), ps[0]);
      assert ps[..1] == [ps[0]];
    } else {
      n := RunsTrail(window, us, ps, k - 1);
      var f, t := Run(window, inputs[..k - 1]), Run(0, inputs[..k - 1]);
      var span, gap := us[k - 2] - us[0] + 1, us[k - 1] - us[k - 2] - 1;
      assert inputs[..k] == inputs[..k - 1] + [inputs[k - 1]];
      RunLast(window, inputs[..k - 1], inputs[k - 1]);
      RunLast(0, inputs[..k - 1], inputs[k - 1]);
      PlusOfPosition(us[0], span);
      PlusOfPosition(us[0] + span, gap);
      TrackForward(t.t, ps[k - 1], gap);
      n := TrailsStep(f.t, f.out, t.t, t.out, n, Wrap(us[0]), span, window, ps[k - 1], gap);
    }
  }

  /**
   A stream that loses datagrams but never reorders them: after the final flush the buffered
   tracker has delivered and counted exactly what the unbuffered one has, whatever the window.
   */
  lemma BufferedEqualsUnbuffered<P>(window: nat, us: seq<int>, ps: seq<P>)
    requires window >= 1 && |us| == |ps| && Rising(us, window)
    ensures var f, t := Run(window, Stream(us, ps) + [EndOfStream]), Run(0, Stream(us, ps));
            && f.out == t.out == ps
            && f.t.received == t.t.received == |us|
            && f.t.missing == t.t.missing == us[|us| - 1] - us[0] + 1 - |us|
            && f.t.dups == t.t.dups
  {
    hide Run, Feed;
    var inputs := Stream(us, ps);
    var n := RunsTrail(window, us, ps, |us|);
    assert inputs[..|us|] == inputs && ps[..|us|] == ps;
    RunLast(window, inputs, EndOfStream);
    var f := Run(window, inputs).t;
    if n > 0 {
      FlushLength(f, n - 1);
    }
    AdvanceByFrame(f, n);
  }
}
