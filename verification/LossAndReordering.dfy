/** Loss and reordering together: which datagrams of a stream are delivered, and what is counted. */
module LossAndReordering {
  import opened Circular
  import opened TrackerModel
  import opened TrackerRuns
  import opened Resequencing
  import opened Lossless
  import opened Sequences

  // ---------- Which are kept ----------

  /** The newest position of some. */
  function Newest(us: seq<int>): (n: int)
    requires us != []
    ensures n in us && forall x :: x in us ==> x <= n
  {
    if |us| == 1 then us[0]
    else
      var n := Newest(Init(us));
      assert us == Init(us) + [Last(us)];
      if Last(us) > n then Last(us) else n
  }

  /** A datagram that is not before the first, and less than the window behind the newest before it. */
  predicate InTime(us: seq<int>, u: int, window: nat)
    requires us != []
  {
    u >= us[0] && u + window > Newest(us)
  }

  /** The positions that arrive in time. */
  function Kept(us: seq<int>, window: nat): set<int>
    requires us != []
  {
    if |us| == 1 then {us[0]}
    else Kept(Init(us), window) + (if InTime(Init(us), Last(us), window) then {Last(us)} else {})
  }

  lemma {:induction false} KeptExactly(us: seq<int>, window: nat, x: int)
    requires us != []
    ensures x in Kept(us, window) <==>
            x == us[0] || exists i :: 0 < i < |us| && us[i] == x && InTime(us[..i], us[i], window)
    decreases |us|
  {
    hide InTime;
    if |us| == 1 {
    } else {
      var front, n := Init(us), |us| - 1;
      KeptExactly(front, window, x);
      assert us[..n] == front && forall i :: 0 < i < n ==> front[..i] == us[..i];
      if x != us[0] && x in Kept(front, window) {
        var i :| 0 < i < n && front[i] == x && InTime(front[..i], front[i], window);
        assert us[i] == x && InTime(us[..i], us[i], window);
      } else if exists i :: 0 < i < |us| && us[i] == x && InTime(us[..i], us[i], window) {
        var i :| 0 < i < |us| && us[i] == x && InTime(us[..i], us[i], window);
        if i < n {
          assert front[i] == x && InTime(front[..i], front[i], window);
        }
      }
    }
  }

  /** No number is so far ahead that it looks like another stream, nor, when late, so far behind that it looks ahead. */
  predicate Admits(us: seq<int>, u: int, window: nat)
    requires us != []
  {
    var n := Newest(us);
    && window <= INTERLEAVE_GAP_FLOOR && u - n + window <= INTERLEAVE_GAP_FLOOR
    && (!InTime(us, u, window) ==> n - u < HALF)
  }

  /** Distinct positions within one turn of the circle, each of them admitted. */
  ghost predicate Admissible(us: seq<int>, window: nat) {
    && us != []
    && (forall i, j :: 0 <= i < j < |us| ==> us[i] != us[j])
    && (forall i, j :: 0 <= i < |us| && 0 <= j < |us| ==> us[i] - us[j] < MODULUS)
    && (forall i :: 0 < i < |us| ==> Admits(us[..i], us[i], window))
  }

  lemma AdmissibleFront(us: seq<int>, window: nat)
    requires Admissible(us, window) && |us| > 1
    ensures Admissible(Init(us), window) && Admits(Init(us), Last(us), window)
    ensures Last(us) !in Init(us) && Init(us)[0] == us[0]
    ensures forall x :: x in Init(us) ==> x - Last(us) < MODULUS && Last(us) - x < MODULUS
  {
    hide Admits;
    var front, n := Init(us), |us| - 1;
    assert us[..n] == front && forall i :: 0 < i < n ==> front[..i] == us[..i] && front[i] == us[i];
  }

  // ---------- What is handed out ----------

  /** The payloads of the positions of `[lo, hi)` that are in a set, in order. */
  ghost function Picked<P>(kept: set<int>, pay: int -> P, lo: int, hi: int): seq<P>
    decreases hi - lo
  {
    if lo >= hi then [] else (if lo in kept then [pay(lo)] else []) + Picked(kept, pay, lo + 1, hi)
  }

  lemma {:induction false} PickedJoin<P>(kept: set<int>, pay: int -> P, lo: int, mid: int, hi: int)
    requires lo <= mid <= hi
    ensures Picked(kept, pay, lo, hi) == Picked(kept, pay, lo, mid) + Picked(kept, pay, mid, hi)
    decreases mid - lo
  {
    if lo == mid {
      assert Picked(kept, pay, lo, mid) == [];
    } else {
      PickedJoin(kept, pay, lo + 1, mid, hi);
    }
  }

  lemma {:induction false} PickedSame<P>(a: set<int>, b: set<int>, pay: int -> P, lo: int, hi: int)
    requires forall x :: lo <= x < hi ==> (x in a <==> x in b)
    ensures Picked(a, pay, lo, hi) == Picked(b, pay, lo, hi)
    decreases hi - lo
  {
    if lo >= hi {
    } else {
      PickedSame(a, b, pay, lo + 1, hi);
    }
  }

  lemma {:induction false} PickedBlock<P>(kept: set<int>, pay: int -> P, lo: int, hi: int)
    requires lo <= hi && forall x :: lo <= x < hi ==> x in kept
    ensures Picked(kept, pay, lo, hi) == Block(pay, lo, hi)
    decreases hi - lo
  {
    if lo == hi {
      assert Block(pay, lo, hi) == [];
    } else {
      PickedBlock(kept, pay, lo + 1, hi);
      assert Block(pay, lo, hi) == [pay(lo)] + Block(pay, lo + 1, hi);
    }
  }

  lemma {:induction false} PickedSize<P>(kept: set<int>, pay: int -> P, lo: int, hi: int)
    requires forall x :: x in kept ==> lo <= x < hi
    ensures |Picked(kept, pay, lo, hi)| == |kept|
    decreases hi - lo
  {
    if lo >= hi {
      assert kept == {};
    } else if lo in kept {
      var rest := kept - {lo};
      PickedSize(rest, pay, lo + 1, hi);
      PickedSame(kept, rest, pay, lo + 1, hi);
    } else {
      PickedSize(kept, pay, lo + 1, hi);
    }
  }

  // ---------- Moving the base ----------

  /** Moving the base over a position hands out its payload if it is buffered, and counts it otherwise. */
  lemma HoldsStep<P>(t: Tracker<P>, kept: set<int>, b: int, pay: int -> P)
    requires Holds(t, kept, b, pay) && b + MODULUS !in kept
    ensures Holds(Advance(t).t, kept, b + 1, pay)
    ensures Advance(t).out == if b in kept then [pay(b)] else []
  {
    if b in kept {
      HoldsAdvance(t, kept, b, pay);
    } else {
      WrapNext(b);
      HoldingBase(t.pending, Wrap(b), kept, b, pay);
      HoldingSkip(t.pending, Wrap(b), kept, b, pay);
    }
  }

  lemma HoldingSkip<P>(pending: map<u32, P>, e: u32, kept: set<int>, b: int, pay: int -> P)
    requires Holding(pending, e, kept, b, pay) && b !in kept && b + MODULUS !in kept
    ensures Holding(pending, Next(e), kept, b + 1, pay)
  {
    forall s: u32
      ensures s in pending <==> b + 1 + Dist(s, Next(e)) in kept
      ensures s in pending ==> pending[s] == pay(b + 1 + Dist(s, Next(e)))
    {
      if s == e {
        assert b + 1 + Dist(s, Next(e)) == b + MODULUS && b + Dist(e, e) == b;
      } else {
        assert b + 1 + Dist(s, Next(e)) == b + Dist(s, e);
      }
    }
  }

  lemma {:induction false} AdvancePicks<P>(t: Tracker<P>, kept: set<int>, b: int, pay: int -> P, k: nat)
    requires Holds(t, kept, b, pay) && forall x :: x in kept ==> x < b + MODULUS
    ensures var r := AdvanceBy(t, k);
            && Holds(r.t, kept, b + k, pay) && r.out == Picked(kept, pay, b, b + k)
    decreases k
  {
    hide Holding;
    if k == 0 {
    } else {
      HoldsStep(t, kept, b, pay);
      AdvancePicks(Advance(t).t, kept, b + 1, pay, k - 1);
    }
  }

  // ---------- The relation ----------

  /** The memory holds only numbers of positions that have arrived. */
  ghost predicate SeenOnly(seenSet: set<u32>, us: seq<int>) {
    forall s :: s in seenSet ==> exists x :: x in us && Wrap(x) == s
  }

  lemma NewNumber(seenSet: set<u32>, more: set<u32>, us: seq<int>)
    requires |us| > 1 && SeenOnly(seenSet, Init(us)) && more <= seenSet + {Wrap(Last(us))}
    requires Last(us) !in Init(us)
    requires forall x :: x in Init(us) ==> x - Last(us) < MODULUS && Last(us) - x < MODULUS
    ensures Wrap(Last(us)) !in seenSet && SeenOnly(more, us)
  {
    var u := Last(us);
    assert us == Init(us) + [u];
    forall x | x in Init(us) ensures Wrap(x) != Wrap(u) {
      if x < u { DistOfPositions(u, x); } else { DistOfPositions(x, u); }
    }
  }

  /** The base lies behind the newest by less than the window, and only late positions were given up. */
  ghost predicate BaseOk(us: seq<int>, b: int, window: nat)
    requires us != []
  {
    var n, kept := Newest(us), Kept(us, window);
    && us[0] < b <= n + 1 && n < b + window
    && n in kept && (forall x :: x in kept ==> us[0] <= x <= n && x in us)
    && (forall x :: us[0] <= x < b && x !in kept ==> x + window <= n)
  }

  /** What the tracker has handed out and counted with its base at `b`. */
  ghost predicate Counted<P>(h: History<P>, us: seq<int>, b: int, window: nat, pay: int -> P)
    requires us != []
  {
    var kept := Kept(us, window);
    && Holds(h.t, kept, b, pay) && h.out == Picked(kept, pay, us[0], b)
    && h.t.received == |h.out| && h.t.missing == b - us[0] - |h.out|
    && h.t.dups == h.t.reordered == |us| - |kept| && h.t.trueDups == 0
  }

  ghost predicate Follows<P>(h: History<P>, us: seq<int>, b: int, window: nat, pay: int -> P)
    requires us != []
  {
    BaseOk(us, b, window) && SeenOnly(h.t.seenSet, us) && Counted(h, us, b, window, pay)
  }

  /** The first datagram sets the base. */
  lemma FirstFollows<P>(window: nat, us: seq<int>, pay: int -> P)
    requires window >= 1 && |us| == 1
    ensures Follows(Run(window, Arrivals(us, pay)), us, us[0] + 1, window, pay)
  {
    hide Run, Rebase, Fresh, Holding;
    var u := us[0];
    assert Arrivals(us, pay) == [Datagram(pay(u), Wrap(u), false)];
    FirstDatagram(window, Wrap(u), pay(u));
    FirstRebase<P>(Wrap(u));
    FirstHolding(u, pay);
    WrapNext(u);
    assert Picked({u}, pay, u, u + 1) == [pay(u)];
    assert u in us;
  }

  /** How one more datagram changes which are kept. */
  lemma KeptGrows(us: seq<int>, b: int, window: nat)
    requires |us| > 1 && BaseOk(Init(us), b, window) && Last(us) !in Init(us) && Init(us)[0] == us[0]
    ensures var u, front := Last(us), Init(us);
            && (InTime(front, u, window) <==> u >= b)
            && Kept(us, window) == Kept(front, window) + (if u >= b then {u} else {})
            && |Kept(us, window)| == |Kept(front, window)| + (if u >= b then 1 else 0)
            && Newest(us) == (if u > Newest(front) then u else Newest(front))
            && u !in Kept(front, window)
            && forall x :: x in front ==> x in us
  {
    assert us == Init(us) + [Last(us)];
  }

  /** The base after one more datagram: only positions out of the window, or handed out, are behind it. */
  lemma BaseMoves(us: seq<int>, b: int, b': int, window: nat)
    requires |us| > 1 && window >= 1 && BaseOk(Init(us), b, window) && Last(us) !in Init(us) && Init(us)[0] == us[0]
    requires b <= b' <= Newest(us) + 1 && Newest(us) < b' + window
    requires forall x :: b <= x < b' && x !in Kept(us, window) ==> x + window <= Newest(us)
    ensures BaseOk(us, b', window)
  {
    hide Kept, InTime, Newest;
    KeptGrows(us, b, window);
    NewestOf(us);
    assert us == Init(us) + [Last(us)];
  }

  lemma NewestOf(us: seq<int>)
    requires us != []
    ensures Newest(us) in us && forall x :: x in us ==> x <= Newest(us)
  {
  }

  // ---------- One more datagram ----------

  /** A datagram, as the tracker is given it. */
  function Arrival<P>(pay: int -> P, u: int): Input<P> {
    Datagram(pay(u), Wrap(u), false)
  }

  lemma LeastBounded(kept: set<int>, from: int, top: int)
    requires from <= top && top !in kept
    ensures Least(kept, from) <= top
  {
  }

  /** What was handed out, the one expected and the run behind it are the kept ones up to the end of the run. */
  lemma PickedRun<P>(prior: set<int>, kept: set<int>, pay: int -> P, first: int, b: int, end: int)
    requires first <= b < end && kept == prior + {b} && forall x :: b < x < end ==> x in kept
    ensures Picked(prior, pay, first, b) + ([pay(b)] + Block(pay, b + 1, end)) == Picked(kept, pay, first, end)
  {
    hide Picked, Block;
    PickedSame(prior, kept, pay, first, b);
    PickedBlock(kept, pay, b + 1, end);
    PickedJoin(kept, pay, first, b, end);
    PickedHead(kept, pay, b, end);
  }

  lemma PickedHead<P>(kept: set<int>, pay: int -> P, b: int, end: int)
    requires b < end && b in kept
    ensures Picked(kept, pay, b, end) == [pay(b)] + Picked(kept, pay, b + 1, end)
  {
  }

  /** The tracker hands out the number it expects and the run of kept ones behind it. */
  lemma BaseFeeds<P>(t: Tracker<P>, window: nat, prior: set<int>, b: int, n: int, pay: int -> P) returns (end: int)
    requires window >= 1 && Holds(t, prior, b, pay) && b !in prior && b <= n < b + MODULUS
    requires forall x :: x in prior ==> x <= n
    ensures var kept, step := prior + {b}, Feed(t, window, pay(b), Wrap(b), false);
            && b < end <= n + 1 && (forall x :: b <= x < end ==> x in kept)
            && Holds(step.t, kept, end, pay) && step.out == [pay(b)] + Block(pay, b + 1, end)
            && step.t.received == t.received + |step.out| && step.t.missing == t.missing
            && (step.t.dups, step.t.reordered, step.t.trueDups) == (t.dups, t.reordered, t.trueDups)
            && step.t.seenSet <= t.seenSet + {Wrap(b)}
  {
    hide Feed, Holding, Drain, Rebase, Block, Wrap;
    var kept, rebased := prior + {b}, Rebase(t, Wrap(b));
    end := Least(kept, b + 1);
    LeastBounded(kept, b + 1, n + 1);
    HoldsRebase(t, prior, b, pay);
    HoldsDrain(rebased, kept, b + 1, n + 1, pay);
    AtBaseFeeds(t, window, pay(b), Wrap(b), prior, b, pay);
    SeenOfDrain(rebased);
  }

  /** It is the one expected: it and the run behind it are handed out. */
  lemma ArrivesAtBase<P>(h: History<P>, us: seq<int>, b: int, window: nat, pay: int -> P) returns (b': int)
    requires |us| > 1 && window >= 1 && Follows(h, Init(us), b, window, pay) && Last(us) == b
    requires b !in Init(us) && Init(us)[0] == us[0] && Newest(us) - us[0] < MODULUS
    requires forall x :: x in Init(us) ==> x - b < MODULUS && b - x < MODULUS
    ensures Follows(Apply(window, h, Arrival(pay, b)), us, b', window, pay)
  {
    hide Feed, Holds, SeenOnly, Kept, InTime, Newest, Block, Picked, Wrap, BaseOk, Within, RepeatsAtBase;
    var front := Init(us);
    BaseFacts(front, b, window);
    KeptGrows(us, b, window);
    b' := BaseFeeds(h.t, window, Kept(front, window), b, Newest(us), pay);
    var step := Feed(h.t, window, pay(b), Wrap(b), false);
    NewNumber(h.t.seenSet, step.t.seenSet, us);
    PickedRun(Kept(front, window), Kept(us, window), pay, us[0], b, b');
    BaseMoves(us, b, b', window);
  }

  lemma BaseFacts(us: seq<int>, b: int, window: nat)
    requires us != [] && BaseOk(us, b, window)
    ensures var n, kept := Newest(us), Kept(us, window);
            us[0] < b <= n + 1 && n < b + window && n in kept && forall x :: x in kept ==> us[0] <= x <= n && x in us
  {
  }

  lemma SeenOfDrain<P>(t: Tracker<P>)
    requires t.expected.Some?
    ensures Drain(t).t.seenSet == t.seenSet
  {
    var k := DrainIsAdvance(t);
    AdvanceByFrame(t, k);
  }

  /** The tracker buffers a number ahead, and moves its base just so far that the newest fits the window. */
  lemma AheadMoves<P>(t: Tracker<P>, window: nat, prior: set<int>, b: int, u: int, n: int, pay: int -> P)
    requires window >= 1 && Holds(t, prior, b, pay) && u !in prior && Wrap(u) !in t.seenSet
    requires b < u <= n < b + MODULUS && u - b < INTERLEAVE_GAP_FLOOR
    requires n in prior + {u} && forall x :: x in prior ==> x <= n
    ensures var kept, step := prior + {u}, Feed(t, window, pay(u), Wrap(u), false);
            var k := Forced(n - b, window);
            && Holds(step.t, kept, b + k, pay) && step.out == Picked(kept, pay, b, b + k)
            && step.t.received == t.received + |step.out| && step.t.missing == t.missing + k - |step.out|
            && (step.t.dups, step.t.reordered, step.t.trueDups) == (t.dups, t.reordered, t.trueDups)
            && step.t.seenSet <= t.seenSet + {Wrap(u)}
  {
    hide Feed, Holding, Picked, Wrap, Buffer, AdvanceBy;
    var kept := prior + {u};
    AheadFeeds(t, window, prior, b, u, pay);
    var buffered := Buffer(t, pay(u), Wrap(u));
    FurthestIsNewest(buffered.pending, kept, b, n, pay);
    var k := Forced(n - b, window);
    AdvancePicks(buffered, kept, b, pay, k);
    AdvanceByCounts(buffered, k);
    AdvanceByFrame(buffered, k);
    BufferFields(t, pay(u), Wrap(u));
    SeenOfBuffer(t, pay(u), Wrap(u));
  }

  /** It is ahead of the one expected: it is kept, and the base moves at most until the newest fits the window. */
  lemma ArrivesAhead<P>(h: History<P>, us: seq<int>, b: int, window: nat, pay: int -> P) returns (b': int)
    requires |us| > 1 && window >= 1 && Follows(h, Init(us), b, window, pay) && Last(us) > b
    requires Last(us) !in Init(us) && Init(us)[0] == us[0] && Newest(us) - us[0] < MODULUS
    requires Last(us) - b < INTERLEAVE_GAP_FLOOR
    requires forall x :: x in Init(us) ==> x - Last(us) < MODULUS && Last(us) - x < MODULUS
    ensures Follows(Apply(window, h, Arrival(pay, Last(us))), us, b', window, pay)
  {
    hide Feed, Holds, SeenOnly, Kept, InTime, Newest, Picked, Wrap, BaseOk, Within, RepeatsAtBase;
    var front, u := Init(us), Last(us);
    BaseFacts(front, b, window);
    KeptGrows(us, b, window);
    NewNumber(h.t.seenSet, h.t.seenSet, us);
    AheadMoves(h.t, window, Kept(front, window), b, u, Newest(us), pay);
    b' := b + Forced(Newest(us) - b, window);
    var step := Feed(h.t, window, pay(u), Wrap(u), false);
    NewNumber(h.t.seenSet, step.t.seenSet, us);
    PickedSame(Kept(front, window), Kept(us, window), pay, us[0], b);
    PickedJoin(Kept(us, window), pay, us[0], b, b');
    BaseMoves(us, b, b', window);
  }

  lemma FurthestIsNewest<P>(pending: map<u32, P>, kept: set<int>, b: int, n: int, pay: int -> P)
    requires Holding(pending, Wrap(b), kept, b, pay) && n in kept && b <= n < b + MODULUS
    requires forall x :: x in kept ==> x <= n
    ensures pending != map[] && Furthest(pending, Wrap(b)) == n - b
  {
    hide Wrap;
    DistOfPositions(n, b);
    assert Wrap(n) in pending;
    HoldingFurthest(pending, Wrap(b), kept, b, pay, Wrap(n));
  }

  /** It is behind the one expected: too late, and dropped. */
  lemma ArrivesLate<P>(h: History<P>, us: seq<int>, b: int, window: nat, pay: int -> P)
    requires |us| > 1 && window >= 1 && Follows(h, Init(us), b, window, pay) && Last(us) < b
    requires Last(us) !in Init(us) && Init(us)[0] == us[0] && b - Last(us) <= HALF
    requires forall x :: x in Init(us) ==> x - Last(us) < MODULUS && Last(us) - x < MODULUS
    ensures Follows(Apply(window, h, Arrival(pay, Last(us))), us, b, window, pay)
  {
    hide Holding, SeenOnly, Kept, InTime, Newest, Picked, BaseOk, Drain, Enforce, TrackerModel.MarkSeen;
    var front, u := Init(us), Last(us);
    BaseFacts(front, b, window);
    KeptGrows(us, b, window);
    NewNumber(h.t.seenSet, h.t.seenSet, us);
    LateDistance(u, b);
    LateFeeds(h.t, window, pay(u), Wrap(u));
    NewNumber(h.t.seenSet, Feed(h.t, window, pay(u), Wrap(u), false).t.seenSet, us);
    assert h.out + [] == h.out;
    BaseMoves(us, b, b, window);
  }

  lemma LateDistance(u: int, b: int)
    requires 0 < b - u <= HALF
    ensures Dist(Wrap(u), Wrap(b)) >= HALF
  {
    DistOfPositions(u + MODULUS, b);
    assert Wrap(u + MODULUS) == Wrap(u);
  }

  lemma LateFeeds<P>(t: Tracker<P>, window: nat, payload: P, s: u32)
    requires window >= 1 && t.expected.Some? && Dist(s, t.expected.value) >= HALF && s !in t.seenSet
    ensures var step := Feed(t, window, payload, s, false);
            && step.out == [] && step.t.seenSet <= t.seenSet + {s}
            && step.t == t.(dups := t.dups + 1, reordered := t.reordered + 1,
                            seen := step.t.seen, seenSet := step.t.seenSet)
  {
    hide Drain, Enforce;
  }

  lemma OneMore<P>(h: History<P>, us: seq<int>, b: int, window: nat, pay: int -> P) returns (b': int)
    requires |us| > 1 && window >= 1 && Admissible(us, window) && Follows(h, Init(us), b, window, pay)
    ensures Follows(Apply(window, h, Arrival(pay, Last(us))), us, b', window, pay)
  {
    hide Follows, Apply, Kept;
    AdmissibleFront(us, window);
    NewestOf(us);
    var u := Last(us);
    BaseFollows(h, Init(us), b, window, pay);
    if u == b {
      b' := ArrivesAtBase(h, us, b, window, pay);
    } else if u > b {
      b' := ArrivesAhead(h, us, b, window, pay);
    } else {
      KeptGrows(us, b, window);
      b' := b;
      ArrivesLate(h, us, b, window, pay);
    }
  }

  lemma BaseFollows<P>(h: History<P>, us: seq<int>, b: int, window: nat, pay: int -> P)
    requires us != [] && Follows(h, us, b, window, pay)
    ensures BaseOk(us, b, window)
  {
  }

  // ---------- Whole streams ----------

  lemma {:induction false} RunFollows<P>(window: nat, us: seq<int>, pay: int -> P) returns (b: int)
    requires window >= 1 && Admissible(us, window)
    ensures Follows(Run(window, Arrivals(us, pay)), us, b, window, pay)
    decreases |us|
  {
    hide Run, Follows, Admits;
    if |us| == 1 {
      b := us[0] + 1;
      FirstFollows(window, us, pay);
    } else {
      AdmissibleFront(us, window);
      b := RunFollows(window, Init(us), pay);
      var h := Run(window, Arrivals(Init(us), pay));
      b := OneMore(h, us, b, window, pay);
      ArrivalsStep(us, pay, |us| - 1);
      assert us[..|us|] == us && us[..|us| - 1] == Init(us);
      RunLast(window, Arrivals(Init(us), pay), Arrival(pay, Last(us)));
    }
  }

  lemma FlushFollows<P>(h: History<P>, us: seq<int>, b: int, window: nat, pay: int -> P)
    requires window >= 1 && us != [] && Follows(h, us, b, window, pay) && Newest(us) - us[0] < MODULUS
    ensures Counted(Apply(window, h, EndOfStream), us, Newest(us) + 1, window, pay)
  {
    hide Flush, Holding, SeenOnly, Kept, InTime, Newest, Picked, Wrap, AdvanceBy;
    var n, kept := Newest(us), Kept(us, window);
    BaseFacts(us, b, window);
    if b == n + 1 {
      NothingHeld(h.t.pending, Wrap(b), kept, b, pay);
      assert Flush(h.t) == Step(h.t, []);
      assert h.out + [] == h.out;
    } else {
      FurthestIsNewest(h.t.pending, kept, b, n, pay);
      FlushLength(h.t, n - b);
      AdvancePicks(h.t, kept, b, pay, n - b + 1);
      AdvanceByCounts(h.t, n - b + 1);
      AdvanceByFrame(h.t, n - b + 1);
      PickedJoin(kept, pay, us[0], b, n + 1);
    }
  }

  lemma NothingHeld<P>(pending: map<u32, P>, e: u32, kept: set<int>, b: int, pay: int -> P)
    requires Holding(pending, e, kept, b, pay) && forall x :: x in kept ==> x < b
    ensures pending == map[]
  {
    assert forall s :: s !in pending;
  }

  /**
   However datagrams are lost and reordered, the buffer delivers exactly those that arrive less than the
   window behind the newest one so far, in rising order; the others are counted as reordered, and every
   position not delivered as missing.
   */
  lemma DeliversWhatIsInTime<P>(window: nat, us: seq<int>, pay: int -> P)
    requires window >= 1 && Admissible(us, window)
    ensures var h, kept := Run(window, Arrivals(us, pay) + [EndOfStream]), Kept(us, window);
            && h.out == Picked(kept, pay, us[0], Newest(us) + 1)
            && |h.out| == h.t.received == |kept|
            && h.t.missing == Newest(us) + 1 - us[0] - |kept|
            && h.t.dups == h.t.reordered == |us| - |kept| && h.t.trueDups == 0
  {
    hide Run, Admissible, Apply, Kept, Newest, Picked, Follows, Holds, BaseOk;
    var b := RunFollows(window, us, pay);
    var h := Run(window, Arrivals(us, pay));
    SpanFits(us, window);
    FlushFollows(h, us, b, window, pay);
    RunLast(window, Arrivals(us, pay), EndOfStream);
    BaseFollows(h, us, b, window, pay);
    BaseFacts(us, b, window);
    PickedSize(Kept(us, window), pay, us[0], Newest(us) + 1);
  }

  lemma SpanFits(us: seq<int>, window: nat)
    requires Admissible(us, window)
    ensures Newest(us) - us[0] < MODULUS
  {
    hide Admits, Newest;
    NewestOf(us);
    var i :| 0 <= i < |us| && us[i] == Newest(us);
  }

  /** If all arrive in time nothing but what was lost is missing: every payload comes out, in rising order. */
  lemma OnlyTheLostAreMissing<P>(window: nat, us: seq<int>, pay: int -> P)
    requires window >= 1 && Admissible(us, window)
    requires forall i :: 0 < i < |us| ==> InTime(us[..i], us[i], window)
    ensures var h := Run(window, Arrivals(us, pay) + [EndOfStream]);
            && h.out == Picked(Arrived(us), pay, us[0], Newest(us) + 1)
            && h.t.received == |us| && h.t.missing == Newest(us) + 1 - us[0] - |us|
            && h.t.dups == h.t.reordered == h.t.trueDups == 0
  {
    hide Run, Admits, InTime, Picked;
    DeliversWhatIsInTime(window, us, pay);
    AllKept(us, window);
    ArrivedSize(us);
  }

  lemma {:induction false} AllKept(us: seq<int>, window: nat)
    requires us != [] && forall i :: 0 < i < |us| ==> InTime(us[..i], us[i], window)
    ensures Kept(us, window) == Arrived(us)
    decreases |us|
  {
    hide InTime;
    if |us| == 1 {
    } else {
      var front, n := Init(us), |us| - 1;
      assert us[..n] == front && us == front + [Last(us)];
      assert InTime(us[..n], us[n], window);
      assert forall i :: 0 < i < n ==> front[..i] == us[..i] && front[i] == us[i];
      AllKept(front, window);
    }
  }
}
