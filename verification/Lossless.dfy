/** Reordering costs nothing exactly as long as no arrival is a window ahead of a missing number. */
module Lossless {
  import opened Circular
  import opened Wrappers
  import opened TrackerModel
  import opened TrackerRuns
  import opened Resequencing

  /** The first position from `from` on that has not arrived. */
  ghost function Least(arrived: set<int>, from: int): (r: int)
    ensures from <= r && r !in arrived
    ensures forall x :: from <= x < r ==> x in arrived
    decreases arrived
  {
    if from !in arrived then from else
      var r := Least(arrived - {from}, from + 1);
      r
  }

  lemma LeastUnique(arrived: set<int>, from: int, r: int)
    requires from <= r && r !in arrived && forall x :: from <= x < r ==> x in arrived
    ensures Least(arrived, from) == r
  {
  }

  /** The buffer is exactly the arrived positions from the base, `b`, on; `e` is its number. */
  ghost predicate Holding<P>(pending: map<u32, P>, e: u32, arrived: set<int>, b: int, pay: int -> P) {
    && (forall s :: s in pending <==> b + Dist(s, e) in arrived)
    && (forall s :: s in pending ==> pending[s] == pay(b + Dist(s, e)))
  }

  ghost predicate Holds<P>(t: Tracker<P>, arrived: set<int>, b: int, pay: int -> P) {
    t.expected == Some(Wrap(b)) && Holding(t.pending, Wrap(b), arrived, b, pay)
  }

  /** The payloads of positions `[lo, hi)` in order. */
  ghost function Block<P>(pay: int -> P, lo: int, hi: int): (r: seq<P>)
    requires lo <= hi
    ensures |r| == hi - lo
  {
    seq(hi - lo, i requires 0 <= i < hi - lo => pay(lo + i))
  }

  lemma BlockJoin<P>(pay: int -> P, lo: int, mid: int, hi: int)
    requires lo <= mid < hi
    ensures Block(pay, lo, hi) == Block(pay, lo, mid) + ([pay(mid)] + Block(pay, mid + 1, hi))
  {
  }

  /** Moving the base over a position that has arrived hands out its payload. */
  lemma HoldsAdvance<P>(t: Tracker<P>, arrived: set<int>, b: int, pay: int -> P)
    requires Holds(t, arrived, b, pay) && b in arrived && b + MODULUS !in arrived
    ensures Wrap(b) in t.pending && Advance(t).out == [pay(b)]
    ensures Holds(Advance(t).t, arrived, b + 1, pay)
  {
    WrapNext(b);
    var e, next := Wrap(b), Advance(t).t;
    assert e in t.pending && b + Dist(e, e) == b;
    forall s: u32
      ensures s in next.pending <==> b + 1 + Dist(s, Next(e)) in arrived
      ensures s in next.pending ==> next.pending[s] == pay(b + 1 + Dist(s, Next(e)))
    {
      if s == e {
        assert b + 1 + Dist(s, Next(e)) == b + MODULUS;
      } else {
        assert b + 1 + Dist(s, Next(e)) == b + Dist(s, e);
      }
    }
  }

  lemma HoldingBase<P>(pending: map<u32, P>, e: u32, arrived: set<int>, b: int, pay: int -> P)
    requires Holding(pending, e, arrived, b, pay)
    ensures e in pending <==> b in arrived
  {
    assert b + Dist(e, e) == b;
  }

  lemma {:induction false} HoldsDrain<P>(t: Tracker<P>, arrived: set<int>, b: int, top: int, pay: int -> P)
    requires Holds(t, arrived, b, pay) && b <= top <= b + MODULUS
    requires forall x :: x in arrived ==> x < top
    ensures var l := Least(arrived, b);
            && Holds(Drain(t).t, arrived, l, pay) && Drain(t).out == Block(pay, b, l)
            && SameRest(t, Drain(t).t) && Drain(t).t.missing == t.missing && Drain(t).t.received == t.received + (l - b)
    decreases top - b
  {
    hide Holding, Block;
    var l := Least(arrived, b);
    HoldingBase(t.pending, Wrap(b), arrived, b, pay);
    if b !in arrived {
    } else {
      HoldsAdvance(t, arrived, b, pay);
      HoldsDrain(Advance(t).t, arrived, b + 1, top, pay);
      LeastUnique(arrived, b + 1, l);
      BlockJoin(pay, b, b, l);
      assert [] + ([pay(b)] + Block(pay, b + 1, l)) == [pay(b)] + Block(pay, b + 1, l);
    }
  }

  /** The memory holds only numbers of positions that have arrived. */
  ghost predicate SeenArrived(seenSet: set<u32>, arrived: set<int>, first: int) {
    forall s :: s in seenSet ==> first + Dist(s, Wrap(first)) in arrived
  }

  lemma SeenArrivedGrows(seenSet: set<u32>, more: set<u32>, arrived: set<int>, first: int, u: int)
    requires SeenArrived(seenSet, arrived, first) && more <= seenSet + {Wrap(u)}
    requires u !in arrived && first <= u < first + MODULUS
    ensures Wrap(u) !in seenSet && SeenArrived(more, arrived + {u}, first)
  {
    DistOfPositions(u, first);
  }

  /** Everything that has arrived so far is delivered or buffered, in order and without loss. */
  ghost predicate Kept<P>(h: History<P>, arrived: set<int>, first: int, n: nat, window: nat, pay: int -> P) {
    var b := Least(arrived, first);
    && first in arrived && n <= MODULUS
    && (forall x :: x in arrived ==> first <= x < first + n && x < b + window)
    && Holds(h.t, arrived, b, pay)
    && SeenArrived(h.t.seenSet, arrived, first)
    && h.out == Block(pay, first, b)
    && h.t.received == b - first
    && h.t.missing == h.t.dups == h.t.reordered == h.t.trueDups == 0
  }

  lemma HoldsRebase<P>(t: Tracker<P>, arrived: set<int>, b: int, pay: int -> P)
    requires Holds(t, arrived, b, pay) && b !in arrived && b + MODULUS !in arrived
    ensures Holds(Rebase(t, Wrap(b)), arrived + {b}, b + 1, pay)
  {
    WrapNext(b);
    var e, next := Wrap(b), Rebase(t, Wrap(b));
    forall s: u32
      ensures s in next.pending <==> b + 1 + Dist(s, Next(e)) in arrived + {b}
      ensures s in next.pending ==> next.pending[s] == pay(b + 1 + Dist(s, Next(e)))
    {
      if s == e {
        assert b + 1 + Dist(s, Next(e)) == b + MODULUS && b + Dist(e, e) == b;
      } else {
        assert b + 1 + Dist(s, Next(e)) == b + Dist(s, e) != b;
      }
    }
  }

  lemma LeastAfter(arrived: set<int>, first: int, u: int)
    requires u !in arrived && first <= u
    ensures var b := Least(arrived, first);
            Least(arrived + {u}, first) == if u == b then Least(arrived + {u}, b + 1) else b
  {
    var b := Least(arrived, first);
    if u == b {
      LeastUnique(arrived + {u}, first, Least(arrived + {u}, b + 1));
    } else {
      LeastUnique(arrived + {u}, first, b);
    }
  }

  /** The missing number at the base arrives: it and the run behind it are handed out. */
  lemma KeptAtBase<P>(h: History<P>, arrived: set<int>, first: int, n: nat, window: nat, pay: int -> P)
    requires window >= 1 && Kept(h, arrived, first, n, window, pay) && Least(arrived, first) < first + n
    ensures var b := Least(arrived, first);
            Kept(Apply(window, h, Datagram(pay(b), Wrap(b), false)), arrived + {b}, first, n, window, pay)
  {
    hide Feed, Holds, Rebase, Drain, SeenArrived, Block, Wrap;
    var b := Least(arrived, first);
    var s, more := Wrap(b), arrived + {b};
    var rebased := Rebase(h.t, s);
    var l := Least(more, b + 1);
    HoldsRebase(h.t, arrived, b, pay);
    HoldsDrain(rebased, more, b + 1, first + n, pay);
    LeastAfter(arrived, first, b);
    AtBaseFeeds(h.t, window, pay(b), s, arrived, b, pay);
    SeenArrivedGrows(h.t.seenSet, rebased.seenSet, arrived, first, b);
    BlockJoin(pay, first, b, l);
  }

  lemma AtBaseFeeds<P>(t: Tracker<P>, window: nat, payload: P, s: u32, arrived: set<int>, b: int, pay: int -> P)
    requires window >= 1 && Holds(t, arrived, b, pay) && s == Wrap(b)
    ensures var step, rebased := Feed(t, window, payload, s, false), Rebase(t, s);
            && step == Step(Drain(rebased).t, [payload] + Drain(rebased).out)
            && rebased.seenSet <= t.seenSet + {s}
            && (rebased.missing, rebased.dups, rebased.reordered, rebased.trueDups, rebased.received)
               == (t.missing, t.dups, t.reordered, t.trueDups, t.received + 1)
  {
    hide Drain;
    assert Dist(s, s) == 0;
  }

  lemma HoldingFurthest<P>(pending: map<u32, P>, e: u32, arrived: set<int>, b: int, pay: int -> P, s: u32)
    requires Holding(pending, e, arrived, b, pay) && s in pending
    ensures pending != map[]
    ensures var d := Furthest(pending, e); Dist(s, e) <= d && b + d in arrived
  {
  }

  lemma HoldingMore<P>(pending: map<u32, P>, e: u32, arrived: set<int>, b: int, pay: int -> P, s: u32, u: int)
    requires Holding(pending, e, arrived, b, pay) && u !in arrived && Dist(s, e) == u - b
    ensures s !in pending && Holding(pending[s := pay(u)], e, arrived + {u}, b, pay)
  {
  }

  lemma HoldsBuffer<P>(t: Tracker<P>, arrived: set<int>, b: int, u: int, pay: int -> P)
    requires Holds(t, arrived, b, pay) && u !in arrived && 0 < u - b < MODULUS
    ensures Wrap(u) !in t.pending
    ensures Holds(Buffer(t, pay(u), Wrap(u)), arrived + {u}, b, pay)
  {
    hide Buffer, Holding;
    DistOfPositions(u, b);
    HoldingMore(t.pending, Wrap(b), arrived, b, pay, Wrap(u), u);
    BufferFields(t, pay(u), Wrap(u));
  }

  /** An arrival ahead of the base, as the tracker sees it. */
  lemma AheadFeeds<P>(t: Tracker<P>, window: nat, arrived: set<int>, b: int, u: int, pay: int -> P)
    requires window >= 1 && Holds(t, arrived, b, pay) && u !in arrived
    requires 0 < u - b < INTERLEAVE_GAP_FLOOR && Wrap(u) !in t.seenSet
    ensures Wrap(u) !in t.pending
    ensures Holds(Buffer(t, pay(u), Wrap(u)), arrived + {u}, b, pay)
    ensures var buffered := Buffer(t, pay(u), Wrap(u));
            && buffered.pending != map[] && buffered.expected == t.expected
            && var d := Furthest(buffered.pending, Wrap(b));
               && u - b <= d && b + d in arrived + {u}
               && Feed(t, window, pay(u), Wrap(u), false) == AdvanceBy(buffered, Forced(d, window))
  {
    hide Buffer, Feed, Wrap, AdvanceBy, Holding;
    DistOfPositions(u, b);
    HoldsBuffer(t, arrived, b, u, pay);
    var s := Wrap(u);
    var buffered := Buffer(t, pay(u), s);
    BufferFields(t, pay(u), s);
    HoldingFurthest(buffered.pending, Wrap(b), arrived + {u}, b, pay, s);
    FeedEarly(t, window, pay(u), s, Furthest(buffered.pending, Wrap(b)));
  }

  /** An early arrival inside the window only goes into the buffer. */
  lemma KeptAhead<P>(h: History<P>, arrived: set<int>, first: int, n: nat, window: nat, pay: int -> P, u: int)
    requires window >= 1 && Kept(h, arrived, first, n, window, pay)
    requires u !in arrived && Least(arrived, first) < u < Least(arrived, first) + window && u < first + n
    requires u - Least(arrived, first) < INTERLEAVE_GAP_FLOOR
    ensures Kept(Apply(window, h, Datagram(pay(u), Wrap(u), false)), arrived + {u}, first, n, window, pay)
  {
    hide Feed, Holds, Buffer;
    var b := Least(arrived, first);
    SeenArrivedGrows(h.t.seenSet, {}, arrived, first, u);
    AheadFeeds(h.t, window, arrived, b, u, pay);
    LeastAfter(arrived, first, u);
    var buffered := Buffer(h.t, pay(u), Wrap(u));
    BufferFields(h.t, pay(u), Wrap(u));
    SeenOfBuffer(h.t, pay(u), Wrap(u));
    SeenArrivedGrows(h.t.seenSet, buffered.seenSet, arrived, first, u);
    assert AdvanceBy(buffered, 0) == Step(buffered, []);
  }

  lemma SeenOfBuffer<P>(t: Tracker<P>, payload: P, s: u32)
    ensures Buffer(t, payload, s).seenSet <= t.seenSet + {s}
  {
  }

  /** An arrival a whole window ahead of the base forces the missing number to be given up. */
  lemma LostAhead<P>(h: History<P>, arrived: set<int>, first: int, n: nat, window: nat, pay: int -> P, u: int)
    requires window >= 1 && Kept(h, arrived, first, n, window, pay)
    requires u !in arrived && u >= Least(arrived, first) + window && u < first + n
    requires u - Least(arrived, first) < INTERLEAVE_GAP_FLOOR
    ensures Apply(window, h, Datagram(pay(u), Wrap(u), false)).t.missing > 0
  {
    hide Feed, Buffer, SeenArrived, AdvanceBy;
    var b := Least(arrived, first);
    SeenArrivedGrows(h.t.seenSet, {}, arrived, first, u);
    AheadFeeds(h.t, window, arrived, b, u, pay);
    var buffered := Buffer(h.t, pay(u), Wrap(u));
    HoldingBase(buffered.pending, Wrap(b), arrived + {u}, b, pay);
    var k := Forced(Furthest(buffered.pending, Wrap(b)), window);
    FirstLost(buffered, k);
  }

  lemma FirstLost<P>(t: Tracker<P>, k: nat)
    requires t.expected.Some? && t.expected.value !in t.pending && k > 0
    ensures AdvanceBy(t, k).t.missing > t.missing
  {
    MissingGrows(Advance(t).t, k - 1);
  }

  lemma {:induction false} MissingGrows<P>(t: Tracker<P>, k: nat)
    requires t.expected.Some?
    ensures AdvanceBy(t, k).t.missing >= t.missing
    decreases k
  {
    if k == 0 {
    } else {
      MissingGrows(Advance(t).t, k - 1);
    }
  }

  // ---------- Whole shuffles of a block ----------

  function Arrivals<P>(us: seq<int>, pay: int -> P): seq<Input<P>> {
    seq(|us|, i requires 0 <= i < |us| => Datagram(pay(us[i]), Wrap(us[i]), false))
  }

  function Arrived(us: seq<int>): set<int> {
    set x | x in us
  }

  /** Each of `n` consecutive positions once, the least of them first. */
  predicate Shuffle(us: seq<int>, n: nat) {
    && |us| == n && 0 < n <= MODULUS
    && (forall i :: 0 <= i < n ==> us[0] <= us[i] < us[0] + n)
    && (forall i, j :: 0 <= i < j < n ==> us[i] != us[j])
  }

  /** Arrival `i` is less than the window ahead of the least position still missing. */
  ghost predicate TimelyAt(us: seq<int>, i: nat, window: nat)
    requires 0 < i < |us|
  {
    us[i] < Least(Arrived(us[..i]), us[0]) + window
  }

  ghost predicate Timely(us: seq<int>, k: nat, window: nat)
    requires k <= |us|
  {
    forall i :: 0 < i < k ==> TimelyAt(us, i, window)
  }

  lemma NotYetArrived(us: seq<int>, n: nat, k: nat)
    requires Shuffle(us, n) && 0 < k < n
    ensures us[k] !in Arrived(us[..k]) && us[k] >= Least(Arrived(us[..k]), us[0])
    ensures Arrived(us[..k + 1]) == Arrived(us[..k]) + {us[k]}
    ensures Least(Arrived(us[..k]), us[0]) < us[0] + n
  {
    assert us[..k + 1] == us[..k] + [us[k]];
  }

  lemma {:induction false} SetRange(lo: int, n: nat) returns (s: set<int>)
    ensures |s| == n && forall x :: x in s <==> lo <= x < lo + n
  {
    if n == 0 {
      s := {};
    } else {
      s := SetRange(lo, n - 1);
      s := s + {lo + n - 1};
    }
  }

  lemma {:induction false} ArrivedSize(us: seq<int>)
    requires forall i, j :: 0 <= i < j < |us| ==> us[i] != us[j]
    ensures |Arrived(us)| == |us|
  {
    if us == [] {
    } else {
      var before, last := us[..|us| - 1], us[|us| - 1];
      ArrivedSize(before);
      assert us == before + [last];
      assert Arrived(us) == Arrived(before) + {last};
    }
  }

  /** Once the whole block has arrived nothing of it is missing. */
  lemma WholeBlock(us: seq<int>, n: nat)
    requires Shuffle(us, n)
    ensures Least(Arrived(us), us[0]) == us[0] + n
  {
    var range := SetRange(us[0], n);
    ArrivedSize(us);
    assert Arrived(us) <= range;
    Subset(Arrived(us), range);
    LeastUnique(Arrived(us), us[0], us[0] + n);
  }

  lemma Subset(a: set<int>, b: set<int>)
    requires a <= b && |a| == |b|
    ensures a == b
  {
    assert |b| == |a| + |b - a| by { assert b == a + (b - a); }
  }

  lemma FirstRebase<P>(s: u32)
    ensures Rebase(Fresh<P>(), s) == Tracker(Some(Next(s)), 1, 0, 0, 0, 0, 0, 0, [s], {s}, map[])
  {
  }

  lemma FirstHolding<P>(u: int, pay: int -> P)
    ensures Holding(map[], Next(Wrap(u)), {u}, u + 1, pay)
  {
    forall s: u32 ensures u + 1 + Dist(s, Next(Wrap(u))) != u {}
  }

  lemma FirstKept<P>(window: nat, u: int, n: nat, pay: int -> P)
    requires window >= 1 && 0 < n <= MODULUS
    ensures Kept(Run(window, [Datagram(pay(u), Wrap(u), false)]), {u}, u, n, window, pay)
  {
    hide Run, Rebase, Fresh, Holding;
    FirstDatagram(window, Wrap(u), pay(u));
    FirstRebase<P>(Wrap(u));
    FirstHolding(u, pay);
    WrapNext(u);
    LeastUnique({u}, u, u + 1);
    assert Block(pay, u, u + 1) == [pay(u)];
  }

  lemma ArrivalsStep<P>(us: seq<int>, pay: int -> P, k: nat)
    requires k < |us|
    ensures Arrivals(us[..k + 1], pay) == Arrivals(us[..k], pay) + [Datagram(pay(us[k]), Wrap(us[k]), false)]
  {
  }

  /** As long as every arrival is timely, everything is kept. */
  lemma {:induction false} TimelyKept<P>(window: nat, us: seq<int>, n: nat, pay: int -> P, k: nat)
    requires window >= 1 && Shuffle(us, n) && 0 < k <= n && Timely(us, k, window)
    requires window <= INTERLEAVE_GAP_FLOOR || n <= INTERLEAVE_GAP_FLOOR
    ensures Kept(Run(window, Arrivals(us[..k], pay)), Arrived(us[..k]), us[0], n, window, pay)
    decreases k
  {
    hide Run, Kept, Apply;
    if k == 1 {
      assert us[..1] == [us[0]] && Arrived([us[0]]) == {us[0]};
      assert Arrivals([us[0]], pay) == [Datagram(pay(us[0]), Wrap(us[0]), false)];
      FirstKept(window, us[0], n, pay);
    } else {
      var u, before := us[k - 1], us[..k - 1];
      TimelyKept(window, us, n, pay, k - 1);
      ArrivalsStep(us, pay, k - 1);
      RunLast(window, Arrivals(before, pay), Datagram(pay(u), Wrap(u), false));
      NotYetArrived(us, n, k - 1);
      assert TimelyAt(us, k - 1, window);
      var h := Run(window, Arrivals(before, pay));
      if u == Least(Arrived(before), us[0]) {
        KeptAtBase(h, Arrived(before), us[0], n, window, pay);
      } else {
        KeptAhead(h, Arrived(before), us[0], n, window, pay, u);
      }
    }
  }

  /**
   Any shuffle of a block of datagrams in which no arrival runs a window ahead of the least
   missing one comes out in exact sequence order, with nothing lost, repeated or reordered.
   */
  lemma ResequencesLosslessly<P>(window: nat, us: seq<int>, n: nat, pay: int -> P)
    requires 1 <= window <= INTERLEAVE_GAP_FLOOR && Shuffle(us, n) && Timely(us, n, window)
    ensures var h := Run(window, Arrivals(us, pay));
            && h.out == Block(pay, us[0], us[0] + n)
            && h.t.received == n && h.t.missing == h.t.dups == h.t.reordered == 0
  {
    hide Run;
    assert us[..n] == us;
    TimelyKept(window, us, n, pay, n);
    WholeBlock(us, n);
  }

  /** Nothing ever takes a loss back. */
  lemma MissingStays<P>(window: nat, h: History<P>, input: Input<P>)
    requires window >= 1
    ensures Apply(window, h, input).t.missing >= h.t.missing
  {
    match input
    case EndOfStream =>
      if h.t.expected.Some? {
        var k := FlushIsAdvance(h.t);
        MissingGrows(h.t, k);
      }
    case Datagram(payload, s, restart) =>
      hide Drain, Shrink;
      if Rebaselines(h.t, s, restart) || s == h.t.expected.value {
        var t := Rebase(if Rebaselines(h.t, s, restart) then Cleared(h.t, restart) else h.t, s);
        var k := DrainIsAdvance(t);
        MissingGrows(t, k);
      } else if Dist(s, h.t.expected.value) < HALF && s !in h.t.pending && s !in h.t.seenSet {
        var t := Buffer(h.t, payload, s);
        BufferFields(h.t, payload, s);
        var k := ShrinkIsAdvance(t, window, Furthest(t.pending, t.expected.value));
        MissingGrows(t, k);
      }
  }

  lemma {:induction false} LateLoses<P>(window: nat, us: seq<int>, n: nat, pay: int -> P, k: nat)
    requires window >= 1 && Shuffle(us, n) && n <= INTERLEAVE_GAP_FLOOR && 0 < k <= n && !Timely(us, k, window)
    ensures Run(window, Arrivals(us[..k], pay)).t.missing > 0
    decreases k
  {
    hide Run, Kept, Apply;
    var u, before := us[k - 1], us[..k - 1];
    ArrivalsStep(us, pay, k - 1);
    RunLast(window, Arrivals(before, pay), Datagram(pay(u), Wrap(u), false));
    var h := Run(window, Arrivals(before, pay));
    if Timely(us, k - 1, window) {
      assert !TimelyAt(us, k - 1, window);
      TimelyKept(window, us, n, pay, k - 1);
      NotYetArrived(us, n, k - 1);
      LostAhead(h, Arrived(before), us[0], n, window, pay, u);
    } else {
      LateLoses(window, us, n, pay, k - 1);
      MissingStays(window, h, Datagram(pay(u), Wrap(u), false));
    }
  }

  /** The bound is sharp: a shuffled block loses nothing if and only if every arrival is timely. */
  lemma LosslessExactlyWhenTimely<P>(window: nat, us: seq<int>, n: nat, pay: int -> P)
    requires window >= 1 && Shuffle(us, n) && n <= INTERLEAVE_GAP_FLOOR
    ensures Run(window, Arrivals(us, pay)).t.missing == 0 <==> Timely(us, n, window)
  {
    hide Run;
    assert us[..n] == us;
    if Timely(us, n, window) {
      TimelyKept(window, us, n, pay, n);
    } else {
      LateLoses(window, us, n, pay, n);
    }
  }
}
