/** The tracker object: its fields, and the methods that update them in loops. */
module Dge1 {
  import opened Circular
  import opened Wrappers
  import opened TrackerModel

  class Dge1SeqTracker<P> {
    const reorderWindow: int
    var expected: Option<u32>
    var received: nat
    var missing: nat
    var dups: nat
    var reordered: nat
    var trueDups: nat
    var restarts: nat
    var switches: nat
    var seen: seq<u32>
    var seenSet: set<u32>
    var pending: map<u32, P>

    ghost function State(): Tracker<P>
      reads this
    {
      Tracker(expected, received, missing, dups, reordered, trueDups,
                      restarts, switches, seen, seenSet, pending)
    }

    ghost predicate Valid()
      reads this
    {
      State().Valid()
    }

    constructor (reorderWindow: int)
      ensures this.reorderWindow == reorderWindow
      ensures Valid() && State() == Fresh()
    {
      this.reorderWindow := reorderWindow;
      expected, received, missing, dups, reordered, trueDups := None, 0, 0, 0, 0, 0;
      restarts, switches, seen, seenSet, pending := 0, 0, [], {}, map[];
    }

    method MarkSeen(s: u32)
      modifies `seen, `seenSet
      ensures State() == TrackerModel.MarkSeen(old(State()), s)
    {
      if s in seenSet {
        return;
      }
      if |seen| == SEEN_WINDOW {
        seenSet := seenSet - {seen[0]};
        seen := seen[1..];
      }
      seen := seen + [s];
      seenSet := seenSet + {s};
    }

    method Track(s: u32, restart: bool) returns (deliver: bool)
      requires Valid()
      modifies this
      ensures (State(), deliver) == TrackerModel.Track(old(State()), s, restart)
    {
      if restart || expected.None? {
        if restart && expected.Some? {
          restarts := restarts + 1;
        }
        expected, received := Some(Next(s)), received + 1;
        MarkSeen(s);
        return true;
      }
      if s == expected.value {
        expected, received := Some(Next(s)), received + 1;
        MarkSeen(s);
        return true;
      }
      var gap := Dist(s, expected.value);
      if gap < HALF {
        if gap >= INTERLEAVE_GAP_FLOOR {
          switches := switches + 1;
          expected, received := Some(Next(s)), received + 1;
          MarkSeen(s);
          return true;
        }
        missing := missing + gap;
        expected, received := Some(Next(s)), received + 1;
        MarkSeen(s);
        return true;
      }
      dups := dups + 1;
      if s in seenSet {
        trueDups := trueDups + 1;
      } else {
        reordered := reordered + 1;
        MarkSeen(s);
      }
      return false;
    }

    method Feed(payload: P, s: u32, restart: bool) returns (out: seq<P>)
      requires Valid()
      modifies this
      ensures Step(State(), out) == TrackerModel.Feed(old(State()), reorderWindow, payload, s, restart)
    {
      hide Drain, Enforce, TrackerModel.MarkSeen;
      if reorderWindow <= 0 {
        var deliver := Track(s, restart);
        return if deliver then [payload] else [];
      }
      if restart || expected.None? {
        if restart && expected.Some? {
          restarts := restarts + 1;
          pending := map[];
        }
        out := DeliverNow(payload, s);
        return;
      }
      var delta := Dist(s, expected.value);
      if delta == 0 {
        out := DeliverNow(payload, s);
        return;
      }
      if delta < HALF {
        if delta >= INTERLEAVE_GAP_FLOOR {
          switches := switches + 1;
          pending := map[];
          out := DeliverNow(payload, s);
          return;
        }
        if s in pending || s in seenSet {
          dups := dups + 1;
          trueDups := trueDups + 1;
          return [];
        }
        pending := pending[s := payload];
        MarkSeen(s);
        out := EnforceWindow();
        return;
      }
      dups := dups + 1;
      if s in seenSet {
        trueDups := trueDups + 1;
      } else {
        reordered := reordered + 1;
        MarkSeen(s);
      }
      return [];
    }

    /** The delivering tail shared by three branches of Feed. */
    method DeliverNow(payload: P, s: u32) returns (out: seq<P>)
      modifies this
      ensures Step(State(), out) == Deliver(old(State()), payload, s)
    {
      expected, received := Some(Next(s)), received + 1;
      MarkSeen(s);
      var rest := DrainContiguous();
      out := [payload] + rest;
    }

    /** Hand out or skip the base and move it up by one. */
    method AdvanceBase() returns (released: seq<P>)
      requires expected.Some?
      modifies `pending, `received, `missing, `expected
      ensures Step(State(), released) == Advance(old(State()))
    {
      var e := expected.value;
      if e in pending {
        released := [pending[e]];
        pending := pending - {e};
        received := received + 1;
      } else {
        released := [];
        missing := missing + 1;
      }
      expected := Some(Next(e));
    }

    method DrainContiguous() returns (out: seq<P>)
      requires expected.Some?
      modifies `pending, `received, `missing, `expected
      ensures Step(State(), out) == Drain(old(State()))
    {
      hide Drain, Advance;
      out := [];
      ghost var goal := Drain(State());
      while expected.value in pending
        invariant expected.Some?
        invariant goal == Resume(out, Drain(State()))
        decreases |pending|
      {
        DrainStep(State(), out);
        var released := AdvanceBase();
        out := out + released;
      }
      LoopsStop(State(), 0, 0);
    }

    /** The furthest buffered number, as a distance from the base. */
    method FurthestAhead() returns (hi: u32)
      requires expected.Some? && pending != map[]
      ensures hi == Furthest(pending, expected.value)
    {
      var rest := pending.Keys;
      assert rest != {};
      var best: u32 :| best in rest;
      rest := rest - {best};
      while rest != {}
        invariant rest <= pending.Keys && best in pending
        invariant forall s :: s in pending && s !in rest ==>
                    Dist(s, expected.value) <= Dist(best, expected.value)
        decreases |rest|
      {
        var s: u32 :| s in rest;
        if Dist(s, expected.value) > Dist(best, expected.value) {
          best := s;
        }
        rest := rest - {s};
      }
      hi := Dist(best, expected.value);
      FurthestUnique(pending, expected.value, hi);
    }

    method EnforceWindow() returns (out: seq<P>)
      requires expected.Some? && reorderWindow > 0
      modifies `pending, `received, `missing, `expected
      ensures Step(State(), out) == Enforce(old(State()), reorderWindow)
    {
      hide Shrink, Advance, Furthest, Remaining;
      out := [];
      if pending == map[] {
        return;
      }
      var hi := FurthestAhead();
      var hiAhead: int := hi;
      ghost var goal := Shrink(State(), reorderWindow, hi);
      while pending != map[] && (hiAhead >= reorderWindow || |pending| > reorderWindow)
        invariant expected.Some?
        invariant goal == Resume(out, Shrink(State(), reorderWindow, hiAhead))
        decreases |pending|, Remaining(State())
      {
        ShrinkStep(State(), reorderWindow, hiAhead, out);
        var released := AdvanceBase();
        out := out + released;
        hiAhead := hiAhead - 1;
      }
      LoopsStop(State(), reorderWindow, hiAhead);
    }

    method Flush() returns (out: seq<P>)
      requires Valid()
      modifies `pending, `received, `missing, `expected
      ensures Step(State(), out) == TrackerModel.Flush(old(State()))
    {
      hide TrackerModel.Flush, Advance, Remaining;
      out := [];
      ghost var goal := TrackerModel.Flush(State());
      while pending != map[]
        invariant Valid()
        invariant goal == Resume(out, TrackerModel.Flush(State()))
        decreases |pending|, Remaining(State())
      {
        FlushStep(State(), out);
        var released := AdvanceBase();
        out := out + released;
      }
    }
  }
}
