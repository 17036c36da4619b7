/** The DGE1 listener: datagrams parsed, resequenced, and handed out one payload a read. */
module UdpListen {
  import opened Bytes
  import opened Wrappers
  import opened Circular
  import opened TrackerModel
  import opened TrackerRuns
  import opened Dge1
  import opened Lossless
  import opened Sequences

  const DGE1_MAGIC: bytes := [0x44, 0x47, 0x45, 0x31]
  const DGE1_HDR := 12

  // ---------- The header ----------

  datatype Parsed = Parsed(payload: bytes, s: u32, restart: bool)

  function SeqOf(bs: bytes): u32
    requires |bs| == 4
  {
    Le32OfU32(bs);
    U32(bs[0], bs[1], bs[2], bs[3])
  }

  /** None for a datagram that is too short, is not DGE1, or announces more than it carries. */
  function ParseHeader(d: bytes): Option<Parsed> {
    if |d| < DGE1_HDR || d[..4] != DGE1_MAGIC then None
    else
      var plen := U16(d[10], d[11]);
      if DGE1_HDR + plen > |d| then None
      else Some(Parsed(d[DGE1_HDR..DGE1_HDR + plen], SeqOf(d[6..10]), d[5] % 2 == 1))
  }

  function Build(version: byte, flags: byte, s: u32, payload: bytes): (d: bytes)
    requires |payload| < 0x1_0000
    ensures |d| == DGE1_HDR + |payload|
  {
    DGE1_MAGIC + [version, flags] + Le32(s) + Le16(|payload|) + payload
  }

  /** A built datagram is parsed back, whatever follows its payload. */
  lemma ParseOfBuild(version: byte, flags: byte, s: u32, payload: bytes, tail: bytes)
    requires |payload| < 0x1_0000
    ensures ParseHeader(Build(version, flags, s, payload) + tail) == Some(Parsed(payload, s, flags % 2 == 1))
  {
    hide Le32, Le16, U32, U16;
    var d := Build(version, flags, s, payload) + tail;
    assert d[..4] == DGE1_MAGIC && d[5] == flags;
    assert d[6..10] == Le32(s);
    assert d[10] == Le16(|payload|)[0] && d[11] == Le16(|payload|)[1];
    assert d[DGE1_HDR..DGE1_HDR + |payload|] == payload;
  }

  /** And whatever is parsed was built so: only its version and unused flags are not looked at. */
  lemma ParsedIsBuilt(d: bytes)
    ensures var got := ParseHeader(d);
            got.Some? ==>
              var p := got.value;
              && |p.payload| < 0x1_0000 && 12 + |p.payload| <= |d| && d[..4] == [0x44, 0x47, 0x45, 0x31]
              && p.restart == (d[5] % 2 == 1)
              && d == Build(d[4], d[5], p.s, p.payload) + d[DGE1_HDR + |p.payload|..]
  {
    hide Le32, Le16, U32, U16;
    var got := ParseHeader(d);
    if got.Some? {
      var p := got.value;
      Le16OfU16(d[10], d[11]);
      Le32OfU32(d[6..10]);
      assert d[10..12] == [d[10], d[11]];
      assert d[..12] == d[..4] + [d[4], d[5]] + d[6..10] + d[10..12];
      assert d == d[..12] + p.payload + d[DGE1_HDR + |p.payload|..];
    }
  }

  // ---------- The listener ----------

  /** The tracker, the payloads it has released so far, and what else the object keeps. */
  datatype Listener = Listener(t: Tracker<bytes>, released: seq<bytes>, bad: nat, eof: bool)

  function Begin(): Listener {
    Listener(Fresh(), [], 0, false)
  }

  /** One datagram; an empty one is the end of the socket and releases what is still buffered. */
  ghost function Take(window: int, l: Listener, d: bytes): Listener {
    if d == [] then
      var step := Flush(l.t);
      l.(t := step.t, released := l.released + step.out, eof := true)
    else
      match ParseHeader(d)
      case None => l.(bad := l.bad + 1)
      case Some(p) =>
        var step := Feed(l.t, window, p.payload, p.s, p.restart);
        l.(t := step.t, released := l.released + step.out)
  }

  ghost function TakeAll(window: int, ds: seq<bytes>): Listener {
    if ds == [] then Begin() else Take(window, TakeAll(window, Init(ds)), Last(ds))
  }

  /** What the tracker is given: malformed datagrams never reach it. */
  function Inputs(ds: seq<bytes>): seq<Input<bytes>> {
    if ds == [] then [] else Inputs(Init(ds)) + InputOf(Last(ds))
  }

  function InputOf(d: bytes): (r: seq<Input<bytes>>)
    ensures |r| <= 1
  {
    if d == [] then [EndOfStream]
    else
      match ParseHeader(d)
      case None => []
      case Some(p) => [Datagram(p.payload, p.s, p.restart)]
  }

  /** The listener is a run of the tracker, and every datagram is an input or counted as malformed. */
  lemma {:induction false} ListenerRuns(window: int, ds: seq<bytes>)
    ensures var l := TakeAll(window, ds);
            var h := Run(window, Inputs(ds));
            l.t == h.t && l.released == h.out && l.bad + |Inputs(ds)| == |ds|
    decreases |ds|
  {
    hide Run, ParseHeader, Feed, Flush, Within, RepeatsAtBase, OriginAfter;
    if ds == [] {
      RunNothing(window, Inputs(ds));
    } else {
      ListenerRuns(window, Init(ds));
      var one := InputOf(Last(ds));
      if one != [] {
        RunLast(window, Inputs(Init(ds)), one[0]);
        assert one == [one[0]];
      } else {
        assert Inputs(Init(ds)) + [] == Inputs(Init(ds));
      }
    }
  }

  /** The slices of a stream, each in a datagram numbered by its position. */
  function Slices(us: seq<int>, pay: int -> bytes, version: byte): seq<bytes>
    requires forall u :: u in us ==> |pay(u)| < 0x1_0000
  {
    if us == [] then [] else Slices(Init(us), pay, version) + [Build(version, 0, Wrap(Last(us)), pay(Last(us)))]
  }

  lemma NoArrivals(us: seq<int>, pay: int -> bytes)
    requires us == []
    ensures Arrivals(us, pay) == []
  {
  }

  lemma {:induction false} InputsOfSlices(us: seq<int>, pay: int -> bytes, version: byte)
    requires forall u :: u in us ==> |pay(u)| < 0x1_0000
    ensures Inputs(Slices(us, pay, version)) == Arrivals(us, pay)
    decreases |us|
  {
    hide ParseHeader, Build, Arrivals;
    if us == [] {
      NoArrivals(us, pay);
    } else {
      var u := Last(us);
      assert u in us && forall x :: x in Init(us) ==> x in us;
      InputsOfSlices(Init(us), pay, version);
      ParseOfBuild(version, 0, Wrap(u), pay(u), []);
      var d := Build(version, 0, Wrap(u), pay(u));
      assert d + [] == d;
      assert Init(Slices(us, pay, version)) == Slices(Init(us), pay, version) && Last(Slices(us, pay, version)) == d;
      ArrivalsStep(us, pay, |us| - 1);
      assert us[..|us|] == us;
    }
  }

  /** A stream cut into slices that arrive shuffled, but in time, is released slice by slice in order. */
  lemma StreamRestored(window: nat, us: seq<int>, n: nat, pay: int -> bytes, version: byte)
    requires 1 <= window <= INTERLEAVE_GAP_FLOOR && Shuffle(us, n) && Timely(us, n, window)
    requires forall u :: u in us ==> |pay(u)| < 0x1_0000
    ensures var l := TakeAll(window, Slices(us, pay, version));
            l.released == Block(pay, us[0], us[0] + n) && l.t.received == n && l.bad == 0
  {
    hide TakeAll, Run, Slices, Shuffle, Timely, Block, Inputs;
    var ds := Slices(us, pay, version);
    SlicesLength(us, pay, version);
    InputsOfSlices(us, pay, version);
    ListenerRuns(window, ds);
    ResequencesLosslessly(window, us, n, pay);
  }

  lemma {:induction false} SlicesLength(us: seq<int>, pay: int -> bytes, version: byte)
    requires forall u :: u in us ==> |pay(u)| < 0x1_0000
    ensures |Slices(us, pay, version)| == |us|
    decreases |us|
  {
    hide Build;
    if us == [] {
    } else {
      assert forall x :: x in Init(us) ==> x in us;
      SlicesLength(Init(us), pay, version);
    }
  }

  // ---------- The transport ----------

  datatype ReadResult = Payload(payload: bytes) | EndOfFile | Blocked

  class UdpListenTransport {
    const tracker: Dge1SeqTracker<bytes>
    var socket: seq<bytes>
    var ready: seq<bytes>
    var eof: bool
    var bad: nat
    ghost var taken: seq<bytes>
    ghost var delivered: seq<bytes>

    ghost function State(): Listener
      reads this, tracker
    {
      Listener(tracker.State(), delivered + ready, bad, eof)
    }

    /** What was handed out and what is ready are what the tracker has released, in its order. */
    ghost predicate Valid()
      reads this, tracker
    {
      tracker.Valid() && State() == TakeAll(tracker.reorderWindow, taken)
    }

    constructor (socket: seq<bytes>, reorderWindow: int)
      ensures Valid() && fresh(tracker) && tracker.reorderWindow == reorderWindow
      ensures this.socket == socket && taken == [] && delivered == []
    {
      tracker := new Dge1SeqTracker(reorderWindow);
      this.socket, ready, eof, bad := socket, [], false, 0;
      taken, delivered := [], [];
    }

    method Receive(data: bytes)
      requires Valid() && !eof
      modifies this, tracker
      ensures Valid() && taken == old(taken) + [data] && delivered == old(delivered) && socket == old(socket)
      ensures eof == (data == [])
    {
      hide Feed, Flush, ParseHeader;
      assert Init(taken + [data]) == taken && Last(taken + [data]) == data;
      taken := taken + [data];
      if data == [] {
        eof := true;
        var rest := tracker.Flush();
        assert delivered + (ready + rest) == delivered + ready + rest;
        ready := ready + rest;
      } else {
        var parsed := ParseHeader(data);
        if parsed.None? {
          bad := bad + 1;
        } else {
          var p := parsed.value;
          var more := tracker.Feed(p.payload, p.s, p.restart);
          assert delivered + (ready + more) == delivered + ready + more;
          ready := ready + more;
        }
      }
    }

    /** The next payload in order, after as many datagrams as it takes: only the last one taken released any. */
    method Read() returns (r: ReadResult)
      requires Valid()
      modifies this, tracker
      ensures Valid()
      ensures old(taken) <= taken && taken + socket == old(taken) + old(socket)
      ensures delivered == old(delivered) + if r.Payload? then [r.payload] else []
      ensures taken != old(taken) ==>
                old(ready) == [] && TakeAll(tracker.reorderWindow, Init(taken)).released == old(delivered)
      ensures r.EndOfFile? ==> eof && ready == []
      ensures r.Blocked? ==> !eof && ready == [] && socket == []
    {
      hide TakeAll, Tracker.Valid;
      while ready == []
        invariant Valid() && delivered == old(delivered)
        invariant old(taken) <= taken && taken + socket == old(taken) + old(socket)
        invariant taken != old(taken) ==>
                    old(ready) == [] && TakeAll(tracker.reorderWindow, Init(taken)).released == old(delivered)
        decreases |socket|
      {
        if eof {
          return EndOfFile;
        }
        if socket == [] {
          return Blocked;
        }
        var data := socket[0];
        assert taken + socket == taken + [data] + socket[1..];
        socket := socket[1..];
        assert Init(taken + [data]) == taken && delivered + [] == delivered;
        Receive(data);
      }
      r := Payload(ready[0]);
      assert delivered + ready == delivered + [ready[0]] + ready[1..];
      delivered, ready := delivered + [ready[0]], ready[1..];
    }
  }
}
