/** What the reading loops return, for every buffer, every script and every cutting of the stream. */
module Replies {
  import opened Bytes
  import opened Wrappers
  import opened Hdlc
  import opened Client
  import opened Sequences

  // ---------- The first frame that answers ----------

  function ReadBy(c: Call, script: seq<Tick>): bytes {
    if script == [] then [] else Brought(c, script[0]) + ReadBy(c, script[1..])
  }

  /** The first frame with a verdict, or the number of frames. */
  function FirstVerdict(c: Call, frames: seq<bytes>): (i: nat)
    ensures i <= |frames| && (i < |frames| ==> Judge(c, frames[i]).Some?)
    ensures forall j :: 0 <= j < i ==> Judge(c, frames[j]).None?
  {
    if frames == [] || Judge(c, frames[0]).Some? then 0
    else
      var i := FirstVerdict(c, frames[1..]);
      assert forall j :: 0 < j < 1 + i ==> frames[j] == frames[1..][j - 1];
      1 + i
  }

  /** The bytes the call had before it: the buffer and what the consumed ticks brought. */
  function Heard(c: Call, pend: bytes, script: seq<Tick>, r: Reply): bytes
    requires |r.script| <= |script|
  {
    pend + ReadBy(c, script[..|script| - |r.script|])
  }

  /** `r` is the verdict on the first frame that has one, with all later bytes left in the buffer. */
  ghost predicate AnsweredFirst(c: Call, heard: bytes, r: Reply) {
    var parts := Split(heard);
    var i := FirstVerdict(c, Init(parts));
    if i < |parts| - 1 then
      Some(r.outcome) == Judge(c, parts[i]) && heard == Join(parts[..i + 1]) + [FLAG] + r.pend
    else
      r.pend == Last(parts) && r.outcome !in {NoOpcode} && !r.outcome.Packet?
  }

  /** Only the last tick consumed can have ended the call. */
  ghost predicate TicksSpent(c: Call, script: seq<Tick>, r: Reply) {
    && |r.script| <= |script| && r.script == script[|script| - |r.script|..]
    && (forall j :: 0 <= j < |script| - |r.script| - 1 ==> Interpret(c, script[j]).None?)
    && (r.outcome == Waiting ==> r.script == [])
    && (|script| > |r.script| ==>
          var last := script[|script| - |r.script| - 1];
          Interpret(c, last).None? || Interpret(c, last) == Some(r.outcome))
    && (r.outcome != Waiting && !r.outcome.Packet? && r.outcome != NoOpcode ==>
          |script| > |r.script| && Interpret(c, script[|script| - |r.script| - 1]) == Some(r.outcome))
  }

  lemma {:induction false} ListenSpendsTicks(c: Call, pend: bytes, script: seq<Tick>)
    ensures TicksSpent(c, script, Listen(c, pend, script))
    decreases |script|, |pend|
  {
    hide Judge, Interpret, Listen;
    var r := Listen(c, pend, script);
    if FLAG in pend {
      ListenFrame(c, pend, script);
      var i := FirstFlag(pend);
      if Judge(c, pend[..i]).None? {
        ListenSpendsTicks(c, pend[i + 1..], script);
      } else {
        JudgeVerdicts(c, pend[..i]);
      }
    } else {
      ListenTick(c, pend, script);
      if script != [] && Interpret(c, script[0]).None? {
        ListenSpendsTicks(c, pend + Brought(c, script[0]), script[1..]);
        var n := |script| - |r.script|;
        forall j | 0 <= j < n - 1 ensures Interpret(c, script[j]).None? {
          if j > 0 { assert script[j] == script[1..][j - 1]; }
        }
      } else if script != [] {
        InterpretVerdicts(c, script[0]);
      }
    }
  }

  lemma JudgeVerdicts(c: Call, frame: bytes)
    ensures Judge(c, frame).Some? ==> Judge(c, frame).value.Packet? || Judge(c, frame).value == NoOpcode
  {
  }

  lemma InterpretVerdicts(c: Call, tick: Tick)
    ensures Interpret(c, tick).Some? ==>
              var v := Interpret(c, tick).value; !v.Packet? && v != NoOpcode && v != Waiting
  {
  }

  lemma SplitFirst(frame: bytes, rest: bytes)
    requires FLAG !in frame
    ensures Split(frame + [FLAG] + rest) == [frame] + Split(rest)
  {
    SplitAtFlag(frame, rest);
    SplitFlagFree(frame);
  }

  lemma FirstVerdictCons(c: Call, frame: bytes, frames: seq<bytes>)
    ensures FirstVerdict(c, [frame] + frames) ==
            if Judge(c, frame).Some? then 0 else 1 + FirstVerdict(c, frames)
  {
    assert ([frame] + frames)[1..] == frames;
  }

  lemma {:induction false} JoinCons(frame: bytes, parts: seq<bytes>)
    requires parts != []
    ensures Join([frame] + parts) == frame + [FLAG] + Join(parts)
    decreases |parts|
  {
    if |parts| == 1 {
      assert Init([frame] + parts) == [frame];
    } else {
      assert Init([frame] + parts) == [frame] + Init(parts);
      JoinCons(frame, Init(parts));
    }
  }

  /** Putting one frame without a verdict in front changes nothing. */
  lemma AnsweredBehind(c: Call, frame: bytes, heard: bytes, r: Reply)
    requires FLAG !in frame && Judge(c, frame).None? && AnsweredFirst(c, heard, r)
    ensures AnsweredFirst(c, frame + [FLAG] + heard, r)
  {
    hide Judge, Split, Join, FirstVerdict;
    var parts := Split(heard);
    var all := [frame] + parts;
    SplitFirst(frame, heard);
    FirstVerdictCons(c, frame, Init(parts));
    assert Init(all) == [frame] + Init(parts);
    var i := FirstVerdict(c, Init(parts));
    if i < |parts| - 1 {
      assert all[..i + 2] == [frame] + parts[..i + 1];
      JoinCons(frame, parts[..i + 1]);
    }
  }

  lemma AnsweredNow(c: Call, frame: bytes, rest: bytes, r: Reply)
    requires FLAG !in frame && Judge(c, frame) == Some(r.outcome) && r.pend == rest
    ensures AnsweredFirst(c, frame + [FLAG] + rest, r)
  {
    hide Judge, Split;
    var parts := Split(rest);
    SplitFirst(frame, rest);
    assert Init([frame] + parts) == [frame] + Init(parts);
    FirstVerdictCons(c, frame, Init(parts));
    assert ([frame] + parts)[..1] == [frame];
  }

  lemma NotAnswered(c: Call, pend: bytes, r: Reply)
    requires FLAG !in pend && r.pend == pend && r.outcome != NoOpcode && !r.outcome.Packet?
    ensures AnsweredFirst(c, pend, r)
  {
    SplitFlagFree(pend);
  }

  /** A tick that ends the call, or a script that is over, leaves the open frame as it is. */
  lemma TickAnswers(c: Call, pend: bytes, script: seq<Tick>)
    requires FLAG !in pend && (script == [] || Interpret(c, script[0]).Some?)
    ensures var r := Listen(c, pend, script);
            |r.script| <= |script| && AnsweredFirst(c, Heard(c, pend, script, r), r)
  {
    hide Judge, Interpret, AnsweredFirst, Listen, Brought;
    ListenTick(c, pend, script);
    assert pend + [] == pend;
    if script == [] {
      NotAnswered(c, pend, Listen(c, pend, script));
    } else {
      InterpretVerdicts(c, script[0]);
      assert script[..1] == [script[0]];
      DecidingTickBringsNothing(c, script[0]);
      NotAnswered(c, pend, Listen(c, pend, script));
    }
  }

  /** A tick that brings bytes puts them behind the open frame. */
  lemma HeardBehindTick(c: Call, pend: bytes, script: seq<Tick>, r: Reply)
    requires script != [] && |r.script| < |script|
    ensures Heard(c, pend + Brought(c, script[0]), script[1..], r) == Heard(c, pend, script, r)
  {
    hide Brought;
    var n := |script| - |r.script|;
    assert script[..n][1..] == script[1..][..n - 1] && script[..n][0] == script[0];
    var more, later := Brought(c, script[0]), ReadBy(c, script[1..][..n - 1]);
    assert pend + more + later == pend + (more + later);
  }

  /**
   A call returns the verdict on the first frame, in stream order, that has one; everything after
   that frame's flag stays in the buffer. Without such a frame it keeps exactly the open frame.
   */
  lemma {:induction false} ListenAnswersFirst(c: Call, pend: bytes, script: seq<Tick>)
    ensures var r := Listen(c, pend, script);
            |r.script| <= |script| && AnsweredFirst(c, Heard(c, pend, script, r), r)
    decreases |script|, |pend|
  {
    hide Judge, Interpret, AnsweredFirst, Listen, Brought;
    var r := Listen(c, pend, script);
    ListenSpendsTicks(c, pend, script);
    if FLAG in pend {
      var i := FirstFlag(pend);
      var frame, rest := pend[..i], pend[i + 1..];
      ListenFrame(c, pend, script);
      assert pend == frame + [FLAG] + rest;
      var more := ReadBy(c, script[..|script| - |r.script|]);
      if Judge(c, frame).Some? {
        assert script[..0] == [] && pend + [] == pend;
        AnsweredNow(c, frame, rest, r);
      } else {
        ListenAnswersFirst(c, rest, script);
        AnsweredBehind(c, frame, rest + more, r);
        assert frame + [FLAG] + (rest + more) == pend + more;
      }
    } else if script == [] || Interpret(c, script[0]).Some? {
      TickAnswers(c, pend, script);
    } else {
      ListenTick(c, pend, script);
      ListenAnswersFirst(c, pend + Brought(c, script[0]), script[1..]);
      HeardBehindTick(c, pend, script, r);
    }
  }

  lemma DecidingTickBringsNothing(c: Call, tick: Tick)
    requires Interpret(c, tick).Some?
    ensures Brought(c, tick) == [] && ReadBy(c, [tick]) == []
  {
  }

  // ---------- Deadlines ----------

  /** A deadline that some tick of the script has reached. */
  ghost predicate DeadlinePassesAt(c: Call, script: seq<Tick>, k: nat) {
    k < |script| && c.deadline.Some? && script[k].now >= c.deadline.value
  }

  /**
   The first clock reading at or after the deadline is the last one the call takes: it returns
   there at the latest, and every byte it has looked at was read before the deadline.
   */
  lemma DeadlineEndsCall(c: Call, pend: bytes, script: seq<Tick>, k: nat)
    requires DeadlinePassesAt(c, script, k)
    ensures var r := Listen(c, pend, script);
            var n := |script| - |r.script|;
            && r.outcome != Waiting && n <= k + 1
            && (forall j :: 0 <= j < n && DeadlinePassesAt(c, script, j) ==> Brought(c, script[j]) == [])
  {
    hide Listen;
    ListenSpendsTicks(c, pend, script);
    assert Interpret(c, script[k]).Some?;
  }

  /** Even if the modem never stops sending frames that answer nothing, the call times out. */
  lemma TimesOutUnderFlood(c: Call, pend: bytes, script: seq<Tick>, k: nat)
    requires c.request.Some? && DeadlinePassesAt(c, script, k)
    requires forall j :: 0 <= j < |script| ==> script[j].socket.Data? && script[j].socket.chunk != []
    requires forall n :: 0 <= n <= |script| ==> NothingAnswers(c, pend, script, n)
    ensures Listen(c, pend, script).outcome == TimedOut
  {
    hide Listen, FirstVerdict, Interpret, ReadBy, Split, Join, Judge;
    ListenAnswersFirst(c, pend, script);
    ListenSpendsTicks(c, pend, script);
    DeadlineEndsCall(c, pend, script, k);
    var r := Listen(c, pend, script);
    var n := |script| - |r.script|;
    assert NothingAnswers(c, pend, script, n);
    if n > 0 {
      FloodTick(c, script[n - 1]);
    }
  }

  ghost predicate NothingAnswers(c: Call, pend: bytes, script: seq<Tick>, n: nat)
    requires n <= |script|
  {
    var frames := Init(Split(pend + ReadBy(c, script[..n])));
    FirstVerdict(c, frames) == |frames|
  }

  lemma FloodTick(c: Call, tick: Tick)
    requires c.request.Some? && tick.socket.Data? && tick.socket.chunk != []
    ensures Interpret(c, tick).None? || Interpret(c, tick) == Some(TimedOut)
  {
  }

  // ---------- What ends a call ----------

  /**
   A tick that neither ends the call nor is a passing fault. Receiving waits on while nothing is there, and a
   read error ends it; waiting for a reply is the other way round.
   */
  predicate Passes(c: Call, tick: Tick) {
    && (c.deadline.Some? ==> tick.now < c.deadline.value)
    && (c.request.None? ==> !tick.stop)
    && match tick.socket
       case NotReady => c.request.None?
       case Data(chunk) => chunk != []
       case TransientError => c.request.Some?
       case FatalError => false
  }

  /** The bytes that the ticks of a script carry. */
  function Chunks(script: seq<Tick>): bytes {
    if script == [] then []
    else (if script[0].socket.Data? then script[0].socket.chunk else []) + Chunks(script[1..])
  }

  lemma PassingIsOpen(c: Call, tick: Tick)
    ensures Passes(c, tick) <==> Interpret(c, tick).None?
  {
  }

  lemma {:induction false} PassingBrings(c: Call, script: seq<Tick>)
    requires forall j :: 0 <= j < |script| ==> Passes(c, script[j])
    ensures Open(c, script) && ReadBy(c, script) == Chunks(script)
    decreases script
  {
    hide Passes, Interpret;
    forall j | 0 <= j < |script| ensures Interpret(c, script[j]).None? { PassingIsOpen(c, script[j]); }
    if script == [] {
    } else {
      assert forall j :: 0 <= j < |script| - 1 ==> script[1..][j] == script[j + 1];
      PassingBrings(c, script[1..]);
    }
  }

  /** The first tick that does not pass ends a call that nothing has answered, and how depends on that tick alone. */
  lemma HowCallsEnd(c: Call, pend: bytes, script: seq<Tick>, k: nat)
    requires k < |script| && !Passes(c, script[k]) && forall j :: 0 <= j < k ==> Passes(c, script[j])
    requires forall n :: 0 <= n <= k ==> NothingAnswers(c, pend, script, n)
    ensures var r, tick := Listen(c, pend, script), script[k];
            && r.script == script[k + 1..]
            && r.outcome == if c.request.None? && tick.stop then Interrupted
                            else if (c.deadline.Some? && tick.now >= c.deadline.value) || tick.socket.NotReady?
                            then TimedOut
                            else if tick.socket.Data? then Closed else Failed
  {
    hide Listen, FirstVerdict, ReadBy, Split, Join, Judge;
    ListenAnswersFirst(c, pend, script);
    ListenSpendsTicks(c, pend, script);
    var r := Listen(c, pend, script);
    var n := |script| - |r.script|;
    assert forall j :: 0 <= j < |script| ==> (Passes(c, script[j]) <==> Interpret(c, script[j]).None?);
    assert n <= k ==> NothingAnswers(c, pend, script, n);
    assert n == k + 1;
  }

  // ---------- Sub-operations that share an opcode ----------

  /** A 0x73 body names its operation in the 32-bit word at offset 3. */
  function LogConfigReplyMatches(opcode: byte, body: bytes, operation: int): bool {
    opcode == DIAG_LOG_CONFIG_F && |body| >= 7 && U16(body[3], body[4]) + 0x1_0000 * U16(body[5], body[6]) == operation
  }

  /** A packet of opcode 0x73 with this operation in its bytes 4 to 7, the low byte first. */
  predicate NamesOperation(p: bytes, operation: int) {
    |p| >= 8 && p[0] == 0x73 &&
    var (a: int, b: int, c: int, d: int) := (p[4], p[5], p[6], p[7]);
    a + 0x100 * b + 0x1_0000 * c + 0x100_0000 * d == operation
  }

  /** The test accepts exactly such packets. */
  lemma MatchesOperation(p: bytes, operation: int)
    requires p != []
    ensures LogConfigReplyMatches(p[0], p[1..], operation) <==> NamesOperation(p, operation)
  {
  }

  /** A log-configuration request is never answered by the reply of another operation. */
  lemma NeverBindsOtherOperation(noCrc: bool, deadline: int, operation: int, pend: bytes, script: seq<Tick>)
    ensures var matches := (op: byte, body: bytes) => LogConfigReplyMatches(op, body, operation);
            var r := Listen(Call(noCrc, Some(deadline), Some(Request(DIAG_LOG_CONFIG_F, Some(matches)))), pend, script);
            r.outcome.Packet? ==>
              && r.outcome.payload != []
              && (r.outcome.payload[0] == 0x13 || NamesOperation(r.outcome.payload, operation))
  {
    hide Listen, Split, FirstVerdict, Decapsulate;
    var matches := (op: byte, body: bytes) => LogConfigReplyMatches(op, body, operation);
    ListenAnswersFirst(Call(noCrc, Some(deadline), Some(Request(DIAG_LOG_CONFIG_F, Some(matches)))), pend, script);
  }

  // ---------- Round trips ----------

  function Stream(frames: seq<bytes>): bytes {
    if frames == [] then [] else frames[0] + [FLAG] + Stream(frames[1..])
  }

  /** The verdicts of the frames that have one, in order. */
  function Verdicts(c: Call, frames: seq<bytes>): seq<Outcome> {
    if frames == [] then []
    else
      var v := Judge(c, frames[0]);
      (if v.Some? then [v.value] else []) + Verdicts(c, frames[1..])
  }

  /** What `k` calls in a row return. */
  function Calls(c: Call, k: nat, pend: bytes, script: seq<Tick>): seq<Outcome>
    decreases k
  {
    if k == 0 then []
    else
      var r := Listen(c, pend, script);
      [r.outcome] + Calls(c, k - 1, r.pend, r.script)
  }

  /** No tick ends the call by itself. */
  ghost predicate Open(c: Call, script: seq<Tick>) {
    forall j :: 0 <= j < |script| ==> Interpret(c, script[j]).None?
  }

  /** However the stream is cut, its first frame is judged and the rest still lies ahead. */
  lemma {:induction false} OneFrame(c: Call, pend: bytes, script: seq<Tick>, frame: bytes, rest: bytes)
    returns (pend': bytes, script': seq<Tick>)
    requires Open(c, script) && FLAG !in frame && pend + ReadBy(c, script) == frame + [FLAG] + rest
    ensures Open(c, script') && pend' + ReadBy(c, script') == rest
    ensures Listen(c, pend, script) ==
            if Judge(c, frame).Some? then Reply(Judge(c, frame).value, pend', script') else Listen(c, pend', script')
    decreases |script|
  {
    hide Judge, Interpret, Listen, Brought;
    assert (frame + [FLAG] + rest)[|frame|] == FLAG;
    assert script == [] ==> pend == frame + [FLAG] + rest;
    if FLAG in pend {
      ListenFrame(c, pend, script);
      var i := FirstFlag(pend);
      FlagPosition(frame, rest, pend, ReadBy(c, script), i);
      pend', script' := pend[i + 1..], script;
    } else {
      ListenTick(c, pend, script);
      var more := Brought(c, script[0]);
      assert pend + more + ReadBy(c, script[1..]) == pend + ReadBy(c, script);
      pend', script' := OneFrame(c, pend + more, script[1..], frame, rest);
    }
  }

  lemma FlagPosition(frame: bytes, rest: bytes, pend: bytes, later: bytes, i: nat)
    requires pend + later == frame + [FLAG] + rest && FLAG !in frame
    requires i < |pend| && pend[i] == FLAG && FLAG !in pend[..i]
    ensures pend[..i] == frame && pend[i + 1..] + later == rest
  {
    var whole := frame + [FLAG] + rest;
    assert whole[i] == FLAG && whole[|frame|] == FLAG;
    assert forall j :: 0 <= j < |frame| ==> whole[j] == frame[j] && frame[j] != FLAG;
    assert forall j :: 0 <= j < i ==> whole[j] == pend[..i][j] && pend[..i][j] != FLAG;
    assert (pend + later)[i + 1..] == whole[i + 1..];
  }

  /** Successive calls return the verdicts of a stream's frames, whatever the chunks. */
  lemma {:induction false} CallsReturnVerdicts(c: Call, pend: bytes, script: seq<Tick>, frames: seq<bytes>)
    requires Open(c, script) && FlagFree(frames) && pend + ReadBy(c, script) == Stream(frames)
    ensures Calls(c, |Verdicts(c, frames)|, pend, script) == Verdicts(c, frames)
    decreases |frames|
  {
    hide Judge, Interpret, Listen;
    if frames == [] {
    } else {
      assert frames[0] in frames;
      forall p | p in frames[1..] ensures FLAG !in p { assert p in frames; }
      var pend', script' := OneFrame(c, pend, script, frames[0], Stream(frames[1..]));
      CallsReturnVerdicts(c, pend', script', frames[1..]);
      var n := |Verdicts(c, frames[1..])|;
      if Judge(c, frames[0]).None? {
        CallsFromEqualStates(c, n, pend, script, pend', script');
      }
    }
  }

  lemma CallsFromEqualStates(c: Call, k: nat, pend: bytes, script: seq<Tick>, pend': bytes, script': seq<Tick>)
    requires Listen(c, pend, script) == Listen(c, pend', script')
    ensures Calls(c, k, pend, script) == Calls(c, k, pend', script')
  {
    hide Listen;
  }

  /** Frames, one for each packet, as the other side sends them. */
  function Sent(packets: seq<bytes>): seq<bytes> {
    if packets == [] then [] else [Init(Encapsulate(packets[0]))] + Sent(packets[1..])
  }

  function Received(packets: seq<bytes>): seq<Outcome> {
    if packets == [] then [] else [Packet(packets[0])] + Received(packets[1..])
  }

  lemma {:induction false} VerdictsOfSent(c: Call, packets: seq<bytes>)
    requires c.request.None? && [] !in packets
    ensures Verdicts(c, Sent(packets)) == Received(packets) && FlagFree(Sent(packets))
    decreases |packets|
  {
    hide Encapsulate, Decapsulate;
    if packets == [] {
    } else {
      assert packets[0] in packets;
      DecapsulateOfEncapsulate(packets[0], c.noCrc);
      forall p | p in packets[1..] ensures p != [] { assert p in packets; }
      VerdictsOfSent(c, packets[1..]);
      assert Sent(packets)[1..] == Sent(packets[1..]);
    }
  }

  lemma {:induction false} VerdictsConcat(c: Call, a: seq<bytes>, b: seq<bytes>)
    ensures Verdicts(c, a + b) == Verdicts(c, a) + Verdicts(c, b)
    decreases |a|
  {
    hide Judge;
    if a == [] {
      assert a + b == b;
    } else {
      assert (a + b)[1..] == a[1..] + b;
      VerdictsConcat(c, a[1..], b);
      assert (a + b)[0] == a[0];
    }
  }

  lemma {:induction false} StreamConcat(a: seq<bytes>, b: seq<bytes>)
    ensures Stream(a + b) == Stream(a) + Stream(b)
    decreases |a|
  {
    if a == [] {
      assert a + b == b;
    } else {
      assert (a + b)[1..] == a[1..] + b;
      StreamConcat(a[1..], b);
    }
  }

  lemma StreamOne(frame: bytes)
    ensures Stream([frame]) == frame + [FLAG]
  {
    assert Stream([frame][1..]) == [];
  }

  /** Any bytes ended by a flag are a stream of frames. */
  lemma {:induction false} StreamOfSplit(parts: seq<bytes>)
    requires parts != []
    ensures Stream(parts) == Join(parts) + [FLAG]
    decreases |parts|
  {
    StreamConcat(Init(parts), [Last(parts)]);
    assert parts == Init(parts) + [Last(parts)];
    StreamOne(Last(parts));
    if |parts| == 1 {
      assert Init(parts) == [];
    } else {
      StreamOfSplit(Init(parts));
    }
  }

  lemma PacketsThroughOpen(c: Call, garbage: bytes, packets: seq<bytes>, script: seq<Tick>)
    requires c.request.None? && [] !in packets && Open(c, script)
    requires ReadBy(c, script) == garbage + [FLAG] + Stream(Sent(packets))
    ensures var noise := Verdicts(c, Split(garbage));
            Calls(c, |noise| + |packets|, [], script) == noise + Received(packets)
  {
    hide Listen, Split, Join, Verdicts, Sent, Received, Calls, Stream, Brought;
    var frames := Split(garbage) + Sent(packets);
    SplitJoins(garbage);
    StreamOfSplit(Split(garbage));
    StreamConcat(Split(garbage), Sent(packets));
    VerdictsOfSent(c, packets);
    VerdictsConcat(c, Split(garbage), Sent(packets));
    ReceivedLength(packets);
    assert [] + ReadBy(c, script) == ReadBy(c, script);
    CallsReturnVerdicts(c, [], script, frames);
  }

  /**
   Packets survive the wire: after any garbage closed by a flag, in any chunks, with quiet ticks in
   between, with or without the CRC check, the calls return what the garbage itself amounts to and
   then every packet, unchanged and in order.
   */
  lemma PacketsSurvive(c: Call, garbage: bytes, packets: seq<bytes>, script: seq<Tick>)
    requires c.request.None? && [] !in packets && forall j :: 0 <= j < |script| ==> Passes(c, script[j])
    requires Chunks(script) == garbage + [FLAG] + Stream(Sent(packets))
    ensures var noise := Verdicts(c, Split(garbage));
            Calls(c, |noise| + |packets|, [], script) == noise + Received(packets)
  {
    hide Verdicts, Sent, Received, Calls, Stream, Split, Passes, Open;
    PassingBrings(c, script);
    PacketsThroughOpen(c, garbage, packets, script);
  }

  lemma {:induction false} ReceivedLength(packets: seq<bytes>)
    ensures |Received(packets)| == |packets|
    decreases |packets|
  {
    if packets == [] {
    } else {
      ReceivedLength(packets[1..]);
    }
  }

  /** A packet without an opcode is an error for either call. */
  lemma EmptyPacketFails(c: Call)
    ensures Judge(c, Init(Encapsulate([]))) == Some(NoOpcode)
  {
    hide Encapsulate, Decapsulate;
    DecapsulateOfEncapsulate([], c.noCrc);
  }

  // ---------- Requests and their replies ----------

  /** A packet that a waiting request lets pass: of another kind, or of its own kind and not what it asked for. */
  predicate Unwanted(r: Request, packet: bytes) {
    packet != [] &&
    if packet[0] == r.opcode then r.matches.Some? && !(r.matches.value)(packet[0], packet[1..])
    else packet[0] != 0x13
  }

  /** What it waits for: its own opcode with a body it accepts, or the modem's rejection. */
  predicate Awaited(r: Request, packet: bytes) {
    && packet != []
    && if packet[0] == r.opcode then r.matches.Some? ==> (r.matches.value)(packet[0], packet[1..])
       else packet[0] == 0x13
  }

  lemma JudgeOfSent(c: Call, packet: bytes)
    requires c.request.Some? && packet != []
    ensures var frame := Init(Encapsulate(packet));
            && FLAG !in frame && Encapsulate(packet) == frame + [FLAG]
            && (Unwanted(c.request.value, packet) ==> Judge(c, frame).None?)
            && (Awaited(c.request.value, packet) ==> Judge(c, frame) == Some(Packet(packet)))
  {
    hide Decapsulate, Escape;
    DecapsulateOfEncapsulate(packet, c.noCrc);
  }

  /**
   A request is answered: after any packets that are not its reply, in any chunks before the deadline and
   through passing faults, the first packet it waits for is returned, and all that follows is left for later.
   */
  lemma {:induction false} ReplyIsReturned(c: Call, others: seq<bytes>, reply: bytes, later: bytes,
                                           pend: bytes, script: seq<Tick>)
    requires c.request.Some? && forall j :: 0 <= j < |script| ==> Passes(c, script[j])
    requires (forall p :: p in others ==> Unwanted(c.request.value, p)) && Awaited(c.request.value, reply)
    requires pend + Chunks(script) == Stream(Sent(others)) + Encapsulate(reply) + later
    ensures var r := Listen(c, pend, script);
            r.outcome == Packet(reply) && r.pend + Chunks(r.script) == later
    decreases |others|
  {
    hide Listen, Encapsulate, Judge, Passes, Awaited, Unwanted, Interpret;
    PassingBrings(c, script);
    assert reply != [] by { AwaitedNonEmpty(c.request.value, reply); }
    JudgeOfSent(c, reply);
    if others == [] {
      var frame := Init(Encapsulate(reply));
      assert Stream(Sent(others)) + Encapsulate(reply) + later == frame + [FLAG] + later;
      var pend', script' := OneFrame(c, pend, script, frame, later);
      OpenPasses(c, script');
      PassingBrings(c, script');
    } else {
      var first, rest := others[0], Stream(Sent(others[1..])) + Encapsulate(reply) + later;
      assert first in others;
      AwaitedNonEmpty(c.request.value, first);
      JudgeOfSent(c, first);
      var frame := Init(Encapsulate(first));
      assert Sent(others)[1..] == Sent(others[1..]);
      assert Stream(Sent(others)) + Encapsulate(reply) + later == frame + [FLAG] + rest;
      var pend', script' := OneFrame(c, pend, script, frame, rest);
      OpenPasses(c, script');
      PassingBrings(c, script');
      ReplyIsReturned(c, others[1..], reply, later, pend', script');
    }
  }

  lemma AwaitedNonEmpty(r: Request, packet: bytes)
    requires Awaited(r, packet) || Unwanted(r, packet)
    ensures packet != []
  {
  }

  lemma OpenPasses(c: Call, script: seq<Tick>)
    requires Open(c, script)
    ensures forall j :: 0 <= j < |script| ==> Passes(c, script[j])
  {
    hide Passes, Interpret;
    forall j | 0 <= j < |script| ensures Passes(c, script[j]) { PassingIsOpen(c, script[j]); }
  }
}
