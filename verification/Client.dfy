/**
 Receiving packets and matching a reply to its request. The transport and the clock are a script:
 each tick is one pass of the reading loop, with what the clock, the stop event and the socket say.
 */
module Client {
  import opened Bytes
  import opened Wrappers
  import opened Hdlc

  const DIAG_BAD_CMD_F: byte := 0x13
  const DIAG_LOG_CONFIG_F: byte := 0x73

  datatype Socket = NotReady | Data(chunk: bytes) | TransientError | FatalError

  datatype Tick = Tick(now: int, stop: bool, socket: Socket)

  datatype Outcome =
    | Packet(payload: bytes)
    | TimedOut
    | Interrupted
    | Closed        // end of file
    | Failed        // a read error that is not retried
    | NoOpcode      // an empty payload, indexed at 0
    | Waiting       // the script ends while the call still waits

  datatype Reply = Reply(outcome: Outcome, pend: bytes, script: seq<Tick>)

  /** What distinguishes the two reading loops. */
  datatype Call = Call(noCrc: bool, deadline: Option<int>, request: Option<Request>)

  /** The opcode a request waits for and the test its body must pass. */
  datatype Request = Request(opcode: byte, matches: Option<(byte, bytes) -> bool>)

  // ---------- One frame ----------

  /** Whether a payload ends the call. */
  predicate Answers(c: Call, payload: bytes)
    requires payload != []
  {
    match c.request
    case None => true
    case Some(r) =>
      if payload[0] == r.opcode then r.matches.None? || (r.matches.value)(payload[0], payload[1..])
      else payload[0] == DIAG_BAD_CMD_F
  }

  /** What a frame makes of the call: nothing, an answer, or a crash on an empty payload. */
  function Judge(c: Call, frame: bytes): Option<Outcome> {
    match Decapsulate(frame, c.noCrc)
    case None => None
    case Some(payload) =>
      if payload == [] then Some(NoOpcode)
      else if Answers(c, payload) then Some(Packet(payload))
      else None
  }

  /** What a tick makes of the call while no frame is complete, unless it brings data. */
  function Interpret(c: Call, tick: Tick): Option<Outcome> {
    if c.request.None? && tick.stop then Some(Interrupted)
    else if c.deadline.Some? && tick.now >= c.deadline.value then Some(TimedOut)
    else
      match tick.socket
      case NotReady => if c.request.Some? then Some(TimedOut) else None
      case TransientError => if c.request.Some? then None else Some(Failed)
      case FatalError => Some(Failed)
      case Data(chunk) => if chunk == [] then Some(Closed) else None
  }

  /** The bytes a tick adds to the buffer. */
  function Brought(c: Call, tick: Tick): bytes {
    if Interpret(c, tick).None? && tick.socket.Data? then tick.socket.chunk else []
  }

  // ---------- The loop ----------

  /** The position of the first flag. */
  function FirstFlag(s: bytes): (i: nat)
    requires FLAG in s
    ensures i < |s| && s[i] == FLAG && FLAG !in s[..i]
  {
    if s[0] == FLAG then 0
    else
      assert s == [s[0]] + s[1..];
      var i := 1 + FirstFlag(s[1..]);
      assert s[..i] == [s[0]] + s[1..][..i - 1];
      i
  }

  /** The reading loop as a function of the buffer and the script. */
  function Listen(c: Call, pend: bytes, script: seq<Tick>): Reply
    decreases |script|, |pend|
  {
    if FLAG in pend then
      var i := FirstFlag(pend);
      var verdict := Judge(c, pend[..i]);
      if verdict.Some? then Reply(verdict.value, pend[i + 1..], script)
      else Listen(c, pend[i + 1..], script)
    else if script == [] then Reply(Waiting, pend, script)
    else
      var verdict := Interpret(c, script[0]);
      if verdict.Some? then Reply(verdict.value, pend, script[1..])
      else Listen(c, pend + Brought(c, script[0]), script[1..])
  }

  lemma ListenFrame(c: Call, pend: bytes, script: seq<Tick>)
    requires FLAG in pend
    ensures var i := FirstFlag(pend);
            var verdict := Judge(c, pend[..i]);
            Listen(c, pend, script) ==
            if verdict.Some? then Reply(verdict.value, pend[i + 1..], script) else Listen(c, pend[i + 1..], script)
  {
  }

  lemma ListenTick(c: Call, pend: bytes, script: seq<Tick>)
    requires FLAG !in pend
    ensures script == [] ==> Listen(c, pend, script) == Reply(Waiting, pend, script)
    ensures script != [] ==>
              var verdict := Interpret(c, script[0]);
              Listen(c, pend, script) ==
              if verdict.Some? then Reply(verdict.value, pend, script[1..])
              else Listen(c, pend + Brought(c, script[0]), script[1..])
  {
  }

  class DiagClient {
    const noCrc: bool
    var pend: bytes
    var script: seq<Tick>
    var written: seq<bytes>

    constructor (noCrc: bool, script: seq<Tick>)
      ensures this.noCrc == noCrc && pend == [] && this.script == script && written == []
    {
      this.noCrc := noCrc;
      pend, this.script, written := [], script, [];
    }

    method Send(opcode: byte, payload: bytes)
      modifies `written
      ensures written == old(written) + [Encapsulate([opcode] + payload)]
    {
      written := written + [Encapsulate([opcode] + payload)];
    }

    /** Take one frame off the buffer. */
    method TakeFrame() returns (frame: bytes)
      requires FLAG in pend
      modifies `pend
      ensures var i := FirstFlag(old(pend)); frame == old(pend)[..i] && pend == old(pend)[i + 1..]
    {
      var i := FirstFlag(pend);
      frame := pend[..i];
      pend := pend[i + 1..];
    }

    method Recv(deadline: Option<int>) returns (outcome: Outcome)
      modifies `pend, `script
      ensures Reply(outcome, pend, script) == Listen(Call(noCrc, deadline, None), old(pend), old(script))
    {
      hide Listen, Decapsulate;
      ghost var c := Call(noCrc, deadline, None);
      ghost var goal := Listen(c, pend, script);
      while true
        invariant goal == Listen(c, pend, script)
        decreases |script|, |pend|
      {
        ghost var pend0, script0 := pend, script;
        while FLAG !in pend
          invariant goal == Listen(c, pend, script)
          invariant |script| < |script0| || (script == script0 && pend == pend0)
          decreases |script|
        {
          ListenTick(c, pend, script);
          if script == [] {
            return Waiting;
          }
          var tick := script[0];
          script := script[1..];
          if tick.stop {
            return Interrupted;
          }
          if deadline.Some? && tick.now >= deadline.value {
            return TimedOut;
          }
          match tick.socket
          case NotReady =>
            assert pend + [] == pend;
          case Data(chunk) =>
            if chunk == [] {
              return Closed;
            }
            pend := pend + chunk;
          case TransientError => return Failed;
          case FatalError => return Failed;
        }
        ListenFrame(c, pend, script);
        var frame := TakeFrame();
        var payload := Decapsulate(frame, noCrc);
        if payload.Some? {
          return if payload.value == [] then NoOpcode else Packet(payload.value);
        }
      }
    }

    method SendRecv(opcode: byte, payload: bytes, deadline: int, matches: Option<(byte, bytes) -> bool>)
      returns (outcome: Outcome)
      modifies this
      ensures written == old(written) + [Encapsulate([opcode] + payload)]
      ensures Reply(outcome, pend, script) ==
              Listen(Call(noCrc, Some(deadline), Some(Request(opcode, matches))), old(pend), old(script))
    {
      hide Listen, Decapsulate, Encapsulate;
      Send(opcode, payload);
      ghost var c := Call(noCrc, Some(deadline), Some(Request(opcode, matches)));
      ghost var goal, sent := Listen(c, pend, script), written;
      while true
        invariant written == sent && goal == Listen(c, pend, script)
        decreases |script|, |pend|
      {
        ghost var pend0, script0 := pend, script;
        while FLAG !in pend
          invariant written == sent && goal == Listen(c, pend, script)
          invariant |script| < |script0| || (script == script0 && pend == pend0)
          decreases |script|
        {
          ListenTick(c, pend, script);
          if script == [] {
            return Waiting;
          }
          var tick := script[0];
          script := script[1..];
          if tick.now >= deadline {
            return TimedOut;
          }
          match tick.socket
          case NotReady => return TimedOut;
          case Data(chunk) =>
            if chunk == [] {
              return Closed;
            }
            pend := pend + chunk;
          case TransientError =>
            assert pend + [] == pend;
          case FatalError => return Failed;
        }
        ListenFrame(c, pend, script);
        var frame := TakeFrame();
        var p := Decapsulate(frame, noCrc);
        if p.Some? {
          if p.value == [] {
            return NoOpcode;
          }
          var op := p.value[0];
          if op == opcode {
            if matches.None? || (matches.value)(op, p.value[1..]) {
              return Packet(p.value);
            }
          } else if op == DIAG_BAD_CMD_F {
            return Packet(p.value);
          }
        }
      }
    }
  }
}
