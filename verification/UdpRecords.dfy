/** The broadcast transport's records: HDLC frames in, the log packets among them framed again. */
module UdpRecords {
  import opened Bytes
  import opened Wrappers
  import opened Hdlc
  import opened Client
  import opened Replies

  const LOG_F: byte := 0x10

  // ---------- One frame ----------

  /** `b ^ 0x20` */
  function Flip(b: byte): byte {
    ((b as bv8) ^ 0x20) as int
  }

  /** Unstuffing as this transport does it: an escape flips whatever byte follows it. */
  function FlipScan(s: bytes): (r: bytes)
    ensures |r| <= |s|
  {
    if |s| >= 2 && s[0] == ESC then [Flip(s[1])] + FlipScan(s[2..])
    else if s == [] then []
    else [s[0]] + FlipScan(s[1..])
  }

  lemma UnstuffTwo(frame: bytes, j: nat)
    requires j + 1 < |frame| && frame[j] == ESC
    ensures FlipScan(frame[j..]) == [Flip(frame[j + 1])] + FlipScan(frame[j + 2..])
  {
    hide Flip;
    assert frame[j..][2..] == frame[j + 2..];
  }

  lemma UnstuffOne(frame: bytes, j: nat)
    requires j < |frame| && !(frame[j] == ESC && j + 1 < |frame|)
    ensures FlipScan(frame[j..]) == [frame[j]] + FlipScan(frame[j + 1..])
  {
    hide Flip;
    assert frame[j..][1..] == frame[j + 1..];
  }

  lemma Nothing(s: bytes)
    requires s == []
    ensures FlipScan(s) == []
  {
  }

  method Unstuff(frame: bytes) returns (u: bytes)
    ensures u == FlipScan(frame)
  {
    hide Flip, FlipScan;
    Nothing(frame[|frame|..]);
    assert frame[0..] == frame;
    u := [];
    var j := 0;
    while j < |frame|
      invariant 0 <= j <= |frame|
      invariant u + FlipScan(frame[j..]) == FlipScan(frame)
    {
      if frame[j] == ESC && j + 1 < |frame| {
        UnstuffTwo(frame, j);
        u := u + [Flip(frame[j + 1])];
        j := j + 2;
      } else {
        UnstuffOne(frame, j);
        u := u + [frame[j]];
        j := j + 1;
      }
    }
  }

  /** On what was stuffed properly it is the usual unstuffing. */
  lemma {:induction false} FlipScanOfEscape(s: bytes)
    ensures FlipScan(Escape(s)) == s
    decreases |s|
  {
    hide Flip;
    Flips();
    if s == [] {
    } else {
      FlipScanOfEscape(s[1..]);
      EscapeCons(s[0], s[1..]);
      assert s == [s[0]] + s[1..];
      var rest := Escape(s[1..]);
      assert (Stuff(s[0]) + rest)[|Stuff(s[0])|..] == rest;
    }
  }

  lemma Flips()
    ensures Flip(ESC_OF_ESC) == ESC && Flip(ESC_OF_FLAG) == FLAG
  {
  }

  predicate IsLog(u: bytes) {
    |u| >= 8 && u[0] == LOG_F
  }

  /** The part of a log frame that is passed on: without its CRC, unless it is too short. */
  function Kept(u: bytes): (r: bytes)
    ensures |u| >= 8 ==> r != []
  {
    if |u| > 10 then u[..|u| - 2] else u
  }

  /** What a frame adds to the output. */
  function Emit(frame: bytes): bytes {
    if |frame| < 8 || !IsLog(FlipScan(frame)) then [] else Escape(Kept(FlipScan(frame))) + [0, 0] + [FLAG]
  }

  function EmitAll(frames: seq<bytes>): bytes {
    if frames == [] then [] else Emit(frames[0]) + EmitAll(frames[1..])
  }

  lemma EmitOne(frames: seq<bytes>, i: nat)
    requires i < |frames|
    ensures EmitAll(frames[i..]) == Emit(frames[i]) + EmitAll(frames[i + 1..])
  {
    hide Emit;
    assert frames[i..][1..] == frames[i + 1..];
  }

  lemma EmitNone(frames: seq<bytes>)
    requires frames == []
    ensures EmitAll(frames) == []
  {
  }

  method ExtractFromRecord(record: bytes) returns (added: bytes)
    ensures added == EmitAll(Split(record))
  {
    hide Split, FlipScan, Escape, Kept, EmitAll;
    added := [];
    var frames := Split(record);
    assert frames[0..] == frames;
    for i := 0 to |frames|
      invariant added + EmitAll(frames[i..]) == EmitAll(frames)
    {
      EmitOne(frames, i);
      var frame := frames[i];
      if |frame| >= 8 {
        var u := Unstuff(frame);
        if |u| >= 8 && u[0] == LOG_F {
          added := added + (Escape(Kept(u)) + [0, 0] + [FLAG]);
        }
      }
    }
    EmitNone(frames[|frames|..]);
  }

  // ---------- What the client receives ----------

  /** The packets the log frames stand for. */
  function Logs(frames: seq<bytes>): seq<bytes> {
    if frames == [] then []
    else (if IsLog(FlipScan(frames[0])) then [Kept(FlipScan(frames[0]))] else []) + Logs(frames[1..])
  }

  /** The frames of the output, without their flags. */
  function Reframed(packets: seq<bytes>): seq<bytes> {
    if packets == [] then [] else [Escape(packets[0]) + [0, 0]] + Reframed(packets[1..])
  }

  lemma {:induction false} OutputIsStream(frames: seq<bytes>)
    ensures EmitAll(frames) == Stream(Reframed(Logs(frames)))
    decreases |frames|
  {
    hide FlipScan, Escape, Kept;
    if frames == [] {
    } else {
      OutputIsStream(frames[1..]);
      var u := FlipScan(frames[0]);
      if IsLog(u) {
        assert Logs(frames)[1..] == Logs(frames[1..]);
        assert Reframed(Logs(frames))[1..] == Reframed(Logs(frames[1..]));
      } else {
        assert Emit(frames[0]) == [];
        assert Logs(frames) == Logs(frames[1..]);
      }
    }
  }

  lemma {:induction false} EscapeConcat(a: bytes, b: bytes)
    ensures Escape(a + b) == Escape(a) + Escape(b)
    decreases |a|
  {
    hide Escape;
    if a == [] {
      EscapeNothing(a);
      assert a + b == b;
    } else {
      EscapeCons(a[0], a[1..]);
      EscapeCons(a[0], a[1..] + b);
      EscapeConcat(a[1..], b);
      assert a == [a[0]] + a[1..] && a + b == [a[0]] + (a[1..] + b);
    }
  }

  lemma EscapeNothing(s: bytes)
    requires s == []
    ensures Escape(s) == []
  {
  }

  lemma EscapeZeros()
    ensures Escape([0, 0]) == [0, 0]
  {
    EscapeCons(0, [0]);
    var none: bytes := [];
    EscapeCons(0, none);
    EscapeNothing(none);
    assert [0, 0] == [0] + [0] && [0] == [0] + none;
  }

  /** The client that does not check the CRC takes the dummy trailer for it. */
  lemma ReframedDecapsulates(packet: bytes)
    ensures var frame := Escape(packet) + [0, 0];
            FLAG !in frame && Decapsulate(frame, true) == Some(packet)
  {
    hide Escape, Scan;
    EscapeConcat(packet, [0, 0]);
    EscapeZeros();
    var raw := packet + [0, 0];
    ScanOfEscape(raw);
    UnescapeIsScan(Escape(raw));
    assert raw[..|raw| - 2] == packet;
  }

  lemma {:induction false} VerdictsOfReframed(c: Call, packets: seq<bytes>)
    requires c.request.None? && c.noCrc && [] !in packets
    ensures Verdicts(c, Reframed(packets)) == Received(packets) && FlagFree(Reframed(packets))
    decreases |packets|
  {
    hide Decapsulate, Escape;
    if packets == [] {
    } else {
      assert packets[0] in packets;
      ReframedDecapsulates(packets[0]);
      forall p | p in packets[1..] ensures p != [] { assert p in packets; }
      VerdictsOfReframed(c, packets[1..]);
      assert Reframed(packets)[1..] == Reframed(packets[1..]);
    }
  }

  lemma {:induction false} LogsNotEmpty(frames: seq<bytes>)
    ensures [] !in Logs(frames)
    decreases |frames|
  {
    hide FlipScan, Kept;
    if frames == [] {
    } else {
      LogsNotEmpty(frames[1..]);
    }
  }

  /** Whatever the frames, calls on the output, in any chunks, return their log packets in order. */
  lemma LogsReceived(c: Call, frames: seq<bytes>, script: seq<Tick>)
    requires c.request.None? && c.noCrc && Open(c, script) && ReadBy(c, script) == EmitAll(frames)
    ensures Calls(c, |Logs(frames)|, [], script) == Received(Logs(frames))
  {
    hide Verdicts, Calls, Received, Stream, Reframed, Logs, EmitAll, Open;
    var packets := Logs(frames);
    LogsNotEmpty(frames);
    OutputIsStream(frames);
    VerdictsOfReframed(c, packets);
    ReceivedLength(packets);
    assert [] + ReadBy(c, script) == ReadBy(c, script);
    CallsReturnVerdicts(c, [], script, Reframed(packets));
  }

  // ---------- Properly stuffed frames ----------

  /** A packet with its two CRC bytes. */
  datatype Sealed = Sealed(packet: bytes, crc: bytes)
  {
    predicate Valid() { |crc| == 2 }

    function Frame(): bytes {
      Escape(packet + crc)
    }

    /** A log packet with a whole header. */
    predicate IsLogPacket() {
      |packet| >= 6 && packet[0] == LOG_F
    }
  }

  function Frames(sent: seq<Sealed>): seq<bytes> {
    if sent == [] then [] else [sent[0].Frame()] + Frames(sent[1..])
  }

  /** The log packets; one of eight bytes or fewer keeps its CRC. */
  function LogPackets(sent: seq<Sealed>): seq<bytes> {
    if sent == [] then []
    else
      var s := sent[0];
      var first := if !s.IsLogPacket() then [] else if |s.packet| > 8 then [s.packet] else [s.packet + s.crc];
      first + LogPackets(sent[1..])
  }

  lemma {:induction false} LogsOfFrames(sent: seq<Sealed>)
    requires forall s :: s in sent ==> s.Valid()
    ensures Logs(Frames(sent)) == LogPackets(sent)
    decreases |sent|
  {
    hide Escape, FlipScan;
    if sent == [] {
    } else {
      assert sent[0] in sent;
      forall s | s in sent[1..] ensures s.Valid() { assert s in sent; }
      LogsOfFrames(sent[1..]);
      var s := sent[0];
      var u := s.packet + s.crc;
      FlipScanOfEscape(u);
      assert Frames(sent)[1..] == Frames(sent[1..]);
      assert u[..|u| - 2] == s.packet;
    }
  }

  /** A record of properly stuffed frames gives the client its log packets. */
  lemma BroadcastPreservesLogs(c: Call, sent: seq<Sealed>, script: seq<Tick>)
    requires c.request.None? && c.noCrc && Open(c, script) && forall s :: s in sent ==> s.Valid()
    requires ReadBy(c, script) == EmitAll(Frames(sent))
    ensures Calls(c, |LogPackets(sent)|, [], script) == Received(LogPackets(sent))
  {
    hide Calls, Received, Open;
    LogsOfFrames(sent);
    LogsReceived(c, Frames(sent), script);
  }

  /** The log packets alone. */
  function Selected(sent: seq<Sealed>): seq<bytes> {
    if sent == [] then [] else (if sent[0].IsLogPacket() then [sent[0].packet] else []) + Selected(sent[1..])
  }

  /** They come through unchanged exactly when none of them has eight bytes or fewer. */
  lemma {:induction false} UnchangedWhenLong(sent: seq<Sealed>)
    requires forall s :: s in sent ==> s.Valid()
    ensures LogPackets(sent) == Selected(sent) <==> forall s :: s in sent && s.IsLogPacket() ==> |s.packet| > 8
    decreases |sent|
  {
    hide Sealed.IsLogPacket;
    if sent == [] {
    } else {
      var s := sent[0];
      assert s in sent;
      forall t | t in sent[1..] ensures t.Valid() { assert t in sent; }
      UnchangedWhenLong(sent[1..]);
      assert forall t :: t in sent <==> t == s || t in sent[1..];
      if s.IsLogPacket() {
        assert LogPackets(sent)[1..] == LogPackets(sent[1..]) && Selected(sent)[1..] == Selected(sent[1..]);
        assert |s.packet + s.crc| != |s.packet|;
      } else {
        assert LogPackets(sent) == LogPackets(sent[1..]) && Selected(sent) == Selected(sent[1..]);
      }
    }
  }

  /** The shortest log packet there is reaches the client with its two CRC bytes. */
  lemma ShortPacketChanged(crc: bytes)
    requires |crc| == 2
    ensures var packet: bytes := [LOG_F, 0, 0, 0, 0, 0];
            var sent := [Sealed(packet, crc)];
            Selected(sent) == [packet] && LogPackets(sent) == [packet + crc] && packet + crc != packet
  {
    var packet: bytes := [LOG_F, 0, 0, 0, 0, 0];
    var sent := [Sealed(packet, crc)];
    assert sent[1..] == [];
    assert |packet + crc| == 8;
  }
}
