/** The filter against the sender: packets built from their codes, framed, and found again. */
module SentPackets {
  import opened Bytes
  import opened Wrappers
  import opened Hdlc
  import opened Peek
  import opened FrameFilter
  import opened Sequences
  import Crc
  import Replies

  /** A packet as the modem composes it, alone or behind a multi-radio wrapper of eight bytes. */
  datatype Packet =
    | Log(wrapper: Option<bytes>, header: bytes, code: int, rest: bytes)
    | Other(wrapper: Option<bytes>, opcode: byte, rest: bytes)
  {
    predicate Valid() {
      && (wrapper.Some? ==> |wrapper.value| == 7)
      && (Log? ==> |header| == 5 && 0 <= code <= 0xFFFF)
      && (Other? ==> opcode != 0x10 && (opcode == 0x98 ==> wrapper.Some?))
    }

    function Inner(): bytes
      requires Valid()
    {
      if Log? then [0x10] + header + [code % 256, code / 256] + rest else [opcode] + rest
    }

    function Body(): (body: bytes)
      requires Valid()
      ensures body != []
    {
      if wrapper.Some? then [0x98] + wrapper.value + Inner() else Inner()
    }

    /** The opcode it was composed for. */
    function Kind(): byte {
      if Log? then 0x10 else opcode
    }

    /** What a match says of it. */
    function Described(): Peeked {
      Peeked(if wrapper.Some? then 0x98 else Kind(), if wrapper.Some? then Some(Kind()) else None,
             if Log? then Some(code) else None)
    }

    /** The frame on the wire, without its flag. */
    function Frame(): bytes
      requires Valid()
    {
      Init(Encapsulate(Body()))
    }
  }

  /** The rules of the filter, for what was composed. */
  predicate Wants(w: Wanted, p: Packet) {
    || p.Kind() in w.opcodes
    || (p.wrapper.Some? && 0x98 in w.opcodes)
    || (w.f3 && p.Kind() in {0x79, 0x99, 0x92})
    || (w.events && p.Kind() == 0x60)
    || (p.Log? && (w.allLogs || p.code in w.logCodes))
  }

  ghost predicate AllValid(packets: seq<Packet>) {
    forall p :: p in packets ==> p.Valid()
  }

  function Bodies(packets: seq<Packet>): (r: seq<bytes>)
    requires AllValid(packets)
    ensures |r| == |packets|
  {
    seq(|packets|, i requires 0 <= i < |packets| => packets[i].Body())
  }

  /** A match for each wanted packet, in the order they were sent. */
  function WantedMatches(w: Wanted, packets: seq<Packet>): seq<Match>
    requires AllValid(packets)
  {
    if packets == [] then []
    else
      var p := Last(packets);
      WantedMatches(w, Init(packets)) + (if Wants(w, p) then [Match(p.Frame(), p.Body(), p.Described())] else [])
  }

  // ---------- One packet ----------

  /** Whatever follows the body, it is read as it was composed. */
  lemma PeekOfPacket(p: Packet, tail: bytes)
    requires p.Valid()
    ensures PeekOf(p.Body() + tail) == Some(p.Described())
  {
    var raw, inner := p.Body() + tail, p.Inner();
    var base := if p.wrapper.Some? then 8 else 0;
    assert forall i :: 0 <= i < |inner| ==> raw[base + i] == inner[i];
    if p.Log? {
      assert inner[6] == p.code % 256 && inner[7] == p.code / 256;
    }
  }

  lemma MatchesAsSent(w: Wanted, p: Packet)
    requires p.Valid()
    ensures w.Matches(p.Described()) <==> Wants(w, p)
  {
  }

  lemma VerdictOfPacket(w: Wanted, p: Packet)
    requires p.Valid()
    ensures FLAG !in p.Frame() && p.Frame() != []
    ensures FullVerdict(w, p.Frame()) ==
            if Wants(w, p) then Matched(Match(p.Frame(), p.Body(), p.Described())) else Ignored
  {
    hide PeekOf, Wanted.Matches, Wanted.Candidates, Wants, Packet.Described, Packet.Valid, Packet.Body, Escape, Scan,
         Crc.Crc16, Le16Bits;
    var check := Le16Bits(Crc.Crc16(p.Body()));
    var raw := p.Body() + check;
    assert Init(Escape(raw) + [FLAG]) == Escape(raw);
    ScanOfEscape(raw);
    PeekOfPacket(p, check);
    MatchesAsSent(w, p);
    assert raw[..|raw| - 2] == p.Body() && raw[|raw| - 2..] == check;
  }

  // ---------- A stream ----------

  lemma {:induction false} FoundAsSent(w: Wanted, packets: seq<Packet>, frames: seq<bytes>)
    requires AllValid(packets) && |frames| == |packets|
    requires forall i :: 0 <= i < |packets| ==> frames[i] == packets[i].Frame()
    ensures Found(w, frames) == WantedMatches(w, packets)
    ensures Tally(w, frames) == FilterStats(|packets|, |WantedMatches(w, packets)|, 0, 0, 0)
    ensures [] !in frames && FlagFree(frames)
    decreases |packets|
  {
    hide FullVerdict, Wants, Packet.Frame, Packet.Body, Packet.Described, Packet.Valid;
    if packets == [] {
    } else {
      var p := Last(packets);
      FoundAsSent(w, Init(packets), Init(frames));
      VerdictOfPacket(w, p);
      assert frames == Init(frames) + [p.Frame()];
    }
  }

  lemma {:induction false} FramesSent(packets: seq<Packet>)
    requires AllValid(packets)
    ensures var frames := Replies.Sent(Bodies(packets));
            |frames| == |packets| && forall i :: 0 <= i < |packets| ==> frames[i] == packets[i].Frame()
    decreases |packets|
  {
    hide Encapsulate, Packet.Body, Packet.Valid;
    if packets == [] {
    } else {
      FramesSent(packets[1..]);
      assert Bodies(packets)[1..] == Bodies(packets[1..]);
    }
  }

  lemma {:induction false} AllNonEmpty(parts: seq<bytes>)
    requires [] !in parts
    ensures NonEmpty(parts) == parts
    decreases |parts|
  {
    if parts == [] {
    } else {
      assert parts == Init(parts) + [Last(parts)];
      AllNonEmpty(Init(parts));
    }
  }

  lemma NothingSent(frames: seq<bytes>)
    requires frames == []
    ensures Replies.Stream(frames) == []
  {
  }

  /** Splitting what was sent gives the frames and an empty open part. */
  lemma SplitOfSent(frames: seq<bytes>)
    requires FlagFree(frames) && [] !in frames
    ensures NonEmpty(Split(Replies.Stream(frames))) == frames
  {
    hide Split, NonEmpty, Replies.Stream;
    AllNonEmpty(frames);
    NonEmptyConcat(frames, [[]]);
    NonEmptyOne([]);
    var parts := frames + [[]];
    assert frames + [] == frames;
    if frames == [] {
      SplitFlagFree([]);
      assert parts == [[]];
      NothingSent(frames);
    } else {
      Replies.StreamOfSplit(frames);
      assert Init(parts) == frames && Last(parts) == [];
      assert Join(parts) == Join(frames) + [FLAG] + [] == Join(frames) + [FLAG];
      forall p | p in parts ensures FLAG !in p { if p in frames {} }
      SplitOfJoin(parts);
    }
  }

  /**
   Whatever packets are sent, in whatever chunks their stream arrives: the filter finds exactly those that are
   wanted, in order, each with its body and with the opcodes and the log code it was composed from, and counts
   no bad checksum and no short frame.
   */
  lemma FindsWhatWasSent(w: Wanted, packets: seq<Packet>, chunks: seq<bytes>)
    requires AllValid(packets) && Concat(chunks) == Replies.Stream(Replies.Sent(Bodies(packets)))
    ensures WholeMatches(w, Concat(chunks)) == WantedMatches(w, packets)
    ensures WholeStats(w, Concat(chunks)) ==
            FilterStats(|packets|, |WantedMatches(w, packets)|, 0, |Concat(chunks)|, 0)
  {
    hide Split, NonEmpty, Found, Tally, WantedMatches, Replies.Stream, Replies.Sent, Packet.Frame, Packet.Valid, Bodies;
    var frames := Replies.Sent(Bodies(packets));
    FramesSent(packets);
    FoundAsSent(w, packets, frames);
    SplitOfSent(frames);
  }

  /** The filter object, fed such a stream. */
  method FilterSent(w: Wanted, packets: seq<Packet>, chunks: seq<bytes>) returns (out: seq<Match>)
    requires AllValid(packets) && Concat(chunks) == Replies.Stream(Replies.Sent(Bodies(packets)))
    ensures out == WantedMatches(w, packets)
  {
    hide WholeMatches, WholeStats, WantedMatches;
    FindsWhatWasSent(w, packets, chunks);
    var stats;
    out, stats := FilterChunks(w, chunks);
  }
}
