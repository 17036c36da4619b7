/** From packets to packets: framed, cut into datagrams, shuffled on the way, and received in order. */
module EndToEnd {
  import opened Bytes
  import opened Wrappers
  import opened Client
  import opened Replies
  import opened TrackerModel
  import opened Lossless
  import opened UdpListen

  function Flat(chunks: seq<bytes>): bytes {
    if chunks == [] then [] else chunks[0] + Flat(chunks[1..])
  }

  /** One read for each chunk, none of them too late or interrupted. */
  function Reads(chunks: seq<bytes>): seq<Tick> {
    if chunks == [] then [] else [Tick(0, false, Data(chunks[0]))] + Reads(chunks[1..])
  }

  lemma {:induction false} ReadsAreOpen(c: Call, chunks: seq<bytes>)
    requires c.request.None? && c.deadline.None? && [] !in chunks
    ensures Open(c, Reads(chunks)) && ReadBy(c, Reads(chunks)) == Flat(chunks)
    decreases |chunks|
  {
    if chunks == [] {
    } else {
      assert chunks[0] in chunks;
      forall p | p in chunks[1..] ensures p != [] { assert p in chunks; }
      ReadsAreOpen(c, chunks[1..]);
      var script := Reads(chunks);
      assert script[1..] == Reads(chunks[1..]);
      forall j | 0 <= j < |script| ensures Interpret(c, script[j]).None? {
        if j > 0 { assert script[j] == Reads(chunks[1..])[j - 1]; }
      }
    }
  }

  /**
   Packets are framed into one stream, the stream is cut into non-empty slices, and the slices
   travel in numbered datagrams that may overtake each other within the window. Calls on what the
   listener releases return every packet, unchanged and in order, with the CRC checked or not.
   */
  lemma PacketsThroughShuffledDatagrams(packets: seq<bytes>, window: nat, us: seq<int>, n: nat, pay: int -> bytes,
                                        version: byte, noCrc: bool)
    requires [] !in packets
    requires 1 <= window <= INTERLEAVE_GAP_FLOOR && Shuffle(us, n) && Timely(us, n, window)
    requires forall u :: u in us ==> |pay(u)| < 0x1_0000
    requires [] !in Block(pay, us[0], us[0] + n)
    requires Flat(Block(pay, us[0], us[0] + n)) == Stream(Sent(packets))
    ensures var chunks := TakeAll(window, Slices(us, pay, version)).released;
            Calls(Call(noCrc, None, None), |packets|, [], Reads(chunks)) == Received(packets)
  {
    hide TakeAll, Slices, Timely, Shuffle, Block, Calls, Received, Stream, Sent, Verdicts, Open, ReadBy, Reads, Flat;
    var c := Call(noCrc, None, None);
    StreamRestored(window, us, n, pay, version);
    var chunks := TakeAll(window, Slices(us, pay, version)).released;
    ReadsAreOpen(c, chunks);
    VerdictsOfSent(c, packets);
    ReceivedLength(packets);
    assert [] + ReadBy(c, Reads(chunks)) == ReadBy(c, Reads(chunks));
    CallsReturnVerdicts(c, [], Reads(chunks), Sent(packets));
  }
}
