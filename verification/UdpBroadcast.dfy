/** The broadcast transport: records whole or in fragments, each datagram maybe numbered. */
module UdpBroadcast {
  import opened Bytes
  import opened Wrappers
  import opened Hdlc
  import opened Client
  import opened Replies
  import opened UdpRecords
  import opened Sequences

  const SEQ_MAGIC: byte := 0xFE
  const SEQ_VERSION: byte := 0x01
  const FRAG_MAGIC: byte := 0xFD
  const PLAUSIBLE_GAP := 1000

  // ---------- Datagrams ----------

  predicate Numbered(data: bytes) {
    |data| > 4 && data[0] == SEQ_MAGIC && data[1] == SEQ_VERSION
  }

  predicate IsFragment(body: bytes) {
    |body| > 4 && body[0] == FRAG_MAGIC
  }

  function Body(data: bytes): bytes {
    if Numbered(data) then data[4..] else data
  }

  datatype Assembly = Assembly(fragBuf: bytes, out: bytes)

  function Extract(record: bytes): bytes {
    EmitAll(Split(record))
  }

  /** One datagram: a fragment is kept, or ends a record; anything else is a record. */
  function Take(a: Assembly, data: bytes): Assembly {
    var body := Body(data);
    if IsFragment(body) then
      var fragBuf := (if body[1] % 2 == 1 then [] else a.fragBuf) + body[4..];
      if (body[1] / 2) % 2 == 1 then Assembly([], a.out + Extract(fragBuf)) else Assembly(fragBuf, a.out)
    else Assembly(a.fragBuf, a.out + Extract(body))
  }

  function TakeAll(a: Assembly, datas: seq<bytes>): Assembly {
    if datas == [] then a else Take(TakeAll(a, Init(datas)), Last(datas))
  }

  lemma {:induction false} TakeAllConcat(a: Assembly, x: seq<bytes>, y: seq<bytes>)
    ensures TakeAll(a, x + y) == TakeAll(TakeAll(a, x), y)
    decreases |y|
  {
    if y == [] {
      assert x + y == x;
    } else {
      assert Init(x + y) == x + Init(y);
      TakeAllConcat(a, x, Init(y));
    }
  }

  lemma TakeAllOne(a: Assembly, data: bytes)
    ensures TakeAll(a, [data]) == Take(a, data)
  {
    assert Init([data]) == [];
  }

  /** Output already delivered does not influence what follows it. */
  lemma TakeBehind(front: bytes, a: Assembly, data: bytes)
    ensures Take(a.(out := front + a.out), data) == Take(a, data).(out := front + Take(a, data).out)
  {
    hide Extract;
    var body := Body(data);
    var fragBuf := if IsFragment(body) then (if body[1] % 2 == 1 then [] else a.fragBuf) + body[4..] else body;
    assert front + a.out + Extract(fragBuf) == front + (a.out + Extract(fragBuf));
  }

  // ---------- What is sent ----------

  /** A number for a datagram, or none. */
  type Number = Option<(byte, byte)>

  function Wrap(number: Number, body: bytes): bytes {
    if number.Some? then [0xFE, 0x01, number.value.0, number.value.1] + body else body
  }

  /** A record on its way: in one datagram, or in pieces, each with two header bytes of no meaning. */
  datatype Sending =
    | Whole(number: Number, record: bytes)
    | Pieces(pieces: seq<Piece>)
  {
    /** A datagram must not look like what it is not, and a fragment must carry something. */
    predicate Valid() {
      match this
      case Whole(number, record) => !IsFragment(record) && if number.Some? then record != [] else !Numbered(record)
      case Pieces(pieces) => pieces != [] && forall p :: p in pieces ==> p.data != []
    }

    function Record(): bytes {
      match this
      case Whole(_, record) => record
      case Pieces(pieces) => Glue(pieces)
    }

    function Datagrams(): seq<bytes> {
      match this
      case Whole(number, record) => [Wrap(number, record)]
      case Pieces(pieces) => Fragments(pieces, |pieces|)
    }
  }

  datatype Piece = Piece(number: Number, data: bytes, spare: (byte, byte))

  function Glue(pieces: seq<Piece>): bytes {
    if pieces == [] then [] else Glue(Init(pieces)) + Last(pieces).data
  }

  /** The datagram of the piece that comes after `before` others, out of `total`. */
  function Fragment(piece: Piece, before: nat, total: nat): bytes
    requires before < total
  {
    var flags := (if before == 0 then 1 else 0) + (if before == total - 1 then 2 else 0);
    Wrap(piece.number, [0xFD, flags, piece.spare.0, piece.spare.1] + piece.data)
  }

  function Fragments(pieces: seq<Piece>, total: nat): seq<bytes>
    requires |pieces| <= total
  {
    if pieces == [] then []
    else Fragments(Init(pieces), total) + [Fragment(Last(pieces), |pieces| - 1, total)]
  }

  lemma BodyOfWrapped(number: Number, body: bytes)
    requires if number.Some? then body != [] else !Numbered(body)
    ensures Body(Wrap(number, body)) == body
  {
    assert number.Some? ==> Wrap(number, body)[4..] == body;
  }

  lemma FragmentTaken(a: Assembly, piece: Piece, before: nat, total: nat)
    requires before < total && piece.data != []
    ensures Take(a, Fragment(piece, before, total)) ==
            var fragBuf := (if before == 0 then [] else a.fragBuf) + piece.data;
            if before == total - 1 then Assembly([], a.out + Extract(fragBuf)) else Assembly(fragBuf, a.out)
  {
    hide Extract, Wrap, Body;
    var flags: byte := (if before == 0 then 1 else 0) + (if before == total - 1 then 2 else 0);
    var body := [FRAG_MAGIC, flags, piece.spare.0, piece.spare.1] + piece.data;
    BodyOfWrapped(piece.number, body);
    assert body[4..] == piece.data;
  }

  lemma {:induction false} PiecesTaken(a: Assembly, pieces: seq<Piece>, total: nat)
    requires 0 < |pieces| <= total && forall p :: p in pieces ==> p.data != []
    ensures TakeAll(a, Fragments(pieces, total)) ==
            if |pieces| == total then Assembly([], a.out + Extract(Glue(pieces))) else Assembly(Glue(pieces), a.out)
    decreases |pieces|
  {
    hide Extract, Take, Fragment;
    var n := |pieces| - 1;
    assert Last(pieces) in pieces;
    forall p | p in Init(pieces) ensures p.data != [] { assert p in pieces; }
    var front := Fragments(Init(pieces), total);
    var datas := Fragments(pieces, total);
    assert Init(datas) == front && Last(datas) == Fragment(Last(pieces), n, total);
    FragmentTaken(TakeAll(a, front), Last(pieces), n, total);
    if n == 0 {
      assert Init(pieces) == [];
      assert [] + Last(pieces).data == Last(pieces).data;
    } else {
      PiecesTaken(a, Init(pieces), total);
    }
  }

  lemma WholeTaken(a: Assembly, number: Number, record: bytes)
    requires Whole(number, record).Valid()
    ensures Take(a, Wrap(number, record)) == a.(out := a.out + Extract(record))
  {
    hide Extract, Wrap, Body;
    BodyOfWrapped(number, record);
  }

  function AllDatagrams(sends: seq<Sending>): seq<bytes> {
    if sends == [] then [] else AllDatagrams(Init(sends)) + Last(sends).Datagrams()
  }

  /** The frames of every record, in order. */
  function AllFrames(sends: seq<Sending>): seq<bytes> {
    if sends == [] then [] else AllFrames(Init(sends)) + Split(Last(sends).Record())
  }

  lemma {:induction false} EmitAllConcat(a: seq<bytes>, b: seq<bytes>)
    ensures EmitAll(a + b) == EmitAll(a) + EmitAll(b)
    decreases |a|
  {
    hide Emit;
    if a == [] {
      assert a + b == b;
    } else {
      assert (a + b)[1..] == a[1..] + b;
      EmitAllConcat(a[1..], b);
    }
  }

  /** Numbered or not, whole or in pieces, the records come out as if handed over one by one. */
  lemma {:induction false} RecordsReassembled(a: Assembly, sends: seq<Sending>)
    requires forall s :: s in sends ==> s.Valid()
    ensures TakeAll(a, AllDatagrams(sends)).out == a.out + EmitAll(AllFrames(sends))
    decreases |sends|
  {
    hide Take, Split, Sending.Valid, Sending.Datagrams, Sending.Record, EmitAll;
    if sends == [] {
      NothingEmitted();
    } else {
      var s := Last(sends);
      assert s in sends;
      forall t | t in Init(sends) ensures t.Valid() { assert t in sends; }
      RecordsReassembled(a, Init(sends));
      var b := TakeAll(a, AllDatagrams(Init(sends)));
      TakeAllConcat(a, AllDatagrams(Init(sends)), s.Datagrams());
      SendingTaken(b, s);
      EmitAllConcat(AllFrames(Init(sends)), Split(s.Record()));
    }
  }

  lemma NothingEmitted()
    ensures EmitAll([]) == []
  {
  }

  lemma SendingTaken(a: Assembly, s: Sending)
    requires s.Valid()
    ensures TakeAll(a, s.Datagrams()).out == a.out + EmitAll(Split(s.Record()))
  {
    hide Take, TakeAll, Split, EmitAll;
    match s
    case Whole(number, record) =>
      WholeTaken(a, number, record);
      TakeAllOne(a, Wrap(number, record));
    case Pieces(pieces) =>
      PiecesTaken(a, pieces, |pieces|);
  }

  /** End to end: calls on what was read, in any chunks, return the log packets of every record in order. */
  lemma BroadcastDelivers(c: Call, sends: seq<Sending>, script: seq<Tick>)
    requires c.request.None? && c.noCrc && Open(c, script) && forall s :: s in sends ==> s.Valid()
    requires ReadBy(c, script) == TakeAll(Assembly([], []), AllDatagrams(sends)).out
    ensures Calls(c, |Logs(AllFrames(sends))|, [], script) == Received(Logs(AllFrames(sends)))
  {
    hide TakeAll, AllDatagrams, AllFrames, EmitAll, Logs, Calls, Received, Open, ReadBy, Sending.Valid;
    RecordsReassembled(Assembly([], []), sends);
    assert [] + EmitAll(AllFrames(sends)) == EmitAll(AllFrames(sends));
    LogsReceived(c, AllFrames(sends), script);
  }

  /** A datagram with a whole record is valid exactly when the receiver takes it for that record. */
  lemma ValidIsUnambiguous(number: Number, record: bytes)
    ensures Whole(number, record).Valid() <==> Body(Wrap(number, record)) == record && !IsFragment(record)
  {
    var data := Wrap(number, record);
    assert Numbered(data) ==> |data[4..]| == |data| - 4;
    assert number.Some? && record != [] ==> data[4..] == record;
  }

  function Joined(lists: seq<seq<Sealed>>): seq<Sealed> {
    if lists == [] then [] else Joined(Init(lists)) + Last(lists)
  }

  /** Every record is the properly stuffed frames of its packets, set apart by flags. */
  ghost predicate Carries(sends: seq<Sending>, lists: seq<seq<Sealed>>) {
    && |sends| == |lists|
    && (forall s :: s in sends ==> s.Valid())
    && (forall i :: 0 <= i < |lists| ==> lists[i] != [] && forall p :: p in lists[i] ==> p.Valid())
    && (forall i :: 0 <= i < |lists| ==> Frames(lists[i]) != [] && sends[i].Record() == Join(Frames(lists[i])))
  }

  lemma {:induction false} FramesConcat(a: seq<Sealed>, b: seq<Sealed>)
    ensures Frames(a + b) == Frames(a) + Frames(b)
    decreases |a|
  {
    hide Sealed.Frame;
    if a == [] {
      assert a + b == b;
    } else {
      assert (a + b)[1..] == a[1..] + b;
      FramesConcat(a[1..], b);
    }
  }

  lemma {:induction false} FramesFlagFree(sent: seq<Sealed>)
    ensures FlagFree(Frames(sent))
    decreases |sent|
  {
    hide Escape, Scan;
    if sent == [] {
    } else {
      ScanOfEscape(sent[0].packet + sent[0].crc);
      FramesFlagFree(sent[1..]);
    }
  }

  lemma {:induction false} FramesCarried(sends: seq<Sending>, lists: seq<seq<Sealed>>)
    requires Carries(sends, lists)
    ensures AllFrames(sends) == Frames(Joined(lists))
    decreases |sends|
  {
    hide Frames, Split, Join, Sending.Valid, Sending.Record;
    if sends == [] {
      NoFrames(Joined(lists));
    } else {
      var n := |sends| - 1;
      assert forall s :: s in Init(sends) ==> s in sends;
      FramesCarried(Init(sends), Init(lists));
      assert sends[n] == Last(sends) && lists[n] == Last(lists);
      FramesFlagFree(lists[n]);
      SplitOfJoin(Frames(lists[n]));
      FramesConcat(Joined(Init(lists)), Last(lists));
    }
  }

  lemma NoFrames(sent: seq<Sealed>)
    requires sent == []
    ensures Frames(sent) == []
  {
  }

  lemma {:induction false} JoinedValid(lists: seq<seq<Sealed>>)
    requires forall i :: 0 <= i < |lists| ==> forall p :: p in lists[i] ==> p.Valid()
    ensures forall p :: p in Joined(lists) ==> p.Valid()
    decreases |lists|
  {
    hide Sealed.Valid;
    if lists == [] {
    } else {
      JoinedValid(Init(lists));
    }
  }

  /**
   Packets sealed with two check bytes, framed into records, whole or in pieces, numbered or not: the
   calls return all their log packets in order.
   */
  lemma BroadcastDeliversLogs(c: Call, sends: seq<Sending>, lists: seq<seq<Sealed>>, script: seq<Tick>)
    requires c.request.None? && c.noCrc && Open(c, script) && Carries(sends, lists)
    requires ReadBy(c, script) == TakeAll(Assembly([], []), AllDatagrams(sends)).out
    ensures var packets := LogPackets(Joined(lists)); Calls(c, |packets|, [], script) == Received(packets)
  {
    hide TakeAll, AllDatagrams, Calls, Received, Open, ReadBy, Sending.Valid, Logs, Sealed.Valid;
    FramesCarried(sends, lists);
    JoinedValid(lists);
    LogsOfFrames(Joined(lists));
    BroadcastDelivers(c, sends, script);
  }

  /**
   What `Valid` shuts out. A record that begins like a last fragment is glued to what was kept, a
   record that begins like a number loses four bytes, and a fragment without data is no fragment.
   */
  lemma MisreadSendings(a: Assembly, tail: bytes)
    requires tail != []
    ensures var record := [FRAG_MAGIC, 2, 0, 0] + tail;
            !Whole(None, record).Valid() && Take(a, record) == Assembly([], a.out + Extract(a.fragBuf + tail))
    ensures var record := [SEQ_MAGIC, SEQ_VERSION, 0, 0] + tail;
            !Whole(None, record).Valid() && Body(record) == tail
    ensures var last := Fragment(Piece(None, [], (0, 0)), 1, 2);
            !IsFragment(last) && Take(a, last).fragBuf == a.fragBuf
  {
    hide Extract;
    var record, numbered := [FRAG_MAGIC, 2, 0, 0] + tail, [SEQ_MAGIC, SEQ_VERSION, 0, 0] + tail;
    assert record[4..] == tail && numbered[4..] == tail;
    assert [FRAG_MAGIC, 2 as byte, 0, 0] + [] == [FRAG_MAGIC, 2, 0, 0];
  }

  // ---------- Sequence numbers ----------

  datatype SeqStats = SeqStats(expected: Option<int>, drops: nat, total: nat)

  /** A gap of more than a thousand is a sender that started again. */
  function TrackSeq(s: SeqStats, number: int): SeqStats {
    var next := Some((number + 1) % 0x1_0000);
    if s.expected.None? || number == s.expected.value then SeqStats(next, s.drops, s.total + 1)
    else
      var gap := (number - s.expected.value) % 0x1_0000;
      SeqStats(next, if gap <= PLAUSIBLE_GAP then s.drops + gap else s.drops, s.total + 1)
  }

  /** The numbers that datagrams carry. */
  function NumbersIn(datas: seq<bytes>): seq<int> {
    if datas == [] then [] else NumbersIn(Init(datas)) + NumberOf(Last(datas))
  }

  function NumberOf(data: bytes): seq<int> {
    if Numbered(data) then [U16(data[2], data[3])] else []
  }

  function TrackNumbers(numbers: seq<int>): SeqStats {
    if numbers == [] then SeqStats(None, 0, 0) else TrackSeq(TrackNumbers(Init(numbers)), Last(numbers) % 0x1_0000)
  }

  /** How many numbers the forward steps of a run leave out. */
  function Holes(numbers: seq<int>): nat {
    if |numbers| <= 1 then 0
    else
      var a, b := Last(Init(numbers)), Last(numbers);
      Holes(Init(numbers)) + (if b > a + 1 then b - a - 1 else 0)
  }

  /** A step forward by less than the limit, or any repeat or step back that is not taken for one. */
  predicate Plausible(a: int, b: int) {
    a - 64535 < b <= a + 1001
  }

  /** Over any run, repeats and steps back included, the drops are the numbers that forward steps left out. */
  lemma {:induction false} HolesCounted(numbers: seq<int>)
    requires numbers != []
    requires forall i :: 0 < i < |numbers| ==> Plausible(numbers[i - 1], numbers[i])
    ensures TrackNumbers(numbers) == SeqStats(Some((Last(numbers) + 1) % 0x1_0000), Holes(numbers), |numbers|)
    decreases |numbers|
  {
    hide TrackSeq, Plausible;
    var b := Last(numbers);
    if |numbers| == 1 {
      assert Init(numbers) == [];
      FirstTracked(b);
    } else {
      var a := Last(Init(numbers));
      HolesCounted(Init(numbers));
      assert Plausible(numbers[|numbers| - 2], numbers[|numbers| - 1]);
      NextTracked(TrackNumbers(Init(numbers)), a, b);
    }
  }

  /** Over an ascending run every number of the span is received or counted as dropped. */
  lemma NumbersAccounted(numbers: seq<int>)
    requires numbers != []
    requires forall i :: 0 < i < |numbers| ==> 0 < numbers[i] - numbers[i - 1] <= 1001
    ensures var s := TrackNumbers(numbers);
            s.total == |numbers| && s.total + s.drops == Last(numbers) - numbers[0] + 1
  {
    hide TrackNumbers;
    HolesCounted(numbers);
    HolesOfAscent(numbers);
  }

  lemma {:induction false} HolesOfAscent(numbers: seq<int>)
    requires numbers != []
    requires forall i :: 0 < i < |numbers| ==> 0 < numbers[i] - numbers[i - 1]
    ensures |numbers| + Holes(numbers) == Last(numbers) - numbers[0] + 1
    decreases |numbers|
  {
    if |numbers| == 1 {
    } else {
      HolesOfAscent(Init(numbers));
      assert Last(Init(numbers)) == numbers[|numbers| - 2] && Init(numbers)[0] == numbers[0];
    }
  }

  lemma FirstTracked(b: int)
    ensures TrackSeq(SeqStats(None, 0, 0), b % 0x1_0000) == SeqStats(Some((b + 1) % 0x1_0000), 0, 1)
  {
  }

  lemma NextTracked(s: SeqStats, a: int, b: int)
    requires s.expected == Some((a + 1) % 0x1_0000) && Plausible(a, b)
    ensures TrackSeq(s, b % 0x1_0000) ==
            SeqStats(Some((b + 1) % 0x1_0000), s.drops + (if b > a + 1 then b - a - 1 else 0), s.total + 1)
  {
    GapMeasured(a, b);
  }

  lemma GapMeasured(a: int, b: int)
    requires Plausible(a, b)
    ensures (b % 0x1_0000 - (a + 1) % 0x1_0000) % 0x1_0000 == if b > a then b - a - 1 else b - a + 0xFFFF
    ensures (b % 0x1_0000 + 1) % 0x1_0000 == (b + 1) % 0x1_0000
  {
  }

  /** The datagrams of a sender that numbers each with 16 bits, the low byte first. */
  function NumberedStream(numbers: seq<int>, bodies: seq<bytes>): seq<bytes>
    requires |numbers| == |bodies|
  {
    if numbers == [] then []
    else
      var n := Last(numbers) % 0x1_0000;
      NumberedStream(Init(numbers), Init(bodies)) + [[0xFE, 0x01, n % 256, n / 256] + Last(bodies)]
  }

  /** The receiver counts the holes that such a sender's numbers leave. */
  lemma SentNumbersCounted(numbers: seq<int>, bodies: seq<bytes>)
    requires numbers != [] && |numbers| == |bodies| && [] !in bodies
    requires forall i :: 0 < i < |numbers| ==> Plausible(numbers[i - 1], numbers[i])
    ensures TrackNumbers(NumbersIn(NumberedStream(numbers, bodies))) ==
            SeqStats(Some((Last(numbers) + 1) % 0x1_0000), Holes(numbers), |numbers|)
  {
    hide TrackNumbers, Plausible, Holes, NumbersIn, NumberedStream;
    NumbersSent(numbers, bodies);
    HolesCounted(numbers);
  }

  lemma {:induction false} NumbersSent(numbers: seq<int>, bodies: seq<bytes>)
    requires |numbers| == |bodies| && [] !in bodies
    ensures TrackNumbers(NumbersIn(NumberedStream(numbers, bodies))) == TrackNumbers(numbers)
    decreases |numbers|
  {
    hide TrackSeq, NumberOf, U16;
    if numbers == [] {
    } else {
      assert Last(bodies) in bodies && forall b :: b in Init(bodies) ==> b in bodies;
      NumbersSent(Init(numbers), Init(bodies));
      var n := Last(numbers) % 0x1_0000;
      var data := [0xFE, 0x01, n % 256, n / 256] + Last(bodies);
      NumberNext(NumberedStream(Init(numbers), Init(bodies)), data);
      SentNumber(n, Last(bodies));
    }
  }

  lemma SentNumber(n: int, body: bytes)
    requires 0 <= n < 0x1_0000 && body != []
    ensures var data := [0xFE, 0x01, n % 256, n / 256] + body; Numbered(data) && U16(data[2], data[3]) == n
  {
  }

  /** A datagram of four bytes or fewer is neither numbered nor a fragment, whatever it begins with. */
  lemma ShortDatagramIsRecord(a: Assembly, data: bytes)
    requires |data| <= 4
    ensures NumberOf(data) == [] && Take(a, data) == a.(out := a.out + Extract(data))
  {
    hide Extract;
  }

  // ---------- The transport ----------

  class UdpBroadcastTransport {
    var socket: seq<bytes>
    var out: bytes
    var fragBuf: bytes
    var seqStats: SeqStats
    ghost var taken: seq<bytes>
    ghost var delivered: bytes

    ghost predicate Valid()
      reads this
    {
      && TakeAll(Assembly([], []), taken) == Assembly(fragBuf, delivered + out)
      && seqStats == TrackNumbers(NumbersIn(taken))
    }

    constructor (socket: seq<bytes>)
      ensures Valid() && this.socket == socket && taken == [] && delivered == []
      ensures seqStats == SeqStats(None, 0, 0)
    {
      this.socket, out, fragBuf, seqStats := socket, [], [], SeqStats(None, 0, 0);
      taken, delivered := [], [];
    }

    method Receive(data: bytes)
      modifies `out, `fragBuf, `seqStats
      ensures Assembly(fragBuf, out) == Take(Assembly(old(fragBuf), old(out)), data)
      ensures seqStats == if Numbered(data) then TrackSeq(old(seqStats), U16(data[2], data[3])) else old(seqStats)
    {
      hide Split, EmitAll;
      var body := data;
      if Numbered(data) {
        seqStats := TrackSeq(seqStats, U16(data[2], data[3]));
        body := data[4..];
      }
      if IsFragment(body) {
        var flags := body[1];
        if flags % 2 == 1 {
          fragBuf := body[4..];
        } else {
          fragBuf := fragBuf + body[4..];
        }
        assert [] + body[4..] == body[4..];
        if (flags / 2) % 2 == 1 {
          var added := ExtractFromRecord(fragBuf);
          out := out + added;
          fragBuf := [];
        }
      } else {
        var added := ExtractFromRecord(body);
        out := out + added;
      }
    }

    /**
     All there is, up to `n` bytes, after as many datagrams as it takes - only the last one taken brought
     any output; None where the socket ends or blocks.
     */
    method Read(n: nat) returns (chunk: Option<bytes>)
      requires Valid() && n > 0
      modifies this
      ensures Valid()
      ensures old(taken) <= taken && taken + socket == old(taken) + old(socket)
      ensures delivered == old(delivered) + if chunk.Some? then chunk.value else []
      ensures taken != old(taken) ==> old(out) == [] && TakeAll(Assembly([], []), Init(taken)).out == old(delivered)
      ensures chunk.Some? ==> 0 < |chunk.value| <= n && (out != [] ==> |chunk.value| == n)
      ensures chunk.None? ==> out == [] && (socket == [] || socket[0] == [])
    {
      hide Take, TakeAll, TrackNumbers, TrackSeq, NumbersIn, U16;
      while out == []
        invariant Valid() && delivered == old(delivered)
        invariant old(taken) <= taken && taken + socket == old(taken) + old(socket)
        invariant taken != old(taken) ==> old(out) == [] && TakeAll(Assembly([], []), Init(taken)).out == old(delivered)
        decreases |socket|
      {
        if socket == [] || socket[0] == [] {
          return None;
        }
        var data := socket[0];
        ReceiveNext(Assembly(fragBuf, out), taken, data, delivered);
        NumberNext(taken, data);
        Receive(data);
        assert taken + socket == taken + [data] + socket[1..];
        assert Init(taken + [data]) == taken && delivered + [] == delivered;
        taken, socket := taken + [data], socket[1..];
      }
      var size := if |out| < n then |out| else n;
      assert delivered + out == delivered + out[..size] + out[size..];
      chunk := Some(out[..size]);
      delivered := delivered + out[..size];
      out := out[size..];
    }
  }

  lemma NumberNext(taken: seq<bytes>, data: bytes)
    ensures TrackNumbers(NumbersIn(taken + [data])) ==
            if Numbered(data) then TrackSeq(TrackNumbers(NumbersIn(taken)), U16(data[2], data[3]))
            else TrackNumbers(NumbersIn(taken))
  {
    hide TrackSeq, TrackNumbers, U16, Numbered;
    assert Init(taken + [data]) == taken && Last(taken + [data]) == data;
    if Numbered(data) {
      NumberedLong(data);
      Le16OfU16(data[2], data[3]);
      TrackOne(NumbersIn(taken), U16(data[2], data[3]));
    } else {
      assert NumbersIn(taken) + [] == NumbersIn(taken);
    }
  }

  lemma NumberedLong(data: bytes)
    requires Numbered(data)
    ensures |data| > 4
  {
  }

  lemma TrackOne(numbers: seq<int>, number: int)
    requires 0 <= number < 0x1_0000
    ensures TrackNumbers(numbers + [number]) == TrackSeq(TrackNumbers(numbers), number)
  {
    hide TrackSeq;
    assert Init(numbers + [number]) == numbers && Last(numbers + [number]) == number;
  }

  lemma ReceiveNext(a: Assembly, taken: seq<bytes>, data: bytes, delivered: bytes)
    requires TakeAll(Assembly([], []), taken) == a.(out := delivered + a.out)
    ensures var b := Take(a, data); TakeAll(Assembly([], []), taken + [data]) == b.(out := delivered + b.out)
  {
    hide Take;
    assert Init(taken + [data]) == taken && Last(taken + [data]) == data;
    TakeBehind(delivered, a, data);
  }
}
