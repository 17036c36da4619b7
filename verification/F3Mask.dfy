/**
 The F3 runtime mask: its wire forms, the snapshot of every advertised range, and the restore that
 counts only when a readback confirms it. The modem is any state machine that answers requests.
 */
module F3Mask {
  import opened Bytes
  import opened Wrappers
  import opened Circular
  import StoredMask
  import Client

  const EXT_MSG_CONFIG_F: byte := 0x7D
  const QUERY_SSID_RANGES: byte := 1
  const GET_BUILD_MASK: byte := 2
  const GET_RT_MASK: byte := 3
  const SET_RT_MASK: byte := 4
  const SET_ALL_RT_MASKS: byte := 5
  const SS_RANGE0_LAST := 120
  const TABLE_HDR_LEN := 7
  const RANGES_HDR_LEN := 7

  // ---------- The other side ----------

  /** What a request brings: nothing in time, or a reply with its opcode. */
  datatype Answer = Silence | Reply(op: byte, body: bytes)

  datatype Modem<!S> = Modem(step: (S, byte, bytes) -> (S, Answer))

  /** A computation that may stop with the source's ValueError. */
  datatype Try<+T> = Done(value: T) | Raised

  // ---------- Wire forms ----------

  function SetAllRequest(level: u32): bytes {
    [SET_ALL_RT_MASKS, 0, 0] + Le32(level)
  }

  predicate RangeOk(first: int, last: int) {
    0 <= first <= last <= 0xFFFF
  }

  function GetRequest(first: int, last: int): bytes
    requires RangeOk(first, last)
  {
    [GET_RT_MASK] + Le16(first) + Le16(last)
  }

  function PackMasks(masks: seq<u32>): bytes {
    if masks == [] then [] else Le32(masks[0]) + PackMasks(masks[1..])
  }

  function SetArrayRequest(first: int, masks: seq<u32>): Try<bytes> {
    if masks == [] || !RangeOk(first, first + |masks| - 1) then Raised
    else Done([SET_RT_MASK] + Le16(first) + Le16(first + |masks| - 1) + [0, 0] + PackMasks(masks))
  }

  function Word(bs: bytes): u32
    requires |bs| == 4
  {
    Le32OfU32(bs);
    U32(bs[0], bs[1], bs[2], bs[3])
  }

  /** The 32-bit words of a byte array whose length is a multiple of four. */
  function Words(bs: bytes): seq<u32>
    requires |bs| % 4 == 0
  {
    if bs == [] then [] else [Word(bs[..4])] + Words(bs[4..])
  }

  lemma WordOfLe32(v: u32)
    ensures Word(Le32(v)) == v
  {
    hide Le32, U32;
  }

  /** The words of a packed array are the masks that were packed. */
  lemma {:induction false} WordsOfPack(masks: seq<u32>)
    ensures |PackMasks(masks)| == 4 * |masks| && Words(PackMasks(masks)) == masks
    decreases masks
  {
    hide Le32, Word;
    if masks == [] {
    } else {
      WordOfLe32(masks[0]);
      WordsOfPack(masks[1..]);
      var packed := PackMasks(masks);
      assert packed[..4] == Le32(masks[0]) && packed[4..] == PackMasks(masks[1..]);
    }
  }

  lemma {:induction false} WordsLength(bs: bytes)
    requires |bs| % 4 == 0
    ensures |Words(bs)| == |bs| / 4
    decreases |bs|
  {
    hide Word;
    if bs == [] {
    } else {
      WordsLength(bs[4..]);
    }
  }

  lemma WordIsNumber(bs: bytes)
    requires |bs| == 4
    ensures Word(bs) == NumberAt(bs, 0)
  {
  }

  lemma {:induction false} WordsAt(bs: bytes, i: nat)
    requires |bs| % 4 == 0 && 4 * i < |bs|
    ensures |Words(bs)| == |bs| / 4 && Words(bs)[i] == NumberAt(bs, 4 * i)
    decreases i
  {
    hide Word;
    WordsLength(bs);
    WordIsNumber(bs[..4]);
    if i == 0 {
    } else {
      WordsAt(bs[4..], i - 1);
    }
  }

  /** A mask table, or None for anything that is not one. */
  function ParseTable(body: bytes): Option<seq<u32>> {
    if |body| < TABLE_HDR_LEN || (body[0] != GET_BUILD_MASK && body[0] != GET_RT_MASK) then None
    else if |body| == TABLE_HDR_LEN || (|body| - TABLE_HDR_LEN) % 4 != 0 then None
    else Some(Words(body[TABLE_HDR_LEN..]))
  }

  /** Which bodies are tables, and what each of their masks is. */
  lemma TableOnWire(body: bytes)
    ensures ParseTable(body).Some? <==> |body| >= 11 && |body| % 4 == 3 && (body[0] == 2 || body[0] == 3)
    ensures ParseTable(body).Some? ==>
              var masks := ParseTable(body).value;
              && |masks| == |body| / 4 - 1
              && forall i :: 0 <= i < |masks| ==> masks[i] == NumberAt(body, 7 + 4 * i)
  {
    hide Words, NumberAt;
    if ParseTable(body).Some? {
      var table := body[TABLE_HDR_LEN..];
      WordsLength(table);
      forall i | 0 <= i < |table| / 4 ensures Words(table)[i] == NumberAt(body, 7 + 4 * i) {
        WordsAt(table, i);
        NumberInside(table, 4 * i);
        NumberInside(body, 7 + 4 * i);
        assert table[4 * i..4 * i + 4] == body[7 + 4 * i..7 + 4 * i + 4];
      }
    }
  }

  lemma NumberInside(body: bytes, off: nat)
    requires off + 4 <= |body|
    ensures NumberAt(body, off) == NumberAt(body[off..off + 4], 0)
  {
  }

  /** Up to `n` complete pairs from offset `off` on. */
  function RangesFrom(body: bytes, off: nat, n: nat): seq<(int, int)>
    decreases n
  {
    if n == 0 || off + 4 > |body| then []
    else [(U16(body[off], body[off + 1]), U16(body[off + 2], body[off + 3]))] + RangesFrom(body, off + 4, n - 1)
  }

  function ParseRanges(body: bytes): seq<(int, int)> {
    if |body| < RANGES_HDR_LEN then [] else RangesFrom(body, RANGES_HDR_LEN, U16(body[3], body[4]))
  }

  /** As many pairs as the reply announces and has room for, from byte 7 on, the low byte of each number first. */
  lemma RangesOnWire(body: bytes)
    ensures |body| < 7 ==> ParseRanges(body) == []
    ensures |body| >= 7 ==>
              var rs, announced, room := ParseRanges(body), U16(body[3], body[4]), (|body| - 7) / 4;
              && |rs| == (if announced < room then announced else room)
              && forall i :: 0 <= i < |rs| ==>
                   U16(body[7 + 4 * i], body[8 + 4 * i]) == rs[i].0 && U16(body[9 + 4 * i], body[10 + 4 * i]) == rs[i].1
  {
    hide RangesFrom;
    if |body| >= 7 {
      RangesFromOnWire(body, 7, U16(body[3], body[4]));
    }
  }

  lemma {:induction false} RangesFromOnWire(body: bytes, off: nat, n: nat)
    requires off <= |body|
    ensures var rs, room := RangesFrom(body, off, n), (|body| - off) / 4;
            && |rs| == (if n < room then n else room)
            && forall i :: 0 <= i < |rs| ==>
                 && U16(body[off + 4 * i], body[off + 4 * i + 1]) == rs[i].0
                 && U16(body[off + 4 * i + 2], body[off + 4 * i + 3]) == rs[i].1
    decreases n
  {
    hide U16;
    if n == 0 || off + 4 > |body| {
    } else {
      RangesFromOnWire(body, off + 4, n - 1);
      var rest := RangesFrom(body, off + 4, n - 1);
      var rs := RangesFrom(body, off, n);
      forall i | 0 <= i < |rs|
        ensures U16(body[off + 4 * i], body[off + 4 * i + 1]) == rs[i].0
        ensures U16(body[off + 4 * i + 2], body[off + 4 * i + 3]) == rs[i].1
      {
        if i > 0 {
          assert rs[i] == rest[i - 1] && off + 4 * i == off + 4 + 4 * (i - 1);
        }
      }
    }
  }

  // ---------- Reading ----------

  datatype Range = Range(first: int, last: int, masks: Option<seq<u32>>)

  datatype Snapshot = Snapshot(ranges: seq<Range>, complete: bool)
  {
    function AllMasks(): seq<u32> {
      Gather(ranges)
    }
  }

  function Gather(ranges: seq<Range>): seq<u32> {
    if ranges == [] then []
    else (if ranges[0].masks.Some? then ranges[0].masks.value else []) + Gather(ranges[1..])
  }

  function QueryRanges<S>(m: Modem<S>, st: S): (S, seq<(int, int)>) {
    var (st', ans) := m.step(st, EXT_MSG_CONFIG_F, [QUERY_SSID_RANGES]);
    (st', if ans.Reply? && ans.op == EXT_MSG_CONFIG_F then ParseRanges(ans.body) else [])
  }

  function ReadMask<S>(m: Modem<S>, st: S, first: int, last: int): (S, Try<Option<seq<u32>>>) {
    if !RangeOk(first, last) then (st, Raised)
    else
      var (st', ans) := m.step(st, EXT_MSG_CONFIG_F, GetRequest(first, last));
      (st', Done(if ans.Reply? && ans.op == EXT_MSG_CONFIG_F then ParseTable(ans.body) else None))
  }

  /** The table cut to the advertised length of the range. */
  function Cut(masks: Option<seq<u32>>, n: nat): Option<seq<u32>> {
    if masks.Some? && |masks.value| > n then Some(masks.value[..n]) else masks
  }

  function ReadRanges<S>(m: Modem<S>, st: S, rs: seq<(int, int)>): (S, Try<seq<Range>>)
    decreases rs
  {
    if rs == [] then (st, Done([]))
    else
      var (first, last) := rs[0];
      var (st', got) := ReadMask(m, st, first, last);
      if got.Raised? then (st', Raised)
      else
        var (st'', rest) := ReadRanges(m, st', rs[1..]);
        var one := Range(first, last, Cut(got.value, last - first + 1));
        (st'', if rest.Raised? then Raised else Done([one] + rest.value))
  }

  lemma ReadMaskInRange<S>(m: Modem<S>, st: S, first: int, last: int)
    ensures ReadMask(m, st, first, last).1.Done? ==> RangeOk(first, last)
  {
  }

  predicate AllRead(ranges: seq<Range>) {
    forall r :: r in ranges ==> r.masks.Some?
  }

  predicate NoneRead(ranges: seq<Range>) {
    forall r :: r in ranges ==> r.masks.None?
  }

  /** Read the given ranges, or range 0 alone if there are none, which never counts as complete. */
  function ReadThese<S>(m: Modem<S>, st: S, rs: seq<(int, int)>): (S, Try<Option<Snapshot>>) {
    var (st', out) := ReadRanges(m, st, if rs == [] then [(0, SS_RANGE0_LAST)] else rs);
    if out.Raised? then (st', Raised)
    else if NoneRead(out.value) then (st', Done(None))
    else (st', Done(Some(Snapshot(out.value, rs != [] && AllRead(out.value)))))
  }

  function ReadSnapshot<S>(m: Modem<S>, st: S): (S, Try<Option<Snapshot>>) {
    var (st', rs) := QueryRanges(m, st);
    ReadThese(m, st', rs)
  }

  // ---------- Restoring ----------

  /** The one value with which a SET_ALL restores the snapshot. */
  function SetAllValue(saved: Snapshot): Option<u32> {
    var all := saved.AllMasks();
    if saved.complete && all != [] && (forall v :: v in all ==> v == all[0]) && StoredMask.Stored(all[0]) == all[0]
    then Some(all[0]) else None
  }

  function ArrayWrites(ranges: seq<Range>): Try<seq<bytes>> {
    if ranges == [] then Done([])
    else
      var rest := ArrayWrites(ranges[1..]);
      if ranges[0].masks.None? || ranges[0].masks.value == [] then rest
      else
        var one := SetArrayRequest(ranges[0].first, ranges[0].masks.value);
        if one.Raised? || rest.Raised? then Raised else Done([one.value] + rest.value)
  }

  function Writes(saved: Snapshot): Try<seq<bytes>> {
    var v := SetAllValue(saved);
    if v.Some? then Done([SetAllRequest(v.value)]) else ArrayWrites(saved.ranges)
  }

  predicate Accepted(ans: Answer) {
    ans.Reply? && ans.op != Client.DIAG_BAD_CMD_F
  }

  /** Send the writes in order, stopping at the first that is not accepted. */
  function SendWrites<S>(m: Modem<S>, st: S, writes: seq<bytes>): (S, bool)
    decreases writes
  {
    if writes == [] then (st, true)
    else
      var (st', ans) := m.step(st, EXT_MSG_CONFIG_F, writes[0]);
      if Accepted(ans) then SendWrites(m, st', writes[1..]) else (st', false)
  }

  function Bounds(ranges: seq<Range>): (r: seq<(int, int)>)
    ensures |r| == |ranges| && forall i :: 0 <= i < |r| ==> r[i] == (ranges[i].first, ranges[i].last)
  {
    if ranges == [] then [] else [(ranges[0].first, ranges[0].last)] + Bounds(ranges[1..])
  }

  /** The readback repeats every table of the snapshot, position by position. */
  predicate Confirms(saved: seq<Range>, post: Option<Snapshot>) {
    forall i :: 0 <= i < |saved| && saved[i].masks.Some? ==>
      post.Some? && i < |post.value.ranges| && post.value.ranges[i].masks == saved[i].masks
  }

  function Restore<S>(m: Modem<S>, st: S, saved: Option<Snapshot>): (S, Try<bool>) {
    if saved.None? || saved.value.ranges == [] then (st, Done(false))
    else
      var writes := Writes(saved.value);
      if writes.Raised? then (st, Raised)
      else
        var (st1, sent) := SendWrites(m, st, writes.value);
        if !sent then (st1, Done(false))
        else
          var (st2, post) := ReadThese(m, st1, Bounds(saved.value.ranges));
          if post.Raised? then (st2, Raised)
          else (st2, Done(Confirms(saved.value.ranges, post.value) && saved.value.complete))
  }

  // ---------- What a modem can be trusted with ----------

  /** Range queries and table reads. */
  predicate IsRead(payload: bytes) {
    payload == [QUERY_SSID_RANGES] || (payload != [] && payload[0] == GET_RT_MASK)
  }

  /** Reading changes no mask. */
  ghost predicate ReadsLeave<S(!new)>(m: Modem<S>, view: (S, int) -> u32) {
    forall st, payload, ss :: IsRead(payload) ==>
      view(m.step(st, EXT_MSG_CONFIG_F, payload).0, ss) == view(st, ss)
  }

  /** `masks` are what `st` holds from `first` to `last`, and maybe more. */
  ghost predicate Shows<S>(view: (S, int) -> u32, st: S, first: int, last: int, masks: seq<u32>) {
    |masks| >= last - first + 1 && forall i :: 0 <= i <= last - first ==> masks[i] == view(st, first + i)
  }

  /** A table that arrives for one of these ranges shows the masks held, at least as many as it has. */
  ghost predicate TellsTruthOn<S(!new)>(m: Modem<S>, view: (S, int) -> u32, rs: seq<(int, int)>) {
    forall st, p :: p in rs && RangeOk(p.0, p.1) ==>
      var ans := m.step(st, EXT_MSG_CONFIG_F, GetRequest(p.0, p.1)).1;
      ans.Reply? && ans.op == EXT_MSG_CONFIG_F && ParseTable(ans.body).Some? ==>
        Shows(view, st, p.0, p.1, ParseTable(ans.body).value)
  }

  lemma TruthOnSome<S(!new)>(m: Modem<S>, view: (S, int) -> u32, rs: seq<(int, int)>, some: seq<(int, int)>)
    requires TellsTruthOn(m, view, rs) && forall p :: p in some ==> p in rs
    ensures TellsTruthOn(m, view, some)
  {
    hide Shows, ParseTable, GetRequest, RangeOk;
  }

  ghost predicate SameView<S>(view: (S, int) -> u32, a: S, b: S) {
    forall ss: int :: view(a, ss) == view(b, ss)
  }

  /** On every SSID of these ranges both states hold the same mask. */
  ghost predicate AgreeOn<S>(view: (S, int) -> u32, a: S, b: S, ranges: seq<Range>) {
    forall r, ss :: r in ranges && r.first <= ss <= r.last ==> view(a, ss) == view(b, ss)
  }

  /** A range that was read holds exactly its advertised length of the masks in `st`. */
  ghost predicate Exact<S>(view: (S, int) -> u32, st: S, r: Range) {
    r.masks.Some? ==> |r.masks.value| == r.last - r.first + 1 && Shows(view, st, r.first, r.last, r.masks.value)
  }

  ghost predicate AllExact<S>(view: (S, int) -> u32, st: S, ranges: seq<Range>) {
    forall r :: r in ranges ==> Exact(view, st, r)
  }

  lemma ReadMaskTruthful<S(!new)>(m: Modem<S>, st: S, p: (int, int), rs: seq<(int, int)>, view: (S, int) -> u32)
    requires ReadsLeave(m, view) && TellsTruthOn(m, view, rs) && p in rs
    ensures var (st', got) := ReadMask(m, st, p.0, p.1);
            && SameView(view, st, st')
            && (got.Done? ==> RangeOk(p.0, p.1))
            && (got.Done? ==> Exact(view, st, Range(p.0, p.1, Cut(got.value, p.1 - p.0 + 1))))
  {
    hide ParseTable;
    if RangeOk(p.0, p.1) {
      assert IsRead(GetRequest(p.0, p.1));
    }
  }

  lemma ExactTransfers<S>(view: (S, int) -> u32, a: S, b: S, ranges: seq<Range>)
    requires SameView(view, a, b) && AllExact(view, b, ranges)
    ensures AllExact(view, a, ranges)
  {
    forall r | r in ranges ensures Exact(view, a, r) {
      assert Exact(view, b, r);
    }
  }

  lemma NoneExact<S>(view: (S, int) -> u32, st: S, ranges: seq<Range>)
    requires ranges == []
    ensures AllExact(view, st, ranges)
  {
  }

  lemma AllExactCons<S>(view: (S, int) -> u32, st: S, one: Range, rest: seq<Range>)
    requires Exact(view, st, one) && AllExact(view, st, rest)
    ensures AllExact(view, st, [one] + rest)
  {
  }

  lemma {:induction false} ReadRangesTruthful<S(!new)>(m: Modem<S>, st: S, rs: seq<(int, int)>, view: (S, int) -> u32)
    requires ReadsLeave(m, view) && TellsTruthOn(m, view, rs)
    ensures var (st', out) := ReadRanges(m, st, rs);
            && SameView(view, st, st')
            && (out.Done? ==> Bounds(out.value) == rs && AllExact(view, st, out.value))
    decreases rs
  {
    hide ReadMask, Cut, ReadsLeave, TellsTruthOn, Exact, AllExact;
    NoneExact(view, st, []);
    if rs == [] {
    } else {
      var (first, last) := rs[0];
      ReadMaskTruthful(m, st, rs[0], rs, view);
      var (st', got) := ReadMask(m, st, first, last);
      if got.Done? {
        TruthOnSome(m, view, rs, rs[1..]);
        ReadRangesTruthful(m, st', rs[1..], view);
        var (st'', rest) := ReadRanges(m, st', rs[1..]);
        if rest.Done? {
          ExactTransfers(view, st, st', rest.value);
          var one := Range(first, last, Cut(got.value, last - first + 1));
          AllExactCons(view, st, one, rest.value);
          assert ([one] + rest.value)[1..] == rest.value;
          assert rs == [rs[0]] + rs[1..];
        }
      }
    }
  }

  /** Reading changes nothing, whatever is asked for and answered. */
  lemma {:induction false} ReadRangesLeave<S(!new)>(m: Modem<S>, st: S, rs: seq<(int, int)>, view: (S, int) -> u32)
    requires ReadsLeave(m, view)
    ensures SameView(view, st, ReadRanges(m, st, rs).0)
    decreases rs
  {
    if rs == [] {
    } else {
      var (first, last) := rs[0];
      assert RangeOk(first, last) ==> IsRead(GetRequest(first, last));
      ReadRangesLeave(m, ReadMask(m, st, first, last).0, rs[1..], view);
    }
  }

  /** A snapshot of given ranges; the range read for want of any is not trusted, and never complete. */
  lemma ReadTheseTruthful<S(!new)>(m: Modem<S>, st: S, rs: seq<(int, int)>, view: (S, int) -> u32)
    requires ReadsLeave(m, view) && TellsTruthOn(m, view, rs)
    ensures var (st', got) := ReadThese(m, st, rs);
            && SameView(view, st, st')
            && (got.Done? && got.value.Some? ==>
                  var snap := got.value.value;
                  && (rs != [] ==> AllExact(view, st, snap.ranges) && Bounds(snap.ranges) == rs)
                  && (snap.complete ==> rs != [] && AllRead(snap.ranges) && snap.ranges != []))
  {
    hide ReadRanges, AllExact, SameView, ReadsLeave, TellsTruthOn;
    ReadRangesLeave(m, st, if rs == [] then [(0, SS_RANGE0_LAST)] else rs, view);
    if rs != [] {
      ReadRangesTruthful(m, st, rs, view);
    }
  }

  lemma SnapshotTruthful<S(!new)>(m: Modem<S>, st: S, view: (S, int) -> u32)
    requires ReadsLeave(m, view) && TellsTruthOn(m, view, QueryRanges(m, st).1)
    ensures var (st', got) := ReadSnapshot(m, st);
            var rs := QueryRanges(m, st).1;
            && SameView(view, st, st')
            && (got.Done? && got.value.Some? ==>
                  var snap := got.value.value;
                  && (rs != [] ==> AllExact(view, st, snap.ranges) && Bounds(snap.ranges) == rs)
                  && (snap.complete ==> rs != [] && AllRead(snap.ranges) && snap.ranges != []))
  {
    hide ReadThese, Exact, TellsTruthOn;
    var st1 := QueryRanges(m, st).0;
    assert SameView(view, st, st1);
    var rs := QueryRanges(m, st).1;
    ReadTheseTruthful(m, st1, rs, view);
    var got := ReadThese(m, st1, rs).1;
    if rs != [] && got.Done? && got.value.Some? {
      ExactTransfers(view, st, st1, got.value.value.ranges);
    }
  }

  // ---------- The restore's claim ----------

  /** The modem holds, on every range of the snapshot, entry for entry what the snapshot says. */
  ghost predicate HoldsSnapshot<S>(view: (S, int) -> u32, st: S, saved: Snapshot) {
    forall r :: r in saved.ranges ==>
      && r.masks.Some? && |r.masks.value| == r.last - r.first + 1
      && Shows(view, st, r.first, r.last, r.masks.value)
  }

  lemma ConfirmedHolds<S>(view: (S, int) -> u32, st: S, saved: Snapshot, post: Option<Snapshot>)
    requires AllRead(saved.ranges) && Confirms(saved.ranges, post)
    requires post.Some? ==> AllExact(view, st, post.value.ranges) && Bounds(post.value.ranges) == Bounds(saved.ranges)
    ensures HoldsSnapshot(view, st, saved)
  {
    forall r | r in saved.ranges
      ensures r.masks.Some? && |r.masks.value| == r.last - r.first + 1
      ensures Shows(view, st, r.first, r.last, r.masks.value)
    {
      var i :| 0 <= i < |saved.ranges| && saved.ranges[i] == r;
      assert r.masks.Some?;
      var q := post.value.ranges[i];
      assert q in post.value.ranges && Exact(view, st, q);
      assert Bounds(post.value.ranges)[i] == (q.first, q.last);
    }
  }

  /**
   Whatever the modem makes of the writes - applies, changes, ignores, rejects or never answers them -
   a restore that reports success leaves the saved masks on every SSID of every range, and the
   snapshot was complete.
   */
  lemma RestoreIsTruthful<S(!new)>(m: Modem<S>, st: S, saved: Option<Snapshot>, view: (S, int) -> u32)
    requires ReadsLeave(m, view) && (saved.Some? ==> TellsTruthOn(m, view, Bounds(saved.value.ranges)))
    requires saved.Some? && saved.value.complete ==> AllRead(saved.value.ranges)
    ensures var (st', ok) := Restore(m, st, saved);
            ok == Done(true) ==> saved.Some? && saved.value.complete && HoldsSnapshot(view, st', saved.value)
  {
    hide ReadThese, Writes, SendWrites, HoldsSnapshot, Exact, Confirms, ReadsLeave, TellsTruthOn;
    if saved.Some? && saved.value.ranges != [] && Writes(saved.value).Done? {
      var (st1, sent) := SendWrites(m, st, Writes(saved.value).value);
      var rs := Bounds(saved.value.ranges);
      ReadTheseTruthful(m, st1, rs, view);
      var (st2, post) := ReadThese(m, st1, rs);
      if post.Done? && Confirms(saved.value.ranges, post.value) && saved.value.complete {
        if post.value.Some? {
          ExactTransfers(view, st2, st1, post.value.value.ranges);
        }
        ConfirmedHolds(view, st2, saved.value, post.value);
      }
    }
  }

  /**
   A snapshot is put back with one SET_ALL exactly if it is complete, its masks are all the same, and that mask
   is a rising chain of bytes, which a SET_ALL stores verbatim.
   */
  lemma SetAllValueRestores(saved: Snapshot, v: u32)
    ensures SetAllValue(saved) == Some(v) <==>
            && saved.complete && v in saved.AllMasks() && (forall x :: x in saved.AllMasks() ==> x == v)
            && StoredMask.Rises(Le32(v), 0)
    ensures SetAllValue(saved) == Some(v) ==> StoredMask.Stored(v) == v && Writes(saved) == Done([SetAllRequest(v)])
  {
    hide StoredMask.Stored, StoredMask.Rises, SetAllRequest, Snapshot.AllMasks;
    var all := saved.AllMasks();
    StoredMask.StoredIsClosed(v);
    if all != [] {
      assert all[0] in all;
    }
  }
}
