/** Subscribing to log codes: the sizes of the sixteen groups, then a mask for each that has any. */
module Subscribe {
  import opened Bytes
  import opened Circular
  import opened EventMask
  import opened F3Mask
  import opened Recording
  import Client

  const RETRIEVE_RANGES := 1
  const SET_MASK := 3
  const SUCCESS := 0
  const GROUPS := 16
  const HDR_LEN := 11

  // ---------- Codes and masks ----------

  /** Bitwise or of two numbers. */
  function OrNat(x: nat, y: nat): nat
    decreases x + y
  {
    if x == 0 then y else if y == 0 then x
    else (if x % 2 == 1 || y % 2 == 1 then 1 else 0) + 2 * OrNat(x / 2, y / 2)
  }

  /** `(group << 12) | bit`, also for a bit beyond the twelve that a code has room for. */
  function Code(group: nat, bit: nat): nat {
    4096 * OrNat(group, bit / 4096) + bit % 4096
  }

  function GroupMask(codes: set<int>, group: nat, size: nat, upTo: nat): (mask: bytes)
    requires upTo <= size
    ensures |mask| == (size + 7) / 8
  {
    if upTo == 0 then Zeros((size + 7) / 8)
    else
      var mask := GroupMask(codes, group, size, upTo - 1);
      var bit := upTo - 1;
      if Code(group, bit) in codes then mask[bit / 8 := PutBit(mask[bit / 8], bit % 8, true)] else mask
  }

  /** Bit `k` of a mask. */
  predicate MaskBit(mask: bytes, k: nat)
    requires k < 8 * |mask|
  {
    Bit(mask[k / 8], k % 8)
  }

  /** A mask arms exactly the requested codes of its group, and its padding stays clear. */
  lemma {:induction false} GroupMaskArms(codes: set<int>, group: nat, size: nat, upTo: nat, k: nat)
    requires upTo <= size && k < 8 * ((size + 7) / 8)
    ensures MaskBit(GroupMask(codes, group, size, upTo), k) <==> k < upTo && Code(group, k) in codes
    decreases upTo
  {
    hide Bit, PutBit, Code;
    if upTo == 0 {
      ZeroHasNoBits(k % 8);
    } else {
      GroupMaskArms(codes, group, size, upTo - 1, k);
      var mask, bit := GroupMask(codes, group, size, upTo - 1), upTo - 1;
      if k / 8 == bit / 8 {
        PutBitKeepsOthers(mask[bit / 8], bit % 8, true, k % 8);
      }
    }
  }

  method BuildMask(codes: set<int>, group: nat, size: nat) returns (mask: bytes)
    ensures mask == GroupMask(codes, group, size, size)
  {
    hide PutBit, Code;
    mask := Zeros((size + 7) / 8);
    for bit := 0 to size
      invariant mask == GroupMask(codes, group, size, bit)
    {
      if Code(group, bit) in codes {
        mask := mask[bit / 8 := PutBit(mask[bit / 8], bit % 8, true)];
      }
    }
  }

  /** Bits within the twelve of a code name different codes in different groups. */
  lemma CodesDistinct(g: nat, i: nat, h: nat, j: nat)
    requires i < 4096 && j < 4096
    ensures Code(g, i) == 0x1000 * g + i
    ensures Code(g, i) == Code(h, j) <==> g == h && i == j
  {
    assert i / 4096 == 0 && j / 4096 == 0;
  }

  // ---------- The exchange ----------

  function SetMaskRequest(group: u32, size: u32, mask: bytes): bytes {
    [0, 0, 0] + Le32(SET_MASK) + Le32(group) + Le32(size) + mask
  }

  /** A reply that names the operation and reports success; the rest makes the source raise. */
  predicate Good(ans: Answer, operation: u32) {
    ans.Reply? && |ans.body| >= HDR_LEN && Word(ans.body[3..7]) == operation && Word(ans.body[7..11]) == SUCCESS
  }

  function GroupSizes(body: bytes): (r: seq<u32>)
    requires |body| >= HDR_LEN + 4 * GROUPS
    ensures |r| == GROUPS
  {
    var table := body[HDR_LEN..HDR_LEN + 4 * GROUPS];
    WordsLength(table);
    Words(table)
  }

  /** The bit counts of the groups, or Raised. */
  function SizesOf(ans: Answer): (r: Try<seq<u32>>)
    ensures r.Done? ==> |r.value| == GROUPS
  {
    if ans.Reply? && |ans.body| >= HDR_LEN + 4 * GROUPS && Good(ans, RETRIEVE_RANGES) then Done(GroupSizes(ans.body))
    else Raised
  }

  /** One SET_MASK with the mask of its group. */
  function SetGroup<S>(m: Modem<S>, st: S, codes: set<int>, group: u32, size: u32): (S, Answer) {
    m.step(st, Client.DIAG_LOG_CONFIG_F, SetMaskRequest(group, size, GroupMask(codes, group, size, size)))
  }

  function SetGroups<S>(m: Modem<S>, st: S, codes: set<int>, sizes: seq<u32>, group: nat): (S, Try<()>)
    requires group <= |sizes| <= GROUPS
    decreases |sizes| - group
  {
    hide SetGroup, Good;
    if group == |sizes| then (st, Done(()))
    else if sizes[group] == 0 then SetGroups(m, st, codes, sizes, group + 1)
    else
      var one := SetGroup(m, st, codes, group, sizes[group]);
      if Good(one.1, SET_MASK) then SetGroups(m, one.0, codes, sizes, group + 1) else (one.0, Raised)
  }

  const RETRIEVE_REQUEST: bytes := [0, 0, 0] + Le32(RETRIEVE_RANGES)

  function Subscribed<S>(m: Modem<S>, st: S, codes: set<int>): (S, Try<()>) {
    var (st1, ans) := m.step(st, Client.DIAG_LOG_CONFIG_F, RETRIEVE_REQUEST);
    var sizes := SizesOf(ans);
    if sizes.Raised? then (st1, Raised) else SetGroups(m, st1, codes, sizes.value, 0)
  }

  method SubscribeLogs<S>(m: Modem<S>, st: S, codes: set<int>) returns (end: S, ok: Try<()>)
    ensures (end, ok) == Subscribed(m, st, codes)
  {
    hide GroupMask, Good, SizesOf, SetMaskRequest;
    var (st1, first) := m.step(st, Client.DIAG_LOG_CONFIG_F, RETRIEVE_REQUEST);
    end := st1;
    var sizes := SizesOf(first);
    if sizes.Raised? {
      return end, Raised;
    }
    for group := 0 to GROUPS
      invariant Subscribed(m, st, codes) == SetGroups(m, end, codes, sizes.value, group)
    {
      var size := sizes.value[group];
      if size != 0 {
        var mask := BuildMask(codes, group, size);
        var (next, ans) := m.step(end, Client.DIAG_LOG_CONFIG_F, SetMaskRequest(group, size, mask));
        end := next;
        if !Good(ans, SET_MASK) {
          return end, Raised;
        }
      }
    }
    ok := Done(());
  }

  // ---------- What is subscribed ----------

  /** A mask set with success is the group's mask from then on, and no other group's changes. */
  ghost predicate AppliesMasks<S(!new)>(m: Modem<S>, armed: (S, int) -> bytes) {
    forall st, group: u32, size: u32, mask: bytes ::
      var (st', ans) := m.step(st, Client.DIAG_LOG_CONFIG_F, SetMaskRequest(group, size, mask));
      Good(ans, SET_MASK) ==> Replaced(armed, st, st', group, mask)
  }

  ghost predicate Replaced<S>(armed: (S, int) -> bytes, st: S, st': S, group: int, mask: bytes) {
    armed(st', group) == mask && forall g: int :: g != group ==> armed(st', g) == armed(st, g)
  }

  /** From group `from` on: the masks of the request where a group has bits, untouched elsewhere. */
  ghost predicate Arms<S>(armed: (S, int) -> bytes, st: S, end: S, codes: set<int>, sizes: seq<u32>, from: nat) {
    forall g: int :: armed(end, g) ==
      if from <= g < |sizes| && sizes[g] != 0 then GroupMask(codes, g, sizes[g], sizes[g]) else armed(st, g)
  }

  lemma {:induction false} SetGroupsArms<S(!new)>(m: Modem<S>, st: S, codes: set<int>, sizes: seq<u32>, group: nat,
                                                  armed: (S, int) -> bytes)
    requires group <= |sizes| <= GROUPS && AppliesMasks(m, armed)
    ensures var (end, ok) := SetGroups(m, st, codes, sizes, group);
            ok.Done? ==> Arms(armed, st, end, codes, sizes, group)
    decreases |sizes| - group
  {
    hide GroupMask, Good, SetMaskRequest;
    if group == |sizes| {
    } else if sizes[group] == 0 {
      SetGroupsArms(m, st, codes, sizes, group + 1, armed);
    } else {
      var mask := GroupMask(codes, group, sizes[group], sizes[group]);
      var (st', ans) := SetGroup(m, st, codes, group, sizes[group]);
      if Good(ans, SET_MASK) {
        assert Replaced(armed, st, st', group, mask);
        SetGroupsArms(m, st', codes, sizes, group + 1, armed);
      }
    }
  }

  /** A mask of the group's size in which exactly the requested codes are set. */
  ghost predicate ExactMask(mask: bytes, codes: set<int>, group: nat, size: nat) {
    && |mask| == (size + 7) / 8
    && forall k: nat :: k < 8 * |mask| ==> (MaskBit(mask, k) <==> k < size && Code(group, k) in codes)
  }

  ghost predicate SubscribedExactly<S>(armed: (S, int) -> bytes, st: S, end: S, codes: set<int>, sizes: seq<u32>) {
    forall g: int ::
      if 0 <= g < |sizes| && sizes[g] != 0 then ExactMask(armed(end, g), codes, g, sizes[g])
      else armed(end, g) == armed(st, g)
  }

  /**
   A subscription that ends without an error has armed, in every group the modem announced, exactly
   the requested codes, and has left every other group alone.
   */
  lemma SubscriptionIsExact<S(!new)>(m: Modem<S>, st: S, codes: set<int>, armed: (S, int) -> bytes)
    requires AppliesMasks(m, armed) && Subscribed(m, st, codes).1.Done?
    ensures var first := m.step(st, Client.DIAG_LOG_CONFIG_F, RETRIEVE_REQUEST);
            var sizes := SizesOf(first.1);
            sizes.Done? && SubscribedExactly(armed, first.0, Subscribed(m, st, codes).0, codes, sizes.value)
  {
    hide GroupMask, Good, SizesOf, AppliesMasks, ExactMask, SetGroups;
    var first := m.step(st, Client.DIAG_LOG_CONFIG_F, RETRIEVE_REQUEST);
    var sizes := SizesOf(first.1).value;
    SetGroupsArms(m, first.0, codes, sizes, 0, armed);
    forall g: nat | g < |sizes| && sizes[g] != 0
      ensures ExactMask(GroupMask(codes, g, sizes[g], sizes[g]), codes, g, sizes[g])
    {
      GroupMaskExact(codes, g, sizes[g]);
    }
  }

  lemma GroupMaskExact(codes: set<int>, group: nat, size: nat)
    ensures ExactMask(GroupMask(codes, group, size, size), codes, group, size)
  {
    hide GroupMask, MaskBit, Code;
    var mask := GroupMask(codes, group, size, size);
    forall k: nat | k < 8 * |mask| ensures MaskBit(mask, k) <==> k < size && Code(group, k) in codes {
      GroupMaskArms(codes, group, size, size, k);
    }
  }

  // ---------- What is sent ----------

  /** A reply with this operation as the number at byte 3, and status 0 at byte 7. */
  predicate Succeeds(ans: Answer, operation: byte) {
    ans.Reply? && |ans.body| >= 11 && NumberAt(ans.body, 3) == operation && NumberAt(ans.body, 7) == 0
  }

  lemma GoodIsSuccess(ans: Answer, operation: byte)
    ensures Good(ans, operation) <==> Succeeds(ans, operation)
  {
    hide Word, NumberAt;
    if ans.Reply? && |ans.body| >= HDR_LEN {
      WordIsNumber(ans.body[3..7]);
      WordIsNumber(ans.body[7..11]);
      NumberInside(ans.body, 3);
      NumberInside(ans.body, 7);
    }
  }

  /** Operation 1 behind three bytes of padding. */
  predicate AsksForSizes(payload: bytes) {
    |payload| == 7 && payload[..3] == [0, 0, 0] && NumberAt(payload, 3) == 1
  }

  /** The size of group `g` is the number at byte `11 + 4 g` of the reply. */
  lemma GroupSizeAt(body: bytes, g: nat)
    requires |body| >= 75 && g < 16
    ensures GroupSizes(body)[g] == NumberAt(body, 11 + 4 * g)
  {
    hide Words;
    WordsAt(body[HDR_LEN..HDR_LEN + 4 * GROUPS], g);
  }

  /** Operation 3 behind three bytes of padding, the group and its size, and the mask. */
  predicate CarriesMask(payload: bytes, group: nat, size: nat, mask: bytes) {
    && |payload| >= 15 && payload[..3] == [0, 0, 0] && payload[15..] == mask
    && NumberAt(payload, 3) == 3 && NumberAt(payload, 7) == group && NumberAt(payload, 11) == size
  }

  /** The request that sets the mask of a group: which group, how many bits, and exactly the codes asked for. */
  ghost predicate SetsMask(x: Exchange, codes: set<int>, group: nat, size: nat) {
    x.op == 0x73 &&
    exists mask :: CarriesMask(x.payload, group, size, mask) && ExactMask(mask, codes, group, size)
  }

  /** One such request for every group that has bits, in order, as long as each succeeds. */
  ghost predicate MasksSent(sent: Log, codes: set<int>, sizes: seq<u32>, group: nat, ok: Try<()>)
    requires group <= |sizes|
    decreases |sizes| - group
  {
    if group == |sizes| then sent == [] && ok.Done?
    else if sizes[group] == 0 then MasksSent(sent, codes, sizes, group + 1, ok)
    else
      && sent != [] && SetsMask(sent[0], codes, group, sizes[group])
      && if Succeeds(sent[0].answer, 3) then MasksSent(sent[1..], codes, sizes, group + 1, ok)
         else sent[1..] == [] && ok.Raised?
  }

  lemma MaskRequestSets(codes: set<int>, group: nat, size: u32, ans: Answer)
    requires group < 16
    ensures var request := SetMaskRequest(group, size, GroupMask(codes, group, size, size));
            SetsMask(Exchange(Client.DIAG_LOG_CONFIG_F, request, ans), codes, group, size)
  {
    hide GroupMask, ExactMask, CarriesMask, SetMaskRequest;
    GroupMaskExact(codes, group, size);
    var mask := GroupMask(codes, group, size, size);
    Layout(SET_MASK, group, size, mask);
    CarriedBy(SetMaskRequest(group, size, mask), group, size, mask);
  }

  lemma Layout(operation: u32, group: u32, size: u32, mask: bytes)
    ensures var payload := [0, 0, 0] + Le32(operation) + Le32(group) + Le32(size) + mask;
            && |payload| >= 15 && payload[..3] == [0, 0, 0] && payload[3..7] == Le32(operation)
            && payload[7..11] == Le32(group) && payload[11..15] == Le32(size) && payload[15..] == mask
    ensures SetMaskRequest(group, size, mask) == [0, 0, 0] + Le32(SET_MASK) + Le32(group) + Le32(size) + mask
  {
    hide Le32, U32;
  }

  lemma CarriedBy(payload: bytes, group: u32, size: u32, mask: bytes)
    requires |payload| >= 15 && payload[..3] == [0, 0, 0] && payload[3..7] == Le32(SET_MASK)
    requires payload[7..11] == Le32(group) && payload[11..15] == Le32(size) && payload[15..] == mask
    ensures CarriesMask(payload, group, size, mask)
  {
    hide Le32, NumberAt;
    NumberOfLe32(SET_MASK);
    NumberOfLe32(group);
    NumberOfLe32(size);
    NumberInside(payload, 3);
    NumberInside(payload, 7);
    NumberInside(payload, 11);
  }

  lemma NumberOfLe32(v: u32)
    ensures NumberAt(Le32(v), 0) == v
  {
    hide Le32;
  }

  lemma {:induction false} SetGroupsRecorded<S>(m: Modem<S>, st: S, log: Log, codes: set<int>, sizes: seq<u32>,
                                                group: nat) returns (sent: Log)
    requires group <= |sizes| <= GROUPS
    ensures var (end, ok) := SetGroups(Recorded(m), (st, log), codes, sizes, group);
            && (end.0, ok) == SetGroups(m, st, codes, sizes, group) && Since(log, end.1, sent)
            && MasksSent(sent, codes, sizes, group, ok)
    decreases |sizes| - group
  {
    hide Recorded, Good, Succeeds, SetsMask, SetMaskRequest, GroupMask;
    sent := [];
    if group == |sizes| {
    } else if sizes[group] == 0 {
      sent := SetGroupsRecorded(m, st, log, codes, sizes, group + 1);
    } else {
      var request := SetMaskRequest(group, sizes[group], GroupMask(codes, group, sizes[group], sizes[group]));
      RecordedStep(m, st, log, Client.DIAG_LOG_CONFIG_F, request);
      var (st1, ans) := m.step(st, Client.DIAG_LOG_CONFIG_F, request);
      var one := Exchange(Client.DIAG_LOG_CONFIG_F, request, ans);
      MaskRequestSets(codes, group, sizes[group], ans);
      GoodIsSuccess(ans, SET_MASK);
      sent := [one];
      if Good(ans, SET_MASK) {
        var rest := SetGroupsRecorded(m, st1, log + [one], codes, sizes, group + 1);
        sent := [one] + rest;
        assert sent[1..] == rest && log + [one] + rest == log + sent;
      }
    }
  }

  /**
   Whatever the modem answers: the sizes are asked for first, and each group that has any is sent its mask until
   one is not confirmed; the subscription succeeds exactly if all are.
   */
  lemma SubscriptionSends<S>(m: Modem<S>, st: S, log: Log, codes: set<int>) returns (sent: Log, sizes: seq<u32>)
    ensures var (end, ok) := Subscribed(Recorded(m), (st, log), codes);
            && (end.0, ok) == Subscribed(m, st, codes) && Since(log, end.1, sent)
            && sent != [] && sent[0].op == 0x73 && AsksForSizes(sent[0].payload)
            && var first := sent[0].answer;
               if Succeeds(first, 1) && |first.body| >= 75 then
                 && |sizes| == 16 && (forall g :: 0 <= g < 16 ==> sizes[g] == NumberAt(first.body, 11 + 4 * g))
                 && MasksSent(sent[1..], codes, sizes, 0, ok)
               else |sent| == 1 && ok.Raised?
  {
    hide Recorded, SizesOf, Succeeds, SetGroups, NumberAt, MasksSent, Le32, U32, Word, AsksForSizes;
    RecordedStep(m, st, log, Client.DIAG_LOG_CONFIG_F, RETRIEVE_REQUEST);
    var (st1, ans) := m.step(st, Client.DIAG_LOG_CONFIG_F, RETRIEVE_REQUEST);
    RetrievePlain();
    SizesAt(ans);
    var one := Exchange(Client.DIAG_LOG_CONFIG_F, RETRIEVE_REQUEST, ans);
    sent, sizes := [one], [];
    if SizesOf(ans).Done? {
      sizes := SizesOf(ans).value;
      var rest := SetGroupsRecorded(m, st1, log + [one], codes, sizes, 0);
      sent := [one] + rest;
      assert sent[1..] == rest && log + [one] + rest == log + sent;
    }
  }

  lemma SizesAt(ans: Answer)
    ensures SizesOf(ans).Done? <==> Succeeds(ans, 1) && |ans.body| >= 75
    ensures SizesOf(ans).Done? ==> forall g :: 0 <= g < 16 ==> SizesOf(ans).value[g] == NumberAt(ans.body, 11 + 4 * g)
  {
    hide GroupSizes, NumberAt, Good;
    GoodIsSuccess(ans, RETRIEVE_RANGES);
    if SizesOf(ans).Done? {
      forall g | 0 <= g < 16 ensures SizesOf(ans).value[g] == NumberAt(ans.body, 11 + 4 * g) {
        GroupSizeAt(ans.body, g);
      }
    }
  }

  lemma RetrievePlain()
    ensures AsksForSizes(RETRIEVE_REQUEST)
  {
    hide Le32;
  }
}
