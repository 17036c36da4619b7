/** The event mask: one bit per event id, edited bit by bit, and its two widths on the wire. */
module EventMask {
  import opened Bytes
  import opened Wrappers

  const EVENT_MASK_SET_F: byte := 0x82
  const EVENT_MASK_GET_F: byte := 0x81
  const HEADER_LEN := 5

  // ---------- Bits of a byte ----------

  function EditBit(v: bv8, k: nat, on: bool): bv8
    requires k < 8
  {
    if on then v | BitAt(k) else v & !BitAt(k)
  }

  lemma EditBitKeepsOthers(v: bv8, k: nat, on: bool, j: nat)
    requires k < 8 && j < 8
    ensures TestBit(EditBit(v, k, on), j) == if j == k then on else TestBit(v, j)
  {
  }

  /** `b` with bit `k` set, or cleared. */
  function PutBit(b: byte, k: nat, on: bool): byte
    requires k < 8
  {
    EditBit(b as bv8, k, on) as int
  }

  lemma PutBitKeepsOthers(b: byte, k: nat, on: bool, j: nat)
    requires k < 8 && j < 8
    ensures Bit(PutBit(b, k, on), j) == if j == k then on else Bit(b, j)
  {
    hide Bit, TestBit, EditBit;
    EditBitKeepsOthers(b as bv8, k, on, j);
    ByteBitsOfInt(EditBit(b as bv8, k, on));
    BitIsTest(b, j);
    BitIsTest(PutBit(b, k, on), j);
  }

  // ---------- Masks ----------

  datatype EventMask = EventMask(numBits: int, mask: bytes, status: byte)
  {
    predicate Valid() {
      1 <= numBits <= 0xFFFF && |mask| == (numBits + 7) / 8
    }

    predicate IsSet(id: int)
      requires Valid()
    {
      0 <= id < numBits && Bit(mask[id / 8], id % 8)
    }

    /** The armed ids. */
    function SetIds(): set<int>
      requires Valid()
    {
      set i | 0 <= i < numBits && IsSet(i)
    }
  }

  function Empty(numBits: int): (m: EventMask)
    requires 1 <= numBits <= 0xFFFF
    ensures m.Valid()
  {
    EventMask(numBits, Zeros((numBits + 7) / 8), 0)
  }

  lemma EmptyArmsNothing(numBits: int)
    requires 1 <= numBits <= 0xFFFF
    ensures Empty(numBits).SetIds() == {}
  {
    hide Bit;
    forall i | 0 <= i < numBits ensures !Empty(numBits).IsSet(i) {
      ZeroHasNoBits(i % 8);
    }
  }

  lemma ZeroHasNoBits(k: nat)
    requires k < 8
    ensures !Bit(0, k)
  {
  }

  /** One turn of the editing loop. */
  function Put(m: EventMask, id: int, on: bool): (r: EventMask)
    requires m.Valid() && 0 <= id < m.numBits
    ensures r.Valid()
  {
    m.(mask := m.mask[id / 8 := PutBit(m.mask[id / 8], id % 8, on)])
  }

  lemma PutOne(m: EventMask, id: int, on: bool)
    requires m.Valid() && 0 <= id < m.numBits
    ensures Put(m, id, on).SetIds() == if on then m.SetIds() + {id} else m.SetIds() - {id}
  {
    hide Bit, PutBit;
    var r := Put(m, id, on);
    forall i | 0 <= i < m.numBits
      ensures r.IsSet(i) == if i == id then on else m.IsSet(i)
    {
      if i / 8 == id / 8 {
        PutBitKeepsOthers(m.mask[id / 8], id % 8, on, i % 8);
      }
    }
  }

  function ToSet(ids: seq<int>): set<int> {
    set x | x in ids
  }

  /** Arm or clear every id, or None where the source refuses an id outside the mask. */
  method Edit(m: EventMask, ids: seq<int>, on: bool) returns (r: Option<EventMask>)
    requires m.Valid()
    ensures r.None? <==> exists i :: 0 <= i < |ids| && !(0 <= ids[i] < m.numBits)
    ensures r.Some? ==>
              && r.value.Valid() && r.value.numBits == m.numBits && r.value.status == m.status
              && r.value.SetIds() == if on then m.SetIds() + ToSet(ids) else m.SetIds() - ToSet(ids)
  {
    hide EventMask.IsSet, Put;
    var buf := m;
    for i := 0 to |ids|
      invariant buf.Valid() && buf.numBits == m.numBits && buf.status == m.status
      invariant forall k :: 0 <= k < i ==> 0 <= ids[k] < m.numBits
      invariant buf.SetIds() == if on then m.SetIds() + ToSet(ids[..i]) else m.SetIds() - ToSet(ids[..i])
    {
      var id := ids[i];
      if !(0 <= id < m.numBits) {
        return None;
      }
      PutOne(buf, id, on);
      PutFrame(buf, id, on);
      assert ids[..i + 1] == ids[..i] + [id];
      assert ToSet(ids[..i + 1]) == ToSet(ids[..i]) + {id};
      buf := Put(buf, id, on);
    }
    assert ids[..|ids|] == ids;
    return Some(buf);
  }

  lemma PutFrame(m: EventMask, id: int, on: bool)
    requires m.Valid() && 0 <= id < m.numBits
    ensures Put(m, id, on).numBits == m.numBits && Put(m, id, on).status == m.status
  {
  }

  // ---------- The wire ----------

  /** A reply body, or None where the source raises. Both widths are taken, the wider one cut. */
  function Parse(body: bytes): (r: Option<EventMask>)
    ensures r.Some? ==> r.value.Valid()
  {
    if |body| < HEADER_LEN then None
    else
      var numBits := U16(body[3], body[4]);
      var mask := body[HEADER_LEN..];
      var want := (numBits + 7) / 8;
      if numBits == 0 || (|mask| != want && |mask| != numBits / 8 + 1) then None
      else Some(EventMask(numBits, mask[..want], body[0]))
  }

  /** A set request, opcode first, always at the width the firmware accepts. */
  function BuildSet(m: EventMask): bytes
    requires m.Valid()
  {
    [EVENT_MASK_SET_F, 0, 0, 0] + Le16(m.numBits) + m.mask + Zeros(m.numBits / 8 + 1 - |m.mask|)
  }

  /** Reading back one's own set request gives the mask, whatever the width of the last byte. */
  lemma ParseOfBuildSet(m: EventMask)
    requires m.Valid()
    ensures Parse(BuildSet(m)[1..]) == Some(m.(status := 0))
    ensures |BuildSet(m)| == 6 + m.numBits / 8 + 1
  {
    var body := BuildSet(m)[1..];
    assert body[3] == Le16(m.numBits)[0] && body[4] == Le16(m.numBits)[1];
    assert body[HEADER_LEN..] == m.mask + Zeros(m.numBits / 8 + 1 - |m.mask|);
    assert body[HEADER_LEN..][..|m.mask|] == m.mask;
  }

  /** So does reading a reply that carries only the bytes the ids need. */
  lemma ParseOfReply(m: EventMask)
    requires m.Valid()
    ensures Parse([m.status, 0, 0] + Le16(m.numBits) + m.mask) == Some(m)
  {
    var body := [m.status, 0, 0] + Le16(m.numBits) + m.mask;
    assert body[3] == Le16(m.numBits)[0] && body[4] == Le16(m.numBits)[1];
    assert body[HEADER_LEN..] == m.mask && m.mask[..|m.mask|] == m.mask;
  }
}
