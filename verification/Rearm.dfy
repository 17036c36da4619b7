/** Deriving a maskset from what was seen on the wire: it arms exactly that again. */
module Rearm {
  import opened Wrappers
  import opened Maskset
  import opened Bytes
  import opened MasksetPairs

  // ---------- Bits of a level ----------

  /** `1 << k` */
  function Bit16(k: nat): bv16
    requires k < 16
  {
    if k < 8 then
      if k == 0 then 0x1 else if k == 1 then 0x2 else if k == 2 then 0x4 else if k == 3 then 0x8
      else if k == 4 then 0x10 else if k == 5 then 0x20 else if k == 6 then 0x40 else 0x80
    else
      if k == 8 then 0x100 else if k == 9 then 0x200 else if k == 10 then 0x400 else if k == 11 then 0x800
      else if k == 12 then 0x1000 else if k == 13 then 0x2000 else if k == 14 then 0x4000 else 0x8000
  }

  predicate HasBit(v: bv16, k: nat)
    requires k < 16
  {
    And16(v, Bit16(k)) != 0
  }

  function Or16(v: bv16, w: bv16): bv16 { v | w }
  function And16(v: bv16, w: bv16): bv16 { v & w }

  lemma OrBits(v: bv16, w: bv16, k: nat)
    requires k < 16
    ensures HasBit(Or16(v, w), k) <==> HasBit(v, k) || HasBit(w, k)
  {
    hide Bit16, Or16, And16;
    OrMeets(v, w, Bit16(k));
  }

  lemma OrMeets(v: bv16, w: bv16, bit: bv16)
    ensures And16(Or16(v, w), bit) != 0 <==> And16(v, bit) != 0 || And16(w, bit) != 0
  {
    hide Or16, And16;
    OrDistributes(v, w, bit);
    OrOfZeros(And16(v, bit), And16(w, bit));
  }

  lemma OrDistributes(v: bv16, w: bv16, bit: bv16)
    ensures And16(Or16(v, w), bit) == Or16(And16(v, bit), And16(w, bit))
  {
  }

  lemma OrOfZeros(v: bv16, w: bv16)
    ensures Or16(v, w) == 0 <==> v == 0 && w == 0
  {
  }

  lemma OneBit(j: nat, k: nat)
    requires j < 16 && k < 16
    ensures HasBit(Bit16(j), k) <==> j == k
  {
  }

  lemma NoBits(k: nat)
    requires k < 16
    ensures !HasBit(0, k)
  {
  }

  function Number(v: bv16): int { v as int }

  function Pattern(level: int): bv16
    requires 0 <= level <= 0xFFFF
  {
    level as bv16
  }

  /** A bit of a level held as a number. */
  predicate LevelHas(level: int, k: nat)
    requires k < 16
  {
    0 <= level <= 0xFFFF && Bit(level, k)
  }

  lemma BitIsTest(level: int, k: nat)
    requires k < 16 && 0 <= level <= 0xFFFF
    ensures Bit(level, k) <==> HasBit(Pattern(level), k)
  {
    hide And16, Pattern;
    PowersOfByte();
    PowersOfHalf();
    if k < 8 {
      LowDigit(level, k, Bit16(k), Pow2(k));
    } else {
      HighDigit(level, k, Bit16(k), Pow2(k));
    }
  }

  lemma LowDigit(n: int, k: nat, bit: bv16, p: nat)
    requires 0 <= n <= 0xFFFF && k < 8
    requires (bit, p) == if k == 0 then (0x1, 0x1) else if k == 1 then (0x2, 0x2) else if k == 2 then (0x4, 0x4)
                         else if k == 3 then (0x8, 0x8) else if k == 4 then (0x10, 0x10)
                         else if k == 5 then (0x20, 0x20) else if k == 6 then (0x40, 0x40) else (0x80, 0x80)
    ensures And16(Pattern(n), bit) != 0 <==> (n / p) % 2 == 1
  {
  }

  lemma HighDigit(n: int, k: nat, bit: bv16, p: nat)
    requires 0 <= n <= 0xFFFF && 8 <= k < 16
    requires (bit, p) == if k == 8 then (0x100, 0x100) else if k == 9 then (0x200, 0x200)
                         else if k == 10 then (0x400, 0x400) else if k == 11 then (0x800, 0x800)
                         else if k == 12 then (0x1000, 0x1000) else if k == 13 then (0x2000, 0x2000)
                         else if k == 14 then (0x4000, 0x4000) else (0x8000, 0x8000)
    ensures And16(Pattern(n), bit) != 0 <==> (n / p) % 2 == 1
  {
  }

  lemma PowersOfHalf()
    ensures Pow2(8) == 0x100 && Pow2(9) == 0x200 && Pow2(10) == 0x400 && Pow2(11) == 0x800
    ensures Pow2(12) == 0x1000 && Pow2(13) == 0x2000 && Pow2(14) == 0x4000 && Pow2(15) == 0x8000
  {
    PowersOfByte();
  }

  lemma PatternOfNumber(v: bv16)
    ensures 0 <= Number(v) <= 0xFFFF && Pattern(Number(v)) == v
    ensures Number(v) == 0 <==> v == 0
  {
  }

  lemma LevelBits(v: bv16)
    ensures forall k: nat :: k < 16 ==> (LevelHas(Number(v), k) <==> HasBit(v, k))
  {
    hide HasBit, Number, Pattern, Bit;
    PatternOfNumber(v);
    forall k: nat | k < 16 ensures LevelHas(Number(v), k) <==> HasBit(v, k) {
      BitIsTest(Number(v), k);
    }
  }

  // ---------- Observing and arming ----------

  /** What was observed: for each subsystem the sub-streams that arrived. */
  type Sightings = seq<(int, seq<int>)>

  ghost predicate Keyed(seen: Sightings) {
    forall i, j :: 0 <= i < j < |seen| ==> seen[i].0 != seen[j].0
  }

  ghost predicate Observed(seen: Sightings, ssid: int, bit: int) {
    exists i :: 0 <= i < |seen| && seen[i].0 == ssid && bit in seen[i].1
  }

  ghost predicate Arms(pairs: Pairs, ssid: int, bit: nat)
    requires bit < 16
  {
    exists level: int :: (ssid, level) in pairs && LevelHas(level, bit)
  }

  /** The maskset for exactly the sub-streams seen, of those that a level and an ssid can express. */
  ghost predicate Rearms(seen: Sightings, pairs: Pairs) {
    && Ascending(pairs)
    && (forall p :: p in pairs ==> p.0 != 0 && 0 < p.1 <= 0xFFFF)
    && (forall ssid, bit: nat :: bit < 16 ==> (Arms(pairs, ssid, bit) <==> ssid != 0 && Observed(seen, ssid, bit)))
  }

  method LevelFor(bits: seq<int>) returns (level: bv16)
    ensures forall k: nat :: k < 16 ==> (HasBit(level, k) <==> k in bits)
  {
    hide HasBit, Bit16, Or16;
    level := 0;
    forall k: nat | k < 16 ensures !HasBit(level, k) { NoBits(k); }
    for i := 0 to |bits|
      invariant forall k: nat :: k < 16 ==> (HasBit(level, k) <==> k in bits[..i])
    {
      var b := bits[i];
      assert bits[..i + 1] == bits[..i] + [b];
      if 0 <= b < 16 {
        forall k: nat | k < 16 ensures HasBit(Or16(level, Bit16(b)), k) <==> HasBit(level, k) || k == b {
          OrBits(level, Bit16(b), k);
          OneBit(b, k);
        }
        level := Or16(level, Bit16(b));
      }
    }
    assert bits[..|bits|] == bits;
  }

  /** The dictionary built so far arms what was seen so far. */
  ghost predicate Collected(seen: Sightings, m: map<int, int>) {
    && (forall ssid :: ssid in m ==> ssid != 0 && 0 < m[ssid] <= 0xFFFF)
    && (forall ssid, bit: nat :: bit < 16 ==>
          ((ssid in m && LevelHas(m[ssid], bit)) <==> ssid != 0 && Observed(seen, ssid, bit)))
  }

  lemma ObservedOne(seen: Sightings, one: (int, seq<int>))
    requires Keyed(seen + [one])
    ensures forall ssid, bit ::
              Observed(seen + [one], ssid, bit) <==> Observed(seen, ssid, bit) || (ssid == one.0 && bit in one.1)
    ensures forall bit :: !Observed(seen, one.0, bit)
  {
    var all := seen + [one];
    forall ssid, bit
      ensures Observed(all, ssid, bit) <==> Observed(seen, ssid, bit) || (ssid == one.0 && bit in one.1)
    {
      if ssid == one.0 && bit in one.1 { assert all[|seen|] == one; }
      if Observed(seen, ssid, bit) {
        var i :| 0 <= i < |seen| && seen[i].0 == ssid && bit in seen[i].1;
        assert all[i] == seen[i];
      }
    }
    forall i | 0 <= i < |seen| ensures seen[i].0 != one.0 {
      assert all[i] == seen[i] && all[|seen|] == one;
    }
  }

  lemma CollectOne(seen: Sightings, m: map<int, int>, one: (int, seq<int>), level: bv16)
    requires Keyed(seen + [one]) && Collected(seen, m)
    requires forall k: nat :: k < 16 ==> (HasBit(level, k) <==> k in one.1)
    ensures Collected(seen + [one], if one.0 != 0 && level != 0 then m[one.0 := Number(level)] else m)
  {
    hide HasBit, LevelHas, Observed, Keyed, Number;
    PatternOfNumber(level);
    ObservedOne(seen, one);
    LevelBits(level);
    forall k: nat | k < 16 ensures !HasBit(0, k) { NoBits(k); }
  }

  lemma CollectedRearms(seen: Sightings, m: map<int, int>, pairs: Pairs)
    requires Collected(seen, m) && Ascending(pairs) && Holds(pairs, m)
    ensures Rearms(seen, pairs)
  {
    hide LevelHas, Observed, Ascending;
    forall p | p in pairs ensures p.0 != 0 && 0 < p.1 <= 0xFFFF {
      var (ssid, level) := p;
      assert (ssid, level) in pairs;
    }
    forall ssid, bit: nat | bit < 16 ensures Arms(pairs, ssid, bit) <==> ssid != 0 && Observed(seen, ssid, bit) {
      if ssid in m {
        assert (ssid, m[ssid]) in pairs;
      }
    }
  }

  method DerivePairs(seen: Sightings) returns (r: Option<Pairs>)
    requires Keyed(seen)
    ensures exists pairs :: Rearms(seen, pairs) && r == if InRange(pairs) then Some(pairs) else None
  {
    hide HasBit, Collected, Rearms, InRange, Ascending;
    var m: map<int, int> := map[];
    NothingCollected(m);
    for i := 0 to |seen|
      invariant Collected(seen[..i], m)
    {
      var (ssid, bits) := seen[i];
      var level := LevelFor(bits);
      assert seen[..i + 1] == seen[..i] + [seen[i]];
      CollectOne(seen[..i], m, seen[i], level);
      if ssid != 0 && level != 0 {
        m := m[ssid := Number(level)];
      }
    }
    assert seen[..|seen|] == seen;
    var pairs := SortedItems(m);
    CollectedRearms(seen, m, pairs);
    var ok := Check(pairs);
    return if ok then Some(pairs) else None;
  }

  lemma NothingCollected(m: map<int, int>)
    requires m == map[]
    ensures Collected([], m)
  {
  }
}
