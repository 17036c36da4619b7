/** Masksets as lists of (ssid, level): what the modem accepts, merging, sweeping, re-arming. */
module MasksetPairs {
  import opened Wrappers
  import opened Maskset
  import opened Sequences

  const MAX_PAIRS := 110
  const ALL_BITS := 0xFFFF

  /** The order the modem insists on. */
  predicate Ascending(pairs: Pairs) {
    forall i, j :: 0 <= i < j < |pairs| ==> pairs[i].0 < pairs[j].0
  }

  predicate InRange(pairs: Pairs) {
    |pairs| <= 110 && forall p :: p in pairs ==> 1 <= p.0 <= 0xFFFF && 0 <= p.1 <= 0xFFFF
  }

  method Check(pairs: Pairs) returns (ok: bool)
    ensures ok <==> InRange(pairs)
  {
    if |pairs| > MAX_PAIRS {
      return false;
    }
    for i := 0 to |pairs|
      invariant forall k :: 0 <= k < i ==> 1 <= pairs[k].0 <= 0xFFFF && 0 <= pairs[k].1 <= 0xFFFF
    {
      var (ssid, level) := pairs[i];
      if !(1 <= ssid <= 0xFFFF) || !(0 <= level <= 0xFFFF) {
        assert pairs[i] in pairs;
        return false;
      }
    }
    return true;
  }

  /** Accepted as given or refused; never sorted. */
  method ValidatePairs(pairs: Pairs) returns (r: Option<Pairs>)
    ensures r == if InRange(pairs) && Ascending(pairs) then Some(pairs) else None
  {
    hide InRange;
    var ok := Check(pairs);
    if !ok {
      return None;
    }
    var i := 1;
    while i < |pairs|
      invariant 1 <= i && (i <= |pairs| || pairs == [])
      invariant pairs != [] ==> Ascending(pairs[..i])
    {
      if pairs[i].0 <= pairs[i - 1].0 {
        return None;
      }
      assert pairs[..i + 1] == pairs[..i] + [pairs[i]] && pairs[..i][i - 1] == pairs[i - 1];
      i := i + 1;
    }
    assert |pairs| > 0 ==> pairs[..|pairs|] == pairs;
    return Some(pairs);
  }

  // ---------- Sorting ----------

  ghost predicate Holds(pairs: Pairs, m: map<int, int>) {
    forall ssid, level :: (ssid, level) in pairs <==> ssid in m && m[ssid] == level
  }

  lemma {:induction false} LeastExists(keys: set<int>) returns (k: int)
    requires keys != {}
    ensures k in keys && forall j :: j in keys ==> k <= j
    decreases keys
  {
    assert (forall x :: x !in keys) ==> keys == {};
    var x :| x in keys;
    k := x;
    var rest := keys - {x};
    if rest == {} {
    } else {
      var least := LeastExists(rest);
      if least < k {
        k := least;
      }
    }
    assert forall j :: j in keys ==> j == x || j in rest;
  }

  /** The items of a dictionary in ascending order of their keys. */
  method SortedItems(m: map<int, int>) returns (out: Pairs)
    ensures Ascending(out) && Holds(out, m)
  {
    out := [];
    var left := m.Keys;
    while left != {}
      invariant left <= m.Keys && Ascending(out)
      invariant forall ssid, level :: (ssid, level) in out <==> ssid in m.Keys - left && m[ssid] == level
      invariant forall p, j :: p in out && j in left ==> p.0 < j
      decreases |left|
    {
      ghost var least := LeastExists(left);
      var k :| k in left && forall j :: j in left ==> k <= j;
      assert forall i :: 0 <= i < |out| ==> out[i] in out;
      out := out + [(k, m[k])];
      left := left - {k};
    }
  }

  // ---------- Merging ----------

  /** The level the last mention of an ssid gives it. */
  function LevelOf(pairs: Pairs, ssid: int): Option<int> {
    if pairs == [] then None
    else if Last(pairs).0 == ssid then Some(Last(pairs).1)
    else LevelOf(Init(pairs), ssid)
  }

  lemma {:induction false} LevelIsLastMention(pairs: Pairs, ssid: int, level: int)
    ensures LevelOf(pairs, ssid) == Some(level) <==>
            exists i ::
              0 <= i < |pairs| && pairs[i] == (ssid, level) && forall j :: i < j < |pairs| ==> pairs[j].0 != ssid
    decreases |pairs|
  {
    if pairs == [] {
    } else {
      var front := Init(pairs);
      LevelIsLastMention(front, ssid, level);
      assert forall i :: 0 <= i < |front| ==> front[i] == pairs[i];
      if Last(pairs).0 == ssid {
        assert pairs[|pairs| - 1] == (ssid, Last(pairs).1);
      } else if LevelOf(front, ssid) == Some(level) {
        var i :| 0 <= i < |front| && front[i] == (ssid, level) && forall j :: i < j < |front| ==> front[j].0 != ssid;
        assert pairs[i] == (ssid, level);
      }
    }
  }

  function Concat(groups: seq<Pairs>): Pairs {
    if groups == [] then [] else Concat(Init(groups)) + Last(groups)
  }

  /** In order, one pair for each ssid of any group, with the level of its last mention. */
  ghost predicate IsMerge(groups: seq<Pairs>, out: Pairs) {
    && Ascending(out)
    && forall ssid, level :: (ssid, level) in out <==> LevelOf(Concat(groups), ssid) == Some(level)
  }

  ghost predicate Tracks(m: map<int, int>, pairs: Pairs) {
    forall ssid, level :: (ssid in m && m[ssid] == level) <==> LevelOf(pairs, ssid) == Some(level)
  }

  lemma TracksOne(m: map<int, int>, pairs: Pairs, p: (int, int))
    requires Tracks(m, pairs)
    ensures Tracks(m[p.0 := p.1], pairs + [p])
  {
    assert Init(pairs + [p]) == pairs;
  }

  method Merge(groups: seq<Pairs>) returns (out: Pairs)
    ensures IsMerge(groups, out)
  {
    hide LevelOf;
    var bySsid: map<int, int> := map[];
    TracksNothing(bySsid);
    for g := 0 to |groups|
      invariant Tracks(bySsid, Concat(groups[..g]))
    {
      ghost var before := Concat(groups[..g]);
      var group := groups[g];
      assert before + group[..0] == before;
      for i := 0 to |group|
        invariant Tracks(bySsid, before + group[..i])
      {
        var (ssid, level) := group[i];
        TracksOne(bySsid, before + group[..i], group[i]);
        assert before + group[..i] + [group[i]] == before + group[..i + 1];
        bySsid := bySsid[ssid := level];
      }
      assert group[..|group|] == group;
      assert Init(groups[..g + 1]) == groups[..g];
    }
    assert groups[..|groups|] == groups;
    out := SortedItems(bySsid);
  }

  lemma TracksNothing(m: map<int, int>)
    requires m == map[]
    ensures Tracks(m, Concat([]))
  {
  }

  /** The order and the pairs leave no choice. */
  lemma {:induction false} AscendingUnique(a: Pairs, b: Pairs)
    requires Ascending(a) && Ascending(b) && forall p :: p in a <==> p in b
    ensures a == b
    decreases |a|
  {
    hide Ascending;
    assert b != [] ==> b[0] in b && b[0] in a;
    if a == [] {
    } else {
      assert Last(a) in a && Last(a) in b;
      assert Last(b) in b && Last(b) in a;
      LastIsGreatest(a, Last(b));
      LastIsGreatest(b, Last(a));
      InitDropsLast(a);
      InitDropsLast(b);
      SameLast(a, Last(b));
      AscendingUnique(Init(a), Init(b));
      assert a == Init(a) + [Last(a)] && b == Init(b) + [Last(b)];
    }
  }

  lemma LastIsGreatest(a: Pairs, p: (int, int))
    requires Ascending(a) && p in a
    ensures p.0 <= Last(a).0
  {
  }

  lemma SameLast(a: Pairs, p: (int, int))
    requires Ascending(a) && p in a && p.0 >= Last(a).0
    ensures p == Last(a)
  {
  }

  lemma InitDropsLast(a: Pairs)
    requires Ascending(a) && a != []
    ensures Ascending(Init(a)) && forall p :: p in Init(a) <==> p in a && p != Last(a)
  {
    assert a == Init(a) + [Last(a)];
  }

  /** There is one merge of given groups. */
  lemma MergeIsUnique(groups: seq<Pairs>, a: Pairs, b: Pairs)
    requires IsMerge(groups, a) && IsMerge(groups, b)
    ensures a == b
  {
    hide Ascending, LevelOf, Concat;
    forall p | true ensures p in a <==> p in b {
      var (ssid, level) := p;
      assert (ssid, level) in a <==> LevelOf(Concat(groups), ssid) == Some(level);
    }
    AscendingUnique(a, b);
  }

  lemma {:induction false} LevelOfConcat(a: Pairs, b: Pairs, ssid: int)
    ensures LevelOf(a + b, ssid) == if LevelOf(b, ssid).Some? then LevelOf(b, ssid) else LevelOf(a, ssid)
    decreases |b|
  {
    if b == [] {
      assert a + b == a;
    } else {
      assert Init(a + b) == a + Init(b);
      LevelOfConcat(a, Init(b), ssid);
    }
  }

  lemma {:induction false} ConcatConcat(a: seq<Pairs>, b: seq<Pairs>)
    ensures Concat(a + b) == Concat(a) + Concat(b)
    decreases |b|
  {
    if b == [] {
      assert a + b == a;
    } else {
      assert Init(a + b) == a + Init(b) && Last(a + b) == Last(b);
      ConcatConcat(a, Init(b));
      assert Concat(a + b) == Concat(a) + Concat(Init(b)) + Last(b);
    }
  }

  /** In an ordered list every pair is the last mention of its ssid. */
  lemma {:induction false} AscendingLevels(out: Pairs, ssid: int, level: int)
    requires Ascending(out)
    ensures (ssid, level) in out <==> LevelOf(out, ssid) == Some(level)
    decreases |out|
  {
    if out == [] {
    } else {
      InitDropsLast(out);
      AscendingLevels(Init(out), ssid, level);
      if (ssid, level) in out && ssid == Last(out).0 {
        SameLast(out, (ssid, level));
      }
    }
  }

  /** Merging more groups into a merged maskset is merging them all. */
  lemma MergeInStages(first: seq<Pairs>, mid: Pairs, second: seq<Pairs>, out: Pairs)
    requires IsMerge(first, mid) && IsMerge([mid] + second, out)
    ensures IsMerge(first + second, out)
  {
    hide LevelOf, Ascending, Concat;
    ConcatConcat(first, second);
    ConcatConcat([mid], second);
    ConcatOne(mid);
    forall ssid, level
      ensures (ssid, level) in out <==> LevelOf(Concat(first + second), ssid) == Some(level)
    {
      LevelOfConcat(Concat(first), Concat(second), ssid);
      LevelOfConcat(mid, Concat(second), ssid);
      AscendingLevels(mid, ssid, level);
      var a := LevelOf(Concat(first), ssid);
      if a.Some? { AscendingLevels(mid, ssid, a.value); }
    }
  }

  lemma ConcatOne(mid: Pairs)
    ensures Concat([mid]) == mid
  {
    assert Init([mid]) == [] && Last([mid]) == mid;
  }

  // ---------- Sweeping ----------

  /** Consecutive windows `[lo, hi)` of at most `size`, up to and with `last`. */
  function Windows(lo: int, last: int, size: int): seq<(int, int)>
    requires 1 <= size
    decreases last - lo
  {
    if lo > last then []
    else [(lo, if lo + size <= last + 1 then lo + size else last + 1)] + Windows(lo + size, last, size)
  }

  /** None where the source refuses the size. */
  function SweepWindows(first: int, last: int, size: int): Option<seq<(int, int)>> {
    if size < 1 || size > MAX_PAIRS then None else Some(Windows(if first > 1 then first else 1, last, size))
  }

  function Ssids(lo: int, hi: int): (r: seq<int>)
    ensures |r| == if lo <= hi then hi - lo else 0
    ensures forall i :: 0 <= i < |r| ==> r[i] == lo + i
    decreases hi - lo
  {
    if lo >= hi then [] else [lo] + Ssids(lo + 1, hi)
  }

  function Swept(windows: seq<(int, int)>): seq<int> {
    if windows == [] then [] else Ssids(windows[0].0, windows[0].1) + Swept(windows[1..])
  }

  /** The windows cut the ssids up: every one once, in order, none twice and none left out. */
  lemma {:induction false} WindowsCover(lo: int, last: int, size: int)
    requires 1 <= size
    ensures Swept(Windows(lo, last, size)) == Ssids(lo, last + 1)
    decreases last - lo
  {
    if lo > last {
    } else {
      WindowsCover(lo + size, last, size);
      var w := Windows(lo, last, size);
      assert w[1..] == Windows(lo + size, last, size);
    }
  }

  /** The sweep starts at ssid 1 or later, covers every ssid up to `last` once, and refuses sizes a SET cannot hold. */
  lemma SweepCovers(first: int, last: int, size: int)
    ensures SweepWindows(first, last, size).Some? <==> 1 <= size <= 110
    ensures var windows := SweepWindows(first, last, size);
            windows.Some? ==>
              && Swept(windows.value) == Ssids(if first > 1 then first else 1, last + 1)
              && forall w :: w in windows.value ==> w.0 < w.1 <= w.0 + size
  {
    hide Windows, Swept, Ssids;
    if 1 <= size <= MAX_PAIRS {
      WindowsCover(if first > 1 then first else 1, last, size);
      WindowsFit(if first > 1 then first else 1, last, size);
    }
  }

  lemma {:induction false} WindowsFit(lo: int, last: int, size: int)
    requires 1 <= size
    ensures forall w :: w in Windows(lo, last, size) ==> lo <= w.0 < w.1 <= w.0 + size && w.1 <= last + 1
    decreases last - lo
  {
    if lo > last {
    } else {
      WindowsFit(lo + size, last, size);
    }
  }

  /** One pair at `level` for each of the ssids. */
  ghost predicate IsSweep(ssids: seq<int>, level: int, pairs: Pairs) {
    Ascending(pairs) && forall s, l :: (s, l) in pairs <==> s in ssids && l == level
  }

  /** Ordered and without repeats, whatever the ssids; None where the source refuses the result. */
  method SweepPairs(ssids: seq<int>, level: int) returns (r: Option<Pairs>)
    ensures exists pairs :: IsSweep(ssids, level, pairs) && r == if InRange(pairs) then Some(pairs) else None
  {
    hide InRange;
    var pairs := SortedItems(map s | s in ssids :: level);
    assert IsSweep(ssids, level, pairs);
    var ok := Check(pairs);
    return if ok then Some(pairs) else None;
  }

  lemma SweepIsUnique(ssids: seq<int>, level: int, a: Pairs, b: Pairs)
    requires IsSweep(ssids, level, a) && IsSweep(ssids, level, b)
    ensures a == b
  {
    forall p ensures p in a <==> p in b {
      var (s, l) := p;
      assert (s, l) in a <==> (s, l) in b;
    }
    AscendingUnique(a, b);
  }

  function AtLevel(w: (int, int), level: int): (r: Pairs)
    ensures |r| == |Ssids(w.0, w.1)| && forall i :: 0 <= i < |r| ==> r[i] == (w.0 + i, level)
  {
    seq(|Ssids(w.0, w.1)|, i => (w.0 + i, level))
  }

  /** The pairs of a window are one at `level` for each of its ssids. */
  lemma WindowIsSweep(w: (int, int), level: int)
    ensures IsSweep(Ssids(w.0, w.1), level, AtLevel(w, level))
  {
    var ssids, pairs := Ssids(w.0, w.1), AtLevel(w, level);
    forall s, l ensures (s, l) in pairs <==> s in ssids && l == level {
      if s in ssids && l == level {
        var i :| 0 <= i < |ssids| && ssids[i] == s;
        assert pairs[i] == (s, l);
      }
      if (s, l) in pairs {
        var i :| 0 <= i < |pairs| && pairs[i] == (s, l);
        assert ssids[i] == s;
      }
    }
  }

  /** Every window of a sweep, at any level, is a maskset the modem accepts. */
  lemma SweepIsAccepted(first: int, last: int, size: int, level: int)
    requires last <= 0xFFFF && 0 <= level <= ALL_BITS
    ensures var windows := SweepWindows(first, last, size);
            windows.Some? ==>
              forall w :: w in windows.value ==>
                && IsSweep(Ssids(w.0, w.1), level, AtLevel(w, level))
                && AtLevel(w, level) != [] && InRange(AtLevel(w, level))
  {
    hide Windows, Swept, IsSweep;
    var windows := SweepWindows(first, last, size);
    if windows.Some? {
      WindowsFit(if first > 1 then first else 1, last, size);
      forall w | w in windows.value
        ensures IsSweep(Ssids(w.0, w.1), level, AtLevel(w, level))
        ensures AtLevel(w, level) != [] && InRange(AtLevel(w, level))
      {
        WindowIsSweep(w, level);
      }
    }
  }
}
