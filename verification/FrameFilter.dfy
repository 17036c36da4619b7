/** The streaming filter: frames carried over chunk boundaries, matches and counters. */
module FrameFilter {
  import opened Bytes
  import opened Wrappers
  import opened Hdlc
  import opened Peek
  import opened Sequences
  import Crc

  datatype FilterStats = FilterStats(seen: nat, matched: nat, crcBad: nat, bytesSeen: nat, short: nat)
  {
    function Plus(other: FilterStats): FilterStats {
      FilterStats(seen + other.seen, matched + other.matched, crcBad + other.crcBad,
                  bytesSeen + other.bytesSeen, short + other.short)
    }
  }

  const NONE := FilterStats(0, 0, 0, 0, 0)

  // ---------- The whole-buffer reference ----------

  function NonEmpty(parts: seq<bytes>): (r: seq<bytes>)
    ensures forall p :: p in r ==> p != []
  {
    if parts == [] then [] else NonEmpty(Init(parts)) + Unless(Last(parts))
  }

  function Unless(part: bytes): (r: seq<bytes>)
    ensures forall p :: p in r ==> p != []
  {
    if part == [] then [] else [part]
  }

  /** The counters one frame moves. */
  function Count(v: Verdict): FilterStats {
    match v
    case Ignored => FilterStats(1, 0, 0, 0, 0)
    case Short => FilterStats(1, 0, 0, 0, 1)
    case BadCrc => FilterStats(1, 0, 1, 0, 0)
    case Matched(_) => FilterStats(1, 1, 0, 0, 0)
  }

  function Found(w: Wanted, frames: seq<bytes>): seq<Match> {
    if frames == [] then []
    else
      var v := FullVerdict(w, Last(frames));
      Found(w, Init(frames)) + (if v.Matched? then [v.found] else [])
  }

  function Tally(w: Wanted, frames: seq<bytes>): FilterStats {
    if frames == [] then NONE else Tally(w, Init(frames)).Plus(Count(FullVerdict(w, Last(frames))))
  }

  /** Split the whole stream and run the simple path on every frame, the open last part included. */
  function WholeMatches(w: Wanted, stream: bytes): seq<Match> {
    Found(w, NonEmpty(Split(stream)))
  }

  function WholeStats(w: Wanted, stream: bytes): FilterStats {
    Tally(w, NonEmpty(Split(stream))).Plus(NONE.(bytesSeen := |stream|))
  }

  lemma {:induction false} NonEmptyConcat(a: seq<bytes>, b: seq<bytes>)
    ensures NonEmpty(a + b) == NonEmpty(a) + NonEmpty(b)
    decreases |b|
  {
    hide Unless;
    if b == [] {
      assert a + b == a;
    } else {
      assert Init(a + b) == a + Init(b);
      NonEmptyConcat(a, Init(b));
      assert NonEmpty(a) + (NonEmpty(Init(b)) + Unless(Last(b))) == NonEmpty(a) + NonEmpty(Init(b)) + Unless(Last(b));
    }
  }

  lemma {:induction false} FoundConcat(w: Wanted, a: seq<bytes>, b: seq<bytes>)
    ensures Found(w, a + b) == Found(w, a) + Found(w, b)
    decreases |b|
  {
    hide FullVerdict;
    if b == [] {
      assert a + b == a;
    } else {
      assert Init(a + b) == a + Init(b);
      FoundConcat(w, a, Init(b));
    }
  }

  lemma {:induction false} TallyConcat(w: Wanted, a: seq<bytes>, b: seq<bytes>)
    ensures Tally(w, a + b) == Tally(w, a).Plus(Tally(w, b))
    decreases |b|
  {
    hide FullVerdict, Count;
    if b == [] {
      assert a + b == a;
    } else {
      assert Init(a + b) == a + Init(b);
      TallyConcat(w, a, Init(b));
    }
  }

  lemma {:induction false} NonEmptyFlagFree(parts: seq<bytes>)
    requires FlagFree(parts)
    ensures FlagFree(NonEmpty(parts))
    decreases |parts|
  {
    if parts == [] {
    } else {
      forall p | p in Init(parts) ensures FLAG !in p { assert p in parts; }
      NonEmptyFlagFree(Init(parts));
      assert Last(parts) in parts;
    }
  }

  lemma EmptyTally(w: Wanted)
    ensures Tally(w, []) == NONE && Found(w, []) == []
  {
  }

  lemma TallyOne(w: Wanted, esc: bytes)
    ensures Tally(w, [esc]) == Count(FullVerdict(w, esc))
    ensures Found(w, [esc]) == if FullVerdict(w, esc).Matched? then [FullVerdict(w, esc).found] else []
  {
    assert Init([esc]) == [];
  }

  lemma NonEmptyOne(part: bytes)
    ensures NonEmpty([part]) == if part == [] then [] else [part]
  {
    assert Init([part]) == [];
  }

  lemma FramesFlagFree(s: bytes)
    ensures FlagFree(NonEmpty(Init(Split(s)))) && FLAG !in Last(Split(s))
  {
    SplitJoins(s);
    var parts := Split(s);
    assert Last(parts) in parts;
    forall p | p in Init(parts) ensures FLAG !in p { assert p in parts; }
    NonEmptyFlagFree(Init(parts));
  }

  /** One turn of the loop over the frames of a chunk. */
  lemma OneFrameMore(w: Wanted, frames: seq<bytes>, i: nat)
    requires i < |frames| && frames[i] != [] && FLAG !in frames[i]
    ensures var v := FastVerdict(w, frames[i]);
            && Tally(w, frames[..i + 1]) == Tally(w, frames[..i]).Plus(Count(v))
            && Found(w, frames[..i + 1]) == Found(w, frames[..i]) + (if v.Matched? then [v.found] else [])
            && ((frames[i][0] as int) !in w.FirstBytes() ==> v == Ignored && Count(v) == NONE.(seen := 1))
  {
    FastVerdictIsExact(w, frames[i]);
    assert Init(frames[..i + 1]) == frames[..i] && Last(frames[..i + 1]) == frames[i];
  }

  /** Wanted by its first fields, and long enough to carry a checksum, but not the right one. */
  predicate FailsCheck(w: Wanted, esc: bytes) {
    var raw := Scan(esc);
    |raw| >= 3 && PeekOf(raw).Some? && w.Matches(PeekOf(raw).value) && w.verifyCrc && !Crc.Checks(raw)
  }

  /** How many of the frames are so. */
  function Failing(w: Wanted, frames: seq<bytes>): nat {
    if frames == [] then 0 else Failing(w, Init(frames)) + (if FailsCheck(w, Last(frames)) then 1 else 0)
  }

  /** How many of the frames are too short, as `Peek.ShortExactly` says. */
  function Shorts(w: Wanted, frames: seq<bytes>): nat {
    if frames == [] then 0
    else Shorts(w, Init(frames)) + (if FullVerdict(w, Last(frames)) == Short then 1 else 0)
  }

  /** What the counters mean: all frames, the matches, the wanted ones that fail their check, the short ones. */
  lemma {:induction false} TallyCounts(w: Wanted, frames: seq<bytes>)
    ensures Tally(w, frames) == FilterStats(|frames|, |Found(w, frames)|, Failing(w, frames), 0, Shorts(w, frames))
    decreases |frames|
  {
    hide PeekOf, Wanted.Matches, Wanted.Candidates, Scan, Crc.Checks;
    if frames == [] {
    } else {
      TallyCounts(w, Init(frames));
    }
  }

  // ---------- The filter as it runs ----------

  class FrameSplitter {
    var carry: bytes

    constructor ()
      ensures carry == []
    {
      carry := [];
    }

    /** The frames this chunk completes; what is left open is carried. */
    method Feed(chunk: bytes) returns (frames: seq<bytes>)
      modifies this
      ensures frames == NonEmpty(Init(Split(old(carry) + chunk)))
      ensures carry == Last(Split(old(carry) + chunk))
    {
      var parts := Split(carry + chunk);
      carry := Last(parts);
      frames := NonEmpty(Init(parts));
    }

    method Flush() returns (tail: bytes)
      modifies this
      ensures tail == old(carry) && carry == []
    {
      tail := carry;
      carry := [];
    }
  }

  /** What a filter remembers between calls. */
  datatype FilterState = FilterState(carry: bytes, stats: FilterStats)

  function Complete(carry: bytes, chunk: bytes): (r: seq<bytes>)
    ensures [] !in r
  {
    NonEmpty(Init(Split(carry + chunk)))
  }

  function AfterFeed(w: Wanted, st: FilterState, chunk: bytes): FilterState {
    FilterState(Last(Split(st.carry + chunk)),
                st.stats.Plus(Tally(w, Complete(st.carry, chunk))).Plus(NONE.(bytesSeen := |chunk|)))
  }

  function AfterFinish(w: Wanted, st: FilterState): FilterState {
    FilterState([], st.stats.Plus(Tally(w, NonEmpty([st.carry]))))
  }

  class FrameFilter {
    const wanted: Wanted
    const firstBytes: set<int>
    const splitter: FrameSplitter
    var stats: FilterStats

    ghost predicate Valid()
      reads this, splitter
    {
      FLAG !in splitter.carry && firstBytes == wanted.FirstBytes()
    }

    ghost function State(): FilterState
      reads this, splitter
    {
      FilterState(splitter.carry, stats)
    }

    constructor (wanted: Wanted)
      ensures this.wanted == wanted && Valid() && fresh(splitter)
      ensures State() == FilterState([], NONE)
    {
      this.wanted := wanted;
      firstBytes := wanted.FirstBytes();
      splitter := new FrameSplitter();
      stats := NONE;
    }

    method Wants(esc: bytes) returns (p: Option<Peeked>)
      requires firstBytes == wanted.FirstBytes() && esc != []
      modifies `stats
      ensures p == if esc[0] in firstBytes && PeekFrame(esc).Some? && wanted.Matches(PeekFrame(esc).value)
                   then PeekFrame(esc) else None
      ensures stats == if esc[0] in firstBytes && PeekFrame(esc).None?
                       then old(stats).(short := old(stats).short + 1) else old(stats)
    {
      if (esc[0] as int) !in firstBytes {
        return None;
      }
      p := PeekFrame(esc);
      if p.None? {
        stats := stats.(short := stats.short + 1);
        return None;
      }
      if !wanted.Matches(p.value) {
        return None;
      }
    }

    /** Judge one frame; `seen` was counted by the caller. */
    method Process(esc: bytes) returns (m: Option<Match>)
      requires firstBytes == wanted.FirstBytes() && esc != []
      modifies `stats
      ensures var v := FastVerdict(wanted, esc);
              && m == (if v.Matched? then Some(v.found) else None)
              && stats.(seen := stats.seen + 1) == old(stats).Plus(Count(v))
    {
      hide PeekFrame, UnescapeFrame, Wanted.Matches, Wanted.FirstBytes, Crc.Checks;
      var p := Wants(esc);
      if p.None? {
        return None;
      }
      var raw := UnescapeFrame(esc);
      if |raw| < 3 {
        stats := stats.(short := stats.short + 1);
        return None;
      }
      if wanted.verifyCrc && !Crc.Checks(raw) {
        stats := stats.(crcBad := stats.crcBad + 1);
        return None;
      }
      stats := stats.(matched := stats.matched + 1);
      return Some(Match(esc, raw[..|raw| - 2], p.value));
    }

    method Feed(chunk: bytes) returns (out: seq<Match>)
      requires Valid()
      modifies this, splitter
      ensures Valid() && State() == AfterFeed(wanted, old(State()), chunk)
      ensures out == Found(wanted, Complete(old(splitter.carry), chunk))
    {
      hide Split, NonEmpty, FastVerdict, FullVerdict, Wanted.FirstBytes, Tally, Found, Count;
      FramesFlagFree(splitter.carry + chunk);
      ghost var start := stats;
      stats := stats.(bytesSeen := stats.bytesSeen + |chunk|);
      var frames := splitter.Feed(chunk);
      ghost var open := splitter.carry;
      stats := stats.(seen := stats.seen + |frames|);
      out := [];
      EmptyTally(wanted);
      for i := 0 to |frames|
        invariant Valid() && splitter.carry == open
        invariant out == Found(wanted, frames[..i])
        invariant stats.Plus(NONE.(seen := i)) ==
                  start.Plus(Tally(wanted, frames[..i])).Plus(FilterStats(|frames|, 0, 0, |chunk|, 0))
      {
        var esc := frames[i];
        assert esc in frames;
        OneFrameMore(wanted, frames, i);
        if (esc[0] as int) in firstBytes {
          var m := Process(esc);
          if m.Some? {
            out := out + [m.value];
          }
        }
      }
      assert frames[..|frames|] == frames;
    }

    /** End of stream: the open part counts as a frame. */
    method Finish() returns (out: seq<Match>)
      requires Valid()
      modifies this, splitter
      ensures Valid() && State() == AfterFinish(wanted, old(State()))
      ensures out == Found(wanted, NonEmpty([old(splitter.carry)]))
    {
      hide FastVerdict, FullVerdict, Wanted.FirstBytes, NonEmpty, Tally, Found, Count;
      EmptyTally(wanted);
      var tail := splitter.Flush();
      out := [];
      NonEmptyOne(tail);
      if tail != [] {
        TallyOne(wanted, tail);
        FastVerdictIsExact(wanted, tail);
        stats := stats.(seen := stats.seen + 1);
        var m := Process(tail);
        if m.Some? {
          out := [m.value];
        }
      }
    }

    /** A restart or gap in the source: the open part is thrown away and counted. */
    method Reset()
      requires Valid()
      modifies this, splitter
      ensures Valid() && splitter.carry == []
      ensures stats == if old(splitter.carry) == [] then old(stats) else old(stats).(short := old(stats).short + 1)
    {
      var tail := splitter.Flush();
      if tail != [] {
        stats := stats.(short := stats.short + 1);
      }
    }
  }

  // ---------- Chunks do not matter ----------

  function Concat(chunks: seq<bytes>): bytes {
    if chunks == [] then [] else Concat(Init(chunks)) + Last(chunks)
  }

  function FeedAll(w: Wanted, chunks: seq<bytes>): FilterState {
    if chunks == [] then FilterState([], NONE) else AfterFeed(w, FeedAll(w, Init(chunks)), Last(chunks))
  }

  function FeedMatches(w: Wanted, chunks: seq<bytes>): seq<Match> {
    if chunks == [] then []
    else FeedMatches(w, Init(chunks)) + Found(w, Complete(FeedAll(w, Init(chunks)).carry, Last(chunks)))
  }

  /** A further chunk completes frames only beyond those already complete. */
  lemma CompleteMore(before: bytes, chunk: bytes)
    ensures var open := Last(Split(before));
            && Last(Split(before + chunk)) == Last(Split(open + chunk))
            && NonEmpty(Init(Split(before + chunk))) == NonEmpty(Init(Split(before))) + Complete(open, chunk)
  {
    hide Split, NonEmpty;
    var open := Last(Split(before));
    SplitConcat(before, chunk);
    var a, b := Init(Split(before)), Split(open + chunk);
    assert Init(a + b) == a + Init(b);
    NonEmptyConcat(a, Init(b));
  }

  /** The filter state that the frames of a stream alone determine. */
  function StateAt(w: Wanted, stream: bytes): FilterState {
    FilterState(Last(Split(stream)), Tally(w, NonEmpty(Init(Split(stream)))).Plus(NONE.(bytesSeen := |stream|)))
  }

  function FoundAt(w: Wanted, stream: bytes): seq<Match> {
    Found(w, NonEmpty(Init(Split(stream))))
  }

  lemma FeedMoves(w: Wanted, stream: bytes, chunk: bytes)
    ensures AfterFeed(w, StateAt(w, stream), chunk) == StateAt(w, stream + chunk)
    ensures FoundAt(w, stream) + Found(w, Complete(StateAt(w, stream).carry, chunk)) == FoundAt(w, stream + chunk)
  {
    hide Split, NonEmpty, Tally, Found, Complete;
    CompleteMore(stream, chunk);
    var before, more := NonEmpty(Init(Split(stream))), Complete(Last(Split(stream)), chunk);
    TallyConcat(w, before, more);
    FoundConcat(w, before, more);
  }

  lemma EmptyStream(w: Wanted, stream: bytes)
    requires stream == []
    ensures Last(Split(stream)) == [] && NonEmpty(Init(Split(stream))) == []
  {
    hide Split, NonEmpty;
    SplitFlagFree(stream);
    var complete := Init(Split(stream));
    assert complete == [];
    NothingComplete(complete);
  }

  lemma NothingComplete(parts: seq<bytes>)
    requires parts == []
    ensures NonEmpty(parts) == []
  {
  }

  lemma StartState(w: Wanted, stream: bytes)
    requires stream == []
    ensures StateAt(w, stream) == FilterState([], NONE)
  {
    hide Split, NonEmpty, Tally;
    EmptyStream(w, stream);
    EmptyTally(w);
  }

  lemma StartFound(w: Wanted, stream: bytes)
    requires stream == []
    ensures FoundAt(w, stream) == []
  {
    hide Split, NonEmpty, Found;
    EmptyStream(w, stream);
    EmptyTally(w);
  }

  /** After any chunks the filter stands where one look at their concatenation would leave it. */
  lemma {:induction false} FeedsSeeTheStream(w: Wanted, chunks: seq<bytes>)
    ensures FeedAll(w, chunks) == StateAt(w, Concat(chunks))
    ensures FeedMatches(w, chunks) == FoundAt(w, Concat(chunks))
    decreases |chunks|
  {
    hide AfterFeed, StateAt, FoundAt, Found, Complete;
    if chunks == [] {
      StartState(w, Concat(chunks));
      StartFound(w, Concat(chunks));
    } else {
      FeedsSeeTheStream(w, Init(chunks));
      FeedMoves(w, Concat(Init(chunks)), Last(chunks));
    }
  }

  /**
   However the stream is cut into chunks, the matches of all feeds and the final one, and every
   counter, are those of splitting the whole stream and classifying every frame in full.
   */
  lemma ChunkInvariant(w: Wanted, chunks: seq<bytes>)
    ensures var st := FeedAll(w, chunks);
            && FeedMatches(w, chunks) + Found(w, NonEmpty([st.carry])) == WholeMatches(w, Concat(chunks))
            && AfterFinish(w, st).stats == WholeStats(w, Concat(chunks))
  {
    hide Split, NonEmpty, Tally, Found, FeedAll, FeedMatches;
    FeedsSeeTheStream(w, chunks);
    var parts := Split(Concat(chunks));
    assert parts == Init(parts) + [Last(parts)];
    NonEmptyConcat(Init(parts), [Last(parts)]);
    FoundConcat(w, NonEmpty(Init(parts)), NonEmpty([Last(parts)]));
    TallyConcat(w, NonEmpty(Init(parts)), NonEmpty([Last(parts)]));
  }

  // ---------- Against classifying the checked bodies ----------

  /** The matches of checking the CRC first and classifying only what it covers. */
  function BodyFound(w: Wanted, frames: seq<bytes>): seq<Match> {
    if frames == [] then []
    else BodyFound(w, Init(frames)) + (if BodyAccepts(w, Last(frames)) then [BodyMatch(w, Last(frames))] else [])
  }

  /** A frame with check bytes read as fields is one match too many; without any the matches are the same. */
  lemma {:induction false} FoundAgainstBodies(w: Wanted, frames: seq<bytes>)
    requires w.verifyCrc && FlagFree(frames) && [] !in frames
    ensures (forall f :: f in frames ==> !Misread(w, f)) ==> Found(w, frames) == BodyFound(w, frames)
    ensures (exists f :: f in frames && Misread(w, f)) ==> |BodyFound(w, frames)| < |Found(w, frames)|
    decreases |frames|
  {
    hide FastVerdict, FullVerdict, BodyAccepts, Misread;
    if frames == [] {
    } else {
      var front, f := Init(frames), Last(frames);
      assert f in frames && forall x :: x in frames <==> x in front || x == f;
      FoundAgainstBodies(w, front);
      FastVerdictIsExact(w, f);
      AgreesUnlessCheckBytes(w, f);
    }
  }

  lemma StreamFrames(stream: bytes)
    ensures FlagFree(NonEmpty(Split(stream))) && [] !in NonEmpty(Split(stream))
  {
    hide Split, NonEmpty;
    SplitJoins(stream);
    NonEmptyFlagFree(Split(stream));
  }

  /**
   However the stream is cut, a filter that verifies finds what the body path finds in the whole
   stream if and only if no frame in it is misread.
   */
  lemma ChunksAgreeWithBodyPath(w: Wanted, chunks: seq<bytes>)
    requires w.verifyCrc
    ensures var frames := NonEmpty(Split(Concat(chunks)));
            FeedMatches(w, chunks) + Found(w, NonEmpty([FeedAll(w, chunks).carry])) == BodyFound(w, frames)
            <==> forall f :: f in frames ==> !Misread(w, f)
  {
    hide Split, NonEmpty, Found, BodyFound, FeedMatches, FeedAll, Misread;
    ChunkInvariant(w, chunks);
    StreamFrames(Concat(chunks));
    FoundAgainstBodies(w, NonEmpty(Split(Concat(chunks))));
  }

  /** The object does what the lemmas above are about. */
  method FilterChunks(w: Wanted, chunks: seq<bytes>) returns (out: seq<Match>, stats: FilterStats)
    ensures out == WholeMatches(w, Concat(chunks)) && stats == WholeStats(w, Concat(chunks))
  {
    hide AfterFeed, Found, Complete, Tally, WholeMatches, WholeStats, Wanted.FirstBytes;
    var f := new FrameFilter(w);
    out := [];
    for i := 0 to |chunks|
      invariant f.wanted == w && f.Valid() && fresh(f) && fresh(f.splitter)
      invariant f.State() == FeedAll(w, chunks[..i]) && out == FeedMatches(w, chunks[..i])
    {
      assert Init(chunks[..i + 1]) == chunks[..i] && Last(chunks[..i + 1]) == chunks[i];
      var more := f.Feed(chunks[i]);
      out := out + more;
    }
    assert chunks[..|chunks|] == chunks;
    ChunkInvariant(w, chunks);
    var more := f.Finish();
    out := out + more;
    stats := f.stats;
  }
}
