/** Classifying a frame from its first escaped bytes, and the filter's verdict on one frame. */
module Peek {
  import opened Bytes
  import opened Wrappers
  import opened Hdlc
  import opened Sequences
  import Crc

  const LOG_OPCODE: byte := 0x10
  const EVENT_OPCODE: byte := 0x60
  const F3_OPCODES: set<int> := {0x79, 0x99, 0x92}
  const WRAPPER: byte := 0x98
  const WRAPPED_AT := 8
  const PEEK_WINDOW := 32
  const LOG_CODE_OFF := 6

  datatype Peeked = Peeked(opcode: byte, inner: Option<byte>, logCode: Option<int>)
  {
    /** The opcode that decides: the wrapped one where there is one. */
    function Effective(): byte {
      if inner.Some? then inner.value else opcode
    }
  }

  /** Unstuffing with the filter's shortcut for frames without an escape. */
  function UnescapeFrame(esc: bytes): bytes {
    if ESC !in esc then esc else Unescape(esc)
  }

  lemma {:induction false} ScanWithoutEscapes(s: bytes)
    requires ESC !in s
    ensures Scan(s) == s
    decreases |s|
  {
    if s == [] {
    } else {
      ScanWithoutEscapes(s[1..]);
    }
  }

  lemma UnescapeFrameIsScan(s: bytes)
    ensures UnescapeFrame(s) == Scan(s)
  {
    UnescapeIsScan(s);
    if ESC !in s {
      ScanWithoutEscapes(s);
    }
  }

  /** The reading of an unescaped, non-empty head. */
  function PeekOf(head: bytes): Option<Peeked>
    requires head != []
  {
    if head[0] == WRAPPER && |head| <= WRAPPED_AT then None
    else
      var inner := if head[0] == WRAPPER then Some(head[WRAPPED_AT]) else None;
      var base := if head[0] == WRAPPER then WRAPPED_AT else 0;
      if Peeked(head[0], inner, None).Effective() != LOG_OPCODE then Some(Peeked(head[0], inner, None))
      else if |head| < base + LOG_CODE_OFF + 2 then None
      else Some(Peeked(head[0], inner, Some(U16(head[base + LOG_CODE_OFF], head[base + LOG_CODE_OFF + 1]))))
  }

  function Window(esc: bytes): bytes {
    if |esc| <= PEEK_WINDOW then esc else esc[..PEEK_WINDOW]
  }

  function PeekFrame(esc: bytes): Option<Peeked> {
    if esc == [] then None
    else
      var head := UnescapeFrame(Window(esc));
      if head == [] then None else PeekOf(head)
  }

  /** Cutting after `n` escaped bytes leaves the first `n/2` unescaped ones as they were. */
  lemma {:induction false} ScanPrefix(s: bytes, n: nat, k: nat)
    requires n <= |s| && k < n / 2
    ensures k < |Scan(s[..n])| && k < |Scan(s)| && Scan(s[..n])[k] == Scan(s)[k]
    decreases n
  {
    var cut := s[..n];
    assert cut[0] == s[0] && cut[1] == s[1];
    if k == 0 {
    } else if s[0] == ESC && (s[1] == ESC_OF_FLAG || s[1] == ESC_OF_ESC) {
      assert cut[2..] == s[2..][..n - 2];
      ScanPrefix(s[2..], n - 2, k - 1);
    } else {
      assert cut[1..] == s[1..][..n - 1];
      ScanPrefix(s[1..], n - 1, k - 1);
    }
  }

  lemma ScanNonEmpty(s: bytes)
    requires s != []
    ensures Scan(s) != []
  {
  }

  /** Sixteen bytes are all that a peek ever looks at. */
  lemma PeekNeedsSixteen(a: bytes, b: bytes)
    requires |a| >= 16 && |b| >= 16 && a[..16] == b[..16]
    ensures PeekOf(a) == PeekOf(b)
  {
    assert forall i :: 0 <= i < 16 ==> a[i] == a[..16][i] && b[i] == b[..16][i];
  }

  /** The 32-byte window is enough: the peek is the one of the whole unescaped frame. */
  lemma PeekSeesWholeFrame(esc: bytes)
    requires esc != []
    ensures Scan(esc) != [] && PeekFrame(esc) == PeekOf(Scan(esc))
  {
    var window := Window(esc);
    UnescapeFrameIsScan(window);
    ScanNonEmpty(esc);
    ScanNonEmpty(window);
    if |esc| > PEEK_WINDOW {
      ScanPrefix(esc, PEEK_WINDOW, 15);
      forall k | 0 <= k < 16 ensures Scan(window)[k] == Scan(esc)[k] {
        ScanPrefix(esc, PEEK_WINDOW, k);
      }
      PeekNeedsSixteen(Scan(window), Scan(esc));
    }
  }

  // ---------- What is wanted ----------

  datatype Wanted = Wanted(logCodes: set<int>, opcodes: set<int>, f3: bool, events: bool, allLogs: bool,
                           verifyCrc: bool)
  {
    function EveryLog(): bool {
      allLogs || LOG_OPCODE in opcodes
    }

    function EffectiveOpcodes(): set<int> {
      opcodes - {LOG_OPCODE} + (if f3 then F3_OPCODES else {}) + (if events then {EVENT_OPCODE} else {})
    }

    function Candidates(): set<int> {
      opcodes + EffectiveOpcodes() + {WRAPPER} + (if EveryLog() || logCodes != {} then {LOG_OPCODE} else {})
    }

    /** The first escaped byte of the frames worth a peek. */
    function FirstBytes(): set<int> {
      set op | op in Candidates() :: if op == ESC || op == FLAG then ESC as int else op
    }

    /** The match rules: by log code, by kind, by outer or by wrapped opcode. */
    function Matches(p: Peeked): (r: bool)
      ensures r <==>
              || p.opcode in opcodes
              || p.Effective() in opcodes
              || (f3 && p.Effective() in F3_OPCODES)
              || (events && p.Effective() == EVENT_OPCODE)
              || (p.Effective() == LOG_OPCODE && (allLogs || (p.logCode.Some? && p.logCode.value in logCodes)))
    {
      if p.opcode in opcodes then true
      else if p.Effective() == LOG_OPCODE then EveryLog() || (p.logCode.Some? && p.logCode.value in logCodes)
      else p.Effective() in EffectiveOpcodes()
    }
  }

  /** A frame opened with an escape can only be one whose opcode is the escape or the flag. */
  lemma FirstByteOfFrame(esc: bytes)
    requires esc != [] && FLAG !in esc
    ensures Scan(esc) != []
    ensures Scan(esc)[0] == esc[0] || (esc[0] == ESC && Scan(esc)[0] == FLAG)
  {
  }

  /** Rejecting on the first escaped byte never loses a wanted frame. */
  lemma FirstByteRejectIsSound(w: Wanted, esc: bytes)
    requires esc != [] && FLAG !in esc
    requires Scan(esc) != [] && PeekOf(Scan(esc)).Some? && w.Matches(PeekOf(Scan(esc)).value)
    ensures esc[0] in w.FirstBytes()
  {
    FirstByteOfFrame(esc);
    var op: int := Scan(esc)[0];
    assert op in w.Candidates();
    assert (if op == ESC || op == FLAG then ESC as int else op) == esc[0];
  }

  /** A frame too short to classify is looked at exactly when its opcode is a candidate. */
  lemma FirstByteOfUnclassified(w: Wanted, esc: bytes)
    requires esc != [] && FLAG !in esc && Scan(esc) != [] && PeekOf(Scan(esc)).None?
    ensures esc[0] in w.FirstBytes() <==> Scan(esc)[0] in w.Candidates()
  {
    FirstByteOfFrame(esc);
    var op: int := Scan(esc)[0];
    assert op == esc[0] && op != ESC;
  }

  // ---------- The verdict ----------

  datatype Match = Match(escaped: bytes, frame: bytes, peek: Peeked)

  datatype Verdict = Ignored | Short | BadCrc | Matched(found: Match)

  /** The filter's path: first byte, peek at the window, and only then the whole frame. */
  function FastVerdict(w: Wanted, esc: bytes): Verdict
    requires esc != []
  {
    if esc[0] !in w.FirstBytes() then Ignored
    else
      match PeekFrame(esc)
      case None => Short
      case Some(p) =>
        if !w.Matches(p) then Ignored
        else
          var raw := UnescapeFrame(esc);
          if |raw| < 3 then Short
          else if w.verifyCrc && !Crc.Checks(raw) then BadCrc
          else Matched(Match(esc, raw[..|raw| - 2], p))
  }

  /** The simple path: unescape every frame in one scan and classify it whole. */
  function FullVerdict(w: Wanted, esc: bytes): Verdict {
    var raw := Scan(esc);
    if raw == [] then Ignored
    else
      match PeekOf(raw)
      case None => if raw[0] in w.Candidates() then Short else Ignored
      case Some(p) =>
        if !w.Matches(p) then Ignored
        else if |raw| < 3 then Short
        else if w.verifyCrc && !Crc.Checks(raw) then BadCrc
        else Matched(Match(esc, raw[..|raw| - 2], p))
  }

  lemma FastVerdictIsExact(w: Wanted, esc: bytes)
    requires esc != [] && FLAG !in esc
    ensures FastVerdict(w, esc) == FullVerdict(w, esc)
  {
    PeekSeesWholeFrame(esc);
    UnescapeFrameIsScan(esc);
    match PeekOf(Scan(esc))
    case None => FirstByteOfUnclassified(w, esc);
    case Some(p) =>
      if w.Matches(p) {
        FirstByteRejectIsSound(w, esc);
      }
  }

  /** Too short for the fields that its opcode calls for. */
  predicate TooShort(raw: bytes)
    requires raw != []
  {
    if raw[0] == 0x98 then |raw| <= 8 || (raw[8] == 0x10 && |raw| < 16)
    else raw[0] == 0x10 && |raw| < 8
  }

  /**
   What counts as short: a frame without its fields, unless it is a bare log and no log is wanted; and a wanted
   frame of any other kind without room for a checksum behind its opcode.
   */
  lemma ShortExactly(w: Wanted, esc: bytes)
    requires esc != [] && FLAG !in esc
    ensures Scan(esc) != []
    ensures var raw := Scan(esc);
            FastVerdict(w, esc) == Short <==>
            if TooShort(raw) then
              raw[0] == 0x98 || w.allLogs || 0x10 in w.opcodes || w.logCodes != {}
            else |raw| < 3 && w.Matches(Peeked(raw[0], None, None))
  {
    hide Wanted.Matches;
    ScanNonEmpty(esc);
    FastVerdictIsExact(w, esc);
  }

  // ---------- Against classifying the checked body ----------

  /** Check the CRC first and classify only what it covers. */
  predicate BodyAccepts(w: Wanted, esc: bytes) {
    var raw := Scan(esc);
    |raw| >= 3 && Crc.Checks(raw) &&
    match PeekOf(raw[..|raw| - 2])
    case None => false
    case Some(p) => w.Matches(p)
  }

  /** How many bytes the classification of this frame reads. */
  function FieldsEnd(raw: bytes): nat
    requires raw != []
  {
    if raw[0] == WRAPPER then
      if |raw| > WRAPPED_AT && raw[WRAPPED_AT] == LOG_OPCODE then WRAPPED_AT + LOG_CODE_OFF + 2 else WRAPPED_AT + 1
    else if raw[0] == LOG_OPCODE then LOG_CODE_OFF + 2
    else 1
  }

  predicate FieldsInBody(raw: bytes)
    requires raw != []
  {
    FieldsEnd(raw) + 2 <= |raw|
  }

  lemma PeekOfBody(raw: bytes)
    requires |raw| >= 3
    ensures FieldsInBody(raw) ==> PeekOf(raw[..|raw| - 2]) == PeekOf(raw)
    ensures !FieldsInBody(raw) ==> PeekOf(raw[..|raw| - 2]).None?
  {
    var body := raw[..|raw| - 2];
    assert forall i :: 0 <= i < |body| ==> body[i] == raw[i];
  }

  /** A frame that checks and can be classified, but only with check bytes as fields. */
  predicate ReadsCheckBytes(raw: bytes) {
    raw != [] && !FieldsInBody(raw) && |raw| >= 3 && Crc.Checks(raw) && PeekOf(raw).Some?
  }

  /** What the body path finds in a frame it accepts. */
  function BodyMatch(w: Wanted, esc: bytes): Match
    requires BodyAccepts(w, esc)
  {
    var raw := Scan(esc);
    Match(esc, raw[..|raw| - 2], PeekOf(raw[..|raw| - 2]).value)
  }

  /** The frames on which this filter departs from the body path. */
  predicate Misread(w: Wanted, esc: bytes) {
    ReadsCheckBytes(Scan(esc)) && w.Matches(PeekOf(Scan(esc)).value)
  }

  /** On those the filter accepts and the body path does not; on all others they say the same. */
  lemma AgreesUnlessCheckBytes(w: Wanted, esc: bytes)
    requires esc != [] && FLAG !in esc && w.verifyCrc
    ensures Misread(w, esc) ==> FastVerdict(w, esc).Matched? && !BodyAccepts(w, esc)
    ensures !Misread(w, esc) ==> (FastVerdict(w, esc).Matched? <==> BodyAccepts(w, esc))
    ensures !Misread(w, esc) && BodyAccepts(w, esc) ==> FastVerdict(w, esc).found == BodyMatch(w, esc)
  {
    hide FastVerdict, Crc.Checks, Wanted.Matches, Wanted.Candidates;
    FastVerdictIsExact(w, esc);
    ScanNonEmpty(esc);
    if |Scan(esc)| >= 3 {
      PeekOfBody(Scan(esc));
    }
  }

  /**
   Every filter that verifies agrees with classifying the CRC-checked body exactly on the frames
   that do not have check bytes read as opcode or log code.
   */
  lemma AgreesWithBodyPath(esc: bytes)
    requires esc != [] && FLAG !in esc
    ensures (forall w: Wanted :: w.verifyCrc ==> (FastVerdict(w, esc).Matched? <==> BodyAccepts(w, esc)))
       <==> !ReadsCheckBytes(Scan(esc))
  {
    hide FastVerdict, BodyAccepts, Misread, ReadsCheckBytes;
    forall w: Wanted | w.verifyCrc
      ensures (FastVerdict(w, esc).Matched? <==> BodyAccepts(w, esc)) <==> !Misread(w, esc)
    {
      AgreesUnlessCheckBytes(w, esc);
    }
    MisreadBySome(esc);
  }

  /** A frame with check bytes as fields is misread by the filter for its own opcode, other frames by none. */
  lemma MisreadBySome(esc: bytes)
    ensures ReadsCheckBytes(Scan(esc)) <==> exists w: Wanted :: w.verifyCrc && Misread(w, esc)
  {
    hide Wanted.Matches, Crc.Checks;
    if ReadsCheckBytes(Scan(esc)) {
      var w := Wanted({}, {PeekOf(Scan(esc)).value.opcode}, false, false, false, true);
      OwnOpcodeMatches(w, PeekOf(Scan(esc)).value);
      assert Misread(w, esc);
    }
  }

  lemma OwnOpcodeMatches(w: Wanted, p: Peeked)
    requires p.opcode in w.opcodes
    ensures w.Matches(p)
  {
  }

  /** Every sent LOG frame of 6 or 7 bytes, too short for a log code, passes a filter for all logs. */
  lemma ShortLogAccepted(w: Wanted, body: bytes)
    requires w.verifyCrc && w.allLogs && 6 <= |body| <= 7 && body[0] == LOG_OPCODE
    ensures var esc := Init(Encapsulate(body));
            esc != [] && FastVerdict(w, esc).Matched? && !BodyAccepts(w, esc)
  {
    var raw := body + Le16Bits(Crc.Crc16(body));
    var esc := Escape(raw);
    assert Init(esc + [FLAG]) == esc;
    ScanOfEscape(raw);
    assert raw[..|raw| - 2] == body && raw[|raw| - 2..] == Le16Bits(Crc.Crc16(body));
    FastVerdictIsExact(w, esc);
    PeekOfBody(raw);
  }
}
