/** A modem with a record of what it was asked and what it answered. */
module Recording {
  import opened Bytes
  import opened F3Mask

  datatype Exchange = Exchange(op: byte, payload: bytes, answer: Answer)

  type Log = seq<Exchange>

  function Record<S>(m: Modem<S>, st: (S, Log), op: byte, payload: bytes): ((S, Log), Answer) {
    var (st', ans) := m.step(st.0, op, payload);
    ((st', st.1 + [Exchange(op, payload, ans)]), ans)
  }

  /** The same modem, with a record of its exchanges beside its state. */
  function Recorded<S>(m: Modem<S>): Modem<(S, Log)> {
    Modem((st, op, payload) => Record(m, st, op, payload))
  }

  lemma RecordedStep<S>(m: Modem<S>, st: S, log: Log, op: byte, payload: bytes)
    ensures var (st', ans) := m.step(st, op, payload);
            Recorded(m).step((st, log), op, payload) == ((st', log + [Exchange(op, payload, ans)]), ans)
  {
  }

  /** What was exchanged between two records, the later continuing the earlier. */
  ghost predicate Since(before: Log, after: Log, sent: Log) {
    after == before + sent
  }

  lemma SinceThen(a: Log, b: Log, c: Log, x: Log, y: Log)
    requires Since(a, b, x) && Since(b, c, y)
    ensures Since(a, c, x + y)
  {
  }
}
