/** The synchronized cursor over a journal: the journal plus a `finished`
    flag. Every method is `synchronized`, so each call is one atomic step and
    the cursor is modelled as a pure transition function. The cursor is
    generic in the journal's state `S` and in the journal operation it
    delegates to.
 */
module SyncedKeyJournal {
  import opened Base
  import KeyJournal

  datatype Cursor<S> = Cursor(journal: S, finished: bool)

  /** The constructor. */
  function New<S>(journal: S): (c: Cursor<S>)
    ensures c.journal == journal && !c.finished
  {
    Cursor(journal, false)
  }

  /** `read`: delegate to the journal's read, whatever `finished` says; a
      null result sets `finished`; an exception propagates and changes
      nothing. */
  function Read<S, K, E>(c: Cursor<S>, next: S -> Result<(S, Option<K>), E>): (r: Result<(Cursor<S>, Option<K>), E>)
    ensures next(c.journal).Err? <==> r.Err?
    ensures r.Err? ==> r.error == next(c.journal).error
    ensures r.Ok? ==> r.value.1 == next(c.journal).value.1
    ensures r.Ok? ==> r.value.0.journal == next(c.journal).value.0
    ensures r.Ok? && r.value.1.None? ==> r.value.0.finished
    ensures r.Ok? && r.value.1.Some? ==> r.value.0.finished == c.finished
  {
    match next(c.journal)
    case Err(e) => Err(e)
    case Ok((j, key)) => Ok((Cursor(j, c.finished || key.None?), key))
  }

  function Finished<S>(c: Cursor<S>): bool
  {
    c.finished
  }

  /** The append `ThreadedMirror` calls on the failure cursor. The cursor
      class as shown has no `write`; this model assumes one that delegates
      atomically to the journal's write and leaves `finished` alone. */
  function Write<S, K, E>(c: Cursor<S>, write: (S, K) -> Result<S, E>, key: K): (r: Result<Cursor<S>, E>)
    ensures write(c.journal, key).Err? <==> r.Err?
    ensures r.Ok? ==> r.value == Cursor(write(c.journal, key).value, c.finished)
  {
    match write(c.journal, key)
    case Err(e) => Err(e)
    case Ok(j) => Ok(Cursor(j, c.finished))
  }

  /** A schedule: the numbers of the callers, among `workers`, in the order
      their calls took the cursor's monitor. */
  predicate ValidSchedule(workers: nat, schedule: seq<nat>)
  {
    forall i :: 0 <= i < |schedule| ==> schedule[i] < workers
  }

  /** One call on the cursor by some caller. */
  datatype Call<K> = ReadCall | WriteCall(key: K)

  /** The cursor after one call; a call that throws leaves it as it was. */
  function Perform<S, K, E>(c: Cursor<S>, next: S -> Result<(S, Option<K>), E>,
                            write: (S, K) -> Result<S, E>, call: Call<K>): Cursor<S>
  {
    match call
    case ReadCall => (match Read(c, next) case Ok((c1, _)) => c1 case Err(_) => c)
    case WriteCall(k) => (match Write(c, write, k) case Ok(c1) => c1 case Err(_) => c)
  }

  /** The cursor after a sequence of calls. */
  function Apply<S, K, E>(c: Cursor<S>, next: S -> Result<(S, Option<K>), E>,
                          write: (S, K) -> Result<S, E>, calls: seq<Call<K>>): Cursor<S>
    decreases |calls|
  {
    if |calls| == 0 then c
    else Apply(Perform(c, next, write, calls[0]), next, write, calls[1..])
  }

  /** `finished` is monotone: once set, no sequence of calls clears it. */
  lemma {:induction false} FinishedMonotone<S, K, E>(c: Cursor<S>, next: S -> Result<(S, Option<K>), E>,
                                                     write: (S, K) -> Result<S, E>, calls: seq<Call<K>>)
    requires Finished(c)
    ensures Finished(Apply(c, next, write, calls))
    decreases |calls|
  {
    if |calls| > 0 {
      FinishedMonotone(Perform(c, next, write, calls[0]), next, write, calls[1..]);
    }
  }

  /** After `finished` the cursor still reads the journal: a record appended
      behind its back is handed out (no short-circuit on `finished`). */
  lemma ReadAfterFinishedDelegates<S, K, E>(c: Cursor<S>, next: S -> Result<(S, Option<K>), E>)
    requires Finished(c) && next(c.journal).Ok? && next(c.journal).value.1.Some?
    ensures Read(c, next).Ok? && Read(c, next).value.1 == next(c.journal).value.1
    ensures Finished(Read(c, next).value.0)
  {
  }

  /** The cursor over the journal as shown: `KeyJournal.read()` always
      returns null, so the very first read of a READ journal finishes the
      cursor and hands out nothing. */
  lemma AsWrittenCursorFinishesAtOnce(j: KeyJournal.Journal)
    requires j.mode == KeyJournal.Read
    ensures Read(New(j), KeyJournal.ReadKey) == Ok((Cursor(j, true), None))
  {
  }
}
