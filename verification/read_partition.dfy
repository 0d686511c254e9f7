/** Several workers draining one cursor. Each `read` is one atomic step, so
    a concurrent run is a schedule: the sequence of worker numbers in the
    order their reads took the cursor's lock. The result is that the journal
    is partitioned: every record goes to exactly one caller, in journal
    order across the schedule.
 */
module ReadPartition {
  import opened Base
  import opened KeyJournal
  import opened Framing
  import SyncedKeyJournal

  /** One record handed to one worker. */
  datatype Take = Take(worker: nat, key: seq<Byte>)

  /** The shared cursor, what each worker has received so far, and the
      records handed out in step order. */
  datatype Pool = Pool(cursor: SyncedKeyJournal.Cursor<Journal>,
                       received: seq<seq<seq<Byte>>>,
                       log: seq<Take>)

  /** Worker `v` calls `read` once. */
  function Step(w: Width, p: Pool, v: nat): Pool
    requires v < |p.received|
  {
    match SyncedKeyJournal.Read(p.cursor, ReadNext(w))
    case Err(_) => p
    case Ok((c, None)) => p.(cursor := c)
    case Ok((c, Some(k))) =>
      Pool(c, p.received[v := p.received[v] + [k]], p.log + [Take(v, k)])
  }

  /** The pool after the reads of `schedule`, in order. */
  function Run(w: Width, p: Pool, schedule: seq<nat>): (q: Pool)
    requires SyncedKeyJournal.ValidSchedule(|p.received|, schedule)
    ensures |q.received| == |p.received|
    decreases |schedule|
  {
    if |schedule| == 0 then p
    else Run(w, Step(w, p, schedule[0]), schedule[1..])
  }

  /** A fresh cursor over a journal file's bytes, whatever they are, and
      `workers` callers that have received nothing. */
  function Start(data: seq<Byte>, workers: nat): Pool
  {
    Pool(SyncedKeyJournal.New(Journal(Read, data, false)),
         seq(workers, _ => []), [])
  }

  /** The keys of a log, in step order. */
  function Keys(log: seq<Take>): (ks: seq<seq<Byte>>)
    ensures |ks| == |log|
    ensures forall i :: 0 <= i < |log| ==> ks[i] == log[i].key
  {
    seq(|log|, i requires 0 <= i < |log| => log[i].key)
  }

  /** The keys the log hands to worker `v`, in step order. */
  function Owned(log: seq<Take>, v: nat): seq<seq<Byte>>
  {
    if |log| == 0 then []
    else Owned(log[..|log| - 1], v) + (if log[|log| - 1].worker == v then [log[|log| - 1].key] else [])
  }

  function TotalReceived(received: seq<seq<seq<Byte>>>): nat
  {
    if |received| == 0 then 0 else |received[0]| + TotalReceived(received[1..])
  }

  lemma {:induction false} TotalReceivedUpdate(received: seq<seq<seq<Byte>>>, v: nat, x: seq<seq<Byte>>)
    requires v < |received|
    ensures TotalReceived(received[v := x]) == TotalReceived(received) - |received[v]| + |x|
  {
    if v > 0 {
      TotalReceivedUpdate(received[1..], v - 1, x);
      assert received[v := x][1..] == received[1..][v - 1 := x];
    }
  }

  /** What holds of the pool after any schedule from a start over a journal
      whose records are `keys`. */
  ghost predicate Inv(w: Width, keys: seq<seq<Byte>>, p: Pool)
  {
    && |p.log| <= |keys|
    && Holds(w, p.cursor.journal, keys[|p.log|..])
    && (forall i :: 0 <= i < |p.log| ==> p.log[i].key == keys[i])
    && (forall i :: 0 <= i < |p.log| ==> p.log[i].worker < |p.received|)
    && (forall v :: 0 <= v < |p.received| ==> p.received[v] == Owned(p.log, v))
    && TotalReceived(p.received) == |p.log|
    && (p.cursor.finished ==> |p.log| == |keys|)
  }

  lemma TotalReceivedEmpty(n: nat)
    ensures TotalReceived(seq(n, _ => [])) == 0
  {
    if n > 0 {
      var empty: seq<seq<Byte>> := [];
      assert seq(n, _ => empty)[1..] == seq(n - 1, _ => empty);
      TotalReceivedEmpty(n - 1);
    }
  }

  lemma StartInv(w: Width, data: seq<Byte>, keys: seq<seq<Byte>>, workers: nat)
    requires DecodeWith(w, Journal(Read, data, false)) == Ok(keys)
    ensures Inv(w, keys, Start(data, workers))
  {
    TotalReceivedEmpty(workers);
    assert keys[0..] == keys;
  }

  /** The pool after worker `v` takes the next record `keys[|p.log|]`. */
  function TakeNext(w: Width, keys: seq<seq<Byte>>, p: Pool, v: nat): Pool
    requires |p.log| < |keys| && v < |p.received|
  {
    var n := |p.log|;
    Pool(SyncedKeyJournal.Cursor(Rest(w, p.cursor.journal), p.cursor.finished),
         p.received[v := p.received[v] + [keys[n]]],
         p.log + [Take(v, keys[n])])
  }

  lemma StepTakes(w: Width, keys: seq<seq<Byte>>, p: Pool, v: nat)
    requires Inv(w, keys, p) && v < |p.received| && |p.log| < |keys|
    ensures Step(w, p, v) == TakeNext(w, keys, p, v)
  {
    HoldsRead(w, p.cursor.journal, keys[|p.log|..]);
  }

  lemma TakeNextInv(w: Width, keys: seq<seq<Byte>>, p: Pool, v: nat)
    requires Inv(w, keys, p) && v < |p.received| && |p.log| < |keys|
    ensures Inv(w, keys, TakeNext(w, keys, p, v))
  {
    var n := |p.log|;
    var q := TakeNext(w, keys, p, v);
    HoldsRead(w, p.cursor.journal, keys[n..]);
    assert keys[n..][1..] == keys[n + 1..];
    forall u | 0 <= u < |q.received|
      ensures q.received[u] == Owned(q.log, u)
    {
      assert q.log[..|q.log| - 1] == p.log;
    }
    TotalReceivedUpdate(p.received, v, p.received[v] + [keys[n]]);
    forall i | 0 <= i < |q.log|
      ensures q.log[i].key == keys[i] && q.log[i].worker < |q.received|
    {
      if i < n { assert q.log[i] == p.log[i]; }
    }
  }

  /** One step keeps the invariant; it hands out the next journal record
      when there is one and finishes the cursor when there is none. */
  lemma StepInv(w: Width, keys: seq<seq<Byte>>, p: Pool, v: nat)
    requires Inv(w, keys, p) && v < |p.received|
    ensures Inv(w, keys, Step(w, p, v))
    ensures |p.log| < |keys| ==> Step(w, p, v).log == p.log + [Take(v, keys[|p.log|])]
    ensures |p.log| == |keys| ==> Step(w, p, v).log == p.log && Step(w, p, v).cursor.finished
  {
    var n := |p.log|;
    if n < |keys| {
      StepTakes(w, keys, p, v);
      TakeNextInv(w, keys, p, v);
    } else {
      HoldsRead(w, p.cursor.journal, keys[n..]);
    }
  }

  lemma {:induction false} RunInv(w: Width, keys: seq<seq<Byte>>, p: Pool, schedule: seq<nat>)
    requires Inv(w, keys, p) && SyncedKeyJournal.ValidSchedule(|p.received|, schedule)
    ensures Inv(w, keys, Run(w, p, schedule))
    ensures |Run(w, p, schedule).log| == Min(|p.log| + |schedule|, |keys|)
    ensures |p.log| + |schedule| > |keys| ==> Run(w, p, schedule).cursor.finished
    decreases |schedule|
  {
    if |schedule| > 0 {
      StepInv(w, keys, p, schedule[0]);
      RunInv(w, keys, Step(w, p, schedule[0]), schedule[1..]);
    }
  }

  function Min(a: nat, b: nat): nat
  {
    if a < b then a else b
  }

  /** Partition: whatever the interleaving of `workers` callers, the records
      handed out are the journal's records in journal order, each handed to
      exactly one caller; every caller received exactly the records the log
      assigns it; and once the cursor is finished, which any schedule longer
      than the journal guarantees, every record has been handed out. The
      journal is any file whose records, read until null, are `keys`; under
      the one-byte framing that is every file (`OneByteAlwaysDecodes`). */
  lemma Partition(w: Width, data: seq<Byte>, keys: seq<seq<Byte>>, workers: nat, schedule: seq<nat>)
    requires DecodeWith(w, Journal(Read, data, false)) == Ok(keys)
    requires SyncedKeyJournal.ValidSchedule(workers, schedule)
    ensures var p := Run(w, Start(data, workers), schedule);
      && |p.log| == Min(|schedule|, |keys|)
      && Keys(p.log) == keys[..|p.log|]
      && (forall i :: 0 <= i < |p.log| ==> p.log[i].worker < workers)
      && (forall v :: 0 <= v < workers ==> p.received[v] == Owned(p.log, v))
      && TotalReceived(p.received) == |p.log|
      && (p.cursor.finished <==> |p.log| == |keys| && |schedule| > |keys|)
      && (p.cursor.finished ==> Keys(p.log) == keys)
  {
    var p0 := Start(data, workers);
    StartInv(w, data, keys, workers);
    RunInv(w, keys, p0, schedule);
    var p := Run(w, p0, schedule);
    FinishedOnlyWhenReadPastEnd(w, keys, p0, schedule);
  }

  /** The cursor finishes only on a read that finds no record left. */
  lemma {:induction false} FinishedOnlyWhenReadPastEnd(w: Width, keys: seq<seq<Byte>>, p: Pool, schedule: seq<nat>)
    requires Inv(w, keys, p) && SyncedKeyJournal.ValidSchedule(|p.received|, schedule) && !p.cursor.finished
    ensures Run(w, p, schedule).cursor.finished ==> |p.log| + |schedule| > |keys|
    decreases |schedule|
  {
    if |schedule| > 0 {
      var q := Step(w, p, schedule[0]);
      StepInv(w, keys, p, schedule[0]);
      if q.cursor.finished {
        assert |p.log| == |keys|;
      } else {
        FinishedOnlyWhenReadPastEnd(w, keys, q, schedule[1..]);
      }
    }
  }
}
