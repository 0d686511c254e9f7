/** A whole mirror job: `workerCount` workers running the loop of
    `MirrorThread.run` against one shared read cursor, one shared failure
    journal and one destination. Concurrency is a schedule of worker numbers;
    each entry is one loop iteration of that worker taken as an atomic step.
    The cursor read is atomic in the source; the rest of an iteration is not,
    so the order of the failure journal's records and the order of two
    stores of one key are those of the schedule's iterations here, where the
    source may interleave them differently.

    The failure cursor is represented by its journal alone: its `finished`
    flag is set only by `read`, which no worker calls on it, and the append
    (`SyncedKeyJournal.Write`) leaves the flag alone, so it stays false and
    the append is the journal's own write.
 */
module MirrorRun {
  import opened Base
  import opened KeyJournal
  import opened Framing
  import SyncedKeyJournal
  import opened ThreadedMirror

  /** A worker still looping, or one that has called `workerFinished`; the
      tally is its local `processedCount`. */
  datatype WorkerState = Running(tally: nat) | Reported(tally: nat)

  /** The outside world as oracles. `interrupted(v, t)`: worker `v` sees its
      interrupt flag at the top of its iteration number `t`.
      `fetch(v, t, k, a)` and `store(v, t, k, a)`: the outcome of attempt `a`
      for key `k` in that iteration, over that worker's connections. */
  datatype Env = Env(interrupted: (nat, nat) -> bool,
                     fetch: (nat, nat, Key, nat) -> FetchOutcome,
                     store: (nat, nat, Key, nat) -> StoreOutcome)

  /** Worker `worker` took `key` in its iteration `round`, with that fate. */
  datatype Event = Event(worker: nat, round: nat, key: Key, fate: Fate)

  datatype World = World(cursor: SyncedKeyJournal.Cursor<Journal>,
                         failed: Journal,
                         dest: map<Key, Value>,
                         job: Job,
                         workers: seq<WorkerState>,
                         log: seq<Event>)

  function FetchFor(env: Env, v: nat, t: nat, k: Key): nat -> FetchOutcome
  {
    (a: nat) => env.fetch(v, t, k, a)
  }

  function StoreFor(env: Env, v: nat, t: nat, k: Key): nat -> StoreOutcome
  {
    (a: nat) => env.store(v, t, k, a)
  }

  /** The `finally` block: the worker reports its tally exactly once. */
  function Report(s: World, v: nat, tally: nat): World
    requires v < |s.workers|
  {
    s.(job := WorkerFinished(s.job, tally), workers := s.workers[v := Reported(tally)])
  }

  /** One iteration of worker `v`'s loop. The loop ends, reporting the
      tally, on an interrupt seen at the top, on a null from the cursor, on
      an exception from the cursor, and on an exception escaping the per-key
      handler; a key taken from the cursor is counted whatever its fate. */
  function Step(w: Width, env: Env, s: World, v: nat): (r: World)
    requires v < |s.workers|
    ensures |r.workers| == |s.workers|
  {
    match s.workers[v]
    case Reported(_) => s
    case Running(t) =>
      if env.interrupted(v, t) then Report(s, v, t)
      else match SyncedKeyJournal.Read(s.cursor, ReadNext(w))
        case Err(_) => Report(s, v, t)
        case Ok((c, None)) => Report(s.(cursor := c), v, t)
        case Ok((c, Some(k))) =>
          var h := ProcessKey(w, FetchFor(env, v, t, k), StoreFor(env, v, t, k), s.dest, s.failed, k);
          var s' := s.(cursor := c, dest := h.dest, failed := h.failed,
                       log := s.log + [Event(v, t, k, h.fate)]);
          if h.fate.Escaped? then Report(s', v, t + 1)
          else s'.(workers := s.workers[v := Running(t + 1)])
  }

  function Run(w: Width, env: Env, s: World, schedule: seq<nat>): (r: World)
    requires SyncedKeyJournal.ValidSchedule(|s.workers|, schedule)
    ensures |r.workers| == |s.workers|
    decreases |schedule|
  {
    if |schedule| == 0 then s
    else
      Run(w, env, Step(w, env, s, schedule[0]), schedule[1..])
  }

  /** The job as the driver sets it up: a fresh cursor over the bucket's
      journal file, whatever its bytes, a fresh failure journal, and
      `workerCount` idle workers. */
  function Begin(data: seq<Byte>, workerCount: nat, dest: map<Key, Value>): World
  {
    World(SyncedKeyJournal.New(Journal(Read, data, false)),
          Journal(Write, [], false), dest, NewJob(workerCount),
          seq(workerCount, _ => Running(0)), [])
  }

  // ---------------------------------------------------------------------------
  // Tallies

  function TallySum(ws: seq<WorkerState>): nat
  {
    if |ws| == 0 then 0 else ws[0].tally + TallySum(ws[1..])
  }

  function ReportedCount(ws: seq<WorkerState>): nat
  {
    if |ws| == 0 then 0 else (if ws[0].Reported? then 1 else 0) + ReportedCount(ws[1..])
  }

  function ReportedSum(ws: seq<WorkerState>): nat
  {
    if |ws| == 0 then 0 else (if ws[0].Reported? then ws[0].tally else 0) + ReportedSum(ws[1..])
  }

  lemma {:induction false} SumsUpdate(ws: seq<WorkerState>, v: nat, x: WorkerState)
    requires v < |ws|
    ensures TallySum(ws[v := x]) == TallySum(ws) - ws[v].tally + x.tally
    ensures ReportedCount(ws[v := x]) ==
      ReportedCount(ws) - (if ws[v].Reported? then 1 else 0) + (if x.Reported? then 1 else 0)
    ensures ReportedSum(ws[v := x]) ==
      ReportedSum(ws) - (if ws[v].Reported? then ws[v].tally else 0) + (if x.Reported? then x.tally else 0)
  {
    if v > 0 {
      SumsUpdate(ws[1..], v - 1, x);
      assert ws[v := x][1..] == ws[1..][v - 1 := x];
    }
  }

  lemma {:induction false} ReportedCountAll(ws: seq<WorkerState>)
    ensures ReportedCount(ws) <= |ws|
    ensures ReportedCount(ws) == |ws| <==> forall v :: 0 <= v < |ws| ==> ws[v].Reported?
  {
    if |ws| > 0 {
      ReportedCountAll(ws[1..]);
      if ReportedCount(ws) == |ws| {
        forall v | 0 <= v < |ws| ensures ws[v].Reported? {
          if v > 0 { assert ws[v] == ws[1..][v - 1]; }
        }
      }
      if forall v :: 0 <= v < |ws| ==> ws[v].Reported? {
        forall v | 0 <= v < |ws| - 1 ensures ws[1..][v].Reported? {
          assert ws[1..][v] == ws[v + 1];
        }
      }
    }
  }

  lemma {:induction false} IdleSums(n: nat)
    ensures TallySum(seq(n, _ => Running(0))) == 0
    ensures ReportedCount(seq(n, _ => Running(0))) == 0
    ensures ReportedSum(seq(n, _ => Running(0))) == 0
  {
    if n > 0 {
      assert seq(n, _ => Running(0))[1..] == seq(n - 1, _ => Running(0));
      IdleSums(n - 1);
    }
  }

  // ---------------------------------------------------------------------------
  // Logs

  /** The keys sent to the failure journal, in the order they were sent. */
  function DeadKeys(log: seq<Event>): seq<Key>
  {
    if |log| == 0 then []
    else DeadKeys(log[..|log| - 1]) + (if log[|log| - 1].fate.DeadLettered? then [log[|log| - 1].key] else [])
  }

  lemma DeadKeysAppend(log: seq<Event>, e: Event)
    ensures DeadKeys(log + [e]) == DeadKeys(log) + (if e.fate.DeadLettered? then [e.key] else [])
  {
    assert (log + [e])[..|log|] == log;
  }

  lemma {:induction false} DeadKeysFit(w: Width, keys: seq<seq<Byte>>, log: seq<Event>)
    requires AllFit(w, keys) && |log| <= |keys|
    requires forall i :: 0 <= i < |log| ==> log[i].key == keys[i]
    ensures AllFit(w, DeadKeys(log))
  {
    if |log| > 0 {
      var init := log[..|log| - 1];
      DeadKeysFit(w, keys, init);
      assert Fits(w, keys[|log| - 1]);
    }
  }

  /** No key was fetched from the source in vain: the fetch in that
      iteration yielded nothing. */
  predicate NoVersion(env: Env, e: Event)
  {
    !HasVersion(ReadObject(FetchFor(env, e.worker, e.round, e.key)))
  }

  /** Some store attempt of that iteration got through to the destination. */
  predicate Reaches(env: Env, e: Event)
  {
    exists a :: 0 <= a < MaxTries && StoreFor(env, e.worker, e.round, e.key)(a).StoreReached?
  }

  // ---------------------------------------------------------------------------
  // The invariant

  /** Cursor and log: the records handed out are the journal's, in order,
      and the cursor's journal holds the records not yet handed out. */
  ghost predicate CursorInv(w: Width, keys: seq<seq<Byte>>, s: World)
  {
    && AllFit(w, keys)
    && |s.log| <= |keys|
    && Holds(w, s.cursor.journal, keys[|s.log|..])
    && (s.cursor.finished ==> |s.log| == |keys|)
    && (forall i :: 0 <= i < |s.log| ==> s.log[i].key == keys[i] && s.log[i].worker < |s.workers|)
  }

  /** Job counters agree with the workers: one finished worker per report,
      the job total is the sum of the reported tallies, and the tallies
      together count every record taken. */
  ghost predicate JobInv(s: World)
  {
    && s.job.workerCount == |s.workers|
    && s.job.finishedWorkers == ReportedCount(s.workers)
    && s.job.processedCount == ReportedSum(s.workers)
    && TallySum(s.workers) == |s.log|
  }

  /** Fates: the failure journal holds exactly the dead-lettered keys, and a
      key is dead-lettered exactly when its fetch yielded nothing. */
  ghost predicate FateInv(w: Width, env: Env, s: World)
  {
    && AllFit(w, DeadKeys(s.log))
    && s.failed == Journal(Write, EncodeWith(w, DeadKeys(s.log)), false)
    && (forall i :: 0 <= i < |s.log| ==> !s.log[i].fate.Escaped?)
    && (forall i :: 0 <= i < |s.log| ==> (s.log[i].fate.DeadLettered? <==> NoVersion(env, s.log[i])))
    && (forall i :: 0 <= i < |s.log| && s.log[i].fate.Mirrored? ==> (s.log[i].fate.reached <==> Reaches(env, s.log[i])))
  }

  /** Destination: create-only, so what was there stays; every store that
      got through left its key present; and no other key appears. */
  ghost predicate DestInv(dest0: map<Key, Value>, s: World)
  {
    && (forall k :: k in dest0 ==> k in s.dest && s.dest[k] == dest0[k])
    && (forall i :: 0 <= i < |s.log| && s.log[i].fate.Mirrored? && s.log[i].fate.reached ==> s.log[i].key in s.dest)
    && (forall k :: k in s.dest ==> k in dest0 || exists i :: 0 <= i < |s.log| && s.log[i].key == k && s.log[i].fate.Mirrored?)
  }

  /** A worker reported only after the cursor was drained or after it saw
      an interrupt. */
  ghost predicate ReportInv(env: Env, s: World)
  {
    forall v :: 0 <= v < |s.workers| && s.workers[v].Reported? ==>
      s.cursor.finished || env.interrupted(v, s.workers[v].tally)
  }

  ghost predicate Inv(w: Width, env: Env, keys: seq<seq<Byte>>, dest0: map<Key, Value>, s: World)
  {
    CursorInv(w, keys, s) && JobInv(s) && FateInv(w, env, s) && DestInv(dest0, s) && ReportInv(env, s)
  }

  lemma BeginInv(w: Width, env: Env, data: seq<Byte>, keys: seq<seq<Byte>>, workerCount: nat, dest0: map<Key, Value>)
    requires DecodeWith(w, Journal(Read, data, false)) == Ok(keys)
    ensures Inv(w, env, keys, dest0, Begin(data, workerCount, dest0))
  {
    DecodedFit(w, Journal(Read, data, false), keys);
    IdleSums(workerCount);
    assert keys[0..] == keys;
  }

  /** Reporting keeps the job counters in step with the workers. */
  lemma ReportJobInv(s: World, v: nat, tally: nat)
    requires v < |s.workers| && s.workers[v].Running?
    requires s.job.workerCount == |s.workers|
    requires s.job.finishedWorkers == ReportedCount(s.workers)
    requires s.job.processedCount == ReportedSum(s.workers)
    ensures var r := Report(s, v, tally);
      && r.job.workerCount == |r.workers|
      && r.job.finishedWorkers == ReportedCount(r.workers)
      && r.job.processedCount == ReportedSum(r.workers)
      && TallySum(r.workers) == TallySum(s.workers) - s.workers[v].tally + tally
  {
    SumsUpdate(s.workers, v, Reported(tally));
  }

  /** A read from the cursor under the invariant: the next record when one
      is left, null and a finished cursor otherwise; it never throws. */
  lemma CursorReadInv(w: Width, keys: seq<seq<Byte>>, s: World)
    requires CursorInv(w, keys, s)
    ensures var r := SyncedKeyJournal.Read(s.cursor, ReadNext(w));
      && r.Ok?
      && (|s.log| < |keys| ==>
            && r.value.1 == Some(keys[|s.log|])
            && r.value.0 == SyncedKeyJournal.Cursor(Rest(w, s.cursor.journal), s.cursor.finished)
            && Holds(w, Rest(w, s.cursor.journal), keys[|s.log| + 1..]))
      && (|s.log| == |keys| ==> r.value.1.None? && r.value.0.finished && r.value.0.journal == s.cursor.journal)
  {
    var n := |s.log|;
    HoldsRead(w, s.cursor.journal, keys[n..]);
    if n < |keys| {
      assert keys[n..][1..] == keys[n + 1..];
    }
  }

  lemma StepInvReported(w: Width, env: Env, keys: seq<seq<Byte>>, dest0: map<Key, Value>, s: World, v: nat)
    requires Inv(w, env, keys, dest0, s) && v < |s.workers| && s.workers[v].Running?
    requires env.interrupted(v, s.workers[v].tally) || |s.log| == |keys|
    ensures Inv(w, env, keys, dest0, Step(w, env, s, v))
    ensures Step(w, env, s, v).log == s.log
    ensures Step(w, env, s, v).workers[v] == Reported(s.workers[v].tally)
    ensures Step(w, env, s, v).job == WorkerFinished(s.job, s.workers[v].tally)
  {
    var t := s.workers[v].tally;
    CursorReadInv(w, keys, s);
    var r := Step(w, env, s, v);
    ReportJobInv(if env.interrupted(v, t) then s else s.(cursor := SyncedKeyJournal.Read(s.cursor, ReadNext(w)).value.0), v, t);
    assert r.workers == s.workers[v := Reported(t)];
  }

  /** An exception escaping the per-key handler: the fetch yielded nothing
      and the failure journal's append throws. The worker still reports, and
      its tally counts the key it took; the key is logged as escaped, the
      cursor has moved past it, and neither the failure journal nor the
      destination changes. */
  lemma EscapeReports(w: Width, env: Env, s: World, v: nat, k: Key)
    requires v < |s.workers| && s.workers[v].Running?
    requires !env.interrupted(v, s.workers[v].tally)
    requires SyncedKeyJournal.Read(s.cursor, ReadNext(w)).Ok?
    requires SyncedKeyJournal.Read(s.cursor, ReadNext(w)).value.1 == Some(k)
    requires !HasVersion(ReadObject(FetchFor(env, v, s.workers[v].tally, k)))
    requires WriteRecord(w, s.failed, Some(k)).Err?
    ensures var r := Step(w, env, s, v);
      && r.workers[v] == Reported(s.workers[v].tally + 1)
      && r.job == WorkerFinished(s.job, s.workers[v].tally + 1)
      && r.failed == s.failed
      && r.dest == s.dest
      && r.cursor == SyncedKeyJournal.Read(s.cursor, ReadNext(w)).value.0
      && |r.log| == |s.log| + 1 && r.log[|s.log|].key == k && r.log[|s.log|].fate.Escaped?
  {
  }

  /** A cursor read that throws ends the loop: the worker reports the tally
      it had, and nothing else changes. */
  lemma CursorThrowsReports(w: Width, env: Env, s: World, v: nat)
    requires v < |s.workers| && s.workers[v].Running?
    requires !env.interrupted(v, s.workers[v].tally)
    requires SyncedKeyJournal.Read(s.cursor, ReadNext(w)).Err?
    ensures Step(w, env, s, v) == Report(s, v, s.workers[v].tally)
  {
  }

  /** The world after worker `v` takes the next record `keys[|s.log|]`. */
  ghost function TakeWorld(w: Width, env: Env, keys: seq<seq<Byte>>, s: World, v: nat): World
    requires CursorInv(w, keys, s) && |s.log| < |keys| && v < |s.workers|
  {
    var t := s.workers[v].tally;
    var n := |s.log|;
    var k := keys[n];
    var h := ProcessKey(w, FetchFor(env, v, t, k), StoreFor(env, v, t, k), s.dest, s.failed, k);
    s.(cursor := SyncedKeyJournal.Cursor(Rest(w, s.cursor.journal), s.cursor.finished),
       dest := h.dest, failed := h.failed, log := s.log + [Event(v, t, k, h.fate)],
       workers := s.workers[v := Running(t + 1)])
  }

  lemma TakeShape(w: Width, env: Env, keys: seq<seq<Byte>>, s: World, v: nat)
    requires CursorInv(w, keys, s) && FateInv(w, env, s) && v < |s.workers| && s.workers[v].Running?
    requires !env.interrupted(v, s.workers[v].tally) && |s.log| < |keys|
    ensures Step(w, env, s, v) == TakeWorld(w, env, keys, s, v)
    ensures !TakeWorld(w, env, keys, s, v).log[|s.log|].fate.Escaped?
  {
    var t := s.workers[v].tally;
    var k := keys[|s.log|];
    CursorReadInv(w, keys, s);
    assert Fits(w, k);
    WriteRecordAppends(w, s.failed, k);
  }

  lemma TakeFateInv(w: Width, env: Env, keys: seq<seq<Byte>>, s: World, v: nat)
    requires CursorInv(w, keys, s) && FateInv(w, env, s)
    requires v < |s.workers| && |s.log| < |keys|
    ensures FateInv(w, env, TakeWorld(w, env, keys, s, v))
  {
    var t := s.workers[v].tally;
    var k := keys[|s.log|];
    var r := TakeWorld(w, env, keys, s, v);
    var h := ProcessKey(w, FetchFor(env, v, t, k), StoreFor(env, v, t, k), s.dest, s.failed, k);
    var e := Event(v, t, k, h.fate);
    assert r.log == s.log + [e];
    assert Fits(w, k);
    WriteRecordAppends(w, s.failed, k);
    DeadKeysAppend(s.log, e);
    if h.fate.DeadLettered? {
      EncodeWithAppend(w, DeadKeys(s.log), k);
      assert DeadKeys(r.log) == DeadKeys(s.log) + [k];
      assert h.failed == s.failed.(data := s.failed.data + FrameOf(w, k));
    } else {
      assert h.fate.Mirrored?;
      assert DeadKeys(r.log) == DeadKeys(s.log);
      assert h.failed == s.failed;
    }
    assert NoVersion(env, e) <==> h.fate.DeadLettered?;
    assert h.fate.Mirrored? ==> (h.fate.reached <==> Reaches(env, e));
    TakeFateLog(env, s.log, e);
    assert AllFit(w, DeadKeys(r.log));
    assert r.failed == Journal(Write, EncodeWith(w, DeadKeys(r.log)), false);
  }

  lemma TakeFateLog(env: Env, log: seq<Event>, e: Event)
    requires forall i :: 0 <= i < |log| ==> !log[i].fate.Escaped?
    requires forall i :: 0 <= i < |log| ==> (log[i].fate.DeadLettered? <==> NoVersion(env, log[i]))
    requires forall i :: 0 <= i < |log| && log[i].fate.Mirrored? ==> (log[i].fate.reached <==> Reaches(env, log[i]))
    requires !e.fate.Escaped? && (e.fate.DeadLettered? <==> NoVersion(env, e))
    requires e.fate.Mirrored? ==> (e.fate.reached <==> Reaches(env, e))
    ensures var r := log + [e];
      && (forall i :: 0 <= i < |r| ==> !r[i].fate.Escaped?)
      && (forall i :: 0 <= i < |r| ==> (r[i].fate.DeadLettered? <==> NoVersion(env, r[i])))
      && (forall i :: 0 <= i < |r| && r[i].fate.Mirrored? ==> (r[i].fate.reached <==> Reaches(env, r[i])))
  {
    var r := log + [e];
    forall i | 0 <= i < |r|
      ensures !r[i].fate.Escaped?
      ensures r[i].fate.DeadLettered? <==> NoVersion(env, r[i])
      ensures r[i].fate.Mirrored? ==> (r[i].fate.reached <==> Reaches(env, r[i]))
    {
      if i < |log| { assert r[i] == log[i]; }
    }
  }

  lemma TakeDestInv(w: Width, env: Env, keys: seq<seq<Byte>>, dest0: map<Key, Value>, s: World, v: nat)
    requires CursorInv(w, keys, s) && DestInv(dest0, s)
    requires v < |s.workers| && |s.log| < |keys|
    ensures DestInv(dest0, TakeWorld(w, env, keys, s, v))
  {
    var t := s.workers[v].tally;
    var k := keys[|s.log|];
    var r := TakeWorld(w, env, keys, s, v);
    assert r.log[|s.log|].key == k;
    forall kk | kk in r.dest
      ensures kk in dest0 || exists i :: 0 <= i < |r.log| && r.log[i].key == kk && r.log[i].fate.Mirrored?
    {
      if kk !in s.dest {
        assert kk == k && r.log[|s.log|].fate.Mirrored?;
      } else if kk !in dest0 {
        var i :| 0 <= i < |s.log| && s.log[i].key == kk && s.log[i].fate.Mirrored?;
        assert r.log[i] == s.log[i];
      }
    }
    forall i | 0 <= i < |r.log| && r.log[i].fate.Mirrored? && r.log[i].fate.reached
      ensures r.log[i].key in r.dest
    {
      if i < |s.log| { assert r.log[i] == s.log[i]; }
    }
  }

  lemma TakeCursorInv(w: Width, env: Env, keys: seq<seq<Byte>>, s: World, v: nat)
    requires CursorInv(w, keys, s) && v < |s.workers| && |s.log| < |keys|
    ensures CursorInv(w, keys, TakeWorld(w, env, keys, s, v))
  {
    var r := TakeWorld(w, env, keys, s, v);
    CursorReadInv(w, keys, s);
    forall i | 0 <= i < |r.log|
      ensures r.log[i].key == keys[i] && r.log[i].worker < |r.workers|
    {
      if i < |s.log| { assert r.log[i] == s.log[i]; }
    }
  }

  lemma TakeJobInv(w: Width, env: Env, keys: seq<seq<Byte>>, s: World, v: nat)
    requires CursorInv(w, keys, s) && JobInv(s) && v < |s.workers| && s.workers[v].Running? && |s.log| < |keys|
    ensures JobInv(TakeWorld(w, env, keys, s, v))
  {
    SumsUpdate(s.workers, v, Running(s.workers[v].tally + 1));
  }

  lemma TakeReportInv(w: Width, env: Env, keys: seq<seq<Byte>>, s: World, v: nat)
    requires CursorInv(w, keys, s) && ReportInv(env, s) && v < |s.workers| && s.workers[v].Running? && |s.log| < |keys|
    ensures ReportInv(env, TakeWorld(w, env, keys, s, v))
  {
    var r := TakeWorld(w, env, keys, s, v);
    forall u | 0 <= u < |r.workers| && r.workers[u].Reported?
      ensures r.cursor.finished || env.interrupted(u, r.workers[u].tally)
    {
      assert r.workers[u] == s.workers[u];
    }
  }

  lemma StepInvTake(w: Width, env: Env, keys: seq<seq<Byte>>, dest0: map<Key, Value>, s: World, v: nat)
    requires Inv(w, env, keys, dest0, s) && v < |s.workers| && s.workers[v].Running?
    requires !env.interrupted(v, s.workers[v].tally) && |s.log| < |keys|
    ensures Inv(w, env, keys, dest0, Step(w, env, s, v))
    ensures |Step(w, env, s, v).log| == |s.log| + 1
    ensures Step(w, env, s, v).workers[v] == Running(s.workers[v].tally + 1)
  {
    TakeInv(w, env, keys, dest0, s, v);
    TakeSteps(w, env, keys, s, v);
    InvTransfer(w, env, keys, dest0, TakeWorld(w, env, keys, s, v), Step(w, env, s, v));
  }

  /** The step of a running, uninterrupted worker with a record left is
      `TakeWorld`: it logs one record and counts it. */
  lemma TakeSteps(w: Width, env: Env, keys: seq<seq<Byte>>, s: World, v: nat)
    requires CursorInv(w, keys, s) && FateInv(w, env, s) && v < |s.workers| && s.workers[v].Running?
    requires !env.interrupted(v, s.workers[v].tally) && |s.log| < |keys|
    ensures Step(w, env, s, v) == TakeWorld(w, env, keys, s, v)
    ensures |Step(w, env, s, v).log| == |s.log| + 1
    ensures Step(w, env, s, v).workers[v] == Running(s.workers[v].tally + 1)
  {
    TakeShape(w, env, keys, s, v);
  }

  /** The invariant carried across an equation between worlds. As a lemma
      the equation is used as a rewrite; asserted inline, the solver unfolds
      the invariant on both sides and the step proof costs several times
      as much. */
  lemma InvTransfer(w: Width, env: Env, keys: seq<seq<Byte>>, dest0: map<Key, Value>, a: World, b: World)
    requires a == b && Inv(w, env, keys, dest0, a)
    ensures Inv(w, env, keys, dest0, b)
  {
  }

  lemma TakeInv(w: Width, env: Env, keys: seq<seq<Byte>>, dest0: map<Key, Value>, s: World, v: nat)
    requires Inv(w, env, keys, dest0, s) && v < |s.workers| && s.workers[v].Running?
    requires !env.interrupted(v, s.workers[v].tally) && |s.log| < |keys|
    ensures Inv(w, env, keys, dest0, TakeWorld(w, env, keys, s, v))
  {
    TakeCursorInv(w, env, keys, s, v);
    TakeJobInv(w, env, keys, s, v);
    TakeFateInv(w, env, keys, s, v);
    TakeDestInv(w, env, keys, dest0, s, v);
    TakeReportInv(w, env, keys, s, v);
  }

  /** Every step keeps the invariant. */
  lemma StepInv(w: Width, env: Env, keys: seq<seq<Byte>>, dest0: map<Key, Value>, s: World, v: nat)
    requires Inv(w, env, keys, dest0, s) && v < |s.workers|
    ensures Inv(w, env, keys, dest0, Step(w, env, s, v))
    ensures |s.log| <= |Step(w, env, s, v).log|
  {
    if s.workers[v].Running? {
      if env.interrupted(v, s.workers[v].tally) || |s.log| == |keys| {
        StepInvReported(w, env, keys, dest0, s, v);
      } else {
        StepInvTake(w, env, keys, dest0, s, v);
      }
    }
  }

  lemma {:induction false} RunInv(w: Width, env: Env, keys: seq<seq<Byte>>, dest0: map<Key, Value>, s: World, schedule: seq<nat>)
    requires Inv(w, env, keys, dest0, s) && SyncedKeyJournal.ValidSchedule(|s.workers|, schedule)
    ensures Inv(w, env, keys, dest0, Run(w, env, s, schedule))
    decreases |schedule|
  {
    if |schedule| > 0 {
      StepInv(w, env, keys, dest0, s, schedule[0]);
      RunInv(w, env, keys, dest0, Step(w, env, s, schedule[0]), schedule[1..]);
    }
  }

  // ---------------------------------------------------------------------------
  // Theorems

  /** `finished()` holds exactly when every started worker has fired
      `workerFinished`, and `finishedWorkers` never exceeds `workerCount`. */
  lemma FinishedIffAllReported(w: Width, env: Env, data: seq<Byte>, keys: seq<seq<Byte>>, dest0: map<Key, Value>,
                               workerCount: nat, schedule: seq<nat>)
    requires DecodeWith(w, Journal(Read, data, false)) == Ok(keys)
    requires SyncedKeyJournal.ValidSchedule(workerCount, schedule)
    ensures var s := Run(w, env, Begin(data, workerCount, dest0), schedule);
      && s.job.finishedWorkers <= s.job.workerCount
      && (Finished(s.job) <==> forall v :: 0 <= v < workerCount ==> s.workers[v].Reported?)
  {
    var s0 := Begin(data, workerCount, dest0);
    BeginInv(w, env, data, keys, workerCount, dest0);
    RunInv(w, env, keys, dest0, s0, schedule);
    ReportedCountAll(Run(w, env, s0, schedule).workers);
  }

  lemma {:induction false} ReportedSumAll(ws: seq<WorkerState>)
    requires forall v :: 0 <= v < |ws| ==> ws[v].Reported?
    ensures ReportedSum(ws) == TallySum(ws)
  {
    if |ws| > 0 {
      assert forall v :: 0 <= v < |ws| - 1 ==> ws[1..][v] == ws[v + 1];
      ReportedSumAll(ws[1..]);
    }
  }

  /** What a completed job leaves behind: `numberProcessed()` is the number
      of records in the journal; every record was taken exactly once, in
      journal order, and either mirrored or dead-lettered; a record is
      dead-lettered exactly when its fetch yielded nothing, and a mirrored
      record's store got through exactly when some store attempt did; the
      failure journal is a valid journal holding exactly the dead-lettered
      keys, in the order they failed; the destination kept every value it
      had, holds every key a store got through for, and gained no key that
      was not mirrored. */
  ghost predicate Completed(w: Width, env: Env, keys: seq<seq<Byte>>, dest0: map<Key, Value>, s: World)
  {
    && NumberProcessed(s.job) == |keys|
    && |s.log| == |keys|
    && (forall i :: 0 <= i < |keys| ==> s.log[i].key == keys[i])
    && (forall i :: 0 <= i < |keys| ==> (s.log[i].fate.DeadLettered? <==> NoVersion(env, s.log[i])))
    && (forall i :: 0 <= i < |keys| ==> (s.log[i].fate.DeadLettered? || s.log[i].fate.Mirrored?))
    && (forall i :: 0 <= i < |keys| && s.log[i].fate.Mirrored? ==> (s.log[i].fate.reached <==> Reaches(env, s.log[i])))
    && AllFit(w, DeadKeys(s.log))
    && DecodeWith(w, Journal(Read, s.failed.data, false)) == Ok(DeadKeys(s.log))
    && (forall k :: k in dest0 ==> k in s.dest && s.dest[k] == dest0[k])
    && (forall i :: 0 <= i < |keys| && s.log[i].fate.Mirrored? && s.log[i].fate.reached ==> s.log[i].key in s.dest)
    && (forall k :: k in s.dest ==> k in dest0 || exists i :: 0 <= i < |keys| && keys[i] == k && s.log[i].fate.Mirrored?)
  }

  /** The job's promise to the driver: with at least one worker and no
      interrupt, once `finished()` holds the job has completed. */
  lemma JobOutcome(w: Width, env: Env, data: seq<Byte>, keys: seq<seq<Byte>>, dest0: map<Key, Value>,
                   workerCount: nat, schedule: seq<nat>)
    requires DecodeWith(w, Journal(Read, data, false)) == Ok(keys)
    requires SyncedKeyJournal.ValidSchedule(workerCount, schedule)
    requires workerCount > 0
    requires forall v, t :: !env.interrupted(v, t)
    requires Finished(Run(w, env, Begin(data, workerCount, dest0), schedule).job)
    ensures Completed(w, env, keys, dest0, Run(w, env, Begin(data, workerCount, dest0), schedule))
  {
    var s0 := Begin(data, workerCount, dest0);
    BeginInv(w, env, data, keys, workerCount, dest0);
    RunInv(w, env, keys, dest0, s0, schedule);
    var s := Run(w, env, s0, schedule);
    ReportedCountAll(s.workers);
    assert s.workers[0].Reported?;
    assert s.cursor.finished;
    ReportedSumAll(s.workers);
    RoundTripWith(w, DeadKeys(s.log));
  }

  // ---------------------------------------------------------------------------
  // Progress

  function Occurrences(schedule: seq<nat>, v: nat): nat
  {
    if |schedule| == 0 then 0
    else (if schedule[0] == v then 1 else 0) + Occurrences(schedule[1..], v)
  }

  lemma StepKeepsOthers(w: Width, env: Env, s: World, u: nat, v: nat)
    requires u < |s.workers| && v < |s.workers|
    requires u != v || s.workers[v].Reported?
    ensures Step(w, env, s, u).workers[v] == s.workers[v]
  {
  }

  lemma {:induction false} RunKeepsReported(w: Width, env: Env, s: World, schedule: seq<nat>, v: nat)
    requires SyncedKeyJournal.ValidSchedule(|s.workers|, schedule) && v < |s.workers| && s.workers[v].Reported?
    ensures Run(w, env, s, schedule).workers[v] == s.workers[v]
    decreases |schedule|
  {
    if |schedule| > 0 {
      StepKeepsOthers(w, env, s, schedule[0], v);
      RunKeepsReported(w, env, Step(w, env, s, schedule[0]), schedule[1..], v);
    }
  }

  /** One step by worker `u` as seen by a running worker `v`: the
      invariant holds after it, and `v` either reported, or was not the one
      stepping, or took a record. */
  lemma StepProgress(w: Width, env: Env, keys: seq<seq<Byte>>, dest0: map<Key, Value>, s: World, u: nat, v: nat)
    requires Inv(w, env, keys, dest0, s) && u < |s.workers| && v < |s.workers| && s.workers[v].Running?
    ensures var s1 := Step(w, env, s, u);
      s1.workers[v].Reported? || u != v || |s1.log| == |s.log| + 1
  {
    if u == v && !env.interrupted(v, s.workers[v].tally) && |s.log| < |keys| {
      StepInvTake(w, env, keys, dest0, s, v);
    }
  }

  /** A worker given more turns than there are records left reports: each of
      its turns either takes a record or ends its loop. */
  lemma {:induction false} EnoughTurnsReport(w: Width, env: Env, keys: seq<seq<Byte>>, dest0: map<Key, Value>,
                                             s: World, schedule: seq<nat>, v: nat)
    requires Inv(w, env, keys, dest0, s) && SyncedKeyJournal.ValidSchedule(|s.workers|, schedule) && v < |s.workers|
    requires Occurrences(schedule, v) > |keys| - |s.log|
    ensures Run(w, env, s, schedule).workers[v].Reported?
    decreases |schedule|
  {
    if s.workers[v].Reported? {
      RunKeepsReported(w, env, s, schedule, v);
    } else {
      var u := schedule[0];
      var s1 := Step(w, env, s, u);
      StepInv(w, env, keys, dest0, s, u);
      StepProgress(w, env, keys, dest0, s, u, v);
      if s1.workers[v].Reported? {
        RunKeepsReported(w, env, s1, schedule[1..], v);
      } else {
        EnoughTurnsReport(w, env, keys, dest0, s1, schedule[1..], v);
      }
    }
  }

  /** The job finishes under any schedule that gives every worker more turns
      than the journal has records. */
  lemma FairScheduleFinishes(w: Width, env: Env, data: seq<Byte>, keys: seq<seq<Byte>>, dest0: map<Key, Value>,
                             workerCount: nat, schedule: seq<nat>)
    requires DecodeWith(w, Journal(Read, data, false)) == Ok(keys)
    requires SyncedKeyJournal.ValidSchedule(workerCount, schedule)
    requires forall v :: 0 <= v < workerCount ==> Occurrences(schedule, v) > |keys|
    ensures Finished(Run(w, env, Begin(data, workerCount, dest0), schedule).job)
  {
    var s0 := Begin(data, workerCount, dest0);
    BeginInv(w, env, data, keys, workerCount, dest0);
    forall v | 0 <= v < workerCount
      ensures Run(w, env, s0, schedule).workers[v].Reported?
    {
      EnoughTurnsReport(w, env, keys, dest0, s0, schedule, v);
    }
    FinishedIffAllReported(w, env, data, keys, dest0, workerCount, schedule);
  }

  /** Without interrupts, a schedule giving each of at least one worker more
      turns than the journal has records ends with the job finished and
      completed. */
  lemma FairJobCompletes(w: Width, env: Env, data: seq<Byte>, keys: seq<seq<Byte>>, dest0: map<Key, Value>,
                         workerCount: nat, schedule: seq<nat>)
    requires DecodeWith(w, Journal(Read, data, false)) == Ok(keys)
    requires SyncedKeyJournal.ValidSchedule(workerCount, schedule)
    requires workerCount > 0
    requires forall v, t :: !env.interrupted(v, t)
    requires forall v :: 0 <= v < workerCount ==> Occurrences(schedule, v) > |keys|
    ensures var s := Run(w, env, Begin(data, workerCount, dest0), schedule);
      Finished(s.job) && Completed(w, env, keys, dest0, s)
  {
    FairScheduleFinishes(w, env, data, keys, dest0, workerCount, schedule);
    JobOutcome(w, env, data, keys, dest0, workerCount, schedule);
  }

  // ---------------------------------------------------------------------------
  // A whole job

  /** The scenario's records, in journal order. */
  const ScenarioKeys: seq<seq<Byte>> := [[1], [2], [3]]

  /** The source of the scenario: `[2]` is missing (every fetch returns an
      empty array); any other key has one version, `[9]` followed by the key. */
  function ScenarioEnv(): Env
  {
    Env((v: nat, t: nat) => false,
        (v: nat, t: nat, k: Key, a: nat) => if k == [2] then Versions([]) else Versions([[9] + k]),
        (v: nat, t: nat, k: Key, a: nat) => StoreReached)
  }

  lemma ScenarioTurns(schedule: seq<nat>)
    requires Occurrences(schedule, 0) > 3 && Occurrences(schedule, 1) > 3
    ensures forall v :: 0 <= v < 2 ==> Occurrences(schedule, v) > |ScenarioKeys|
  {
  }

  lemma ScenarioUninterrupted()
    ensures forall v, t :: !ScenarioEnv().interrupted(v, t)
  {
  }

  lemma ScenarioFates(e: Event)
    ensures NoVersion(ScenarioEnv(), e) <==> e.key == [2]
    ensures Reaches(ScenarioEnv(), e)
  {
    var env := ScenarioEnv();
    FirstFetchAnswers(FetchFor(env, e.worker, e.round, e.key));
    assert StoreFor(env, e.worker, e.round, e.key)(0).StoreReached?;
  }

  lemma ScenarioDeadKeys(log: seq<Event>)
    requires |log| == 3 && log[0].key == [1] && log[1].key == [2] && log[2].key == [3]
    requires !log[0].fate.DeadLettered? && log[1].fate.DeadLettered? && !log[2].fate.DeadLettered?
    ensures DeadKeys(log) == [[2]]
  {
    var l1, l2 := log[..1], log[..2];
    assert l2[..1] == l1 && l1[..0] == [] && log[..2] == l2;
    assert DeadKeys(l1) == [] by {
      assert l1[0] == log[0];
    }
    assert DeadKeys(l2) == [[2]] by {
      assert l2[1] == log[1];
    }
  }

  /** A journal file holding keys `[1]`, `[2]`, `[3]` (`ScenarioJournal` is
      one under either width) with `[2]` missing at the source, an empty
      destination and two workers: under any schedule giving each worker
      more than three turns the job finishes, `numberProcessed()` is 3, the
      destination holds `[1]` and `[3]` (and nothing else), and the failure
      journal reads back as exactly `[[2]]`. */
  lemma ThreeKeyScenario(w: Width, data: seq<Byte>, schedule: seq<nat>)
    requires DecodeWith(w, Journal(Read, data, false)) == Ok(ScenarioKeys)
    requires SyncedKeyJournal.ValidSchedule(2, schedule)
    requires Occurrences(schedule, 0) > 3 && Occurrences(schedule, 1) > 3
    ensures var s := Run(w, ScenarioEnv(), Begin(data, 2, map[]), schedule);
      && Finished(s.job)
      && NumberProcessed(s.job) == 3
      && s.dest.Keys == {[1], [3]}
      && DecodeWith(w, Journal(Read, s.failed.data, false)) == Ok([[2]])
  {
    ScenarioCompletes(w, data, schedule);
    ScenarioLog(w, Run(w, ScenarioEnv(), Begin(data, 2, map[]), schedule));
  }

  /** The scenario's job finishes and completes. */
  lemma ScenarioCompletes(w: Width, data: seq<Byte>, schedule: seq<nat>)
    requires DecodeWith(w, Journal(Read, data, false)) == Ok(ScenarioKeys)
    requires SyncedKeyJournal.ValidSchedule(2, schedule)
    requires Occurrences(schedule, 0) > 3 && Occurrences(schedule, 1) > 3
    ensures var s := Run(w, ScenarioEnv(), Begin(data, 2, map[]), schedule);
      Finished(s.job) && Completed(w, ScenarioEnv(), ScenarioKeys, map[], s)
  {
    ScenarioTurns(schedule);
    ScenarioUninterrupted();
    FairJobCompletes(w, ScenarioEnv(), data, ScenarioKeys, map[], 2, schedule);
  }

  /** The scenario's journal file: keys `[1]`, `[2]`, `[3]` written under
      the width. */
  function ScenarioJournal(w: Width): (data: seq<Byte>)
    ensures DecodeWith(w, Journal(Read, data, false)) == Ok(ScenarioKeys)
  {
    var keys := ScenarioKeys;
    assert AllFit(w, keys) by {
      forall i | 0 <= i < |keys| ensures Fits(w, keys[i]) { }
    }
    EncodedHolds(w, keys);
    EncodeWith(w, keys)
  }

  /** The fates of the scenario's three records. */
  lemma ScenarioFatesOf(log: seq<Event>)
    requires |log| == 3 && log[0].key == [1] && log[1].key == [2] && log[2].key == [3]
    requires forall i :: 0 <= i < 3 ==> (log[i].fate.DeadLettered? <==> NoVersion(ScenarioEnv(), log[i]))
    requires forall i :: 0 <= i < 3 ==> (log[i].fate.DeadLettered? || log[i].fate.Mirrored?)
    requires forall i :: 0 <= i < 3 && log[i].fate.Mirrored? ==> (log[i].fate.reached <==> Reaches(ScenarioEnv(), log[i]))
    ensures log[0].fate.Mirrored? && log[0].fate.reached
    ensures log[1].fate.DeadLettered?
    ensures log[2].fate.Mirrored? && log[2].fate.reached
  {
    ScenarioFates(log[0]);
    ScenarioFates(log[1]);
    ScenarioFates(log[2]);
  }

  /** What completion means for the scenario's three records. */
  lemma ScenarioLog(w: Width, s: World)
    requires Completed(w, ScenarioEnv(), ScenarioKeys, map[], s)
    ensures NumberProcessed(s.job) == 3
    ensures s.dest.Keys == {[1], [3]}
    ensures DecodeWith(w, Journal(Read, s.failed.data, false)) == Ok([[2]])
  {
    ScenarioRecords(w, s);
    ScenarioDeadKeys(s.log);
    ScenarioDest(ScenarioKeys, map[], s.log, s.dest);
  }

  lemma ScenarioRecords(w: Width, s: World)
    requires Completed(w, ScenarioEnv(), ScenarioKeys, map[], s)
    ensures |s.log| == 3 && s.log[0].key == [1] && s.log[1].key == [2] && s.log[2].key == [3]
    ensures s.log[0].fate.Mirrored? && s.log[0].fate.reached
    ensures s.log[1].fate.DeadLettered?
    ensures s.log[2].fate.Mirrored? && s.log[2].fate.reached
  {
    var keys := ScenarioKeys;
    var log := s.log;
    assert log[0].key == keys[0] && log[1].key == keys[1] && log[2].key == keys[2];
    ScenarioFatesOf(log);
  }

  lemma ScenarioDest(keys: seq<seq<Byte>>, dest0: map<Key, Value>, log: seq<Event>, dest: map<Key, Value>)
    requires keys == ScenarioKeys && dest0 == map[] && |log| == |keys|
    requires log[0].fate.Mirrored? && log[0].fate.reached && log[1].fate.DeadLettered?
    requires log[2].fate.Mirrored? && log[2].fate.reached
    requires forall i :: 0 <= i < |keys| ==> log[i].key == keys[i]
    requires forall i :: 0 <= i < |keys| && log[i].fate.Mirrored? && log[i].fate.reached ==> log[i].key in dest
    requires forall k :: k in dest ==> k in dest0 || exists i :: 0 <= i < |keys| && keys[i] == k && log[i].fate.Mirrored?
    ensures dest.Keys == {[1], [3]}
  {
    assert log[0].key == keys[0] && log[2].key == keys[2];
    assert [1] in dest && [3] in dest;
    forall k | k in dest ensures k == [1] || k == [3] {
      var i :| 0 <= i < |keys| && keys[i] == k && log[i].fate.Mirrored?;
    }
  }


}
