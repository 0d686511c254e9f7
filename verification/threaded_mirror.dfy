/** The mirror job: per-key fetch and store with bounded retries, the
    dead-letter journal, and the job's completion bookkeeping. The source and
    destination clusters are oracles: `fetch(a)` and `store(a)` give the
    outcome of attempt `a` for the key at hand.
 */
module ThreadedMirror {
  import opened Base
  import opened KeyJournal
  import opened Framing

  /** `MAX_TRIES`. */
  const MaxTries: nat := 3

  type Key = seq<Byte>
  type Value = seq<Byte>

  /** One fetch call: it throws, `getRiakObjects()` returns null, or it
      returns an array of sibling versions (possibly empty). */
  datatype FetchOutcome = FetchThrows | FetchNull | Versions(values: seq<Value>)

  /** One store call: it throws before the destination applied it (the
      connection broke); it throws after the destination applied it (the
      reply was lost, or timed out); or the conditional store reaches the
      destination and returns, where an existing key raises the match found
      exception that the writer swallows. An applied store, reached or not,
      creates the key only if it is absent. */
  datatype StoreOutcome = StoreThrows | StoreAppliedThenThrows | StoreReached

  /** The call put the conditional store into effect at the destination. */
  predicate Applied(o: StoreOutcome)
  {
    !o.StoreThrows?
  }

  /** `readObject`: the array it returns (null as `None`) and the number of
      fetch calls made. */
  datatype FetchResult = FetchResult(objects: Option<seq<Value>>, calls: nat)

  /** The loop of `readObject` from attempt `i` on: it stops at the first
      call that yields an array, and otherwise tries until `MAX_TRIES`. */
  function ReadObjectFrom(fetch: nat -> FetchOutcome, i: nat): (r: FetchResult)
    requires i < MaxTries
    ensures i < r.calls <= MaxTries
    ensures r.objects.Some? <==> exists a :: i <= a < MaxTries && fetch(a).Versions?
    ensures r.objects.Some? ==> fetch(r.calls - 1) == Versions(r.objects.value)
    ensures forall a :: i <= a < r.calls - 1 ==> !fetch(a).Versions?
    ensures r.objects.None? ==> r.calls == MaxTries
    decreases MaxTries - i
  {
    match fetch(i)
    case Versions(vs) => FetchResult(Some(vs), i + 1)
    case _ =>
      if i + 1 == MaxTries then FetchResult(None, MaxTries)
      else ReadObjectFrom(fetch, i + 1)
  }

  /** `readObject`: between one and `MAX_TRIES` fetch calls; null exactly
      when no call yields an array; otherwise the array of the first call
      that does, after which no further call is made. */
  function ReadObject(fetch: nat -> FetchOutcome): (r: FetchResult)
    ensures 1 <= r.calls <= MaxTries
    ensures r.objects.Some? <==> exists a :: 0 <= a < MaxTries && fetch(a).Versions?
    ensures r.objects.Some? ==> fetch(r.calls - 1) == Versions(r.objects.value)
    ensures forall a :: 0 <= a < r.calls - 1 ==> !fetch(a).Versions?
    ensures r.objects.None? ==> r.calls == MaxTries
  {
    ReadObjectFrom(fetch, 0)
  }

  /** A create-only put: an existing destination value is never replaced. */
  function PutIfAbsent(dest: map<Key, Value>, key: Key, v: Value): map<Key, Value>
  {
    if key in dest then dest else dest[key := v]
  }

  /** `storeObject`: the destination afterwards, the number of store calls,
      and whether one of them got through. */
  datatype StoreResult = StoreResult(dest: map<Key, Value>, calls: nat, reached: bool)

  /** The loop of `storeObject` from attempt `i` on, applied to `dest`. */
  function StoreObjectFrom(store: nat -> StoreOutcome, i: nat, dest: map<Key, Value>, key: Key, v: Value): (r: StoreResult)
    requires i < MaxTries
    ensures i < r.calls <= MaxTries
    ensures r.reached <==> exists a :: i <= a < MaxTries && store(a).StoreReached?
    ensures r.reached ==> store(r.calls - 1).StoreReached?
    ensures forall a :: i <= a < r.calls - 1 ==> !store(a).StoreReached?
    ensures !r.reached ==> r.calls == MaxTries
    ensures r.dest == if exists a :: i <= a < r.calls && Applied(store(a)) then PutIfAbsent(dest, key, v) else dest
    decreases MaxTries - i
  {
    match store(i)
    case StoreReached => StoreResult(PutIfAbsent(dest, key, v), i + 1, true)
    case _ =>
      var dest' := if store(i).StoreAppliedThenThrows? then PutIfAbsent(dest, key, v) else dest;
      if i + 1 == MaxTries then StoreResult(dest', MaxTries, false)
      else StoreObjectFrom(store, i + 1, dest', key, v)
  }

  /** `storeObject`: at most `MAX_TRIES` calls, returning after the first
      that does not throw; it never throws itself. A destination that
      already holds the key keeps its value and the call counts as success. */
  function StoreObject(store: nat -> StoreOutcome, dest: map<Key, Value>, key: Key, v: Value): (r: StoreResult)
    ensures 1 <= r.calls <= MaxTries
    ensures r.reached <==> exists a :: 0 <= a < MaxTries && store(a).StoreReached?
    ensures forall a :: 0 <= a < r.calls - 1 ==> !store(a).StoreReached?
    ensures r.reached ==> store(r.calls - 1).StoreReached?
    ensures !r.reached ==> r.calls == MaxTries
    ensures key in dest ==> r.dest == dest
    ensures r.dest == dest || (key !in dest && r.dest == dest[key := v])
    ensures key !in dest ==> (key in r.dest <==> exists a :: 0 <= a < r.calls && Applied(store(a)))
  {
    StoreObjectFrom(store, 0, dest, key, v)
  }

  /** What became of one key taken from the journal. */
  datatype Fate =
    | Mirrored(fetchCalls: nat, storeCalls: nat, reached: bool)
    | DeadLettered(fetchCalls: nat)
    | Escaped(fetchCalls: nat)   // the failure journal threw; the worker stops

  datatype Handled = Handled(dest: map<Key, Value>, failed: Journal, fate: Fate)

  /** The fetch yielded a non-empty array, whose first version is stored. */
  predicate HasVersion(f: FetchResult)
  {
    f.objects.Some? && |f.objects.value| > 0
  }

  /** The body of the worker loop's inner `try` for one key. When the fetch
      yields nothing, the key goes to the failure journal; if that append
      throws, the `catch` appends it again, which throws the same way and
      escapes the loop. */
  function ProcessKey(w: Width, fetch: nat -> FetchOutcome, store: nat -> StoreOutcome,
                      dest: map<Key, Value>, failed: Journal, key: Key): (h: Handled)
    ensures var f := ReadObject(fetch);
      && (h.fate.Mirrored? <==> HasVersion(f))
      && (h.fate.Mirrored? ==> h.failed == failed && h.fate.fetchCalls == f.calls)
      && (h.fate.Mirrored? ==> var s := StoreObject(store, dest, key, f.objects.value[0]);
            h.dest == s.dest && h.fate.storeCalls == s.calls && h.fate.reached == s.reached)
      && (!h.fate.Mirrored? ==> h.dest == dest && h.fate.fetchCalls == f.calls)
      && (h.fate.DeadLettered? <==> !HasVersion(f) && WriteRecord(w, failed, Some(key)).Ok?)
      && (h.fate.DeadLettered? ==> h.failed == WriteRecord(w, failed, Some(key)).value)
      && (h.fate.Escaped? ==> h.failed == failed)
  {
    var f := ReadObject(fetch);
    if HasVersion(f) then
      var s := StoreObject(store, dest, key, f.objects.value[0]);
      Handled(s.dest, failed, Mirrored(f.calls, s.calls, s.reached))
    else
      match WriteRecord(w, failed, Some(key))
      case Ok(failed') => Handled(dest, failed', DeadLettered(f.calls))
      case Err(_) => Handled(dest, failed, Escaped(f.calls))
  }

  /** A fetch whose first call yields an array makes exactly that one call. */
  lemma FirstFetchAnswers(fetch: nat -> FetchOutcome)
    requires fetch(0).Versions?
    ensures ReadObject(fetch) == FetchResult(Some(fetch(0).values), 1)
  {
  }

  /** Retry exhaustion: when no fetch attempt yields an array and the failure
      journal takes the append, the key is dead-lettered after exactly
      `MAX_TRIES` fetch calls, its record appended once, and nothing is
      stored. */
  lemma FetchExhaustedDeadLetters(w: Width, fetch: nat -> FetchOutcome, store: nat -> StoreOutcome,
                                  dest: map<Key, Value>, failed: Journal, key: Key)
    requires forall a :: 0 <= a < MaxTries ==> !fetch(a).Versions?
    requires failed.mode == Write && !failed.closed && Fits(w, key)
    ensures ProcessKey(w, fetch, store, dest, failed, key)
         == Handled(dest, failed.(data := failed.data + FrameOf(w, key)), DeadLettered(MaxTries))
  {
    WriteRecordAppends(w, failed, key);
  }

  /** An empty array is not retried: the key is dead-lettered after the one
      fetch call that returned it. */
  lemma EmptyFetchDeadLettersAtOnce(w: Width, fetch: nat -> FetchOutcome, store: nat -> StoreOutcome,
                                    dest: map<Key, Value>, failed: Journal, key: Key)
    requires fetch(0) == Versions([])
    requires failed.mode == Write && !failed.closed && Fits(w, key)
    ensures ProcessKey(w, fetch, store, dest, failed, key)
         == Handled(dest, failed.(data := failed.data + FrameOf(w, key)), DeadLettered(1))
  {
    FirstFetchAnswers(fetch);
    WriteRecordAppends(w, failed, key);
  }

  /** A store that throws on every attempt, never applied, is not a
      failure: the key is counted as mirrored, the failure journal is
      untouched and the destination unchanged, after exactly `MAX_TRIES`
      store calls. */
  lemma StoreExhaustedNotDeadLettered(w: Width, fetch: nat -> FetchOutcome, store: nat -> StoreOutcome,
                                      dest: map<Key, Value>, failed: Journal, key: Key)
    requires HasVersion(ReadObject(fetch))
    requires forall a :: 0 <= a < MaxTries ==> store(a).StoreThrows?
    ensures ProcessKey(w, fetch, store, dest, failed, key)
         == Handled(dest, failed, Mirrored(ReadObject(fetch).calls, MaxTries, false))
  {
  }

  /** A store applied by the destination but whose every call threw still
      creates an absent key, which is counted as mirrored without a store
      that got through. */
  lemma AppliedStoreLandsUnreached(w: Width, fetch: nat -> FetchOutcome, store: nat -> StoreOutcome,
                                   dest: map<Key, Value>, failed: Journal, key: Key, a: nat)
    requires key !in dest && HasVersion(ReadObject(fetch))
    requires forall b :: 0 <= b < MaxTries ==> !store(b).StoreReached?
    requires a < MaxTries && store(a).StoreAppliedThenThrows?
    ensures ProcessKey(w, fetch, store, dest, failed, key)
         == Handled(dest[key := ReadObject(fetch).objects.value[0]], failed,
                    Mirrored(ReadObject(fetch).calls, MaxTries, false))
  {
  }

  /** Create-only: a key the destination already holds keeps its value; the
      first store call that reaches the destination ends the retries and the
      key counts as mirrored, not failed. */
  lemma ExistingKeyKept(w: Width, fetch: nat -> FetchOutcome, store: nat -> StoreOutcome,
                        dest: map<Key, Value>, failed: Journal, key: Key)
    requires key in dest && HasVersion(ReadObject(fetch)) && store(0).StoreReached?
    ensures ProcessKey(w, fetch, store, dest, failed, key)
         == Handled(dest, failed, Mirrored(ReadObject(fetch).calls, 1, true))
  {
  }

  /** Only the first sibling version is stored. */
  lemma FirstVersionStored(w: Width, fetch: nat -> FetchOutcome, store: nat -> StoreOutcome,
                           dest: map<Key, Value>, failed: Journal, key: Key)
    requires key !in dest && HasVersion(ReadObject(fetch)) && store(0).StoreReached?
    ensures ProcessKey(w, fetch, store, dest, failed, key).dest
         == dest[key := ReadObject(fetch).objects.value[0]]
  {
  }

  // ---------------------------------------------------------------------------
  // Job bookkeeping

  /** The job's counters; all three are read and written under the job's
      monitor. `workerCount` is a Java `int` and may be negative. */
  datatype Job = Job(workerCount: int, finishedWorkers: int, processedCount: int)

  /** The constructor's counters. */
  function NewJob(workerCount: int): (job: Job)
    ensures job.workerCount == workerCount && job.finishedWorkers == 0 && job.processedCount == 0
  {
    Job(workerCount, 0, 0)
  }

  /** `workerFinished(n)`. */
  function WorkerFinished(job: Job, n: int): (r: Job)
    ensures r.workerCount == job.workerCount
    ensures r.finishedWorkers == job.finishedWorkers + 1
    ensures r.processedCount == job.processedCount + n
  {
    job.(finishedWorkers := job.finishedWorkers + 1, processedCount := job.processedCount + n)
  }

  /** `finished()`. */
  function Finished(job: Job): bool
  {
    job.finishedWorkers == job.workerCount
  }

  /** `numberProcessed()`. */
  function NumberProcessed(job: Job): int
  {
    job.processedCount
  }

  /** `workerFinished` fired once per tally in `tallies`, in order. */
  function FinishAll(job: Job, tallies: seq<nat>): Job
    decreases |tallies|
  {
    if |tallies| == 0 then job else FinishAll(WorkerFinished(job, tallies[0]), tallies[1..])
  }

  function Sum(ns: seq<nat>): nat
  {
    if |ns| == 0 then 0 else ns[0] + Sum(ns[1..])
  }

  /** After the workers that have finished each fired `workerFinished` once:
      the job counts them, its total is the sum of their tallies, and it is
      finished exactly when all `workerCount` of them have reported. */
  lemma {:induction false} JobTotals(workerCount: int, tallies: seq<nat>)
    ensures var job := FinishAll(NewJob(workerCount), tallies);
      && job.finishedWorkers == |tallies|
      && NumberProcessed(job) == Sum(tallies)
      && (Finished(job) <==> |tallies| == workerCount)
  {
    FinishAllCounts(NewJob(workerCount), tallies);
  }

  lemma {:induction false} FinishAllCounts(job: Job, tallies: seq<nat>)
    ensures FinishAll(job, tallies).workerCount == job.workerCount
    ensures FinishAll(job, tallies).finishedWorkers == job.finishedWorkers + |tallies|
    ensures FinishAll(job, tallies).processedCount == job.processedCount + Sum(tallies)
    decreases |tallies|
  {
    if |tallies| > 0 {
      FinishAllCounts(WorkerFinished(job, tallies[0]), tallies[1..]);
    }
  }

  /** `run()` submits worker `i` with read connection `i` and write
      connection `i`, for `i` from 0 while `i < workerCount`; an index past
      either array throws after the earlier workers were already started. */
  datatype StartError = ArrayIndexOutOfBounds(started: nat)

  function StartWorkers<C>(readConns: seq<C>, writeConns: seq<C>, workerCount: int): (r: Result<(Job, seq<(C, C)>), StartError>)
    ensures r.Ok? <==> workerCount <= |readConns| && workerCount <= |writeConns|
    ensures r.Ok? ==> r.value.0 == NewJob(workerCount)
    ensures r.Ok? ==> |r.value.1| == (if workerCount < 0 then 0 else workerCount)
    ensures r.Ok? ==> forall i :: 0 <= i < |r.value.1| ==> r.value.1[i] == (readConns[i], writeConns[i])
    ensures r.Err? ==> r.error.started < workerCount
    ensures r.Err? ==> r.error.started == (if |readConns| < |writeConns| then |readConns| else |writeConns|)
  {
    var n := if workerCount < 0 then 0 else workerCount;
    var available := if |readConns| < |writeConns| then |readConns| else |writeConns|;
    if available < n then Err(ArrayIndexOutOfBounds(available))
    else Ok((NewJob(workerCount), seq(n, i requires 0 <= i < n => (readConns[i], writeConns[i]))))
  }
}
