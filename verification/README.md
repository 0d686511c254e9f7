# riak-data-migrator mirror core, in Dafny

This project models the part of riak-data-migrator that mirrors a bucket from
one Riak cluster to another:

- **the key journal** (`KeyJournal`): a binary file of key records, each one
  length byte followed by the raw key bytes. A journal is opened once, in READ
  or in WRITE mode. It can be closed any number of times. A static helper
  derives a journal's file name from a data file's name;
- **the synchronized cursor** (`SyncedKeyJournal`): a journal plus a `finished`
  flag. Every method is `synchronized`, so each `read` is one atomic step;
- **the mirror job** (`ThreadedMirror`): `workerCount` workers share one cursor
  over the bucket's keys and one failure (dead-letter) journal. Each worker
  loops: it takes a key, fetches it from the source with up to `MAX_TRIES = 3`
  attempts, and stores the first sibling version at the destination with a
  create-only store of up to 3 attempts. A key the fetch yields nothing for
  goes to the failure journal. On exit each worker reports its tally to the
  job, which is `finished()` once all of them have reported.

Modules follow the source files:

| file | module | models |
|---|---|---|
| `base.dfy` | `Base` | bytes, `Option`, `Result` |
| `key_journal.dfy` | `KeyJournal` | the journal as written, its round trip and its wrap-around defect |
| `framing.dfy` | `Framing` | a corrected four-byte length prefix, and a width selector so the cursor and job results hold for both framings |
| `synced_key_journal.dfy` | `SyncedKeyJournal` | the cursor as a pure transition function, generic in the journal's read |
| `read_partition.dfy` | `ReadPartition` | several callers draining one cursor under any interleaving |
| `threaded_mirror.dfy` | `ThreadedMirror` | per-key fetch/store retries, the dead-letter decision, the job counters, worker start-up |
| `mirror_run.dfy` | `MirrorRun` | the whole job: workers, cursor, failure journal and destination under any schedule |

Exceptions become `Err` values. I/O results become parameters:

- whether a file opens;
- the file's contents;
- fetch and store outcomes per attempt (`FetchThrows | FetchNull | Versions(vs)`
  and `StoreThrows | StoreAppliedThenThrows | StoreReached`, where the middle
  one is a store the destination applied although the call threw);
- the interrupt flag.

Concurrency is a schedule: a sequence of worker numbers. In `ReadPartition`
each entry is one atomic `read`. In `MirrorRun` each entry is one loop
iteration of that worker. The cursor read inside an iteration is atomic in the
source; the rest of the iteration is not. Two workers' failure-journal appends,
and two stores of a key listed twice, can land in an order other than the
order of their iterations, so the model fixes an order the source does not
(see `MirrorRun.JobOutcome` under Left out).

Behaviours of the code worth knowing:

- a fetch that returns an empty array is not retried. The key is
  dead-lettered after that one call (`ThreadedMirror.EmptyFetchDeadLettersAtOnce`);
- the cursor keeps no processed count, and it does not short-circuit after
  `finished`. A read after `finished` still asks the journal
  (`SyncedKeyJournal.ReadAfterFinishedDelegates`);
- the journal's length prefix is one byte. That is recorded under Findings;
- a record cut short by end of file comes back padded with zero bytes, so
  reading never fails on a journal opened for READ, whatever the file holds
  (`Framing.OneByteAlwaysDecodes`). The cursor and job results are stated for
  any file, through the keys it reads back as;
- a write after `close` is swallowed by the writer's 8192-byte buffer until a
  record would overflow it, and then it throws (`KeyJournal.WriteAfterCloseOverflows`).

## Model

| member | source | states |
|---|---|---|
| `KeyJournal.LowByte` | src/main/java/com/basho/proserv/datamigrator/io/KeyJournal.java:53 | the byte `write(int)` keeps of a key's length equals the length for keys under 256 bytes |
| `KeyJournal.Open` | src/main/java/com/basho/proserv/datamigrator/io/KeyJournal.java:27-43 | a null path is refused, then a file that cannot be opened; otherwise the journal has the requested mode and is open; a WRITE journal starts empty, a READ journal holds the file's bytes |
| `KeyJournal.WriteByteString` | src/main/java/com/basho/proserv/datamigrator/io/KeyJournal.java:45-55 | READ mode throws before the null check, a null key throws; on an open journal exactly 1 + \|key\| bytes are appended (length mod 256, then the key) and the earlier bytes are untouched; after `close` the file does not change, the record's bytes are added to the buffered count, and the write throws exactly when they would take that count past 8192 |
| `KeyJournal.WriteAfterCloseOverflows` | src/main/java/com/basho/proserv/datamigrator/io/KeyJournal.java:52-54 | on a journal just closed, a write throws exactly for keys of 8192 bytes or more, and a write that does not throw leaves the file as it was |
| `KeyJournal.WriteKey` | src/main/java/com/basho/proserv/datamigrator/io/KeyJournal.java:57-65 | READ mode throws, then a null bucket or key throws; otherwise the journal is unchanged |
| `KeyJournal.ReadByteString` | src/main/java/com/basho/proserv/datamigrator/io/KeyJournal.java:75-83 | a WRITE journal has no reader and throws; a closed stream throws; null exactly at end of data, with nothing consumed; otherwise the key is as long as the first byte says and input is consumed |
| `KeyJournal.ReadKey` | src/main/java/com/basho/proserv/datamigrator/io/KeyJournal.java:85-93 | WRITE mode throws; in READ mode it returns null and consumes nothing |
| `KeyJournal.Close` | src/main/java/com/basho/proserv/datamigrator/io/KeyJournal.java:104-117 | afterwards the journal is closed, with the same mode, bytes and buffered count; no error escapes |
| `KeyJournal.CloseIdempotent` | src/main/java/com/basho/proserv/datamigrator/io/KeyJournal.java:104-120 | a freshly opened journal is not closed; after one or more `close` calls it is closed, in the same state as after one call |
| `KeyJournal.ReadFirstRecord` | src/main/java/com/basho/proserv/datamigrator/io/KeyJournal.java:75-83 | reading a record whose key is under 256 bytes returns that key and leaves exactly the bytes after it |
| `KeyJournal.RoundTrip` | src/main/java/com/basho/proserv/datamigrator/io/KeyJournal.java:52-83 | keys under 256 bytes, empty ones included, read back with repeated `readByteString` are the same keys in the same order, followed by null |
| `KeyJournal.WriteAllFrames` | src/main/java/com/basho/proserv/datamigrator/io/KeyJournal.java:45-55 | writing keys one after another to an open WRITE journal appends their records in order, whatever their lengths |
| `KeyJournal.WriteThenRead` | src/main/java/com/basho/proserv/datamigrator/io/KeyJournal.java:27-117 | opening for WRITE, writing keys under 256 bytes, closing, then opening the file for READ and draining it gives back the keys |
| `KeyJournal.LongKeyTruncated` | src/main/java/com/basho/proserv/datamigrator/io/KeyJournal.java:52-81 | a key of 256 bytes or more is read back as its first \|key\| mod 256 bytes, and the rest of it is left to be read as further records |
| `KeyJournal.ZerosDecodeAsEmptyKeys` | src/main/java/com/basho/proserv/datamigrator/io/KeyJournal.java:75-83 | n zero bytes are read as n empty keys |
| `KeyJournal.LongKeyRoundTripFails` | src/main/java/com/basho/proserv/datamigrator/io/KeyJournal.java:52-83 | one key of 256 zero bytes is written and read back as 257 empty keys |
| `KeyJournal.LastIndexOf` | src/main/java/com/basho/proserv/datamigrator/io/KeyJournal.java:129 | -1 exactly when the character is absent; otherwise an index holding it, with no index after it holding it |
| `KeyJournal.CreateKeyPathFromPath` | src/main/java/com/basho/proserv/datamigrator/io/KeyJournal.java:127-140 | fails exactly on the empty path; otherwise the result is a prefix of the path followed by `.loadedkeys` or `.keys` |
| `KeyJournal.KeyPathCases` | src/main/java/com/basho/proserv/datamigrator/io/KeyJournal.java:128-139 | the empty path throws; a path without `.` loses its last character; otherwise the path is cut just before its last `.`; then the suffix for `load` is appended |
| `Framing.WriteWide` | src/main/java/com/basho/proserv/datamigrator/io/KeyJournal.java:45-55 | corrected writer: the same mode and null checks, a key too long for 32 bits refused; on an open journal four big-endian length bytes and then the key are appended; after `close` it buffers and overflows as `writeByteString` does |
| `Framing.ReadWide` | src/main/java/com/basho/proserv/datamigrator/io/KeyJournal.java:75-83 | corrected reader: the same mode and closed errors; null exactly at end of data; a record is returned only if the input is its four length bytes, the key, then the remaining input |
| `Framing.ReadRecordPops` | src/main/java/com/basho/proserv/datamigrator/io/KeyJournal.java:75-83 | under either framing, reading a journal that starts with a well-framed key returns that key and exactly the rest |
| `Framing.WriteRecordAppends` | src/main/java/com/basho/proserv/datamigrator/io/KeyJournal.java:52-54 | under either framing, writing a key that fits to an open WRITE journal appends exactly its record |
| `Framing.OneByteEncodesAsJournal` | src/main/java/com/basho/proserv/datamigrator/io/KeyJournal.java:52-54 | the one-byte framing of keys under 256 bytes is exactly the bytes `writeByteString` writes for them |
| `Framing.OneByteDecodesAsJournal` | src/main/java/com/basho/proserv/datamigrator/io/KeyJournal.java:75-83 | reading with the one-byte framing gives the same keys or error as draining the journal with `readByteString`, for every journal |
| `Framing.HoldsRead` | src/main/java/com/basho/proserv/datamigrator/io/KeyJournal.java:75-83 | one read from an open READ journal whose records are `keys` returns null, leaving the journal as it was, exactly when `keys` is empty; otherwise it returns the first key and leaves a journal whose records are the rest |
| `Framing.DecodedFit` | src/main/java/com/basho/proserv/datamigrator/io/KeyJournal.java:75-83 | every key read under a framing fits that framing's length prefix |
| `Framing.EncodedHolds` | src/main/java/com/basho/proserv/datamigrator/io/KeyJournal.java:52-83 | a journal written under either framing, opened for READ, has exactly the written keys as its records |
| `Framing.OneByteAlwaysDecodes` | src/main/java/com/basho/proserv/datamigrator/io/KeyJournal.java:75-83 | `readByteString` never throws on an open READ journal, whatever its bytes: a record cut short reads as zero padded, so every journal file has a list of records |
| `Framing.RoundTripWith` | src/main/java/com/basho/proserv/datamigrator/io/KeyJournal.java:52-83 | under either framing, keys that fit the length prefix read back as themselves, in order |
| `Framing.WideRoundTrip` | src/main/java/com/basho/proserv/datamigrator/io/KeyJournal.java:52-83 | with the four-byte prefix every key a Java array can hold reads back as itself, in order |
| `Framing.TruncatedRecordRefused` | src/main/java/com/basho/proserv/datamigrator/io/KeyJournal.java:80-81 | a record cut one byte short is an error for the corrected reader, while `readByteString` returns it with a zero byte in place of the missing one |
| `SyncedKeyJournal.New` | src/main/java/com/basho/proserv/datamigrator/io/SyncedKeyJournal.java:9-12 | a new cursor wraps the given journal and is not finished |
| `SyncedKeyJournal.Read` | src/main/java/com/basho/proserv/datamigrator/io/SyncedKeyJournal.java:14-20 | the journal's result and exception pass through unchanged; a null result sets `finished`; a key leaves `finished` as it was |
| `SyncedKeyJournal.Write` | src/main/java/com/basho/proserv/datamigrator/riak/ThreadedMirror.java:123 | the failure-journal append the worker calls: it fails exactly when the journal's write fails, and otherwise changes only the journal |
| `SyncedKeyJournal.FinishedMonotone` | src/main/java/com/basho/proserv/datamigrator/io/SyncedKeyJournal.java:14-24 | once `finished` is set, no sequence of reads and writes clears it |
| `SyncedKeyJournal.ReadAfterFinishedDelegates` | src/main/java/com/basho/proserv/datamigrator/io/SyncedKeyJournal.java:14-19 | a read after `finished` still asks the journal and returns the key it yields |
| `SyncedKeyJournal.AsWrittenCursorFinishesAtOnce` | src/main/java/com/basho/proserv/datamigrator/io/SyncedKeyJournal.java:14-20 | over the stubbed `KeyJournal.read()`, the first read of a READ journal returns null and finishes the cursor |
| `ReadPartition.StepInv` | src/main/java/com/basho/proserv/datamigrator/io/SyncedKeyJournal.java:14-20 | one caller's read hands it the next journal record if one is left, and otherwise finishes the cursor; the partition invariant is kept |
| `ReadPartition.RunInv` | src/main/java/com/basho/proserv/datamigrator/io/SyncedKeyJournal.java:14-20 | after any schedule the invariant holds, min(reads, records) records have been handed out, and the cursor is finished once there were more reads than records |
| `ReadPartition.Partition` | src/main/java/com/basho/proserv/datamigrator/io/SyncedKeyJournal.java:14-20 | for any journal file whose records, read until null, are `keys` (under the one-byte framing that is every file), under any interleaving of callers: the records handed out are those records in journal order, each to exactly one caller; each caller got exactly its share; once finished, every record has been handed out |
| `ReadPartition.FinishedOnlyWhenReadPastEnd` | src/main/java/com/basho/proserv/datamigrator/io/SyncedKeyJournal.java:16-18 | the cursor finishes only after a read that found no record left |
| `ThreadedMirror.ReadObjectFrom` | src/main/java/com/basho/proserv/datamigrator/riak/ThreadedMirror.java:142-150 | the fetch loop from attempt i stops at the first call that yields an array; otherwise it tries up to `MAX_TRIES` |
| `ThreadedMirror.ReadObject` | src/main/java/com/basho/proserv/datamigrator/riak/ThreadedMirror.java:140-152 | 1 to 3 fetch calls; null exactly when no call yields an array; otherwise the array of the first call that does, with no call after it |
| `ThreadedMirror.StoreObjectFrom` | src/main/java/com/basho/proserv/datamigrator/riak/ThreadedMirror.java:155-162 | the store loop from attempt i returns after the first call that does not throw, and otherwise gives up at `MAX_TRIES`; the key is created if absent exactly when one of the calls made was applied by the destination, whether or not it threw |
| `ThreadedMirror.StoreObject` | src/main/java/com/basho/proserv/datamigrator/riak/ThreadedMirror.java:154-163 | 1 to 3 store calls, ending at the first that does not throw; it never throws; the destination either is unchanged or gains the absent key with the given value, and an absent key is gained exactly when some call was applied, including one that threw afterwards |
| `ThreadedMirror.ProcessKey` | src/main/java/com/basho/proserv/datamigrator/riak/ThreadedMirror.java:117-130 | a key is mirrored exactly when the fetch gives a non-empty array, and then the first version is stored; otherwise it is appended to the failure journal, or escapes the loop when that append throws; the destination changes only for a mirrored key |
| `ThreadedMirror.FirstFetchAnswers` | src/main/java/com/basho/proserv/datamigrator/riak/ThreadedMirror.java:142-145 | a first fetch call that yields an array is the only call |
| `ThreadedMirror.FetchExhaustedDeadLetters` | src/main/java/com/basho/proserv/datamigrator/riak/ThreadedMirror.java:118-125 | when every fetch attempt throws or yields null, the key is dead-lettered after exactly 3 calls; its record is appended once and nothing is stored |
| `ThreadedMirror.EmptyFetchDeadLettersAtOnce` | src/main/java/com/basho/proserv/datamigrator/riak/ThreadedMirror.java:120-124 | an empty array from the first fetch dead-letters the key after that one call |
| `ThreadedMirror.StoreExhaustedNotDeadLettered` | src/main/java/com/basho/proserv/datamigrator/riak/ThreadedMirror.java:154-163 | a store that throws on all 3 attempts, none of them applied, leaves the key counted as mirrored; the failure journal and the destination are unchanged |
| `ThreadedMirror.AppliedStoreLandsUnreached` | src/main/java/com/basho/proserv/datamigrator/riak/ThreadedMirror.java:154-163 | when every store call throws but one was applied by the destination, an absent key is created with the first version and counted as mirrored, with no call having got through |
| `ThreadedMirror.ExistingKeyKept` | src/main/java/com/basho/proserv/datamigrator/riak/MirrorWriter.java:18-26 | a key the destination already holds keeps its value; one store call that gets through is enough, and the key counts as mirrored, not failed |
| `ThreadedMirror.FirstVersionStored` | src/main/java/com/basho/proserv/datamigrator/riak/ThreadedMirror.java:120-121 | the value stored for an absent key is the first sibling version fetched |
| `ThreadedMirror.NewJob` | src/main/java/com/basho/proserv/datamigrator/riak/ThreadedMirror.java:41-52 | a new job has the given worker count, no finished workers and nothing processed |
| `ThreadedMirror.WorkerFinished` | src/main/java/com/basho/proserv/datamigrator/riak/ThreadedMirror.java:66-69 | one more finished worker, and the tally added to the processed count |
| `ThreadedMirror.JobTotals` | src/main/java/com/basho/proserv/datamigrator/riak/ThreadedMirror.java:54-69 | after the workers that finished each report once, the job counts them, its total is the sum of their tallies, and it is finished exactly when the count equals `workerCount` |
| `ThreadedMirror.FinishAllCounts` | src/main/java/com/basho/proserv/datamigrator/riak/ThreadedMirror.java:66-69 | a sequence of reports adds its length to the finished workers and its sum to the processed count |
| `ThreadedMirror.StartWorkers` | src/main/java/com/basho/proserv/datamigrator/riak/ThreadedMirror.java:79-85 | start-up succeeds exactly when both connection arrays have at least `workerCount` entries; worker i gets read connection i and write connection i; otherwise the index error comes after all workers the shorter array allows were started |
| `MirrorRun.BeginInv` | src/main/java/com/basho/proserv/datamigrator/riak/ThreadedMirror.java:41-52 | the job invariant holds when the job starts, over any journal file that reads back as `keys`, with all workers idle |
| `MirrorRun.StepInvReported` | src/main/java/com/basho/proserv/datamigrator/riak/ThreadedMirror.java:107-112 | an interrupted worker, or one whose read finds no key left, ends: it is marked reported with its tally, the job's `workerFinished` counts that tally, no key is taken, and the invariant is kept |
| `MirrorRun.EscapeReports` | src/main/java/com/basho/proserv/datamigrator/riak/ThreadedMirror.java:114-136 | when the fetch yields nothing and the failure-journal append throws (in the `catch` as well), the exception leaves the loop and the `finally` reports a tally that counts the key taken; the key is logged as escaped, the cursor is past it, and the failure journal and destination are unchanged |
| `MirrorRun.CursorThrowsReports` | src/main/java/com/basho/proserv/datamigrator/riak/ThreadedMirror.java:107-136 | a cursor read that throws ends the loop; the worker reports the tally it had and nothing else changes |
| `MirrorRun.StepInvTake` | src/main/java/com/basho/proserv/datamigrator/riak/ThreadedMirror.java:107-130 | a running worker that is not interrupted and finds a key takes exactly the next journal record, bumps its tally and keeps running; the invariant is kept |
| `MirrorRun.StepInv` | src/main/java/com/basho/proserv/datamigrator/riak/ThreadedMirror.java:103-138 | every loop iteration keeps the job invariant, which covers: records taken in journal order; job counters matching the reports; tallies counting every record taken; the failure journal holding exactly the dead-lettered keys; create-only destination; reports only after end of journal or an interrupt |
| `MirrorRun.RunInv` | src/main/java/com/basho/proserv/datamigrator/riak/ThreadedMirror.java:103-138 | the job invariant holds after any schedule of worker iterations |
| `MirrorRun.FinishedIffAllReported` | src/main/java/com/basho/proserv/datamigrator/riak/ThreadedMirror.java:54-56 | `finishedWorkers` never exceeds `workerCount`, and `finished()` holds exactly when every worker has reported |
| `MirrorRun.JobOutcome` | src/main/java/com/basho/proserv/datamigrator/riak/ThreadedMirror.java:103-138 | for any journal file that reads back as `keys`, with at least one worker and no interrupt, once finished: `numberProcessed()` is the journal's record count; each record was taken once, in order; it was dead-lettered exactly when its fetch yielded nothing; the failure journal reads back as exactly those keys; the destination kept its values and gained only mirrored keys |
| `MirrorRun.EnoughTurnsReport` | src/main/java/com/basho/proserv/datamigrator/riak/ThreadedMirror.java:107-112 | a worker given more iterations than there are records left has reported by the end |
| `MirrorRun.FairJobCompletes` | src/main/java/com/basho/proserv/datamigrator/riak/ThreadedMirror.java:103-138 | without interrupts, a schedule giving each of at least one worker more iterations than the journal has records ends with the job finished and completed, as `JobOutcome` describes |
| `MirrorRun.ScenarioJournal` | src/main/java/com/basho/proserv/datamigrator/io/KeyJournal.java:52-54 | the journal file written for keys [1], [2], [3] under either framing reads back as those keys |
| `MirrorRun.FairScheduleFinishes` | src/main/java/com/basho/proserv/datamigrator/riak/ThreadedMirror.java:104-137 | the job finishes under any schedule that gives every worker more iterations than the journal has records |
| `MirrorRun.ThreeKeyScenario` | src/main/java/com/basho/proserv/datamigrator/riak/ThreadedMirror.java:103-163 | any journal file that reads back as keys [1], [2], [3], with [2] missing at the source, an empty destination and two workers: the job finishes, processes 3, the destination holds exactly [1] and [3], and the failure journal reads back as [[2]] |

## Left out

- The bucket-mirror driver (`BucketMirror`) is not part of this model. It does file system checks, polls with sleeps and prints.
- The `KeyIterator` is not part of this model: with `read()` stubbed it yields nothing, and it depends on a `Key` factory that is not shown.
- Thread pool mechanics are left out: the executor, the thread factory, `close()` and `interruptWorkers`. Real threads are replaced by schedules. An interrupt is an oracle read at the top of each iteration.
- Each loop iteration is taken as one atomic step. Interleavings inside an iteration are not enumerated.
- `MirrorRun.JobOutcome`: the order of the failure journal's records is journal order only because each iteration is one atomic step. In the source a worker that took a later key can append it before another worker appends an earlier one, so only the set of dead-lettered keys (with multiplicity) is what the source promises. Likewise, for a key listed twice, which worker's store creates it depends on that interleaving.
- The Riak wire protocol, the client adapters and the conditional store's metadata are left out. Fetch and store are per-attempt outcome oracles.
- `keys.getBucketName()` does not exist on the cursor as shown, and its value only feeds the fetch oracle, so it is dropped.
- Logging, `printStackTrace` and `logKey` are left out: they have no effect on state.
- Real I/O failures are left out: a failed flush or close, a disk error while writing, and an I/O error reading an open file. The only stream errors modelled are the ones the journal's own state causes.
- `BufferedInputStream` short reads are not modelled: `read(key, 0, len)` reads everything available up to `len`. Only a record cut short by end of file leaves zeros.
- `File.getAbsolutePath` is left out: `CreateKeyPathFromPath` takes the absolute path as a string.
- `KeyJournal.KeyPathCases`: a Dafny `string` is a sequence of Unicode characters, where a Java `String` is indexed in UTF-16 code units. With no `.` in the path, the source drops one code unit, which for a final character outside the Basic Multilingual Plane leaves a lone high surrogate; the model drops the whole character.
- `KeyJournal.WriteByteString`: the error result carries no journal, so the length byte the buffer took before a closed writer's second `write` threw is not added to the buffered count. This only matters to a later write on a journal that is already closed. The buffer is taken to be the 8192 bytes `new BufferedOutputStream(out)` allocates.
- A null `Mode` passed to the journal constructor is not modelled: `Mode` has just the two values.
- `ThreadedMirror.WorkerFinished`: the Java `int` counters are unbounded here. A job of more than 2^31 - 1 keys would wrap `processedCount`.
- `ThreadedMirror.StartWorkers`: the partially constructed job that the started workers still report to is not followed after the index error.
- `MirrorRun.FairScheduleFinishes`: progress is proved for schedules with enough turns per worker. Fairness of the real scheduler is assumed, not modelled.
- `SyncedKeyJournal.Write`: the cursor class as shown has no `write`, and its `read` returns a `Key` where the worker expects bytes. The model assumes an atomic append that delegates to the journal's `writeByteString`, and a cursor whose read is `readByteString`.

## Findings

| source | as written | input that shows it | evidently intended | confidence | as-written member | corrected member |
|---|---|---|---|---|---|---|
| src/main/java/com/basho/proserv/datamigrator/io/KeyJournal.java:53 | `write(int)` emits only the low byte of the key length, so a key of 256 bytes or more is framed with length mod 256 and reads back wrong | one key of 256 zero bytes is read back as 257 empty keys | a length prefix that can hold any key length, so every written key reads back as itself | not executed | `KeyJournal.LongKeyRoundTripFails` | `Framing.WideRoundTrip` |
