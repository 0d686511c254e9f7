/** The key journal as written: a file opened once for READ or WRITE whose
    records are one length byte followed by the raw key bytes.
 */
module KeyJournal {
  import opened Base

  datatype Mode = Read | Write

  /** The exceptions the journal's operations throw. */
  datatype Error =
    | NullPath          // IllegalArgumentException: path cannot be null
    | CouldNotOpen      // IllegalArgumentException: the file could not be opened
    | WrongMode         // IllegalArgumentException: READ/WRITE mode mismatch
    | NullArgument      // IllegalArgumentException: a null key or bucket
    | NoReader          // NullPointerException: a WRITE journal has no reader stream
    | StreamClosed      // IOException: a closed stream was read, or flushed by a write
    | IndexOutOfBounds  // StringIndexOutOfBoundsException from `substring`
    | KeyTooLong        // corrected framing only: a length the prefix cannot hold
    | CorruptRecord     // corrected framing only: a record cut short by end of file

  /** A journal handle. In WRITE mode `data` is what the file will hold
      (everything written while open); in READ mode it is the part of the
      file not read yet. `pending` counts the bytes written after `close`,
      which sit in the writer's buffer because the file stream under it is
      closed; it is zero until then. */
  datatype Journal = Journal(mode: Mode, data: seq<Byte>, closed: bool, pending: nat := 0)

  /** The buffer size of a `BufferedOutputStream` built without one. */
  const BufferSize: nat := 8192

  /** A write of `n` bytes after `close` finds room in the buffer. Both
      `write` calls of a record keep their bytes in the buffer while they
      fit; the first that does not fit flushes the bytes already buffered
      to the closed file stream, which throws. The length byte goes in
      first, so the buffer is never empty at the second call. */
  predicate FitsBuffer(pending: nat, n: nat)
  {
    pending + n <= BufferSize
  }

  /** The record key of the Java `Key` class; `read()` never builds one. */
  datatype BucketKey = BucketKey(bucket: string, key: string)

  /** The byte `OutputStream.write(int)` emits for `n`: its low-order eight bits. */
  function LowByte(n: nat): (b: Byte)
    ensures n < 256 ==> b == n
  {
    n % 256
  }

  /** One record as `writeByteString` lays it out. */
  function Frame(key: seq<Byte>): seq<Byte>
  {
    [LowByte(|key|)] + key
  }

  /** The records of `keys`, in order. */
  function EncodeAll(keys: seq<seq<Byte>>): (bytes: seq<Byte>)
    ensures |bytes| >= |keys|
  {
    if |keys| == 0 then [] else Frame(keys[0]) + EncodeAll(keys[1..])
  }

  /** Every key fits the one-byte length prefix. */
  predicate AllShort(keys: seq<seq<Byte>>)
  {
    forall i :: 0 <= i < |keys| ==> |keys[i]| < 256
  }

  /** Constructor: a null path is refused; `openable` says whether the file
      system lets the stream be opened; `contents` is the file for READ mode.
      A WRITE journal starts empty, as `FileOutputStream` truncates the file. */
  function Open(path: Option<string>, mode: Mode, openable: bool, contents: seq<Byte>): (r: Result<Journal, Error>)
    ensures path.None? ==> r == Err(NullPath)
    ensures path.Some? && !openable ==> r == Err(CouldNotOpen)
    ensures path.Some? && openable ==> r.Ok? && r.value.mode == mode && !r.value.closed
    ensures r.Ok? && mode == Write ==> r.value.data == []
    ensures r.Ok? && mode == Read ==> r.value.data == contents
  {
    if path.None? then Err(NullPath)
    else if !openable then Err(CouldNotOpen)
    else Ok(Journal(mode, if mode == Write then [] else contents, false))
  }

  /** `writeByteString`: the mode is checked before the key. After `close`
      the record's bytes go into the writer's buffer and never reach the
      file; once they would overflow it, the write throws. */
  function WriteByteString(j: Journal, key: Option<seq<Byte>>): (r: Result<Journal, Error>)
    ensures j.mode == Read ==> r == Err(WrongMode)
    ensures j.mode == Write && key.None? ==> r == Err(NullArgument)
    ensures j.mode == Write && key.Some? ==>
      (r.Ok? <==> !j.closed || FitsBuffer(j.pending, 1 + |key.value|))
    ensures j.mode == Write && key.Some? && r.Err? ==> j.closed && r == Err(StreamClosed)
    ensures r.Ok? ==> r.value.mode == Write && r.value.closed == j.closed
    ensures r.Ok? && !j.closed ==>
      && r.value.pending == j.pending
      && |r.value.data| == |j.data| + 1 + |key.value|
      && r.value.data[..|j.data|] == j.data
      && r.value.data[|j.data|] == |key.value| % 256
      && r.value.data[|j.data| + 1..] == key.value
    ensures r.Ok? && j.closed ==> r.value.data == j.data && r.value.pending == j.pending + 1 + |key.value|
  {
    if j.mode.Read? then Err(WrongMode)
    else if key.None? then Err(NullArgument)
    else if j.closed then
      if FitsBuffer(j.pending, 1 + |key.value|) then Ok(j.(pending := j.pending + 1 + |key.value|))
      else Err(StreamClosed)
    else Ok(j.(data := j.data + Frame(key.value)))
  }

  /** After `close` the writer swallows records until its buffer overflows:
      on a journal just closed, exactly the keys of `BufferSize` bytes or
      more make the first write throw. */
  lemma WriteAfterCloseOverflows(j: Journal, key: seq<Byte>)
    requires j.mode == Write
    ensures var c := Close(j.(pending := 0));
      && (WriteByteString(c, Some(key)).Err? <==> |key| >= BufferSize)
      && (WriteByteString(c, Some(key)).Ok? ==> WriteByteString(c, Some(key)).value.data == j.data)
  {
  }

  /** `write(bucket, key)`: the checks remain, the write itself is commented
      out in the source, so the journal never changes. */
  function WriteKey(j: Journal, bucket: Option<string>, key: Option<string>): (r: Result<Journal, Error>)
    ensures j.mode == Read ==> r == Err(WrongMode)
    ensures j.mode == Write && (bucket.None? || key.None?) ==> r == Err(NullArgument)
    ensures j.mode == Write && bucket.Some? && key.Some? ==> r == Ok(j)
  {
    if j.mode.Read? then Err(WrongMode)
    else if bucket.None? || key.None? then Err(NullArgument)
    else Ok(j)
  }

  /** `readByteString`. It does not check the mode: a WRITE journal has no
      reader. `None` is end of data. When fewer bytes remain than the length
      byte announces, the Java array keeps zeros in the unread tail. */
  function ReadByteString(j: Journal): (r: Result<(Journal, Option<seq<Byte>>), Error>)
    ensures j.mode == Write ==> r == Err(NoReader)
    ensures j.mode == Read && j.closed ==> r == Err(StreamClosed)
    ensures j.mode == Read && !j.closed ==> r.Ok? && r.value.0.mode == Read && !r.value.0.closed
    ensures r.Ok? ==> (r.value.1.None? <==> |j.data| == 0)
    ensures r.Ok? && r.value.1.None? ==> r.value.0 == j
    ensures r.Ok? && r.value.1.Some? ==>
      && |r.value.1.value| == j.data[0]
      && |r.value.0.data| < |j.data|
  {
    if j.mode.Write? then Err(NoReader)
    else if j.closed then Err(StreamClosed)
    else if |j.data| == 0 then Ok((j, None))
    else
      var len := j.data[0];
      var rest := j.data[1..];
      if len <= |rest| then Ok((j.(data := rest[len..]), Some(rest[..len])))
      else Ok((j.(data := []), Some(rest + Zeros(len - |rest|))))
  }

  /** `read()`: the line reader is commented out, so every READ-mode call
      returns null. */
  function ReadKey(j: Journal): (r: Result<(Journal, Option<BucketKey>), Error>)
    ensures j.mode == Write ==> r == Err(WrongMode)
    ensures j.mode == Read ==> r == Ok((j, None))
  {
    if j.mode.Write? then Err(WrongMode) else Ok((j, None))
  }

  /** `close`: flushes and closes whichever stream exists, swallowing any
      I/O error, and marks the journal closed. The first call leaves the
      buffer empty; a later one fails to flush what was buffered since. */
  function Close(j: Journal): (r: Journal)
    ensures r.closed
    ensures r.mode == j.mode && r.data == j.data && r.pending == j.pending
  {
    j.(closed := true)
  }

  function IsClosed(j: Journal): bool
  {
    j.closed
  }

  /** `close` is idempotent and `isClosed` is false until the first `close`. */
  lemma CloseIdempotent(path: string, mode: Mode, contents: seq<Byte>, j: Journal, n: nat)
    requires Open(Some(path), mode, true, contents) == Ok(j)
    ensures !IsClosed(j)
    ensures IsClosed(CloseTimes(j, n + 1))
    ensures CloseTimes(j, n + 1) == Close(j)
  {
    if n > 0 {
      CloseIdempotent(path, mode, contents, j, n - 1);
    }
  }

  /** `close` called `n` times in a row. */
  function CloseTimes(j: Journal, n: nat): Journal
  {
    if n == 0 then j else Close(CloseTimes(j, n - 1))
  }

  /** Reads records with `readByteString` until it returns null. */
  function DecodeAll(j: Journal): (r: Result<seq<seq<Byte>>, Error>)
    decreases |j.data|
  {
    match ReadByteString(j)
    case Err(e) => Err(e)
    case Ok((j', None)) => Ok([])
    case Ok((j', Some(k))) =>
      match DecodeAll(j')
      case Err(e) => Err(e)
      case Ok(ks) => Ok([k] + ks)
  }

  /** Writes `keys` in order with `writeByteString`. */
  function WriteAll(j: Journal, keys: seq<seq<Byte>>): Result<Journal, Error>
    decreases |keys|
  {
    if |keys| == 0 then Ok(j)
    else match WriteByteString(j, Some(keys[0]))
      case Err(e) => Err(e)
      case Ok(j') => WriteAll(j', keys[1..])
  }

  /** Reading the first record of a well-framed journal returns its key and
      leaves exactly the following records. */
  lemma ReadFirstRecord(k: seq<Byte>, tail: seq<Byte>)
    requires |k| < 256
    ensures ReadByteString(Journal(Read, Frame(k) + tail, false)) == Ok((Journal(Read, tail, false), Some(k)))
  {
    var data := Frame(k) + tail;
    assert data[0] == |k|;
    assert data[1..] == k + tail;
    assert (k + tail)[..|k|] == k;
    assert (k + tail)[|k|..] == tail;
  }

  /** Round trip: keys shorter than 256 bytes, empty ones included, come back
      in the order written, followed by null at end of data. */
  lemma {:induction false} RoundTrip(keys: seq<seq<Byte>>)
    requires AllShort(keys)
    ensures DecodeAll(Journal(Read, EncodeAll(keys), false)) == Ok(keys)
  {
    if |keys| > 0 {
      ReadFirstRecord(keys[0], EncodeAll(keys[1..]));
      RoundTrip(keys[1..]);
      assert [keys[0]] + keys[1..] == keys;
    }
  }

  /** Writing `keys` to a freshly opened WRITE journal produces their framing,
      whatever their lengths. */
  lemma {:induction false} WriteAllFrames(j: Journal, keys: seq<seq<Byte>>)
    requires j.mode == Write && !j.closed
    ensures WriteAll(j, keys) == Ok(j.(data := j.data + EncodeAll(keys)))
    decreases |keys|
  {
    if |keys| > 0 {
      var j' := j.(data := j.data + Frame(keys[0]));
      assert WriteByteString(j, Some(keys[0])) == Ok(j');
      WriteAllFrames(j', keys[1..]);
      calc {
        j'.data + EncodeAll(keys[1..]);
        (j.data + Frame(keys[0])) + EncodeAll(keys[1..]);
        j.data + (Frame(keys[0]) + EncodeAll(keys[1..]));
        j.data + EncodeAll(keys);
      }
    } else {
      assert j.data + [] == j.data;
    }
  }

  /** Write a journal, close it, open the file for READ, drain it: the keys
      come back when all are shorter than 256 bytes. */
  lemma WriteThenRead(path: string, keys: seq<seq<Byte>>, w: Journal)
    requires AllShort(keys)
    requires Open(Some(path), Write, true, []) == Ok(w)
    ensures WriteAll(w, keys).Ok?
    ensures var file := Close(WriteAll(w, keys).value).data;
      Open(Some(path), Read, true, file).Ok? &&
      DecodeAll(Open(Some(path), Read, true, file).value) == Ok(keys)
  {
    WriteAllFrames(w, keys);
    assert w.data + EncodeAll(keys) == EncodeAll(keys);
    RoundTrip(keys);
  }

  /** The wrap-around defect: a key of 256 bytes or more is stored behind the
      low byte of its length, so `readByteString` returns only its first
      `|key| % 256` bytes and leaves the rest to be misread as records. */
  lemma LongKeyTruncated(k: seq<Byte>, tail: seq<Byte>)
    requires |k| >= 256
    ensures var r := ReadByteString(Journal(Read, Frame(k) + tail, false));
      && r.Ok? && r.value.1.Some?
      && |r.value.1.value| == |k| % 256 < |k|
      && r.value.1.value == k[..|k| % 256]
      && r.value.0.data == k[|k| % 256..] + tail
  {
    var data := Frame(k) + tail;
    var len := |k| % 256;
    assert data[0] == len;
    assert data[1..] == k + tail;
    assert (k + tail)[..len] == k[..len];
    assert (k + tail)[len..] == k[len..] + tail;
  }

  /** `n` empty keys. */
  function EmptyKeys(n: nat): (ks: seq<seq<Byte>>)
    ensures |ks| == n
  {
    if n == 0 then [] else [[]] + EmptyKeys(n - 1)
  }

  /** `n` zero bytes decode as `n` empty keys. */
  lemma {:induction false} ZerosDecodeAsEmptyKeys(n: nat)
    ensures DecodeAll(Journal(Read, Zeros(n), false)) == Ok(EmptyKeys(n))
  {
    if n > 0 {
      var empty: seq<Byte> := [];
      assert Zeros(n) == Frame(empty) + Zeros(n - 1);
      ReadFirstRecord(empty, Zeros(n - 1));
      ZerosDecodeAsEmptyKeys(n - 1);
    }
  }

  /** Counterexample to the round trip: one key of 256 zero bytes is read
      back as 257 empty keys. */
  lemma LongKeyRoundTripFails()
    ensures var k := Zeros(256);
      DecodeAll(Journal(Read, EncodeAll([k]), false)) == Ok(EmptyKeys(257))
  {
    var k := Zeros(256);
    assert EncodeAll([k]) == Frame(k) + EncodeAll([]);
    assert Frame(k) == Zeros(257);
    assert EncodeAll([k]) == Zeros(257);
    ZerosDecodeAsEmptyKeys(257);
  }

  // ---------------------------------------------------------------------------
  // createKeyPathFromPath

  /** `String.lastIndexOf(c)`: the highest index holding `c`, or -1. */
  function LastIndexOf(s: string, c: char): (r: int)
    ensures -1 <= r < |s|
    ensures r == -1 <==> c !in s
    ensures r >= 0 ==> s[r] == c && forall i :: r < i < |s| ==> s[i] != c
  {
    if |s| == 0 then -1
    else if s[|s| - 1] == c then |s| - 1
    else
      var r := LastIndexOf(s[..|s| - 1], c);
      assert s == s[..|s| - 1] + [s[|s| - 1]];
      r
  }

  function KeySuffix(load: bool): string
  {
    if load then ".loadedkeys" else ".keys"
  }

  /** `createKeyPathFromPath`: cut the path at its last '.' and append the
      journal suffix; with no '.' at all the last character is cut instead,
      and an empty path makes `substring(0, -1)` throw. */
  function CreateKeyPathFromPath(path: string, load: bool): (r: Result<string, Error>)
    ensures r.Err? <==> |path| == 0
    ensures r.Ok? ==> exists cut :: 0 <= cut <= |path| && r.value == path[..cut] + KeySuffix(load)
  {
    var ind := LastIndexOf(path, '.');
    var cut := if ind == -1 then |path| - 1 else ind;
    if cut < 0 then Err(IndexOutOfBounds)
    else Ok(path[..cut] + KeySuffix(load))
  }

  /** The three behaviours of `createKeyPathFromPath`. */
  lemma KeyPathCases(path: string, load: bool)
    ensures |path| == 0 ==> CreateKeyPathFromPath(path, load) == Err(IndexOutOfBounds)
    ensures |path| > 0 && '.' !in path ==>
      CreateKeyPathFromPath(path, load) == Ok(path[..|path| - 1] + KeySuffix(load))
    ensures forall i :: 0 <= i < |path| && path[i] == '.' && (forall k :: i < k < |path| ==> path[k] != '.') ==>
      CreateKeyPathFromPath(path, load) == Ok(path[..i] + KeySuffix(load))
  {
  }
}
