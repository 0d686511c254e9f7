/** Record framing for key journals: the one-byte length prefix the journal
    is written with, and a corrected four-byte big-endian prefix whose reader
    refuses a record cut short. The cursor and mirror models take the framing
    as a parameter, so each of their results is stated for both.
 */
module Framing {
  import opened Base
  import opened KeyJournal

  datatype Width = OneByte | FourByte

  const WordLimit: nat := 0x1_0000_0000

  /** `n` as four big-endian bytes. */
  function WordBytes(n: nat): (b: seq<Byte>)
    requires n < WordLimit
    ensures |b| == 4
  {
    [n / 0x100_0000, n / 0x1_0000 % 256, n / 256 % 256, n % 256]
  }

  /** The number four big-endian bytes spell. */
  function WordValue(b: seq<Byte>): (n: nat)
    requires |b| == 4
    ensures n < WordLimit
  {
    (b[0] as int) * 0x100_0000 + (b[1] as int) * 0x1_0000 + (b[2] as int) * 256 + b[3] as int
  }

  lemma WordRoundTrip(n: nat)
    requires n < WordLimit
    ensures WordValue(WordBytes(n)) == n
  {
    var b := WordBytes(n);
    assert n == (n / 256) * 256 + n % 256;
    assert n / 256 == (n / 0x1_0000) * 256 + n / 256 % 256;
    assert n / 0x1_0000 == (n / 0x100_0000) * 256 + n / 0x1_0000 % 256;
  }

  lemma WordBytesValue(b: seq<Byte>)
    requires |b| == 4
    ensures WordBytes(WordValue(b)) == b
  {
    var n := WordValue(b);
    var hi := (b[0] as int) * 0x100 + b[1] as int;
    var lo := (b[2] as int) * 256 + b[3] as int;
    assert n == hi * 0x1_0000 + lo;
    assert n % 256 == b[3];
    assert n / 256 == hi * 256 + b[2];
    assert n / 256 % 256 == b[2];
    assert n / 0x1_0000 == hi;
    assert hi % 256 == b[1];
    assert n / 0x100_0000 == b[0];
  }

  /** One record in the corrected layout. */
  function WideFrame(key: seq<Byte>): seq<Byte>
    requires |key| < WordLimit
  {
    WordBytes(|key|) + key
  }

  /** The corrected writer: same mode and null checks as `writeByteString`,
      then a four-byte length; after `close` it buffers, and overflows, as
      `writeByteString` does. */
  function WriteWide(j: Journal, key: Option<seq<Byte>>): (r: Result<Journal, Error>)
    ensures j.mode == Read ==> r == Err(WrongMode)
    ensures j.mode == Write && key.None? ==> r == Err(NullArgument)
    ensures j.mode == Write && key.Some? ==>
      (r.Ok? <==> |key.value| < WordLimit && (!j.closed || FitsBuffer(j.pending, 4 + |key.value|)))
    ensures r.Ok? ==> r.value.mode == Write && r.value.closed == j.closed
    ensures r.Ok? && !j.closed ==>
      && r.value.pending == j.pending
      && |r.value.data| == |j.data| + 4 + |key.value|
      && r.value.data[..|j.data|] == j.data
      && WordValue(r.value.data[|j.data|..|j.data| + 4]) == |key.value|
      && r.value.data[|j.data| + 4..] == key.value
    ensures r.Ok? && j.closed ==> r.value.data == j.data && r.value.pending == j.pending + 4 + |key.value|
  {
    if j.mode.Read? then Err(WrongMode)
    else if key.None? then Err(NullArgument)
    else if |key.value| >= WordLimit then Err(KeyTooLong)
    else if j.closed then
      if FitsBuffer(j.pending, 4 + |key.value|) then Ok(j.(pending := j.pending + 4 + |key.value|))
      else Err(StreamClosed)
    else
      var data := j.data + WideFrame(key.value);
      assert data[|j.data|..|j.data| + 4] == WordBytes(|key.value|);
      WordRoundTrip(|key.value|);
      Ok(j.(data := data))
  }

  /** The corrected reader: end of data is null, and a length or key cut
      short by end of file is an error rather than zero padding. */
  function ReadWide(j: Journal): (r: Result<(Journal, Option<seq<Byte>>), Error>)
    ensures j.mode == Write ==> r == Err(NoReader)
    ensures j.mode == Read && j.closed ==> r == Err(StreamClosed)
    ensures r.Ok? ==> r.value.0.mode == Read && !r.value.0.closed
    ensures r.Ok? ==> (r.value.1.None? <==> |j.data| == 0)
    ensures r.Ok? && r.value.1.None? ==> r.value.0 == j
    ensures r.Ok? && r.value.1.Some? ==>
      && |j.data| >= 4
      && |r.value.1.value| < WordLimit
      && j.data == WordBytes(|r.value.1.value|) + r.value.1.value + r.value.0.data
  {
    if j.mode.Write? then Err(NoReader)
    else if j.closed then Err(StreamClosed)
    else if |j.data| == 0 then Ok((j, None))
    else if |j.data| < 4 then Err(CorruptRecord)
    else
      var len := WordValue(j.data[..4]);
      var rest := j.data[4..];
      if |rest| < len then Err(CorruptRecord)
      else
        var key := rest[..len];
        WordBytesValue(j.data[..4]);
        assert j.data == j.data[..4] + key + rest[len..];
        Ok((j.(data := rest[len..]), Some(key)))
  }

  // ---------------------------------------------------------------------------
  // Either framing

  /** A key fits the width's length prefix. */
  predicate Fits(w: Width, key: seq<Byte>)
  {
    match w
    case OneByte => |key| < 256
    case FourByte => |key| < WordLimit
  }

  predicate AllFit(w: Width, keys: seq<seq<Byte>>)
  {
    forall i :: 0 <= i < |keys| ==> Fits(w, keys[i])
  }

  function FrameOf(w: Width, key: seq<Byte>): seq<Byte>
    requires Fits(w, key)
  {
    match w
    case OneByte => Frame(key)
    case FourByte => WideFrame(key)
  }

  function EncodeWith(w: Width, keys: seq<seq<Byte>>): seq<Byte>
    requires AllFit(w, keys)
  {
    if |keys| == 0 then [] else FrameOf(w, keys[0]) + EncodeWith(w, keys[1..])
  }

  function ReadRecord(w: Width, j: Journal): Result<(Journal, Option<seq<Byte>>), Error>
  {
    match w
    case OneByte => ReadByteString(j)
    case FourByte => ReadWide(j)
  }

  function WriteRecord(w: Width, j: Journal, key: Option<seq<Byte>>): Result<Journal, Error>
  {
    match w
    case OneByte => WriteByteString(j, key)
    case FourByte => WriteWide(j, key)
  }

  /** The journal read a cursor delegates to under width `w`. */
  function ReadNext(w: Width): Journal -> Result<(Journal, Option<seq<Byte>>), Error>
  {
    j => ReadRecord(w, j)
  }

  /** Framing distributes over appending one more key. */
  lemma {:induction false} EncodeWithAppend(w: Width, keys: seq<seq<Byte>>, key: seq<Byte>)
    requires AllFit(w, keys) && Fits(w, key)
    ensures AllFit(w, keys + [key])
    ensures EncodeWith(w, keys + [key]) == EncodeWith(w, keys) + FrameOf(w, key)
    decreases |keys|
  {
    var all := keys + [key];
    assert AllFit(w, all) by {
      forall i | 0 <= i < |all| ensures Fits(w, all[i]) {
        if i < |keys| { assert all[i] == keys[i]; }
      }
    }
    if |keys| == 0 {
      assert all == [key];
      calc {
        EncodeWith(w, all);
        FrameOf(w, key) + EncodeWith(w, all[1..]);
        { assert all[1..] == []; }
        FrameOf(w, key);
      }
    } else {
      assert all[1..] == keys[1..] + [key];
      EncodeWithAppend(w, keys[1..], key);
      calc {
        EncodeWith(w, all);
        FrameOf(w, keys[0]) + EncodeWith(w, keys[1..] + [key]);
        FrameOf(w, keys[0]) + (EncodeWith(w, keys[1..]) + FrameOf(w, key));
        EncodeWith(w, keys) + FrameOf(w, key);
      }
    }
  }

  /** Every record read consumes bytes, so draining a journal terminates. */
  lemma ReadRecordShrinks(w: Width, j: Journal)
    ensures var r := ReadRecord(w, j);
      r.Ok? && r.value.1.Some? ==> |r.value.0.data| < |j.data|
  {
  }

  /** Reading the next record of a well-framed journal pops its first key. */
  lemma ReadRecordPops(w: Width, key: seq<Byte>, tail: seq<Byte>)
    requires Fits(w, key)
    ensures ReadRecord(w, Journal(Read, FrameOf(w, key) + tail, false))
         == Ok((Journal(Read, tail, false), Some(key)))
  {
    match w
    case OneByte => ReadFirstRecord(key, tail);
    case FourByte =>
      var data := WideFrame(key) + tail;
      WordRoundTrip(|key|);
      assert data[..4] == WordBytes(|key|);
      assert data[4..] == key + tail;
      assert (key + tail)[..|key|] == key;
      assert (key + tail)[|key|..] == tail;
  }

  /** Writing a record to an open WRITE journal appends exactly its frame. */
  lemma WriteRecordAppends(w: Width, j: Journal, key: seq<Byte>)
    requires j.mode == Write && !j.closed && Fits(w, key)
    ensures WriteRecord(w, j, Some(key)) == Ok(j.(data := j.data + FrameOf(w, key)))
  {
  }

  /** The one-byte framing is the journal's own format: encoding keys that
      fit it gives the bytes `writeByteString` writes. */
  lemma {:induction false} OneByteEncodesAsJournal(keys: seq<seq<Byte>>)
    requires AllFit(OneByte, keys)
    ensures EncodeWith(OneByte, keys) == EncodeAll(keys)
  {
    if |keys| > 0 {
      OneByteEncodesAsJournal(keys[1..]);
    }
  }

  /** Reads records until null. */
  function DecodeWith(w: Width, j: Journal): Result<seq<seq<Byte>>, Error>
    decreases |j.data|
  {
    ReadRecordShrinks(w, j);
    match ReadRecord(w, j)
    case Err(e) => Err(e)
    case Ok((j', None)) => Ok([])
    case Ok((j', Some(k))) =>
      match DecodeWith(w, j')
      case Err(e) => Err(e)
      case Ok(ks) => Ok([k] + ks)
  }

  /** Decoding with the one-byte framing is draining the journal with
      `readByteString`, on every journal, long keys and errors included. */
  lemma {:induction false} OneByteDecodesAsJournal(j: Journal)
    ensures DecodeWith(OneByte, j) == DecodeAll(j)
    decreases |j.data|
  {
    match ReadByteString(j)
    case Err(_) =>
    case Ok((j', None)) =>
    case Ok((j', Some(k))) =>
      OneByteDecodesAsJournal(j');
  }

  /** Round trip under either framing for keys that fit its prefix. */
  lemma {:induction false} RoundTripWith(w: Width, keys: seq<seq<Byte>>)
    requires AllFit(w, keys)
    ensures DecodeWith(w, Journal(Read, EncodeWith(w, keys), false)) == Ok(keys)
  {
    if |keys| > 0 {
      ReadRecordPops(w, keys[0], EncodeWith(w, keys[1..]));
      RoundTripWith(w, keys[1..]);
      assert [keys[0]] + keys[1..] == keys;
    }
  }

  /** The journal after reading one record; as it was when the read throws. */
  function Rest(w: Width, j: Journal): Journal
  {
    match ReadRecord(w, j)
    case Ok((j', _)) => j'
    case Err(_) => j
  }

  /** An open READ journal whose records, read until null, are `keys`. The
      bytes need not be a framing written by either writer: a one-byte
      journal may end in a record cut short, which reads as zero padded. */
  predicate Holds(w: Width, j: Journal, keys: seq<seq<Byte>>)
  {
    j.mode == Read && !j.closed && DecodeWith(w, j) == Ok(keys)
  }

  /** One read from a journal that holds `keys`: null exactly when none are
      left, and otherwise the first key, leaving a journal that holds the
      rest. */
  lemma HoldsRead(w: Width, j: Journal, keys: seq<seq<Byte>>)
    requires Holds(w, j, keys)
    ensures |keys| == 0 ==> ReadRecord(w, j) == Ok((j, None))
    ensures |keys| > 0 ==> ReadRecord(w, j) == Ok((Rest(w, j), Some(keys[0])))
    ensures |keys| > 0 ==> Holds(w, Rest(w, j), keys[1..])
  {
    match ReadRecord(w, j)
    case Ok((j', None)) =>
    case Ok((j', Some(k))) =>
      assert DecodeWith(w, j) == Ok([k] + DecodeWith(w, j').value);
  }

  /** Every key read under a width fits that width's length prefix. */
  lemma {:induction false} DecodedFit(w: Width, j: Journal, keys: seq<seq<Byte>>)
    requires DecodeWith(w, j) == Ok(keys)
    ensures AllFit(w, keys)
    decreases |j.data|
  {
    match ReadRecord(w, j)
    case Ok((j', None)) =>
    case Ok((j', Some(k))) =>
      ReadRecordShrinks(w, j);
      var rest := DecodeWith(w, j').value;
      assert keys == [k] + rest;
      DecodedFit(w, j', rest);
      assert Fits(w, k);
      assert forall i :: 1 <= i < |keys| ==> keys[i] == rest[i - 1];
  }

  /** A journal written under a width holds the keys written. */
  lemma EncodedHolds(w: Width, keys: seq<seq<Byte>>)
    requires AllFit(w, keys)
    ensures Holds(w, Journal(Read, EncodeWith(w, keys), false), keys)
  {
    RoundTripWith(w, keys);
  }

  /** Under the one-byte framing every open READ journal holds some keys:
      `readByteString` never throws on it, whatever the bytes. */
  lemma {:induction false} OneByteAlwaysDecodes(j: Journal)
    requires j.mode == Read && !j.closed
    ensures DecodeWith(OneByte, j).Ok?
    decreases |j.data|
  {
    match ReadRecord(OneByte, j)
    case Ok((j', None)) =>
    case Ok((j', Some(k))) =>
      ReadRecordShrinks(OneByte, j);
      OneByteAlwaysDecodes(j');
  }

  /** The corrected format's promise: every key a Java byte array can hold
      (fewer than 2^31 bytes) survives the round trip, in order. */
  lemma WideRoundTrip(keys: seq<seq<Byte>>)
    requires forall i :: 0 <= i < |keys| ==> |keys[i]| < 0x8000_0000
    ensures DecodeWith(FourByte, Journal(Read, EncodeWith(FourByte, keys), false)) == Ok(keys)
  {
    RoundTripWith(FourByte, keys);
  }

  /** The corrected reader refuses a record cut short where `readByteString`
      pads it with zeros. */
  lemma TruncatedRecordRefused(key: seq<Byte>)
    requires 0 < |key| < 256
    ensures ReadWide(Journal(Read, WideFrame(key)[..4 + |key| - 1], false)) == Err(CorruptRecord)
    ensures ReadByteString(Journal(Read, Frame(key)[..|key|], false))
         == Ok((Journal(Read, [], false), Some(key[..|key| - 1] + [0])))
  {
    WordRoundTrip(|key|);
    var cut := WideFrame(key)[..4 + |key| - 1];
    assert cut[..4] == WordBytes(|key|);
    var short := Frame(key)[..|key|];
    assert short[1..] == key[..|key| - 1];
    assert Zeros(1) == [0];
  }
}
