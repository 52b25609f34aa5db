/** Incomplete input loses no progress. When `decode` answers `Ok(None)`,
    the framing layer keeps the unconsumed suffix and appends the bytes that
    arrive next. Decoding the longer buffer from the old state gives the
    same outcome as resuming from the new state on the suffix plus the new
    bytes. The one exception is a zero-count frame. That call consumed its
    header and finished, so the longer buffer gives the same idle answer. */
module CodecResume {
  import opened Wrappers
  import opened Bytes
  import opened Codec
  import opened CodecSteps

  /** A parsed header keeps its value and position when bytes are appended. */
  lemma ReadHeaderExtends(b: seq<byte>, e: seq<byte>, lead: byte)
    requires ReadHeader(b, lead).Parsed?
    ensures ReadHeader(b + e, lead) == ReadHeader(b, lead)
  {
    var i := ReadHeader(b, lead).cr;
    FindCRExtends(b, e);
    assert (b + e)[..i] == b[..i];
  }

  /** A loop iteration that completed on `b` completes the same way on
      `b + e`, leaving `e` after what it left. */
  lemma BulkStepExtends(c: CodecState, b: seq<byte>, e: seq<byte>)
    requires Decodable(c) && c.multibulklen > 0
    requires BulkStep(c, b).Continue?
    ensures BulkStep(c, b + e) == Continue(BulkStep(c, b).codec, BulkStep(c, b).rest + e)
  {
    if c.bulklen == -1 {
      HeaderThenBodyExtends(c, b, e);
    } else {
      BulkBodyExtends(c, b, e);
    }
  }

  /** `BulkStepExtends` when the header is read in the same iteration. */
  lemma HeaderThenBodyExtends(c: CodecState, b: seq<byte>, e: seq<byte>)
    requires Decodable(c) && c.multibulklen > 0 && c.bulklen == -1
    requires BulkStep(c, b).Continue?
    ensures BulkStep(c, b + e) == Continue(BulkStep(c, b).codec, BulkStep(c, b).rest + e)
  {
    ReadHeaderExtends(b, e, Dollar);
    var h := ReadHeader(b, Dollar);
    var c' := c.(bulklen := h.value);
    SliceAppend(b, e, h.cr + 2);
    assert BulkStep(c, b) == BulkBody(c', b[h.cr + 2..]);
    assert BulkStep(c, b + e) == BulkBody(c', b[h.cr + 2..] + e);
    BulkBodyExtends(c', b[h.cr + 2..], e);
  }

  /** A body step that completed on `b` completes the same way on `b + e`. */
  lemma BulkBodyExtends(c: CodecState, b: seq<byte>, e: seq<byte>)
    requires c.bulklen >= 0 && c.multibulklen > 0
    requires BulkBody(c, b).Continue?
    ensures BulkBody(c, b + e) == Continue(BulkBody(c, b).codec, BulkBody(c, b).rest + e)
  {
    assert (b + e)[..c.bulklen] == b[..c.bulklen];
    assert (b + e)[c.bulklen + 2..] == b[c.bulklen + 2..] + e;
  }

  /** A loop iteration that stopped for lack of bytes is redone identically
      from the state it stopped in. */
  lemma BulkStepResumes(c: CodecState, b: seq<byte>, e: seq<byte>)
    requires Decodable(c) && c.multibulklen > 0
    requires BulkStep(c, b).Halt? && BulkStep(c, b).out.result == Ok(None)
    ensures var d := BulkStep(c, b).out;
            Decodable(d.codec) && d.codec.multibulklen > 0
            && BulkStep(c, b + e) == BulkStep(d.codec, d.rest + e)
  {
    if c.bulklen == -1 && ReadHeader(b, Dollar).Parsed? {
      HeaderThenWaitResumes(c, b, e);
    }
  }

  /** `BulkStepResumes` when the header was read and the body is awaited. */
  lemma HeaderThenWaitResumes(c: CodecState, b: seq<byte>, e: seq<byte>)
    requires Decodable(c) && c.multibulklen > 0 && c.bulklen == -1
    requires ReadHeader(b, Dollar).Parsed?
    requires BulkStep(c, b).Halt? && BulkStep(c, b).out.result == Ok(None)
    ensures var d := BulkStep(c, b).out;
            d.codec.multibulklen > 0 && BulkStep(c, b + e) == BulkStep(d.codec, d.rest + e)
  {
    ReadHeaderExtends(b, e, Dollar);
    var h := ReadHeader(b, Dollar);
    SliceAppend(b, e, h.cr + 2);
    var c' := c.(bulklen := h.value);
    assert BulkStep(c, b) == BulkBody(c', b[h.cr + 2..]);
    assert BulkStep(c, b + e) == BulkBody(c', b[h.cr + 2..] + e);
  }

  /** With no bytes at all, the bulk loop waits without changing anything. */
  lemma BulksOnEmpty(c: CodecState)
    requires Decodable(c) && c.multibulklen > 0
    ensures DecodeBulks(c, []) == Decoded(c, [], Ok(None))
  {
  }

  /** Resumption inside a frame: the bulk loop. */
  lemma {:induction false} DecodeBulksResumes(c: CodecState, b: seq<byte>, e: seq<byte>)
    requires Decodable(c) && c.multibulklen > 0
    requires DecodeBulks(c, b).result == Ok(None)
    ensures var d := DecodeBulks(c, b);
            Decodable(d.codec) && d.codec.multibulklen > 0
            && DecodeBulks(c, b + e) == DecodeBulks(d.codec, d.rest + e)
    decreases c.multibulklen
  {
    match BulkStep(c, b)
    case Halt(d) =>
      BulkStepResumes(c, b, e);
    case Continue(c', rest) =>
      BulkStepExtends(c, b, e);
      assert DecodeBulks(c, b + e) == DecodeBulks(c', rest + e);
      assert DecodeBulks(c, b) == DecodeBulks(c', rest);
      DecodeBulksResumes(c', rest, e);
  }

  /** Within a frame, `decode` and the bulk loop agree. */
  lemma DecodeInFrame(c: CodecState, buf: seq<byte>)
    requires Decodable(c) && c.reqType == MultiBulk && c.multibulklen > 0
    ensures Decode(c, buf) == DecodeBulks(c, buf)
  {
    if |buf| == 0 {
      BulksOnEmpty(c);
    }
  }

  /** Chunking: an `Ok(None)` answer keeps all progress, so splitting the
      input at that point changes nothing. */
  lemma DecodeResumes(c: CodecState, b: seq<byte>, e: seq<byte>)
    requires Decodable(c)
    requires Decode(c, b).result == Ok(None)
    ensures var d := Decode(c, b);
            if d.codec.multibulklen == 0 && |d.rest| < |b|
            then Decode(c, b + e) == Decoded(d.codec, d.rest + e, Ok(None))
            else Decode(c, b + e) == Decode(d.codec, d.rest + e)
  {
    if |b| == 0 {
      assert b + e == e;
    } else {
      var c1 := c.(reqType := SelectMode(c.reqType, b[0]));
      assert (b + e)[0] == b[0];
      assert Decode(c, b + e) == DecodeMultiBulk(c1, b + e);
      MultiBulkResumes(c1, b, e);
    }
  }

  /** `DecodeResumes` once the mode is multi-bulk. */
  lemma MultiBulkResumes(c: CodecState, b: seq<byte>, e: seq<byte>)
    requires Decodable(c) && c.reqType == MultiBulk && |b| > 0
    requires DecodeMultiBulk(c, b).result == Ok(None)
    ensures var d := DecodeMultiBulk(c, b);
            if d.codec.multibulklen == 0 && |d.rest| < |b|
            then DecodeMultiBulk(c, b + e) == Decoded(d.codec, d.rest + e, Ok(None))
            else DecodeMultiBulk(c, b + e) == Decode(d.codec, d.rest + e)
  {
    if c.multibulklen == 0 {
      match ReadHeader(b, Star)
      case Incomplete =>
        assert Decode(c, b + e) == DecodeMultiBulk(c, b + e);
      case Parsed(n, i) =>
        CountParsedResumes(c, b, e, n, i);
    } else {
      BulksResumeToDecode(c, b, e);
    }
  }

  /** `MultiBulkResumes` when the count header was read. */
  lemma CountParsedResumes(c: CodecState, b: seq<byte>, e: seq<byte>, n: nat, i: nat)
    requires Decodable(c) && c.reqType == MultiBulk && c.multibulklen == 0
    requires ReadHeader(b, Star) == Parsed(n, i)
    requires DecodeMultiBulk(c, b).result == Ok(None)
    ensures var d := DecodeMultiBulk(c, b);
            if d.codec.multibulklen == 0 && |d.rest| < |b|
            then DecodeMultiBulk(c, b + e) == Decoded(d.codec, d.rest + e, Ok(None))
            else DecodeMultiBulk(c, b + e) == Decode(d.codec, d.rest + e)
  {
    ReadHeaderExtends(b, e, Star);
    SliceAppend(b, e, i + 2);
    if n > 0 {
      CountStartsResumes(c, b, e, n, i);
    } else {
      ZeroCountResumes(c, b, e, i);
    }
  }

  lemma SliceAppend(b: seq<byte>, e: seq<byte>, k: nat)
    requires k <= |b|
    ensures (b + e)[k..] == b[k..] + e
  {
  }

  /** `CountParsedResumes` for a zero count. */
  lemma ZeroCountResumes(c: CodecState, b: seq<byte>, e: seq<byte>, i: nat)
    requires Decodable(c) && c.multibulklen == 0
    requires ReadHeader(b, Star) == Parsed(0, i) && ReadHeader(b + e, Star) == Parsed(0, i)
    requires (b + e)[i + 2..] == b[i + 2..] + e
    ensures var d := DecodeMultiBulk(c, b);
            && d.codec.multibulklen == 0 && |d.rest| < |b|
            && DecodeMultiBulk(c, b + e) == Decoded(d.codec, d.rest + e, Ok(None))
  {
    MultiBulkSkips(c, b, i);
    MultiBulkSkips(c, b + e, i);
  }

  /** The zero-count step of `process_multibulk_buffer` on its own. */
  lemma MultiBulkSkips(c: CodecState, buf: seq<byte>, i: nat)
    requires Decodable(c) && c.multibulklen == 0 && ReadHeader(buf, Star) == Parsed(0, i)
    ensures DecodeMultiBulk(c, buf) == Decoded(c, buf[i + 2..], Ok(None))
  {
  }

  /** `CountParsedResumes` for a positive count. */
  lemma CountStartsResumes(c: CodecState, b: seq<byte>, e: seq<byte>, n: nat, i: nat)
    requires Decodable(c) && c.reqType == MultiBulk && c.multibulklen == 0 && n > 0
    requires ReadHeader(b, Star) == Parsed(n, i) && ReadHeader(b + e, Star) == Parsed(n, i)
    requires (b + e)[i + 2..] == b[i + 2..] + e
    requires DecodeMultiBulk(c, b).result == Ok(None)
    ensures var d := DecodeMultiBulk(c, b);
            d.codec.multibulklen > 0 && DecodeMultiBulk(c, b + e) == Decode(d.codec, d.rest + e)
  {
    var c2 := CodecState(c.req.(args := []), c.reqType, n, c.bulklen);
    MultiBulkStarts(c, b, n, i);
    MultiBulkStarts(c, b + e, n, i);
    BulksResumeToDecode(c2, b[i + 2..], e);
  }

  /** `DecodeBulksResumes`, with the resumed call made through `decode`. */
  lemma BulksResumeToDecode(c: CodecState, b: seq<byte>, e: seq<byte>)
    requires Decodable(c) && c.reqType == MultiBulk && c.multibulklen > 0
    requires DecodeBulks(c, b).result == Ok(None)
    ensures var d := DecodeBulks(c, b);
            d.codec.multibulklen > 0 && DecodeBulks(c, b + e) == Decode(d.codec, d.rest + e)
  {
    DecodeBulksResumes(c, b, e);
    var d := DecodeBulks(c, b);
    DecodeInFrame(d.codec, d.rest + e);
  }
}
