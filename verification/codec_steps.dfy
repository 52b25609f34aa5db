/** What a single `decode` call does at each point of a frame, stated in
    terms of the bytes in the buffer. */
module CodecSteps {
  import opened Wrappers
  import opened Bytes
  import opened Digits
  import opened Errors
  import opened Codec

  /** No carriage return anywhere in `buf`. */
  predicate NoCR(buf: seq<byte>) {
    forall j :: 0 <= j < |buf| ==> buf[j] != CR
  }

  /** The only carriage return of `buf` is its last byte. */
  predicate CROnlyAtEnd(buf: seq<byte>) {
    |buf| > 0 && buf[|buf| - 1] == CR && forall j :: 0 <= j < |buf| - 1 ==> buf[j] != CR
  }

  /** `buf[i]` is the first carriage return and at least one byte follows it. */
  predicate FirstCRAt(buf: seq<byte>, i: nat) {
    i + 1 < |buf| && buf[i] == CR && forall j :: 0 <= j < i ==> buf[j] != CR
  }

  /** Bytes the header parser skips without stopping: neither digits nor
      `\r`. */
  predicate Skippable(junk: seq<byte>) {
    forall k :: 0 <= k < |junk| ==> junk[k] != CR && !IsDigit(junk[k])
  }

  /** Every digit byte of `s` is '0' (also true when there is none). */
  predicate OnlyZeroDigits(s: seq<byte>) {
    forall k :: 0 <= k < |s| && IsDigit(s[k]) ==> s[k] == Zero
  }

  /** Ready for a count header: a frame is about to start in multi-bulk mode,
      or the codec is fresh and the buffer starts with '*'. */
  predicate AwaitsCount(c: CodecState, buf: seq<byte>) {
    && Decodable(c) && c.multibulklen == 0
    && (c.reqType == MultiBulk || (c.reqType == Init && |buf| > 0 && buf[0] == Star))
  }

  /** A bulk header is awaited inside a frame. */
  predicate AwaitsBulkHeader(c: CodecState) {
    c.reqType == MultiBulk && c.multibulklen > 0 && c.bulklen == -1
  }

  /** A header line whose first `\r` is at `i` reads the number before it. */
  lemma HeaderAt(buf: seq<byte>, lead: byte, i: nat)
    requires FirstCRAt(buf, i) && buf[0] == lead
    ensures ReadHeader(buf, lead) == Parsed(ParseDigits(buf[..i]), i)
  {
    var h := ReadHeader(buf, lead);
    assert h.Parsed? && h.cr == i;
  }

  /** A number with a non-zero digit parses to its positive decimal value. */
  lemma NonZeroValue(s: seq<byte>)
    requires !OnlyZeroDigits(s)
    ensures ParseDigits(s) == Positional(DigitsOf(s)) > 0
  {
    ParseZeroIff(s);
    ParseIsPositional(s);
  }

  /** A count header that is not terminated yet is left in the buffer and
      nothing but the mode changes. */
  lemma CountHeaderIncomplete(c: CodecState, buf: seq<byte>)
    requires AwaitsCount(c, buf)
    requires NoCR(buf) || (buf[0] == Star && CROnlyAtEnd(buf))
    ensures Decode(c, buf) == Decoded(c.(reqType := MultiBulk), buf, Ok(None))
  {
  }

  /** Once in multi-bulk mode, a frame that does not start with '*' is an
      error as soon as a carriage return is buffered, even when it is the
      last byte; nothing is consumed. */
  lemma CountHeaderBadLead(c: CodecState, buf: seq<byte>)
    requires Decodable(c) && c.reqType == MultiBulk && c.multibulklen == 0
    requires !NoCR(buf) && buf[0] != Star
    ensures Decode(c, buf) == Decoded(c, buf, Err(Redis))
  {
  }

  /** A count whose digits are all '0' (or that has no digits) consumes its
      header and yields no request; no frame is started. */
  lemma EmptyFrameSkipped(c: CodecState, buf: seq<byte>, i: nat)
    requires AwaitsCount(c, buf) && FirstCRAt(buf, i) && buf[0] == Star
    requires OnlyZeroDigits(buf[..i])
    ensures Decode(c, buf) == Decoded(c.(reqType := MultiBulk), buf[i + 2..], Ok(None))
    ensures Decode(c, buf).codec.multibulklen == 0
  {
    HeaderAt(buf, Star, i);
    ParseZeroIff(buf[..i]);
  }

  /** A positive count starts a frame: exactly the header is consumed before
      the bulk loop runs, with `multibulklen` set to the count. */
  lemma CountHeaderStartsFrame(c: CodecState, buf: seq<byte>, i: nat)
    requires AwaitsCount(c, buf) && FirstCRAt(buf, i) && buf[0] == Star
    requires !OnlyZeroDigits(buf[..i])
    ensures var n := Positional(DigitsOf(buf[..i]));
            n > 0
            && Decode(c, buf)
               == DecodeBulks(CodecState(c.req.(args := []), MultiBulk, n, c.bulklen), buf[i + 2..])
  {
    NonZeroValue(buf[..i]);
    HeaderAt(buf, Star, i);
    var n := ParseDigits(buf[..i]);
    var c' := c.(reqType := MultiBulk);
    assert Decode(c, buf) == DecodeMultiBulk(c', buf);
    MultiBulkStarts(c', buf, n, i);
  }

  /** The count header step of `process_multibulk_buffer` on its own. */
  lemma MultiBulkStarts(c: CodecState, buf: seq<byte>, n: nat, i: nat)
    requires Decodable(c) && c.multibulklen == 0
    requires ReadHeader(buf, Star) == Parsed(n, i) && n > 0
    ensures DecodeMultiBulk(c, buf) == DecodeBulks(CodecState(c.req.(args := []), c.reqType, n, c.bulklen), buf[i + 2..])
  {
  }

  /** A bulk header that is not terminated yet is left in the buffer and
      the state is unchanged. */
  lemma BulkHeaderIncomplete(c: CodecState, buf: seq<byte>)
    requires AwaitsBulkHeader(c)
    requires NoCR(buf) || (buf[0] == Dollar && CROnlyAtEnd(buf))
    ensures Decode(c, buf) == Decoded(c, buf, Ok(None))
  {
  }

  /** A bulk header not starting with '$' is an error once a carriage
      return is buffered, before the position of that `\r` is looked at. */
  lemma BulkHeaderBadLead(c: CodecState, buf: seq<byte>)
    requires AwaitsBulkHeader(c)
    requires !NoCR(buf) && buf[0] != Dollar
    ensures Decode(c, buf) == Decoded(c, buf, Err(Redis))
  {
  }

  /** A bulk length of zero (all digits '0', or none) is an error, raised
      before the header is consumed. */
  lemma ZeroBulkRejected(c: CodecState, buf: seq<byte>, i: nat)
    requires AwaitsBulkHeader(c)
    requires FirstCRAt(buf, i) && buf[0] == Dollar && OnlyZeroDigits(buf[..i])
    ensures Decode(c, buf) == Decoded(c, buf, Err(Redis))
  {
    HeaderAt(buf, Dollar, i);
    ParseZeroIff(buf[..i]);
  }

  /** A header whose body has not fully arrived: the header is consumed, its
      length is remembered in `bulklen`, and the payload is awaited. */
  lemma BulkBodyPending(c: CodecState, buf: seq<byte>, i: nat)
    requires AwaitsBulkHeader(c)
    requires FirstCRAt(buf, i) && buf[0] == Dollar && !OnlyZeroDigits(buf[..i])
    requires |buf| - (i + 2) < Positional(DigitsOf(buf[..i])) + 2
    ensures var n := Positional(DigitsOf(buf[..i]));
            Decode(c, buf) == Decoded(c.(bulklen := n), buf[i + 2..], Ok(None))
  {
    NonZeroValue(buf[..i]);
    HeaderAt(buf, Dollar, i);
  }

  /** With a bulk length remembered, fewer than `bulklen + 2` bytes leave
      everything as it is. */
  lemma BodyIncomplete(c: CodecState, buf: seq<byte>)
    requires c.reqType == MultiBulk && c.multibulklen > 0 && c.bulklen >= 1
    requires |buf| < c.bulklen + 2
    ensures Decode(c, buf) == Decoded(c, buf, Ok(None))
  {
  }

  /** Reading a header skips every byte that is not a digit (the lead byte,
      a '-' sign, letters) and never looks at the byte after the `\r`: the
      header `<lead><junk><decimal n>\r<any byte>` reads as `n`. */
  lemma {:induction false} HeaderSkipsNonDigits(lead: byte, junk: seq<byte>, n: nat, x: byte, more: seq<byte>)
    requires lead != CR && !IsDigit(lead)
    requires Skippable(junk)
    ensures var head := [lead] + junk + Decimal(n);
            ReadHeader(head + [CR, x] + more, lead) == Parsed(n, |head|)
  {
    var ds := Decimal(n);
    var head := [lead] + junk + ds;
    var buf := head + [CR, x] + more;
    assert buf[|head|] == CR;
    forall j | 0 <= j < |head|
      ensures buf[j] != CR
    {
      assert buf[j] == head[j];
      if 1 <= j < 1 + |junk| {
        assert head[j] == junk[j - 1];
      } else if j >= 1 + |junk| {
        assert head[j] == ds[j - 1 - |junk|];
      }
    }
    assert buf[..|head|] == ([lead] + junk) + ds;
    ParseSkipsPrefix([lead] + junk, ds);
    ParseDecimal(n);
  }

  /** Which bytes a completed loop iteration takes: with a bulk length
      remembered, the first `bulklen` bytes; otherwise the `value` bytes
      that follow the two bytes after the header's `\r`. Two more bytes
      are dropped after the payload. */
  lemma BulkStepTakesPayload(c: CodecState, buf: seq<byte>)
    requires Pending(c) && c.multibulklen > 0 && BulkStep(c, buf).Continue?
    ensures c.bulklen >= 1 ==>
              var s := BulkStep(c, buf);
              && c.bulklen + 2 <= |buf| && s.rest == buf[c.bulklen + 2..]
              && Payloads(s.codec.req) == Payloads(c.req) + [buf[..c.bulklen]]
    ensures c.bulklen == -1 ==>
              var s := BulkStep(c, buf);
              var h := ReadHeader(buf, Dollar);
              && h.Parsed? && h.value >= 1 && h.cr + 4 + h.value <= |buf|
              && s.rest == buf[h.cr + 4 + h.value..]
              && Payloads(s.codec.req) == Payloads(c.req) + [buf[h.cr + 2..h.cr + 2 + h.value]]
  {
    if c.bulklen == -1 {
      HeaderThenBodyTakes(c, buf);
    } else {
      assert buf[0..] == buf;
      assert BulkStep(c, buf) == BulkBody(c, buf[0..]);
      BodyAfterHeader(c, buf, 0);
    }
  }

  /** `BulkStepTakesPayload` when the header is read in the same iteration. */
  lemma HeaderThenBodyTakes(c: CodecState, buf: seq<byte>)
    requires Pending(c) && c.multibulklen > 0 && c.bulklen == -1 && BulkStep(c, buf).Continue?
    ensures var s := BulkStep(c, buf);
            var h := ReadHeader(buf, Dollar);
            && h.Parsed? && h.value >= 1 && h.cr + 4 + h.value <= |buf|
            && s.rest == buf[h.cr + 4 + h.value..]
            && Payloads(s.codec.req) == Payloads(c.req) + [buf[h.cr + 2..h.cr + 2 + h.value]]
  {
    var h := ReadHeader(buf, Dollar);
    assert BulkStep(c, buf) == BulkBody(c.(bulklen := h.value), buf[h.cr + 2..]);
    BodyAfterHeader(c.(bulklen := h.value), buf, h.cr + 2);
  }

  /** The body step on the bytes after a header, in terms of the whole buffer. */
  lemma BodyAfterHeader(c: CodecState, buf: seq<byte>, k: nat)
    requires c.bulklen >= 1 && c.multibulklen > 0 && Shaped(c.req) && k <= |buf|
    requires BulkBody(c, buf[k..]).Continue?
    ensures var s := BulkBody(c, buf[k..]);
            && k + c.bulklen + 2 <= |buf| && s.rest == buf[k + c.bulklen + 2..]
            && Payloads(s.codec.req) == Payloads(c.req) + [buf[k..k + c.bulklen]]
  {
    var body := buf[k..];
    assert body[..c.bulklen] == buf[k..k + c.bulklen];
    assert body[c.bulklen + 2..] == buf[k + c.bulklen + 2..];
  }
}
