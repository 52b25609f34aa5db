/** A reference encoder for the multi-bulk request format, and the proof that
    the decoder inverts it: from a state between frames, decoding an encoded
    request followed by any bytes yields that request, consumes exactly the
    frame and leaves the codec ready for the next frame. */
module CodecFrames {
  import opened Wrappers
  import opened Bytes
  import opened Digits
  import opened Codec
  import opened CodecSteps

  /** `<lead><decimal n>\r\n` */
  function HeaderLine(lead: byte, n: nat): seq<byte> {
    [lead] + Decimal(n) + [CR, LF]
  }

  /** `$<len>\r\n<payload>\r\n` */
  function EncodeBulk(p: seq<byte>): seq<byte> {
    HeaderLine(Dollar, |p|) + p + [CR, LF]
  }

  function EncodeBulks(ps: seq<seq<byte>>): seq<byte> {
    if |ps| == 0 then [] else EncodeBulk(ps[0]) + EncodeBulks(ps[1..])
  }

  /** `*<1 + |args|>\r\n` followed by the command name and the arguments as
      bulk strings. */
  function EncodeRequest(req: CmdReq): seq<byte> {
    HeaderLine(Star, 1 + |req.args|) + EncodeBulks([req.command] + req.args)
  }

  /** Requests the decoder can carry: it rejects empty bulk strings. */
  predicate Encodable(req: CmdReq) {
    |req.command| > 0 && forall k :: 0 <= k < |req.args| ==> |req.args[k]| > 0
  }

  /** The state `decode` leaves after a completed request: still in
      multi-bulk mode, never back to `Init`. */
  const Ready: CodecState := CodecState(EmptyReq, MultiBulk, 0, -1)

  /** The state after one bulk string with payload `p` was taken in: the
      payload appended, one bulk fewer expected and the next header
      awaited. */
  function AfterBulk(c: CodecState, p: seq<byte>): (a: CodecState)
    ensures a.reqType == c.reqType && a.multibulklen == c.multibulklen - 1 && a.bulklen == -1
    ensures |p| > 0 && Pending(c) && c.multibulklen > 0 ==>
              Pending(a) && Payloads(a.req) == Payloads(c.req) + [p]
  {
    CodecState(AppendPayload(c.req, p), c.reqType, c.multibulklen - 1, -1)
  }

  /** How loosely the decoder lets a header line or a bulk string be
      written: `junk` bytes between the lead byte and the number, any byte
      `x` where the header's `\n` belongs, and any bytes `y`, `z` where the
      `\r\n` after the payload belongs. */
  datatype Form = Form(junk: seq<byte>, x: byte, y: byte, z: byte)

  predicate Accepted(fs: seq<Form>) {
    forall k :: 0 <= k < |fs| ==> Skippable(fs[k].junk)
  }

  /** The form the reference encoder writes. */
  const Strict: Form := Form([], LF, CR, LF)

  function Stricts(n: nat): (fs: seq<Form>)
    ensures |fs| == n && Accepted(fs)
  {
    seq(n, _ => Strict)
  }

  /** `<lead><junk><decimal n>\r<x>` */
  function LooseHeader(lead: byte, junk: seq<byte>, x: byte, n: nat): seq<byte> {
    [lead] + junk + Decimal(n) + [CR, x]
  }

  /** `$<junk><len>\r<x><payload><y><z>` */
  function LooseBulk(f: Form, p: seq<byte>): seq<byte> {
    LooseHeader(Dollar, f.junk, f.x, |p|) + p + [f.y, f.z]
  }

  function LooseBulks(fs: seq<Form>, ps: seq<seq<byte>>): seq<byte>
    requires |fs| == |ps|
  {
    if |ps| == 0 then [] else LooseBulk(fs[0], ps[0]) + LooseBulks(fs[1..], ps[1..])
  }

  /** A request frame written with the count header `*<junk><count>\r<x>`
      and the bulk strings in the forms `fs`. */
  function LooseRequest(junk: seq<byte>, x: byte, fs: seq<Form>, req: CmdReq): seq<byte>
    requires |fs| == 1 + |req.args|
  {
    LooseHeader(Star, junk, x, |fs|) + LooseBulks(fs, [req.command] + req.args)
  }

  /** The reference encoding is the strict form of every bulk. */
  lemma {:induction false} StrictBulks(ps: seq<seq<byte>>)
    ensures EncodeBulks(ps) == LooseBulks(Stricts(|ps|), ps)
    decreases |ps|
  {
    if |ps| > 0 {
      assert Stricts(|ps|)[1..] == Stricts(|ps| - 1);
      StrictBulks(ps[1..]);
      assert [Dollar] + [] + Decimal(|ps[0]|) == [Dollar] + Decimal(|ps[0]|);
    }
  }

  lemma StrictRequest(req: CmdReq)
    ensures EncodeRequest(req) == LooseRequest([], LF, Stricts(1 + |req.args|), req)
  {
    StrictBulks([req.command] + req.args);
    assert [Star] + [] + Decimal(1 + |req.args|) == [Star] + Decimal(1 + |req.args|);
  }

  /** A loosely written header line reads as its number and spans its `\r`
      and the byte after it. */
  lemma LooseHeaderRead(lead: byte, junk: seq<byte>, x: byte, n: nat, more: seq<byte>)
    requires lead != CR && !IsDigit(lead) && Skippable(junk)
    ensures var h := LooseHeader(lead, junk, x, n);
            |h| >= 2 && ReadHeader(h + more, lead) == Parsed(n, |h| - 2)
  {
    var head := [lead] + junk + Decimal(n);
    HeaderSkipsNonDigits(lead, junk, n, x, more);
    assert LooseHeader(lead, junk, x, n) + more == head + [CR, x] + more;
  }

  /** One loop iteration consumes exactly one bulk string, however loosely
      written, and appends its payload. */
  lemma BulkStepLoose(c: CodecState, f: Form, p: seq<byte>, more: seq<byte>)
    requires Pending(c) && c.multibulklen > 0 && c.bulklen == -1 && |p| > 0
    requires Skippable(f.junk)
    ensures BulkStep(c, LooseBulk(f, p) + more) == Continue(AfterBulk(c, p), more)
  {
    var h := LooseHeader(Dollar, f.junk, f.x, |p|);
    var rest := p + [f.y, f.z] + more;
    var buf := LooseBulk(f, p) + more;
    assert buf == h + rest;
    LooseHeaderRead(Dollar, f.junk, f.x, |p|, rest);
    assert buf[|h|..] == rest;
    BulkAfterHeader(c, buf, |h| - 2, p, f.y, f.z, more);
  }

  /** A bulk header of value `|p|` followed by `p`, two bytes and `more`. */
  lemma BulkAfterHeader(c: CodecState, buf: seq<byte>, i: nat, p: seq<byte>, y: byte, z: byte, more: seq<byte>)
    requires Pending(c) && c.multibulklen > 0 && c.bulklen == -1 && |p| > 0
    requires ReadHeader(buf, Dollar) == Parsed(|p|, i)
    requires buf[i + 2..] == p + [y, z] + more
    ensures BulkStep(c, buf) == Continue(AfterBulk(c, p), more)
  {
    var body := buf[i + 2..];
    assert BulkStep(c, buf) == BulkBody(c.(bulklen := |p|), body);
    BodyTakes(c.(bulklen := |p|), body, p, y, z, more);
  }

  /** A body step over the payload, two bytes and `more`. */
  lemma BodyTakes(c: CodecState, body: seq<byte>, p: seq<byte>, y: byte, z: byte, more: seq<byte>)
    requires c.bulklen == |p| && c.multibulklen > 0
    requires body == p + [y, z] + more
    ensures BulkBody(c, body) == Continue(CodecState(AppendPayload(c.req, p), c.reqType, c.multibulklen - 1, -1), more)
  {
    assert body[..|p|] == p;
    assert body[|p| + 2..] == more;
  }

  /** `d` completed the frame: it consumed everything before `tail`,
      reset the codec and handed out a request carrying `ps` after the
      payloads `c` already held. */
  predicate CompletedWith(d: Decoded, c: CodecState, ps: seq<seq<byte>>, tail: seq<byte>) {
    && d.rest == tail
    && d.codec == CodecState(EmptyReq, c.reqType, 0, -1)
    && d.result.Ok? && d.result.value.Some?
    && Shaped(d.result.value.value)
    && Payloads(d.result.value.value) == Payloads(c.req) + ps
  }

  /** The bulk loop consumes a run of bulk strings, one per expected
      argument and each in its own accepted form, and appends their
      payloads in order. */
  lemma {:induction false} DecodeBulksLoose(c: CodecState, fs: seq<Form>, ps: seq<seq<byte>>, tail: seq<byte>)
    requires Pending(c) && c.bulklen == -1 && c.multibulklen == |ps|
    requires |fs| == |ps| && Accepted(fs)
    requires forall k :: 0 <= k < |ps| ==> |ps[k]| > 0
    ensures CompletedWith(DecodeBulks(c, LooseBulks(fs, ps) + tail), c, ps, tail)
    decreases |ps|
  {
    if |ps| == 0 {
      assert LooseBulks(fs, ps) + tail == tail;
      assert Payloads(c.req) + ps == Payloads(c.req);
    } else {
      var more := LooseBulks(fs[1..], ps[1..]) + tail;
      LooseBulksCons(fs, ps, tail);
      BulkStepLoose(c, fs[0], ps[0], more);
      DecodeBulksLoose(AfterBulk(c, ps[0]), fs[1..], ps[1..], tail);
      FramedStep(c, LooseBulk(fs[0], ps[0]) + more, ps[0], ps[1..], tail, more);
      assert [ps[0]] + ps[1..] == ps;
    }
  }

  lemma LooseBulksCons(fs: seq<Form>, ps: seq<seq<byte>>, tail: seq<byte>)
    requires |fs| == |ps| > 0
    ensures LooseBulks(fs, ps) + tail == LooseBulk(fs[0], ps[0]) + (LooseBulks(fs[1..], ps[1..]) + tail)
  {
  }

  /** The bulk loop consumes a run of encoded bulk strings, one per expected
      argument, and appends their payloads in order. */
  lemma DecodeBulksFramed(c: CodecState, ps: seq<seq<byte>>, tail: seq<byte>)
    requires Pending(c) && c.bulklen == -1 && c.multibulklen == |ps|
    requires forall k :: 0 <= k < |ps| ==> |ps[k]| > 0
    ensures CompletedWith(DecodeBulks(c, EncodeBulks(ps) + tail), c, ps, tail)
  {
    StrictBulks(ps);
    DecodeBulksLoose(c, Stricts(|ps|), ps, tail);
  }

  /** The inductive step of `DecodeBulksFramed`: one bulk, then the rest. */
  lemma FramedStep(c: CodecState, buf: seq<byte>, p: seq<byte>, ps: seq<seq<byte>>, tail: seq<byte>, more: seq<byte>)
    requires Pending(c) && c.multibulklen > 0 && c.bulklen == -1 && |p| > 0
    requires BulkStep(c, buf) == Continue(AfterBulk(c, p), more)
    requires CompletedWith(DecodeBulks(AfterBulk(c, p), more), AfterBulk(c, p), ps, tail)
    ensures CompletedWith(DecodeBulks(c, buf), c, [p] + ps, tail)
  {
    assert DecodeBulks(c, buf) == DecodeBulks(AfterBulk(c, p), more);
    CompletedShift(DecodeBulks(AfterBulk(c, p), more), c, AfterBulk(c, p), p, ps, tail);
  }

  /** Completing from the state after one more payload `p` is completing
      from the state before it with `p` in front. */
  lemma CompletedShift(d: Decoded, c: CodecState, c': CodecState, p: seq<byte>, ps: seq<seq<byte>>, tail: seq<byte>)
    requires c'.reqType == c.reqType && Payloads(c'.req) == Payloads(c.req) + [p]
    requires CompletedWith(d, c', ps, tail)
    ensures CompletedWith(d, c, [p] + ps, tail)
  {
    assert Payloads(c.req) + [p] + ps == Payloads(c.req) + ([p] + ps);
  }

  /** Two well-shaped requests with the same payloads are the same request. */
  lemma PayloadsDetermineRequest(a: CmdReq, b: CmdReq)
    requires Shaped(a) && Shaped(b) && Payloads(a) == Payloads(b)
    ensures a == b
  {
    if a.command != [] {
      assert Payloads(b) != [];
      assert Payloads(a)[0] == a.command && Payloads(b)[0] == b.command;
      assert Payloads(a)[1..] == a.args && Payloads(b)[1..] == b.args;
    }
  }

  /** The decoder accepts loosely written frames too: from the fresh state
      or from the state any completed request leaves, a frame whose headers
      carry skippable bytes and whose line ends are arbitrary bytes decodes
      to its request, whatever bytes follow it. */
  lemma DecodeLoose(c: CodecState, junk: seq<byte>, x: byte, fs: seq<Form>, req: CmdReq, tail: seq<byte>)
    requires Valid(c) && c.multibulklen == 0 && c.reqType != Inline
    requires Encodable(req) && Skippable(junk)
    requires |fs| == 1 + |req.args| && Accepted(fs)
    ensures Decode(c, LooseRequest(junk, x, fs, req) + tail) == Decoded(Ready, tail, Ok(Some(req)))
  {
    var ps := [req.command] + req.args;
    var bulks := LooseBulks(fs, ps) + tail;
    var h := LooseHeader(Star, junk, x, |ps|);
    var buf := LooseRequest(junk, x, fs, req) + tail;
    assert buf == h + bulks;
    LooseHeaderRead(Star, junk, x, |ps|, bulks);
    assert buf[|h|..] == bulks;
    FrameEntersLoop(c, buf, |ps|, |h| - 2);
    var c1 := CodecState(EmptyReq, MultiBulk, |ps|, -1);
    PayloadsNonEmpty(req);
    DecodeBulksLoose(c1, fs, ps, tail);
    CompletedIsRequest(DecodeBulks(c1, bulks), c1, req, tail);
  }

  /** Decoding inverts encoding, from the fresh state or from the state any
      completed request leaves, whatever bytes follow the frame. */
  lemma DecodeEncode(c: CodecState, req: CmdReq, tail: seq<byte>)
    requires Valid(c) && c.multibulklen == 0 && c.reqType != Inline
    requires Encodable(req)
    ensures Decode(c, EncodeRequest(req) + tail) == Decoded(Ready, tail, Ok(Some(req)))
  {
    StrictRequest(req);
    DecodeLoose(c, [], LF, Stricts(1 + |req.args|), req, tail);
  }

  /** A frame completed from an empty request with the payloads of `req`
      hands out `req` itself and leaves the ready state. */
  lemma CompletedIsRequest(d: Decoded, c: CodecState, req: CmdReq, tail: seq<byte>)
    requires c.req == EmptyReq && c.reqType == MultiBulk && |req.command| > 0
    requires CompletedWith(d, c, [req.command] + req.args, tail)
    ensures d == Decoded(Ready, tail, Ok(Some(req)))
  {
    var r := d.result.value.value;
    assert Payloads(r) == [req.command] + req.args == Payloads(req);
    PayloadsDetermineRequest(r, req);
  }

  /** Every payload of an encodable request is non-empty. */
  lemma PayloadsNonEmpty(req: CmdReq)
    requires Encodable(req)
    ensures var ps := [req.command] + req.args;
            forall k :: 0 <= k < |ps| ==> |ps[k]| > 0
  {
    var ps := [req.command] + req.args;
    forall k | 0 <= k < |ps| ensures |ps[k]| > 0 {
      if k > 0 { assert ps[k] == req.args[k - 1]; }
    }
  }

  /** Between frames, a positive count header hands the bytes after it to
      the bulk loop with an empty request. */
  lemma FrameEntersLoop(c: CodecState, buf: seq<byte>, n: nat, i: nat)
    requires Valid(c) && c.multibulklen == 0 && c.reqType != Inline
    requires |buf| > 0 && buf[0] == Star && ReadHeader(buf, Star) == Parsed(n, i) && n > 0
    ensures Decode(c, buf) == DecodeBulks(CodecState(EmptyReq, MultiBulk, n, -1), buf[i + 2..])
  {
    var c' := c.(reqType := MultiBulk);
    assert Decode(c, buf) == DecodeMultiBulk(c', buf);
    MultiBulkStarts(c', buf, n, i);
  }

  /** Pipelining: two frames sent back to back come out of two successive
      calls in arrival order, each consuming exactly its own frame. */
  lemma DecodePipelined(req1: CmdReq, req2: CmdReq, tail: seq<byte>)
    requires Encodable(req1) && Encodable(req2)
    ensures var d1 := Decode(New(), EncodeRequest(req1) + EncodeRequest(req2) + tail);
            && d1 == Decoded(Ready, EncodeRequest(req2) + tail, Ok(Some(req1)))
            && Decode(d1.codec, d1.rest) == Decoded(Ready, tail, Ok(Some(req2)))
  {
    var rest := EncodeRequest(req2) + tail;
    assert EncodeRequest(req1) + EncodeRequest(req2) + tail == EncodeRequest(req1) + rest;
    DecodeEncode(New(), req1, rest);
    DecodeEncode(Ready, req2, tail);
  }

  const SetBytes: seq<byte> := [0x53, 0x45, 0x54]
  const FooBytes: seq<byte> := [0x66, 0x6F, 0x6F]
  const BarBytes: seq<byte> := [0x62, 0x61, 0x72]

  /** `*3\r\n$3\r\nSET\r\n$3\r\nfoo\r\n$3\r\nbar\r\n` */
  const SetFooBarFrame: seq<byte> :=
    [Star, 0x33, CR, LF]
    + [Dollar, 0x33, CR, LF] + SetBytes + [CR, LF]
    + [Dollar, 0x33, CR, LF] + FooBytes + [CR, LF]
    + [Dollar, 0x33, CR, LF] + BarBytes + [CR, LF]

  lemma EncodeThreeByteBulk(p: seq<byte>)
    requires |p| == 3
    ensures EncodeBulk(p) == [Dollar, 0x33, CR, LF] + p + [CR, LF]
  {
    assert Decimal(3) == [0x33];
  }

  lemma EncodeBulksThree(a: seq<byte>, b: seq<byte>, c: seq<byte>)
    ensures EncodeBulks([a, b, c]) == EncodeBulk(a) + EncodeBulk(b) + EncodeBulk(c)
  {
    var ps := [a, b, c];
    assert ps[1..] == [b, c] && ps[1..][1..] == [c] && ps[1..][1..][1..] == [];
    assert EncodeBulks([c]) == EncodeBulk(c) + [];
    assert EncodeBulks([b, c]) == EncodeBulk(b) + EncodeBulk(c);
  }

  lemma SetFooBarEncoding()
    ensures EncodeRequest(CmdReq(SetBytes, [FooBytes, BarBytes])) == SetFooBarFrame
  {
    assert Decimal(3) == [0x33];
    assert HeaderLine(Star, 3) == [Star, 0x33, CR, LF];
    assert [SetBytes] + [FooBytes, BarBytes] == [SetBytes, FooBytes, BarBytes];
    EncodeBulksThree(SetBytes, FooBytes, BarBytes);
    EncodeThreeByteBulk(SetBytes);
    EncodeThreeByteBulk(FooBytes);
    EncodeThreeByteBulk(BarBytes);
  }

  /** The `SET foo bar` frame decodes from a fresh codec to command `SET`
      with arguments `foo`, `bar`, consuming the whole frame. */
  lemma DecodeSetFooBar()
    ensures Decode(New(), SetFooBarFrame)
            == Decoded(Ready, [], Ok(Some(CmdReq(SetBytes, [FooBytes, BarBytes]))))
  {
    var req := CmdReq(SetBytes, [FooBytes, BarBytes]);
    SetFooBarEncoding();
    assert EncodeRequest(req) + [] == SetFooBarFrame;
    DecodeEncode(New(), req, []);
  }
}
