/** The request decoder of src/codec/mod.rs as a pure state machine.

    The Rust `Codec` keeps a request under construction, the framing mode
    and two counters (`multibulklen`: bulk strings still expected,
    `bulklen`: length of the current bulk or -1 while its `$<len>\r\n`
    header is awaited). `decode` inspects a byte buffer it may only shorten
    from the front. Here `Decode(c, buf)` returns the next codec state, the
    remaining suffix of `buf` and the result: `Ok(None)` (wait for more
    bytes), `Ok(Some(req))` (a complete request) or `Err(Redis)`.

    Multi-bulk framing: `*<argc>\r\n` then, per argument, `$<len>\r\n`,
    `<len>` payload bytes and two terminator bytes. */
module Codec {
  import opened Wrappers
  import opened Bytes
  import opened Digits
  import opened Errors

  /** A decoded request: the first payload is the command name, the later
      ones the arguments, in order. */
  datatype CmdReq = CmdReq(command: seq<byte>, args: seq<seq<byte>>)

  /** `CmdReq::new()`, and the value `reset` leaves behind. */
  const EmptyReq: CmdReq := CmdReq([], [])

  datatype ReqType = Init | MultiBulk | Inline

  /** The fields of the Rust `Codec` struct, with the i64 counters as `int`. */
  datatype CodecState = CodecState(req: CmdReq, reqType: ReqType, multibulklen: int, bulklen: int)

  /** What one `decode` call leaves behind. */
  datatype Decoded = Decoded(codec: CodecState, rest: seq<byte>, result: Result<Option<CmdReq>, Error>)

  /** Outcome of reading one `<lead><digits>\r?` header line. `cr` is the
      index of the first carriage return. */
  datatype Header = Incomplete | BadLead | Parsed(value: nat, cr: nat)

  /** Outcome of one iteration of the bulk loop. */
  datatype Step = Halt(out: Decoded) | Continue(codec: CodecState, rest: seq<byte>)

  /** The payloads accumulated in a request, in arrival order. */
  function Payloads(req: CmdReq): seq<seq<byte>> {
    if req.command == [] then [] else [req.command] + req.args
  }

  /** Arguments are only ever added once a command name is present. */
  predicate Shaped(req: CmdReq) {
    req.command == [] ==> req.args == []
  }

  /** States on which `decode` is defined: the loop counter cannot be
      negative and the bulk length is -1 or a byte count. */
  predicate Decodable(c: CodecState) {
    c.multibulklen >= 0 && c.bulklen >= -1
  }

  /** The invariant between two iterations of the bulk loop. */
  predicate Pending(c: CodecState) {
    && c.multibulklen >= 0
    && (c.bulklen == -1 || (c.bulklen >= 1 && c.multibulklen >= 1))
    && Shaped(c.req)
  }

  /** The invariant of every state `new` and `decode` can produce: between
      frames the request under construction is empty. */
  predicate Valid(c: CodecState) {
    Pending(c) && (c.multibulklen == 0 ==> c.req == EmptyReq)
  }

  /** `Codec::new()` */
  function New(): (c: CodecState)
    ensures Valid(c) && c.reqType == Init && c.req == EmptyReq
    ensures c.multibulklen == 0 && c.bulklen == -1
  {
    CodecState(EmptyReq, Init, 0, -1)
  }

  /** Where the payload of a bulk goes: into `command` while that is still
      empty, otherwise onto the end of `args`. */
  function AppendPayload(req: CmdReq, p: seq<byte>): (r: CmdReq)
    ensures |p| > 0 && Shaped(req) ==> Shaped(r) && Payloads(r) == Payloads(req) + [p]
    ensures |p| == 0 && req.command == [] ==> r == req
  {
    if req.command == [] then req.(command := p) else req.(args := req.args + [p])
  }

  /** Lines 38-63 and 75-96: find the first `\r`; with one present the lead
      byte must be `lead`; the `\r` must not be the last byte; the number is
      the digit bytes before the `\r`. The byte after the `\r` is never
      looked at. */
  function ReadHeader(buf: seq<byte>, lead: byte): (h: Header)
    ensures h.Incomplete? <==>
              (forall j :: 0 <= j < |buf| ==> buf[j] != CR)
              || (|buf| > 0 && buf[0] == lead && buf[|buf| - 1] == CR
                  && forall j :: 0 <= j < |buf| - 1 ==> buf[j] != CR)
    ensures h.BadLead? <==> |buf| > 0 && (exists j :: 0 <= j < |buf| && buf[j] == CR) && buf[0] != lead
    ensures h.Parsed? ==>
              && h.cr + 2 <= |buf| && buf[0] == lead && buf[h.cr] == CR
              && (forall j :: 0 <= j < h.cr ==> buf[j] != CR)
              && h.value == ParseDigits(buf[..h.cr])
  {
    match FindCR(buf)
    case None => Incomplete
    case Some(i) =>
      if buf[0] != lead then BadLead
      else if i == |buf| - 1 then Incomplete
      else Parsed(ParseDigits(buf[..i]), i)
  }

  /** Lines 105-122: with `bulklen + 2` bytes present, move the payload into
      the request, drop payload and terminator, and expect the next header. */
  function BulkBody(c: CodecState, buf: seq<byte>): (s: Step)
    requires c.bulklen >= 0 && c.multibulklen > 0
    ensures s.Halt? <==> |buf| < c.bulklen + 2
    ensures s.Halt? ==> s.out == Decoded(c, buf, Ok(None))
    ensures s.Continue? ==>
              && s.rest == buf[c.bulklen + 2..]
              && s.codec.bulklen == -1
              && s.codec.multibulklen == c.multibulklen - 1
              && s.codec.reqType == c.reqType
    ensures s.Continue? && c.bulklen >= 1 && Shaped(c.req) ==>
              Shaped(s.codec.req) && Payloads(s.codec.req) == Payloads(c.req) + [buf[..c.bulklen]]
  {
    if |buf| < c.bulklen + 2 then Halt(Decoded(c, buf, Ok(None)))
    else
      var req := AppendPayload(c.req, buf[..c.bulklen]);
      Continue(CodecState(req, c.reqType, c.multibulklen - 1, -1), buf[c.bulklen + 2..])
  }

  /** One iteration of the `while self.multibulklen != 0` loop (lines 74-122):
      read the `$<len>` header if none is pending, then the body. */
  function BulkStep(c: CodecState, buf: seq<byte>): (s: Step)
    requires Decodable(c) && c.multibulklen > 0
    ensures s.Halt? ==> IsSuffix(s.out.rest, buf) && s.out.codec.reqType == c.reqType
    ensures s.Halt? ==> s.out.codec.multibulklen == c.multibulklen && s.out.codec.req == c.req
    ensures s.Halt? ==> s.out.result == Ok(None) || s.out.result == Err(Redis)
    ensures s.Halt? ==> Decodable(s.out.codec)
    ensures s.Halt? && Pending(c) ==> Pending(s.out.codec)
    ensures s.Continue? ==>
              && IsSuffix(s.rest, buf) && |s.rest| < |buf|
              && s.codec.reqType == c.reqType
              && s.codec.multibulklen == c.multibulklen - 1
              && s.codec.bulklen == -1
    ensures s.Continue? && Pending(c) ==>
              Shaped(s.codec.req) && |Payloads(s.codec.req)| == |Payloads(c.req)| + 1
              && Payloads(s.codec.req)[..|Payloads(c.req)|] == Payloads(c.req)
  {
    if c.bulklen == -1 then
      match ReadHeader(buf, Dollar)
      case Incomplete => Halt(Decoded(c, buf, Ok(None)))
      case BadLead => Halt(Decoded(c, buf, Err(Redis)))
      case Parsed(n, i) =>
        if n == 0 then Halt(Decoded(c, buf, Err(Redis)))
        else BulkBody(c.(bulklen := n), buf[i + 2..])
    else BulkBody(c, buf)
  }

  /** The bulk loop and the return after it (lines 72-127): on completion the
      request is handed out and the codec's copy is reset. */
  function DecodeBulks(c: CodecState, buf: seq<byte>): (d: Decoded)
    requires Decodable(c)
    ensures IsSuffix(d.rest, buf)
    ensures d.codec.reqType == c.reqType
    ensures d.result.Err? ==> d.result.error == Redis
    ensures d.result == Ok(None) ==> 0 < d.codec.multibulklen <= c.multibulklen
    ensures d.result.Ok? && d.result.value.Some? ==>
              d.codec.multibulklen == 0 && d.codec.req == EmptyReq
              && (c.multibulklen > 0 ==> d.codec.bulklen == -1)
    ensures d.result.Ok? && d.result.value.Some? && Pending(c) ==>
              var r := d.result.value.value;
              && Shaped(r)
              && |Payloads(r)| == |Payloads(c.req)| + c.multibulklen
              && Payloads(r)[..|Payloads(c.req)|] == Payloads(c.req)
    ensures Decodable(d.codec)
    ensures Pending(c) ==> Valid(d.codec)
    decreases c.multibulklen
  {
    if c.multibulklen == 0 then
      Decoded(c.(req := EmptyReq), buf, Ok(Some(c.req)))
    else
      match BulkStep(c, buf)
      case Halt(d) => d
      case Continue(c', rest) => DecodeBulks(c', rest)
  }

  /** `process_multibulk_buffer` (lines 36-128): read the `*<argc>` header
      when no frame is in progress. A count of zero consumes the header and
      reports `Ok(None)`. */
  function DecodeMultiBulk(c: CodecState, buf: seq<byte>): (d: Decoded)
    requires Decodable(c)
    ensures IsSuffix(d.rest, buf)
    ensures d.codec.reqType == c.reqType
    ensures d.result.Err? ==> d.result.error == Redis
    ensures d.result.Ok? && d.result.value.Some? ==> d.codec.multibulklen == 0 && d.codec.req == EmptyReq
    ensures Decodable(d.codec)
    ensures Valid(c) ==> Valid(d.codec)
  {
    if c.multibulklen == 0 then
      match ReadHeader(buf, Star)
      case Incomplete => Decoded(c, buf, Ok(None))
      case BadLead => Decoded(c, buf, Err(Redis))
      case Parsed(n, i) =>
        if n <= 0 then Decoded(c, buf[i + 2..], Ok(None))
        else DecodeBulks(c.(multibulklen := n, req := c.req.(args := [])), buf[i + 2..])
    else DecodeBulks(c, buf)
  }

  /** `process_inline_buffer` (lines 32-34): a stub that consumes nothing
      and reports an empty request. */
  function DecodeInline(c: CodecState, buf: seq<byte>): (d: Decoded)
    ensures d.rest == buf && d.codec == c && d.result.Ok? && d.result.value.Some?
    ensures d.result.value.value.command == [] && d.result.value.value.args == []
  {
    Decoded(c, buf, Ok(Some(EmptyReq)))
  }

  /** The mode after looking at the first byte: chosen once, from `Init`. */
  function SelectMode(mode: ReqType, first: byte): (m: ReqType)
    ensures m != Init
    ensures mode != Init ==> m == mode
    ensures mode == Init ==> (m == MultiBulk <==> first == Star)
  {
    match mode
    case Init => if first == Star then MultiBulk else Inline
    case Inline => Inline
    case MultiBulk => MultiBulk
  }

  /** `Decoder::decode` (lines 135-157). */
  function Decode(c: CodecState, buf: seq<byte>): (d: Decoded)
    requires Decodable(c)
    ensures IsSuffix(d.rest, buf)
    ensures |buf| == 0 ==> d == Decoded(c, buf, Ok(None))
    ensures c.reqType != Init ==> d.codec.reqType == c.reqType
    ensures c.reqType == Init && |buf| > 0 ==>
              d.codec.reqType == (if buf[0] == Star then MultiBulk else Inline)
    ensures d.codec.reqType == Init <==> c.reqType == Init && |buf| == 0
    ensures d.codec.reqType == Inline && |buf| > 0 ==>
              d == Decoded(c.(reqType := Inline), buf, Ok(Some(EmptyReq)))
    ensures d.result.Err? ==> d.result.error == Redis
    ensures d.codec.reqType == MultiBulk && d.result.Ok? && d.result.value.Some? ==>
              d.codec.multibulklen == 0 && d.codec.req == EmptyReq
    ensures Decodable(d.codec)
    ensures Valid(c) ==> Valid(d.codec)
  {
    if |buf| == 0 then Decoded(c, buf, Ok(None))
    else
      var c1 := c.(reqType := SelectMode(c.reqType, buf[0]));
      if c1.reqType == MultiBulk then DecodeMultiBulk(c1, buf) else DecodeInline(c1, buf)
  }

  /** `Encoder::encode` (lines 163-166): the response bytes are appended to
      the output buffer verbatim. */
  function Encode(item: seq<byte>, dst: seq<byte>): (r: seq<byte>)
    ensures |r| == |dst| + |item|
    ensures r[..|dst|] == dst && r[|dst|..] == item
  {
    dst + item
  }
}
