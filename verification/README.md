# Multi-bulk request decoder of a Rust Redis-like server, in Dafny

This project models the request codec of a small Redis-protocol server written in Rust and proves properties of the model. It also models the key/value store that executes the decoded requests.

The codec (`src/codec/mod.rs`) reads requests framed the way Redis frames them: `*<argc>\r\n`, then one `$<len>\r\n<payload>\r\n` per argument. It is a resumable state machine:
- `req_type` is `Init`, `MULTIBULK` or `INLINE`;
- `multibulklen` counts the bulk strings still expected;
- `bulklen` is the length of the current bulk, or -1 while its header is awaited;
- `req` is the request being built.

Each `decode` call inspects a byte buffer. It only shortens the buffer from the front, and answers one of three things:
- `Ok(None)`: wait for more bytes;
- `Ok(Some(req))`: a complete request;
- an error.

Here the state is the immutable datatype `Codec.CodecState`. `Codec.Decode(c, buf)` returns the next state, the remaining suffix of `buf` and the result. Buffers are `seq<bv8>`. `memchr` is `Bytes.FindCR`, the index of the first `\r`.

The store (`src/db/mod.rs`) is a `map<seq<byte>, seq<byte>>`. `process_command` inserts `arg[0] -> arg[1]` and replies `+OK\r\n`.

Modules, one per file:
- `Wrappers`: Option and Result.
- `Errors`: the error enum.
- `Bytes`: the byte type, ASCII constants, `FindCR` and suffixes.
- `Digits`: the header number parser, plus a positional decimal reference.
- `Codec`: the state machine and the encoder.
- `CodecSteps`: what one call does at each point of a frame.
- `CodecFrames`: a reference encoder, loosely written frames the decoder also accepts, and the decode/encode round trip.
- `CodecResume`: resumption after `Ok(None)`.
- `Db`: the store.

The model follows the code as written, not an idealised RESP parser:
- Bytes that are not digits inside a length header are skipped. So `*-1` reads as a count of 1, and a count reaches the "≤ 0" branch only when its digits are all zero.
- A bulk length of 0 is an error.
- The byte after a header's `\r` is never checked to be `\n`.
- A count of 0 consumes its header and answers `Ok(None)`. The mode stays multi-bulk.
- The mode never returns to `Init`. After one multi-bulk request, a frame that does not start with `*` is an error.
- The inline path is a stub. It consumes nothing and returns an empty request.

Redis's own request parser (`processMultibulkBuffer` and `processInlineBuffer` in Redis's `networking.c`) behaves differently on each of these points:
- it rejects a count or a length that is not an optional sign followed by digits, with a protocol error;
- it accepts `$0` as an empty argument;
- it treats `*0` and a negative count as an empty request, after which the request type is reset;
- it resets the request type after every request, so inline and multi-bulk requests can alternate on one connection;
- it splits an inline line into space-separated arguments.

The model follows the code.

`Codec.Decode` requires `Codec.Decodable`: `multibulklen >= 0` and `bulklen >= -1`. Every state `new` and `decode` produce satisfies it, as `Codec.Valid` implies it. Other values of the private fields would make the Rust loop panic on a slice or never end.

## Model

| member | source | states |
|---|---|---|
| `Bytes.FindCR` | src/codec/mod.rs:38-43 | the result is the index of the first `\r` in the buffer, and is None exactly when the buffer holds no `\r` |
| `Bytes.FindCRExtends` | src/codec/mod.rs:38-43 | appending bytes never moves a `\r` already found |
| `Digits.ParseIsPositional` | src/codec/mod.rs:55-63 | the accumulated header number equals the positional decimal value of the digit bytes, every other byte ignored |
| `Digits.ParseZeroIff` | src/codec/mod.rs:64-67 | the accumulated number is zero exactly when every digit byte is '0', including when there is none |
| `Digits.ParseSkipsPrefix` | src/codec/mod.rs:57-62 | bytes that are not digits in front of a number (such as the lead byte) do not change its value |
| `Digits.ParseDecimal` | src/codec/mod.rs:88-96 | accumulating the digits of the decimal notation of n gives back n |
| `Codec.New` | src/codec/mod.rs:23-30 | a fresh codec is in `Init` mode with an empty request, no bulk string expected (`multibulklen` 0) and no bulk length pending (`bulklen` -1), and satisfies the state invariant |
| `Codec.AppendPayload` | src/codec/mod.rs:109-117 | a non-empty payload is appended as the next payload in order (the command first, then the arguments); an empty first payload would be lost |
| `Codec.ReadHeader` | src/codec/mod.rs:38-63 | the header is incomplete exactly when there is no `\r`, or the lead byte is right and the only `\r` is the last byte; a wrong lead byte with some `\r` present is rejected; otherwise the value is read from the bytes before the first `\r`, and at least one byte follows that `\r` |
| `Codec.BulkBody` | src/codec/mod.rs:105-122 | it waits, changing nothing, exactly when fewer than `bulklen + 2` bytes are buffered; otherwise it consumes exactly `bulklen + 2` bytes, appends the payload in order, sets `bulklen` to -1 and decrements `multibulklen` |
| `Codec.BulkStep` | src/codec/mod.rs:74-122 | one loop iteration either stops (with `Ok(None)` or the Redis error, counter and request untouched) or consumes a non-empty prefix, decrements `multibulklen`, and adds exactly one payload after the existing ones; which bytes that payload is, is stated by `CodecSteps.BulkStepTakesPayload` |
| `Codec.DecodeBulks` | src/codec/mod.rs:72-127 | the loop ends either waiting inside the frame (`multibulklen` still positive) or with a request carrying exactly `multibulklen` more payloads than were held, in order; on completion the counters are 0 and -1 and the codec's request is cleared; the remaining buffer is a suffix of the input and the state invariant is re-established |
| `Codec.DecodeMultiBulk` | src/codec/mod.rs:36-128 | `process_multibulk_buffer` leaves a suffix of the buffer and keeps the mode; only the Redis error is raised; a returned request leaves `multibulklen` 0 and an empty request behind; the state invariant is preserved |
| `Codec.DecodeInline` | src/codec/mod.rs:32-34 | the inline path consumes nothing, keeps the state and answers an empty request |
| `Codec.SelectMode` | src/codec/mod.rs:139-150 | the mode is never `Init` after a call; from `Init` a leading `*` selects multi-bulk and anything else inline; a chosen mode is kept |
| `Codec.Decode` | src/codec/mod.rs:135-157 | an empty buffer gives `Ok(None)` with state and buffer unchanged; the mode is chosen once and is `Init` afterwards only if nothing was ever seen; in inline mode every call answers an empty request and consumes nothing; only the Redis error is raised; a completed multi-bulk request leaves `multibulklen` 0 and a cleared request; the result buffer is a suffix of the input; `Valid` is preserved |
| `Codec.Encode` | src/codec/mod.rs:163-166 | the output buffer keeps its previous bytes and gains the response bytes verbatim at its end |
| `CodecSteps.CountHeaderIncomplete` | src/codec/mod.rs:37-52 | with no `\r`, or with `*` first and `\r` only as the last byte, a count header yields `Ok(None)` and consumes nothing |
| `CodecSteps.CountHeaderBadLead` | src/codec/mod.rs:46-48 | in multi-bulk mode between frames, a buffered `\r` and a first byte other than `*` give the Redis error with nothing consumed, even when the `\r` is the last byte |
| `CodecSteps.EmptyFrameSkipped` | src/codec/mod.rs:64-67 | a count whose digits are all '0' consumes exactly the header (index of `\r` + 2), yields `Ok(None)` and leaves `multibulklen` at 0 |
| `CodecSteps.CountHeaderStartsFrame` | src/codec/mod.rs:64-70 | a count with a non-zero digit consumes exactly the header and enters the bulk loop with `multibulklen` equal to the decimal value of its digits and the arguments cleared |
| `CodecSteps.BulkHeaderIncomplete` | src/codec/mod.rs:74-86 | with no `\r`, or with `$` first and `\r` only as the last byte, a bulk header yields `Ok(None)` and leaves state and buffer unchanged |
| `CodecSteps.BulkHeaderBadLead` | src/codec/mod.rs:81-83 | a bulk header not starting with `$` gives the Redis error once any `\r` is buffered, with nothing consumed |
| `CodecSteps.ZeroBulkRejected` | src/codec/mod.rs:88-99 | a bulk length whose digits are all '0' is the Redis error, raised before the header is consumed |
| `CodecSteps.BulkBodyPending` | src/codec/mod.rs:97-107 | a parsed bulk header whose body has not fully arrived is consumed, and its length is kept in `bulklen` for the next call |
| `CodecSteps.BodyIncomplete` | src/codec/mod.rs:105-107 | with a bulk length remembered and fewer than `bulklen + 2` bytes buffered, nothing changes |
| `CodecSteps.HeaderSkipsNonDigits` | src/codec/mod.rs:55-64 | a header `<lead><non-digits><decimal n>\r<any byte>` reads as n and spans its `\r` plus one more byte, whatever that byte is |
| `CodecSteps.BulkStepTakesPayload` | src/codec/mod.rs:74-122 | a completed loop iteration appends exactly the bytes after the header's `\r` and the byte after it (or, with a length remembered, the first bytes of the buffer), as many as the length says, and leaves the buffer two bytes after them |
| `CodecFrames.DecodeBulksFramed` | src/codec/mod.rs:72-127 | the bulk loop consumes a run of encoded bulk strings, one per expected argument, appends their payloads in order and completes with exactly the following bytes left |
| `CodecFrames.BulkStepLoose` | src/codec/mod.rs:74-122 | a bulk string with skippable bytes (neither digits nor `\r`) between `$` and its length and arbitrary bytes in place of its three line-end bytes is consumed exactly, and its payload appended, like a well-formed one |
| `CodecFrames.DecodeBulksLoose` | src/codec/mod.rs:72-127 | the bulk loop consumes a run of such loosely written bulk strings, one per expected argument, appends their payloads in order and completes with exactly the following bytes left |
| `CodecFrames.DecodeLoose` | src/codec/mod.rs:36-128 | a frame with skippable bytes in its headers and arbitrary bytes at its line ends, carrying a request with non-empty payloads, decodes to that request from a fresh codec or after any completed request, consuming exactly the frame |
| `CodecFrames.DecodeEncode` | src/codec/mod.rs:36-128 | for a request whose command and arguments are all non-empty (`Encodable`; the code rejects `$0`), from a fresh codec or from the state after any completed request, decoding the encoded request followed by any bytes returns that request, consumes exactly the frame and leaves the codec in multi-bulk mode ready for the next frame |
| `CodecFrames.DecodePipelined` | src/codec/mod.rs:125-127 | two frames sent back to back are returned by two successive calls in arrival order; each call consumes exactly its own frame and leaves the other bytes for the next call |
| `CodecFrames.DecodeSetFooBar` | src/codec/mod.rs:135-157 | `*3\r\n$3\r\nSET\r\n$3\r\nfoo\r\n$3\r\nbar\r\n` decodes from a fresh codec to command `SET` with arguments `foo`, `bar`, consuming the whole frame |
| `CodecResume.ReadHeaderExtends` | src/codec/mod.rs:75-96 | a parsed header keeps its value and length when more bytes arrive |
| `CodecResume.BulkStepExtends` | src/codec/mod.rs:74-122 | a loop iteration that completed keeps its effect when more bytes arrive |
| `CodecResume.DecodeBulksResumes` | src/codec/mod.rs:72-124 | when the loop waits, running it on the input plus new bytes equals resuming it from the state it stopped in, on what it left plus the new bytes |
| `CodecResume.DecodeResumes` | src/codec/mod.rs:135-157 | after `Ok(None)`, decoding the old buffer plus new bytes from the old state equals decoding what was left plus the new bytes from the new state; the exception is a skipped zero-count frame, whose answer stays `Ok(None)` |
| `Db.New` | src/db/mod.rs:10-12 | a new store holds no key |
| `Db.ProcessCommand` | src/db/mod.rs:14-17 | the store maps `arg[0]` to `arg[1]`, gains no other key, keeps every other key's value, and the reply is always `Ok("+OK\r\n")`; at least two arguments are required |
| `Db.ExtraArgumentsIgnored` | src/db/mod.rs:15 | arguments after the second do not affect the store or the reply |
| `Db.ProcessCommandIdempotent` | src/db/mod.rs:15 | repeating a command leaves the same store and reply |
| `Db.LastWriteWins` | src/db/mod.rs:15 | of two commands on the same key, the later value is what remains |

## Left out

- Connection handling in `src/worker/mod.rs`: the mio poll loop, the accept burst bound, the fd-keyed connection map and the empty before/after-sleep hooks. This is I/O plumbing.
- `src/client/mod.rs`: the futures `Stream`/`Sink` poll loop. It queues decoded requests in a FIFO `VecDeque`. This is asynchronous scheduling over library types.
- `src/main.rs`: threads, port-reuse listeners, the tokio runtime and random client ids. This is I/O and concurrency.
- `Arc<Mutex<..>>` sharing of the store (`src/common/mod.rs:3`). This is concurrency.
- `src/config/mod.rs`: a fixed listen address, with no logic.
- The `Io` and `NetParse` errors carry no payload. The library error values they wrap are opaque.
- `Digits.ParseDigits` uses unbounded integers, so i64 overflow while digits accumulate (`src/codec/mod.rs:59-61`) is not modelled. Leading zeros and values up to i64::MAX (9223372036854775807) read the same in the code and in the model. A larger value overflows in the code: a debug build panics and a release build wraps. A bulk length above i64::MAX - 2 also overflows `bulklen + 2` at lines 105 and 119.
- `CodecSteps.CountHeaderStartsFrame` and `Codec.DecodeMultiBulk` do not model the allocation `Vec::with_capacity(multibulklen as usize)` at `src/codec/mod.rs:69`, made as soon as a count is read. A count above isize::MAX / 24 makes that call panic with a capacity overflow. A count in the billions asks for tens of gigabytes or more, and the process aborts when that allocation fails. The model enters the bulk loop for any positive count.
- The capacity of `BytesMut`, of the payload vector at line 114 (allocated only once the payload bytes are buffered) and the capacity kept by `reset` change no value the code reads, so they are not modelled.
- The `panic!("nerver reached")` branch of `decode` cannot be reached: the mode is never `Init` at that point.
- `CmdReq` is defined outside the codec files. It is modelled as a command name plus an argument list, with `reset` clearing both. `CmdResp` is modelled as its bytes.
- The code that passes a decoded request's arguments to `process_command` is not part of this model.
- `Db.ProcessCommand` requires at least two arguments. With fewer, the indexing at `src/db/mod.rs:15` panics; the model does not represent that panic.
