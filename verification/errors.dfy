/** The server's error enum (src/error/mod.rs). The wrapped `io` and address
    parse errors are opaque here; the decoder only ever raises `Redis`. */
module Errors {

  datatype Error = Io | NetParse | Redis
}
