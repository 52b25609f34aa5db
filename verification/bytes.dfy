/** Bytes as the decoder sees them, the few ASCII constants the wire format
    uses, and the `memchr` search for the first carriage return. */
module Bytes {
  import opened Wrappers

  type byte = bv8

  const CR: byte := 0x0D
  const LF: byte := 0x0A
  /** '*', the lead byte of a multi-bulk count header */
  const Star: byte := 0x2A
  /** '$', the lead byte of a bulk length header */
  const Dollar: byte := 0x24
  const Zero: byte := 0x30
  const Nine: byte := 0x39

  predicate IsDigit(b: byte) {
    Zero <= b <= Nine
  }

  function DigitValue(b: byte): (v: nat)
    requires IsDigit(b)
    ensures v < 10
  {
    (b - Zero) as nat
  }

  /** `t` is what is left of `s` after dropping bytes from the front. */
  predicate IsSuffix(t: seq<byte>, s: seq<byte>) {
    |t| <= |s| && t == s[|s| - |t|..]
  }

  /** `memchr(b'\r', s)`: the index of the first carriage return, if any. */
  function FindCR(s: seq<byte>): (r: Option<nat>)
    ensures r.Some? ==> r.value < |s| && s[r.value] == CR
    ensures r.Some? ==> forall j :: 0 <= j < r.value ==> s[j] != CR
    ensures r.None? ==> forall j :: 0 <= j < |s| ==> s[j] != CR
  {
    if |s| == 0 then None
    else if s[0] == CR then Some(0)
    else
      match FindCR(s[1..])
      case None => None
      case Some(i) => Some(i + 1)
  }

  /** The first carriage return is determined by the bytes up to and
      including it, so bytes appended later cannot move it. */
  lemma FindCRExtends(s: seq<byte>, e: seq<byte>)
    requires FindCR(s).Some?
    ensures FindCR(s + e) == FindCR(s)
  {
    var i := FindCR(s).value;
    assert (s + e)[i] == CR;
    assert forall j :: 0 <= j < i ==> (s + e)[j] == s[j];
  }
}
