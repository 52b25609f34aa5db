/** The length-header number parser of src/codec/mod.rs, and the decimal
    notation it reads. The parser folds digit bytes left to right
    (`n := n * 10 + d`) and silently skips every other byte, so a sign, the
    lead byte or stray letters never cause an error. */
module Digits {
  import opened Bytes

  /** The digit-accumulating loop over the header bytes before `\r`,
      with unbounded integers. */
  function ParseDigits(s: seq<byte>): nat
    decreases |s|
  {
    if |s| == 0 then 0
    else
      var acc := ParseDigits(s[..|s| - 1]);
      if IsDigit(s[|s| - 1]) then acc * 10 + DigitValue(s[|s| - 1]) else acc
  }

  /** The digit bytes of `s`, in order. */
  function DigitsOf(s: seq<byte>): (ds: seq<byte>)
    ensures |ds| <= |s|
    ensures forall k :: 0 <= k < |ds| ==> IsDigit(ds[k])
    decreases |s|
  {
    if |s| == 0 then []
    else DigitsOf(s[..|s| - 1]) + (if IsDigit(s[|s| - 1]) then [s[|s| - 1]] else [])
  }

  function Pow10(k: nat): (p: nat)
    ensures p >= 1
  {
    if k == 0 then 1 else 10 * Pow10(k - 1)
  }

  /** Positional value of a digit string: sum of d_k * 10^(position from the right). */
  function Positional(ds: seq<byte>): nat
    requires forall k :: 0 <= k < |ds| ==> IsDigit(ds[k])
  {
    if |ds| == 0 then 0
    else DigitValue(ds[0]) * Pow10(|ds| - 1) + Positional(ds[1..])
  }

  lemma {:induction false} PositionalSnoc(ds: seq<byte>, d: byte)
    requires forall k :: 0 <= k < |ds| ==> IsDigit(ds[k])
    requires IsDigit(d)
    ensures Positional(ds + [d]) == Positional(ds) * 10 + DigitValue(d)
    decreases |ds|
  {
    if |ds| == 0 {
      assert ds + [d] == [d];
    } else {
      var t := ds[1..];
      assert (ds + [d])[1..] == t + [d];
      PositionalSnoc(t, d);
      var x := DigitValue(ds[0]);
      var p := Pow10(|t|);
      var q := Positional(t);
      assert Pow10(|t| + 1) == 10 * p;
      assert Positional(ds + [d]) == x * (10 * p) + q * 10 + DigitValue(d);
      assert x * (10 * p) == (x * p) * 10 by {
        MulSwap(x, p);
      }
      assert Positional(ds) == x * p + q;
    }
  }

  lemma MulSwap(x: nat, p: nat)
    ensures x * (10 * p) == (x * p) * 10
  {
  }

  /** The parsed value is the ordinary decimal value of the digit bytes,
      with every non-digit byte ignored. */
  lemma {:induction false} ParseIsPositional(s: seq<byte>)
    ensures ParseDigits(s) == Positional(DigitsOf(s))
    decreases |s|
  {
    if |s| > 0 {
      var init := s[..|s| - 1];
      ParseIsPositional(init);
      if IsDigit(s[|s| - 1]) {
        PositionalSnoc(DigitsOf(init), s[|s| - 1]);
      } else {
        assert DigitsOf(s) == DigitsOf(init) + [];
        assert DigitsOf(s) == DigitsOf(init);
        assert ParseDigits(s) == ParseDigits(init);
      }
    }
  }

  /** The parsed value is zero exactly when every digit byte is '0'
      (in particular when there is no digit at all). */
  lemma {:induction false} ParseZeroIff(s: seq<byte>)
    ensures ParseDigits(s) == 0 <==> forall k :: 0 <= k < |s| && IsDigit(s[k]) ==> s[k] == Zero
    decreases |s|
  {
    if |s| > 0 {
      var init := s[..|s| - 1];
      ParseZeroIff(init);
      assert forall k :: 0 <= k < |init| ==> s[k] == init[k];
    }
  }

  /** Bytes that are not digits in front of a number change nothing. */
  lemma {:induction false} ParseSkipsPrefix(p: seq<byte>, s: seq<byte>)
    requires forall k :: 0 <= k < |p| ==> !IsDigit(p[k])
    ensures ParseDigits(p + s) == ParseDigits(s)
    decreases |s|
  {
    if |s| == 0 {
      assert p + s == p;
      ParseZeroIff(p);
    } else {
      assert (p + s)[..|p + s| - 1] == p + s[..|s| - 1];
      ParseSkipsPrefix(p, s[..|s| - 1]);
    }
  }

  function DigitByte(d: nat): (b: byte)
    requires d < 10
    ensures IsDigit(b) && DigitValue(b) == d
  {
    Zero + d as byte
  }

  /** Shortest decimal notation of `n`. */
  function Decimal(n: nat): (ds: seq<byte>)
    ensures |ds| >= 1
    ensures forall k :: 0 <= k < |ds| ==> IsDigit(ds[k])
  {
    if n < 10 then [DigitByte(n)] else Decimal(n / 10) + [DigitByte(n % 10)]
  }

  /** Parsing the decimal notation of `n` gives back `n`. */
  lemma {:induction false} ParseDecimal(n: nat)
    ensures ParseDigits(Decimal(n)) == n
  {
    var ds := Decimal(n);
    if n < 10 {
      assert ds[..0] == [];
    } else {
      ParseDecimal(n / 10);
      assert ds[..|ds| - 1] == Decimal(n / 10);
    }
  }
}
