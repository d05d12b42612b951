/**
 UTF-16 as section 2 of RFC 2781 defines it: code points below 0x10000
 are one 16-bit unit, the others are a high surrogate (0xD800-0xDBFF)
 followed by a low surrogate (0xDC00-0xDFFF).
 */
module Utf16 {
  import opened Unicode

  predicate IsHighSurrogate(u: CodeUnit) {
    0xD800 <= u < 0xDC00
  }

  predicate IsLowSurrogate(u: CodeUnit) {
    0xDC00 <= u < 0xE000
  }

  /** Every high surrogate is followed by a low one, and no low surrogate stands alone. */
  predicate WellFormed(w: seq<CodeUnit>)
    decreases |w|
  {
    if |w| == 0 then true
    else if IsHighSurrogate(w[0]) then |w| >= 2 && IsLowSurrogate(w[1]) && WellFormed(w[2..])
    else !IsLowSurrogate(w[0]) && WellFormed(w[1..])
  }

  /** The code point a surrogate pair stands for (steps 3-4 of section 2.2 of RFC 2781). */
  function PairValue(high: CodeUnit, low: CodeUnit): (c: Scalar)
    requires IsHighSurrogate(high) && IsLowSurrogate(low)
    ensures 0x1_0000 <= c < 0x11_0000
  {
    0x1_0000 + (high - 0xD800) * 0x400 + (low - 0xDC00)
  }

  /** Decoding per section 2.2 of RFC 2781. */
  function Decode(w: seq<CodeUnit>): (cs: seq<Scalar>)
    requires WellFormed(w)
    ensures |cs| <= |w|
    decreases |w|
  {
    if |w| == 0 then []
    else if IsHighSurrogate(w[0]) then [PairValue(w[0], w[1])] + Decode(w[2..])
    else [w[0] as Scalar] + Decode(w[1..])
  }

  /** Encoding of one code point per section 2.1 of RFC 2781. */
  function EncodeScalar(c: Scalar): (w: seq<CodeUnit>)
    ensures c < 0x1_0000 ==> |w| == 1 && w[0] == c
    ensures c >= 0x1_0000 ==>
      |w| == 2 && IsHighSurrogate(w[0]) && IsLowSurrogate(w[1]) && PairValue(w[0], w[1]) == c
  {
    assert IsScalarValue(c);
    if c < 0x1_0000 then [c as CodeUnit]
    else
      var high: CodeUnit := 0xD800 + (c - 0x1_0000) / 0x400;
      var low: CodeUnit := 0xDC00 + (c - 0x1_0000) % 0x400;
      [high, low]
  }

  function Encode(cs: seq<Scalar>): (w: seq<CodeUnit>)
    ensures WellFormed(w)
    ensures |cs| <= |w| <= 2 * |cs|
    decreases |cs|
  {
    if |cs| == 0 then [] else EncodeScalar(cs[0]) + Encode(cs[1..])
  }

  /** A well-formed wide string is the encoding of the code points it decodes to. */
  lemma {:induction false} EncodeOfDecode(w: seq<CodeUnit>)
    requires WellFormed(w)
    ensures Encode(Decode(w)) == w
    decreases |w|
  {
    if |w| == 0 {
    } else if IsHighSurrogate(w[0]) {
      EncodeOfDecode(w[2..]);
      var c := PairValue(w[0], w[1]);
      assert EncodeScalar(c) == w[..2];
      assert Decode(w)[1..] == Decode(w[2..]);
      assert w == w[..2] + w[2..];
    } else {
      EncodeOfDecode(w[1..]);
      assert Decode(w)[1..] == Decode(w[1..]);
      assert w == [w[0]] + w[1..];
    }
  }

  /** Decoding the encoding of a code-point sequence gives it back. */
  lemma {:induction false} DecodeOfEncode(cs: seq<Scalar>)
    ensures Decode(Encode(cs)) == cs
    decreases |cs|
  {
    if |cs| == 0 {
    } else {
      DecodeOfEncode(cs[1..]);
      var w := Encode(cs);
      var head := EncodeScalar(cs[0]);
      assert w == head + Encode(cs[1..]);
      if cs[0] < 0x1_0000 {
        assert w[1..] == Encode(cs[1..]);
      } else {
        assert w[2..] == Encode(cs[1..]);
      }
      assert cs == [cs[0]] + cs[1..];
    }
  }

  /** A string with no surrogate units at all (plain ASCII, say) is well-formed. */
  lemma {:induction false} NoSurrogatesWellFormed(w: seq<CodeUnit>)
    requires forall k | 0 <= k < |w| :: w[k] < 0xD800
    ensures WellFormed(w)
    decreases |w|
  {
    if |w| > 0 {
      NoSurrogatesWellFormed(w[1..]);
    }
  }
}
