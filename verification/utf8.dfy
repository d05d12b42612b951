/**
 UTF-8 as RFC 3629 defines it: section 3 gives the encoding of a code
 point as one to four octets, section 4 the syntax of well-formed octet
 sequences (no overlong forms, no surrogates, nothing above 0x10FFFF).
 */
module Utf8 {
  import opened Unicode
  import opened Wrappers

  /** Octets 0x80-0xBF, the second and later octets of a multi-octet sequence. */
  predicate IsContinuation(b: Byte) {
    0x80 <= b < 0xC0
  }

  /** The encoding table of section 3 of RFC 3629. */
  function EncodeScalar(c: Scalar): (s: seq<Byte>)
    ensures 1 <= |s| <= 4
    ensures |s| == 1 <==> c < 0x80
    ensures c < 0x80 ==> s[0] == c
    ensures c >= 0x80 ==> forall i | 0 <= i < |s| :: s[i] >= 0x80
    ensures c >= 0x80 ==> forall i | 1 <= i < |s| :: IsContinuation(s[i])
  {
    assert IsScalarValue(c);
    if c < 0x80 then
      [c]
    else if c < 0x800 then
      [0xC0 + c / 0x40, 0x80 + c % 0x40]
    else if c < 0x1_0000 then
      [0xE0 + c / 0x1000, 0x80 + (c / 0x40) % 0x40, 0x80 + c % 0x40]
    else
      [0xF0 + c / 0x4_0000, 0x80 + (c / 0x1000) % 0x40, 0x80 + (c / 0x40) % 0x40, 0x80 + c % 0x40]
  }

  function Encode(cs: seq<Scalar>): (s: seq<Byte>)
    decreases |cs|
  {
    if |cs| == 0 then [] else EncodeScalar(cs[0]) + Encode(cs[1..])
  }

  /**
   Reads one code point off the front of `s` following the syntax of
   section 4 of RFC 3629, returning it with the number of octets used.
   */
  function DecodeScalar(s: seq<Byte>): (r: Option<(Scalar, nat)>)
    ensures r.Some? ==> 1 <= r.value.1 <= |s|
  {
    if |s| == 0 then None
    else
      var b0: int := s[0];
      if b0 < 0x80 then Some((b0 as Scalar, 1))
      else if b0 < 0xC2 then None
      else if b0 < 0xE0 then
        if |s| < 2 || !IsContinuation(s[1]) then None
        else Some((Value2(b0, s[1]) as Scalar, 2))
      else if b0 < 0xF0 then
        if |s| < 3 || !IsContinuation(s[1]) || !IsContinuation(s[2]) then None
        else
          var c := Value3(b0, s[1], s[2]);
          if c < 0x800 || 0xD800 <= c < 0xE000 then None else Some((c as Scalar, 3))
      else if b0 < 0xF5 then
        if |s| < 4 || !IsContinuation(s[1]) || !IsContinuation(s[2]) || !IsContinuation(s[3]) then None
        else
          var c := Value4(b0, s[1], s[2], s[3]);
          if c < 0x1_0000 || c >= 0x11_0000 then None else Some((c as Scalar, 4))
      else None
  }

  /** The code point bits carried by a two-, three- or four-octet sequence. */
  function Value2(b0: int, b1: int): int {
    (b0 - 0xC0) * 0x40 + (b1 - 0x80)
  }

  function Value3(b0: int, b1: int, b2: int): int {
    (b0 - 0xE0) * 0x1000 + (b1 - 0x80) * 0x40 + (b2 - 0x80)
  }

  function Value4(b0: int, b1: int, b2: int, b3: int): int {
    (b0 - 0xF0) * 0x4_0000 + (b1 - 0x80) * 0x1000 + (b2 - 0x80) * 0x40 + (b3 - 0x80)
  }

  /** The code points of `s`, or None when `s` is not well-formed UTF-8. */
  function Decode(s: seq<Byte>): (r: Option<seq<Scalar>>)
    decreases |s|
  {
    if |s| == 0 then Some([])
    else match DecodeScalar(s)
      case None => None
      case Some((c, n)) =>
        match Decode(s[n..])
        case None => None
        case Some(cs) => Some([c] + cs)
  }

  /** The decoder reads back exactly the octets the encoder wrote for one code point. */
  lemma DecodeScalarOfEncode(c: Scalar, rest: seq<Byte>)
    ensures DecodeScalar(EncodeScalar(c) + rest) == Some((c, |EncodeScalar(c)|))
  {
    assert IsScalarValue(c);
    var e := EncodeScalar(c);
    var s := e + rest;
    assert s[..|e|] == e;
    if c < 0x80 {
    } else if c < 0x800 {
      assert Value2(e[0], e[1]) == c;
    } else if c < 0x1_0000 {
      assert Value3(e[0], e[1], e[2]) == c by { Split3(c); }
    } else {
      assert Value4(e[0], e[1], e[2], e[3]) == c by { Split4(c); }
    }
  }

  lemma Split3(c: int)
    requires 0 <= c
    ensures (c / 0x1000) * 0x1000 + ((c / 0x40) % 0x40) * 0x40 + c % 0x40 == c
  {
    var q := c / 0x40;
    assert c == q * 0x40 + c % 0x40;
    assert q == (q / 0x40) * 0x40 + q % 0x40;
    assert q / 0x40 == c / 0x1000;
  }

  lemma Split4(c: int)
    requires 0 <= c
    ensures (c / 0x4_0000) * 0x4_0000 + ((c / 0x1000) % 0x40) * 0x1000 + ((c / 0x40) % 0x40) * 0x40 + c % 0x40 == c
  {
    var q := c / 0x40;
    var q2 := q / 0x40;
    assert c == q * 0x40 + c % 0x40;
    assert q == q2 * 0x40 + q % 0x40;
    assert q2 == c / 0x1000;
    assert q2 == (q2 / 0x40) * 0x40 + q2 % 0x40;
    assert q2 / 0x40 == c / 0x4_0000;
  }

  /** The encoder writes back exactly the octets the decoder read. */
  lemma EncodeOfDecodeScalar(s: seq<Byte>)
    requires DecodeScalar(s).Some?
    ensures EncodeScalar(DecodeScalar(s).value.0) == s[..DecodeScalar(s).value.1]
  {
    var b0: int := s[0];
    if b0 < 0x80 {
    } else if b0 < 0xE0 {
      EncodeValue2(s[0], s[1]);
    } else if b0 < 0xF0 {
      EncodeValue3(s[0], s[1], s[2]);
    } else {
      EncodeValue4(s[0], s[1], s[2], s[3]);
    }
  }

  lemma EncodeValue2(b0: Byte, b1: Byte)
    requires 0xC2 <= b0 < 0xE0 && IsContinuation(b1)
    ensures var c := Value2(b0, b1); 0x80 <= c < 0x800 && EncodeScalar(c as Scalar) == [b0, b1]
  {
    Join2(b0, b1);
  }

  lemma EncodeValue3(b0: Byte, b1: Byte, b2: Byte)
    requires 0xE0 <= b0 < 0xF0 && IsContinuation(b1) && IsContinuation(b2)
    requires var c := Value3(b0, b1, b2); 0x800 <= c && !(0xD800 <= c < 0xE000)
    ensures EncodeScalar(Value3(b0, b1, b2) as Scalar) == [b0, b1, b2]
  {
    Join3(b0, b1, b2);
  }

  lemma EncodeValue4(b0: Byte, b1: Byte, b2: Byte, b3: Byte)
    requires 0xF0 <= b0 < 0xF5 && IsContinuation(b1) && IsContinuation(b2) && IsContinuation(b3)
    requires var c := Value4(b0, b1, b2, b3); 0x1_0000 <= c < 0x11_0000
    ensures EncodeScalar(Value4(b0, b1, b2, b3) as Scalar) == [b0, b1, b2, b3]
  {
    Join4(b0, b1, b2, b3);
  }

  lemma Join2(b0: int, b1: int)
    requires 0xC0 <= b0 < 0xE0 && 0x80 <= b1 < 0xC0
    ensures var c := Value2(b0, b1); c / 0x40 == b0 - 0xC0 && c % 0x40 == b1 - 0x80
  {
  }

  lemma Join3(b0: int, b1: int, b2: int)
    requires 0xE0 <= b0 < 0xF0 && 0x80 <= b1 < 0xC0 && 0x80 <= b2 < 0xC0
    ensures var c := Value3(b0, b1, b2);
      c / 0x1000 == b0 - 0xE0 && (c / 0x40) % 0x40 == b1 - 0x80 && c % 0x40 == b2 - 0x80
  {
    var c := Value3(b0, b1, b2);
    assert c / 0x40 == (b0 - 0xE0) * 0x40 + (b1 - 0x80);
  }

  lemma Join4(b0: int, b1: int, b2: int, b3: int)
    requires 0xF0 <= b0 < 0xF8 && 0x80 <= b1 < 0xC0 && 0x80 <= b2 < 0xC0 && 0x80 <= b3 < 0xC0
    ensures var c := Value4(b0, b1, b2, b3);
      && c / 0x4_0000 == b0 - 0xF0
      && (c / 0x1000) % 0x40 == b1 - 0x80
      && (c / 0x40) % 0x40 == b2 - 0x80
      && c % 0x40 == b3 - 0x80
  {
    var c := Value4(b0, b1, b2, b3);
    assert c / 0x40 == (b0 - 0xF0) * 0x1000 + (b1 - 0x80) * 0x40 + (b2 - 0x80);
    assert c / 0x1000 == (b0 - 0xF0) * 0x40 + (b1 - 0x80);
  }

  /** Decoding inverts encoding (round trip on code points). */
  lemma {:induction false} DecodeOfEncode(cs: seq<Scalar>)
    ensures Decode(Encode(cs)) == Some(cs)
    decreases |cs|
  {
    if |cs| > 0 {
      EncodeCons(cs);
      DecodeOfEncode(cs[1..]);
      DecodePrepend(cs[0], Encode(cs[1..]), cs[1..]);
      assert cs == [cs[0]] + cs[1..];
    }
  }

  /** One encoded code point in front of a well-formed string decodes as that code point first. */
  lemma DecodePrepend(c: Scalar, t: seq<Byte>, rest: seq<Scalar>)
    requires Decode(t) == Some(rest)
    ensures Decode(EncodeScalar(c) + t) == Some([c] + rest)
  {
    var e := EncodeScalar(c);
    DecodeScalarOfEncode(c, t);
    assert (e + t)[|e|..] == t;
    DecodeCons(e + t, c, |e|, rest);
  }

  /** Decode's recursion, stated over plain sequences. */
  lemma DecodeCons(s: seq<Byte>, c: Scalar, n: nat, rest: seq<Scalar>)
    requires |s| > 0 && DecodeScalar(s) == Some((c, n)) && 1 <= n <= |s|
    requires Decode(s[n..]) == Some(rest)
    ensures Decode(s) == Some([c] + rest)
  {
  }

  /** Every well-formed octet string is the encoding of what it decodes to. */
  lemma {:induction false} EncodeOfDecode(s: seq<Byte>)
    requires Decode(s).Some?
    ensures Encode(Decode(s).value) == s
    decreases |s|
  {
    if |s| > 0 {
      var c, n, rest := DecodeStep(s);
      EncodeOfDecodeScalar(s);
      EncodeOfDecode(s[n..]);
      EncodeJoin(s, c, n, rest);
    }
  }

  /** A non-empty well-formed string is one code point followed by a well-formed rest. */
  lemma DecodeStep(s: seq<Byte>) returns (c: Scalar, n: nat, rest: seq<Scalar>)
    requires |s| > 0 && Decode(s).Some?
    ensures DecodeScalar(s) == Some((c, n)) && 1 <= n <= |s|
    ensures Decode(s[n..]) == Some(rest) && Decode(s).value == [c] + rest
  {
    c := DecodeScalar(s).value.0;
    n := DecodeScalar(s).value.1;
    rest := Decode(s[n..]).value;
  }

  /** Encode's recursion, read backwards over plain sequences. */
  lemma EncodeJoin(s: seq<Byte>, c: Scalar, n: nat, rest: seq<Scalar>)
    requires n <= |s| && EncodeScalar(c) == s[..n] && Encode(rest) == s[n..]
    ensures Encode([c] + rest) == s
  {
    EncodeCons([c] + rest);
    assert ([c] + rest)[1..] == rest;
    assert s == s[..n] + s[n..];
  }

  lemma EncodeCons(cs: seq<Scalar>)
    requires |cs| > 0
    ensures Encode(cs) == EncodeScalar(cs[0]) + Encode(cs[1..])
  {
  }
}
