/** Properties of the transcoder as the multipart reader relies on them. */
module TextProperties {
  import opened Unicode
  import opened Wrappers
  import opened Search
  import Utf16
  import Utf8
  import opened CrashReportSender
  import opened FormData

  /** UTF-16 to UTF-8 and back gives the original wide string. */
  lemma TranscodeRoundTrip(wide: WString)
    requires Utf16.WellFormed(wide)
    ensures Utf8ToWide(WideToUtf8(wide)) == Some(wide)
  {
    Utf16.EncodeOfDecode(wide);
  }

  /**
   An ASCII character that is not among the code units is not among the
   octets either: multi-octet sequences only hold octets 0x80 and up.
   */
  lemma {:induction false} AsciiAbsentStaysAbsent(wide: WString, x: int)
    requires Utf16.WellFormed(wide)
    requires 0 <= x < 0x80
    requires forall k | 0 <= k < |wide| :: wide[k] != x
    ensures forall k | 0 <= k < |WideToUtf8(wide)| :: WideToUtf8(wide)[k] != x
    decreases |wide|
  {
    if |wide| > 0 {
      var n, c := TranscodeStep(wide);
      AsciiAbsentStaysAbsent(wide[n..], x);
      var head := Utf8.EncodeScalar(c);
      assert c < 0x80 ==> c == wide[0];
      AbsentFromBoth(head, WideToUtf8(wide[n..]), x);
    }
  }

  lemma AbsentFromBoth(a: seq<Byte>, b: seq<Byte>, x: int)
    requires forall k | 0 <= k < |a| :: a[k] != x
    requires forall k | 0 <= k < |b| :: b[k] != x
    ensures forall k | 0 <= k < |a + b| :: (a + b)[k] != x
  {
  }

  /** When the first octet is ASCII, it is the first code unit, transcoded on its own. */
  lemma AsciiFront(wide: WString)
    requires Utf16.WellFormed(wide)
    requires |WideToUtf8(wide)| > 0 && WideToUtf8(wide)[0] < 0x80
    ensures |wide| > 0 && wide[0] < 0x80
    ensures WideToUtf8(wide) == [wide[0] as Byte] + WideToUtf8(wide[1..])
  {
  }

  /** An ASCII string the octets start with is one the code units start with. */
  lemma {:induction false} AsciiPrefixOfTranscoded(wide: WString, q: WString)
    requires Utf16.WellFormed(wide)
    requires forall k | 0 <= k < |q| :: q[k] < 0x80
    requires StartsWith(WideToUtf8(wide), AsciiOctets(q))
    ensures StartsWith(wide, q)
    decreases |q|
  {
    if |q| > 0 {
      var r := WideToUtf8(wide);
      var q8 := AsciiOctets(q);
      StartsWithTail(r, q8);
      AsciiFront(wide);
      assert r[1..] == WideToUtf8(wide[1..]);
      assert AsciiOctets(q[1..]) == q8[1..];
      AsciiPrefixOfTranscoded(wide[1..], q[1..]);
      StartsWithCons(wide, q);
    }
  }

  /** The transcoder handles the first code point (one or two units), then the rest. */
  lemma TranscodeStep(wide: WString) returns (n: nat, c: Scalar)
    requires Utf16.WellFormed(wide) && |wide| > 0
    ensures 1 <= n <= |wide| && Utf16.WellFormed(wide[n..])
    ensures WideToUtf8(wide) == Utf8.EncodeScalar(c) + WideToUtf8(wide[n..])
  {
    n := if Utf16.IsHighSurrogate(wide[0]) then 2 else 1;
    c := if n == 2 then Utf16.PairValue(wide[0], wide[1]) else wide[0];
  }

  /** A match of an ASCII string cannot start inside a multi-octet sequence. */
  lemma AsciiMatchStartsAtUnit(head: seq<Byte>, tail: seq<Byte>, c: Scalar, q8: seq<Byte>, i: nat)
    requires head == Utf8.EncodeScalar(c)
    requires 0 < i && OccursAt(head + tail, q8, i) && |q8| > 0 && q8[0] < 0x80
    ensures |head| <= i && OccursAt(tail, q8, i - |head|)
  {
    var r := head + tail;
    assert r[i..][0] == r[i];
    if c < 0x80 {
      assert |head| == 1;
    } else {
      assert forall k | 0 <= k < |head| :: r[k] >= 0x80;
    }
    assert r[i..] == tail[i - |head|..];
  }

  /** An ASCII string occurring in the octets occurs in the code units. */
  lemma {:induction false} AsciiOccursInTranscoded(wide: WString, q: WString)
    requires Utf16.WellFormed(wide)
    requires |q| > 0 && forall k | 0 <= k < |q| :: q[k] < 0x80
    requires Occurs(AsciiOctets(q), WideToUtf8(wide))
    ensures Occurs(q, wide)
    decreases |wide|
  {
    var q8 := AsciiOctets(q);
    var i :| OccursAt(WideToUtf8(wide), q8, i);
    if i == 0 {
      AsciiPrefixOfTranscoded(wide, q);
      assert OccursAt(wide, q, 0);
    } else {
      var n, c := TranscodeStep(wide);
      var head := Utf8.EncodeScalar(c);
      AsciiMatchStartsAtUnit(head, WideToUtf8(wide[n..]), c, q8, i);
      AsciiOccursInTranscoded(wide[n..], q);
      var j :| OccursAt(wide[n..], q, j);
      assert wide[n..][j..] == wide[n + j..];
      assert OccursAt(wide, q, n + j);
    }
  }

  /**
   A surrogate pair in front becomes one four-octet sequence, the UTF-8 of
   the code point the pair stands for, never two three-octet sequences.
   */
  lemma SurrogatePairTranscodes(high: CodeUnit, low: CodeUnit, rest: WString)
    requires Utf16.IsHighSurrogate(high) && Utf16.IsLowSurrogate(low) && Utf16.WellFormed(rest)
    ensures Utf16.WellFormed([high, low] + rest)
    ensures WideToUtf8([high, low] + rest) == Utf8.EncodeScalar(Utf16.PairValue(high, low)) + WideToUtf8(rest)
    ensures |Utf8.EncodeScalar(Utf16.PairValue(high, low))| == 4
  {
    var wide := [high, low] + rest;
    assert wide[2..] == rest;
    var n, c := TranscodeStep(wide);
  }
}
