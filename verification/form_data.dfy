/**
 The receiving end of a crash-report upload: a strict multipart/form-data
 reader for exactly the layout CrashReportSender writes. It recovers the
 boundary from the Content-Type header and splits the body on the
 delimiter of section 5.1.1 of RFC 2046, which is CRLF, two hyphens and
 the boundary (the first delimiter has no leading CRLF). It is the
 partner against which the encoder's round trip is stated.
 */
module FormData {
  import opened Unicode
  import opened Wrappers
  import opened Search
  import Utf16
  import Utf8
  import opened CrashReportSender

  /** What a reader gets out of a crash-report request. */
  datatype Report = Report(parameters: seq<Param>, filename: WString, dump: seq<Byte>)

  // ---------------------------------------------------------------------
  // Boundaries (section 5.1.1 of RFC 2046)
  // ---------------------------------------------------------------------

  /**
   A character a boundary may hold here: one of the `bchars` of section
   5.1.1 of RFC 2046 that is also a token character of section 5.1 of
   RFC 2045, so digits, letters and ' + _ - . only. The header writes the
   boundary parameter unquoted, and an unquoted parameter value must be a
   token; the other `bchars` (space and ( ) , / : = ?) would need quotes.
   */
  predicate IsBoundaryChar(u: CodeUnit) {
    IsPrintableAscii(u) && IsTokenBchar(u)
  }

  predicate IsTokenBchar(u: CodeUnit) {
    || 0x30 <= u <= 0x39
    || 0x41 <= u <= 0x5A
    || 0x61 <= u <= 0x7A
    || u == 0x27 || u == 0x2B || u == 0x5F || u == 0x2D || u == 0x2E
  }

  /** One to seventy such characters, as RFC 2046 bounds a boundary's length. */
  predicate IsBoundary(boundary: WString) {
    && 1 <= |boundary| <= 70
    && (forall k | 0 <= k < |boundary| :: IsBoundaryChar(boundary[k]))
  }

  /** The octets of an ASCII wide string, unit for unit. */
  function AsciiOctets(w: WString): (r: seq<Byte>)
    requires forall k | 0 <= k < |w| :: w[k] < 0x80
    ensures |r| == |w| && forall k | 0 <= k < |r| :: r[k] == w[k]
  {
    seq(|w|, k requires 0 <= k < |w| && w[k] < 0x80 => w[k] as Byte)
  }

  // ---------------------------------------------------------------------
  // Reading the header and the text
  // ---------------------------------------------------------------------

  /** The boundary named by a `Content-Type: multipart/form-data; boundary=` header. */
  function ParseRequestHeader(header: WString): Option<WString> {
    if StartsWith(header, HeaderPrefix) then Some(header[|HeaderPrefix|..]) else None
  }

  /** UTF-8 back to UTF-16, or None for octets that are not well-formed UTF-8. */
  function Utf8ToWide(s: seq<Byte>): (r: Option<WString>)
    ensures r.Some? ==> Utf16.WellFormed(r.value)
  {
    match Utf8.Decode(s)
    case None => None
    case Some(cs) => Some(Utf16.Encode(cs))
  }

  // ---------------------------------------------------------------------
  // Splitting the body
  // ---------------------------------------------------------------------

  /** The delimiter that ends every part: CRLF, `--`, the boundary. */
  function Delimiter(boundary8: seq<Byte>): seq<Byte> {
    Crlf + Dashes + boundary8
  }

  /**
   Cuts what follows the opening `--boundary` CRLF into the part contents:
   each part runs up to the next delimiter, which is followed by CRLF and
   another part, or by `--` CRLF and the end of the body.
   */
  function SplitParts(s: seq<Byte>, boundary8: seq<Byte>): (r: Option<seq<seq<Byte>>>)
    ensures r.Some? ==> |r.value| > 0
    decreases |s|
  {
    var d := Delimiter(boundary8);
    match Find(s, d)
    case None => None
    case Some(i) =>
      var after := s[i + |d|..];
      if after == Dashes + Crlf then Some([s[..i]])
      else if StartsWith(after, Crlf) then
        match SplitParts(after[2..], boundary8)
        case None => None
        case Some(more) => Some([s[..i]] + more)
      else None
  }

  // ---------------------------------------------------------------------
  // Reading the parts
  // ---------------------------------------------------------------------

  /** A parameter part: disposition naming the parameter, blank line, UTF-8 value. */
  function ParseField(part: seq<Byte>): Option<Param> {
    if !StartsWith(part, FieldPrefix) then None
    else
      var rest := part[|FieldPrefix|..];
      match Find(rest, FieldSuffix)
      case None => None
      case Some(i) =>
        match (Utf8ToWide(rest[..i]), Utf8ToWide(rest[i + |FieldSuffix|..]))
        case (Some(name), Some(value)) => Some(Param(name, value))
        case _ => None
  }

  function ParseFields(parts: seq<seq<Byte>>): Option<seq<Param>>
    decreases |parts|
  {
    if |parts| == 0 then Some([])
    else
      match (ParseField(parts[0]), ParseFields(parts[1..]))
      case (Some(p), Some(ps)) => Some([p] + ps)
      case _ => None
  }

  /** The minidump part: disposition with the file name, octet-stream type, blank line, raw bytes. */
  function ParseFile(part: seq<Byte>): Option<(WString, seq<Byte>)> {
    if !StartsWith(part, FilePrefix) then None
    else
      var rest := part[|FilePrefix|..];
      match Find(rest, FileSuffix)
      case None => None
      case Some(i) =>
        match Utf8ToWide(rest[..i])
        case None => None
        case Some(filename) => Some((filename, rest[i + |FileSuffix|..]))
  }

  /** Reads a body: every part but the last is a parameter, the last is the minidump. */
  function ParseRequestBody(body: seq<Byte>, boundary8: seq<Byte>): Option<Report> {
    var open := OpenLine(boundary8);
    if !StartsWith(body, open) then None
    else
      match SplitParts(body[|open|..], boundary8)
      case None => None
      case Some(parts) =>
        match (ParseFields(parts[..|parts| - 1]), ParseFile(parts[|parts| - 1]))
        case (Some(ps), Some((filename, dump))) => Some(Report(ps, filename, dump))
        case _ => None
  }

  /** Reads a whole request: the boundary from the header, then the body. */
  function ParseRequest(header: WString, body: seq<Byte>): Option<Report> {
    match ParseRequestHeader(header)
    case None => None
    case Some(boundary) =>
      if !IsBoundary(boundary) then None
      else ParseRequestBody(body, AsciiOctets(boundary))
  }
}
