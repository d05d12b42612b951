/**
 The multipart/form-data encoder behind CrashReportSender: the parameter
 check, the UTF-16 to UTF-8 transcoder, and the builders of the
 Content-Type header and of the request body. The class keeps no state,
 so every member is a pure function; the boundary and the minidump bytes
 are inputs.
 */
module CrashReportSender {
  import opened Unicode
  import opened Wrappers
  import Utf16
  import Utf8
  import Search

  // ---------------------------------------------------------------------
  // Parameters: the std::map<wstring, wstring> handed in by the caller.
  // ---------------------------------------------------------------------

  datatype Param = Param(name: WString, value: WString)

  /** The order std::map<wstring, wstring> keeps its keys in: lexicographic on code units. */
  predicate NameLess(a: WString, b: WString)
    decreases |a|
  {
    |b| > 0 && (|a| == 0 || a[0] < b[0] || (a[0] == b[0] && NameLess(a[1..], b[1..])))
  }

  /** Names strictly ascending: the map's iteration order, one entry per name. */
  predicate NamesAscending(ps: seq<Param>) {
    forall i, j | 0 <= i < j < |ps| :: NameLess(ps[i].name, ps[j].name)
  }

  /** A parameter map, listed in the order the encoder walks it. */
  type ParamMap = ps: seq<Param> | NamesAscending(ps)

  /** No name is less than itself, so the names of a map are pairwise distinct. */
  lemma {:induction false} NameLessIrreflexive(a: WString)
    ensures !NameLess(a, a)
    decreases |a|
  {
    if |a| > 0 {
      NameLessIrreflexive(a[1..]);
    }
  }

  lemma NamesDistinct(parameters: ParamMap)
    ensures forall i, j | 0 <= i < j < |parameters| :: parameters[i].name != parameters[j].name
  {
    forall i, j | 0 <= i < j < |parameters|
      ensures parameters[i].name != parameters[j].name
    {
      NameLessIrreflexive(parameters[i].name);
    }
  }

  // ---------------------------------------------------------------------
  // CheckParameters
  // ---------------------------------------------------------------------

  /** A character allowed in a parameter name: printable ASCII other than the quote. */
  predicate IsNameChar(u: CodeUnit) {
    IsPrintableAscii(u) && u != 0x22
  }

  /** Scans one name, stopping at the first disallowed character. */
  function CheckName(name: WString): (ok: bool)
    ensures ok <==> forall k | 0 <= k < |name| :: IsNameChar(name[k])
    decreases |name|
  {
    if |name| == 0 then true
    else if !IsNameChar(name[0]) then false
    else CheckName(name[1..])
  }

  /**
   Walks the map in order and fails at the first name holding a
   character outside 0x20-0x7E or a quote; values are not looked at.
   */
  function CheckParameters(parameters: ParamMap): (ok: bool)
    ensures ok <==> forall i, k | 0 <= i < |parameters| && 0 <= k < |parameters[i].name| ::
                      IsPrintableAscii(parameters[i].name[k]) && parameters[i].name[k] != 0x22
    decreases |parameters|
  {
    if |parameters| == 0 then true
    else if !CheckName(parameters[0].name) then false
    else
      var rest: ParamMap := parameters[1..];
      assert forall i | 0 < i < |parameters| :: parameters[i] == rest[i - 1];
      CheckParameters(rest)
  }

  /** One quote anywhere in any name is enough to fail the whole map. */
  lemma QuoteRejects(parameters: ParamMap, i: nat, k: nat)
    requires i < |parameters| && k < |parameters[i].name| && parameters[i].name[k] == 0x22
    ensures !CheckParameters(parameters)
  {
  }

  /** The check reads names only: maps with the same names in the same order get the same answer. */
  lemma ValuesIgnored(a: ParamMap, b: ParamMap)
    requires |a| == |b| && forall i | 0 <= i < |a| :: a[i].name == b[i].name
    ensures CheckParameters(a) == CheckParameters(b)
  {
  }

  /** The name `say "hi"` is refused, `sayhi` is accepted, whatever the value. */
  lemma CheckExamples(value: WString)
    ensures !CheckParameters([Param(WideText("say \"hi\""), value)])
    ensures CheckParameters([Param(WideText("sayhi"), value)])
  {
    assert WideText("say \"hi\"")[4] == 0x22;
  }

  // ---------------------------------------------------------------------
  // WideToUTF8
  // ---------------------------------------------------------------------

  /**
   Converts a UTF-16 string to UTF-8, one code point at a time: a
   surrogate pair becomes one four-octet sequence, any other unit one to
   three octets. The result decodes to the same code points as the input.
   */
  function WideToUtf8(wide: WString): (r: seq<Byte>)
    requires Utf16.WellFormed(wide)
    ensures Utf8.Decode(r) == Some(Utf16.Decode(wide))
    ensures |wide| <= |r| <= 3 * |wide|
    ensures (forall k | 0 <= k < |wide| :: wide[k] < 0x80) ==>
              |r| == |wide| && forall k | 0 <= k < |r| :: r[k] == wide[k]
    decreases |wide|
  {
    if |wide| == 0 then []
    else
      var n := if Utf16.IsHighSurrogate(wide[0]) then 2 else 1;
      var c: Scalar := if n == 2 then Utf16.PairValue(wide[0], wide[1]) else wide[0];
      var head := Utf8.EncodeScalar(c);
      var tail := WideToUtf8(wide[n..]);
      Utf8.DecodeScalarOfEncode(c, tail);
      assert (head + tail)[|head|..] == tail;
      head + tail
  }

  // ---------------------------------------------------------------------
  // Fixed text of the wire format
  // ---------------------------------------------------------------------

  /** The octets of a printable ASCII literal. */
  function AsciiText(s: string): (r: seq<Byte>)
    requires forall k | 0 <= k < |s| :: IsPrintableAscii(s[k] as int)
    ensures |r| == |s|
    ensures forall k | 0 <= k < |r| :: r[k] == s[k] as int && IsPrintableAscii(r[k])
  {
    seq(|s|, k requires 0 <= k < |s| && IsPrintableAscii(s[k] as int) => (s[k] as int) as Byte)
  }

  /** The code units of a printable ASCII literal. */
  function WideText(s: string): (r: WString)
    requires forall k | 0 <= k < |s| :: IsPrintableAscii(s[k] as int)
    ensures |r| == |s|
    ensures forall k | 0 <= k < |r| :: r[k] == s[k] as int && IsPrintableAscii(r[k])
  {
    seq(|s|, k requires 0 <= k < |s| && IsPrintableAscii(s[k] as int) => (s[k] as int) as CodeUnit)
  }

  const Crlf: seq<Byte> := [0x0D, 0x0A]
  const Dashes: seq<Byte> := [0x2D, 0x2D]
  const Quote: seq<Byte> := [0x22]

  const HeaderPrefix: WString := WideText("Content-Type: multipart/form-data; boundary=")

  const FieldPrefix: seq<Byte> := AsciiText("Content-Disposition: form-data; name=\"")
  const FieldSuffix: seq<Byte> := Quote + Crlf + Crlf

  const FilePrefix: seq<Byte> := FieldPrefix + AsciiText("upload_file_minidump\"; filename=\"")
  const ContentTypeLine: seq<Byte> := AsciiText("Content-Type: application/octet-stream")
  const FileSuffix: seq<Byte> := Quote + Crlf + ContentTypeLine + Crlf + Crlf

  // ---------------------------------------------------------------------
  // GenerateRequestHeader
  // ---------------------------------------------------------------------

  /** The Content-Type header of a multipart/form-data submission (section 4.1 of RFC 7578). */
  function GenerateRequestHeader(boundary: WString): (header: WString)
    ensures Search.StartsWith(header, HeaderPrefix)
    ensures header[|HeaderPrefix|..] == boundary
  {
    HeaderPrefix + boundary
  }

  // ---------------------------------------------------------------------
  // GenerateRequestBody
  // ---------------------------------------------------------------------

  datatype BodyError =
    | UnreadableDump   // the minidump file read back no bytes
    | EmptyBoundary    // a boundary needs at least one character (section 5.1.1 of RFC 2046)

  predicate WellFormedParams(ps: seq<Param>) {
    forall i | 0 <= i < |ps| :: Utf16.WellFormed(ps[i].name) && Utf16.WellFormed(ps[i].value)
  }

  /** `--boundary` CRLF: the line that opens every part. */
  function OpenLine(boundary8: seq<Byte>): seq<Byte> {
    Dashes + boundary8 + Crlf
  }

  /** A parameter part's content: the disposition naming the parameter, a blank line, the value. */
  function FieldContent(p: Param): seq<Byte>
    requires Utf16.WellFormed(p.name) && Utf16.WellFormed(p.value)
  {
    FieldPrefix + WideToUtf8(p.name) + FieldSuffix + WideToUtf8(p.value)
  }

  /** A parameter part: the opening line, the content, CRLF. */
  function FieldPart(boundary8: seq<Byte>, p: Param): seq<Byte>
    requires Utf16.WellFormed(p.name) && Utf16.WellFormed(p.value)
  {
    OpenLine(boundary8) + FieldContent(p) + Crlf
  }

  /** One part per parameter, in map order. */
  function FieldParts(boundary8: seq<Byte>, ps: seq<Param>): seq<Byte>
    requires WellFormedParams(ps)
    decreases |ps|
  {
    if |ps| == 0 then [] else FieldPart(boundary8, ps[0]) + FieldParts(boundary8, ps[1..])
  }

  /** The minidump part's content: disposition with the file name, octet-stream type, blank line, raw bytes. */
  function FileContent(filename8: seq<Byte>, dump: seq<Byte>): seq<Byte> {
    FilePrefix + filename8 + FileSuffix + dump
  }

  /** The minidump part: the opening line, the content, CRLF. */
  function FilePart(boundary8: seq<Byte>, filename8: seq<Byte>, dump: seq<Byte>): seq<Byte> {
    OpenLine(boundary8) + FileContent(filename8, dump) + Crlf
  }

  /** The close-delimiter `--boundary--` and its line break. */
  function CloseDelimiter(boundary8: seq<Byte>): seq<Byte> {
    Dashes + boundary8 + Dashes + Crlf
  }

  /**
   Builds the request body: a part per parameter, the minidump part, the
   close-delimiter. `dump` stands for what reading `minidumpFilename`
   produced; an empty read makes the whole build fail.
   */
  function GenerateRequestBody(parameters: ParamMap, minidumpFilename: WString,
                               dump: seq<Byte>, boundary: WString): (r: Result<seq<Byte>, BodyError>)
    requires WellFormedParams(parameters)
    requires Utf16.WellFormed(minidumpFilename) && Utf16.WellFormed(boundary)
    ensures r == Failure(UnreadableDump) <==> |dump| == 0
    ensures r == Failure(EmptyBoundary) <==> |dump| > 0 && |boundary| == 0
    ensures r.Success? ==> Search.StartsWith(r.value, OpenLine(WideToUtf8(boundary)))
    ensures r.Success? ==>
      Search.EndsWith(r.value, FileSuffix + dump + Crlf + CloseDelimiter(WideToUtf8(boundary)))
  {
    if |dump| == 0 then Failure(UnreadableDump)
    else
      var boundary8 := WideToUtf8(boundary);
      if |boundary8| == 0 then Failure(EmptyBoundary)
      else
        FieldPartsOpen(boundary8, parameters);
        Success(Assemble(FieldParts(boundary8, parameters), boundary8, WideToUtf8(minidumpFilename), dump))
  }

  /** The parameter parts, then the minidump part, then the close-delimiter. */
  function Assemble(fields: seq<Byte>, boundary8: seq<Byte>, filename8: seq<Byte>, dump: seq<Byte>): (body: seq<Byte>)
    requires |fields| == 0 || Search.StartsWith(fields, OpenLine(boundary8))
    ensures Search.StartsWith(body, OpenLine(boundary8))
    ensures Search.EndsWith(body, FileSuffix + dump + Crlf + CloseDelimiter(boundary8))
  {
    BodyOpens(fields, boundary8, filename8, dump);
    BodyEnds(fields, boundary8, filename8, dump);
    fields + FilePart(boundary8, filename8, dump) + CloseDelimiter(boundary8)
  }

  /** An assembled body opens with the first delimiter line. */
  lemma BodyOpens(fields: seq<Byte>, boundary8: seq<Byte>, filename8: seq<Byte>, dump: seq<Byte>)
    requires |fields| == 0 || Search.StartsWith(fields, OpenLine(boundary8))
    ensures Search.StartsWith(fields + FilePart(boundary8, filename8, dump) + CloseDelimiter(boundary8),
                              OpenLine(boundary8))
  {
    var open := OpenLine(boundary8);
    var part := FilePart(boundary8, filename8, dump);
    Search.StartsWithConcat(open, FileContent(filename8, dump) + Crlf);
    assert part == open + (FileContent(filename8, dump) + Crlf);
    if |fields| == 0 {
      Search.StartsWithExtend(part, open, CloseDelimiter(boundary8));
      assert fields + part == part;
    } else {
      Search.StartsWithExtend(fields, open, part + CloseDelimiter(boundary8));
      assert fields + part + CloseDelimiter(boundary8) == fields + (part + CloseDelimiter(boundary8));
    }
  }

  /** An assembled body ends with the octet-stream header, the dump bytes and the close-delimiter. */
  lemma BodyEnds(fields: seq<Byte>, boundary8: seq<Byte>, filename8: seq<Byte>, dump: seq<Byte>)
    ensures Search.EndsWith(fields + FilePart(boundary8, filename8, dump) + CloseDelimiter(boundary8),
                            FileSuffix + dump + Crlf + CloseDelimiter(boundary8))
  {
    var close := CloseDelimiter(boundary8);
    var content := FileContent(filename8, dump);
    Search.EndsWithConcat(FilePrefix + filename8, FileSuffix);
    Search.EndsWithExtend(FilePrefix + filename8 + FileSuffix, FileSuffix, dump);
    Search.EndsWithPrepend(OpenLine(boundary8), content, FileSuffix + dump);
    Search.EndsWithExtend(OpenLine(boundary8) + content, FileSuffix + dump, Crlf);
    Search.EndsWithPrepend(fields, FilePart(boundary8, filename8, dump), FileSuffix + dump + Crlf);
    Search.EndsWithExtend(fields + FilePart(boundary8, filename8, dump), FileSuffix + dump + Crlf, close);
  }

  /** A non-empty run of parameter parts opens with the first delimiter. */
  lemma FieldPartsOpen(boundary8: seq<Byte>, ps: seq<Param>)
    requires WellFormedParams(ps)
    ensures |ps| > 0 ==> Search.StartsWith(FieldParts(boundary8, ps), OpenLine(boundary8))
  {
    if |ps| > 0 {
      var open := OpenLine(boundary8);
      var first := FieldPart(boundary8, ps[0]);
      Search.StartsWithConcat(open, FieldContent(ps[0]) + Crlf);
      assert first == open + (FieldContent(ps[0]) + Crlf);
      Search.StartsWithExtend(first, open, FieldParts(boundary8, ps[1..]));
    }
  }
}
