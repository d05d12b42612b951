/**
 The encoder and the reader agree: what GenerateRequestHeader and
 GenerateRequestBody write, the multipart reader reads back as the
 original parameters, file name and minidump bytes.
 */
module RoundTrip {
  import opened Unicode
  import opened Wrappers
  import opened Search
  import Utf16
  import Utf8
  import opened CrashReportSender
  import opened FormData
  import opened TextProperties

  // ---------------------------------------------------------------------
  // The header
  // ---------------------------------------------------------------------

  /** The reader recovers the boundary from the header. */
  lemma HeaderRoundTrip(boundary: WString)
    ensures ParseRequestHeader(GenerateRequestHeader(boundary)) == Some(boundary)
  {
  }

  /** Every header the reader accepts is the one the encoder writes for the boundary it names. */
  lemma HeaderParseSound(header: WString)
    requires ParseRequestHeader(header).Some?
    ensures GenerateRequestHeader(ParseRequestHeader(header).value) == header
  {
    assert header == header[..|HeaderPrefix|] + header[|HeaderPrefix|..];
  }

  // ---------------------------------------------------------------------
  // The body as a framed list of part contents
  // ---------------------------------------------------------------------

  function FieldPayloads(ps: seq<Param>): (r: seq<seq<Byte>>)
    requires WellFormedParams(ps)
    ensures |r| == |ps|
    decreases |ps|
  {
    if |ps| == 0 then [] else [FieldContent(ps[0])] + FieldPayloads(ps[1..])
  }

  /** The contents of every part of a body, the minidump part last. */
  function AllPayloads(ps: seq<Param>, filename8: seq<Byte>, dump: seq<Byte>): (r: seq<seq<Byte>>)
    requires WellFormedParams(ps)
    ensures |r| == |ps| + 1 && r[..|ps|] == FieldPayloads(ps) && r[|ps|] == FileContent(filename8, dump)
  {
    FieldPayloads(ps) + [FileContent(filename8, dump)]
  }

  /**
   Part contents joined the way the reader sees them after the opening
   line: each content is followed by the delimiter, then by CRLF and the
   next content, or by `--` CRLF after the last one.
   */
  function Frame(payloads: seq<seq<Byte>>, boundary8: seq<Byte>): seq<Byte>
    requires |payloads| > 0
    decreases |payloads|
  {
    payloads[0] + Delimiter(boundary8)
      + (if |payloads| == 1 then Dashes + Crlf else Crlf + Frame(payloads[1..], boundary8))
  }

  /** The last part and the close-delimiter are the opening line and a one-content frame. */
  lemma LastFramed(boundary8: seq<Byte>, last: seq<Byte>)
    ensures (OpenLine(boundary8) + last + Crlf) + CloseDelimiter(boundary8)
            == OpenLine(boundary8) + Frame([last], boundary8)
  {
    assert Frame([last], boundary8) == last + Delimiter(boundary8) + (Dashes + Crlf);
  }

  /** One step of framing, stated over plain sequences. */
  lemma FrameStep(boundary8: seq<Byte>, c: seq<Byte>, fields: seq<Byte>, after: seq<Byte>, frameRest: seq<Byte>)
    requires fields + after == OpenLine(boundary8) + frameRest
    ensures (OpenLine(boundary8) + c + Crlf + fields) + after
            == OpenLine(boundary8) + (c + Delimiter(boundary8) + (Crlf + frameRest))
  {
    var open := OpenLine(boundary8);
    calc {
      (open + c + Crlf + fields) + after;
      open + c + Crlf + (fields + after);
      open + c + Crlf + (open + frameRest);
      open + (c + (Crlf + Dashes + boundary8) + (Crlf + frameRest));
    }
  }

  /** Appending one more content to a list of at least one. */
  lemma ListShape<T>(xs: seq<T>, x: T, ys: seq<T>, z: T)
    requires xs == [x] + ys
    ensures |xs + [z]| > 1 && (xs + [z])[0] == x && (xs + [z])[1..] == ys + [z]
  {
    assert (xs + [z])[1..] == ys + [z];
  }

  /** The parameter parts, a last part and the close-delimiter form the opening line plus a frame. */
  lemma {:induction false} FieldsFramed(boundary8: seq<Byte>, ps: seq<Param>, last: seq<Byte>)
    requires WellFormedParams(ps)
    ensures FieldParts(boundary8, ps) + ((OpenLine(boundary8) + last + Crlf) + CloseDelimiter(boundary8))
            == OpenLine(boundary8) + Frame(FieldPayloads(ps) + [last], boundary8)
    decreases |ps|
  {
    var after := (OpenLine(boundary8) + last + Crlf) + CloseDelimiter(boundary8);
    if |ps| == 0 {
      LastFramed(boundary8, last);
      assert FieldPayloads(ps) + [last] == [last];
    } else {
      var c := FieldContent(ps[0]);
      var more := FieldPayloads(ps[1..]);
      FieldsFramed(boundary8, ps[1..], last);
      ListShape(FieldPayloads(ps), c, more, last);
      FrameStep(boundary8, c, FieldParts(boundary8, ps[1..]), after, Frame(more + [last], boundary8));
    }
  }

  // ---------------------------------------------------------------------
  // Splitting on the delimiter
  // ---------------------------------------------------------------------

  predicate NoCarriageReturn(s: seq<Byte>) {
    forall k | 0 <= k < |s| :: s[k] != 0x0D
  }

  /** The delimiter's leading CR occurs nowhere else in it, so matches of it cannot overlap. */
  lemma DelimiterUnbordered(boundary8: seq<Byte>)
    requires NoCarriageReturn(boundary8)
    ensures var d := Delimiter(boundary8); |d| > 0 && forall k | 1 <= k < |d| :: d[k] != d[0]
  {
    var d := Delimiter(boundary8);
    assert forall k | 4 <= k < |d| :: d[k] == boundary8[k - 4];
  }

  /** Cutting off the last content: the delimiter is followed by `--` CRLF. */
  lemma SplitLast(p: seq<Byte>, boundary8: seq<Byte>)
    requires NoCarriageReturn(boundary8)
    requires !Occurs(Delimiter(boundary8), p)
    ensures SplitParts(p + Delimiter(boundary8) + (Dashes + Crlf), boundary8) == Some([p])
  {
    var d := Delimiter(boundary8);
    var s := p + d + (Dashes + Crlf);
    DelimiterUnbordered(boundary8);
    FindAfterUnbordered(p, d, Dashes + Crlf);
    assert s[..|p|] == p;
    assert s[|p| + |d|..] == Dashes + Crlf;
  }

  /** Cutting off one content when more follow: the delimiter is followed by CRLF. */
  lemma SplitMore(p: seq<Byte>, boundary8: seq<Byte>, rest: seq<Byte>, more: seq<seq<Byte>>)
    requires NoCarriageReturn(boundary8)
    requires !Occurs(Delimiter(boundary8), p)
    requires SplitParts(rest, boundary8) == Some(more)
    ensures SplitParts(p + Delimiter(boundary8) + (Crlf + rest), boundary8) == Some([p] + more)
  {
    var d := Delimiter(boundary8);
    var after := Crlf + rest;
    var s := p + d + after;
    DelimiterUnbordered(boundary8);
    FindAfterUnbordered(p, d, after);
    assert s[..|p|] == p;
    assert s[|p| + |d|..] == after;
    assert after[0] != (Dashes + Crlf)[0];
    assert after[..2] == Crlf && after[2..] == rest;
  }

  /** The reader cuts a frame back into exactly the contents it was built from. */
  lemma {:induction false} SplitFrame(payloads: seq<seq<Byte>>, boundary8: seq<Byte>)
    requires |payloads| > 0
    requires NoCarriageReturn(boundary8)
    requires forall i | 0 <= i < |payloads| :: !Occurs(Delimiter(boundary8), payloads[i])
    ensures SplitParts(Frame(payloads, boundary8), boundary8) == Some(payloads)
    decreases |payloads|
  {
    if |payloads| == 1 {
      SplitLast(payloads[0], boundary8);
      assert payloads == [payloads[0]];
    } else {
      var more := payloads[1..];
      assert forall i | 0 <= i < |more| :: more[i] == payloads[i + 1];
      SplitFrame(more, boundary8);
      assert Frame(payloads, boundary8) == payloads[0] + Delimiter(boundary8) + (Crlf + Frame(more, boundary8));
      SplitMore(payloads[0], boundary8, Frame(more, boundary8), more);
      assert payloads == [payloads[0]] + more;
    }
  }

  // ---------------------------------------------------------------------
  // No part content holds the delimiter
  // ---------------------------------------------------------------------

  /** Content free of the boundary is free of the delimiter and does not open with `--boundary`. */
  lemma ContentClean(v: seq<Byte>, boundary8: seq<Byte>)
    requires !Occurs(boundary8, v)
    ensures !Occurs(Delimiter(boundary8), v)
    ensures !StartsWith(v, Dashes + boundary8)
  {
    var d := Delimiter(boundary8);
    forall i | 0 <= i <= |v|
      ensures !OccursAt(v, d, i)
    {
      if i + |d| <= |v| {
        assert v[i + 4..][..|boundary8|] == v[i..][..|d|][4..];
        assert !OccursAt(v, boundary8, i + 4);
      }
    }
    if |v| >= |boundary8| + 2 {
      assert v[2..][..|boundary8|] == v[..|boundary8| + 2][2..];
      assert !OccursAt(v, boundary8, 2);
    }
  }

  /** Text without CR in front of delimiter-free content adds no delimiter. */
  lemma PrependLine(a: seq<Byte>, x: seq<Byte>, boundary8: seq<Byte>)
    requires NoCarriageReturn(a)
    requires !Occurs(Delimiter(boundary8), x)
    ensures !Occurs(Delimiter(boundary8), a + x)
  {
    var d := Delimiter(boundary8);
    forall i | 0 <= i <= |a + x|
      ensures !OccursAt(a + x, d, i)
    {
      if i < |a| {
        assert (a + x)[i..][0] == a[i] != d[0];
      } else {
        assert (a + x)[i..] == x[i - |a|..];
        assert !OccursAt(x, d, i - |a|);
      }
    }
  }

  /** A line break in front adds no delimiter unless the content opens with `--boundary`. */
  lemma PrependCrlf(x: seq<Byte>, boundary8: seq<Byte>)
    requires !Occurs(Delimiter(boundary8), x)
    requires !StartsWith(x, Dashes + boundary8)
    ensures !Occurs(Delimiter(boundary8), Crlf + x)
  {
    var d := Delimiter(boundary8);
    var s := Crlf + x;
    assert d[2..] == Dashes + boundary8;
    forall i | 0 <= i <= |s|
      ensures !OccursAt(s, d, i)
    {
      if i == 0 {
        if |s| >= |d| {
          assert s[..|d|][2..] == x[..|d| - 2];
        }
      } else if i == 1 {
        assert s[1..][0] == 0x0A != d[0];
      } else {
        assert s[i..] == x[i - 2..];
        assert !OccursAt(x, d, i - 2);
      }
    }
  }

  /** A parameter part's content holds no delimiter when its value does not hold the boundary. */
  lemma FieldPayloadClean(name8: seq<Byte>, value8: seq<Byte>, boundary8: seq<Byte>)
    requires NoCarriageReturn(name8)
    requires !Occurs(boundary8, value8)
    ensures !Occurs(Delimiter(boundary8), FieldPrefix + name8 + FieldSuffix + value8)
  {
    ContentClean(value8, boundary8);
    PrependCrlf(value8, boundary8);
    assert (Crlf + value8)[0] != (Dashes + boundary8)[0];
    PrependCrlf(Crlf + value8, boundary8);
    PrependLine(FieldPrefix + name8 + Quote, Crlf + (Crlf + value8), boundary8);
    assert FieldPrefix + name8 + FieldSuffix + value8 == FieldPrefix + name8 + Quote + (Crlf + (Crlf + value8));
  }

  /** The minidump part's content holds no delimiter when the dump does not hold the boundary. */
  lemma FilePayloadClean(filename8: seq<Byte>, dump: seq<Byte>, boundary8: seq<Byte>)
    requires NoCarriageReturn(filename8)
    requires !Occurs(boundary8, dump)
    ensures !Occurs(Delimiter(boundary8), FileContent(filename8, dump))
  {
    var head := FilePrefix + filename8 + Quote;
    HeadersFreeOfCr(filename8);
    CleanBehindLines(head, ContentTypeLine, dump, boundary8);
    assert FileContent(filename8, dump) == head + (Crlf + (ContentTypeLine + (Crlf + (Crlf + dump))));
  }

  /** The file part's header text holds no CR of its own. */
  lemma HeadersFreeOfCr(filename8: seq<Byte>)
    requires NoCarriageReturn(filename8)
    ensures NoCarriageReturn(FilePrefix + filename8 + Quote)
    ensures NoCarriageReturn(ContentTypeLine)
    ensures |ContentTypeLine| > 0 && ContentTypeLine[0] != 0x2D
  {
    assert forall k | 0 <= k < |FilePrefix| :: FilePrefix[k] != 0x0D;
    assert forall k | 0 <= k < |ContentTypeLine| :: ContentTypeLine[k] != 0x0D;
  }

  /** Two header lines and a blank line in front of boundary-free content add no delimiter. */
  lemma CleanBehindLines(head: seq<Byte>, line: seq<Byte>, x: seq<Byte>, boundary8: seq<Byte>)
    requires NoCarriageReturn(head) && NoCarriageReturn(line)
    requires |line| > 0 && line[0] != 0x2D
    requires !Occurs(boundary8, x)
    ensures !Occurs(Delimiter(boundary8), head + (Crlf + (line + (Crlf + (Crlf + x)))))
  {
    var x0 := Crlf + x;
    var x1 := Crlf + x0;
    var x2 := line + x1;
    ContentClean(x, boundary8);
    PrependCrlf(x, boundary8);
    assert x0[0] != (Dashes + boundary8)[0];
    PrependCrlf(x0, boundary8);
    PrependLine(line, x1, boundary8);
    assert x2[0] != (Dashes + boundary8)[0];
    PrependCrlf(x2, boundary8);
    PrependLine(head, Crlf + x2, boundary8);
  }

  // ---------------------------------------------------------------------
  // Reading the parts back
  // ---------------------------------------------------------------------

  predicate NoQuote(s: seq<Byte>) {
    forall k | 0 <= k < |s| :: s[k] != 0x22
  }

  /** Reading `prefix`, then text up to `sep`, then the rest, stated over plain sequences. */
  lemma ReadAround(prefix: seq<Byte>, x: seq<Byte>, sep: seq<Byte>, y: seq<Byte>)
    requires |sep| > 0 && forall k | 0 <= k < |x| :: x[k] != sep[0]
    ensures StartsWith(prefix + x + sep + y, prefix)
    ensures (prefix + x + sep + y)[|prefix|..] == x + sep + y
    ensures Find(x + sep + y, sep) == Some(|x|)
    ensures (x + sep + y)[..|x|] == x && (x + sep + y)[|x| + |sep|..] == y
  {
    assert prefix + x + sep + y == prefix + (x + sep + y);
    FindAfterHeadFree(x, sep, y);
  }

  lemma ParseFieldContent(p: Param)
    requires Utf16.WellFormed(p.name) && Utf16.WellFormed(p.value)
    requires NoQuote(WideToUtf8(p.name))
    ensures ParseField(FieldContent(p)) == Some(p)
  {
    var name8 := WideToUtf8(p.name);
    var value8 := WideToUtf8(p.value);
    assert FieldSuffix[0] == 0x22;
    ReadAround(FieldPrefix, name8, FieldSuffix, value8);
    TranscodeRoundTrip(p.name);
    TranscodeRoundTrip(p.value);
  }

  /** The contents list holds each parameter's content at that parameter's index. */
  lemma {:induction false} FieldPayloadsAt(ps: seq<Param>, i: nat)
    requires WellFormedParams(ps) && i < |ps|
    ensures FieldPayloads(ps)[i] == FieldContent(ps[i])
    decreases i
  {
    if i > 0 {
      FieldPayloadsAt(ps[1..], i - 1);
    }
  }

  /** Parameter parts that each read back as their parameter read back as the list. */
  lemma {:induction false} ParseFieldsAll(parts: seq<seq<Byte>>, ps: seq<Param>)
    requires |parts| == |ps|
    requires forall i | 0 <= i < |parts| :: ParseField(parts[i]) == Some(ps[i])
    ensures ParseFields(parts) == Some(ps)
    decreases |parts|
  {
    if |parts| > 0 {
      assert ParseField(parts[0]) == Some(ps[0]);
      ParseFieldsAll(parts[1..], ps[1..]);
      assert ps == [ps[0]] + ps[1..];
    }
  }

  lemma ParseFieldPayloads(ps: seq<Param>)
    requires WellFormedParams(ps)
    requires forall i | 0 <= i < |ps| :: NoQuote(WideToUtf8(ps[i].name))
    ensures ParseFields(FieldPayloads(ps)) == Some(ps)
  {
    var parts := FieldPayloads(ps);
    forall i | 0 <= i < |parts|
      ensures ParseField(parts[i]) == Some(ps[i])
    {
      FieldPayloadsAt(ps, i);
      ParseFieldContent(ps[i]);
    }
    ParseFieldsAll(parts, ps);
  }

  lemma ParseFileContent(filename: WString, dump: seq<Byte>)
    requires Utf16.WellFormed(filename)
    requires NoQuote(WideToUtf8(filename))
    ensures ParseFile(FileContent(WideToUtf8(filename), dump)) == Some((filename, dump))
  {
    var filename8 := WideToUtf8(filename);
    assert FileSuffix[0] == 0x22;
    ReadAround(FilePrefix, filename8, FileSuffix, dump);
    TranscodeRoundTrip(filename);
  }

  // ---------------------------------------------------------------------
  // The whole request
  // ---------------------------------------------------------------------

  /** A name that passes the check is ASCII: its octets are its units and hold neither quote nor CR. */
  lemma NameOctets(name: WString)
    requires CheckName(name)
    ensures Utf16.WellFormed(name)
    ensures NoQuote(WideToUtf8(name)) && NoCarriageReturn(WideToUtf8(name))
  {
    Utf16.NoSurrogatesWellFormed(name);
  }

  /** A boundary of token `bchars` is ASCII without CR: its UTF-8 is the reader's octets. */
  lemma BoundaryOctets(boundary: WString)
    requires IsBoundary(boundary)
    ensures Utf16.WellFormed(boundary)
    ensures WideToUtf8(boundary) == AsciiOctets(boundary)
    ensures NoCarriageReturn(AsciiOctets(boundary))
  {
    assert forall k | 0 <= k < |boundary| :: boundary[k] < 0x80 && boundary[k] != 0x0D by {
      forall k | 0 <= k < |boundary|
        ensures boundary[k] < 0x80 && boundary[k] != 0x0D
      {
        assert IsBoundaryChar(boundary[k]);
      }
    }
    Utf16.NoSurrogatesWellFormed(boundary);
    var b8 := WideToUtf8(boundary);
    assert |b8| == |AsciiOctets(boundary)|;
    assert forall k | 0 <= k < |b8| :: b8[k] == AsciiOctets(boundary)[k];
  }

  /** A file name without quote or CR keeps neither in UTF-8. */
  lemma FilenameOctets(filename: WString)
    requires Utf16.WellFormed(filename)
    requires forall k | 0 <= k < |filename| :: filename[k] != 0x22 && filename[k] != 0x0D
    ensures NoQuote(WideToUtf8(filename)) && NoCarriageReturn(WideToUtf8(filename))
  {
    AsciiAbsentStaysAbsent(filename, 0x22);
    AsciiAbsentStaysAbsent(filename, 0x0D);
  }

  /** A value that does not hold the boundary does not hold it after transcoding either. */
  lemma ValueOctets(value: WString, boundary: WString)
    requires Utf16.WellFormed(value) && IsBoundary(boundary)
    requires !Occurs(boundary, value)
    ensures !Occurs(AsciiOctets(boundary), WideToUtf8(value))
  {
    if Occurs(AsciiOctets(boundary), WideToUtf8(value)) {
      AsciiOccursInTranscoded(value, boundary);
    }
  }

  /** The assembled body is the opening line followed by the frame of all part contents. */
  lemma BodyFramed(ps: seq<Param>, boundary8: seq<Byte>, filename8: seq<Byte>, dump: seq<Byte>)
    requires WellFormedParams(ps)
    ensures |ps| == 0 || StartsWith(FieldParts(boundary8, ps), OpenLine(boundary8))
    ensures var body := Assemble(FieldParts(boundary8, ps), boundary8, filename8, dump);
      StartsWith(body, OpenLine(boundary8))
      && body[|OpenLine(boundary8)|..] == Frame(AllPayloads(ps, filename8, dump), boundary8)
  {
    FieldPartsOpen(boundary8, ps);
    var fields := FieldParts(boundary8, ps);
    var part := FilePart(boundary8, filename8, dump);
    var close := CloseDelimiter(boundary8);
    var frame := Frame(AllPayloads(ps, filename8, dump), boundary8);
    FieldsFramed(boundary8, ps, FileContent(filename8, dump));
    Regroup(fields, part, close);
    AfterPrefix(OpenLine(boundary8), frame);
  }

  lemma Regroup<T>(a: seq<T>, b: seq<T>, c: seq<T>)
    ensures a + b + c == a + (b + c)
  {
  }

  lemma AfterPrefix<T>(a: seq<T>, b: seq<T>)
    ensures StartsWith(a + b, a) && (a + b)[|a|..] == b
  {
    StartsWithConcat(a, b);
    assert (a + b)[|a|..] == b;
  }

  /** Every part content of a well-behaved request is free of the delimiter. */
  lemma PayloadsClean(ps: seq<Param>, boundary8: seq<Byte>, filename8: seq<Byte>, dump: seq<Byte>)
    requires WellFormedParams(ps)
    requires forall i | 0 <= i < |ps| :: NoCarriageReturn(WideToUtf8(ps[i].name))
    requires forall i | 0 <= i < |ps| :: !Occurs(boundary8, WideToUtf8(ps[i].value))
    requires NoCarriageReturn(filename8) && !Occurs(boundary8, dump)
    ensures var payloads := AllPayloads(ps, filename8, dump);
      forall i | 0 <= i < |payloads| :: !Occurs(Delimiter(boundary8), payloads[i])
  {
    var payloads := AllPayloads(ps, filename8, dump);
    forall i | 0 <= i < |payloads|
      ensures !Occurs(Delimiter(boundary8), payloads[i])
    {
      if i < |ps| {
        FieldPayloadsAt(ps, i);
        FieldPayloadClean(WideToUtf8(ps[i].name), WideToUtf8(ps[i].value), boundary8);
      } else {
        FilePayloadClean(filename8, dump, boundary8);
      }
    }
  }

  /** The reader takes a framed body apart into the parameters, the file name and the dump. */
  lemma ReadFramedBody(ps: seq<Param>, boundary8: seq<Byte>, filename: WString, dump: seq<Byte>, body: seq<Byte>)
    requires WellFormedParams(ps) && Utf16.WellFormed(filename)
    requires NoCarriageReturn(boundary8)
    requires forall i | 0 <= i < |ps| :: NoQuote(WideToUtf8(ps[i].name))
    requires NoQuote(WideToUtf8(filename))
    requires var payloads := AllPayloads(ps, WideToUtf8(filename), dump);
      forall i | 0 <= i < |payloads| :: !Occurs(Delimiter(boundary8), payloads[i])
    requires StartsWith(body, OpenLine(boundary8))
    requires body[|OpenLine(boundary8)|..] == Frame(AllPayloads(ps, WideToUtf8(filename), dump), boundary8)
    ensures ParseRequestBody(body, boundary8) == Some(Report(ps, filename, dump))
  {
    var payloads := AllPayloads(ps, WideToUtf8(filename), dump);
    SplitFrame(payloads, boundary8);
    ParseFieldPayloads(ps);
    ParseFileContent(filename, dump);
    ReadParts(body, boundary8, payloads, Report(ps, filename, dump));
  }

  /** The body reader's last step, stated over parts already cut and read. */
  lemma ReadParts(body: seq<Byte>, boundary8: seq<Byte>, parts: seq<seq<Byte>>, report: Report)
    requires StartsWith(body, OpenLine(boundary8))
    requires SplitParts(body[|OpenLine(boundary8)|..], boundary8) == Some(parts)
    requires |parts| > 0 && ParseFields(parts[..|parts| - 1]) == Some(report.parameters)
    requires ParseFile(parts[|parts| - 1]) == Some((report.filename, report.dump))
    ensures ParseRequestBody(body, boundary8) == Some(report)
  {
  }

  /** What CheckParameters and the boundary rule guarantee about every parameter's octets. */
  lemma ParamsOctets(ps: ParamMap, boundary: WString)
    requires CheckParameters(ps)
    requires forall i | 0 <= i < |ps| :: Utf16.WellFormed(ps[i].value)
    requires forall i | 0 <= i < |ps| :: !Occurs(boundary, ps[i].value)
    requires IsBoundary(boundary)
    ensures WellFormedParams(ps)
    ensures forall i | 0 <= i < |ps| :: NoQuote(WideToUtf8(ps[i].name)) && NoCarriageReturn(WideToUtf8(ps[i].name))
    ensures forall i | 0 <= i < |ps| :: !Occurs(AsciiOctets(boundary), WideToUtf8(ps[i].value))
  {
    forall i | 0 <= i < |ps|
      ensures Utf16.WellFormed(ps[i].name)
      ensures NoQuote(WideToUtf8(ps[i].name)) && NoCarriageReturn(WideToUtf8(ps[i].name))
      ensures !Occurs(AsciiOctets(boundary), WideToUtf8(ps[i].value))
    {
      NameChecked(ps, i);
      ParamOctets(ps[i], boundary);
    }
  }

  /** CheckParameters passes each name on its own. */
  lemma NameChecked(ps: ParamMap, i: nat)
    requires CheckParameters(ps) && i < |ps|
    ensures CheckName(ps[i].name)
  {
  }

  /** What the name check and the boundary rule guarantee about one parameter's octets. */
  lemma ParamOctets(p: Param, boundary: WString)
    requires CheckName(p.name) && Utf16.WellFormed(p.value)
    requires IsBoundary(boundary) && !Occurs(boundary, p.value)
    ensures Utf16.WellFormed(p.name)
    ensures NoQuote(WideToUtf8(p.name)) && NoCarriageReturn(WideToUtf8(p.name))
    ensures !Occurs(AsciiOctets(boundary), WideToUtf8(p.value))
  {
    NameOctets(p.name);
    ValueOctets(p.value, boundary);
  }

  /** With a well-formed boundary the encoder succeeds and writes the assembled parts. */
  lemma EncodedBody(parameters: ParamMap, minidumpFilename: WString, dump: seq<Byte>, boundary: WString)
    requires WellFormedParams(parameters) && Utf16.WellFormed(minidumpFilename)
    requires IsBoundary(boundary) && |dump| > 0
    ensures Utf16.WellFormed(boundary)
    ensures GenerateRequestBody(parameters, minidumpFilename, dump, boundary)
            == Success(Assemble(FieldParts(AsciiOctets(boundary), parameters), AsciiOctets(boundary),
                                WideToUtf8(minidumpFilename), dump))
  {
    BoundaryOctets(boundary);
    FieldPartsOpen(AsciiOctets(boundary), parameters);
  }

  /** A header the encoder wrote for a well-formed boundary hands the body to the body reader. */
  lemma ReadsBody(boundary: WString, body: seq<Byte>)
    requires IsBoundary(boundary)
    ensures ParseRequest(GenerateRequestHeader(boundary), body) == ParseRequestBody(body, AsciiOctets(boundary))
  {
    HeaderRoundTrip(boundary);
  }

  /** The reader's half: a header for the boundary and a framed body read back as the report. */
  lemma ReadBack(ps: seq<Param>, boundary: WString, filename: WString, dump: seq<Byte>, body: seq<Byte>)
    requires WellFormedParams(ps) && Utf16.WellFormed(filename) && IsBoundary(boundary)
    requires NoCarriageReturn(AsciiOctets(boundary))
    requires forall i | 0 <= i < |ps| :: NoQuote(WideToUtf8(ps[i].name)) && NoCarriageReturn(WideToUtf8(ps[i].name))
    requires forall i | 0 <= i < |ps| :: !Occurs(AsciiOctets(boundary), WideToUtf8(ps[i].value))
    requires NoQuote(WideToUtf8(filename)) && NoCarriageReturn(WideToUtf8(filename))
    requires !Occurs(AsciiOctets(boundary), dump)
    requires StartsWith(body, OpenLine(AsciiOctets(boundary)))
    requires body[|OpenLine(AsciiOctets(boundary))|..]
             == Frame(AllPayloads(ps, WideToUtf8(filename), dump), AsciiOctets(boundary))
    ensures ParseRequest(GenerateRequestHeader(boundary), body) == Some(Report(ps, filename, dump))
  {
    var boundary8 := AsciiOctets(boundary);
    PayloadsClean(ps, boundary8, WideToUtf8(filename), dump);
    ReadFramedBody(ps, boundary8, filename, dump, body);
    ReadsBody(boundary, body);
  }

  /**
   What the sender writes, the reader reads back: for parameters that
   pass CheckParameters, a file name without quote or CR, a boundary of
   token `bchars` found in no value and not in the dump, the header names the
   boundary and the body yields the same parameters in the same order,
   the same file name and the dump bytes unchanged.
   */
  lemma RequestRoundTrip(parameters: ParamMap, minidumpFilename: WString, dump: seq<Byte>, boundary: WString)
    requires CheckParameters(parameters)
    requires forall i | 0 <= i < |parameters| :: Utf16.WellFormed(parameters[i].value)
    requires forall i | 0 <= i < |parameters| :: !Occurs(boundary, parameters[i].value)
    requires Utf16.WellFormed(minidumpFilename)
    requires forall k | 0 <= k < |minidumpFilename| :: minidumpFilename[k] != 0x22 && minidumpFilename[k] != 0x0D
    requires IsBoundary(boundary)
    requires |dump| > 0 && !Occurs(AsciiOctets(boundary), dump)
    ensures WellFormedParams(parameters) && Utf16.WellFormed(boundary)
    ensures var body := GenerateRequestBody(parameters, minidumpFilename, dump, boundary);
      body.Success? && ParseRequest(GenerateRequestHeader(boundary), body.value)
                       == Some(Report(parameters, minidumpFilename, dump))
  {
    ParamsOctets(parameters, boundary);
    var ps: seq<Param> := parameters;
    BoundaryOctets(boundary);
    FilenameOctets(minidumpFilename);
    var boundary8 := AsciiOctets(boundary);
    var filename8 := WideToUtf8(minidumpFilename);
    EncodedBody(parameters, minidumpFilename, dump, boundary);
    BodyFramed(ps, boundary8, filename8, dump);
    ReadBack(ps, boundary, minidumpFilename, dump, Assemble(FieldParts(boundary8, ps), boundary8, filename8, dump));
  }
}
