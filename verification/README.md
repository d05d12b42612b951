# CrashReportSender multipart encoder, in Dafny

Breakpad's `CrashReportSender` uploads a crash report as one HTTP POST
whose body is `multipart/form-data`. The body holds the caller's string
parameters and the minidump file. This project models the pure core of
that class:

- **CheckParameters** accepts a parameter map only when every name is
  printable ASCII (0x20 to 0x7E) and holds no quote (`"`).
- **WideToUTF8** turns the caller's UTF-16 text into UTF-8.
- **GenerateRequestHeader** writes the `Content-Type` header that names the
  multipart boundary.
- **GenerateRequestBody** writes one part per parameter in map order, then
  the minidump part, then the close-delimiter. It reports failure when the
  dump cannot be read.

Both encodings are modelled from their standards. UTF-16 decoding follows
section 2.2 of RFC 2781. UTF-8 encoding and its strict decoder follow
section 3 of RFC 3629. The header and body layout follow section 4 of
RFC 7578 and section 5.1.1 of RFC 2046.

The `std::map<wstring, wstring>` is a sequence of `Param`s whose names
strictly ascend in code-unit order (`ParamMap`). That is the order the map
iterates in, so parameters appear in the body in that order.

The encoder's partner is `FormData`, a strict multipart reader for exactly
this layout. It recovers the boundary from the header and splits the body
on the RFC 2046 delimiter, which is CRLF, `--` and the boundary. It then
reads the parts back.

The main theorem is `RoundTrip.RequestRoundTrip`. Take any parameter map
that passes CheckParameters and any non-empty dump. Take a boundary made
of RFC 2046 `bchars` that are also RFC 2045 token characters (digits,
letters and `' + _ - .`), found in no value and not in the dump. Then the
reader gets back:

- the same parameters, in the same order;
- the same file name;
- the dump bytes unchanged, including NUL, CR and LF.

Modules, one per file:

| file | module | contents |
|---|---|---|
| `wrappers.dfy` | `Wrappers` | `Option`, `Result` |
| `unicode.dfy` | `Unicode` | bytes, UTF-16 code units, scalar values |
| `utf16.dfy` | `Utf16` | well-formedness, decoding and encoding, both round trips |
| `utf8.dfy` | `Utf8` | encoding, strict decoding, both round trips |
| `search.dfy` | `Search` | prefix and substring search, with the facts the reader needs |
| `crash_report_sender.dfy` | `CrashReportSender` | the class: parameters, CheckParameters, WideToUtf8, header, body |
| `form_data.dfy` | `FormData` | the multipart reader |
| `text_properties.dfy` | `TextProperties` | transcoder facts the reader relies on |
| `round_trip.dfy` | `RoundTrip` | header and request round trips |

`crash_report_sender.cc` is not part of this model. The header's comments
name the parts of the body but not its bytes. The exact layout follows
section 4 of RFC 7578 and section 5.1.1 of RFC 2046. The file part's
content type, `application/octet-stream`, is RFC 7578's default for files.
Two details are modelling choices that neither the header nor the
standards state: the file field's name `upload_file_minidump`, and the
exact CRLF placement between a part's header lines and its content.

## Model

| member | source | states |
|---|---|---|
| CrashReportSender.CheckParameters | src/client/windows/sender/crash_report_sender.h:87-90 | true exactly when every character of every parameter name is in 0x20..0x7E and is not a quote; values are not constrained |
| CrashReportSender.CheckName | src/client/windows/sender/crash_report_sender.h:87-89 | one name passes exactly when each of its characters is printable ASCII other than the quote |
| CrashReportSender.QuoteRejects | src/client/windows/sender/crash_report_sender.h:56-57 | a quote at any position of any name makes the whole map fail the check |
| CrashReportSender.ValuesIgnored | src/client/windows/sender/crash_report_sender.h:87-90 | two maps with the same names in the same order get the same answer, whatever their values |
| CrashReportSender.CheckExamples | src/client/windows/sender/crash_report_sender.h:56-57 | the name `say "hi"` is refused and `sayhi` is accepted, with any value |
| CrashReportSender.NamesDistinct | src/client/windows/sender/crash_report_sender.h:61 | the names of a parameter map are pairwise distinct, as the keys of a std::map are |
| CrashReportSender.WideToUtf8 | src/client/windows/sender/crash_report_sender.h:84-85 | the UTF-8 result decodes to the same code points as the UTF-16 input; its length is between one and three times the input's; ASCII input comes out octet for unit, same length |
| Utf16.DecodeOfEncode | src/client/windows/sender/crash_report_sender.h:84-85 | encoding scalar values as UTF-16 and decoding gives them back, surrogate pairs included |
| Utf16.EncodeOfDecode | src/client/windows/sender/crash_report_sender.h:84-85 | decoding well-formed UTF-16 and encoding again gives the same code units |
| Utf8.DecodeOfEncode | src/client/windows/sender/crash_report_sender.h:84-85 | the strict UTF-8 decoder reads back every encoded scalar sequence |
| Utf8.EncodeOfDecode | src/client/windows/sender/crash_report_sender.h:84-85 | octets the strict decoder accepts are exactly the encoding of what it returns |
| TextProperties.TranscodeRoundTrip | src/client/windows/sender/crash_report_sender.h:84-85 | UTF-16 to UTF-8 and back returns the original wide string |
| TextProperties.SurrogatePairTranscodes | src/client/windows/sender/crash_report_sender.h:84-85 | a high and a low surrogate in front become one four-octet UTF-8 sequence for the code point they encode together, followed by the UTF-8 of the rest |
| TextProperties.AsciiOccursInTranscoded | src/client/windows/sender/crash_report_sender.h:84-85 | ASCII text found in the UTF-8 of a string already occurs in the UTF-16 string itself |
| TextProperties.AsciiAbsentStaysAbsent | src/client/windows/sender/crash_report_sender.h:84-85 | an ASCII character absent from the UTF-16 input is absent from its UTF-8 |
| CrashReportSender.GenerateRequestHeader | src/client/windows/sender/crash_report_sender.h:70-71 | the header is `Content-Type: multipart/form-data; boundary=` followed by exactly the boundary |
| RoundTrip.HeaderRoundTrip | src/client/windows/sender/crash_report_sender.h:70-71 | the reader recovers the boundary from the generated header |
| RoundTrip.HeaderParseSound | src/client/windows/sender/crash_report_sender.h:70-71 | every header the reader accepts is the generated header of the boundary it reports |
| CrashReportSender.GenerateRequestBody | src/client/windows/sender/crash_report_sender.h:73-79 | fails with UnreadableDump exactly when the dump is empty and with EmptyBoundary exactly when the dump is present but the boundary is empty; otherwise opens with `--boundary` CRLF and ends with the octet-stream line, a blank line, the dump bytes verbatim, CRLF and `--boundary--` CRLF |
| RoundTrip.FieldsFramed | src/client/windows/sender/crash_report_sender.h:73-75 | the parameter parts, in map order, followed by the minidump part and the close-delimiter, are the first delimiter line and then each part's content separated by delimiters |
| RoundTrip.SplitFrame | src/client/windows/sender/crash_report_sender.h:73-79 | when no part content holds the delimiter, splitting the body returns exactly the part contents, in order |
| RoundTrip.FieldPayloadClean | src/client/windows/sender/crash_report_sender.h:56-57 | a parameter part holds no delimiter when its name has no CR and its value does not hold the boundary |
| RoundTrip.FilePayloadClean | src/client/windows/sender/crash_report_sender.h:76-79 | the minidump part holds no delimiter when the file name has no CR and the dump does not hold the boundary |
| RoundTrip.ParseFieldContent | src/client/windows/sender/crash_report_sender.h:56-57 | a parameter part reads back as its parameter when the name holds no quote, which is what the quote rule guarantees |
| RoundTrip.ParseFileContent | src/client/windows/sender/crash_report_sender.h:76-79 | the minidump part reads back as the file name and the exact dump bytes |
| RoundTrip.RequestRoundTrip | src/client/windows/sender/crash_report_sender.h:54-79 | for a map passing CheckParameters, a dump, and a boundary of RFC 2046 `bchars` that are RFC 2045 token characters, found in no value and not in the dump: the body is generated, and reading header and body returns the same parameters in order, the file name and the dump |

## Left out

- SendCrashReport (crash_report_sender.h:60-62): opening the URL, sending over HTTP with WinINet and reading the response are I/O. The model stops at the header and body that would be sent.
- AutoInternetHandle (crash_report_sender.h:65): this wrapper only closes WinINet handles, so it has no behaviour to model.
- GenerateMultipartBoundary (crash_report_sender.h:67-68): the boundary comes from a clock or random source, so it is a parameter here. The round trip states which boundaries work.
- GetFileContents (crash_report_sender.h:81-82): file reading is I/O. The dump bytes are an input to GenerateRequestBody, and an empty read is the UnreadableDump failure.
- Constructors, destructor and assignment (crash_report_sender.h:92-97): they are disabled, and the class has no state.
- CrashReportSender.WideToUtf8: requires well-formed UTF-16, so lone surrogates are not modelled. What the conversion does with them is platform behaviour that the header does not state.
- CrashReportSender.GenerateRequestHeader: the result is the header line without a trailing CRLF. HTTP ends each header line with CRLF. The model leaves that line break to the transport call, which is not modelled.
- CrashReportSender.GenerateRequestHeader: writes the boundary unquoted, as the class does. A boundary holding space or any of `( ) , / : = ?` would then give an invalid Content-Type field, because RFC 2045 lets only token characters go unquoted. So the round trip and the reader admit only boundaries of token characters.
- CrashReportSender.CheckParameters: accepts an empty name. The header's comment allows it, although an empty name is not a useful form field.
- CrashReportSender.GenerateRequestBody: the EmptyBoundary failure is a modelling choice. RFC 2046 requires at least one boundary character, and the header says nothing on the matter.
- CrashReportSender.GenerateRequestBody: the file part's `filename` is the UTF-8 of the minidump_filename argument as given. No path is stripped.
- RoundTrip.RequestRoundTrip: holds only when the boundary is made of token characters and occurs in no value and not in the dump, and the file name has no quote or CR. Otherwise the body is ambiguous for any reader, and the source promises nothing there.
- FormData.ParseRequest: the reader is strict. It accepts no preamble, no epilogue, no transport padding and no extra part headers, because its job is to invert this encoder, not to read arbitrary multipart input.
