/** The value types that the wide-string and byte-string code works on. */
module Unicode {

  /** One octet of a UTF-8 string or of the minidump file. */
  type Byte = b: int | 0 <= b < 0x100

  /** One 16-bit unit of a UTF-16 wide string (the Windows `wchar_t`). */
  type CodeUnit = u: int | 0 <= u < 0x1_0000

  /** A wide string as the sender's callers hand it over. */
  type WString = seq<CodeUnit>

  /** Unicode scalar values: every code point except the surrogate range. */
  predicate IsScalarValue(c: int) {
    0 <= c < 0xD800 || 0xE000 <= c < 0x11_0000
  }

  type Scalar = c: int | IsScalarValue(c)

  /** A printable ASCII character, 0x20 (space) through 0x7E (tilde). */
  predicate IsPrintableAscii(c: int) {
    0x20 <= c <= 0x7E
  }
}
