/**
 The three Unicode encoding forms, as the standards define them: section 3 of RFC 3629 for UTF-8,
 section 2.1 of RFC 2781 for UTF-16, and Table 3-7 in section 3.9 of the Unicode Standard for the
 well-formed UTF-8 byte sequences.  Nothing here follows convert_UTF.c; the converters are proved
 against these definitions.
 */
module UnicodeForms {

  type UTF8 = bv8
  type UTF16 = bv16
  type UTF32 = bv32

  predicate IsSurrogate(v: UTF32) { 0xD800 <= v <= 0xDFFF }

  predicate IsScalar(v: UTF32) { v <= 0x10FFFF && !IsSurrogate(v) }

  type Scalar = v: UTF32 | v <= 0x10FFFF && !(0xD800 <= v <= 0xDFFF)

  predicate IsHigh(u: UTF16) { 0xD800 <= u <= 0xDBFF }

  predicate IsLow(u: UTF16) { 0xDC00 <= u <= 0xDFFF }

  function Utf32(v: Scalar): seq<UTF32> { [v] }

  /** RFC 2781, section 2.1. */
  function Utf16(v: Scalar): seq<UTF16> {
    if v < 0x10000 then [Narrow(v)] else [W1(v), W2(v)]
  }

  function Narrow(v: UTF32): UTF16
    requires v <= 0xFFFF
  { v as UTF16 }

  function W1(v: UTF32): UTF16
    requires 0x10000 <= v <= 0x10FFFF
  { (0xD800 | ((v - 0x10000) >> 10)) as UTF16 }

  function W2(v: UTF32): UTF16
    requires 0x10000 <= v <= 0x10FFFF
  { (0xDC00 | ((v - 0x10000) & 0x3FF)) as UTF16 }

  /** A continuation octet of RFC 3629, section 3: 10xxxxxx with the low six bits of `x`. */
  function Cont(x: UTF32): UTF8 { (0x80 | (x & 0x3F)) as UTF8 }

  function Lead2(v: UTF32): UTF8
    requires v < 0x800
  { (0xC0 | (v >> 6)) as UTF8 }

  function Lead3(v: UTF32): UTF8
    requires v < 0x10000
  { (0xE0 | (v >> 12)) as UTF8 }

  function Lead4(v: UTF32): UTF8
    requires v <= 0x10FFFF
  { (0xF0 | (v >> 18)) as UTF8 }

  /** RFC 3629, section 3. */
  function Utf8(v: Scalar): seq<UTF8> {
    if v < 0x80 then [v as UTF8]
    else if v < 0x800 then [Lead2(v), Cont(v)]
    else if v < 0x10000 then [Lead3(v), Cont(v >> 6), Cont(v)]
    else [Lead4(v), Cont(v >> 12), Cont(v >> 6), Cont(v)]
  }

  predicate IsTail(b: UTF8) { 0x80 <= b <= 0xBF }

  /** Unicode Standard, section 3.9, Table 3-7: the byte sequences that encode one scalar value. */
  predicate InTable37(s: seq<UTF8>) {
    || (|s| == 1 && s[0] <= 0x7F)
    || (|s| == 2 && 0xC2 <= s[0] <= 0xDF && IsTail(s[1]))
    || (|s| == 3 && IsTail(s[1]) && IsTail(s[2]) &&
          if s[0] == 0xE0 then 0xA0 <= s[1] else if s[0] == 0xED then s[1] <= 0x9F else 0xE1 <= s[0] <= 0xEF)
    || (|s| == 4 && IsTail(s[1]) && IsTail(s[2]) && IsTail(s[3]) &&
          if s[0] == 0xF0 then 0x90 <= s[1] else if s[0] == 0xF4 then s[1] <= 0x8F else 0xF1 <= s[0] <= 0xF3)
  }

  lemma Utf8InTable37(v: Scalar)
    ensures InTable37(Utf8(v))
  {
  }
}
