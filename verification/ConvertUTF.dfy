/**
 One turn of each converter loop of convert_UTF.c, with the expressions the C code uses.

 Character values are 32-bit words and every operation on them wraps.  `strict` is
 flags == strictConversion.
 */
module ConvertUTF {
  import opened ConversionRun
  import opened UnicodeForms

  const REPLACEMENT_CHAR: UTF32 := 0xFFFD
  const MAX_BMP: UTF32 := 0xFFFF
  const MAX_LEGAL: UTF32 := 0x10FFFF
  const HALF_BASE: UTF32 := 0x10000

  /** A C cast to a narrower unsigned type. */
  function ToUTF16(ch: UTF32): UTF16 { (ch & 0xFFFF) as UTF16 }

  /** The conversion of a unit assigned to a UTF32 variable. */
  function Wide(u: UTF16): UTF32 { u as UTF32 }

  function ToUTF8(ch: UTF32): UTF8 { (ch & 0xFF) as UTF8 }

  // ---------- Writing UTF-16 ----------

  function HighHalf(ch: UTF32): UTF16 { ToUTF16(((ch - HALF_BASE) >> 10) + 0xD800) }

  function LowHalf(ch: UTF32): UTF16 { ToUTF16(((ch - HALF_BASE) & 0x3FF) + 0xDC00) }

  function Act32To16(s: seq<UTF32>, strict: bool): Action<UTF16> {
    if s == [] then Halt(SourceExhausted, 0)
    else
      var ch := s[0];
      if ch <= MAX_BMP then
        if IsSurrogate(ch) then
          if strict then Halt(SourceIllegal, 1) else Emit(1, [ToUTF16(REPLACEMENT_CHAR)], 1, false)
        else Emit(1, [ToUTF16(ch)], 1, false)
      else if ch > MAX_LEGAL then
        if strict then Emit(1, [], 1, true) else Emit(1, [ToUTF16(REPLACEMENT_CHAR)], 1, false)
      else Emit(1, [HighHalf(ch), LowHalf(ch)], 2, false)
  }

  // ---------- Reading UTF-16 ----------

  /** A character read from some units, or the code that ends the conversion. */
  datatype ReadResult = Char(ch: UTF32, units: nat) | Bad(code: ConversionResult)

  predicate IsHigh32(ch: UTF32) { 0xD800 <= ch <= 0xDBFF }

  predicate IsLow32(ch: UTF32) { 0xDC00 <= ch <= 0xDFFF }

  function PairValue(high: UTF32, low: UTF32): UTF32 {
    ((high - 0xD800) << 10) + (low - 0xDC00) + HALF_BASE
  }

  /** The surrogate handling shared by the two converters that read UTF-16. */
  function ReadUTF16(s: seq<UTF16>, strict: bool): ReadResult
    requires s != []
  {
    var ch := Wide(s[0]);
    if IsHigh32(ch) then
      if |s| > 1 then
        var ch2 := Wide(s[1]);
        if IsLow32(ch2) then Char(PairValue(ch, ch2), 2)
        else if strict then Bad(SourceIllegal)
        else Char(ch, 1)
      else Bad(SourceExhausted)
    else if strict && IsLow32(ch) then Bad(SourceIllegal)
    else Char(ch, 1)
  }

  function Act16To32(s: seq<UTF16>, strict: bool): Action<UTF32> {
    if s == [] then Halt(SourceExhausted, 0)
    else match ReadUTF16(s, strict)
      case Bad(code) => Halt(code, 0)
      case Char(ch, n) => Emit(n, [ch], 1, false)
  }

  // ---------- Writing UTF-8 ----------

  const BYTE_MASK: UTF32 := 0xBF
  const BYTE_MARK: UTF32 := 0x80

  /** firstByteMark, for the sequence lengths that are written. */
  function FirstByteMark(n: nat): UTF32
    requires 1 <= n <= 4
  {
    if n == 1 then 0x00 else if n == 2 then 0xC0 else if n == 3 then 0xE0 else 0xF0
  }

  function BytesToWrite(ch: UTF32): (n: nat)
    ensures 1 <= n <= 4
  {
    if ch < 0x80 then 1 else if ch < 0x800 then 2 else if ch < 0x10000 then 3
    else if ch <= MAX_LEGAL then 4 else 3
  }

  /** ch >>= 6. */
  function Down(ch: UTF32): UTF32 { ch >> 6 }

  function Trailer(ch: UTF32): UTF8 { ToUTF8((ch | BYTE_MARK) & BYTE_MASK) }

  function Marked(ch: UTF32, n: nat): UTF8
    requires 1 <= n <= 4
  { ToUTF8(ch | FirstByteMark(n)) }

  /** The bytes the fall-through switch leaves in the target. */
  function Bytes(ch: UTF32, n: nat): (bytes: seq<UTF8>)
    requires 1 <= n <= 4
    ensures |bytes| == n
  {
    if n == 1 then [Marked(ch, 1)]
    else if n == 2 then [Marked(Down(ch), 2), Trailer(ch)]
    else if n == 3 then [Marked(Down(Down(ch)), 3), Trailer(Down(ch)), Trailer(ch)]
    else [Marked(Down(Down(Down(ch))), 4), Trailer(Down(Down(ch))), Trailer(Down(ch)), Trailer(ch)]
  }

  function Act16To8(s: seq<UTF16>, strict: bool): Action<UTF8> {
    if s == [] then Halt(SourceExhausted, 0)
    else match ReadUTF16(s, strict)
      case Bad(code) => Halt(code, 0)
      case Char(ch, n) =>
        var w := BytesToWrite(ch);
        Emit(n, Bytes(if ch > MAX_LEGAL then REPLACEMENT_CHAR else ch, w), w, false)
  }

  function Act32To8(s: seq<UTF32>, strict: bool): Action<UTF8> {
    if s == [] then Halt(SourceExhausted, 0)
    else
      var ch := s[0];
      if strict && IsSurrogate(ch) then Halt(SourceIllegal, 0)
      else
        var w := BytesToWrite(ch);
        Emit(1, Bytes(if ch > MAX_LEGAL then REPLACEMENT_CHAR else ch, w), w, ch > MAX_LEGAL)
  }

  // ---------- Reading UTF-8 ----------

  /** trailingBytesForUTF8. */
  function TrailingBytes(lead: UTF8): (n: nat)
    ensures n <= 5
  {
    if lead < 0xC0 then 0 else if lead < 0xE0 then 1 else if lead < 0xF0 then 2
    else if lead < 0xF8 then 3 else if lead < 0xFC then 4 else 5
  }

  /** offsetsFromUTF8. */
  function Offset(extra: nat): UTF32
    requires extra <= 5
  {
    if extra == 0 then 0x00000000 else if extra == 1 then 0x00003080 else if extra == 2 then 0x000E2080
    else if extra == 3 then 0x03C82080 else if extra == 4 then 0xFA082080 else 0x82082080
  }

  /** isLegalUTF8.  The switch falls through from the case of `length` down to case 1. */
  predicate IsLegalUTF8(source: seq<UTF8>, length: nat)
    requires 1 <= length <= |source|
  {
    && length <= 4
    && (length >= 4 ==> 0x80 <= source[3] <= 0xBF)
    && (length >= 3 ==> 0x80 <= source[2] <= 0xBF)
    && (length >= 2 ==> source[1] <= 0xBF && SecondByteLegal(source[0], source[1]))
    && !(0x80 <= source[0] < 0xC2)
    && source[0] <= 0xF4
  }

  /** The inner switch of isLegalUTF8: only the default case has the lower bound 0x80. */
  predicate SecondByteLegal(lead: UTF8, a: UTF8) {
    if lead == 0xE0 then a >= 0xA0
    else if lead == 0xED then a <= 0x9F
    else if lead == 0xF0 then a >= 0x90
    else if lead == 0xF4 then a <= 0x8F
    else a >= 0x80
  }

  /** isLegalUTF8Sequence, of the bytes from source up to sourceEnd. */
  predicate IsLegalUTF8Sequence(source: seq<UTF8>)
    requires source != []
  {
    var length := TrailingBytes(source[0]) + 1;
    if length > |source| then false else IsLegalUTF8(source, length)
  }

  /** ch += b. */
  function AddByte(ch: UTF32, b: UTF8): UTF32 { ch + b as UTF32 }

  /** ch <<= 6. */
  function ShiftUp(ch: UTF32): UTF32 { ch << 6 }

  function Push(ch: UTF32, b: UTF8): UTF32 { AddByte(ShiftUp(ch), b) }

  function Word1(b0: UTF8): UTF32 { AddByte(0, b0) }

  function Word2(b0: UTF8, b1: UTF8): UTF32 { Push(Word1(b0), b1) }

  function Word3(b0: UTF8, b1: UTF8, b2: UTF8): UTF32 { Push(Word2(b0, b1), b2) }

  function Word4(b0: UTF8, b1: UTF8, b2: UTF8, b3: UTF8): UTF32 { Push(Word3(b0, b1, b2), b3) }

  /** The accumulation switch, entered at case `extra`. */
  function Accumulate(s: seq<UTF8>, extra: nat): UTF32
    requires extra < |s| && extra <= 5
  {
    if extra == 0 then Word1(s[0])
    else if extra == 1 then Word2(s[0], s[1])
    else if extra == 2 then Word3(s[0], s[1], s[2])
    else if extra == 3 then Word4(s[0], s[1], s[2], s[3])
    else if extra == 4 then Push(Word4(s[0], s[1], s[2], s[3]), s[4])
    else Push(Push(Word4(s[0], s[1], s[2], s[3]), s[4]), s[5])
  }

  /** ch -= offsetsFromUTF8[extra]. */
  function Rebase(ch: UTF32, extra: nat): UTF32
    requires extra <= 5
  { ch - Offset(extra) }

  function Decode(s: seq<UTF8>, extra: nat): UTF32
    requires extra < |s| && extra <= 5
  {
    Rebase(Accumulate(s, extra), extra)
  }

  /** The length and legality checks and the decoding shared by the two converters that read UTF-8. */
  function ReadUTF8(s: seq<UTF8>): ReadResult
    requires s != []
  {
    var extra := TrailingBytes(s[0]);
    if extra >= |s| then Bad(SourceExhausted)
    else if !IsLegalUTF8(s, extra + 1) then Bad(SourceIllegal)
    else Char(Decode(s, extra), extra + 1)
  }

  /** What ConvertUTF8toUTF16 does with a character read from `n` bytes. */
  function Store16(ch: UTF32, n: nat, strict: bool): Action<UTF16> {
    if ch <= MAX_BMP then
      if IsSurrogate(ch) then
        if strict then Halt(SourceIllegal, 1) else Emit(n, [ToUTF16(REPLACEMENT_CHAR)], 1, false)
      else Emit(n, [ToUTF16(ch)], 1, false)
    else if ch > MAX_LEGAL then
      if strict then Halt(SourceIllegal, 1) else Emit(n, [ToUTF16(REPLACEMENT_CHAR)], 1, false)
    else Emit(n, [HighHalf(ch), LowHalf(ch)], 2, false)
  }

  /** What ConvertUTF8toUTF32 does with a character read from `n` bytes. */
  function Store32(ch: UTF32, n: nat, strict: bool): Action<UTF32> {
    if ch <= MAX_LEGAL then
      if IsSurrogate(ch) then
        if strict then Halt(SourceIllegal, 1) else Emit(n, [REPLACEMENT_CHAR], 1, false)
      else Emit(n, [ch], 1, false)
    else Emit(n, [REPLACEMENT_CHAR], 1, true)
  }

  function Act8To16(s: seq<UTF8>, strict: bool): Action<UTF16> {
    if s == [] then Halt(SourceExhausted, 0)
    else match ReadUTF8(s)
      case Bad(code) => Halt(code, 0)
      case Char(ch, n) => Store16(ch, n, strict)
  }

  function Act8To32(s: seq<UTF8>, strict: bool): Action<UTF32> {
    if s == [] then Halt(SourceExhausted, 0)
    else match ReadUTF8(s)
      case Bad(code) => Halt(code, 0)
      case Char(ch, n) => Store32(ch, n, strict)
  }

  // ---------- The converters as loops ----------

  ghost function Step32To16(strict: bool): (step: seq<UTF32> -> Action<UTF16>)
    ensures Steps(step)
  { s => Act32To16(s, strict) }

  ghost function Step16To32(strict: bool): (step: seq<UTF16> -> Action<UTF32>)
    ensures Steps(step)
  { s => Act16To32(s, strict) }

  ghost function Step16To8(strict: bool): (step: seq<UTF16> -> Action<UTF8>)
    ensures Steps(step)
  { s => Act16To8(s, strict) }

  ghost function Step8To16(strict: bool): (step: seq<UTF8> -> Action<UTF16>)
    ensures Steps(step)
  { s => Act8To16(s, strict) }

  ghost function Step32To8(strict: bool): (step: seq<UTF32> -> Action<UTF8>)
    ensures Steps(step)
  { s => Act32To8(s, strict) }

  ghost function Step8To32(strict: bool): (step: seq<UTF8> -> Action<UTF32>)
    ensures Steps(step)
  { s => Act8To32(s, strict) }
}
