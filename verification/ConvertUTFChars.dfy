/**
 What the bit manipulation of convert_UTF.c does to one character, against the definitions of the
 encoding forms.
 */
module ConvertUTFChars {
  import opened UnicodeForms
  import opened ConvertUTF

  /** U+FFFD, as a scalar value. */
  const REPLACEMENT: Scalar := 0xFFFD

  /** UTF-32 input above U+10FFFF. */
  predicate Oversize(ch: UTF32) { ch > MAX_LEGAL }

  predicate AnyOversize(s: seq<UTF32>) { exists i :: 0 <= i < |s| && Oversize(s[i]) }

  lemma AnyOversizeCons(s: seq<UTF32>)
    requires s != []
    ensures AnyOversize(s) <==> Oversize(s[0]) || AnyOversize(s[1..])
  {
    assert forall i :: 1 <= i < |s| ==> s[i] == s[1..][i - 1];
  }

  /** The byte sequences that isLegalUTF8 accepts beyond Table 3-7: the inner switch gives no lower
      bound on the second byte after the leads ED and F4. */
  predicate IsStray(s: seq<UTF8>) {
    || (|s| == 3 && s[0] == 0xED && s[1] < 0x80 && IsTail(s[2]))
    || (|s| == 4 && s[0] == 0xF4 && s[1] < 0x80 && IsTail(s[2]) && IsTail(s[3]))
  }

  predicate IsAccepted(s: seq<UTF8>) { InTable37(s) || IsStray(s) }

  lemma TrailerBits(ch: UTF32)
    ensures Trailer(ch) == Cont(ch)
  {
  }

  lemma LeadBits(v: UTF32)
    ensures v < 0x80 ==> Marked(v, 1) == v as UTF8
    ensures 0x80 <= v < 0x800 ==> Marked(Down(v), 2) == Lead2(v)
    ensures 0x800 <= v < 0x10000 ==> Marked(Down(Down(v)), 3) == Lead3(v)
    ensures 0x10000 <= v <= 0x10FFFF ==> Marked(Down(Down(Down(v))), 4) == Lead4(v)
  {
  }

  lemma HalfBits(v: UTF32)
    requires 0x10000 <= v <= 0x10FFFF
    ensures HighHalf(v) == W1(v)
    ensures LowHalf(v) == W2(v)
  {
  }

  /** The bytes written for a scalar value are its UTF-8 encoding. */
  lemma Write8(v: Scalar)
    ensures Bytes(v, BytesToWrite(v)) == Utf8(v)
  {
    hide Marked, Trailer, Lead2, Lead3, Lead4, Cont;
    LeadBits(v);
    TrailerBits(v);
    TrailerBits(Down(v));
    TrailerBits(Down(Down(v)));
    assert Down(v) == v >> 6 && Down(Down(v)) == v >> 12;
  }

  /** The one or two units written for a scalar value are its UTF-16 encoding. */
  lemma Write16(v: Scalar)
    ensures v <= MAX_BMP ==> [ToUTF16(v)] == Utf16(v)
    ensures v > MAX_BMP ==> [HighHalf(v), LowHalf(v)] == Utf16(v)
  {
    if v > MAX_BMP {
      HalfBits(v);
    }
  }

  /** isLegalUTF8, called with the length the lead byte announces, accepts Table 3-7 and the strays. */
  lemma LegalIsAccepted(s: seq<UTF8>)
    requires s != [] && TrailingBytes(s[0]) < |s|
    ensures IsLegalUTF8(s, TrailingBytes(s[0]) + 1) <==> IsAccepted(s[..TrailingBytes(s[0]) + 1])
  {
  }

  /** An accepted sequence has the length its lead byte announces. */
  lemma AcceptedLength(s: seq<UTF8>)
    requires IsAccepted(s)
    ensures |s| == TrailingBytes(s[0]) + 1
  {
  }

  /** isLegalUTF8Sequence says whether an accepted sequence comes first. */
  lemma LegalSequenceStartsAccepted(s: seq<UTF8>)
    requires s != []
    ensures IsLegalUTF8Sequence(s) <==> exists n :: 0 < n <= |s| && IsAccepted(s[..n])
  {
    hide IsLegalUTF8;
    var length := TrailingBytes(s[0]) + 1;
    if length <= |s| {
      LegalIsAccepted(s);
    }
    forall n | 0 < n <= |s| && IsAccepted(s[..n])
      ensures n == length
    {
      AcceptedLength(s[..n]);
    }
  }

  // The subtraction of the offset never borrows, and the difference carries the payload bits.

  lemma Decode2(b0: UTF8, b1: UTF8)
    returns (v: UTF32)
    requires 0xC2 <= b0 <= 0xDF && IsTail(b1)
    ensures Word2(b0, b1) >= 0x3080 && v == Word2(b0, b1) - 0x3080
    ensures 0x80 <= v < 0x800
            && b0 == Lead2(v) && b1 == Cont(v)
  {
    v := Word2(b0, b1) - 0x3080;
  }

  lemma Decode3(b0: UTF8, b1: UTF8, b2: UTF8)
    returns (v: UTF32)
    requires IsTail(b2)
    requires (0xE1 <= b0 <= 0xEF && IsTail(b1)) || (b0 == 0xE0 && 0xA0 <= b1 <= 0xBF) || (b0 == 0xED && b1 < 0x80)
    requires b0 == 0xED ==> b1 <= 0x9F
    ensures Word3(b0, b1, b2) >= 0xE2080 && v == Word3(b0, b1, b2) - 0xE2080
    ensures 0x800 <= v < 0x10000 && !(0xD800 <= v <= 0xDFFF)
    ensures b1 >= 0x80 ==> b0 == Lead3(v) && b1 == Cont(v >> 6) && b2 == Cont(v)
  {
    v := Word3(b0, b1, b2) - 0xE2080;
    if b1 >= 0x80 {
      Payload3(b0, b1, b2);
    }
  }

  lemma Payload3(b0: UTF8, b1: UTF8, b2: UTF8)
    requires 0xE0 <= b0 <= 0xEF && IsTail(b1) && IsTail(b2)
    ensures var v := Word3(b0, b1, b2) - 0xE2080;
            v < 0x10000 && b0 == Lead3(v) && b1 == Cont(v >> 6) && b2 == Cont(v)
  {
  }

  lemma Decode4(b0: UTF8, b1: UTF8, b2: UTF8, b3: UTF8)
    returns (v: UTF32)
    requires IsTail(b2) && IsTail(b3)
    requires (0xF1 <= b0 <= 0xF4 && IsTail(b1)) || (b0 == 0xF0 && 0x90 <= b1 <= 0xBF) || (b0 == 0xF4 && b1 < 0x80)
    requires b0 == 0xF4 ==> b1 <= 0x8F
    ensures Word4(b0, b1, b2, b3) >= 0x3C82080 && v == Word4(b0, b1, b2, b3) - 0x3C82080
    ensures 0x10000 <= v <= 0x10FFFF
            && (b1 >= 0x80 ==> && b0 == Lead4(v)
                               && b1 == Cont(v >> 12)
                               && b2 == Cont(v >> 6)
                               && b3 == Cont(v))
  {
    v := Word4(b0, b1, b2, b3) - 0x3C82080;
    Range4(b0, b1, b2, b3);
    if b1 >= 0x80 {
      Lead4Back(b0, b1, b2, b3);
      Upper4Back(b0, b1, b2, b3);
      Lower4Back(b0, b1, b2, b3);
    }
    hide Word4, Lead4, Cont;
  }

  /** A lead byte, a second byte that it allows or that is below 0x80 after F4, and two trailing bytes. */
  predicate Four(b0: UTF8, b1: UTF8, b2: UTF8, b3: UTF8) {
    && IsTail(b2) && IsTail(b3)
    && ((0xF1 <= b0 <= 0xF4 && IsTail(b1)) || (b0 == 0xF0 && 0x90 <= b1 <= 0xBF) || (b0 == 0xF4 && b1 < 0x80))
    && (b0 == 0xF4 ==> b1 <= 0x8F)
  }

  lemma Range4(b0: UTF8, b1: UTF8, b2: UTF8, b3: UTF8)
    requires Four(b0, b1, b2, b3)
    ensures Word4(b0, b1, b2, b3) >= 0x3C82080
    ensures 0x10000 <= Word4(b0, b1, b2, b3) - 0x3C82080 <= 0x10FFFF
  {
  }

  lemma Lead4Back(b0: UTF8, b1: UTF8, b2: UTF8, b3: UTF8)
    requires Four(b0, b1, b2, b3) && b1 >= 0x80
    ensures var v := Word4(b0, b1, b2, b3) - 0x3C82080; v <= 0x10FFFF && b0 == Lead4(v)
  {
  }

  lemma Upper4Back(b0: UTF8, b1: UTF8, b2: UTF8, b3: UTF8)
    requires Four(b0, b1, b2, b3) && b1 >= 0x80
    ensures var v := Word4(b0, b1, b2, b3) - 0x3C82080; b1 == Cont(v >> 12)
  {
  }

  lemma Lower4Back(b0: UTF8, b1: UTF8, b2: UTF8, b3: UTF8)
    requires Four(b0, b1, b2, b3) && b1 >= 0x80
    ensures var v := Word4(b0, b1, b2, b3) - 0x3C82080; b2 == Cont(v >> 6) && b3 == Cont(v)
  {
  }

  /** What decoding `t` to `v` means: a scalar value whose encoding is as long as `t`, and is `t`
      itself exactly when Table 3-7 allows `t`. */
  ghost predicate Decoded(t: seq<UTF8>, v: UTF32) {
    && IsScalar(v)
    && |Utf8(v)| == |t|
    && (Utf8(v) == t <==> InTable37(t))
  }

  lemma Decoded1(b0: UTF8) returns (v: UTF32)
    requires IsAccepted([b0])
    ensures v == Word1(b0) - 0 && Decoded([b0], v)
  {
    v := b0 as UTF32;
  }

  lemma Fields2(b0: UTF8, b1: UTF8, v: UTF32)
    requires IsAccepted([b0, b1])
    requires 0x80 <= v < 0x800
    requires b0 == Lead2(v) && b1 == Cont(v)
    ensures Decoded([b0, b1], v)
  {
  }

  lemma Fields3(b0: UTF8, b1: UTF8, b2: UTF8, v: UTF32)
    requires IsAccepted([b0, b1, b2])
    requires 0x800 <= v < 0x10000 && !(0xD800 <= v <= 0xDFFF)
    requires b1 >= 0x80 ==> && b0 == Lead3(v)
                            && b1 == Cont(v >> 6)
                            && b2 == Cont(v)
    ensures Decoded([b0, b1, b2], v)
  {
    Utf8InTable37(v);
  }

  lemma Fields4(b0: UTF8, b1: UTF8, b2: UTF8, b3: UTF8, v: UTF32)
    requires IsAccepted([b0, b1, b2, b3])
    requires 0x10000 <= v <= 0x10FFFF
    requires b1 >= 0x80 ==> && b0 == Lead4(v)
                            && b1 == Cont(v >> 12)
                            && b2 == Cont(v >> 6)
                            && b3 == Cont(v)
    ensures Decoded([b0, b1, b2, b3], v)
  {
    Utf8InTable37(v);
  }

  lemma Decoded2(b0: UTF8, b1: UTF8) returns (v: UTF32)
    requires IsAccepted([b0, b1])
    ensures Word2(b0, b1) >= 0x3080 && v == Word2(b0, b1) - 0x3080 && Decoded([b0, b1], v)
  {
    hide Word2, Lead2, Cont, Utf8, Decoded;
    v := Decode2(b0, b1);
    Fields2(b0, b1, v);
  }

  lemma Decoded3(b0: UTF8, b1: UTF8, b2: UTF8) returns (v: UTF32)
    requires IsAccepted([b0, b1, b2])
    ensures Word3(b0, b1, b2) >= 0xE2080 && v == Word3(b0, b1, b2) - 0xE2080 && Decoded([b0, b1, b2], v)
  {
    hide Word3, Lead3, Cont, Utf8, Decoded;
    v := Decode3(b0, b1, b2);
    Fields3(b0, b1, b2, v);
  }

  lemma Decoded4(b0: UTF8, b1: UTF8, b2: UTF8, b3: UTF8) returns (v: UTF32)
    requires IsAccepted([b0, b1, b2, b3])
    ensures Word4(b0, b1, b2, b3) >= 0x3C82080 && v == Word4(b0, b1, b2, b3) - 0x3C82080 && Decoded([b0, b1, b2, b3], v)
  {
    hide Word4, Lead4, Cont, Utf8, Decoded;
    v := Decode4(b0, b1, b2, b3);
    Fields4(b0, b1, b2, b3, v);
  }

  lemma DecodeAt1(s: seq<UTF8>) returns (v: UTF32)
    requires |s| >= 2 && IsAccepted(s[..2])
    ensures v == Decode(s, 1) && Decoded(s[..2], v)
  {
    hide Word2, Decoded;
    assert s[..2] == [s[0], s[1]];
    v := Decoded2(s[0], s[1]);
  }

  lemma DecodeAt2(s: seq<UTF8>) returns (v: UTF32)
    requires |s| >= 3 && IsAccepted(s[..3])
    ensures v == Decode(s, 2) && Decoded(s[..3], v)
  {
    hide Word3, Decoded;
    assert s[..3] == [s[0], s[1], s[2]];
    v := Decoded3(s[0], s[1], s[2]);
  }

  lemma DecodeAt3(s: seq<UTF8>) returns (v: UTF32)
    requires |s| >= 4 && IsAccepted(s[..4])
    ensures v == Decode(s, 3) && Decoded(s[..4], v)
  {
    hide Word4, Decoded;
    assert s[..4] == [s[0], s[1], s[2], s[3]];
    v := Decoded4(s[0], s[1], s[2], s[3]);
  }

  /** Every sequence isLegalUTF8 accepts decodes to a scalar value. */
  lemma DecodeAccepted(s: seq<UTF8>, extra: nat) returns (v: UTF32)
    requires extra < |s| && IsAccepted(s[..extra + 1])
    ensures v == Decode(s, extra) && Decoded(s[..extra + 1], v)
  {
    if extra == 0 {
      assert s[..1] == [s[0]];
      v := Decoded1(s[0]);
    } else if extra == 1 {
      v := DecodeAt1(s);
    } else if extra == 2 {
      v := DecodeAt2(s);
    } else {
      v := DecodeAt3(s);
    }
  }
}
