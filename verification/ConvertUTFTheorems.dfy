/**
 The main results about convert_UTF.c: each converter against the encoding forms.
 */
module ConvertUTFTheorems {
  import opened ConversionRun
  import opened ConversionTheorems
  import opened UnicodeForms
  import opened ConvertUTF
  import opened ConvertUTFChars

  ghost function Enc8(): Scalar -> seq<UTF8> { Utf8 }

  ghost function Enc16(): Scalar -> seq<UTF16> { Utf16 }

  ghost function Enc32(): Scalar -> seq<UTF32> { Utf32 }

  ghost function Text8(vs: seq<Scalar>): seq<UTF8> { EncodeAll(Enc8(), vs) }

  ghost function Text16(vs: seq<Scalar>): seq<UTF16> { EncodeAll(Enc16(), vs) }

  ghost function Text32(vs: seq<Scalar>): seq<UTF32> { EncodeAll(Enc32(), vs) }

  // ---------- One character ----------

  lemma Fields2Injective(v: UTF32, w: UTF32)
    requires v < 0x800 && w < 0x800 && Lead2(v) == Lead2(w) && Cont(v) == Cont(w)
    ensures v == w
  {
  }

  lemma Fields3Injective(v: UTF32, w: UTF32)
    requires v < 0x10000 && w < 0x10000
    requires Lead3(v) == Lead3(w) && Cont(v >> 6) == Cont(w >> 6) && Cont(v) == Cont(w)
    ensures v == w
  {
  }

  lemma Fields4Injective(v: UTF32, w: UTF32)
    requires v <= 0x10FFFF && w <= 0x10FFFF
    requires Lead4(v) == Lead4(w) && Cont(v >> 12) == Cont(w >> 12)
    requires Cont(v >> 6) == Cont(w >> 6) && Cont(v) == Cont(w)
    ensures v == w
  {
  }

  lemma Utf8Injective(v: Scalar, w: Scalar)
    requires Utf8(v) == Utf8(w)
    ensures v == w
  {
    hide Lead2, Lead3, Lead4, Cont;
    var s, t := Utf8(v), Utf8(w);
    assert s[0] == t[0];
    if v < 0x80 {
    } else if v < 0x800 {
      assert s[1] == t[1];
      Fields2Injective(v, w);
    } else if v < 0x10000 {
      assert s[1] == t[1] && s[2] == t[2];
      Fields3Injective(v, w);
    } else {
      assert s[1] == t[1] && s[2] == t[2] && s[3] == t[3];
      Fields4Injective(v, w);
    }
  }

  /** A UTF-8 reader that meets the encoding of a scalar value reads that value. */
  lemma ReadBack8(v: Scalar, rest: seq<UTF8>)
    ensures ReadUTF8(Utf8(v) + rest) == Char(v, |Utf8(v)|)
  {
    var s := Utf8(v) + rest;
    Utf8InTable37(v);
    AcceptedLength(Utf8(v));
    assert s[..|Utf8(v)|] == Utf8(v);
    LegalIsAccepted(s);
    var w := DecodeAccepted(s, |Utf8(v)| - 1);
    Utf8Injective(v, w);
  }

  lemma Halves(v: UTF32)
    requires 0x10000 <= v <= 0x10FFFF
    ensures IsHigh(W1(v)) && IsLow(W2(v))
  {
  }

  /** The surrogate pair of a scalar value reads back as that value. */
  lemma PairReadsBack(v: UTF32)
    requires 0x10000 <= v <= 0x10FFFF
    ensures PairValue(Wide(W1(v)), Wide(W2(v))) == v
  {
  }

  /** Every pair of surrogates is the pair of the value it reads as. */
  lemma PairIsScalar(high: UTF16, low: UTF16)
    requires IsHigh(high) && IsLow(low)
    ensures var v := PairValue(Wide(high), Wide(low));
            0x10000 <= v <= 0x10FFFF && W1(v) == high && W2(v) == low
  {
  }

  lemma WideRange(u: UTF16)
    ensures IsHigh32(Wide(u)) <==> IsHigh(u)
    ensures IsLow32(Wide(u)) <==> IsLow(u)
    ensures Wide(u) <= 0xFFFF && Narrow(Wide(u)) == u
  {
  }

  lemma WideNarrow(v: UTF32)
    requires v <= 0xFFFF
    ensures Wide(Narrow(v)) == v
  {
  }

  /** A UTF-16 reader that meets the encoding of a scalar value reads that value. */
  lemma ReadBack16(v: Scalar, rest: seq<UTF16>, strict: bool)
    ensures ReadUTF16(Utf16(v) + rest, strict) == Char(v, |Utf16(v)|)
  {
    hide PairValue, W1, W2, Wide, Narrow, IsHigh, IsLow;
    if v <= MAX_BMP {
      WideNarrow(v);
    } else {
      Halves(v);
      PairReadsBack(v);
      WideRange(W1(v));
      WideRange(W2(v));
    }
  }

  /** What a strict UTF-16 reader takes is always the encoding of the scalar value it reads. */
  lemma ReadIsEncoded16(s: seq<UTF16>)
    requires s != [] && ReadUTF16(s, true).Char?
    ensures IsScalar(ReadUTF16(s, true).ch)
    ensures Utf16(ReadUTF16(s, true).ch) <= s && |Utf16(ReadUTF16(s, true).ch)| == ReadUTF16(s, true).units
  {
    hide PairValue, W1, W2, Wide, Narrow, IsHigh, IsLow;
    WideRange(s[0]);
    if IsHigh(s[0]) {
      WideRange(s[1]);
      PairIsScalar(s[0], s[1]);
    }
  }

  // ---------- The six converters transcode ----------

  lemma Transcodes32To16(strict: bool)
    ensures Transcodes(Step32To16(strict), Enc32(), Enc16())
  {
    forall v: Scalar, rest: seq<UTF32>
      ensures Step32To16(strict)(Utf32(v) + rest) == Emit(1, Utf16(v), |Utf16(v)|, false)
    {
      Write16(v);
    }
  }

  lemma Transcodes16To32(strict: bool)
    ensures Transcodes(Step16To32(strict), Enc16(), Enc32())
  {
    forall v: Scalar, rest: seq<UTF16>
      ensures Step16To32(strict)(Utf16(v) + rest) == Emit(|Utf16(v)|, Utf32(v), 1, false)
    {
      ReadBack16(v, rest, strict);
    }
  }

  lemma Transcodes16To8(strict: bool)
    ensures Transcodes(Step16To8(strict), Enc16(), Enc8())
  {
    forall v: Scalar, rest: seq<UTF16>
      ensures Step16To8(strict)(Utf16(v) + rest) == Emit(|Utf16(v)|, Utf8(v), |Utf8(v)|, false)
    {
      ReadBack16(v, rest, strict);
      Write8(v);
    }
  }

  lemma Transcodes32To8(strict: bool)
    ensures Transcodes(Step32To8(strict), Enc32(), Enc8())
  {
    forall v: Scalar, rest: seq<UTF32>
      ensures Step32To8(strict)(Utf32(v) + rest) == Emit(1, Utf8(v), |Utf8(v)|, false)
    {
      Write8(v);
    }
  }

  lemma Step8To16OnEncoded(v: Scalar, rest: seq<UTF8>, strict: bool)
    ensures Act8To16(Utf8(v) + rest, strict) == Emit(|Utf8(v)|, Utf16(v), |Utf16(v)|, false)
  {
    hide ReadUTF8, HighHalf, LowHalf, ToUTF16, W1, W2, Narrow, Lead2, Lead3, Lead4, Cont;
    ReadBack8(v, rest);
    Write16(v);
  }

  lemma Transcodes8To16(strict: bool)
    ensures Transcodes(Step8To16(strict), Enc8(), Enc16())
  {
    forall v: Scalar, rest: seq<UTF8>
      ensures Step8To16(strict)(Utf8(v) + rest) == Emit(|Utf8(v)|, Utf16(v), |Utf16(v)|, false)
    {
      Step8To16OnEncoded(v, rest, strict);
    }
  }

  lemma Transcodes8To32(strict: bool)
    ensures Transcodes(Step8To32(strict), Enc8(), Enc32())
  {
    forall v: Scalar, rest: seq<UTF8>
      ensures Step8To32(strict)(Utf8(v) + rest) == Emit(|Utf8(v)|, Utf32(v), 1, false)
    {
      hide ReadUTF8, Lead2, Lead3, Lead4, Cont;
      ReadBack8(v, rest);
    }
  }

  // ---------- Text survives conversion ----------

  predicate AllScalars(s: seq<UTF32>) { forall i :: 0 <= i < |s| ==> IsScalar(s[i]) }

  /** Any sequence of scalar values is UTF-32 text. */
  lemma {:induction false} TextOf32(s: seq<UTF32>) returns (vs: seq<Scalar>)
    requires AllScalars(s)
    ensures s == Text32(vs) && |vs| == |s|
  {
    vs := [];
    if s != [] {
      var ws := TextOf32(s[1..]);
      vs := [s[0]] + ws;
      assert vs[1..] == ws && s == [s[0]] + s[1..];
    }
  }

  /** With ample room, a converter that transcodes turns all of the text into the other encoding. */
  lemma ConvertsText<U(!new), V>(step: seq<U> -> Action<V>, encA: Scalar -> seq<U>, encB: Scalar -> seq<V>,
                                 vs: seq<Scalar>, room: nat)
    requires Transcodes(step, encA, encB) && |EncodeAll(encB, vs)| <= room
    ensures Convert(step, EncodeAll(encA, vs), room)
         == Outcome(ConversionOK, |EncodeAll(encA, vs)|, EncodeAll(encB, vs), false)
  {
    ConvertEncoded(step, encA, encB, vs, [], room);
    assert EncodeAll(encA, vs) + [] == EncodeAll(encA, vs);
    assert EncodeAll(encB, vs) + [] == EncodeAll(encB, vs);
  }

  lemma Converts32To16(vs: seq<Scalar>, strict: bool, room: nat)
    requires |Text16(vs)| <= room
    ensures Convert(Step32To16(strict), Text32(vs), room) == Outcome(ConversionOK, |Text32(vs)|, Text16(vs), false)
  {
    Transcodes32To16(strict);
    ConvertsText(Step32To16(strict), Enc32(), Enc16(), vs, room);
  }

  lemma Converts16To32(vs: seq<Scalar>, strict: bool, room: nat)
    requires |Text32(vs)| <= room
    ensures Convert(Step16To32(strict), Text16(vs), room) == Outcome(ConversionOK, |Text16(vs)|, Text32(vs), false)
  {
    Transcodes16To32(strict);
    ConvertsText(Step16To32(strict), Enc16(), Enc32(), vs, room);
  }

  lemma Converts16To8(vs: seq<Scalar>, strict: bool, room: nat)
    requires |Text8(vs)| <= room
    ensures Convert(Step16To8(strict), Text16(vs), room) == Outcome(ConversionOK, |Text16(vs)|, Text8(vs), false)
  {
    Transcodes16To8(strict);
    ConvertsText(Step16To8(strict), Enc16(), Enc8(), vs, room);
  }

  lemma Converts32To8(vs: seq<Scalar>, strict: bool, room: nat)
    requires |Text8(vs)| <= room
    ensures Convert(Step32To8(strict), Text32(vs), room) == Outcome(ConversionOK, |Text32(vs)|, Text8(vs), false)
  {
    Transcodes32To8(strict);
    ConvertsText(Step32To8(strict), Enc32(), Enc8(), vs, room);
  }

  lemma Converts8To16(vs: seq<Scalar>, strict: bool, room: nat)
    requires |Text16(vs)| <= room
    ensures Convert(Step8To16(strict), Text8(vs), room) == Outcome(ConversionOK, |Text8(vs)|, Text16(vs), false)
  {
    Transcodes8To16(strict);
    ConvertsText(Step8To16(strict), Enc8(), Enc16(), vs, room);
  }

  lemma Converts8To32(vs: seq<Scalar>, strict: bool, room: nat)
    requires |Text32(vs)| <= room
    ensures Convert(Step8To32(strict), Text8(vs), room) == Outcome(ConversionOK, |Text8(vs)|, Text32(vs), false)
  {
    Transcodes8To32(strict);
    ConvertsText(Step8To32(strict), Enc8(), Enc32(), vs, room);
  }

  /** How long the encodings of a text can be, in terms of one another. */
  lemma {:induction false} TextLengths(vs: seq<Scalar>)
    ensures |Text8(vs)| <= 4 * |vs| && |Text16(vs)| <= 2 * |vs| && |Text32(vs)| == |vs|
    ensures |Text8(vs)| <= 3 * |Text16(vs)|
  {
    if vs != [] {
      TextLengths(vs[1..]);
    }
  }

  /** UTF-32 to UTF-8 and back is the identity on scalar values, whatever the flags. */
  lemma RoundTrip32Via8(s: seq<UTF32>, strict: bool, strictBack: bool, room: nat, roomBack: nat)
    requires AllScalars(s) && 4 * |s| <= room && |s| <= roomBack
    ensures var there := Convert(Step32To8(strict), s, room);
            && there.result == ConversionOK && there.consumed == |s|
            && Convert(Step8To32(strictBack), there.out, roomBack) == Outcome(ConversionOK, |there.out|, s, false)
  {
    var vs := TextOf32(s);
    TextLengths(vs);
    hide *;
    Converts32To8(vs, strict, room);
    Converts8To32(vs, strictBack, roomBack);
  }

  /** UTF-32 to UTF-16 and back is the identity on scalar values, whatever the flags. */
  lemma RoundTrip32Via16(s: seq<UTF32>, strict: bool, strictBack: bool, room: nat, roomBack: nat)
    requires AllScalars(s) && 2 * |s| <= room && |s| <= roomBack
    ensures var there := Convert(Step32To16(strict), s, room);
            && there.result == ConversionOK && there.consumed == |s|
            && Convert(Step16To32(strictBack), there.out, roomBack) == Outcome(ConversionOK, |there.out|, s, false)
  {
    var vs := TextOf32(s);
    TextLengths(vs);
    hide *;
    Converts32To16(vs, strict, room);
    Converts16To32(vs, strictBack, roomBack);
  }

  /** Going to UTF-8 through UTF-16 gives the bytes that going there directly gives. */
  lemma Commute(s: seq<UTF32>, strict: bool, room16: nat, room8: nat)
    requires AllScalars(s) && 2 * |s| <= room16 && 4 * |s| <= room8
    ensures var via := Convert(Step32To16(strict), s, room16);
            var direct := Convert(Step32To8(strict), s, room8);
            && via.result == direct.result == ConversionOK
            && Convert(Step16To8(strict), via.out, room8) == Outcome(ConversionOK, |via.out|, direct.out, false)
  {
    var vs := TextOf32(s);
    TextLengths(vs);
    hide *;
    Converts32To16(vs, strict, room16);
    Converts16To8(vs, strict, room8);
    Converts32To8(vs, strict, room8);
  }

  /** Well-formed UTF-16: every surrogate is half of a pair. */
  ghost predicate WellFormed16(s: seq<UTF16>)
    decreases |s|
  {
    || s == []
    || (!IsHigh(s[0]) && !IsLow(s[0]) && WellFormed16(s[1..]))
    || (|s| >= 2 && IsHigh(s[0]) && IsLow(s[1]) && WellFormed16(s[2..]))
  }

  /** Well-formed UTF-16 encodes some text. */
  lemma {:induction false} TextOf16(s: seq<UTF16>) returns (vs: seq<Scalar>)
    requires WellFormed16(s)
    ensures s == Text16(vs)
    decreases |s|
  {
    vs := [];
    if s != [] {
      var c := FirstOf16(s);
      hide WellFormed16, ReadUTF16, Utf16;
      var ws := TextOf16(s[c.units..]);
      var v: Scalar := c.ch;
      vs := [v] + ws;
      EncodeAllCons(Enc16(), v, ws);
      assert s == s[..c.units] + s[c.units..];
    }
  }

  lemma FirstOf16(s: seq<UTF16>) returns (c: ReadResult)
    requires s != [] && WellFormed16(s)
    ensures c.Char? && 0 < c.units <= |s| && IsScalar(c.ch)
    ensures Utf16(c.ch) == s[..c.units] && WellFormed16(s[c.units..])
  {
    hide PairValue, W1, W2, Wide, Narrow, IsHigh, IsLow;
    WideRange(s[0]);
    if |s| > 1 { WideRange(s[1]); }
    c := ReadUTF16(s, true);
    ReadIsEncoded16(s);
  }

  /** Every well-formed UTF-16 sequence survives the way through UTF-8, and its bytes are UTF-8. */
  lemma RoundTrip16Via8(s: seq<UTF16>, strict: bool, strictBack: bool, room: nat, roomBack: nat)
    requires WellFormed16(s) && 3 * |s| <= room && |s| <= roomBack
    ensures var there := Convert(Step16To8(strict), s, room);
            && there.result == ConversionOK && there.consumed == |s|
            && Convert(Step8To16(strictBack), there.out, roomBack) == Outcome(ConversionOK, |there.out|, s, false)
  {
    var vs := TextOf16(s);
    TextLengths(vs);
    hide *;
    Converts16To8(vs, strict, room);
    Converts8To16(vs, strictBack, roomBack);
  }

  // ---------- The UTF-8 readers ----------

  /** The surrogate and out-of-range branches of the UTF-8 readers are dead. */
  lemma ReadersDecodeScalars(s: seq<UTF8>, extra: nat)
    requires s != [] && extra == TrailingBytes(s[0]) < |s| && IsLegalUTF8(s, extra + 1)
    ensures IsScalar(Decode(s, extra))
  {
    LegalIsAccepted(s);
    var _ := DecodeAccepted(s, extra);
  }

  /** Both UTF-8 readers do the same under strict and lenient, on every source and target. */
  lemma StrictIsLenient(s: seq<UTF8>, room: nat)
    ensures Convert(Step8To16(true), s, room) == Convert(Step8To16(false), s, room)
    ensures Convert(Step8To32(true), s, room) == Convert(Step8To32(false), s, room)
  {
    forall t: seq<UTF8> | t != []
      ensures Act8To16(t, true) == Act8To16(t, false) && Act8To32(t, true) == Act8To32(t, false)
    {
      var extra := TrailingBytes(t[0]);
      if extra < |t| && IsLegalUTF8(t, extra + 1) {
        ReadersDecodeScalars(t, extra);
      }
    }
    ConvertCongruent(Step8To16(true), Step8To16(false), s, room);
    ConvertCongruent(Step8To32(true), Step8To32(false), s, room);
  }
}
