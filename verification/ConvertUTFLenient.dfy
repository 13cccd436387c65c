/**
 What the lenient converters do with text that is not well-formed.  On the way from UTF-32 to UTF-16
 every value that is not a scalar becomes U+FFFD, and no error is returned for it; a lone surrogate
 written as UTF-8 stops the reader.
 */
module ConvertUTFLenient {
  import opened ConversionRun
  import opened ConversionTheorems
  import opened UnicodeForms
  import opened ConvertUTF
  import opened ConvertUTFChars
  import opened ConvertUTFTheorems
  import opened ConvertUTFExits

  function Itself(v: UTF32): seq<UTF32> { [v] }

  /** UTF-16 with U+FFFD for what is not a scalar value. */
  function Fixed16(v: UTF32): seq<UTF16> { Utf16(if IsScalar(v) then v else REPLACEMENT) }

  ghost function ItselfFn(): UTF32 -> seq<UTF32> { Itself }

  ghost function Fixed16Fn(): UTF32 -> seq<UTF16> { Fixed16 }

  lemma Lenient32To16Transcodes()
    ensures Transcodes(Step32To16(false), ItselfFn(), Fixed16Fn())
  {
    hide HighHalf, LowHalf, ToUTF16, W1, W2, Narrow;
    forall v: UTF32, rest: seq<UTF32>
      ensures Step32To16(false)(Itself(v) + rest) == Emit(1, Fixed16(v), |Fixed16(v)|, false)
    {
      Write16(if IsScalar(v) then v else REPLACEMENT);
    }
  }

  lemma {:induction false} AllItself(s: seq<UTF32>)
    ensures EncodeAll(ItselfFn(), s) == s
  {
    if s != [] {
      AllItself(s[1..]);
      assert s == [s[0]] + s[1..];
    }
  }

  /** A lenient call takes any UTF-32 whatever, and never reports an illegal value. */
  lemma Lenient32To16(s: seq<UTF32>, room: nat)
    requires |EncodeAll(Fixed16Fn(), s)| <= room
    ensures Convert(Step32To16(false), s, room) == Outcome(ConversionOK, |s|, EncodeAll(Fixed16Fn(), s), false)
  {
    Lenient32To16Transcodes();
    ConvertEncoded(Step32To16(false), ItselfFn(), Fixed16Fn(), s, [], room);
    AllItself(s);
    assert s + [] == s;
    assert EncodeAll(Fixed16Fn(), s) + [] == EncodeAll(Fixed16Fn(), s);
  }

  /** What a lenient call writes as UTF-8 for one value: a surrogate as if it were a character, U+FFFD for an
      oversize value. */
  function Raw8(v: UTF32): seq<UTF8> {
    if v > MAX_LEGAL then Utf8(REPLACEMENT)
    else if IsSurrogate(v) then [Lead3(v), Cont(v >> 6), Cont(v)]
    else Utf8(v)
  }

  ghost function Raw8Fn(): UTF32 -> seq<UTF8> { Raw8 }

  lemma WritesRaw8(v: UTF32)
    ensures Bytes(if v > MAX_LEGAL then REPLACEMENT_CHAR else v, BytesToWrite(v)) == Raw8(v)
    ensures |Raw8(v)| == BytesToWrite(v) <= 4
  {
    if IsSurrogate(v) {
      hide Marked, Trailer, Lead3, Cont;
      Lead3Bits(v);
      TrailerBits(v);
      TrailerBits(Down(v));
      assert Down(v) == v >> 6 && Down(Down(v)) == v >> 12;
    } else {
      hide Bytes, Utf8;
      Write8(if v > MAX_LEGAL then REPLACEMENT else v);
    }
  }

  lemma Lead3Bits(v: UTF32)
    requires 0x800 <= v < 0x10000
    ensures Marked(Down(Down(v)), 3) == Lead3(v)
  {
    LeadBits(v);
  }

  /** A lenient call takes any UTF-32 whatever; it reports an illegal value exactly when one is above
      U+10FFFF, and goes on behind it. */
  lemma {:induction false} Lenient32To8(s: seq<UTF32>, room: nat)
    requires 4 * |s| <= room
    ensures Convert(Step32To8(false), s, room)
         == Outcome(if AnyOversize(s) then SourceIllegal else ConversionOK, |s|, EncodeAll(Raw8Fn(), s), AnyOversize(s))
    decreases |s|
  {
    if s != [] {
      var v := s[0];
      WritesRaw8(v);
      assert Act32To8(s, false) == Emit(1, Raw8(v), |Raw8(v)|, v > MAX_LEGAL);
      AnyOversizeCons(s);
      hide Raw8, AnyOversize, Convert, Act32To8;
      var tail, left := ConvertTurn(Step32To8(false), s, room);
      Lenient32To8(tail, left);
    }
  }

  /** The same units with U+FFFD for each lone surrogate. */
  function Mended(s: seq<UTF16>): (m: seq<UTF16>)
    ensures |m| == |s|
  {
    seq(|s|, i requires 0 <= i < |s| => if Lone(s, i) then 0xFFFD else s[i])
  }

  lemma MendedSplit(s: seq<UTF16>, n: nat)
    requires 0 < n <= |s|
    requires n < |s| ==> !(IsHigh(s[n - 1]) && IsLow(s[n]))
    ensures Mended(s) == Mended(s)[..n] + Mended(s[n..])
  {
    forall i | n <= i < |s|
      ensures Lone(s, i) <==> Lone(s[n..], i - n)
    {
    }
  }

  /** One lenient turn, with the units it takes mended. */
  lemma LenientTurn(s: seq<UTF16>)
    requires s != [] && !(|s| == 1 && IsHigh(s[0]))
    ensures ReadUTF16(s, false).Char? && 0 < ReadUTF16(s, false).units <= |s|
    ensures var n := ReadUTF16(s, false).units;
            && (n < |s| ==> !(IsHigh(s[n - 1]) && IsLow(s[n])))
            && Fixed16(ReadUTF16(s, false).ch) == Mended(s)[..n]
  {
    hide PairValue, W1, W2, Wide, Narrow, IsHigh32, IsLow32;
    WideRange(s[0]);
    if |s| > 1 {
      WideRange(s[1]);
      if IsHigh(s[0]) && IsLow(s[1]) {
        PairIsScalar(s[0], s[1]);
        Disjoint(s[1]);
      }
    }
    SurrogateOrNot(s[0]);
  }

  lemma Disjoint(u: UTF16)
    ensures !(IsHigh(u) && IsLow(u))
  {
  }

  lemma SurrogateOrNot(u: UTF16)
    ensures IsHigh(u) || IsLow(u) <==> IsSurrogate(Wide(u))
    ensures Narrow(REPLACEMENT) == 0xFFFD
  {
  }

  /** The source ends inside what may become a pair. */
  predicate EndsOpen(s: seq<UTF16>) { s != [] && IsHigh(s[|s| - 1]) }

  /** What a lenient call consumes of a source. */
  function Closed(s: seq<UTF16>): nat { if EndsOpen(s) then |s| - 1 else |s| }

  lemma {:induction false} LenientReads(s: seq<UTF16>, room: nat) returns (ws: seq<UTF32>)
    requires |s| <= room
    ensures Convert(Step16To32(false), s, room)
         == Outcome(if EndsOpen(s) then SourceExhausted else ConversionOK, Closed(s), ws, false)
    ensures EncodeAll(Fixed16Fn(), ws) == Mended(s)[..Closed(s)]
    decreases |s|
  {
    ws := [];
    if s == [] {
    } else if |s| == 1 && IsHigh(s[0]) {
      OpenStops(s, room);
    } else {
      LenientTurn(s);
      var c := ReadUTF16(s, false);
      assert Act16To32(s, false) == Emit(c.units, [c.ch], 1, false);
      if c.units == |s| { TakesAll(s); }
      hide *;
      var tail, left := ConvertTurn(Step16To32(false), s, room);
      var vs := LenientReads(tail, left);
      ws := [c.ch] + vs;
      EncodeAllCons(Fixed16Fn(), c.ch, vs);
      MendedSplit(s, c.units);
      ClosedSplit(s, c.units);
      OneThen(s, c.units, c.ch, vs, Convert(Step16To32(false), tail, left));
    }
  }

  lemma OpenStops(s: seq<UTF16>, room: nat)
    requires |s| == 1 && IsHigh(s[0])
    ensures Convert(Step16To32(false), s, room) == Outcome(SourceExhausted, 0, [], false)
  {
    WideRange(s[0]);
  }

  lemma OneThen(s: seq<UTF16>, n: nat, ch: UTF32, vs: seq<UTF32>, rest: Outcome<UTF32>)
    requires rest.out == vs && !rest.flagged
    ensures Then(n, [ch], false, rest) == Outcome(rest.result, n + rest.consumed, [ch] + vs, false)
  {
  }

  lemma ClosedSplit(s: seq<UTF16>, n: nat)
    requires 0 < n <= |s| && (n == |s| ==> !EndsOpen(s))
    requires Mended(s) == Mended(s)[..n] + Mended(s[n..])
    ensures EndsOpen(s) == EndsOpen(s[n..]) && Closed(s) == n + Closed(s[n..])
    ensures Mended(s)[..Closed(s)] == Mended(s)[..n] + Mended(s[n..])[..Closed(s[n..])]
  {
    hide Mended;
    if n < |s| { assert s[n..][|s| - n - 1] == s[|s| - 1]; }
    assert Mended(s)[n..] == Mended(s[n..]);
    TakeSplit(Mended(s), n, Closed(s[n..]));
  }

  /** A turn that takes everything has not stopped short of a pair. */
  lemma TakesAll(s: seq<UTF16>)
    requires s != [] && ReadUTF16(s, false).Char? && ReadUTF16(s, false).units == |s|
    ensures !EndsOpen(s)
  {
    hide PairValue, Wide, IsHigh32, IsLow32;
    WideRange(s[0]);
    if |s| > 1 { WideRange(s[1]); Disjoint(s[1]); }
  }

  /** Any UTF-16 whatever comes back from the lenient way through UTF-32 as it was, except that every lone
      surrogate, and nothing else, has become U+FFFD; only a high surrogate at the very end is left in
      the source, with SourceExhausted. */
  lemma MendedThroughUTF32(s: seq<UTF16>, room: nat, roomBack: nat)
    requires |s| <= room && |s| <= roomBack
    ensures var there := Convert(Step16To32(false), s, room);
            && there.result == (if EndsOpen(s) then SourceExhausted else ConversionOK)
            && there.consumed == Closed(s)
            && Convert(Step32To16(false), there.out, roomBack)
            == Outcome(ConversionOK, |there.out|, Mended(s)[..Closed(s)], false)
  {
    hide Convert;
    var ws := LenientReads(s, room);
    Lenient32To16(ws, roomBack);
  }

  // ---------- Through UTF-8 ----------

  /** A surrogate, written as three bytes, is not accepted by the UTF-8 readers. */
  lemma SurrogateBytes(v: UTF32, rest: seq<UTF8>, strict: bool)
    requires IsSurrogate(v)
    ensures Act8To16(Bytes(v, BytesToWrite(v)) + rest, strict) == Halt(SourceIllegal, 0)
  {
    hide IsLegalUTF8, Trailer, Marked, Down;
    var bytes := Bytes(v, 3);
    SurrogateLead(v);
    var s := bytes + rest;
    assert s[..3] == bytes && TrailingBytes(s[0]) == 2;
    LegalIsAccepted(s);
  }

  lemma SurrogateLead(v: UTF32)
    requires IsSurrogate(v)
    ensures Marked(Down(Down(v)), 3) == 0xED
    ensures Trailer(Down(v)) >= 0xA0
  {
  }

  /** What the UTF-8 reader makes of the bytes of `s`: the units of `s` up to the first lone surrogate. */
  ghost predicate StopsAtLone(s: seq<UTF16>, back: Outcome<UTF16>) {
    var k := |back.out|;
    && k <= Closed(s) && back.out == s[..k]
    && (forall i :: 0 <= i < k ==> !Lone(s, i))
    && (if k < Closed(s) then Lone(s, k) && back.result == SourceIllegal else back.result == ConversionOK)
  }

  /** Prefixing one whole character. */
  lemma StopsAtLoneCons(s: seq<UTF16>, n: nat, back: Outcome<UTF16>, count: nat)
    requires 0 < n <= |s| && (n < |s| ==> !(IsHigh(s[n - 1]) && IsLow(s[n]))) && (n == |s| ==> !EndsOpen(s))
    requires forall i :: 0 <= i < n ==> !Lone(s, i)
    requires StopsAtLone(s[n..], back)
    ensures StopsAtLone(s, Then(count, s[..n], false, back))
  {
    var k := |back.out|;
    MendedSplit(s, n);
    ClosedSplit(s, n);
    hide Mended;
    TakeSplit(s, n, k);
    forall i | n <= i < |s|
      ensures Lone(s, i) <==> Lone(s[n..], i - n)
    {
    }
  }

  /** What one lenient turn says about the units it takes. */
  lemma TurnIsScalar(s: seq<UTF16>)
    requires s != [] && !(|s| == 1 && IsHigh(s[0]))
    ensures ReadUTF16(s, false).Char? && 0 < ReadUTF16(s, false).units <= |s|
    ensures var c := ReadUTF16(s, false);
            if IsScalar(c.ch) then Utf16(c.ch) == s[..c.units] && forall i :: 0 <= i < c.units ==> !Lone(s, i)
            else IsSurrogate(c.ch) && c.units == 1 && Lone(s, 0)
  {
    hide PairValue, W1, W2, Wide, Narrow, IsHigh32, IsLow32;
    WideRange(s[0]);
    SurrogateOrNot(s[0]);
    Disjoint(s[0]);
    if |s| > 1 {
      WideRange(s[1]);
      Disjoint(s[1]);
      if IsHigh(s[0]) && IsLow(s[1]) {
        PairIsScalar(s[0], s[1]);
      }
    }
  }

  /** Lenient UTF-16 to UTF-8 takes everything but a high surrogate at the very end; and reading the bytes
      gives back the units up to the first lone surrogate, where it stops with SourceIllegal. */
  lemma {:induction false} LenientThrough8(s: seq<UTF16>, room: nat, strict: bool,
                                           roomBack: nat) returns (bytes: seq<UTF8>)
    requires 3 * |s| <= room && |s| <= roomBack
    ensures Convert(Step16To8(false), s, room)
         == Outcome(if EndsOpen(s) then SourceExhausted else ConversionOK, Closed(s), bytes, false)
    ensures StopsAtLone(s, Convert(Step8To16(strict), bytes, roomBack))
    decreases |s|
  {
    hide *;
    bytes := [];
    if |s| == 0 || (|s| == 1 && IsHigh(s[0])) {
      NothingThrough8(s, room, strict, roomBack);
    } else {
      var ch, n, first := Turn8(s);
      var tail, left := ConvertTurn(Step16To8(false), s, room);
      var rest := LenientThrough8(tail, left, strict, roomBack - n);
      bytes := first + rest;
      ClosedCons(s, n);
      JoinBytes(first, rest, n, Convert(Step16To8(false), tail, left));
      if ch <= 0x10FFFF && !(0xD800 <= ch <= 0xDFFF) {
        ReadsScalar(ch, rest, strict, roomBack);
        StopsAtLoneCons(s, n, Convert(Step8To16(strict), rest, roomBack - n), |Utf8(ch)|);
      } else {
        ReadsSurrogate(s, ch, rest, strict, roomBack);
      }
    }
  }

  lemma NothingThrough8(s: seq<UTF16>, room: nat, strict: bool, roomBack: nat)
    requires |s| == 0 || (|s| == 1 && IsHigh(s[0]))
    ensures Convert(Step16To8(false), s, room)
         == Outcome(if EndsOpen(s) then SourceExhausted else ConversionOK, Closed(s), [], false)
    ensures StopsAtLone(s, Convert(Step8To16(strict), [], roomBack))
  {
    if s != [] { WideRange(s[0]); }
  }

  /** One lenient turn of ConvertUTF16toUTF8. */
  lemma Turn8(s: seq<UTF16>) returns (ch: UTF32, n: nat, first: seq<UTF8>)
    requires |s| > 0 && !(|s| == 1 && IsHigh(s[0]))
    ensures Step16To8(false)(s) == Emit(n, first, |first|, false)
    ensures 0 < n <= |s| && |first| <= 3 * n && first == Bytes(ch, BytesToWrite(ch))
    ensures (n < |s| ==> !(IsHigh(s[n - 1]) && IsLow(s[n]))) && (n == |s| ==> !EndsOpen(s))
    ensures if ch <= 0x10FFFF && !(0xD800 <= ch <= 0xDFFF) then
              Utf16(ch) == s[..n] && forall i :: 0 <= i < n ==> !Lone(s, i)
            else IsSurrogate(ch) && n == 1 && Lone(s, 0)
  {
    LenientTurn(s);
    TurnIsScalar(s);
    var c := ReadUTF16(s, false);
    ch, n, first := c.ch, c.units, Bytes(c.ch, BytesToWrite(c.ch));
    LenientAct8(s);
    if c.units == |s| { TakesAll(s); }
  }

  lemma ClosedCons(s: seq<UTF16>, n: nat)
    requires 0 < n <= |s| && (n < |s| ==> !(IsHigh(s[n - 1]) && IsLow(s[n]))) && (n == |s| ==> !EndsOpen(s))
    ensures EndsOpen(s) == EndsOpen(s[n..]) && Closed(s) == n + Closed(s[n..])
  {
    MendedSplit(s, n);
    ClosedSplit(s, n);
  }

  lemma LenientAct8(s: seq<UTF16>)
    requires s != [] && ReadUTF16(s, false).Char? && ReadUTF16(s, false).ch <= MAX_LEGAL
    requires |s| >= ReadUTF16(s, false).units > 0
    ensures var c := ReadUTF16(s, false);
            && Step16To8(false)(s) == Emit(c.units, Bytes(c.ch, BytesToWrite(c.ch)), BytesToWrite(c.ch), false)
            && BytesToWrite(c.ch) <= 3 * c.units
  {
    hide PairValue, Bytes, Wide;
    WideRange(s[0]);
  }

  lemma JoinBytes(first: seq<UTF8>, rest: seq<UTF8>, n: nat, tail: Outcome<UTF8>)
    requires tail.out == rest && !tail.flagged
    ensures Then(n, first, false, tail) == Outcome(tail.result, n + tail.consumed, first + rest, false)
  {
  }

  /** The reader takes the bytes of a scalar value whole. */
  lemma ReadsScalar(ch: Scalar, rest: seq<UTF8>, strict: bool, room: nat)
    requires |Utf16(ch)| <= room
    ensures Convert(Step8To16(strict), Bytes(ch, BytesToWrite(ch)) + rest, room)
         == Then(|Utf8(ch)|, Utf16(ch), false, Convert(Step8To16(strict), rest, room - |Utf16(ch)|))
  {
    hide *;
    Write8(ch);
    StepOnEncoded(ch, rest, strict);
    NotEmpty(ch);
    var tail, left := ConvertTurn(Step8To16(strict), Utf8(ch) + rest, room);
    assert tail == rest;
  }

  lemma StepOnEncoded(ch: Scalar, rest: seq<UTF8>, strict: bool)
    ensures Step8To16(strict)(Utf8(ch) + rest) == Emit(|Utf8(ch)|, Utf16(ch), |Utf16(ch)|, false)
  {
    hide Act8To16, Utf8, Utf16;
    Step8To16OnEncoded(ch, rest, strict);
  }

  lemma NotEmpty(ch: Scalar)
    ensures Utf8(ch) != []
  {
  }

  /** And stops at the bytes of a surrogate. */
  lemma ReadsSurrogate(s: seq<UTF16>, ch: UTF32, rest: seq<UTF8>, strict: bool, room: nat)
    requires IsSurrogate(ch) && s != [] && Lone(s, 0) && !(|s| == 1 && IsHigh(s[0]))
    ensures StopsAtLone(s, Convert(Step8To16(strict), Bytes(ch, BytesToWrite(ch)) + rest, room))
  {
    hide Bytes, Act8To16, Lone, Convert;
    SurrogateBytes(ch, rest, strict);
    ConvertStops(Step8To16(strict), Bytes(ch, BytesToWrite(ch)) + rest, room);
  }
}
