/**
 How the converters of convert_UTF.c stop: what they have consumed and written at every exit, and
 what resuming them gives.
 */
module ConvertUTFExits {
  import opened ConversionRun
  import opened ConversionTheorems
  import opened UnicodeForms
  import opened ConvertUTF
  import opened ConvertUTFChars
  import opened ConvertUTFTheorems

  // ---------- UTF-8 readers ----------

  /** Bytes that split into sequences of Table 3-7 and stray sequences. */
  ghost predicate AcceptedText(s: seq<UTF8>)
    decreases |s|
  {
    s == [] || exists n :: 0 < n <= |s| && IsAccepted(s[..n]) && AcceptedText(s[n..])
  }

  /** Bytes that split into sequences of Table 3-7 only: well-formed UTF-8. */
  ghost predicate WellFormed8(s: seq<UTF8>)
    decreases |s|
  {
    s == [] || exists n :: 0 < n <= |s| && InTable37(s[..n]) && WellFormed8(s[n..])
  }

  /** The length the lead byte announces. */
  function Announced(s: seq<UTF8>): nat
    requires s != []
  { TrailingBytes(s[0]) + 1 }

  ghost predicate StartsAccepted(s: seq<UTF8>)
    requires s != []
  { Announced(s) <= |s| && IsAccepted(s[..Announced(s)]) }

  /** A reader takes a turn exactly on accepted sequences, whole. */
  ghost predicate ReadsAccepted<V>(step: seq<UTF8> -> Action<V>) {
    && Steps(step)
    && forall s :: s != [] ==> && (step(s).Emit? <==> StartsAccepted(s))
                               && (step(s).Emit? ==> step(s).consumed == Announced(s))
  }

  lemma StepIsAccepted(s: seq<UTF8>, strict: bool)
    requires s != []
    ensures Act8To16(s, strict).Emit? <==> StartsAccepted(s)
    ensures Act8To32(s, strict).Emit? <==> StartsAccepted(s)
    ensures Act8To16(s, strict).Emit? ==> Act8To16(s, strict).consumed == Announced(s)
    ensures Act8To32(s, strict).Emit? ==> Act8To32(s, strict).consumed == Announced(s)
  {
    hide Decode, IsAccepted, IsLegalUTF8;
    if Announced(s) <= |s| {
      LegalIsAccepted(s);
      if IsLegalUTF8(s, Announced(s)) {
        ReadersDecodeScalars(s, TrailingBytes(s[0]));
      }
    }
  }

  lemma ReadersReadAccepted(strict: bool)
    ensures ReadsAccepted(Step8To16(strict)) && ReadsAccepted(Step8To32(strict))
  {
    forall s: seq<UTF8> | s != []
      ensures Step8To16(strict)(s) == Act8To16(s, strict) && Step8To32(strict)(s) == Act8To32(s, strict)
      ensures Act8To16(s, strict).Emit? <==> StartsAccepted(s)
      ensures Act8To32(s, strict).Emit? <==> StartsAccepted(s)
      ensures Act8To16(s, strict).Emit? ==> Act8To16(s, strict).consumed == Announced(s)
      ensures Act8To32(s, strict).Emit? ==> Act8To32(s, strict).consumed == Announced(s)
    {
      hide Act8To16, Act8To32;
      StepIsAccepted(s, strict);
    }
  }

  /** What a reader has consumed, with any room, is accepted text. */
  lemma {:induction false} ConsumesAccepted<V>(step: seq<UTF8> -> Action<V>, s: seq<UTF8>, room: nat)
    requires ReadsAccepted(step)
    ensures AcceptedText(s[..Convert(step, s, room).consumed])
    decreases |s|
  {
    hide IsAccepted, TrailingBytes;
    if s != [] && step(s).Emit? && step(s).need <= room {
      var tail, left := ConvertTurn(step, s, room);
      ConsumesAccepted(step, tail, left);
      var n, c := Announced(s), Convert(step, tail, left).consumed;
      AcceptedCons(s, n, c);
    }
  }

  lemma AcceptedCons(s: seq<UTF8>, n: nat, c: nat)
    requires 0 < n && n + c <= |s| && IsAccepted(s[..n]) && AcceptedText(s[n..][..c])
    ensures AcceptedText(s[..n + c])
  {
    TakeSplit(s, n, c);
  }

  /** With ample room a reader consumes every prefix that is accepted text. */
  lemma {:induction false} ConsumesAtLeast<V>(step: seq<UTF8> -> Action<V>, s: seq<UTF8>, room: nat, d: nat)
    requires ReadsAccepted(step) && Ample(step, s, room)
    requires d <= |s| && AcceptedText(s[..d])
    ensures d <= Convert(step, s, room).consumed
    decreases |s|
  {
    if d > 0 {
      var n := HeadOfPrefix(s, d);
      hide IsAccepted, TrailingBytes, AcceptedText, StartsAccepted, Convert;
      assert step(s).Emit?;
      AmpleHasRoom(step, s, room);
      var tail, left := ConvertTurn(step, s, room);
      ConsumesAtLeast(step, tail, left, d - n);
    }
  }

  lemma AmpleHasRoom<U(!new), V>(step: seq<U> -> Action<V>, s: seq<U>, room: nat)
    requires Steps(step) && Ample(step, s, room) && s != []
    ensures step(s).need <= room
  {
  }

  /** With ample room the UTF-8 readers consume exactly the longest prefix that is accepted text. */
  lemma LongestPrefix(s: seq<UTF8>, strict: bool, room: nat)
    ensures Ample(Step8To16(strict), s, room) ==>
              var c := Convert(Step8To16(strict), s, room).consumed;
              AcceptedText(s[..c]) && forall d :: c < d <= |s| ==> !AcceptedText(s[..d])
    ensures Ample(Step8To32(strict), s, room) ==>
              var c := Convert(Step8To32(strict), s, room).consumed;
              AcceptedText(s[..c]) && forall d :: c < d <= |s| ==> !AcceptedText(s[..d])
  {
    hide AcceptedText, Convert;
    ReadersReadAccepted(strict);
    ConsumesAccepted(Step8To16(strict), s, room);
    ConsumesAccepted(Step8To32(strict), s, room);
    forall d | 0 <= d <= |s| && AcceptedText(s[..d])
      ensures Ample(Step8To16(strict), s, room) ==> d <= Convert(Step8To16(strict), s, room).consumed
      ensures Ample(Step8To32(strict), s, room) ==> d <= Convert(Step8To32(strict), s, room).consumed
    {
      if Ample(Step8To16(strict), s, room) { ConsumesAtLeast(Step8To16(strict), s, room, d); }
      if Ample(Step8To32(strict), s, room) { ConsumesAtLeast(Step8To32(strict), s, room, d); }
    }
  }

  /** The first sequence of accepted text is the one the lead byte announces. */
  lemma HeadOf(s: seq<UTF8>) returns (n: nat)
    requires s != [] && AcceptedText(s)
    ensures n == Announced(s) <= |s| && IsAccepted(s[..n]) && AcceptedText(s[n..])
  {
    n :| 0 < n <= |s| && IsAccepted(s[..n]) && AcceptedText(s[n..]);
    AcceptedLength(s[..n]);
  }

  lemma HeadOfPrefix(s: seq<UTF8>, d: nat) returns (n: nat)
    requires 0 < d <= |s| && AcceptedText(s[..d])
    ensures StartsAccepted(s) && n == Announced(s) <= d && AcceptedText(s[n..][..d - n])
  {
    n := HeadOf(s[..d]);
    TakeSplit(s, n, d - n);
  }

  lemma EmitsScalar(s: seq<UTF8>, strict: bool) returns (v: Scalar)
    requires s != [] && StartsAccepted(s)
    ensures Act8To32(s, strict) == Emit(Announced(s), [v], 1, false)
    ensures Act8To16(s, strict) == Emit(Announced(s), Utf16(v), |Utf16(v)|, false)
    ensures |Utf8(v)| == Announced(s)
    ensures Utf8(v) == s[..Announced(s)] <==> InTable37(s[..Announced(s)])
  {
    hide Decode, IsAccepted, IsLegalUTF8, Utf8, InTable37, W1, W2, Narrow, HighHalf, LowHalf, ToUTF16;
    LegalIsAccepted(s);
    v := DecodeAccepted(s, TrailingBytes(s[0]));
    Write16(v);
  }

  /** A turn asks for no more room than it consumes, or than one unit when it stops. */
  ghost predicate Modest<V>(step: seq<UTF8> -> Action<V>) {
    && Steps(step)
    && forall s :: s != [] ==> step(s).need <= if step(s).Emit? then step(s).consumed else 1
  }

  lemma ReadersAreModest(strict: bool)
    ensures Modest(Step8To16(strict)) && Modest(Step8To32(strict))
  {
    forall s: seq<UTF8> | s != []
      ensures Act8To16(s, strict).need <= if Act8To16(s, strict).Emit? then Act8To16(s, strict).consumed else 1
      ensures Act8To32(s, strict).need <= if Act8To32(s, strict).Emit? then Act8To32(s, strict).consumed else 1
    {
      StepIsAccepted(s, strict);
      if StartsAccepted(s) {
        var v := EmitsScalar(s, strict);
      } else {
        QuietReader(s, strict);
        HaltsNeedOne(s, strict);
      }
    }
  }

  lemma HaltsNeedOne(s: seq<UTF8>, strict: bool)
    requires s != []
    ensures Act8To16(s, strict).Halt? ==> Act8To16(s, strict).need <= 1
    ensures Act8To32(s, strict).Halt? ==> Act8To32(s, strict).need <= 1
  {
  }

  /** So as many target units as there are source bytes are always enough. */
  lemma {:induction false} ModestIsAmple<V>(step: seq<UTF8> -> Action<V>, s: seq<UTF8>, room: nat)
    requires Modest(step) && |s| <= room
    ensures Ample(step, s, room)
    decreases |s|
  {
    if s != [] && step(s).Emit? {
      assert Proper(step(s), |s|);
      var tail, left := ConvertTurn(step, s, room);
      ModestIsAmple(step, tail, left);
    }
  }

  lemma EnoughRoom(s: seq<UTF8>, strict: bool, room: nat)
    requires |s| <= room
    ensures Ample(Step8To16(strict), s, room) && Ample(Step8To32(strict), s, room)
  {
    ReadersAreModest(strict);
    ModestIsAmple(Step8To16(strict), s, room);
    ModestIsAmple(Step8To32(strict), s, room);
  }

  /** How long a sequence its lead byte announces, by the ranges of lead bytes: FE and FF announce six like FC
      and FD, and bytes that cannot lead announce one. */
  function LeadLength(lead: UTF8): (n: nat)
    ensures 1 <= n <= 6
  {
    if lead <= 0xBF then 1 else if lead <= 0xDF then 2 else if lead <= 0xEF then 3
    else if lead <= 0xF7 then 4 else if lead <= 0xFB then 5 else 6
  }

  lemma LeadAnnounces(s: seq<UTF8>)
    requires s != []
    ensures Announced(s) == LeadLength(s[0])
  {
  }

  /** What stands at the place where a reader stops, and the code that this calls for. */
  function CodeAt(rest: seq<UTF8>): ConversionResult {
    if rest == [] then ConversionOK
    else if LeadLength(rest[0]) > |rest| then SourceExhausted
    else if !IsAccepted(rest[..LeadLength(rest[0])]) then SourceIllegal
    else TargetExhausted
  }

  lemma TurnCodes(s: seq<UTF8>, strict: bool)
    requires s != []
    ensures CodeAt(s) == TargetExhausted ==> Act8To16(s, strict).Emit? && Act8To32(s, strict).Emit?
    ensures CodeAt(s) != TargetExhausted ==>
              Act8To16(s, strict) == Halt(CodeAt(s), 0) && Act8To32(s, strict) == Halt(CodeAt(s), 0)
  {
    hide IsAccepted, IsLegalUTF8, Decode;
    LeadAnnounces(s);
    StepIsAccepted(s, strict);
    if Announced(s) <= |s| {
      LegalIsAccepted(s);
    }
  }
  ghost predicate TurnsByCode<V>(step: seq<UTF8> -> Action<V>) {
    && Steps(step)
    && forall s :: s != [] ==>
         if CodeAt(s) == TargetExhausted then step(s).Emit? && !step(s).flagged else step(s) == Halt(CodeAt(s), 0)
  }

  lemma ReadersTurnByCode(strict: bool)
    ensures TurnsByCode(Step8To16(strict)) && TurnsByCode(Step8To32(strict))
  {
    forall s: seq<UTF8> | s != []
      ensures if CodeAt(s) == TargetExhausted then Act8To16(s, strict).Emit? && !Act8To16(s, strict).flagged
              else Act8To16(s, strict) == Halt(CodeAt(s), 0)
      ensures if CodeAt(s) == TargetExhausted then Act8To32(s, strict).Emit? && !Act8To32(s, strict).flagged
              else Act8To32(s, strict) == Halt(CodeAt(s), 0)
    {
      hide Act8To16, Act8To32, CodeAt;
      TurnCodes(s, strict);
      CodeOfAccepted(s);
      if CodeAt(s) == TargetExhausted {
        var v := EmitsScalar(s, strict);
      }
    }
  }

  lemma CodeOfAccepted(s: seq<UTF8>)
    requires s != []
    ensures CodeAt(s) == TargetExhausted <==> StartsAccepted(s)
  {
    LeadAnnounces(s);
  }

  lemma {:induction false} ExitCode<V>(step: seq<UTF8> -> Action<V>, s: seq<UTF8>, room: nat)
    requires TurnsByCode(step)
    ensures var o := Convert(step, s, room); o.result == CodeAt(s[o.consumed..])
  {
    hide Convert, IsAccepted, LeadLength;
    ConvertExit(step, s, room);
    var c := Convert(step, s, room).consumed;
    if c < |s| {
      assert s[c..] != [];
    } else {
      assert s[c..] == [];
    }
  }

  /** The code that a UTF-8 reader returns, with any room: conversionOK at the end of the source; sourceExhausted
      when the lead byte where it stops announces more bytes than are left; sourceIllegal when they are there
      and are no accepted sequence; and targetExhausted when they are one that does not fit. */
  lemma ReaderCodes(s: seq<UTF8>, strict: bool, room: nat)
    ensures var o := Convert(Step8To16(strict), s, room);
            && o.result == CodeAt(s[o.consumed..])
            && (o.result == TargetExhausted ==> |o.out| + (if LeadLength(s[o.consumed]) == 4 then 2 else 1) > room)
    ensures var o := Convert(Step8To32(strict), s, room);
            && o.result == CodeAt(s[o.consumed..])
            && (o.result == TargetExhausted ==> |o.out| == room)
  {
    ReadersTurnByCode(strict);
    ExitCode(Step8To16(strict), s, room);
    ExitCode(Step8To32(strict), s, room);
    ConvertExit(Step8To16(strict), s, room);
    ConvertExit(Step8To32(strict), s, room);
    var o, p := Convert(Step8To16(strict), s, room), Convert(Step8To32(strict), s, room);
    hide Convert, Act8To16, Act8To32, CodeAt, LeadLength, TurnsByCode;
    if o.result == TargetExhausted {
      NeedAt(s[o.consumed..], strict);
    }
    if p.result == TargetExhausted {
      NeedAt(s[p.consumed..], strict);
    }
  }

  lemma NeedAt(s: seq<UTF8>, strict: bool)
    requires s != [] && CodeAt(s) == TargetExhausted
    ensures Act8To16(s, strict).need == if LeadLength(s[0]) == 4 then 2 else 1
    ensures Act8To32(s, strict).need == 1
  {
    hide Act8To16, Act8To32, CodeAt, W1, W2, Narrow, Lead2, Lead3, Lead4, Cont;
    CodeOfAccepted(s);
    LeadAnnounces(s);
    var v := EmitsScalar(s, strict);
  }

  /** A split into a first accepted sequence and the rest is the only one. */
  lemma WellFormedSplit(s: seq<UTF8>)
    requires s != [] && StartsAccepted(s)
    ensures WellFormed8(s) <==> InTable37(s[..Announced(s)]) && WellFormed8(s[Announced(s)..])
  {
    if WellFormed8(s) {
      var n :| 0 < n <= |s| && InTable37(s[..n]) && WellFormed8(s[n..]);
      AcceptedLength(s[..n]);
    }
  }

  /** The two readers decode accepted text to the same scalar values, and encoding these as UTF-8
      again gives back the bytes consumed exactly when those are well-formed UTF-8. */
  lemma {:induction false} Reencoding(s: seq<UTF8>, strict: bool, room16: nat, room32: nat) returns (vs: seq<Scalar>)
    requires Ample(Step8To16(strict), s, room16) && Ample(Step8To32(strict), s, room32)
    ensures var to16, to32 := Convert(Step8To16(strict), s, room16), Convert(Step8To32(strict), s, room32);
            && to16.result == to32.result && to16.consumed == to32.consumed
            && to16.out == Text16(vs) && to32.out == Text32(vs)
            && |Text8(vs)| == to16.consumed
            && (Text8(vs) == s[..to16.consumed] <==> WellFormed8(s[..to16.consumed]))
    decreases |s|
  {
    ReadersReadAccepted(strict);
    vs := [];
    if s != [] && StartsAccepted(s) {
      var v := EmitsScalar(s, strict);
      hide Act8To16, Act8To32, StartsAccepted, TrailingBytes, Convert, WellFormed8, EncodeAll, ReadsAccepted;
      var tail, left16 := ConvertTurn(Step8To16(strict), s, room16);
      var _, left32 := ConvertTurn(Step8To32(strict), s, room32);
      var ws := Reencoding(tail, strict, left16, left32);
      vs := [v] + ws;
      hide Text8;
      EncodeAllCons(Enc16(), v, ws);
      EncodeAllCons(Enc32(), v, ws);
      EncodesOne(s, v, ws, Convert(Step8To16(strict), tail, left16).consumed);
    }
  }

  lemma EncodesOne(s: seq<UTF8>, v: Scalar, ws: seq<Scalar>, c: nat)
    requires s != [] && StartsAccepted(s) && |Utf8(v)| == Announced(s) && Announced(s) + c <= |s|
    requires Utf8(v) == s[..Announced(s)] <==> InTable37(s[..Announced(s)])
    requires var tail := s[Announced(s)..][..c];
             |Text8(ws)| == c && (Text8(ws) == tail <==> WellFormed8(tail))
    ensures var t := s[..Announced(s) + c];
            |Text8([v] + ws)| == |t| && (Text8([v] + ws) == t <==> WellFormed8(t))
  {
    var n := Announced(s);
    var t, e := s[..n + c], Text8([v] + ws);
    hide WellFormed8, InTable37, IsAccepted, TrailingBytes, Utf8, EncodeAll;
    EncodeAllCons(Enc8(), v, ws);
    TakeSplit(s, n, c);
    WellFormedSplit(t);
    SameParts(Utf8(v), Text8(ws), t[..n], t[n..]);
  }

  lemma SameParts<T>(a: seq<T>, b: seq<T>, c: seq<T>, d: seq<T>)
    requires |a| == |c|
    ensures a + b == c + d <==> a == c && b == d
  {
    if a + b == c + d {
      assert (a + b)[..|a|] == a && (c + d)[..|c|] == c;
      assert (a + b)[|a|..] == b && (c + d)[|c|..] == d;
    }
  }

  // ---------- Strict UTF-16 readers ----------

  /** Unit `i` is a surrogate that is not half of a pair. */
  predicate Lone(s: seq<UTF16>, i: nat)
    requires i < |s|
  {
    || (IsHigh(s[i]) && !(i + 1 < |s| && IsLow(s[i + 1])))
    || (IsLow(s[i]) && !(i > 0 && IsHigh(s[i - 1])))
  }

  ghost predicate ReadsStrict16<V>(step: seq<UTF16> -> Action<V>) {
    forall s :: s != [] ==>
      match ReadUTF16(s, true)
      case Bad(code) => step(s) == Halt(code, 0)
      case Char(_, _) => step(s).Emit? && !step(s).flagged
  }

  lemma StrictReads16To8()
    ensures Reads(Step16To8(true), Enc16(), Enc8()) && Quiet(Step16To8(true)) && ReadsStrict16(Step16To8(true))
  {
    forall s: seq<UTF16> | s != [] && Act16To8(s, true).Emit?
      ensures exists v: Scalar :: ReadsOne(Step16To8(true), Enc16(), Enc8(), s, v)
    {
      ReadIsEncoded16(s);
      var v: Scalar := ReadUTF16(s, true).ch;
      hide Bytes, Utf8, Utf16, ReadUTF16, BytesToWrite;
      Write8(v);
      assert ReadsOne(Step16To8(true), Enc16(), Enc8(), s, v);
    }
  }

  lemma StrictReads16To32()
    ensures Reads(Step16To32(true), Enc16(), Enc32()) && Quiet(Step16To32(true)) && ReadsStrict16(Step16To32(true))
  {
    forall s: seq<UTF16> | s != [] && Act16To32(s, true).Emit?
      ensures exists v: Scalar :: ReadsOne(Step16To32(true), Enc16(), Enc32(), s, v)
    {
      ReadIsEncoded16(s);
      var v: Scalar := ReadUTF16(s, true).ch;
      assert ReadsOne(Step16To32(true), Enc16(), Enc32(), s, v);
    }
  }

  lemma {:induction false} TextHasNoLone(vs: seq<Scalar>, i: nat)
    requires i < |Text16(vs)|
    ensures !Lone(Text16(vs), i)
    ensures i == |Text16(vs)| - 1 ==> !IsHigh(Text16(vs)[i])
  {
    var v, rest := vs[0], Text16(vs[1..]);
    assert Text16(vs) == Utf16(v) + rest;
    if v > MAX_BMP { Halves(v); }
    if i >= |Utf16(v)| {
      TextHasNoLone(vs[1..], i - |Utf16(v)|);
    }
  }

  /** Every exit of a strict UTF-16 reader.  What was consumed is whole characters with no lone
      surrogate among them, what was written is the other encoding of them, and the result says why
      the reader stopped where it did. */
  lemma Strict16Exit<V>(step: seq<UTF16> -> Action<V>, encB: Scalar -> seq<V>, s: seq<UTF16>, room: nat)
      returns (vs: seq<Scalar>)
    requires Reads(step, Enc16(), encB) && Quiet(step) && ReadsStrict16(step)
    ensures var o := Convert(step, s, room);
            && s[..o.consumed] == Text16(vs) && o.out == EncodeAll(encB, vs)
            && (forall i :: 0 <= i < o.consumed ==> !Lone(s, i))
            && (o.result == ConversionOK ==> o.consumed == |s|)
            && (o.result == SourceIllegal ==> o.consumed < |s| && Lone(s, o.consumed))
            && (o.result == SourceExhausted <==>
                  o.result != TargetExhausted && o.consumed == |s| - 1 && IsHigh(s[|s| - 1]))
            && (o.result == TargetExhausted ==>
                  exists v: Scalar :: Utf16(v) <= s[o.consumed..] && |o.out| + |encB(v)| > room)
  {
    hide Convert, Wide, PairValue;
    vs := ConvertSound(step, Enc16(), encB, s, room);
    ConvertExit(step, s, room);
    var c := Convert(step, s, room).consumed;
    forall i | 0 <= i < c ensures !Lone(s, i) && (i == c - 1 ==> !IsHigh(s[i])) {
      TextHasNoLone(vs, i);
      assert s[..c][i] == s[i];
    }
    if c < |s| {
      var t := s[c..];
      WideRange(t[0]);
      if |t| > 1 { WideRange(t[1]); }
      if step(t).Emit? {
        var v: Scalar :| ReadsOne(step, Enc16(), encB, t, v);
      }
    }
  }

  lemma Strict16To8Exit(s: seq<UTF16>, room: nat) returns (vs: seq<Scalar>)
    ensures var o := Convert(Step16To8(true), s, room);
            && s[..o.consumed] == Text16(vs) && o.out == Text8(vs)
            && (forall i :: 0 <= i < o.consumed ==> !Lone(s, i))
            && (o.result == ConversionOK ==> o.consumed == |s|)
            && (o.result == SourceIllegal ==> o.consumed < |s| && Lone(s, o.consumed))
            && (o.result == SourceExhausted <==>
                  o.result != TargetExhausted && o.consumed == |s| - 1 && IsHigh(s[|s| - 1]))
            && (o.result == TargetExhausted ==>
                  exists v: Scalar :: Utf16(v) <= s[o.consumed..] && |o.out| + |Utf8(v)| > room)
  {
    hide Convert, Utf16, Utf8, Lone;
    StrictReads16To8();
    vs := Strict16Exit(Step16To8(true), Enc8(), s, room);
    var o := Convert(Step16To8(true), s, room);
    if o.result == TargetExhausted {
      var v: Scalar :| Utf16(v) <= s[o.consumed..] && |o.out| + |Enc8()(v)| > room;
      assert Enc8()(v) == Utf8(v);
    }
  }

  lemma Strict16To32Exit(s: seq<UTF16>, room: nat) returns (vs: seq<Scalar>)
    ensures var o := Convert(Step16To32(true), s, room);
            && s[..o.consumed] == Text16(vs) && o.out == vs
            && (forall i :: 0 <= i < o.consumed ==> !Lone(s, i))
            && (o.result == ConversionOK ==> o.consumed == |s|)
            && (o.result == SourceIllegal ==> o.consumed < |s| && Lone(s, o.consumed))
            && (o.result == SourceExhausted <==>
                  o.result != TargetExhausted && o.consumed == |s| - 1 && IsHigh(s[|s| - 1]))
            && (o.result == TargetExhausted ==> |o.out| == room)
  {
    hide Convert, Lone, Utf16;
    StrictReads16To32();
    vs := Strict16Exit(Step16To32(true), Enc32(), s, room);
    Text32Is(vs);
    var o := Convert(Step16To32(true), s, room);
    if o.result == TargetExhausted {
      var v: Scalar :| Utf16(v) <= s[o.consumed..] && |o.out| + |Enc32()(v)| > room;
    }
  }

  lemma {:induction false} Text32Is(vs: seq<Scalar>)
    ensures Text32(vs) == vs
  {
    if vs != [] {
      Text32Is(vs[1..]);
      assert vs == [vs[0]] + vs[1..];
    }
  }

  // ---------- UTF-8 to UTF-16 in pieces ----------

  lemma QuietReader(s: seq<UTF8>, strict: bool)
    requires s != []
    ensures Act8To16(s, strict).need <= 2 && (Act8To16(s, strict).Emit? ==> !Act8To16(s, strict).flagged)
  {
  }

  lemma {:induction false} QuietRun<U(!new), V>(step: seq<U> -> Action<V>, s: seq<U>, room: nat)
    requires Steps(step) && Quiet(step)
    ensures !Convert(step, s, room).flagged
    decreases |s|
  {
    if s != [] && step(s).Emit? && step(s).need <= room {
      var tail, left := ConvertTurn(step, s, room);
      QuietRun(step, tail, left);
    }
  }

  lemma {:induction false} QuietPieces<U(!new), V>(step: seq<U> -> Action<V>, s: seq<U>, rooms: seq<nat>)
    requires Steps(step) && Quiet(step)
    ensures !LosesFlag(step, s, rooms)
    decreases |rooms|
  {
    if rooms != [] {
      QuietRun(step, s, rooms[0]);
      QuietPieces(step, s[Convert(step, s, rooms[0]).consumed..], rooms[1..]);
    }
  }

  /** Converting UTF-8 to UTF-16 in pieces, resuming at the returned source while the target is
      exhausted, ends like one call with ample room: same result, same units consumed and written. */
  lemma PiecewiseUTF8To16(s: seq<UTF8>, strict: bool, rooms: seq<nat>, room: nat)
    requires Ample(Step8To16(strict), s, room)
    requires InPieces(Step8To16(strict), s, rooms).result != TargetExhausted
    ensures var pieces, whole := InPieces(Step8To16(strict), s, rooms), Convert(Step8To16(strict), s, room);
            pieces.result == whole.result && pieces.consumed == whole.consumed && pieces.out == whole.out
  {
    forall t: seq<UTF8> | t != [] ensures Act8To16(t, strict).Emit? ==> !Act8To16(t, strict).flagged {
      QuietReader(t, strict);
    }
    QuietPieces(Step8To16(strict), s, rooms);
    PiecesAreWhole(Step8To16(strict), s, rooms, room);
  }

  /** With room for two units in every piece, one piece more than there are bytes is enough. */
  lemma PiecewiseUTF8To16Finishes(s: seq<UTF8>, strict: bool, rooms: seq<nat>)
    requires |rooms| > |s| && forall i :: 0 <= i < |rooms| ==> rooms[i] >= 2
    ensures InPieces(Step8To16(strict), s, rooms).result != TargetExhausted
  {
    forall t: seq<UTF8> | t != [] ensures Step8To16(strict)(t).need <= 2 {
      QuietReader(t, strict);
    }
    PiecesFinish(Step8To16(strict), s, rooms, 2);
  }
}
