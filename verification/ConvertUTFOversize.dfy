/**
 UTF-32 input above U+10FFFF.  A strict call sets sourceIllegal and goes on: ConvertUTF32toUTF16
 writes nothing for such a value and ConvertUTF32toUTF8 writes U+FFFD.  So the returned source does
 not always point at the illegal value, and a caller that converts in pieces can lose the code.
 */
module ConvertUTFOversize {
  import opened ConversionRun
  import opened ConversionTheorems
  import opened UnicodeForms
  import opened ConvertUTF
  import opened ConvertUTFChars

  /** What a strict call writes for one value that is not a surrogate. */
  function Kept16(ch: UTF32): seq<UTF16> { if IsScalar(ch) then Utf16(ch) else [] }

  function Kept8(ch: UTF32): seq<UTF8> { if IsScalar(ch) then Utf8(ch) else Utf8(REPLACEMENT) }

  ghost function Kept16Fn(): UTF32 -> seq<UTF16> { Kept16 }

  ghost function Kept8Fn(): UTF32 -> seq<UTF8> { Kept8 }

  /** The room a strict call asks for before it takes a value. */
  function Need16(ch: UTF32): nat { if MAX_BMP < ch <= MAX_LEGAL then 2 else 1 }

  function Need8(ch: UTF32): nat { if IsSurrogate(ch) then 0 else |Kept8(ch)| }

  ghost function Need16Fn(): UTF32 -> nat { Need16 }

  ghost function Need8Fn(): UTF32 -> nat { Need8 }

  /** A reader of UTF-32 that stops at a surrogate, and flags an oversize value and goes on. */
  ghost predicate Strict32<V>(step: seq<UTF32> -> Action<V>, kept: UTF32 -> seq<V>, need: UTF32 -> nat) {
    && Steps(step)
    && forall s :: s != [] ==>
         && step(s).need == need(s[0])
         && if IsSurrogate(s[0]) then step(s).Halt? && step(s).code == SourceIllegal
            else step(s).Emit? && step(s).consumed == 1 && step(s).out == kept(s[0])
                 && (step(s).flagged <==> Oversize(s[0]))
  }

  lemma Strict32To16()
    ensures Strict32(Step32To16(true), Kept16Fn(), Need16Fn())
  {
    forall s: seq<UTF32> | s != [] && IsScalar(s[0])
      ensures Act32To16(s, true).Emit? && Act32To16(s, true).out == Utf16(s[0])
    {
      Write16(s[0]);
    }
  }

  lemma Strict32To8()
    ensures Strict32(Step32To8(true), Kept8Fn(), Need8Fn())
  {
    forall s: seq<UTF32> | s != [] && !IsSurrogate(s[0])
      ensures Act32To8(s, true).Emit? && Act32To8(s, true).out == Kept8(s[0])
      ensures Act32To8(s, true).need == |Kept8(s[0])|
    {
      hide Bytes, Utf8;
      Write8(if IsScalar(s[0]) then s[0] else REPLACEMENT);
    }
  }

  /** Every exit of a strict call on UTF-32: nothing consumed is a surrogate, each unit consumed is
      written as `kept` says, and a flag was raised exactly when an oversize value was consumed. */
  lemma {:induction false} Strict32Exit<V>(step: seq<UTF32> -> Action<V>, kept: UTF32 -> seq<V>,
                                            need: UTF32 -> nat, s: seq<UTF32>, room: nat)
    requires Strict32(step, kept, need)
    ensures var o := Convert(step, s, room);
            && (forall i :: 0 <= i < o.consumed ==> !IsSurrogate(s[i]))
            && o.out == EncodeAll(kept, s[..o.consumed])
            && (o.flagged <==> AnyOversize(s[..o.consumed]))
            && (o.result == ConversionOK <==> o.consumed == |s| && !o.flagged)
            && (o.result == SourceIllegal <==> if o.consumed == |s| then o.flagged
                                               else o.result != TargetExhausted)
            && (o.result == SourceIllegal && o.consumed < |s| ==> IsSurrogate(s[o.consumed]))
    decreases |s|
  {
    if s != [] && !IsSurrogate(s[0]) && step(s).need <= room {
      var tail, left := ConvertTurn(step, s, room);
      Strict32Exit(step, kept, need, tail, left);
      var c := Convert(step, tail, left).consumed;
      var t := s[..1 + c];
      assert t[0] == s[0] && t[1..] == tail[..c];
      hide Convert;
      AnyOversizeCons(t);
    }
  }

  /** The documentation promises that with sourceIllegal the source points at the illegal value.
      A strict call keeps that promise exactly when there is a surrogate to stop at. */
  lemma PointsAtIllegal<V>(step: seq<UTF32> -> Action<V>, kept: UTF32 -> seq<V>,
                                            need: UTF32 -> nat, s: seq<UTF32>, room: nat)
    requires Strict32(step, kept, need)
    requires Convert(step, s, room).result == SourceIllegal
    ensures var c := Convert(step, s, room).consumed;
            (c < |s| && !IsScalar(s[c])) <==> exists i :: 0 <= i < |s| && IsSurrogate(s[i])
  {
    Strict32Exit(step, kept, need, s, room);
  }

  /** The promise fails on a single oversize value: the source is left past it. */
  lemma OversizeIsPassed()
    ensures Convert(Step32To16(true), [0x110000], 1) == Outcome(SourceIllegal, 1, [], true)
    ensures Convert(Step32To8(true), [0x110000], 3) == Outcome(SourceIllegal, 1, Utf8(REPLACEMENT), true)
  {
    var s: seq<UTF32> := [0x110000];
    assert s[1..] == [];
    Strict32To16();
    Strict32To8();
    assert Step32To16(true)(s) == Emit(1, [], 1, true);
    assert Step32To8(true)(s).need == 3 && Step32To8(true)(s).out == Kept8Fn()(s[0]);
    var _, _ := ConvertTurn(Step32To16(true), s, 1);
    var _, _ := ConvertTurn(Step32To8(true), s, 3);
    assert Utf8(REPLACEMENT) + [] == Utf8(REPLACEMENT);
  }

  // ---------- In pieces ----------

  /** How many values of `s` a strict call takes with this room: up to the first surrogate, or the first value
      that needs more room than is left. */
  function Fitting<V>(kept: UTF32 -> seq<V>, need: UTF32 -> nat, s: seq<UTF32>, room: nat): (k: nat)
    ensures k <= |s|
  {
    if s == [] || IsSurrogate(s[0]) || need(s[0]) > room || |kept(s[0])| > room then 0
    else 1 + Fitting(kept, need, s[1..], room - |kept(s[0])|)
  }

  /** Whether the value that stops it is one that does not fit. */
  predicate Fills<V>(kept: UTF32 -> seq<V>, need: UTF32 -> nat, s: seq<UTF32>, room: nat) {
    s != [] &&
    if need(s[0]) > room then true
    else if IsSurrogate(s[0]) || |kept(s[0])| > room then false
    else Fills(kept, need, s[1..], room - |kept(s[0])|)
  }

  /** How many values were taken before the last piece, when calls go on while the target is full. */
  function LastStart<V>(kept: UTF32 -> seq<V>, need: UTF32 -> nat, s: seq<UTF32>, rooms: seq<nat>): (k: nat)
    ensures k <= |s|
    decreases |rooms|
  {
    if rooms == [] || !Fills(kept, need, s, rooms[0]) then 0
    else
      var c := Fitting(kept, need, s, rooms[0]);
      c + LastStart(kept, need, s[c..], rooms[1..])
  }

  /** There are pieces enough: some piece is not filled. */
  predicate Finishes<V>(kept: UTF32 -> seq<V>, need: UTF32 -> nat, s: seq<UTF32>, rooms: seq<nat>)
    decreases |rooms|
  {
    rooms != [] &&
    (Fills(kept, need, s, rooms[0]) ==> Finishes(kept, need, s[Fitting(kept, need, s, rooms[0])..], rooms[1..]))
  }

  /** That is what a strict call does. */
  lemma {:induction false} FittingIs<V>(step: seq<UTF32> -> Action<V>, kept: UTF32 -> seq<V>, need: UTF32 -> nat,
                                       s: seq<UTF32>, room: nat)
    requires Strict32(step, kept, need)
    ensures Convert(step, s, room).consumed == Fitting(kept, need, s, room)
    ensures Convert(step, s, room).result == TargetExhausted <==> Fills(kept, need, s, room)
    decreases |s|
  {
    hide Convert, Then, IsSurrogate;
    if s == [] {
      ConvertEmpty(step, room);
    } else {
      assert Proper(step(s), |s|);
      if !IsSurrogate(s[0]) && need(s[0]) <= room {
        var tail, left := ConvertTurn(step, s, room);
        FittingIs(step, kept, need, tail, left);
        ResultThen(1, kept(s[0]), step(s).flagged, Convert(step, tail, left));
      } else {
        ConvertStops(step, s, room);
      }
    }
  }

  /** One piece, and what a strict call on it flags. */
  lemma PieceTurn<V>(step: seq<UTF32> -> Action<V>, kept: UTF32 -> seq<V>, need: UTF32 -> nat, s: seq<UTF32>,
                     rooms: seq<nat>)
    requires Strict32(step, kept, need) && rooms != []
    ensures var first, c := Convert(step, s, rooms[0]), Fitting(kept, need, s, rooms[0]);
            && first.consumed == c && (first.flagged <==> AnyOversize(s[..c]))
            && (first.result == TargetExhausted <==> Fills(kept, need, s, rooms[0]))
            && (InPieces(step, s, rooms).result
                == if Fills(kept, need, s, rooms[0]) then InPieces(step, s[c..], rooms[1..]).result else first.result)
            && (LosesFlag(step, s, rooms) <==> Fills(kept, need, s, rooms[0])
                                               && (first.flagged || LosesFlag(step, s[c..], rooms[1..])))
  {
    FittingIs(step, kept, need, s, rooms[0]);
    Strict32Exit(step, kept, need, s, rooms[0]);
    hide Convert, AnyOversize;
  }

  /** A flag is lost exactly when an oversize value was taken before the last piece. */
  lemma {:induction false} LosesFlagIff<V>(step: seq<UTF32> -> Action<V>, kept: UTF32 -> seq<V>, need: UTF32 -> nat,
                                          s: seq<UTF32>, rooms: seq<nat>)
    requires Strict32(step, kept, need)
    ensures LosesFlag(step, s, rooms) <==> AnyOversize(s[..LastStart(kept, need, s, rooms)])
    decreases |rooms|
  {
    hide *;
    if rooms == [] {
      NoPieces(step, kept, need, s);
    } else if Fills(kept, need, s, rooms[0]) {
      LosesFlagIff(step, kept, need, s[Fitting(kept, need, s, rooms[0])..], rooms[1..]);
      FilledPiece(step, kept, need, s, rooms);
    } else {
      LastPiece(step, kept, need, s, rooms);
    }
  }

  lemma FilledPiece<V>(step: seq<UTF32> -> Action<V>, kept: UTF32 -> seq<V>, need: UTF32 -> nat, s: seq<UTF32>,
                       rooms: seq<nat>)
    requires Strict32(step, kept, need) && rooms != [] && Fills(kept, need, s, rooms[0])
    requires var tail := s[Fitting(kept, need, s, rooms[0])..];
             LosesFlag(step, tail, rooms[1..]) <==> AnyOversize(tail[..LastStart(kept, need, tail, rooms[1..])])
    ensures LosesFlag(step, s, rooms) <==> AnyOversize(s[..LastStart(kept, need, s, rooms)])
  {
    hide *;
    PieceTurn(step, kept, need, s, rooms);
    LastStartTurn(kept, need, s, rooms);
    var c := Fitting(kept, need, s, rooms[0]);
    AnyOversizeSplit(s, c, LastStart(kept, need, s[c..], rooms[1..]));
  }

  lemma LastPiece<V>(step: seq<UTF32> -> Action<V>, kept: UTF32 -> seq<V>, need: UTF32 -> nat, s: seq<UTF32>,
                     rooms: seq<nat>)
    requires Strict32(step, kept, need) && rooms != [] && !Fills(kept, need, s, rooms[0])
    ensures !LosesFlag(step, s, rooms) && LastStart(kept, need, s, rooms) == 0 && !AnyOversize(s[..0])
  {
    hide *;
    PieceTurn(step, kept, need, s, rooms);
    LastStartTurn(kept, need, s, rooms);
    NoneOf(s);
  }

  lemma NoPieces<V>(step: seq<UTF32> -> Action<V>, kept: UTF32 -> seq<V>, need: UTF32 -> nat, s: seq<UTF32>)
    requires Strict32(step, kept, need)
    ensures !LosesFlag(step, s, []) && LastStart(kept, need, s, []) == 0 && !AnyOversize(s[..0])
  {
  }

  lemma LastStartTurn<V>(kept: UTF32 -> seq<V>, need: UTF32 -> nat, s: seq<UTF32>, rooms: seq<nat>)
    requires rooms != []
    ensures LastStart(kept, need, s, rooms)
         == if Fills(kept, need, s, rooms[0]) then
              Fitting(kept, need, s, rooms[0])
              + LastStart(kept, need, s[Fitting(kept, need, s, rooms[0])..], rooms[1..])
            else 0
  {
  }

  lemma NoneOf(s: seq<UTF32>)
    ensures !AnyOversize(s[..0])
  {
  }

  predicate AnySurrogate(s: seq<UTF32>) { exists i :: 0 <= i < |s| && IsSurrogate(s[i]) }

  /** Pieces end well exactly when there is no surrogate, and no oversize value left for the last one. */
  lemma {:induction false} PiecesEndWell<V>(step: seq<UTF32> -> Action<V>, kept: UTF32 -> seq<V>, need: UTF32 -> nat,
                                           s: seq<UTF32>, rooms: seq<nat>)
    requires Strict32(step, kept, need)
    ensures InPieces(step, s, rooms).result != TargetExhausted <==> Finishes(kept, need, s, rooms)
    ensures Finishes(kept, need, s, rooms) ==>
              (InPieces(step, s, rooms).result == ConversionOK
               <==> !AnySurrogate(s) && !AnyOversize(s[LastStart(kept, need, s, rooms)..]))
    decreases |rooms|
  {
    if rooms == [] {
    } else if Fills(kept, need, s, rooms[0]) {
      hide *;
      PiecesEndWell(step, kept, need, s[Fitting(kept, need, s, rooms[0])..], rooms[1..]);
      FilledEndsWell(step, kept, need, s, rooms);
    } else {
      hide *;
      PieceTurn(step, kept, need, s, rooms);
      LastStartTurn(kept, need, s, rooms);
      FinishesTurn(kept, need, s, rooms);
      EndsWell(step, kept, need, s, rooms[0]);
      assert s[0..] == s;
    }
  }

  lemma FinishesTurn<V>(kept: UTF32 -> seq<V>, need: UTF32 -> nat, s: seq<UTF32>, rooms: seq<nat>)
    requires rooms != []
    ensures Finishes(kept, need, s, rooms)
         == (Fills(kept, need, s, rooms[0]) ==>
               Finishes(kept, need, s[Fitting(kept, need, s, rooms[0])..], rooms[1..]))
  {
  }

  lemma FilledEndsWell<V>(step: seq<UTF32> -> Action<V>, kept: UTF32 -> seq<V>, need: UTF32 -> nat, s: seq<UTF32>,
                          rooms: seq<nat>)
    requires Strict32(step, kept, need) && rooms != [] && Fills(kept, need, s, rooms[0])
    ensures var tail := s[Fitting(kept, need, s, rooms[0])..];
            && InPieces(step, s, rooms).result == InPieces(step, tail, rooms[1..]).result
            && Finishes(kept, need, s, rooms) == Finishes(kept, need, tail, rooms[1..])
            && (AnySurrogate(s) <==> AnySurrogate(tail))
            && s[LastStart(kept, need, s, rooms)..] == tail[LastStart(kept, need, tail, rooms[1..])..]
  {
    hide *;
    PieceTurn(step, kept, need, s, rooms);
    LastStartTurn(kept, need, s, rooms);
    FinishesTurn(kept, need, s, rooms);
    EndsWell(step, kept, need, s, rooms[0]);
    var c := Fitting(kept, need, s, rooms[0]);
    var k := LastStart(kept, need, s[c..], rooms[1..]);
    assert s[c..][k..] == s[c + k..];
  }

  /** One call: what it has taken holds no surrogate, and if it is not full it ends well exactly when there is
      no surrogate and no oversize value at all. */
  lemma EndsWell<V>(step: seq<UTF32> -> Action<V>, kept: UTF32 -> seq<V>, need: UTF32 -> nat, s: seq<UTF32>, room: nat)
    requires Strict32(step, kept, need)
    ensures AnySurrogate(s) <==> AnySurrogate(s[Fitting(kept, need, s, room)..])
    ensures !Fills(kept, need, s, room) ==>
              (Convert(step, s, room).result == ConversionOK <==> !AnySurrogate(s) && !AnyOversize(s))
  {
    hide Convert, Fitting, Fills, EncodeAll, AnyOversize, AnySurrogate, IsSurrogate, Strict32;
    FittingIs(step, kept, need, s, room);
    ExitIs(step, kept, need, s, room);
    SurrogateLater(s, Fitting(kept, need, s, room));
  }

  lemma ExitIs<V>(step: seq<UTF32> -> Action<V>, kept: UTF32 -> seq<V>, need: UTF32 -> nat, s: seq<UTF32>, room: nat)
    requires Strict32(step, kept, need)
    ensures Steps(step)
    ensures var o := Convert(step, s, room);
            && (forall i :: 0 <= i < o.consumed ==> !IsSurrogate(s[i]))
            && (o.result != TargetExhausted ==>
                  if o.consumed == |s| then (o.result == ConversionOK <==> !AnyOversize(s))
                  else o.result != ConversionOK && IsSurrogate(s[o.consumed]))
  {
    hide Convert, EncodeAll, AnyOversize, IsSurrogate;
    Strict32Exit(step, kept, need, s, room);
    assert s[..|s|] == s;
  }

  lemma SurrogateLater(s: seq<UTF32>, c: nat)
    requires c <= |s| && forall i :: 0 <= i < c ==> !IsSurrogate(s[i])
    ensures AnySurrogate(s) <==> AnySurrogate(s[c..])
    ensures c == |s| ==> !AnySurrogate(s)
    ensures c < |s| && IsSurrogate(s[c]) ==> AnySurrogate(s)
  {
    hide IsSurrogate;
    assert forall i :: c <= i < |s| ==> s[i] == s[c..][i - c];
  }

  lemma AnyOversizeSplit(s: seq<UTF32>, c: nat, k: nat)
    requires c + k <= |s|
    ensures AnyOversize(s[..c + k]) <==> AnyOversize(s[..c]) || AnyOversize(s[c..][..k])
  {
    assert forall i :: 0 <= i < c ==> s[..c + k][i] == s[..c][i];
    assert forall i :: 0 <= i < k ==> s[..c + k][c + i] == s[c..][..k][i];
  }

  /** In pieces, a strict call on UTF-32 consumes and writes what one ample call does.  The codes differ exactly
      when there is no surrogate, and the only oversize values come before the last piece: then the one call
      says sourceIllegal and the pieces say conversionOK. */
  lemma PiecewiseUTF32<V>(step: seq<UTF32> -> Action<V>, kept: UTF32 -> seq<V>, need: UTF32 -> nat, s: seq<UTF32>,
                          rooms: seq<nat>, room: nat)
    requires Strict32(step, kept, need)
    requires !Fills(kept, need, s, room) && Finishes(kept, need, s, rooms)
    ensures var pieces, whole := InPieces(step, s, rooms), Convert(step, s, room);
            var k := LastStart(kept, need, s, rooms);
            && pieces.consumed == whole.consumed && pieces.out == whole.out
            && (pieces.result != whole.result
                <==> !AnySurrogate(s) && AnyOversize(s[..k]) && !AnyOversize(s[k..]))
            && (pieces.result != whole.result ==> pieces.result == ConversionOK && whole.result == SourceIllegal)
  {
    assert Steps(step);
    FittingIs(step, kept, need, s, room);
    PiecesEndWell(step, kept, need, s, rooms);
    LosesFlagIff(step, kept, need, s, rooms);
    hide *;
    AmpleIs(step, s, room);
    PiecesAreWhole(step, s, rooms, room);
  }

  lemma AmpleIs<V>(step: seq<UTF32> -> Action<V>, s: seq<UTF32>, room: nat)
    requires Steps(step)
    ensures Ample(step, s, room) <==> Convert(step, s, room).result != TargetExhausted
  {
  }

  /** Without oversize values, any split gives the same code. */
  lemma PiecesAgree<V>(step: seq<UTF32> -> Action<V>, kept: UTF32 -> seq<V>, need: UTF32 -> nat, s: seq<UTF32>,
                       rooms: seq<nat>, room: nat)
    requires Strict32(step, kept, need) && !AnyOversize(s)
    requires !Fills(kept, need, s, room) && Finishes(kept, need, s, rooms)
    ensures InPieces(step, s, rooms).result == Convert(step, s, room).result
  {
    PiecewiseUTF32(step, kept, need, s, rooms, room);
    hide Convert, InPieces, LastStart, Fills, Finishes, Strict32;
    assert forall i :: 0 <= i < LastStart(kept, need, s, rooms) ==>
        s[..LastStart(kept, need, s, rooms)][i] == s[i];
  }
}
