/**
 Facts about whole runs of a converter, for every converter of the shape in ConversionRun.

 `encA` and `encB` give the source and target encodings of one character of type `A`.
 */
module ConversionTheorems {
  import opened ConversionRun

  ghost function EncodeAll<A, U>(enc: A -> seq<U>, vs: seq<A>): seq<U> {
    if vs == [] then [] else enc(vs[0]) + EncodeAll(enc, vs[1..])
  }

  lemma {:induction false} EncodeAllAppend<A, U>(enc: A -> seq<U>, vs: seq<A>, ws: seq<A>)
    ensures EncodeAll(enc, vs + ws) == EncodeAll(enc, vs) + EncodeAll(enc, ws)
  {
    if vs == [] {
      assert vs + ws == ws;
    } else {
      assert (vs + ws)[1..] == vs[1..] + ws;
      EncodeAllAppend(enc, vs[1..], ws);
    }
  }

  lemma EncodeAllCons<A, U>(enc: A -> seq<U>, v: A, ws: seq<A>)
    ensures EncodeAll(enc, [v] + ws) == enc(v) + EncodeAll(enc, ws)
  {
    assert ([v] + ws)[1..] == ws;
  }

  lemma TakeSplit<T>(s: seq<T>, n: nat, c: nat)
    requires n + c <= |s|
    ensures s[..n + c] == s[..n] + s[n..][..c]
    ensures s[..n + c][..n] == s[..n] && s[..n + c][n..] == s[n..][..c]
  {
  }

  /** Meeting the encoding of a character, the converter writes the other encoding of it. */
  ghost predicate Transcodes<A(!new), U(!new), V>(step: seq<U> -> Action<V>, encA: A -> seq<U>, encB: A -> seq<V>) {
    && Steps(step)
    && forall v: A, rest: seq<U> ::
         encA(v) != [] && step(encA(v) + rest) == Emit(|encA(v)|, encB(v), |encB(v)|, false)
  }

  /** Every unflagged turn of the converter reads the encoding of a character and writes the other
      encoding of it. */
  ghost predicate Reads<A(!new), U(!new), V>(step: seq<U> -> Action<V>, encA: A -> seq<U>, encB: A -> seq<V>) {
    && Steps(step)
    && forall s :: s != [] && step(s).Emit? && !step(s).flagged ==> exists v: A :: ReadsOne(step, encA, encB, s, v)
  }

  ghost predicate ReadsOne<A, U, V>(step: seq<U> -> Action<V>, encA: A -> seq<U>, encB: A -> seq<V>, s: seq<U>, v: A) {
    encA(v) <= s && step(s) == Emit(|encA(v)|, encB(v), |encB(v)|, false)
  }

  /** The converter never sets SourceIllegal and goes on. */
  ghost predicate Quiet<U(!new), V>(step: seq<U> -> Action<V>) {
    forall s :: s != [] && step(s).Emit? ==> !step(s).flagged
  }

  /** With room for all of it, encoded text is converted whole, and the run goes on with what follows. */
  lemma {:induction false} ConvertEncoded<A(!new), U(!new), V>(
      step: seq<U> -> Action<V>, encA: A -> seq<U>, encB: A -> seq<V>, vs: seq<A>, rest: seq<U>, room: nat)
    requires Transcodes(step, encA, encB)
    requires |EncodeAll(encB, vs)| <= room
    ensures Convert(step, EncodeAll(encA, vs) + rest, room)
         == Then(|EncodeAll(encA, vs)|, EncodeAll(encB, vs), false,
                 Convert(step, rest, room - |EncodeAll(encB, vs)|))
  {
    hide Convert, Then;
    if vs == [] {
      assert EncodeAll(encA, vs) + rest == rest;
      NothingThen(Convert(step, rest, room));
    } else {
      var restA, restB := EncodeAll(encA, vs[1..]), EncodeAll(encB, vs[1..]);
      var a, b := encA(vs[0]), encB(vs[0]);
      assert EncodeAll(encA, vs) == a + restA && EncodeAll(encB, vs) == b + restB;
      assert step(a + (restA + rest)) == Emit(|a|, b, |b|, false);
      ConvertEncoded(step, encA, encB, vs[1..], rest, room - |b|);
      ConvertOne(step, a, b, restA, restB, rest, room);
    }
  }

  lemma ConvertOne<U(!new), V>(step: seq<U> -> Action<V>, a: seq<U>, b: seq<V>, restA: seq<U>, restB: seq<V>,
                               rest: seq<U>, room: nat)
    requires Steps(step) && a != [] && |b + restB| <= room
    requires step(a + (restA + rest)) == Emit(|a|, b, |b|, false)
    requires Convert(step, restA + rest, room - |b|)
          == Then(|restA|, restB, false, Convert(step, rest, room - |b| - |restB|))
    ensures Convert(step, a + restA + rest, room)
         == Then(|a + restA|, b + restB, false, Convert(step, rest, room - |b + restB|))
  {
    hide Convert, Then;
    var s := a + (restA + rest);
    assert a + restA + rest == s;
    var tail, left := ConvertTurn(step, s, room);
    assert tail == restA + rest;
    ThenAssoc(|a|, b, false, |restA|, restB, false, Convert(step, rest, room - |b| - |restB|));
  }

  /** With too little room, encoded text is converted up to the first character that does not fit:
      no character is ever split, on either side. */
  lemma {:induction false} ConvertTight<A(!new), U(!new), V>(
      step: seq<U> -> Action<V>, encA: A -> seq<U>, encB: A -> seq<V>, vs: seq<A>, rest: seq<U>, room: nat)
      returns (k: nat)
    requires Transcodes(step, encA, encB)
    requires |EncodeAll(encB, vs)| > room
    ensures k < |vs| && |EncodeAll(encB, vs[..k])| <= room < |EncodeAll(encB, vs[..k + 1])|
    ensures Convert(step, EncodeAll(encA, vs) + rest, room)
         == Outcome(TargetExhausted, |EncodeAll(encA, vs[..k])|, EncodeAll(encB, vs[..k]), false)
  {
    hide Convert;
    k := FirstMisfit(encB, vs, room);
    var done, tail := vs[..k], EncodeAll(encA, vs[k..]) + rest;
    assert vs == done + vs[k..];
    EncodeAllAppend(encA, done, vs[k..]);
    assert EncodeAll(encA, done) + tail == EncodeAll(encA, vs) + rest;
    StuckOn(step, encA, encB, vs[k..], rest, room - |EncodeAll(encB, done)|);
    ConvertEncoded(step, encA, encB, done, tail, room);
    assert EncodeAll(encB, done) + [] == EncodeAll(encB, done);
  }

  lemma FirstMisfit<A, V>(encB: A -> seq<V>, vs: seq<A>, room: nat) returns (k: nat)
    requires |EncodeAll(encB, vs)| > room
    ensures k < |vs| && |EncodeAll(encB, vs[..k])| <= room < |EncodeAll(encB, vs[..k + 1])|
    ensures |EncodeAll(encB, vs[..k])| + |encB(vs[k])| > room
    decreases |vs|
  {
    var front := vs[..|vs| - 1];
    if |EncodeAll(encB, front)| > room {
      k := FirstMisfit(encB, front, room);
      assert front[..k] == vs[..k] && front[..k + 1] == vs[..k + 1];
    } else {
      k := |vs| - 1;
      assert vs[..k + 1] == vs;
    }
    assert vs[..k + 1] == vs[..k] + [vs[k]];
    EncodeAllAppend(encB, vs[..k], [vs[k]]);
    assert EncodeAll(encB, [vs[k]]) == encB(vs[k]);
  }

  lemma StuckOn<A(!new), U(!new), V>(
      step: seq<U> -> Action<V>, encA: A -> seq<U>, encB: A -> seq<V>, vs: seq<A>, rest: seq<U>, room: nat)
    requires Transcodes(step, encA, encB)
    requires vs != [] && |encB(vs[0])| > room
    ensures Convert(step, EncodeAll(encA, vs) + rest, room) == Outcome(TargetExhausted, 0, [], false)
  {
    var more := EncodeAll(encA, vs[1..]) + rest;
    assert EncodeAll(encA, vs) + rest == encA(vs[0]) + more;
    assert step(encA(vs[0]) + more).need > room;
  }

  /** Where and why a run stops. */
  lemma {:induction false} ConvertExit<U(!new), V>(step: seq<U> -> Action<V>, s: seq<U>, room: nat)
    requires Steps(step)
    ensures var o := Convert(step, s, room);
            && (o.result == TargetExhausted ==>
                  o.consumed < |s| && step(s[o.consumed..]).need > room - |o.out|)
            && (o.result == SourceExhausted ==>
                  o.consumed < |s| && step(s[o.consumed..]).Halt? && step(s[o.consumed..]).code == SourceExhausted)
            && (o.result == SourceIllegal && o.consumed < |s| ==>
                  step(s[o.consumed..]).Halt? && step(s[o.consumed..]).code == SourceIllegal)
            && (o.result == SourceIllegal && o.consumed == |s| ==> !Quiet(step))
    decreases |s|
  {
    assert s[0..] == s;
    if s != [] && step(s).Emit? && step(s).need <= room {
      var tail, left := ConvertTurn(step, s, room);
      ConvertExit(step, tail, left);
      var c := Convert(step, tail, left).consumed;
      assert tail[c..] == s[step(s).consumed + c..];
    }
  }

  /** Whatever it ends with, a run has consumed the encoding of some text and written the other
      encoding of the same text. */
  lemma {:induction false} ConvertSound<A(!new), U(!new), V>(
      step: seq<U> -> Action<V>, encA: A -> seq<U>, encB: A -> seq<V>, s: seq<U>, room: nat)
      returns (vs: seq<A>)
    requires Reads(step, encA, encB) && Quiet(step)
    ensures s[..Convert(step, s, room).consumed] == EncodeAll(encA, vs)
    ensures Convert(step, s, room).out == EncodeAll(encB, vs)
    decreases |s|
  {
    hide Convert, EncodeAll;
    if s != [] && step(s).Emit? && step(s).need <= room {
      var tail, left := ConvertTurn(step, s, room);
      var n := step(s).consumed;
      assert !step(s).flagged;
      var v: A :| ReadsOne(step, encA, encB, s, v);
      var ws := ConvertSound(step, encA, encB, tail, left);
      vs := [v] + ws;
      EncodeAllCons(encA, v, ws);
      EncodeAllCons(encB, v, ws);
      assert s[..n] == encA(v);
      TakeSplit(s, n, Convert(step, tail, left).consumed);
    } else {
      vs := [];
      EncodeAllNil(encA);
      EncodeAllNil(encB);
      ConvertNothing(step, s, room);
    }
  }

  lemma EncodeAllNil<A, U>(enc: A -> seq<U>)
    ensures EncodeAll(enc, []) == []
  {
  }

  lemma ConvertNothing<U(!new), V>(step: seq<U> -> Action<V>, s: seq<U>, room: nat)
    requires Steps(step) && (s == [] || step(s).Halt? || step(s).need > room)
    ensures Convert(step, s, room).consumed == 0 && Convert(step, s, room).out == []
  {
  }

  // ---------- Converting in pieces ----------

  /** The whole run with room for everything it wants to write. */
  ghost predicate Ample<U(!new), V>(step: seq<U> -> Action<V>, s: seq<U>, room: nat)
    requires Steps(step)
  {
    Convert(step, s, room).result != TargetExhausted
  }

  /** More room than ample changes nothing. */
  lemma {:induction false} AmpleMonotone<U(!new), V>(step: seq<U> -> Action<V>, s: seq<U>, room: nat, more: nat)
    requires Steps(step) && Ample(step, s, room) && room <= more
    ensures Convert(step, s, more) == Convert(step, s, room)
    decreases |s|
  {
    if s != [] && step(s).Emit? {
      var tail, left := ConvertTurn(step, s, room);
      var _, leftMore := ConvertTurn(step, s, more);
      AmpleMonotone(step, tail, left, leftMore);
    }
  }

  /** A caller that hands over one target piece after another, resuming at the returned source
      while the result is TargetExhausted.  The pieces written are concatenated. */
  ghost function InPieces<U(!new), V>(step: seq<U> -> Action<V>, s: seq<U>, rooms: seq<nat>): (o: Outcome<V>)
    requires Steps(step)
    ensures o.consumed <= |s|
    decreases |rooms|
  {
    if rooms == [] then Outcome(TargetExhausted, 0, [], false)
    else
      var first := Convert(step, s, rooms[0]);
      if first.result != TargetExhausted then first
      else Then(first.consumed, first.out, false, InPieces(step, s[first.consumed..], rooms[1..]))
  }

  /** Whether a flag is raised in a piece that ends with TargetExhausted. */
  ghost predicate LosesFlag<U(!new), V>(step: seq<U> -> Action<V>, s: seq<U>, rooms: seq<nat>)
    requires Steps(step)
    decreases |rooms|
  {
    rooms != [] &&
    var first := Convert(step, s, rooms[0]);
    first.result == TargetExhausted &&
    (first.flagged || LosesFlag(step, s[first.consumed..], rooms[1..]))
  }

  /** An exhausted run followed by an ample run from where it stopped is the ample run. */
  lemma {:induction false} ConvertResume<U(!new), V>(step: seq<U> -> Action<V>, s: seq<U>, room: nat, more: nat)
      returns (tail: seq<U>, left: nat)
    requires Steps(step) && Ample(step, s, more)
    requires Convert(step, s, room).result == TargetExhausted
    ensures var first := Convert(step, s, room);
            && tail == s[first.consumed..] && left == more - |first.out|
            && Ample(step, tail, left)
            && Convert(step, s, more) == Then(first.consumed, first.out, first.flagged, Convert(step, tail, left))
    decreases |s|
  {
    hide Convert, Then;
    if step(s).need > room {
      tail, left := s, more;
      ExhaustedIsStarted(step, s, room);
      ConvertStops(step, s, room);
      NothingThen(Convert(step, s, more));
    } else {
      ContinuesPast(step, s, room, more);
      var s1, room1 := ConvertTurn(step, s, room);
      var s2, more1 := ConvertTurn(step, s, more);
      ResultThen(step(s).consumed, step(s).out, step(s).flagged, Convert(step, s1, room1));
      ResultThen(step(s).consumed, step(s).out, step(s).flagged, Convert(step, s1, more1));
      tail, left := ConvertResume(step, s1, room1, more1);
      var first := Convert(step, s1, room1);
      assert s1[first.consumed..] == s[step(s).consumed + first.consumed..];
      ThenAssoc(step(s).consumed, step(s).out, step(s).flagged, first.consumed, first.out, first.flagged,
                Convert(step, tail, left));
    }
  }

  lemma ResultThen<V>(count: nat, first: seq<V>, flagged: bool, rest: Outcome<V>)
    ensures Then(count, first, flagged, rest).result == TargetExhausted <==> rest.result == TargetExhausted
    ensures Then(count, first, flagged, rest).consumed == count + rest.consumed
    ensures Then(count, first, flagged, rest).out == first + rest.out
    ensures Then(count, first, flagged, rest).flagged == (flagged || rest.flagged)
  {
  }

  lemma ExhaustedIsStarted<U(!new), V>(step: seq<U> -> Action<V>, s: seq<U>, room: nat)
    requires Steps(step) && Convert(step, s, room).result == TargetExhausted
    ensures s != []
  {
  }

  lemma ContinuesPast<U(!new), V>(step: seq<U> -> Action<V>, s: seq<U>, room: nat, more: nat)
    requires Steps(step) && Ample(step, s, more)
    requires Convert(step, s, room).result == TargetExhausted && step(s).need <= room
    ensures s != [] && step(s).Emit? && step(s).need <= more
  {
    if s != [] {
      assert Proper(step(s), |s|);
    }
  }

  /** Converting in pieces gives exactly what one ample call gives: the same units consumed, the
      same units written.  The returned code is the same too, except that a flag raised in a piece
      that was exhausted is lost when the last piece ends well. */
  lemma {:induction false} PiecesAreWhole<U(!new), V>(step: seq<U> -> Action<V>, s: seq<U>, rooms: seq<nat>, room: nat)
    requires Steps(step) && Ample(step, s, room)
    requires InPieces(step, s, rooms).result != TargetExhausted
    ensures var pieces, whole := InPieces(step, s, rooms), Convert(step, s, room);
            && pieces.consumed == whole.consumed && pieces.out == whole.out
            && whole.result == if LosesFlag(step, s, rooms) && pieces.result == ConversionOK
                               then SourceIllegal else pieces.result
    decreases |rooms|
  {
    var first := Convert(step, s, rooms[0]);
    if first.result != TargetExhausted {
      if rooms[0] <= room {
        AmpleMonotone(step, s, rooms[0], room);
      } else {
        AmpleMonotone(step, s, room, rooms[0]);
      }
    } else {
      var tail, left := ConvertResume(step, s, rooms[0], room);
      PiecesAreWhole(step, tail, rooms[1..], left);
    }
  }

  /** When no turn asks for more than `most`, pieces of that size always make progress, so one
      more piece than there are source units is always enough. */
  lemma {:induction false} PiecesFinish<U(!new), V>(step: seq<U> -> Action<V>, s: seq<U>, rooms: seq<nat>, most: nat)
    requires Steps(step) && forall t :: t != [] ==> step(t).need <= most
    requires |rooms| > |s| && forall i :: 0 <= i < |rooms| ==> rooms[i] >= most
    ensures InPieces(step, s, rooms).result != TargetExhausted
    decreases |s|
  {
    var first := Convert(step, s, rooms[0]);
    if first.result == TargetExhausted {
      assert Proper(step(s), |s|);
      assert first.consumed > 0;
      PiecesFinish(step, s[first.consumed..], rooms[1..], most);
    }
  }
}
