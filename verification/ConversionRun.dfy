/**
 The shape shared by the six buffer converters of convert_UTF.c.

 Each converter is a loop.  One turn looks at the rest of the source and either stops with an
 error or consumes some units and writes some units, provided the target has room.  A turn is an
 `Action`; `Convert` is the loop.  The facts here hold for every converter of this shape.
 */
module ConversionRun {

  datatype ConversionResult = ConversionOK | SourceExhausted | TargetExhausted | SourceIllegal

  /** What one turn of a converter loop does with the rest of the source.

      `need` is the room the turn asks for before it acts.  `flagged` says that the turn sets the
      result to SourceIllegal and goes on. */
  datatype Action<V> =
    | Halt(code: ConversionResult, need: nat)
    | Emit(consumed: nat, out: seq<V>, need: nat, flagged: bool)

  /** How a run ends: the returned code, the source units consumed, the target units written, and
      whether any turn was flagged, which the code does not always show. */
  datatype Outcome<V> = Outcome(result: ConversionResult, consumed: nat, out: seq<V>, flagged: bool)

  /** A turn of a converter consumes something that is there, and asks for the room it fills. */
  ghost predicate Proper<V>(action: Action<V>, available: nat) {
    match action
    case Halt(code, _) => code == SourceExhausted || code == SourceIllegal
    case Emit(n, out, need, _) => 0 < n <= available && |out| <= need
  }

  ghost predicate Steps<U(!new), V>(step: seq<U> -> Action<V>) {
    forall s :: s != [] ==> Proper(step(s), |s|)
  }

  /** `first` units written for `count` units consumed, then the run `rest`.  A flag raised on the
      way survives only when nothing later overwrites the result. */
  ghost function Then<V>(count: nat, first: seq<V>, flagged: bool, rest: Outcome<V>): Outcome<V> {
    Outcome(if flagged && rest.result == ConversionOK then SourceIllegal else rest.result,
            count + rest.consumed, first + rest.out, flagged || rest.flagged)
  }

  /** The converter loop on source `s` with `room` free target units. */
  ghost function Convert<U(!new), V>(step: seq<U> -> Action<V>, s: seq<U>, room: nat): (o: Outcome<V>)
    requires Steps(step)
    ensures o.consumed <= |s| && |o.out| <= room
    ensures o.result == ConversionOK ==> o.consumed == |s|
    decreases |s|
  {
    if s == [] then Outcome(ConversionOK, 0, [], false)
    else
      var action := step(s);
      assert Proper(action, |s|);
      if action.need > room then Outcome(TargetExhausted, 0, [], false)
      else match action
        case Halt(code, _) => Outcome(code, 0, [], false)
        case Emit(n, out, _, flagged) => Then(n, out, flagged, Convert(step, s[n..], room - |out|))
  }

  lemma NothingThen<V>(o: Outcome<V>)
    ensures Then(0, [], false, o) == o
  {
    assert [] + o.out == o.out;
  }

  lemma ConvertEmpty<U(!new), V>(step: seq<U> -> Action<V>, room: nat)
    requires Steps(step)
    ensures Convert(step, [], room) == Outcome(ConversionOK, 0, [], false)
  {
  }

  /** One turn that writes, then the rest of the loop. */
  lemma ConvertTurn<U(!new), V>(step: seq<U> -> Action<V>, s: seq<U>, room: nat) returns (tail: seq<U>, left: nat)
    requires Steps(step) && s != [] && step(s).Emit? && step(s).need <= room
    ensures Proper(step(s), |s|) && |tail| < |s|
    ensures tail == s[step(s).consumed..] && left == room - |step(s).out|
    ensures Convert(step, s, room) == Then(step(s).consumed, step(s).out, step(s).flagged, Convert(step, tail, left))
  {
    assert Proper(step(s), |s|);
    tail, left := s[step(s).consumed..], room - |step(s).out|;
  }

  /** A turn that stops the loop at once. */
  lemma ConvertStops<U(!new), V>(step: seq<U> -> Action<V>, s: seq<U>, room: nat)
    requires Steps(step) && s != [] && (step(s).Halt? || step(s).need > room)
    ensures step(s).Halt? ==> Proper(step(s), |s|)
    ensures Convert(step, s, room)
         == Outcome(if step(s).need > room then TargetExhausted else step(s).code, 0, [], false)
  {
    assert Proper(step(s), |s|);
  }

  lemma ThenAssoc<V>(c1: nat, o1: seq<V>, f1: bool, c2: nat, o2: seq<V>, f2: bool, rest: Outcome<V>)
    ensures Then(c1, o1, f1, Then(c2, o2, f2, rest)) == Then(c1 + c2, o1 + o2, f1 || f2, rest)
  {
    assert o1 + (o2 + rest.out) == (o1 + o2) + rest.out;
  }

  /** Two loops that act alike turn by turn are the same converter. */
  lemma {:induction false} ConvertCongruent<U(!new), V>(step: seq<U> -> Action<V>, other: seq<U> -> Action<V>,
                                                       s: seq<U>, room: nat)
    requires Steps(step) && Steps(other)
    requires forall t :: t != [] ==> step(t) == other(t)
    ensures Convert(step, s, room) == Convert(other, s, room)
    decreases |s|
  {
    if s != [] {
      var action := step(s);
      assert Proper(action, |s|) && action == other(s);
      if action.Emit? && action.need <= room {
        ConvertCongruent(step, other, s[action.consumed..], room - |action.out|);
      }
    }
  }
}
