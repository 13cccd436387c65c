/**
 Whole runs of a ByteCursor: what the completeness flag means at the end, and that a record laid out
 from numbers, blocks and strings is read back as it was.
 */
module ByteCursorRuns {
  import opened Basics
  import opened ByteCursor

  ghost predicate AllLegal(buffer: seq<Byte>, ops: seq<Op>) {
    forall i :: 0 <= i < |ops| ==> Legal(buffer, ops[i])
  }

  /** The cursor after calls one after another. */
  function RunTo(buffer: seq<Byte>, c: Cursor, ops: seq<Op>): (end: Cursor)
    requires c.here <= |buffer|
    requires AllLegal(buffer, ops)
    ensures end.here <= |buffer|
    decreases |ops|
  {
    if ops == [] then c else RunTo(buffer, After(buffer, c, ops[0]), ops[1..])
  }

  /** What the calls hand back. */
  function Answers(buffer: seq<Byte>, c: Cursor, ops: seq<Op>): (answers: seq<Answer>)
    requires c.here <= |buffer|
    requires AllLegal(buffer, ops)
    ensures |answers| == |ops|
    decreases |ops|
  {
    if ops == [] then [] else [Answered(buffer, c, ops[0])] + Answers(buffer, After(buffer, c, ops[0]), ops[1..])
  }

  /** No call, not even moving the cursor, sets the flag again. */
  lemma {:induction false} FlagIsSticky(buffer: seq<Byte>, c: Cursor, ops: seq<Op>)
    requires c.here <= |buffer| && AllLegal(buffer, ops)
    requires !c.complete
    ensures !RunTo(buffer, c, ops).complete
    decreases |ops|
  {
    if ops != [] {
      FlagIsSticky(buffer, After(buffer, c, ops[0]), ops[1..]);
    }
  }

  /** How many bytes a call asks for; a string asks for its terminating zero, which may be missing. */
  function Demand(buffer: seq<Byte>, here: nat, op: Op): nat
    requires here <= |buffer|
  {
    match op
    case ReadInt(_, size, _) => size
    case ReadBlock(size) => size
    case CString => FirstZero(buffer[here..]) + 1
    case FixedCString(limit) => limit
    case PointTo(size) => size
    case Skip(size) => size
    case _ => 0
  }

  predicate Moves(op: Op) { op.SetHere? }

  /** Where the calls stop when everything is there, if it is. */
  function Reach(buffer: seq<Byte>, here: nat, ops: seq<Op>): Option<nat>
    requires here <= |buffer|
    decreases |ops|
  {
    if ops == [] then Some(here)
    else
      var next := here + Demand(buffer, here, ops[0]);
      if next > |buffer| then None else Reach(buffer, next, ops[1..])
  }

  /** Unless the cursor is moved, the flag tells at the end of any run exactly whether every byte asked for
      was there; if so the cursor has passed just those bytes, and if not it is at the end of the buffer. */
  lemma {:induction false} FlagTellsAll(buffer: seq<Byte>, c: Cursor, ops: seq<Op>)
    requires c.here <= |buffer| && AllLegal(buffer, ops) && c.complete
    requires forall i :: 0 <= i < |ops| ==> !Moves(ops[i])
    ensures var end := RunTo(buffer, c, ops);
            match Reach(buffer, c.here, ops)
            case Some(here) => end.complete && end.here == here
            case None => !end.complete && end.here == |buffer|
    decreases |ops|
  {
    if ops != [] {
      var next := After(buffer, c, ops[0]);
      assert !Moves(ops[0]);
      if next.complete {
        FlagTellsAll(buffer, next, ops[1..]);
      } else {
        FlagIsSticky(buffer, next, ops[1..]);
        StaysAtEnd(buffer, next, ops[1..]);
      }
    }
  }

  lemma {:induction false} StaysAtEnd(buffer: seq<Byte>, c: Cursor, ops: seq<Op>)
    requires c.here == |buffer| && AllLegal(buffer, ops)
    requires forall i :: 0 <= i < |ops| ==> !Moves(ops[i])
    ensures RunTo(buffer, c, ops).here == |buffer|
    decreases |ops|
  {
    if ops != [] {
      assert !Moves(ops[0]);
      StaysAtEnd(buffer, After(buffer, c, ops[0]), ops[1..]);
    }
  }

  // ---------- Records ----------

  datatype Item =
    | IntItem(t: IntType, size: nat, signed: bool, value: int)
    | BlockItem(bytes: seq<Byte>)
    | StringItem(text: seq<Byte>)
    | FixedItem(text: seq<Byte>, padding: seq<Byte>)
    | GapItem(bytes: seq<Byte>)
    | PointItem(bytes: seq<Byte>)
    | OrderItem(bigEndian: bool)

  predicate NoZero(text: seq<Byte>) { forall i :: 0 <= i < |text| ==> text[i] != 0 }

  /** The number fits both its bytes and its type; strings hold no zero; what follows a string shorter than
      its field starts with one. */
  predicate WellFormed(item: Item) {
    match item
    case IntItem(t, size, signed, value) =>
      IsType(t) && size > 0 && InBytes(size, signed, value) && InType(t, value)
    case StringItem(text) => NoZero(text)
    case FixedItem(text, padding) => NoZero(text) && (padding != [] ==> padding[0] == 0)
    case _ => true
  }

  function Layout(item: Item, bigEndian: bool): seq<Byte> {
    match item
    case IntItem(t, size, signed, value) => Encode(value, size, bigEndian)
    case BlockItem(bytes) => bytes
    case StringItem(text) => text + [0]
    case FixedItem(text, padding) => text + padding
    case GapItem(bytes) => bytes
    case PointItem(bytes) => bytes
    case OrderItem(_) => []
  }

  /** The byte order that holds after an item. */
  function OrderAfter(item: Item, bigEndian: bool): bool {
    if item.OrderItem? then item.bigEndian else bigEndian
  }

  /** The call that reads an item. */
  function Reader(item: Item): Op {
    match item
    case IntItem(t, size, signed, _) => ReadInt(t, size, signed)
    case BlockItem(bytes) => ReadBlock(|bytes|)
    case StringItem(_) => CString
    case FixedItem(text, padding) => FixedCString(|text| + |padding|)
    case GapItem(bytes) => Skip(|bytes|)
    case PointItem(bytes) => PointTo(|bytes|)
    case OrderItem(bigEndian) => SetBigEndian(bigEndian)
  }

  /** What reading an item that starts at index `at` hands back. */
  function Content(item: Item, at: nat): Answer {
    match item
    case IntItem(_, _, _, value) => Number(value)
    case BlockItem(bytes) => Block(bytes)
    case StringItem(text) => Text(text)
    case FixedItem(text, _) => Text(text)
    case GapItem(_) => Nothing
    case PointItem(_) => Pointer(Some(at))
    case OrderItem(_) => Nothing
  }

  lemma {:induction false} ZeroAfter(text: seq<Byte>, rest: seq<Byte>)
    requires NoZero(text)
    ensures FirstZero(text + rest) == |text| + FirstZero(rest)
  {
    if text == [] {
      assert text + rest == rest;
    } else {
      assert (text + rest)[1..] == text[1..] + rest;
      ZeroAfter(text[1..], rest);
    }
  }

  /** An item at the cursor is read back, and the cursor moves just past it. */
  lemma ItemReadsBack(before: seq<Byte>, item: Item, rest: seq<Byte>, c: Cursor)
    requires WellFormed(item) && c.here == |before|
    ensures var buffer := before + Layout(item, c.bigEndian) + rest;
            && Answered(buffer, c, Reader(item)) == Content(item, |before|)
            && After(buffer, c, Reader(item))
            == c.(here := |before| + |Layout(item, c.bigEndian)|, bigEndian := OrderAfter(item, c.bigEndian))
  {
    hide Encode, Convert, Meaning, InBytes, Bytes, FirstZero, IsType, UpToZero;
    var layout := Layout(item, c.bigEndian);
    Middle(before, layout, rest);
    match item
    case IntItem(t, size, signed, value) =>
      MeaningOfEncode(value, size, signed, c.bigEndian);
      ConvertFitting(t, value);
    case StringItem(text) =>
      StringThere(before, text, rest);
    case FixedItem(text, padding) =>
      FixedThere(text, padding);
    case _ =>
  }

  lemma Middle(before: seq<Byte>, layout: seq<Byte>, rest: seq<Byte>)
    ensures (before + layout + rest)[|before|..|before| + |layout|] == layout
  {
  }

  lemma StringThere(before: seq<Byte>, text: seq<Byte>, rest: seq<Byte>)
    requires NoZero(text)
    ensures var buffer := before + (text + [0]) + rest;
            && FirstZero(buffer[|before|..]) == |text|
            && buffer[|before|..|before| + |text|] == text
  {
    var buffer := before + (text + [0]) + rest;
    assert buffer[|before|..] == text + ([0] + rest);
    ZeroAfter(text, [0] + rest);
    assert ([0] + rest)[0] == 0;
  }

  lemma FixedThere(text: seq<Byte>, padding: seq<Byte>)
    requires NoZero(text) && (padding != [] ==> padding[0] == 0)
    ensures UpToZero(text + padding) == text
  {
    ZeroAfter(text, padding);
    assert (text + padding)[..|text|] == text;
  }

  function Layouts(items: seq<Item>, bigEndian: bool): seq<Byte> {
    if items == [] then []
    else Layout(items[0], bigEndian) + Layouts(items[1..], OrderAfter(items[0], bigEndian))
  }

  function LastOrder(items: seq<Item>, bigEndian: bool): bool {
    if items == [] then bigEndian else LastOrder(items[1..], OrderAfter(items[0], bigEndian))
  }

  function Readers(items: seq<Item>): (ops: seq<Op>)
    ensures |ops| == |items|
    ensures forall i :: 0 <= i < |ops| ==> ops[i] == Reader(items[i])
  {
    if items == [] then [] else [Reader(items[0])] + Readers(items[1..])
  }

  function Contents(items: seq<Item>, at: nat, bigEndian: bool): seq<Answer> {
    if items == [] then []
    else
      [Content(items[0], at)]
      + Contents(items[1..], at + |Layout(items[0], bigEndian)|, OrderAfter(items[0], bigEndian))
  }

  predicate AllWellFormed(items: seq<Item>) { forall i :: 0 <= i < |items| ==> WellFormed(items[i]) }

  lemma ReadersLegal(buffer: seq<Byte>, items: seq<Item>)
    requires AllWellFormed(items)
    ensures AllLegal(buffer, Readers(items))
  {
    forall i | 0 <= i < |items|
      ensures Legal(buffer, Readers(items)[i])
    {
      assert WellFormed(items[i]);
    }
  }

  /** Any record, anywhere in a buffer, in either byte order or in both, is read back item by item; the cursor
      ends just past it, in the byte order last set, and the flag is as it was. */
  lemma {:induction false} RecordReadsBack(before: seq<Byte>, items: seq<Item>, rest: seq<Byte>, c: Cursor)
    requires AllWellFormed(items) && c.here == |before|
    ensures var buffer := before + Layouts(items, c.bigEndian) + rest;
            && AllLegal(buffer, Readers(items))
            && Answers(buffer, c, Readers(items)) == Contents(items, |before|, c.bigEndian)
            && RunTo(buffer, c, Readers(items))
            == c.(here := |before| + |Layouts(items, c.bigEndian)|, bigEndian := LastOrder(items, c.bigEndian))
    decreases |items|
  {
    hide Layout, Reader, Content, Answered, After, OrderAfter;
    var be := c.bigEndian;
    var buffer := before + Layouts(items, be) + rest;
    ReadersLegal(buffer, items);
    if items != [] {
      var next := OrderAfter(items[0], be);
      var layout, later := Layout(items[0], be), Layouts(items[1..], next);
      assert WellFormed(items[0]);
      assert buffer == before + layout + (later + rest);
      ItemReadsBack(before, items[0], later + rest, c);
      assert buffer == (before + layout) + later + rest;
      RecordReadsBack(before + layout, items[1..], rest, c.(here := |before| + |layout|, bigEndian := next));
      assert Readers(items)[1..] == Readers(items[1..]);
    }
  }

  /** Moved back to where the record starts, and set to the byte order it was begun in, the cursor reads the same
      record again. */
  lemma ReadsAgain(before: seq<Byte>, items: seq<Item>, rest: seq<Byte>, c: Cursor)
    requires AllWellFormed(items) && c.here == |before|
    ensures var buffer := before + Layouts(items, c.bigEndian) + rest;
            var again := [SetHere(|before|), SetBigEndian(c.bigEndian)];
            && AllLegal(buffer, Readers(items)) && AllLegal(buffer, again)
            && RunTo(buffer, RunTo(buffer, c, Readers(items)), again) == c
            && Answers(buffer, RunTo(buffer, RunTo(buffer, c, Readers(items)), again), Readers(items))
            == Contents(items, |before|, c.bigEndian)
  {
    hide *;
    var buffer := before + Layouts(items, c.bigEndian) + rest;
    RecordReadsBack(before, items, rest, c);
    var end := RunTo(buffer, c, Readers(items));
    MovedBack(buffer, end, |before|, c.bigEndian);
    assert end.(here := |before|, bigEndian := c.bigEndian) == c;
  }

  lemma MovedBack(buffer: seq<Byte>, c: Cursor, here: nat, bigEndian: bool)
    requires c.here <= |buffer| && here <= |buffer|
    ensures var again := [SetHere(here), SetBigEndian(bigEndian)];
            && AllLegal(buffer, again)
            && RunTo(buffer, c, again) == c.(here := here, bigEndian := bigEndian)
  {
    var again := [SetHere(here), SetBigEndian(bigEndian)];
    assert again[1..] == [SetBigEndian(bigEndian)] && again[1..][1..] == [];
    assert Legal(buffer, again[0]) && Legal(buffer, again[1]);
    var moved := After(buffer, c, again[0]);
    assert RunTo(buffer, moved, again[1..]) == After(buffer, moved, again[1]);
  }

  // ---------- After a failure ----------

  /** What a call hands back when the bytes it asks for are not there. */
  function Dummy(op: Op): Answer
    requires op.ReadInt? ==> IsType(op.t)
  {
    match op
    case ReadInt(t, _, _) => Number(DummyNumber(t))
    case CString => Text([])
    case FixedCString(_) => Text([])
    case PointTo(_) => Pointer(None)
    case _ => Nothing
  }

  function DummyNumber(t: IntType): int
    requires IsType(t)
  {
    if t.size == 1 then (if t.signed then -17 else 239)
    else if t.size == 2 then (if t.signed then -16657 else 48879)
    else if t.size == 4 then (if t.signed then -559038737 else 3735928559)
    else 3735928559
  }

  lemma DummyIs(t: IntType)
    requires IsType(t)
    ensures Convert(t, 0xdeadbeef) == DummyNumber(t)
  {
    assert Bytes(1) == 256 && Bytes(2) == 256 * Bytes(1);
    assert Bytes(3) == 256 * Bytes(2) && Bytes(4) == 256 * Bytes(3);
    assert Bytes(5) == 256 * Bytes(4) && Bytes(6) == 256 * Bytes(5);
    assert Bytes(7) == 256 * Bytes(6) && Bytes(8) == 256 * Bytes(7);
  }

  /** A run that asked for bytes that are not there leaves nothing to read: unless the cursor is moved, every
      later call that asks for any byte hands back a dummy. */
  lemma FailureIsFinal(buffer: seq<Byte>, c: Cursor, ops: seq<Op>, op: Op)
    requires c.here <= |buffer| && AllLegal(buffer, ops) && c.complete && Legal(buffer, op)
    requires forall i :: 0 <= i < |ops| ==> !Moves(ops[i])
    requires Reach(buffer, c.here, ops) == None && Demand(buffer, |buffer|, op) > 0
    ensures Answered(buffer, RunTo(buffer, c, ops), op) == Dummy(op)
  {
    FlagTellsAll(buffer, c, ops);
    if op.ReadInt? {
      DummyIs(op.t);
    }
    hide Convert, Meaning, RunTo, Reach;
    assert buffer[|buffer|..] == [];
  }
}
