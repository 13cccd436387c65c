/**
 ByteCursor of byte_cursor.h: numbers, strings and blocks read from a buffer of bytes, with one flag that
 remembers whether any read ran off the end.

 A pointer into the buffer is an index.  size_t and uint64_t have 64 bits; integers are two's complement
 and wrap.
 */
module ByteCursor {
  import opened Basics

  function Pow2(n: nat): (p: nat)
    ensures p > 0
  {
    if n == 0 then 1 else 2 * Pow2(n - 1)
  }

  /** 256 to the n: what n bytes can hold. */
  function Bytes(n: nat): (p: nat)
    ensures p > 0
  {
    if n == 0 then 1 else 256 * Bytes(n - 1)
  }

  /** Bitwise exclusive or. */
  function Xor(a: nat, b: nat): nat
    decreases a + b
  {
    if a == 0 && b == 0 then 0 else (if a % 2 == b % 2 then 0 else 1) + 2 * Xor(a / 2, b / 2)
  }

  /** An integer type of C++: sizeof and signedness. */
  datatype IntType = IntType(size: nat, signed: bool)

  predicate IsType(t: IntType) { t.size in {1, 2, 4, 8} }

  /** Conversion to the type: the value of the type that is congruent. */
  function Convert(t: IntType, x: int): (r: int)
    requires IsType(t)
    ensures InType(t, r)
    ensures (r - x) % Bytes(t.size) == 0
  {
    var word := x % Bytes(t.size);
    if t.signed && 2 * word >= Bytes(t.size) then word - Bytes(t.size) else word
  }

  /** x is a value of the type. */
  predicate InType(t: IntType, x: int) { InBytes(t.size, t.signed, x) }

  /** x is one of the integers that `size` bytes represent. */
  predicate InBytes(size: nat, signed: bool, x: int) {
    if signed then -(Bytes(size) as int) <= 2 * x < Bytes(size) else 0 <= x < Bytes(size)
  }

  // ---------- What bytes mean ----------

  /** The number in base 256, the first byte most significant. */
  function BigEndianValue(bytes: seq<Byte>): (v: nat)
    ensures v < Bytes(|bytes|)
  {
    if bytes == [] then 0 else 256 * BigEndianValue(bytes[..|bytes| - 1]) + bytes[|bytes| - 1]
  }

  function InBigEndianOrder(bytes: seq<Byte>, bigEndian: bool): (r: seq<Byte>)
    ensures |r| == |bytes|
  {
    if bigEndian then bytes else Reversed(bytes)
  }

  /** The integer that the bytes stand for, in two's complement when signed. */
  function Meaning(bytes: seq<Byte>, signed: bool, bigEndian: bool): int {
    var v := BigEndianValue(InBigEndianOrder(bytes, bigEndian));
    if signed && 2 * v >= Bytes(|bytes|) then v - Bytes(|bytes|) else v
  }

  /** The bytes that stand for an integer. */
  function BigEndianBytes(v: nat, size: nat): (bytes: seq<Byte>)
    ensures |bytes| == size
  {
    if size == 0 then [] else BigEndianBytes(v / 256, size - 1) + [v % 256]
  }

  function Encode(x: int, size: nat, bigEndian: bool): (bytes: seq<Byte>)
    ensures |bytes| == size
  {
    InBigEndianOrder(BigEndianBytes(x % Bytes(size), size), bigEndian)
  }

  lemma {:induction false} ValueOfBytes(v: nat, size: nat)
    requires v < Bytes(size)
    ensures BigEndianValue(BigEndianBytes(v, size)) == v
  {
    if size > 0 {
      ValueOfBytes(v / 256, size - 1);
      var bytes := BigEndianBytes(v, size);
      assert bytes[..size - 1] == BigEndianBytes(v / 256, size - 1);
    }
  }

  lemma {:induction false} BytesOfValue(bytes: seq<Byte>)
    ensures BigEndianBytes(BigEndianValue(bytes), |bytes|) == bytes
  {
    if bytes != [] {
      var most, last := bytes[..|bytes| - 1], bytes[|bytes| - 1];
      BytesOfValue(most);
      LastDigit(BigEndianValue(most), last, |most|);
      assert bytes == most + [last];
    }
  }

  lemma LastDigit(v: nat, b: Byte, size: nat)
    ensures BigEndianBytes(256 * v + b, size + 1) == BigEndianBytes(v, size) + [b]
  {
    var all := 256 * v + b;
    assert all / 256 == v && all % 256 == b;
  }

  lemma ReversedTwice(bytes: seq<Byte>, bigEndian: bool)
    ensures InBigEndianOrder(InBigEndianOrder(bytes, bigEndian), bigEndian) == bytes
  {
  }

  /** An integer that fits is what its bytes mean, in both byte orders, signed and unsigned. */
  lemma MeaningOfEncode(x: int, size: nat, signed: bool, bigEndian: bool)
    requires InBytes(size, signed, x)
    ensures Meaning(Encode(x, size, bigEndian), signed, bigEndian) == x
  {
    var word := x % Bytes(size);
    assert word == if x < 0 then x + Bytes(size) else x by { Residue(x, Bytes(size)); }
    ValueOfBytes(word, size);
    ReversedTwice(BigEndianBytes(word, size), bigEndian);
  }

  lemma Residue(x: int, m: nat)
    requires m > 0 && 0 <= x + m && x < m
    ensures x % m == if x < 0 then x + m else x
  {
  }

  /** And the bytes of what some bytes mean are those bytes: no two readings are the same. */
  lemma EncodeOfMeaning(bytes: seq<Byte>, signed: bool, bigEndian: bool)
    ensures InBytes(|bytes|, signed, Meaning(bytes, signed, bigEndian))
    ensures Encode(Meaning(bytes, signed, bigEndian), |bytes|, bigEndian) == bytes
  {
    hide BigEndianBytes, BigEndianValue, InBigEndianOrder, Bytes;
    var ordered := InBigEndianOrder(bytes, bigEndian);
    var x := Meaning(bytes, signed, bigEndian);
    assert x % Bytes(|bytes|) == BigEndianValue(ordered) by { Residue(x, Bytes(|bytes|)); }
    BytesOfValue(ordered);
    ReversedTwice(bytes, bigEndian);
  }

  lemma ConvertFitting(t: IntType, x: int)
    requires IsType(t) && InType(t, x)
    ensures Convert(t, x) == x
  {
    Residue(x, Bytes(t.size));
  }

  /** Quotient and remainder are unique. */
  lemma Remainder(x: int, m: int, q: int, r: int)
    requires x == m * q + r && 0 <= r < m
    ensures x % m == r
  {
    var d := q - x / m;
    assert m * d == x % m - r by {
      assert x == m * (x / m) + x % m;
    }
    assert d >= 1 ==> m * d >= m;
    assert d <= -1 ==> m * d <= -m;
  }

  lemma WrapsAround(x: int, m: int, k: int)
    requires m > 0
    ensures (x + m * k) % m == x % m
  {
    assert x + m * k == m * (x / m + k) + x % m;
    Remainder(x + m * k, m, x / m + k, x % m);
  }

  /** Larger words hold a whole number of smaller ones. */
  lemma {:induction false} WordsNest(m: nat, n: nat) returns (k: int)
    requires m <= n
    ensures Bytes(n) == Bytes(m) * k
    ensures m < n ==> 256 * Bytes(m) <= Bytes(n)
    decreases n
  {
    if m == n {
      k := 1;
    } else {
      var j := WordsNest(m, n - 1);
      k := 256 * j;
    }
  }

  /** One turn of either loop of Read, in a word of m values. */
  lemma AppendByte(bytes: seq<Byte>, b: Byte, m: nat)
    requires m > 0
    ensures (256 * (BigEndianValue(bytes) % m) + b) % m == BigEndianValue(bytes + [b]) % m
  {
    var v := BigEndianValue(bytes);
    assert (bytes + [b])[..|bytes|] == bytes;
    assert 256 * v + b == 256 * (v % m) + b + m * (256 * (v / m)) by {
      assert v == m * (v / m) + v % m;
    }
    WrapsAround(256 * (v % m) + b, m, 256 * (v / m));
  }

  // ---------- The xor and subtract step ----------

  lemma {:induction false} BytesArePowers(size: nat)
    requires size > 0
    ensures Bytes(size) == 2 * Pow2(8 * size - 1)
  {
    if size > 1 {
      BytesArePowers(size - 1);
      PowerOfEight(8 * size - 9);
    } else {
      PowerOfEight(0);
      assert Pow2(8) == 2 * Pow2(7) && Pow2(0) == 1;
    }
  }

  lemma PowerOfEight(n: nat)
    ensures Pow2(n + 8) == 256 * Pow2(n)
  {
    assert Pow2(n + 2) == 4 * Pow2(n);
    assert Pow2(n + 4) == 4 * Pow2(n + 2);
    assert Pow2(n + 6) == 4 * Pow2(n + 4);
    assert Pow2(n + 8) == 4 * Pow2(n + 6);
  }

  lemma {:induction false} XorZero(a: nat)
    ensures Xor(a, 0) == a
  {
    if a > 0 {
      XorZero(a / 2);
    }
  }

  /** Exclusive or with the top bit of a word switches that bit. */
  lemma {:induction false} XorTopBit(v: nat, k: nat)
    requires v < 2 * Pow2(k)
    ensures Xor(v, Pow2(k)) == if v < Pow2(k) then v + Pow2(k) else v - Pow2(k)
  {
    if k == 0 {
      assert v == 0 || v == 1;
      XorZero(0);
    } else {
      var p := Pow2(k - 1);
      XorTopBit(v / 2, k - 1);
      XorEven(v, p);
    }
  }

  lemma XorEven(v: nat, p: nat)
    requires p > 0
    ensures Xor(v, 2 * p) == v % 2 + 2 * Xor(v / 2, p)
  {
    assert (2 * p) % 2 == 0 && (2 * p) / 2 == p;
  }

  /** So xor and subtract read a word of `size` bytes as two's complement. */
  lemma SignExtension(v: nat, size: nat)
    requires size > 0 && v < Bytes(size)
    ensures Xor(v, Pow2(8 * size - 1)) - Pow2(8 * size - 1) == if 2 * v >= Bytes(size) then v - Bytes(size) else v
  {
    BytesArePowers(size);
    XorTopBit(v, 8 * size - 1);
  }

  /** Cutting a size_t down to T forgets no more than T does. */
  lemma ThroughSizeT(t: IntType, x: int)
    requires IsType(t)
    ensures Convert(t, (x % Bytes(8)) % Bytes(t.size)) == Convert(t, x)
  {
    hide Bytes, Convert;
    var k := WordsNest(t.size, 8);
    var m, n := Bytes(t.size), Bytes(8);
    Nested(x, m, n, k);
    ModTwice(x % n, m);
    OnlyTheWord(t, (x % n) % m, x);
  }

  /** A remainder by a multiple keeps the remainder. */
  lemma Nested(x: int, m: nat, n: nat, k: int)
    requires m > 0 && n > 0 && n == m * k
    ensures (x % n) % m == x % m
  {
    var q := x / n;
    assert x == n * q + x % n;
    Reassociate(m, k, q);
    WrapsAround(x % n, m, k * q);
  }

  lemma Reassociate(m: int, k: int, q: int)
    ensures (m * k) * q == m * (k * q)
  {
  }

  /** Conversion looks at the word only. */
  lemma OnlyTheWord(t: IntType, x: int, y: int)
    requires IsType(t) && x % Bytes(t.size) == y % Bytes(t.size)
    ensures Convert(t, x) == Convert(t, y)
  {
    hide Bytes;
  }

  lemma ModTwice(x: int, m: nat)
    requires m > 0
    ensures (x % m) % m == x % m
  {
  }

  /** At full width or more, T's own sign bit does the work. */
  lemma FullWidth(t: IntType, bytes: seq<Byte>, signed: bool, bigEndian: bool)
    requires IsType(t) && (signed ==> t.size <= |bytes|)
    ensures Convert(t, BigEndianValue(InBigEndianOrder(bytes, bigEndian)) % Bytes(t.size))
         == Convert(t, Meaning(bytes, signed, bigEndian))
  {
    hide Bytes, BigEndianValue, InBigEndianOrder;
    var v, m := BigEndianValue(InBigEndianOrder(bytes, bigEndian)), Bytes(t.size);
    ModTwice(v, m);
    if signed {
      var k := WordsNest(t.size, |bytes|);
      assert v - Bytes(|bytes|) == v + m * (-k);
      WrapsAround(v, m, -k);
    }
  }

  // ---------- The operations, as steps of a cursor ----------

  datatype Cursor = Cursor(here: nat, bigEndian: bool, complete: bool)

  datatype Op =
    | ReadInt(t: IntType, size: nat, signed: bool)
    | ReadBlock(size: nat)
    | CString
    | FixedCString(limit: nat)
    | PointTo(size: nat)
    | Skip(size: nat)
    | SetBigEndian(flag: bool)
    | SetHere(here: nat)

  /** What a call hands back; Nothing when it leaves the caller's memory alone. */
  datatype Answer =
    | Number(value: int)
    | Block(bytes: seq<Byte>)
    | Text(bytes: seq<Byte>)
    | Pointer(to: Option<nat>)
    | Nothing

  /** What the source demands: a known integer type, no shift by a negative count, and set_here's assertion. */
  predicate Legal(buffer: seq<Byte>, op: Op) {
    match op
    case ReadInt(t, size, signed) => IsType(t) && (signed ==> size > 0)
    case SetHere(here) => here <= |buffer|
    case _ => true
  }

  /** memchr for zero: its index, or the length when there is none. */
  function FirstZero(bytes: seq<Byte>): (i: nat)
    ensures i <= |bytes|
    ensures i < |bytes| ==> bytes[i] == 0
    ensures forall k :: 0 <= k < i ==> bytes[k] != 0
  {
    if bytes == [] || bytes[0] == 0 then 0 else 1 + FirstZero(bytes[1..])
  }

  predicate Fits(buffer: seq<Byte>, c: Cursor, size: nat) { c.here + size <= |buffer| }

  /** How the cursor moves over `size` bytes, there or not. */
  function Advance(buffer: seq<Byte>, c: Cursor, size: nat): Cursor {
    if Fits(buffer, c, size) then c.(here := c.here + size) else c.(here := |buffer|, complete := false)
  }

  /** The cursor after one call. */
  function After(buffer: seq<Byte>, c: Cursor, op: Op): Cursor
    requires c.here <= |buffer|
  {
    match op
    case SetBigEndian(flag) => c.(bigEndian := flag)
    case SetHere(here) => c.(here := here)
    case CString => Advance(buffer, c, FirstZero(buffer[c.here..]) + 1)
    case ReadInt(_, size, _) => Advance(buffer, c, size)
    case ReadBlock(size) => Advance(buffer, c, size)
    case FixedCString(limit) => Advance(buffer, c, limit)
    case PointTo(size) => Advance(buffer, c, size)
    case Skip(size) => Advance(buffer, c, size)
  }

  /** What the call hands back. */
  function Answered(buffer: seq<Byte>, c: Cursor, op: Op): Answer
    requires c.here <= |buffer| && Legal(buffer, op)
  {
    match op
    case ReadInt(t, size, signed) =>
      Number(Convert(t, if Fits(buffer, c, size) then Meaning(buffer[c.here..c.here + size], signed, c.bigEndian)
                        else 0xdeadbeef))
    case ReadBlock(size) =>
      if Fits(buffer, c, size) then Block(buffer[c.here..c.here + size]) else Nothing
    case CString =>
      var length := FirstZero(buffer[c.here..]);
      Text(if Fits(buffer, c, length + 1) then buffer[c.here..c.here + length] else [])
    case FixedCString(limit) =>
      Text(if Fits(buffer, c, limit) then UpToZero(buffer[c.here..c.here + limit]) else [])
    case PointTo(size) => Pointer(if Fits(buffer, c, size) then Some(c.here) else None)
    case _ => Nothing
  }

  function UpToZero(bytes: seq<Byte>): seq<Byte> { bytes[..FirstZero(bytes)] }

  /** A cursor over a buffer that fits in the address space. */
  class ByteCursorObject {
    const buffer: seq<Byte>
    var here: nat
    var bigEndian: bool
    var complete: bool

    predicate Valid()
      reads this
    {
      here <= |buffer| < Bytes(8)
    }

    function Now(): Cursor
      reads this
    {
      Cursor(here, bigEndian, complete)
    }

    constructor (buffer: seq<Byte>, bigEndian: bool)
      requires |buffer| < Bytes(8)
      ensures Valid() && this.buffer == buffer && Now() == Cursor(0, bigEndian, true)
    {
      this.buffer := buffer;
      here := 0;
      this.bigEndian := bigEndian;
      complete := true;
    }

    method CheckAvailable(size: nat) returns (ok: bool)
      requires Valid()
      modifies this
      ensures Valid()
      ensures ok == Fits(buffer, old(Now()), size)
      ensures Now() == if ok then old(Now()) else old(Now()).(here := |buffer|, complete := false)
    {
      if |buffer| - here >= size {
        return true;
      }
      here := |buffer|;
      complete := false;
      return false;
    }

    /** The word of T that the loop over the bytes at the cursor accumulates. */
    method Accumulate(t: IntType, size: nat) returns (v: nat)
      requires Valid() && IsType(t) && here + size <= |buffer|
      ensures v == BigEndianValue(InBigEndianOrder(buffer[here..here + size], bigEndian)) % Bytes(t.size)
    {
      hide Bytes, BigEndianValue, InBigEndianOrder, Decremented;
      var bytes := buffer[here..here + size];
      ghost var ordered := InBigEndianOrder(bytes, bigEndian);
      NoBytes(Bytes(t.size));
      assert ordered[..0] == [];
      v := 0;
      if bigEndian {
        for i := 0 to size
          invariant v == BigEndianValue(ordered[..i]) % Bytes(t.size)
        {
          Turn(bytes, true, i, Bytes(t.size));
          v := (256 * v + bytes[i]) % Bytes(t.size);
        }
      } else {
        Decrements(size, size);
        var i := Decremented(size);
        ghost var done := 0;
        while i < size
          invariant done <= size && i == Decremented(size - done)
          invariant v == BigEndianValue(ordered[..done]) % Bytes(t.size)
          decreases size - done
        {
          Decrements(size - done, size);
          Turn(bytes, false, done, Bytes(t.size));
          v := (256 * v + bytes[i]) % Bytes(t.size);
          i := Decremented(i);
          done := done + 1;
        }
        Decrements(size - done, size);
      }
      assert ordered[..size] == ordered;
    }

    method Read(t: IntType, size: nat, isSigned: bool) returns (result: int)
      requires Valid() && Legal(buffer, ReadInt(t, size, isSigned))
      modifies this
      ensures Valid()
      ensures Now() == After(buffer, old(Now()), ReadInt(t, size, isSigned))
      ensures Number(result) == Answered(buffer, old(Now()), ReadInt(t, size, isSigned))
    {
      hide Bytes, BigEndianValue, InBigEndianOrder, Convert;
      var ok := CheckAvailable(size);
      if ok {
        ghost var bytes := buffer[here..here + size];
        var v := Accumulate(t, size);
        if isSigned && size < t.size {
          NarrowFits(t, bytes, bigEndian);
          var signBit := Pow2(8 * size - 1);
          SignExtension(v, size);
          ThroughSizeT(t, Xor(v, signBit) - signBit);
          v := ((Xor(v, signBit) - signBit) % Bytes(8)) % Bytes(t.size);
        } else {
          FullWidth(t, bytes, isSigned, bigEndian);
        }
        here := here + size;
        result := Convert(t, v);
      } else {
        result := Convert(t, 0xdeadbeef);
      }
    }

    /** operator>> */
    method ReadWhole(t: IntType) returns (result: int)
      requires Valid() && IsType(t)
      modifies this
      ensures Valid()
      ensures Now() == After(buffer, old(Now()), ReadInt(t, t.size, t.signed))
      ensures Number(result) == Answered(buffer, old(Now()), ReadInt(t, t.size, t.signed))
    {
      result := Read(t, t.size, t.signed);
    }

    /** The form of Read that copies bytes; when they are not there, the destination keeps what it held. */
    method ReadInto(destination: array<Byte>, size: nat)
      requires Valid() && size <= destination.Length
      modifies this, destination
      ensures Valid()
      ensures Now() == After(buffer, old(Now()), ReadBlock(size))
      ensures destination[..] == match Answered(buffer, old(Now()), ReadBlock(size))
                                 case Block(bytes) => bytes + old(destination[..])[size..]
                                 case _ => old(destination[..])
    {
      var ok := CheckAvailable(size);
      if ok {
        for i := 0 to size
          invariant Valid() && Now() == old(Now())
          invariant forall k :: 0 <= k < i ==> destination[k] == buffer[here + k]
          invariant forall k :: i <= k < destination.Length ==> destination[k] == old(destination[k])
        {
          destination[i] := buffer[here + i];
        }
        assert destination[..] == buffer[here..here + size] + old(destination[..])[size..];
        here := here + size;
      }
    }

    method ReadCString() returns (str: seq<Byte>)
      requires Valid()
      modifies this
      ensures Valid()
      ensures Now() == After(buffer, old(Now()), CString)
      ensures Text(str) == Answered(buffer, old(Now()), CString)
    {
      var end := FirstZero(buffer[here..]);
      if end < |buffer| - here {
        str := buffer[here..here + end];
        here := here + end + 1;
      } else {
        str := [];
        here := |buffer|;
        complete := false;
      }
    }

    method ReadFixedCString(limit: nat) returns (str: seq<Byte>)
      requires Valid()
      modifies this
      ensures Valid()
      ensures Now() == After(buffer, old(Now()), FixedCString(limit))
      ensures Text(str) == Answered(buffer, old(Now()), FixedCString(limit))
    {
      var ok := CheckAvailable(limit);
      if ok {
        var bytes := buffer[here..here + limit];
        var end := FirstZero(bytes);
        str := if end < limit then bytes[..end] else bytes;
        here := here + limit;
      } else {
        str := [];
      }
    }

    method PointAt(size: nat) returns (pointer: Option<nat>)
      requires Valid()
      modifies this
      ensures Valid()
      ensures Now() == After(buffer, old(Now()), PointTo(size))
      ensures Pointer(pointer) == Answered(buffer, old(Now()), PointTo(size))
    {
      var ok := CheckAvailable(size);
      if ok {
        pointer := Some(here);
        here := here + size;
      } else {
        pointer := None;
      }
    }

    method SkipOver(size: nat)
      requires Valid()
      modifies this
      ensures Valid()
      ensures Now() == After(buffer, old(Now()), Skip(size))
    {
      var ok := CheckAvailable(size);
      if ok {
        here := here + size;
      }
    }

    method MoveTo(position: nat)
      requires Valid() && position <= |buffer|
      modifies this
      ensures Valid()
      ensures Now() == After(buffer, old(Now()), SetHere(position))
    {
      here := position;
    }

    method TurnBigEndian(flag: bool)
      requires Valid()
      modifies this
      ensures Valid()
      ensures Now() == After(buffer, old(Now()), SetBigEndian(flag))
    {
      bigEndian := flag;
    }
  }

  /** i - 1 in size_t. */
  function Decremented(i: nat): nat { (i - 1) % Bytes(8) }

  /** Counting down ends past zero, at the largest size_t. */
  lemma Decrements(i: nat, size: nat)
    requires i <= size < Bytes(8)
    ensures Decremented(i) < size <==> i > 0
    ensures i > 0 ==> Decremented(i) == i - 1
  {
    hide Bytes;
    if i > 0 {
      Residue(i - 1, Bytes(8));
    } else {
      Residue(-1, Bytes(8));
    }
  }

  /** The turn that takes byte `k` in order of significance. */
  lemma Turn(bytes: seq<Byte>, bigEndian: bool, k: nat, m: nat)
    requires k < |bytes| && m > 0
    ensures var ordered := InBigEndianOrder(bytes, bigEndian);
            var b := bytes[if bigEndian then k else |bytes| - 1 - k];
            (256 * (BigEndianValue(ordered[..k]) % m) + b) % m == BigEndianValue(ordered[..k + 1]) % m
  {
    hide BigEndianValue;
    var ordered := InBigEndianOrder(bytes, bigEndian);
    AppendByte(ordered[..k], ordered[k], m);
    assert ordered[..k] + [ordered[k]] == ordered[..k + 1];
  }

  lemma NoBytes(m: nat)
    requires m > 0
    ensures BigEndianValue([]) % m == 0
  {
  }

  /** Fewer bytes than T has: the word of T is the number itself. */
  lemma NarrowFits(t: IntType, bytes: seq<Byte>, bigEndian: bool)
    requires IsType(t) && |bytes| < t.size
    ensures var v := BigEndianValue(InBigEndianOrder(bytes, bigEndian));
            v % Bytes(t.size) == v < Bytes(|bytes|)
  {
    hide Bytes, BigEndianValue, InBigEndianOrder;
    var k := WordsNest(|bytes|, t.size);
    Residue(BigEndianValue(InBigEndianOrder(bytes, bigEndian)), Bytes(t.size));
  }
}
