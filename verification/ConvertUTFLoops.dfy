/**
 The six converters of convert_UTF.c as the loops they are: `source` and `target` move through the
 two buffers, and the target buffer is written in place.

 `src` is the source buffer up to sourceEnd; `dst` holds the target buffer, of which the units from
 targetStart up to targetEnd may be written.  Each loop is proved to be a run of its step.
 */
module ConvertUTFLoops {
  import opened ConversionRun
  import opened UnicodeForms
  import opened ConvertUTF

  /** `buffer` with `out` written at `at`. */
  ghost function Overwrite<V>(buffer: seq<V>, at: nat, out: seq<V>): seq<V>
    requires at + |out| <= |buffer|
  {
    buffer[..at] + out + buffer[at + |out|..]
  }

  lemma OverwriteOne<V>(buffer: seq<V>, at: nat, out: seq<V>, v: V)
    requires at + |out| < |buffer|
    ensures Overwrite(buffer, at, out)[at + |out| := v] == Overwrite(buffer, at, out + [v])
  {
  }

  lemma OverwriteNothing<V>(buffer: seq<V>, at: nat)
    requires at <= |buffer|
    ensures Overwrite(buffer, at, []) == buffer
  {
  }

  /** The loop has consumed `src[start..source]`, has written `written`, and has the rest of its
      run still to do. */
  ghost predicate Running<U(!new), V>(step: seq<U> -> Action<V>, src: seq<U>, start: nat, room: nat,
                                      source: nat, written: seq<V>, result: ConversionResult)
  {
    && Steps(step)
    && start <= source <= |src| && |written| <= room
    && (result == ConversionOK || result == SourceIllegal)
    && Convert(step, src[start..], room)
    == Then(source - start, written, result == SourceIllegal, Convert(step, src[source..], room - |written|))
  }

  /** The loop ends here, with `result`. */
  ghost predicate Ended<U(!new), V>(step: seq<U> -> Action<V>, src: seq<U>, start: nat, room: nat,
                                    source: nat, written: seq<V>, result: ConversionResult)
  {
    && Steps(step)
    && start <= source <= |src|
    && var o := Convert(step, src[start..], room);
       o.result == result && o.consumed == source - start && o.out == written
  }

  lemma LoopBegins<U(!new), V>(step: seq<U> -> Action<V>, src: seq<U>, start: nat, room: nat)
    requires Steps(step) && start <= |src|
    ensures Running(step, src, start, room, start, [], ConversionOK)
  {
    NothingThen(Convert(step, src[start..], room));
  }

  /** One turn that consumes `n` units and writes `out`. */
  lemma LoopTurns<U(!new), V>(step: seq<U> -> Action<V>, src: seq<U>, start: nat, room: nat,
                              source: nat, written: seq<V>, result: ConversionResult, n: nat, out: seq<V>)
    requires Running(step, src, start, room, source, written, result) && source < |src|
    requires step(src[source..]).Emit? && step(src[source..]).need <= room - |written|
    requires step(src[source..]).consumed == n && step(src[source..]).out == out
    ensures source + n <= |src|
    ensures Running(step, src, start, room, source + n, written + out,
                    if step(src[source..]).flagged then SourceIllegal else result)
  {
    hide Convert, Then;
    var s := src[source..];
    var tail, left := ConvertTurn(step, s, room - |written|);
    assert tail == src[source + n..];
    ThenAssoc(source - start, written, result == SourceIllegal, n, out, step(s).flagged, Convert(step, tail, left));
  }

  /** One turn that stops the loop. */
  lemma LoopStops<U(!new), V>(step: seq<U> -> Action<V>, src: seq<U>, start: nat, room: nat,
                              source: nat, written: seq<V>, result: ConversionResult)
    requires Running(step, src, start, room, source, written, result) && source < |src|
    requires step(src[source..]).need > room - |written| || step(src[source..]).Halt?
    ensures Ended(step, src, start, room, source, written,
                  if step(src[source..]).need > room - |written| then TargetExhausted else step(src[source..]).code)
  {
    assert Proper(step(src[source..]), |src[source..]|);
    assert written + [] == written;
  }

  lemma LoopFinishes<U(!new), V>(step: seq<U> -> Action<V>, src: seq<U>, start: nat, room: nat,
                                 source: nat, written: seq<V>, result: ConversionResult)
    requires Running(step, src, start, room, source, written, result) && source == |src|
    ensures Ended(step, src, start, room, source, written, result)
  {
    assert written + [] == written;
  }

  /** *target++ = v. */
  method Put<V>(dst: array<V>, target: nat, v: V, ghost buffer: seq<V>, ghost start: nat, ghost written: seq<V>)
    returns (next: nat)
    requires start + |written| == target < dst.Length == |buffer|
    requires dst[..] == Overwrite(buffer, start, written)
    modifies dst
    ensures next == target + 1 && dst[..] == Overwrite(buffer, start, written + [v])
  {
    OverwriteOne(buffer, start, written, v);
    dst[target] := v;
    next := target + 1;
  }

  method ConvertUTF32toUTF16(src: seq<UTF32>, sourceStart: nat, dst: array<UTF16>, targetStart: nat,
                             targetEnd: nat, strict: bool)
    returns (result: ConversionResult, source: nat, target: nat)
    requires sourceStart <= |src| && targetStart <= targetEnd <= dst.Length
    modifies dst
    ensures var o := Convert(Step32To16(strict), src[sourceStart..], targetEnd - targetStart);
            && result == o.result && source == sourceStart + o.consumed && target == targetStart + |o.out|
            && dst[..] == Overwrite(old(dst[..]), targetStart, o.out)
  {
    hide Convert, Then, Overwrite, Running, Steps, HighHalf, LowHalf, ToUTF16;
    result, source, target := ConversionOK, sourceStart, targetStart;
    ghost var step, room, written := Step32To16(strict), targetEnd - targetStart, [];
    LoopBegins(step, src, sourceStart, room);
    OverwriteNothing(dst[..], targetStart);
    while source < |src|
      invariant Running(step, src, sourceStart, room, source, written, result)
      invariant source <= |src| && target == targetStart + |written| <= targetEnd
      invariant dst[..] == Overwrite(old(dst[..]), targetStart, written)
      decreases |src| - source
    {
      ghost var before, flag := source, result;
      if target >= targetEnd {
        result := TargetExhausted;
        LoopStops(step, src, sourceStart, room, before, written, flag);
        break;
      }
      var ch := src[source];
      source := source + 1;
      ghost var out;
      if ch <= MAX_BMP {
        if 0xD800 <= ch <= 0xDFFF {
          if strict {
            source := source - 1;
            result := SourceIllegal;
            LoopStops(step, src, sourceStart, room, before, written, flag);
            break;
          } else {
            target := Put(dst, target, ToUTF16(REPLACEMENT_CHAR), old(dst[..]), targetStart, written);
            out := [ToUTF16(REPLACEMENT_CHAR)];
          }
        } else {
          target := Put(dst, target, ToUTF16(ch), old(dst[..]), targetStart, written);
          out := [ToUTF16(ch)];
        }
      } else if ch > MAX_LEGAL {
        if strict {
          result := SourceIllegal;
          out := [];
          assert written + [] == written;
        } else {
          target := Put(dst, target, ToUTF16(REPLACEMENT_CHAR), old(dst[..]), targetStart, written);
          out := [ToUTF16(REPLACEMENT_CHAR)];
        }
      } else {
        if target + 1 >= targetEnd {
          source := source - 1;
          result := TargetExhausted;
          LoopStops(step, src, sourceStart, room, before, written, flag);
          break;
        }
        out := [HighHalf(ch), LowHalf(ch)];
        target := PutPair(dst, target, ch, old(dst[..]), targetStart, written);
      }
      LoopTurns(step, src, sourceStart, room, before, written, flag, 1, out);
      written := written + out;
    }
    if source == |src| {
      LoopFinishes(step, src, sourceStart, room, source, written, result);
    }
    assert Ended(step, src, sourceStart, room, source, written, result);
  }

  /** ch -= halfBase; then the two halves. */
  method PutPair(dst: array<UTF16>, target: nat, ch: UTF32,
                 ghost buffer: seq<UTF16>, ghost start: nat, ghost written: seq<UTF16>)
    returns (next: nat)
    requires start + |written| == target && target + 1 < dst.Length == |buffer|
    requires dst[..] == Overwrite(buffer, start, written)
    modifies dst
    ensures next == target + 2 && dst[..] == Overwrite(buffer, start, written + [HighHalf(ch), LowHalf(ch)])
  {
    hide ToUTF16, Overwrite;
    var c := ch - HALF_BASE;
    next := Put(dst, target, ToUTF16((c >> 10) + 0xD800), buffer, start, written);
    next := Put(dst, next, ToUTF16((c & 0x3FF) + 0xDC00), buffer, start, written + [HighHalf(ch)]);
    AppendTwo(written, HighHalf(ch), LowHalf(ch));
  }

  lemma AppendTwo<V>(written: seq<V>, v: V, w: V)
    ensures written + [v] + [w] == written + [v, w]
  {
  }

  /** The writing switch: target += bytesToWrite, the bytes from last to first, target += bytesToWrite. */
  method PutBytes(dst: array<UTF8>, target: nat, ch: UTF32, bytesToWrite: nat,
                  ghost buffer: seq<UTF8>, ghost start: nat, ghost written: seq<UTF8>)
    returns (next: nat)
    requires 1 <= bytesToWrite <= 4
    requires start + |written| == target && target + bytesToWrite <= dst.Length == |buffer|
    requires dst[..] == Overwrite(buffer, start, written)
    modifies dst
    ensures next == target + bytesToWrite
    ensures dst[..] == Overwrite(buffer, start, written + Bytes(ch, bytesToWrite))
  {
    hide Marked, Trailer, Down, Overwrite;
    var c := ch;
    next := target + bytesToWrite;
    ghost var before, done: seq<UTF8> := dst[..], [];
    OverwriteNothing(before, next);
    if bytesToWrite >= 4 {
      next, done := PutBefore(dst, next, Trailer(c), before, done);
      c := Down(c);
    }
    if bytesToWrite >= 3 {
      next, done := PutBefore(dst, next, Trailer(c), before, done);
      c := Down(c);
    }
    if bytesToWrite >= 2 {
      next, done := PutBefore(dst, next, Trailer(c), before, done);
      c := Down(c);
    }
    next, done := PutBefore(dst, next, Marked(c, bytesToWrite), before, done);
    next := next + bytesToWrite;
    assert done == Bytes(ch, bytesToWrite);
    OverwriteTwice(buffer, start, written, done);
  }

  lemma OverwriteTwice<V>(buffer: seq<V>, start: nat, written: seq<V>, out: seq<V>)
    requires start + |written| + |out| <= |buffer|
    ensures Overwrite(Overwrite(buffer, start, written), start + |written|, out)
         == Overwrite(buffer, start, written + out)
  {
  }

  /** *--target = b. */
  method PutBefore(dst: array<UTF8>, target: nat, b: UTF8, ghost before: seq<UTF8>, ghost done: seq<UTF8>)
    returns (next: nat, ghost more: seq<UTF8>)
    requires 0 < target && target + |done| <= |before| && dst[..] == Overwrite(before, target, done)
    modifies dst
    ensures next == target - 1 && more == [b] + done && dst[..] == Overwrite(before, next, more)
  {
    next := target - 1;
    dst[next] := b;
    more := [b] + done;
    assert dst[..] == Overwrite(before, target, done)[next := b];
  }

  /** The reading switch, entered at case `extra`. */
  method Gather(src: seq<UTF8>, from: nat, extra: nat) returns (ch: UTF32, next: nat)
    requires from + extra < |src| && extra <= 5
    ensures next == from + extra + 1 && ch == Accumulate(src[from..], extra)
  {
    hide AddByte, ShiftUp;
    ch, next := 0, from;
    if extra >= 5 { ch := AddByte(ch, src[next]); next := next + 1; ch := ShiftUp(ch); }
    if extra >= 4 { ch := AddByte(ch, src[next]); next := next + 1; ch := ShiftUp(ch); }
    if extra >= 3 { ch := AddByte(ch, src[next]); next := next + 1; ch := ShiftUp(ch); }
    if extra >= 2 { ch := AddByte(ch, src[next]); next := next + 1; ch := ShiftUp(ch); }
    if extra >= 1 { ch := AddByte(ch, src[next]); next := next + 1; ch := ShiftUp(ch); }
    ch := AddByte(ch, src[next]);
    next := next + 1;
  }

  /** The loop that Note A gives as equivalent to the reading switch. */
  method GatherNoteA(src: seq<UTF8>, from: nat, extra: nat) returns (ch: UTF32, next: nat)
    requires from + extra < |src| && extra <= 5
    ensures next == from + extra + 1 && ch == Accumulate(src[from..], extra)
  {
    hide AddByte, ShiftUp;
    ch, next := 0, from;
    var tmpBytesToRead := extra + 1;
    while true
      invariant 0 < tmpBytesToRead <= extra + 1 && next == from + extra + 1 - tmpBytesToRead
      invariant ch == if next == from then 0 else ShiftUp(Accumulate(src[from..], next - 1 - from))
      decreases tmpBytesToRead
    {
      ch := AddByte(ch, src[next]);
      next := next + 1;
      assert ch == Accumulate(src[from..], next - 1 - from);
      tmpBytesToRead := tmpBytesToRead - 1;
      if tmpBytesToRead > 0 { ch := ShiftUp(ch); } else { break; }
    }
  }

  /** How many bytes `ch` takes; a value above U+10FFFF becomes U+FFFD. */
  method Measure(value: UTF32) returns (ch: UTF32, bytesToWrite: nat)
    ensures ch == if value > MAX_LEGAL then REPLACEMENT_CHAR else value
    ensures bytesToWrite == BytesToWrite(value)
  {
    ch := value;
    if ch < 0x80 { bytesToWrite := 1; }
    else if ch < 0x800 { bytesToWrite := 2; }
    else if ch < 0x10000 { bytesToWrite := 3; }
    else if ch < 0x110000 { bytesToWrite := 4; }
    else { bytesToWrite := 3; ch := REPLACEMENT_CHAR; }
  }

  /** The surrogate handling with which both UTF-16 readers start. */
  method ReadUnits(src: seq<UTF16>, from: nat, strict: bool) returns (code: ConversionResult, ch: UTF32, source: nat)
    requires from < |src|
    ensures from <= source <= |src| && (source == from <==> code != ConversionOK)
    ensures ReadUTF16(src[from..], strict) == if code == ConversionOK then Char(ch, source - from) else Bad(code)
  {
    hide Wide, PairValue, IsHigh32, IsLow32;
    code, source := ConversionOK, from;
    ch := Wide(src[source]);
    source := source + 1;
    if IsHigh32(ch) {
      if source < |src| {
        var ch2 := Wide(src[source]);
        if IsLow32(ch2) {
          ch := PairValue(ch, ch2);
          source := source + 1;
        } else if strict {
          source := source - 1;
          code := SourceIllegal;
        }
      } else {
        source := source - 1;
        code := SourceExhausted;
      }
    } else if strict {
      if IsLow32(ch) {
        source := source - 1;
        code := SourceIllegal;
      }
    }
  }

  method ConvertUTF16toUTF32(src: seq<UTF16>, sourceStart: nat, dst: array<UTF32>, targetStart: nat,
                             targetEnd: nat, strict: bool)
    returns (result: ConversionResult, source: nat, target: nat)
    requires sourceStart <= |src| && targetStart <= targetEnd <= dst.Length
    modifies dst
    ensures var o := Convert(Step16To32(strict), src[sourceStart..], targetEnd - targetStart);
            && result == o.result && source == sourceStart + o.consumed && target == targetStart + |o.out|
            && dst[..] == Overwrite(old(dst[..]), targetStart, o.out)
  {
    hide Convert, Then, Overwrite, Running, Steps, ReadUTF16;
    result, source, target := ConversionOK, sourceStart, targetStart;
    ghost var step, room, written := Step16To32(strict), targetEnd - targetStart, [];
    LoopBegins(step, src, sourceStart, room);
    OverwriteNothing(dst[..], targetStart);
    while source < |src|
      invariant Running(step, src, sourceStart, room, source, written, result)
      invariant source <= |src| && target == targetStart + |written| <= targetEnd
      invariant dst[..] == Overwrite(old(dst[..]), targetStart, written)
      decreases |src| - source
    {
      ghost var before, flag := source, result;
      var oldSource := source;
      var code, ch;
      code, ch, source := ReadUnits(src, source, strict);
      if code != ConversionOK {
        result := code;
        LoopStops(step, src, sourceStart, room, before, written, flag);
        break;
      }
      if target >= targetEnd {
        source := oldSource;
        result := TargetExhausted;
        LoopStops(step, src, sourceStart, room, before, written, flag);
        break;
      }
      ghost var out := [ch];
      target := Put(dst, target, ch, old(dst[..]), targetStart, written);
      LoopTurns(step, src, sourceStart, room, before, written, flag, source - before, out);
      written := written + out;
    }
    if source == |src| {
      LoopFinishes(step, src, sourceStart, room, source, written, result);
    }
    assert Ended(step, src, sourceStart, room, source, written, result);
  }


  method ConvertUTF16toUTF8(src: seq<UTF16>, sourceStart: nat, dst: array<UTF8>, targetStart: nat,
                             targetEnd: nat, strict: bool)
    returns (result: ConversionResult, source: nat, target: nat)
    requires sourceStart <= |src| && targetStart <= targetEnd <= dst.Length
    modifies dst
    ensures var o := Convert(Step16To8(strict), src[sourceStart..], targetEnd - targetStart);
            && result == o.result && source == sourceStart + o.consumed && target == targetStart + |o.out|
            && dst[..] == Overwrite(old(dst[..]), targetStart, o.out)
  {
    hide Convert, Then, Overwrite, Running, Steps, ReadUTF16, Bytes;
    result, source, target := ConversionOK, sourceStart, targetStart;
    ghost var step, room, written := Step16To8(strict), targetEnd - targetStart, [];
    LoopBegins(step, src, sourceStart, room);
    OverwriteNothing(dst[..], targetStart);
    while source < |src|
      invariant Running(step, src, sourceStart, room, source, written, result)
      invariant source <= |src| && target == targetStart + |written| <= targetEnd
      invariant dst[..] == Overwrite(old(dst[..]), targetStart, written)
      decreases |src| - source
    {
      ghost var before, flag := source, result;
      var oldSource := source;
      var code, ch;
      code, ch, source := ReadUnits(src, source, strict);
      if code != ConversionOK {
        result := code;
        LoopStops(step, src, sourceStart, room, before, written, flag);
        break;
      }
      var bytesToWrite;
      ch, bytesToWrite := Measure(ch);
      ghost var out := Bytes(ch, bytesToWrite);
      assert Act16To8(src[before..], strict) == Emit(source - before, out, bytesToWrite, false);
      hide Act16To8, Bytes, BytesToWrite;
      target := target + bytesToWrite;
      if target > targetEnd {
        source := oldSource;
        target := target - bytesToWrite;
        result := TargetExhausted;
        LoopStops(step, src, sourceStart, room, before, written, flag);
        break;
      }
      target := PutBytes(dst, target - bytesToWrite, ch, bytesToWrite, old(dst[..]), targetStart, written);
      LoopTurns(step, src, sourceStart, room, before, written, flag, source - before, out);
      written := written + out;
    }
    if source == |src| {
      LoopFinishes(step, src, sourceStart, room, source, written, result);
    }
    assert Ended(step, src, sourceStart, room, source, written, result);
  }


  method ConvertUTF32toUTF8(src: seq<UTF32>, sourceStart: nat, dst: array<UTF8>, targetStart: nat,
                             targetEnd: nat, strict: bool)
    returns (result: ConversionResult, source: nat, target: nat)
    requires sourceStart <= |src| && targetStart <= targetEnd <= dst.Length
    modifies dst
    ensures var o := Convert(Step32To8(strict), src[sourceStart..], targetEnd - targetStart);
            && result == o.result && source == sourceStart + o.consumed && target == targetStart + |o.out|
            && dst[..] == Overwrite(old(dst[..]), targetStart, o.out)
  {
    hide Convert, Then, Overwrite, Running, Steps, Bytes;
    result, source, target := ConversionOK, sourceStart, targetStart;
    ghost var step, room, written := Step32To8(strict), targetEnd - targetStart, [];
    LoopBegins(step, src, sourceStart, room);
    OverwriteNothing(dst[..], targetStart);
    while source < |src|
      invariant Running(step, src, sourceStart, room, source, written, result)
      invariant source <= |src| && target == targetStart + |written| <= targetEnd
      invariant dst[..] == Overwrite(old(dst[..]), targetStart, written)
      decreases |src| - source
    {
      ghost var before, flag := source, result;
      var ch := src[source];
      source := source + 1;
      if strict {
        if 0xD800 <= ch <= 0xDFFF {
          source := source - 1;
          result := SourceIllegal;
          LoopStops(step, src, sourceStart, room, before, written, flag);
          break;
        }
      }
      if ch > MAX_LEGAL { result := SourceIllegal; }
      ghost var action := Act32To8(src[before..], strict);
      var bytesToWrite;
      ch, bytesToWrite := Measure(ch);
      ghost var out := Bytes(ch, bytesToWrite);
      assert action == Emit(1, out, bytesToWrite, src[before] > MAX_LEGAL);
      hide Act32To8, Bytes, BytesToWrite;
      target := target + bytesToWrite;
      if target > targetEnd {
        source := source - 1;
        target := target - bytesToWrite;
        result := TargetExhausted;
        LoopStops(step, src, sourceStart, room, before, written, flag);
        break;
      }
      target := PutBytes(dst, target - bytesToWrite, ch, bytesToWrite, old(dst[..]), targetStart, written);
      LoopTurns(step, src, sourceStart, room, before, written, flag, source - before, out);
      written := written + out;
    }
    if source == |src| {
      LoopFinishes(step, src, sourceStart, room, source, written, result);
    }
    assert Ended(step, src, sourceStart, room, source, written, result);
  }


  /** The checks and the switch with which both UTF-8 readers start. */
  method ReadSequence(src: seq<UTF8>, source: nat) returns (code: ConversionResult, ch: UTF32, extraBytesToRead: nat)
    requires source < |src|
    ensures extraBytesToRead == TrailingBytes(src[source])
    ensures ReadUTF8(src[source..]) == if code == ConversionOK then Char(ch, extraBytesToRead + 1) else Bad(code)
    ensures code == ConversionOK ==> source + extraBytesToRead < |src|
  {
    hide IsLegalUTF8, Accumulate, Rebase, TrailingBytes;
    ch := 0;
    extraBytesToRead := TrailingBytes(src[source]);
    if source + extraBytesToRead >= |src| {
      return SourceExhausted, ch, extraBytesToRead;
    }
    if !IsLegalUTF8(src[source..], extraBytesToRead + 1) {
      return SourceIllegal, ch, extraBytesToRead;
    }
    code := ConversionOK;
    var next;
    ch, next := Gather(src, source, extraBytesToRead);
    ch := Rebase(ch, extraBytesToRead);
  }

  /** From the target check on, one turn of ConvertUTF8toUTF16; `n` bytes have been read. */
  method StoreUTF16(dst: array<UTF16>, target: nat, targetEnd: nat, ch: UTF32, strict: bool, ghost n: nat,
                    ghost buffer: seq<UTF16>, ghost start: nat, ghost written: seq<UTF16>)
    returns (code: ConversionResult, next: nat, ghost out: seq<UTF16>)
    requires start + |written| == target <= targetEnd <= dst.Length == |buffer|
    requires dst[..] == Overwrite(buffer, start, written)
    modifies dst
    ensures next == target + |out| <= targetEnd && dst[..] == Overwrite(buffer, start, written + out)
    ensures var action := Store16(ch, n, strict);
            if code == ConversionOK then action == Emit(n, out, |out|, false)
            else out == [] && (if action.need > targetEnd - target then code == TargetExhausted
                               else action.Halt? && action.code == code)
  {
    hide Overwrite, HighHalf, LowHalf, ToUTF16;
    code, next, out := ConversionOK, target, [];
    assert written + [] == written;
    if target >= targetEnd {
      return TargetExhausted, next, out;
    }
    if ch <= MAX_BMP {
      if 0xD800 <= ch <= 0xDFFF {
        if strict {
          return SourceIllegal, next, out;
        } else {
          next := Put(dst, target, ToUTF16(REPLACEMENT_CHAR), buffer, start, written);
          out := [ToUTF16(REPLACEMENT_CHAR)];
        }
      } else {
        next := Put(dst, target, ToUTF16(ch), buffer, start, written);
        out := [ToUTF16(ch)];
      }
    } else if ch > MAX_LEGAL {
      if strict {
        return SourceIllegal, next, out;
      } else {
        next := Put(dst, target, ToUTF16(REPLACEMENT_CHAR), buffer, start, written);
        out := [ToUTF16(REPLACEMENT_CHAR)];
      }
    } else {
      if target + 1 >= targetEnd {
        return TargetExhausted, next, out;
      }
      next := PutPair(dst, target, ch, buffer, start, written);
      out := [HighHalf(ch), LowHalf(ch)];
    }
  }

  method ConvertUTF8toUTF16(src: seq<UTF8>, sourceStart: nat, dst: array<UTF16>, targetStart: nat,
                             targetEnd: nat, strict: bool)
    returns (result: ConversionResult, source: nat, target: nat)
    requires sourceStart <= |src| && targetStart <= targetEnd <= dst.Length
    modifies dst
    ensures var o := Convert(Step8To16(strict), src[sourceStart..], targetEnd - targetStart);
            && result == o.result && source == sourceStart + o.consumed && target == targetStart + |o.out|
            && dst[..] == Overwrite(old(dst[..]), targetStart, o.out)
  {
    hide Convert, Then, Overwrite, Running, Steps, Decode, IsLegalUTF8, Store16;
    result, source, target := ConversionOK, sourceStart, targetStart;
    ghost var step, room, written := Step8To16(strict), targetEnd - targetStart, [];
    LoopBegins(step, src, sourceStart, room);
    OverwriteNothing(dst[..], targetStart);
    while source < |src|
      invariant Running(step, src, sourceStart, room, source, written, result)
      invariant source <= |src| && target == targetStart + |written| <= targetEnd
      invariant dst[..] == Overwrite(old(dst[..]), targetStart, written)
      decreases |src| - source
    {
      ghost var before, flag := source, result;
      var code, ch, extraBytesToRead := ReadSequence(src, source);
      if code != ConversionOK {
        result := code;
        LoopStops(step, src, sourceStart, room, before, written, flag);
        break;
      }
      source := source + extraBytesToRead + 1;
      assert Act8To16(src[before..], strict) == Store16(ch, source - before, strict);
      hide Act8To16, ReadUTF8;
      ghost var out;
      var code16;
      code16, target, out := StoreUTF16(dst, target, targetEnd, ch, strict, extraBytesToRead + 1,
                                        old(dst[..]), targetStart, written);
      if code16 != ConversionOK {
        source := source - (extraBytesToRead + 1);
        result := code16;
        assert written + out == written;
        LoopStops(step, src, sourceStart, room, before, written, flag);
        break;
      }
      LoopTurns(step, src, sourceStart, room, before, written, flag, source - before, out);
      written := written + out;
    }
    if source == |src| {
      LoopFinishes(step, src, sourceStart, room, source, written, result);
    }
    assert Ended(step, src, sourceStart, room, source, written, result);
  }


  method ConvertUTF8toUTF32(src: seq<UTF8>, sourceStart: nat, dst: array<UTF32>, targetStart: nat,
                             targetEnd: nat, strict: bool)
    returns (result: ConversionResult, source: nat, target: nat)
    requires sourceStart <= |src| && targetStart <= targetEnd <= dst.Length
    modifies dst
    ensures var o := Convert(Step8To32(strict), src[sourceStart..], targetEnd - targetStart);
            && result == o.result && source == sourceStart + o.consumed && target == targetStart + |o.out|
            && dst[..] == Overwrite(old(dst[..]), targetStart, o.out)
  {
    hide Convert, Then, Overwrite, Running, Steps, Decode, IsLegalUTF8;
    result, source, target := ConversionOK, sourceStart, targetStart;
    ghost var step, room, written := Step8To32(strict), targetEnd - targetStart, [];
    LoopBegins(step, src, sourceStart, room);
    OverwriteNothing(dst[..], targetStart);
    while source < |src|
      invariant Running(step, src, sourceStart, room, source, written, result)
      invariant source <= |src| && target == targetStart + |written| <= targetEnd
      invariant dst[..] == Overwrite(old(dst[..]), targetStart, written)
      decreases |src| - source
    {
      ghost var before, flag := source, result;
      var code, ch, extraBytesToRead := ReadSequence(src, source);
      if code != ConversionOK {
        result := code;
        LoopStops(step, src, sourceStart, room, before, written, flag);
        break;
      }
      source := source + extraBytesToRead + 1;
      assert Act8To32(src[before..], strict) == Store32(ch, source - before, strict);
      hide Act8To32, ReadUTF8;
      if target >= targetEnd {
        source := source - (extraBytesToRead + 1);
        result := TargetExhausted;
        LoopStops(step, src, sourceStart, room, before, written, flag);
        break;
      }
      ghost var out;
      if ch <= MAX_LEGAL {
        if 0xD800 <= ch <= 0xDFFF {
          if strict {
            source := source - (extraBytesToRead + 1);
            result := SourceIllegal;
            LoopStops(step, src, sourceStart, room, before, written, flag);
            break;
          } else {
            target := Put(dst, target, REPLACEMENT_CHAR, old(dst[..]), targetStart, written);
            out := [REPLACEMENT_CHAR];
          }
        } else {
          target := Put(dst, target, ch, old(dst[..]), targetStart, written);
          out := [ch];
        }
      } else {
        result := SourceIllegal;
        target := Put(dst, target, REPLACEMENT_CHAR, old(dst[..]), targetStart, written);
        out := [REPLACEMENT_CHAR];
      }
      assert Store32(ch, source - before, strict) == Emit(source - before, out, 1, ch > MAX_LEGAL);
      hide Store32;
      LoopTurns(step, src, sourceStart, room, before, written, flag, source - before, out);
      written := written + out;
    }
    if source == |src| {
      LoopFinishes(step, src, sourceStart, room, source, written, result);
    }
    assert Ended(step, src, sourceStart, room, source, written, result);
  }
}
