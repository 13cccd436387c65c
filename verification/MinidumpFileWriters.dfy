/**
 The classes of minidump_file_writer.h.  Each method takes the step that MinidumpFile gives for it, and the
 writer keeps the session that its uses make up: while callers do what the code asks of them, the session is
 a run, so everything proved about runs holds of the objects.
 */
module MinidumpFileWriters {
  import opened Basics
  import opened MinidumpFile

  class MinidumpFileWriter {
    const page: nat
    ghost const contents: seq<Byte>
    var fileIsOpen: bool
    var position: MDRVA
    var size: nat
    var file: seq<Byte>
    ghost var chunks: seq<Chunk>
    ghost var used: nat
    ghost var history: seq<Event>

    ghost function State(): Writer
      reads this
    { Writer(fileIsOpen, position, size, file) }

    ghost function Now(): Session
      reads this
    { Session(State(), chunks, used) }

    /** What was done so far is a run that used less than 2^32 bytes. */
    ghost predicate Valid()
      reads this
    {
      IsPage(page) && used < TWO32 && Reaches(Opened(contents), page, history, Now())
    }

    /** The use was this event: legal in a run, it goes on with the run. */
    twostate predicate Took(e: Event)
      reads this
    {
      && history == old(history) + [e]
      && (Legal(old(Now()), e) ==> Now() == Next(old(Now()), page, e))
      && (old(Valid()) && Legal(old(Now()), e) && used < TWO32 ==> Valid())
    }

    /** A new writer that was given `contents` by Open or SetFile. */
    constructor (page: nat, contents: seq<Byte>)
      ensures this.page == page && this.contents == contents && Now() == Opened(contents)
      ensures IsPage(page) ==> Valid()
    {
      this.page, this.contents := page, contents;
      fileIsOpen, position, size, file := true, 0, 0, contents;
      chunks, used, history := [], 0, [];
    }

    lemma Invariant()
      requires Valid()
      ensures Inv(Now(), page)
    {
      ReachesInv(Opened(contents), page, history, Now());
    }

    method Allocate(bytes: nat, grows: bool) returns (current: MDRVA)
      requires fileIsOpen && bytes > 0
      modifies this
      ensures (State(), current) == MinidumpFile.Allocate(old(State()), page, bytes, grows)
      ensures chunks == old(chunks) + [Chunk(current, bytes)]
      ensures Took(AllocateChunk(bytes, grows))
    {
      ghost var e := AllocateChunk(bytes, grows);
      ghost var before, was := Now(), history;
      if Valid() && Legal(before, e) {
        ReachesThen(Opened(contents), page, history, before, e);
      }
      hide Reaches;
      var alignedSize := (bytes + 7) % TWO64 / 8 * 8;
      current := position;
      if (position + alignedSize) % TWO64 > size {
        var growth := alignedSize;
        var minimalGrowth := page;
        if growth < minimalGrowth {
          growth := minimalGrowth;
        }
        var newSize := (size + growth) % TWO64;
        if !grows {
          chunks, history := chunks + [Chunk(INVALID, bytes)], history + [e];
          return INVALID;
        }
        file := Truncate(file, newSize);
        size := newSize;
      }
      position := (position + alignedSize) % TWO32;
      chunks, history := chunks + [Chunk(current, bytes)], history + [e];
      used := used + if current == INVALID then 0 else Aligned(bytes);
    }

    /** `event` is what the caller takes the write for. */
    method Copy(at: MDRVA, src: seq<Byte>, io: Io, ghost event: Option<Event>) returns (ok: bool)
      requires fileIsOpen && src != []
      modifies this
      ensures (State(), ok) == MinidumpFile.Copy(old(State()), at, src, io)
      ensures chunks == old(chunks) && used == old(used)
      ensures event.None? ==> history == old(history)
      ensures event.Some? && Writes(old(Now()), event.value, at, src, io) ==> Took(event.value)
    {
      ghost var before := Now();
      if Valid() && event.Some? && Legal(before, event.value) {
        ReachesThen(Opened(contents), page, history, before, event.value);
      }
      hide Reaches, WriteAt;
      if event.Some? {
        history := history + [event.value];
      }
      if (|src| + at) % TWO64 > size {
        return false;
      }
      if io.seekOk {
        var n := if io.accepted < |src| then io.accepted else |src|;
        file := WriteAt(file, at, src[..n]);
        if io.accepted == |src| {
          return true;
        }
      }
      return false;
    }

    /** Closing a file keeps the bytes of every live chunk. */
    method Close(cut: bool, closed: bool) returns (ok: bool)
      modifies this
      ensures (State(), ok) == MinidumpFile.Close(old(State()), cut, closed)
      ensures old(Valid()) ==> Spares(old(Now()), None, file)
    {
      if Valid() {
        Invariant();
        SparesAll(Now(), page, None, file);
        if cut {
          ClosedSpares(Now(), page);
        }
      }
      hide Reaches, Spares, Truncate;
      ok := true;
      if fileIsOpen {
        if !cut {
          return false;
        }
        file := Truncate(file, position);
        ok := closed;
        fileIsOpen := false;
      }
    }

    method WriteMemory(src: seq<Byte>, grows: bool, io: Io) returns (ok: bool, location: Chunk)
      requires fileIsOpen && 0 < |src| < TWO63
      modifies this
      ensures (Now(), ok) == MinidumpFile.WriteMemory(old(Now()), page, src, grows, io)
      ensures |chunks| == old(|chunks|) + 1 && location == chunks[old(|chunks|)]
      ensures old(Valid()) && used < TWO32 ==> Valid() && Spares(old(Now()), None, file)
      ensures old(Valid()) && used < TWO32 && ok ==> HoldsAt(Now(), old(|chunks|), 0, src)
    {
      ghost var before, wasValid := Now(), Valid();
      if wasValid {
        Invariant();
      }
      hide MinidumpFile.Allocate, MinidumpFile.Copy, Aligned, Reaches, Keeps, Inv;
      var mem := new UntypedMDRVA(this);
      var reserved := mem.Allocate(|src|, grows);
      location := Chunk(mem.position, mem.size);
      ghost var middle := Now();
      if wasValid && used < TWO32 {
        AllocateKeeps(before, page, |src|, grows);
      }
      if !reserved {
        return false, location;
      }
      Small(location.position, TWO32);
      ok := mem.Copy(mem.position, src, io);
      if wasValid && used < TWO32 {
        StillSpares(before, middle, file);
      }
    }
  }

  /** The event is the write of these bytes at this position. */
  ghost predicate Writes(s: Session, e: Event, at: MDRVA, src: seq<Byte>, io: Io) {
    match e
    case AllocateChunk(_, _) => false
    case CopyInto(c, offset, bytes, how) =>
      bytes == src && how == io && c < |s.chunks| && (s.chunks[c].position + offset) % TWO32 == at
    case FlushFailed(c, item, how) =>
      item == src && how == io && c < |s.chunks| && s.chunks[c].position == at
  }

  lemma ClosedSpares(s: Session, page: nat)
    requires Inv(s, page)
    ensures Spares(s, None, Truncate(s.w.file, s.w.position))
  {
    hide Aligned;
    forall d | 0 <= d < |s.chunks| && s.chunks[d].Live()
      ensures Keeps(s, d, Truncate(s.w.file, s.w.position))
    {
      AlignedBounds(s.chunks[d].size);
    }
  }

  /** Sparing all chunks, then sparing all but a new one, spares all the old ones. */
  lemma StillSpares(s: Session, t: Session, file: seq<Byte>)
    requires s.chunks <= t.chunks && Spares(s, None, t.w.file) && Spares(t, Some(|s.chunks|), file)
    ensures Spares(s, None, file)
  {
    forall d | 0 <= d < |s.chunks| && s.chunks[d].Live()
      ensures Keeps(s, d, file)
    {
      assert t.chunks[d] == s.chunks[d];
      assert Keeps(s, d, t.w.file) && Keeps(t, d, file);
    }
  }

  class UntypedMDRVA {
    const writer: MinidumpFileWriter
    var position: MDRVA
    var size: nat
    /** Which chunk of the session this is, once it was allocated. */
    ghost var chunk: Option<nat>

    /** position() and size(), as location() reports them. */
    ghost function Location(): Chunk
      reads this
    { Chunk(position, size) }

    ghost predicate Held()
      reads this, writer
    {
      chunk.Some? && chunk.value < |writer.chunks| && writer.chunks[chunk.value] == Location()
    }

    constructor (writer: MinidumpFileWriter)
      ensures this.writer == writer && Location() == Chunk(writer.position, 0) && chunk == None
    {
      this.writer := writer;
      position := writer.position;
      size := 0;
      chunk := None;
    }

    method Allocate(bytes: nat, grows: bool) returns (ok: bool)
      requires writer.fileIsOpen && bytes > 0 && size == 0
      modifies this, writer
      ensures (writer.State(), position)
           == MinidumpFile.Allocate(old(writer.State()), writer.page, bytes, grows)
      ensures size == bytes && ok == Location().Live()
      ensures Held() && chunk == Some(old(|writer.chunks|)) && writer.chunks == old(writer.chunks) + [Location()]
      ensures writer.Took(AllocateChunk(bytes, grows))
    {
      hide MinidumpFile.Allocate, Reaches;
      size := bytes;
      position := writer.Allocate(size, grows);
      ok := position != INVALID;
      chunk := Some(|writer.chunks| - 1);
    }

    /** What the assertions of the C++ code ask: the bytes lie below the end of the chunk.  When they lie in
        it and the session is a run, it stays one, no other chunk changes, and the bytes are there when the
        write succeeds. */
    method Copy(at: MDRVA, src: seq<Byte>, io: Io) returns (ok: bool)
      requires writer.fileIsOpen && src != [] && at + |src| <= position + size
      modifies writer
      ensures (writer.State(), ok) == MinidumpFile.Copy(old(writer.State()), at, src, io)
      ensures writer.chunks == old(writer.chunks) && writer.used == old(writer.used)
      ensures old(writer.Valid()) && Held() && Location().Live() && position <= at ==>
                WroteInto(old(writer.Now()), writer.Now(), chunk.value, at - position, src, io, ok) && writer.Valid()
    {
      ghost var event := None;
      if writer.Valid() && Held() && Location().Live() && position <= at {
        Small(at, TWO32);
        WriteInside(at - position, src, io);
        event := Some(CopyInto(chunk.value, at - position, src, io));
      }
      hide *;
      ok := writer.Copy(at, src, io, event);
    }

    /** The writer's session is a run, and these bytes lie in this object's live chunk. */
    ghost predicate InChunk(offset: nat, length: nat)
      reads this, writer
    {
      writer.Valid() && Held() && Location().Live() && offset + length <= size
    }

    /** A write inside a live chunk is an event of the run, and what it does. */
    lemma WriteInside(offset: nat, src: seq<Byte>, io: Io)
      requires InChunk(offset, |src|) && src != []
      ensures chunk.Some? && writer.Valid() && writer.used < TWO32
      ensures var e, at := CopyInto(chunk.value, offset, src, io), (position + offset) % TWO32;
              && Legal(writer.Now(), e) && Writes(writer.Now(), e, at, src, io)
              && WroteInto(writer.Now(), Next(writer.Now(), writer.page, e), chunk.value, offset, src, io,
                           MinidumpFile.Copy(writer.State(), at, src, io).1)
    {
      writer.Invariant();
      hide MinidumpFile.Copy, Reaches, Inv, Spares, HoldsAt;
      CopyIntoKeeps(writer.Now(), writer.page, chunk.value, offset, src, io);
    }
  }

  /** `src` was written `offset` bytes into chunk `c`: it is there if the write succeeded, which is when seek
      and write did, and no other live chunk changed. */
  ghost predicate WroteInto(s: Session, t: Session, c: nat, offset: nat, src: seq<Byte>, io: Io, ok: bool) {
    && t.chunks == s.chunks && t.used == s.used
    && Spares(s, Some(c), t.w.file)
    && (ok <==> io.seekOk && io.accepted == |src|)
    && (ok ==> HoldsAt(t, c, offset, src))
  }

  datatype AllocationState = UNALLOCATED | SINGLE_OBJECT | ARRAY | SINGLE_OBJECT_WITH_ARRAY

  /** TypedMDRVA<MDType>: `itemSize` is minidump_size<MDType>::size(), `mem` the base class part and
      `data` the object that get() gives access to. */
  class TypedMDRVA {
    const mem: UntypedMDRVA
    const itemSize: nat
    var data: seq<Byte>
    var state: AllocationState

    ghost predicate Valid()
      reads this, mem
    {
      && 0 < itemSize == |data|
      && (state == UNALLOCATED <==> mem.chunk.None?)
      && (state in {SINGLE_OBJECT, SINGLE_OBJECT_WITH_ARRAY} ==> itemSize <= mem.size)
    }

    constructor (writer: MinidumpFileWriter, zeros: seq<Byte>)
      requires zeros != []
      ensures Valid() && state == UNALLOCATED && data == zeros && itemSize == |zeros|
      ensures fresh(mem) && mem.writer == writer && mem.Location() == Chunk(writer.position, 0)
    {
      itemSize := |zeros|;
      data := zeros;
      state := UNALLOCATED;
      mem := new UntypedMDRVA(writer);
    }

    method AllocateWith(additional: nat, grows: bool) returns (ok: bool)
      requires Valid() && mem.writer.fileIsOpen && mem.size == 0
      modifies this, mem, mem.writer
      ensures Valid() && state == SINGLE_OBJECT && data == old(data)
      ensures (mem.writer.State(), mem.position)
           == MinidumpFile.Allocate(old(mem.writer.State()), mem.writer.page, itemSize + additional, grows)
      ensures mem.size == itemSize + additional && ok == mem.Location().Live()
      ensures mem.Held() && mem.writer.Took(AllocateChunk(itemSize + additional, grows))
    {
      hide MinidumpFile.Allocate, Reaches;
      state := SINGLE_OBJECT;
      ok := mem.Allocate(itemSize + additional, grows);
    }

    method AllocateArray(count: nat, grows: bool) returns (ok: bool)
      requires Valid() && mem.writer.fileIsOpen && mem.size == 0 && count > 0
      modifies this, mem, mem.writer
      ensures Valid() && state == ARRAY && data == old(data)
      ensures itemSize * count > 0
      ensures (mem.writer.State(), mem.position)
           == MinidumpFile.Allocate(old(mem.writer.State()), mem.writer.page, itemSize * count, grows)
      ensures mem.size == itemSize * count && ok == mem.Location().Live()
      ensures mem.Held() && mem.writer.Took(AllocateChunk(itemSize * count, grows))
    {
      hide MinidumpFile.Allocate, Reaches;
      state := ARRAY;
      Positive(itemSize, count);
      ok := mem.Allocate(itemSize * count, grows);
    }

    method AllocateObjectAndArray(count: nat, length: nat, grows: bool) returns (ok: bool)
      requires Valid() && mem.writer.fileIsOpen && mem.size == 0 && count > 0 && length > 0
      modifies this, mem, mem.writer
      ensures Valid() && state == SINGLE_OBJECT_WITH_ARRAY && data == old(data)
      ensures (mem.writer.State(), mem.position)
           == MinidumpFile.Allocate(old(mem.writer.State()), mem.writer.page, itemSize + count * length, grows)
      ensures mem.size == itemSize + count * length && ok == mem.Location().Live()
      ensures mem.Held() && mem.writer.Took(AllocateChunk(itemSize + count * length, grows))
    {
      hide MinidumpFile.Allocate, Reaches;
      state := SINGLE_OBJECT_WITH_ARRAY;
      Positive(count, length);
      ok := mem.Allocate(itemSize + count * length, grows);
    }

    /** With the index in range, the item is at its place in this object's chunk, if the write succeeds, and
        no other live chunk changes. */
    method CopyIndex(index: nat, item: seq<Byte>, io: Io) returns (ok: bool)
      requires Valid() && mem.writer.fileIsOpen && state == ARRAY && |item| == itemSize
      modifies mem.writer
      ensures (mem.writer.State(), ok)
           == MinidumpFile.Copy(old(mem.writer.State()), (mem.position + index * itemSize) % TWO32, item, io)
      ensures old(mem.InChunk(index * itemSize, itemSize)) ==>
                && mem.writer.Valid()
                && WroteInto(old(mem.writer.Now()), mem.writer.Now(), mem.chunk.value, index * itemSize, item, io, ok)
    {
      hide MinidumpFile.Copy, Next, Legal, Writes, WroteInto, Reaches, Inv, UntypedMDRVA.InChunk,
          MinidumpFileWriter.Valid;
      ghost var event := None;
      if mem.InChunk(index * itemSize, itemSize) {
        mem.WriteInside(index * itemSize, item, io);
        event := Some(CopyInto(mem.chunk.value, index * itemSize, item, io));
      }
      ok := mem.writer.Copy((mem.position + index * itemSize) % TWO32, item, io, event);
    }

    /** The same behind the object: element `index` of the array that follows it. */
    method CopyIndexAfterObject(index: nat, src: seq<Byte>, io: Io) returns (ok: bool)
      requires Valid() && mem.writer.fileIsOpen && state == SINGLE_OBJECT_WITH_ARRAY && src != []
      modifies mem.writer
      ensures (mem.writer.State(), ok)
           == MinidumpFile.Copy(old(mem.writer.State()), (mem.position + itemSize + index * |src|) % TWO32, src, io)
      ensures old(mem.InChunk(itemSize + index * |src|, |src|)) ==>
                && mem.writer.Valid()
                && WroteInto(old(mem.writer.Now()), mem.writer.Now(), mem.chunk.value, itemSize + index * |src|, src,
                             io, ok)
    {
      hide MinidumpFile.Copy, Next, Legal, Writes, WroteInto, Reaches, Inv, UntypedMDRVA.InChunk,
          MinidumpFileWriter.Valid;
      ghost var event := None;
      var offset := itemSize + index * |src|;
      if mem.InChunk(offset, |src|) {
        mem.WriteInside(offset, src, io);
        event := Some(CopyInto(mem.chunk.value, offset, src, io));
      }
      assert mem.position + offset == mem.position + itemSize + index * |src|;
      ok := mem.writer.Copy((mem.position + offset) % TWO32, src, io, event);
    }

    /** Writes the object at the start of its chunk; after a failed allocation, no live chunk changes. */
    method Flush(io: Io) returns (ok: bool)
      requires Valid() && mem.writer.fileIsOpen
      modifies mem.writer
      ensures (mem.writer.State(), ok) == MinidumpFile.Copy(old(mem.writer.State()), mem.position, data, io)
      ensures old(mem.InChunk(0, itemSize)) ==>
                && mem.writer.Valid()
                && WroteInto(old(mem.writer.Now()), mem.writer.Now(), mem.chunk.value, 0, data, io, ok)
      ensures old(FailedHere()) ==> mem.writer.Valid() && Spares(old(mem.writer.Now()), None, mem.writer.file)
    {
      ghost var event := None;
      if mem.InChunk(0, itemSize) {
        Small(mem.position, TWO32);
        mem.WriteInside(0, data, io);
        event := Some(CopyInto(mem.chunk.value, 0, data, io));
      } else if FailedHere() {
        FlushSpares(io);
        event := Some(FlushFailed(mem.chunk.value, data, io));
      }
      hide *;
      ok := mem.writer.Copy(mem.position, data, io, event);
    }

    /** This object's allocation has failed. */
    ghost predicate FailedHere()
      reads this, mem, mem.writer
    {
      mem.writer.Valid() && mem.Held() && !mem.Location().Live() && itemSize <= mem.size
    }

    lemma FlushSpares(io: Io)
      requires Valid() && FailedHere()
      ensures var e := FlushFailed(mem.chunk.value, data, io);
              && Legal(mem.writer.Now(), e) && Writes(mem.writer.Now(), e, mem.position, data, io)
              && Spares(mem.writer.Now(), None, Next(mem.writer.Now(), mem.writer.page, e).w.file)
    {
      mem.writer.Invariant();
      hide MinidumpFile.Copy, Reaches, Inv, Spares;
      FlushFailedKeeps(mem.writer.Now(), mem.writer.page, mem.chunk.value, data, io);
    }

    /** ~TypedMDRVA.  Once the object was allocated, it spares the chunks of all other objects, and leaves the
        object in its own chunk when the write succeeds; `DestructorExactly` says what is left. */
    method Destroy(io: Io)
      requires Valid() && mem.writer.fileIsOpen
      modifies mem.writer
      ensures mem.writer.State() == Destroyed(old(mem.writer.State()), state, mem.position, data, io)
      ensures state != UNALLOCATED && old(mem.writer.Valid()) && old(mem.Held()) ==>
                mem.writer.Valid() && Spares(old(mem.writer.Now()), mem.chunk, mem.writer.file)
      ensures state !in {UNALLOCATED, ARRAY} && old(mem.InChunk(0, itemSize)) ==>
                io.seekOk && io.accepted == itemSize ==> HoldsAt(mem.writer.Now(), mem.chunk.value, 0, data)
    {
      if state != ARRAY {
        var _ := Flush(io);
      } else if mem.writer.Valid() {
        mem.writer.Invariant();
        SparesAll(mem.writer.Now(), mem.writer.page, mem.chunk, mem.writer.file);
      }
    }
  }

  /** What ~TypedMDRVA makes of the writer. */
  ghost function Destroyed(w: Writer, state: AllocationState, position: MDRVA, data: seq<Byte>, io: Io): Writer
    requires w.open && data != []
  {
    if state == ARRAY then w else MinidumpFile.Copy(w, position, data, io).0
  }

  /** Which chunk a TypedMDRVA that was constructed in session `s` is in session `t`, as its state says. */
  ghost predicate Owns(s: Session, t: Session, state: AllocationState, chunk: Option<nat>, position: MDRVA, n: nat) {
    if state == UNALLOCATED then chunk.None? && position == s.w.position
    else
      && chunk.Some? && chunk.value < |t.chunks| && t.chunks[chunk.value].position == position
      && (state == ARRAY || n <= t.chunks[chunk.value].size)
  }

  /** The destructor spares every live chunk but its own, whatever the object holds and whatever the system
      does, exactly when the object was allocated (successfully, unsuccessfully or as an array), or nothing
      was allocated since it was constructed, or its flush would end behind the file. */
  lemma DestructorExactly(s: Session, page: nat, events: seq<Event>, t: Session, state: AllocationState,
                          chunk: Option<nat>, position: MDRVA, n: nat)
    requires IsPage(page) && Inv(s, page) && Reaches(s, page, events, t) && t.used < TWO32
    requires 0 < n < TWO63 && Owns(s, t, state, chunk, position, n)
    ensures t.w.open
    ensures (forall data: seq<Byte>, io :: |data| == n ==>
               Spares(t, chunk, Destroyed(t.w, state, position, data, io).file))
        <==> state != UNALLOCATED || t.w.position == position || position + n > t.w.size
  {
    hide MinidumpFile.Copy, Reaches, Spares, Inv;
    ReachesInv(s, page, events, t);
    StillOpen(t, page);
    if state == UNALLOCATED {
      UnallocatedFlushExactly(s, page, events, t, n);
      forall data: seq<Byte>, io | |data| == n
        ensures Destroyed(t.w, state, position, data, io) == MinidumpFile.Copy(t.w, s.w.position, data, io).0
      {
      }
    } else {
      forall data: seq<Byte>, io | |data| == n
        ensures Spares(t, chunk, Destroyed(t.w, state, position, data, io).file)
      {
        AllocatedSpares(t, page, state, chunk.value, data, io);
      }
    }
  }

  lemma StillOpen(t: Session, page: nat)
    requires Inv(t, page)
    ensures t.w.open
  {
  }

  lemma AllocatedSpares(t: Session, page: nat, state: AllocationState, c: nat, data: seq<Byte>, io: Io)
    requires IsPage(page) && Inv(t, page) && t.w.open && data != [] && state != UNALLOCATED && c < |t.chunks|
    requires state == ARRAY || |data| <= t.chunks[c].size
    ensures Spares(t, Some(c), Destroyed(t.w, state, t.chunks[c].position, data, io).file)
  {
    hide MinidumpFile.Copy, Inv, Keeps;
    if state == ARRAY {
      SameSpares(t, page, Some(c));
    } else if t.chunks[c].Live() {
      Small(t.chunks[c].position, TWO32);
      CopyIntoKeeps(t, page, c, 0, data, io);
    } else {
      FlushFailedKeeps(t, page, c, data, io);
    }
  }

  lemma SameSpares(t: Session, page: nat, own: Option<nat>)
    requires Inv(t, page)
    ensures Spares(t, own, t.w.file)
  {
    SparesAll(t, page, own, t.w.file);
  }

  lemma Positive(x: nat, y: nat)
    requires x > 0 && y > 0
    ensures x * y > 0
  {
  }

  /** The writes of a TypedMDRVA stay inside its chunk when the index is in range: each is a legal
      CopyInto event on the chunk. */
  lemma TypedWritesAreLegal(s: Session, c: nat, itemSize: nat, count: nat, length: nat, index: nat,
                            item: seq<Byte>, src: seq<Byte>, io: Io)
    requires s.w.open && c < |s.chunks| && s.chunks[c].Live()
    requires |item| == itemSize > 0 && |src| == length > 0 && index < count
    ensures s.chunks[c].size >= itemSize ==> Legal(s, CopyInto(c, 0, item, io))
    ensures s.chunks[c].size == itemSize * count ==> Legal(s, CopyInto(c, index * itemSize, item, io))
    ensures s.chunks[c].size == itemSize + count * length ==>
              Legal(s, CopyInto(c, itemSize + index * length, src, io))
  {
    InRange(index, count, itemSize);
    InRange(index, count, length);
  }

  lemma InRange(index: nat, count: nat, size: nat)
    requires index < count
    ensures index * size + size <= count * size == size * count
  {
    assert (index + 1) * size <= count * size;
  }
}
