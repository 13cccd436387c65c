/**
 The minidump file writer of breakpad as a transition system: a bump allocator over a growing file.

 A file is its bytes.  What the operating system decides is a parameter of each step: whether
 ftruncate succeeds, whether a seek succeeds, how many bytes a write accepts.  MDRVA arithmetic is
 modulo 2^32 and size_t arithmetic modulo 2^64.
 */
module MinidumpFile {
  import opened Basics

  const TWO32: nat := 0x1_0000_0000
  const TWO63: nat := 0x8000_0000_0000_0000
  const TWO64: nat := 0x1_0000_0000_0000_0000

  type MDRVA = r: nat | r < TWO32

  const INVALID: MDRVA := TWO32 - 1

  /** The members of MinidumpFileWriter, and the contents of its file. */
  datatype Writer = Writer(open: bool, position: MDRVA, size: nat, file: seq<Byte>)

  /** What lseek and write do: whether the seek succeeds, and how many bytes are accepted. */
  datatype Io = Io(seekOk: bool, accepted: nat)

  /** ftruncate: cut, or extend with zeros. */
  function Truncate(file: seq<Byte>, n: nat): (r: seq<Byte>)
    ensures |r| == n
    ensures forall i :: 0 <= i < n && i < |file| ==> r[i] == file[i]
    ensures forall i :: |file| <= i < n ==> r[i] == 0
  {
    if n <= |file| then file[..n] else file + seq(n - |file|, _ => 0)
  }

  /** lseek and write: bytes past the end extend the file, a gap reads as zeros. */
  function WriteAt(file: seq<Byte>, at: nat, data: seq<Byte>): (r: seq<Byte>)
    ensures at + |data| <= |file| ==> |r| == |file|
    ensures at + |data| <= |file| ==> r[at..at + |data|] == data
    ensures at + |data| <= |file| ==> forall i :: 0 <= i < |r| && !(at <= i < at + |data|) ==> r[i] == file[i]
  {
    var base := if at <= |file| then file else Truncate(file, at);
    base[..at] + data + (if at + |data| <= |base| then base[at + |data|..] else [])
  }

  /** (size + 7) & ~7 */
  function Aligned(size: nat): nat { (size + 7) % TWO64 / 8 * 8 }

  /** MinidumpFileWriter::Allocate; `grows` is whether ftruncate succeeds, if it is called. */
  function Allocate(w: Writer, page: nat, size: nat, grows: bool): (r: (Writer, MDRVA))
    requires w.open && size > 0
    ensures r.0.open && (r.1 != INVALID ==> r.1 == w.position)
  {
    var aligned := Aligned(size);
    if (w.position + aligned) % TWO64 > w.size then
      var growth := if aligned < page then page else aligned;
      var newSize := (w.size + growth) % TWO64;
      if !grows then (w, INVALID)
      else
        (w.(position := (w.position + aligned) % TWO32, size := newSize, file := Truncate(w.file, newSize)),
         w.position)
    else
      (w.(position := (w.position + aligned) % TWO32), w.position)
  }

  /** MinidumpFileWriter::Copy. */
  function Copy(w: Writer, position: MDRVA, src: seq<Byte>, io: Io): (Writer, bool)
    requires w.open && src != []
  {
    if (|src| + position) % TWO64 > w.size then (w, false)
    else if !io.seekOk then (w, false)
    else
      var n := if io.accepted < |src| then io.accepted else |src|;
      (w.(file := WriteAt(w.file, position, src[..n])), io.accepted == |src|)
  }

  /** MinidumpFileWriter::Close; `cut` and `closed` are whether ftruncate and close succeed. */
  function Close(w: Writer, cut: bool, closed: bool): (Writer, bool) {
    if !w.open then (w, true)
    else if !cut then (w, false)
    else (w.(open := false, file := Truncate(w.file, w.position)), closed)
  }

  // ---------- Runs ----------

  /** An UntypedMDRVA on which Allocate was called: position() and size(). */
  datatype Chunk = Chunk(position: MDRVA, size: nat) {
    predicate Live() { position != INVALID }

    /** The bytes reserved for this chunk end here. */
    function End(): nat { position + Aligned(size) }
  }

  /** FlushFailed is what the destructor of a TypedMDRVA does after its allocation has failed: it writes the
      object at kInvalidMDRVA. */
  datatype Event =
    | AllocateChunk(size: nat, grows: bool)
    | CopyInto(chunk: nat, offset: nat, src: seq<Byte>, io: Io)
    | FlushFailed(chunk: nat, item: seq<Byte>, io: Io)

  /** A writer in use.  `used` is the sum of the aligned sizes of the successful allocations, as an
      unbounded number. */
  datatype Session = Session(w: Writer, chunks: seq<Chunk>, used: nat)

  /** A writer just given a file, which need not be empty: SetFile takes any descriptor. */
  function Opened(file: seq<Byte>): Session { Session(Writer(true, 0, 0, file), [], 0) }

  /** What the code asks of its callers: sizes are positive, and a chunk is written only inside its bounds.
      Only the flush of a destructor writes through a chunk whose allocation has failed. */
  predicate Legal(s: Session, e: Event) {
    && s.w.open
    && match e
       case AllocateChunk(size, _) => 0 < size < TWO63
       case CopyInto(c, offset, src, _) =>
         c < |s.chunks| && s.chunks[c].Live() && src != [] && offset + |src| <= s.chunks[c].size
       case FlushFailed(c, item, _) =>
         c < |s.chunks| && !s.chunks[c].Live() && item != [] && |item| <= s.chunks[c].size
  }

  function Next(s: Session, page: nat, e: Event): Session
    requires Legal(s, e)
  {
    match e
    case AllocateChunk(size, grows) =>
      var (w, position) := Allocate(s.w, page, size, grows);
      Session(w, s.chunks + [Chunk(position, size)], s.used + if position == INVALID then 0 else Aligned(size))
    case CopyInto(c, offset, src, io) =>
      s.(w := Copy(s.w, (s.chunks[c].position + offset) % TWO32, src, io).0)
    case FlushFailed(c, item, io) =>
      s.(w := Copy(s.w, s.chunks[c].position, item, io).0)
  }

  /** `s` becomes `t` by legal events, `events` in order. */
  ghost predicate Reaches(s: Session, page: nat, events: seq<Event>, t: Session)
    decreases |events|
  {
    if events == [] then s == t
    else Legal(s, events[0]) && Reaches(Next(s, page, events[0]), page, events[1..], t)
  }

  /** getpagesize() returns a positive int. */
  predicate IsPage(page: nat) { 0 < page < 0x8000_0000 }

  /** What holds of every session that has used less than 2^32 bytes. */
  ghost predicate Inv(s: Session, page: nat) {
    && s.w.open
    && s.w.position == s.used < TWO32 && s.used % 8 == 0
    && 0 <= s.w.size - s.w.position < page
    && (s.w.size == 0 || |s.w.file| == s.w.size)
    && (forall i :: 0 <= i < |s.chunks| ==> 0 < s.chunks[i].size < TWO63)
    && (forall i :: 0 <= i < |s.chunks| && s.chunks[i].Live() ==>
          s.chunks[i].position % 8 == 0 && s.chunks[i].End() <= s.w.position)
    && (forall i, j :: 0 <= i < j < |s.chunks| && s.chunks[i].Live() && s.chunks[j].Live() ==>
          s.chunks[i].End() <= s.chunks[j].position)
  }

  lemma AlignedBounds(size: nat)
    requires size < TWO63
    ensures size <= Aligned(size) < size + 8 && Aligned(size) % 8 == 0
  {
  }

  lemma UsedGrows(s: Session, page: nat, e: Event)
    requires Legal(s, e)
    ensures s.used <= Next(s, page, e).used
  {
  }

  /** A successful allocation is never taken for a failed one: its position is a multiple of 8. */
  lemma AllocateStep(s: Session, page: nat, size: nat, grows: bool)
    requires IsPage(page) && Inv(s, page) && Legal(s, AllocateChunk(size, grows))
    requires Next(s, page, AllocateChunk(size, grows)).used < TWO32
    ensures var (w, p) := Allocate(s.w, page, size, grows);
            && w.open && (p == INVALID ==> w == s.w)
            && (p != INVALID ==> p == s.used && w.position == s.used + Aligned(size) < TWO32
                                 && 0 <= w.size - w.position < page && |w.file| == w.size >= s.w.size
                                 && (s.w.size > 0 ==> w.file[..s.w.size] == s.w.file))
  {
    hide Aligned, Truncate;
    AlignedBounds(size);
    assert s.used != INVALID;
    Small(s.used + Aligned(size), TWO64);
    var growth := if Aligned(size) < page then page else Aligned(size);
    Small(s.w.size + growth, TWO64);
    if s.used + Aligned(size) < TWO32 { Small(s.used + Aligned(size), TWO32); }
    if s.w.size > 0 {
      var w := Allocate(s.w, page, size, grows).0;
      assert |w.file| >= s.w.size && forall i :: 0 <= i < s.w.size ==> w.file[i] == s.w.file[i];
    }
  }

  /** When an allocation fails, and how the file grows: it fails exactly when the aligned bytes do not fit in
      the size so far and ftruncate fails.  The size stays when they fit, and otherwise grows by a page or by
      the aligned bytes, whichever is more. */
  lemma AllocateExactly(s: Session, page: nat, size: nat, grows: bool)
    requires IsPage(page) && Inv(s, page) && Legal(s, AllocateChunk(size, grows))
    requires s.used + Aligned(size) < TWO32
    ensures var (w, p) := Allocate(s.w, page, size, grows);
            var n := Aligned(size);
            && p == (if s.used + n > s.w.size && !grows then INVALID else s.w.position)
            && w.position == (if p == INVALID then s.w.position else s.w.position + n)
            && w.size == (if s.used + n <= s.w.size || !grows then s.w.size
                          else if n < page then s.w.size + page else s.w.size + n)
            && w.file == (if s.used + n <= s.w.size || !grows then s.w.file else Truncate(s.w.file, w.size))
  {
    hide Aligned, Truncate;
    AlignedBounds(size);
    assert s.used != INVALID;
    Small(s.used + Aligned(size), TWO64);
    Small(s.used + Aligned(size), TWO32);
    var growth := if Aligned(size) < page then page else Aligned(size);
    Small(s.w.size + growth, TWO64);
  }

  /** A write inside the file changes bytes there and nothing else. */
  lemma CopyInBounds(w: Writer, at: MDRVA, src: seq<Byte>, io: Io)
    requires w.open && src != [] && at + |src| <= w.size == |w.file| && |src| < TWO63
    ensures var (v, ok) := Copy(w, at, src, io);
            && v == w.(file := v.file) && |v.file| == |w.file|
            && (forall i :: 0 <= i < |v.file| && !(at <= i < at + |src|) ==> v.file[i] == w.file[i])
            && (ok ==> v.file[at..at + |src|] == src)
            && (ok <==> io.seekOk && io.accepted == |src|)
  {
    hide WriteAt;
    Small(|src| + at, TWO64);
    assert src[..|src|] == src;
  }

  lemma Small(x: nat, m: nat)
    requires x < m
    ensures x % m == x
  {
  }

  /** A write inside a live chunk stays inside it, and its position does not wrap. */
  lemma CopyStep(s: Session, page: nat, c: nat, offset: nat, src: seq<Byte>, io: Io)
    requires IsPage(page) && Inv(s, page) && Legal(s, CopyInto(c, offset, src, io))
    ensures var at := s.chunks[c].position + offset;
            && at + |src| <= s.chunks[c].End() <= |s.w.file| == s.w.size && at < TWO32 && at % TWO32 == at
            && |src| < TWO63
  {
    hide Aligned;
    AlignedBounds(s.chunks[c].size);
    Small(s.chunks[c].position + offset, TWO32);
  }

  /** A write at kInvalidMDRVA lies behind everything that was handed out, so it can only change slack. */
  lemma FlushStep(s: Session, page: nat, item: seq<Byte>, io: Io)
    requires Inv(s, page) && item != [] && |item| < TWO63
    ensures var (v, ok) := Copy(s.w, INVALID, item, io);
            && v == s.w.(file := v.file) && |v.file| == |s.w.file|
            && (forall i :: 0 <= i < s.w.position && i < |s.w.file| ==> v.file[i] == s.w.file[i])
            && (ok <==> INVALID + |item| <= s.w.size && io.seekOk && io.accepted == |item|)
            && (INVALID + |item| > s.w.size ==> v == s.w)
  {
    hide WriteAt;
    Small(|item| + INVALID, TWO64);
    if INVALID + |item| <= s.w.size {
      CopyInBounds(s.w, INVALID, item, io);
    }
  }

  lemma InvStep(s: Session, page: nat, e: Event)
    requires IsPage(page) && Inv(s, page) && Legal(s, e) && Next(s, page, e).used < TWO32
    ensures Inv(Next(s, page, e), page)
  {
    hide Aligned, Allocate, Copy, WriteAt, Truncate;
    match e
    case AllocateChunk(size, grows) =>
      AllocateStep(s, page, size, grows);
      AlignedBounds(size);
    case CopyInto(c, offset, src, io) =>
      CopyStep(s, page, c, offset, src, io);
      CopyInBounds(s.w, s.chunks[c].position + offset, src, io);
    case FlushFailed(c, item, io) =>
      FlushStep(s, page, item, io);
  }

  lemma {:induction false} ReachesThen(s: Session, page: nat, events: seq<Event>, t: Session, e: Event)
    requires Reaches(s, page, events, t) && Legal(t, e)
    ensures Reaches(s, page, events + [e], Next(t, page, e))
    decreases |events|
  {
    hide Legal, Next;
    if events == [] {
      assert (events + [e])[1..] == [];
    } else {
      assert (events + [e])[1..] == events[1..] + [e];
      ReachesThen(Next(s, page, events[0]), page, events[1..], t, e);
    }
  }

  lemma {:induction false} ReachesUsed(s: Session, page: nat, events: seq<Event>, t: Session)
    requires Reaches(s, page, events, t)
    ensures s.used <= t.used
    decreases |events|
  {
    if events != [] {
      UsedGrows(s, page, events[0]);
      ReachesUsed(Next(s, page, events[0]), page, events[1..], t);
    }
  }

  lemma {:induction false} ReachesInv(s: Session, page: nat, events: seq<Event>, t: Session)
    requires IsPage(page) && Inv(s, page) && Reaches(s, page, events, t) && t.used < TWO32
    ensures Inv(t, page)
    decreases |events|
  {
    if events != [] {
      var next := Next(s, page, events[0]);
      ReachesUsed(next, page, events[1..], t);
      InvStep(s, page, events[0]);
      ReachesInv(next, page, events[1..], t);
    }
  }

  /** After any run of successful and failed allocations, of writes, and of the flushes that follow failed
      allocations, that uses less than 2^32 bytes: live chunks are 8-aligned, inside the allocated part of the
      file and pairwise disjoint, and every byte of them is in the file. */
  lemma LiveChunksDisjoint(file: seq<Byte>, page: nat, events: seq<Event>, t: Session)
    requires IsPage(page) && Reaches(Opened(file), page, events, t) && t.used < TWO32
    ensures forall i :: 0 <= i < |t.chunks| && t.chunks[i].Live() ==>
              && t.chunks[i].position % 8 == 0
              && t.chunks[i].position + t.chunks[i].size <= t.w.position <= |t.w.file|
    ensures forall i, j :: 0 <= i < j < |t.chunks| && t.chunks[i].Live() && t.chunks[j].Live() ==>
              t.chunks[i].position + t.chunks[i].size <= t.chunks[j].position
  {
    ReachesInv(Opened(file), page, events, t);
    forall i | 0 <= i < |t.chunks| && t.chunks[i].Live() ensures t.chunks[i].size <= Aligned(t.chunks[i].size) {
      AlignedBounds(t.chunks[i].size);
    }
  }

  /** However requests were mixed, the file is never a whole page longer than what was handed out. */
  lemma SlackBelowPage(file: seq<Byte>, page: nat, events: seq<Event>, t: Session)
    requires IsPage(page) && Reaches(Opened(file), page, events, t) && t.used < TWO32
    ensures t.w.position <= t.w.size < t.w.position + page
  {
    ReachesInv(Opened(file), page, events, t);
  }

  // ---------- Which writes spare the other chunks ----------

  /** The bytes of a live chunk in some later file are those it has now. */
  ghost predicate Keeps(s: Session, c: nat, file: seq<Byte>)
    requires c < |s.chunks|
  {
    && s.chunks[c].End() <= |s.w.file| && s.chunks[c].End() <= |file|
    && forall i :: s.chunks[c].position <= i < s.chunks[c].End() ==> file[i] == s.w.file[i]
  }

  /** Every live chunk but possibly `own` keeps its bytes. */
  ghost predicate Spares(s: Session, own: Option<nat>, file: seq<Byte>) {
    forall d :: 0 <= d < |s.chunks| && s.chunks[d].Live() && own != Some(d) ==> Keeps(s, d, file)
  }

  /** `src` is in the chunk, `offset` bytes behind its start. */
  ghost predicate HoldsAt(s: Session, c: nat, offset: nat, src: seq<Byte>) {
    && c < |s.chunks| && s.chunks[c].Live()
    && var at := s.chunks[c].position + offset;
       at + |src| <= |s.w.file| && s.w.file[at..at + |src|] == src
  }

  /** A write that does not reach a byte below `limit`, in a file that has them all. */
  lemma SparesAll(s: Session, page: nat, own: Option<nat>, file: seq<Byte>)
    requires Inv(s, page) && |file| >= |s.w.file|
    requires forall i :: 0 <= i < s.w.position && i < |s.w.file| ==> file[i] == s.w.file[i]
    ensures Spares(s, own, file)
  {
    hide Aligned;
    forall d | 0 <= d < |s.chunks| && s.chunks[d].Live() && own != Some(d)
      ensures Keeps(s, d, file)
    {
      AlignedBounds(s.chunks[d].size);
    }
  }

  /** A write inside a chunk spares all the others, and holds when it succeeds. */
  lemma CopyIntoKeeps(s: Session, page: nat, c: nat, offset: nat, src: seq<Byte>, io: Io)
    requires IsPage(page) && Inv(s, page) && Legal(s, CopyInto(c, offset, src, io))
    ensures var t := Next(s, page, CopyInto(c, offset, src, io));
            && t.chunks == s.chunks && Spares(s, Some(c), t.w.file)
            && (Copy(s.w, (s.chunks[c].position + offset) % TWO32, src, io).1 ==> HoldsAt(t, c, offset, src))
            && (Copy(s.w, (s.chunks[c].position + offset) % TWO32, src, io).1
                <==> io.seekOk && io.accepted == |src|)
  {
    hide Aligned, Allocate, Copy, Truncate, WriteAt;
    CopyStep(s, page, c, offset, src, io);
    CopyInBounds(s.w, s.chunks[c].position + offset, src, io);
    var t := Next(s, page, CopyInto(c, offset, src, io));
    forall d | 0 <= d < |s.chunks| && s.chunks[d].Live() && Some(c) != Some(d)
      ensures Keeps(s, d, t.w.file)
    {
      AlignedBounds(s.chunks[d].size);
      assert c < d ==> s.chunks[c].End() <= s.chunks[d].position;
      assert d < c ==> s.chunks[d].End() <= s.chunks[c].position;
    }
  }

  /** The flush after a failed allocation spares every chunk. */
  lemma FlushFailedKeeps(s: Session, page: nat, c: nat, item: seq<Byte>, io: Io)
    requires IsPage(page) && Inv(s, page) && Legal(s, FlushFailed(c, item, io))
    ensures Spares(s, None, Next(s, page, FlushFailed(c, item, io)).w.file)
  {
    hide Copy;
    FlushStep(s, page, item, io);
    SparesAll(s, page, None, Next(s, page, FlushFailed(c, item, io)).w.file);
  }

  /** An allocation spares every chunk, whether it succeeds or not. */
  lemma AllocateKeeps(s: Session, page: nat, size: nat, grows: bool)
    requires IsPage(page) && Inv(s, page) && Legal(s, AllocateChunk(size, grows))
    requires Next(s, page, AllocateChunk(size, grows)).used < TWO32
    ensures Spares(s, None, Next(s, page, AllocateChunk(size, grows)).w.file)
  {
    hide Allocate, Aligned;
    AllocateStep(s, page, size, grows);
    var w := Allocate(s.w, page, size, grows).0;
    assert s.w.size > 0 && w != s.w ==> forall i :: 0 <= i < s.w.size ==> w.file[i] == w.file[..s.w.size][i];
    if s.w.size > 0 {
      SparesAll(s, page, None, w.file);
    } else {
      NoneLive(s, page);
    }
  }

  lemma NoneLive(s: Session, page: nat)
    requires Inv(s, page) && s.w.size == 0
    ensures forall d :: 0 <= d < |s.chunks| ==> !s.chunks[d].Live()
  {
    forall d | 0 <= d < |s.chunks|
      ensures !s.chunks[d].Live()
    {
      AlignedBounds(s.chunks[d].size);
    }
  }

  // ---------- What runs keep ----------

  /** An event that does not write through chunk `c` leaves its bytes as they were. */
  lemma OtherEventsKeep(s: Session, page: nat, e: Event, c: nat)
    requires IsPage(page) && Inv(s, page) && Legal(s, e) && Next(s, page, e).used < TWO32
    requires c < |s.chunks| && s.chunks[c].Live() && !(e.CopyInto? && e.chunk == c)
    ensures var t := Next(s, page, e);
            && Inv(t, page) && c < |t.chunks| && t.chunks[c] == s.chunks[c]
            && Keeps(s, c, t.w.file)
  {
    hide Keeps, Inv, Allocate, Copy;
    InvStep(s, page, e);
    match e
    case AllocateChunk(size, grows) =>
      AllocateKeeps(s, page, size, grows);
    case CopyInto(d, offset, src, io) =>
      CopyIntoKeeps(s, page, d, offset, src, io);
    case FlushFailed(d, item, io) =>
      FlushFailedKeeps(s, page, d, item, io);
  }

  /** Bytes of chunk `c` survive any run of events that do not write through `c`. */
  lemma {:induction false} ChunkKept(s: Session, page: nat, events: seq<Event>, t: Session, c: nat)
    requires IsPage(page) && Inv(s, page) && Reaches(s, page, events, t) && t.used < TWO32
    requires c < |s.chunks| && s.chunks[c].Live()
    requires forall i :: 0 <= i < |events| ==> !(events[i].CopyInto? && events[i].chunk == c)
    ensures Inv(t, page) && c < |t.chunks| && t.chunks[c] == s.chunks[c]
    ensures Keeps(s, c, t.w.file)
    decreases |events|
  {
    if events == [] {
      AlignedBounds(s.chunks[c].size);
    } else {
      var next := Next(s, page, events[0]);
      ReachesUsed(next, page, events[1..], t);
      OtherEventsKeep(s, page, events[0], c);
      ChunkKept(next, page, events[1..], t, c);
    }
  }

  /** MinidumpFileWriter::WriteMemory: an allocation, and a copy of all of `src` into it.  The
      location it reports is the position of the new chunk and the length of `src`. */
  function WriteMemory(s: Session, page: nat, src: seq<Byte>, grows: bool, io: Io): (Session, bool)
    requires s.w.open && 0 < |src| < TWO63
  {
    var c := |s.chunks|;
    var reserved := Next(s, page, AllocateChunk(|src|, grows));
    if !reserved.chunks[c].Live() then (reserved, false)
    else
      (Next(reserved, page, CopyInto(c, 0, src, io)), Copy(reserved.w, reserved.chunks[c].position, src, io).1)
  }

  lemma Stored(s: Session, page: nat, src: seq<Byte>, grows: bool, io: Io)
    requires IsPage(page) && Inv(s, page) && 0 < |src| < TWO63
    requires WriteMemory(s, page, src, grows, io).1 && WriteMemory(s, page, src, grows, io).0.used < TWO32
    ensures var m, c := WriteMemory(s, page, src, grows, io).0, |s.chunks|;
            && Inv(m, page) && |m.chunks| == c + 1 && m.chunks[c] == Chunk(s.w.position, |src|) && m.chunks[c].Live()
            && m.chunks[c].position + |src| <= m.chunks[c].End() <= |m.w.file|
            && m.w.file[m.chunks[c].position..m.chunks[c].position + |src|] == src
  {
    hide Allocate, Copy, Aligned;
    var c := |s.chunks|;
    var reserved := Next(s, page, AllocateChunk(|src|, grows));
    InvStep(s, page, AllocateChunk(|src|, grows));
    CopyStep(reserved, page, c, 0, src, io);
    CopyInBounds(reserved.w, reserved.chunks[c].position, src, io);
    InvStep(reserved, page, CopyInto(c, 0, src, io));
    AlignedBounds(|src|);
  }

  /** WriteMemory succeeds exactly when the allocation does, and the seek and the whole write do. */
  lemma WriteMemoryExactly(s: Session, page: nat, src: seq<Byte>, grows: bool, io: Io)
    requires IsPage(page) && Inv(s, page) && 0 < |src| < TWO63 && s.used + Aligned(|src|) < TWO32
    ensures s.w.open
    ensures WriteMemory(s, page, src, grows, io).1
        <==> (s.used + Aligned(|src|) <= s.w.size || grows) && io.seekOk && io.accepted == |src|
  {
    var reserved := Next(s, page, AllocateChunk(|src|, grows));
    AllocateExactly(s, page, |src|, grows);
    assert s.used != INVALID;
    hide Allocate, Copy, Aligned;
    if reserved.chunks[|s.chunks|].Live() {
      InvStep(s, page, AllocateChunk(|src|, grows));
      CopyStep(reserved, page, |s.chunks|, 0, src, io);
      CopyInBounds(reserved.w, reserved.chunks[|s.chunks|].position, src, io);
    }
  }

  /** Close reports success exactly when there was nothing to close, or the cut and the close both succeed; a
      failed cut leaves the writer as it was, and anything else leaves it closed. */
  lemma CloseExactly(w: Writer, cut: bool, closed: bool)
    ensures var (v, ok) := Close(w, cut, closed);
            && (ok <==> !w.open || (cut && closed))
            && (v.open <==> w.open && !cut)
            && (!w.open || !cut ==> v == w)
            && (w.open && cut ==> |v.file| == w.position && v.position == w.position && v.size == w.size)
            && (w.open && cut && w.position <= |w.file| ==> v.file == w.file[..w.position])
  {
  }

  /** Bytes that WriteMemory stored are in the closed file, at the location it returned, whatever
      the writer was used for before and whatever other chunks it was used for afterwards. */
  lemma ReadBack(file: seq<Byte>, page: nat, before: seq<Event>, s: Session, src: seq<Byte>, grows: bool, io: Io,
                 after: seq<Event>, t: Session, closed: bool)
    requires IsPage(page) && Reaches(Opened(file), page, before, s)
    requires 0 < |src| < TWO63 && s.w.open && WriteMemory(s, page, src, grows, io).1
    requires Reaches(WriteMemory(s, page, src, grows, io).0, page, after, t) && t.used < TWO32
    requires forall i :: 0 <= i < |after| ==> !(after[i].CopyInto? && after[i].chunk == |s.chunks|)
    ensures var location := s.w.position;
            var (w, ok) := Close(t.w, true, closed);
            && location + |src| <= |w.file| == t.w.position
            && w.file[location..location + |src|] == src
  {
    hide Allocate, Copy, Aligned, WriteMemory, Reaches;
    var m, c := WriteMemory(s, page, src, grows, io).0, |s.chunks|;
    ReachesUsed(m, page, after, t);
    WriteMemoryUses(s, page, src, grows, io);
    ReachesInv(Opened(file), page, before, s);
    Stored(s, page, src, grows, io);
    ChunkKept(m, page, after, t, c);
    SameSlice(m.w.file, t.w.file, s.w.position, |src|);
    var w := Close(t.w, true, closed).0;
    SameSlice(t.w.file, w.file, s.w.position, |src|);
  }

  lemma WriteMemoryUses(s: Session, page: nat, src: seq<Byte>, grows: bool, io: Io)
    requires s.w.open && 0 < |src| < TWO63
    ensures s.used <= WriteMemory(s, page, src, grows, io).0.used
  {
  }

  lemma SameSlice(f: seq<Byte>, g: seq<Byte>, at: nat, n: nat)
    requires at + n <= |f| && at + n <= |g| && forall i :: at <= i < at + n ==> g[i] == f[i]
    ensures g[at..at + n] == f[at..at + n]
  {
  }

  // ---------- Where the callers' duties matter ----------

  /** The position is the number of bytes used only below 2^32; there it wraps, and at exactly 2^32 the next
      chunk is the first one again. */
  lemma WrappedPosition(s: Session, page: nat, size: nat, grows: bool)
    requires IsPage(page) && Inv(s, page) && Legal(s, AllocateChunk(size, grows))
    requires Allocate(s.w, page, size, grows).1 != INVALID
    ensures var t := Next(s, page, AllocateChunk(size, grows));
            && (t.w.position == t.used <==> t.used < TWO32)
            && (t.used == TWO32 ==> t.w.position == 0)
  {
    hide Aligned;
    AlignedBounds(size);
    Small(s.used + Aligned(size), TWO64);
    if s.used + Aligned(size) < TWO32 { Small(s.used + Aligned(size), TWO32); }
  }

  /** An element copied through a failed allocation: its position wraps around to just before index times
      the size, except at a multiple of 2^32, and the write is accepted exactly when it ends inside the
      file. */
  lemma FailedElementExactly(w: Writer, index: nat, item: seq<Byte>, io: Io)
    requires w.open && 0 < |item| < TWO63 && w.size == |w.file|
    ensures var k := index * |item| % TWO32;
            var at := (INVALID + index * |item|) % TWO32;
            var (v, ok) := Copy(w, at, item, io);
            && at == (if k == 0 then INVALID else k - 1)
            && (ok <==> at + |item| <= w.size && io.seekOk && io.accepted == |item|)
            && (ok ==> |v.file| == |w.file| && v.file[at..at + |item|] == item)
            && (at + |item| > w.size ==> v == w)
  {
    hide Copy;
    var at := (INVALID + index * |item|) % TWO32;
    Wraps(index * |item|);
    if at + |item| <= w.size {
      CopyInBounds(w, at, item, io);
    } else {
      Rejected(w, at, item, io);
    }
  }

  lemma Wraps(n: nat)
    ensures (INVALID + n) % TWO32 == if n % TWO32 == 0 then INVALID else n % TWO32 - 1
  {
  }

  lemma Rejected(w: Writer, at: MDRVA, item: seq<Byte>, io: Io)
    requires w.open && 0 < |item| < TWO63 && at + |item| > w.size
    ensures Copy(w, at, item, io) == (w, false)
  {
    Small(|item| + at, TWO64);
  }

  // ---------- The destructor of an object that was never allocated ----------

  lemma {:induction false} ChunksGrow(s: Session, page: nat, events: seq<Event>, t: Session)
    requires Reaches(s, page, events, t)
    ensures s.chunks <= t.chunks
    decreases |events|
  {
    if events != [] {
      ChunksGrow(Next(s, page, events[0]), page, events[1..], t);
    }
  }

  /** When anything was allocated since, a live chunk starts where the writer stood. */
  lemma {:induction false} NextChunkHere(s: Session, page: nat, events: seq<Event>, t: Session) returns (c: nat)
    requires IsPage(page) && Inv(s, page) && Reaches(s, page, events, t) && t.used < TWO32
    requires t.used != s.used
    ensures c < |t.chunks| && t.chunks[c].Live() && t.chunks[c].position == s.w.position
    decreases |events|
  {
    hide Aligned, Allocate, Copy;
    var next := Next(s, page, events[0]);
    ReachesUsed(next, page, events[1..], t);
    InvStep(s, page, events[0]);
    if next.used != s.used {
      assert events[0].AllocateChunk?;
      AllocateStep(s, page, events[0].size, events[0].grows);
      c := |s.chunks|;
      assert next.chunks[c].position == s.w.position;
      ChunksGrow(next, page, events[1..], t);
    } else {
      c := NextChunkHere(next, page, events[1..], t);
    }
  }

  /** ~TypedMDRVA flushes an object of `n` bytes that was constructed when the session was `s` and never
      allocated.  Whatever the bytes and whatever the system does, this spares every live chunk exactly when
      nothing was allocated since, or the flush would end behind the file and is rejected. */
  lemma UnallocatedFlushExactly(s: Session, page: nat, events: seq<Event>, t: Session, n: nat)
    requires IsPage(page) && Inv(s, page) && Reaches(s, page, events, t) && t.used < TWO32
    requires 0 < n < TWO63
    ensures t.w.open
    ensures (forall item: seq<Byte>, io :: |item| == n ==> Spares(t, None, Copy(t.w, s.w.position, item, io).0.file))
        <==> t.w.position == s.w.position || s.w.position + n > t.w.size
  {
    hide Copy, Reaches, Aligned, Spares;
    ReachesInv(s, page, events, t);
    var at := s.w.position;
    if at + n > t.w.size {
      forall item: seq<Byte>, io | |item| == n
        ensures Spares(t, None, Copy(t.w, at, item, io).0.file)
      {
        Rejected(t.w, at, item, io);
        SparesAll(t, page, None, t.w.file);
      }
    } else if t.w.position == at {
      forall item: seq<Byte>, io | |item| == n
        ensures Spares(t, None, Copy(t.w, at, item, io).0.file)
      {
        CopyInBounds(t.w, at, item, io);
        SparesAll(t, page, None, Copy(t.w, at, item, io).0.file);
      }
    } else {
      var c := NextChunkHere(s, page, events, t);
      var item := Filled(n, if t.w.file[at] == 0 then 1 else 0);
      CopyInBounds(t.w, at, item, Io(true, n));
      FirstByteChanged(t, c, item, Copy(t.w, at, item, Io(true, n)).0.file);
    }
  }

  function Filled(n: nat, b: Byte): seq<Byte> { seq(n, _ => b) }

  lemma FirstByteChanged(t: Session, c: nat, item: seq<Byte>, file: seq<Byte>)
    requires c < |t.chunks| && t.chunks[c].Live() && 0 < t.chunks[c].size < TWO63 && item != []
    requires t.chunks[c].position + |item| <= |file| == |t.w.file|
    requires file[t.chunks[c].position..t.chunks[c].position + |item|] == item
    requires item[0] != t.w.file[t.chunks[c].position]
    ensures !Spares(t, None, file)
  {
    var at := t.chunks[c].position;
    AlignedBounds(t.chunks[c].size);
    assert file[at] == file[at..at + |item|][0];
    assert !Keeps(t, c, file);
  }
}
