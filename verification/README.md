# Verified models of five algorithmic cores

This project models five parts of the repository and proves what they promise their callers.

* **The Unicode converters** (`breakpad/src/common/convert_UTF.c`): six loops between UTF-8, UTF-16 and
  UTF-32. `UnicodeForms` holds the encoding forms of section 3 of RFC 3629, section 2.1 of RFC 2781 and
  Table 3-7 of the Unicode Standard, written without regard to the C code. `ConvertUTF` holds one turn of
  each loop with the C expressions, on bit-vectors; `ConversionRun` the shape the six loops share;
  `ConvertUTFLoops` the loops themselves, on arrays; and the other `ConvertUTF*` modules the theorems.
* **The minidump file writer** (`breakpad/src/client/minidump_file_writer*`): a bump allocator over a
  growing file. `MinidumpFile` is the transition system and its runs, `MinidumpFileWriters` the classes, whose
  uses are shown to be such runs.
* **The build planner and the memo store** (`native_client/toolchain_build/`): `BuildPlanner` is the
  depth-first search of BuildOrder, `OnceStore` what a call of Once does to the store, over any history of
  calls, `OnceSignature` the text that a signature is the hash of, and `OnceObjects` the class.
* **The dependency rules** (`buildtools/checkdeps/`): `DepsRules` is the pruned rule list, `DepsBuilder`
  the table of directory rules filled on demand, `DepsReference` and `DepsPrecedence` what that means by the lines of the DEPS files, `DepsWalk` the stack walk and the closure of the
  directories that git manages.
* **Two smaller cores**: `RangeMap` is the search of `process_oprofile_x86_64.py`, `ByteCursor` and
  `ByteCursorRuns` the cursor of `byte_cursor.h`.

Code that works step by step is modelled as methods with loops, on arrays and objects, each proved equal
to a function of its inputs or of the old state; what the source promises is then proved about those
functions. What the operating system or the network decides (a failed ftruncate, a short write, a failed put or
download) is a parameter of the step, so a statement about all runs covers each of these outcomes.

## Where the code and its promises differ

The models follow the code. Where the code does not do what a comment or a caller expects, the exact
condition is proved.

* `convert_UTF.h` says that with `sourceIllegal` the source points at the illegal value. A strict call on
  UTF-32 flags a value above U+10FFFF and goes on, so the source is left past it (`OversizeIsPassed`);
  the promise holds exactly when there is a surrogate to stop at (`PointsAtIllegal`), and a caller that
  converts in pieces is told conversionOK instead of sourceIllegal exactly when there is no surrogate and the
  only oversize values come before the last piece (`PiecewiseUTF32`).
* `convert_UTF.h` says that values above U+10FFFF cause an error return under lenient flags too. The
  lenient ConvertUTF32toUTF16 returns `conversionOK` for them (`Lenient32To16`).
* `isLegalUTF8` accepts second bytes below 0x80 after the leads ED and F4, beyond Table 3-7
  (`IsStray`). `LongestPrefix` and `Reencoding` say exactly what the readers then do.
* A `TypedMDRVA` that was never allocated writes over the next chunk when it is destroyed, exactly when
  something was allocated since it was constructed and its flush fits the file; every other destructor spares
  the chunks of other objects (`DestructorExactly`). An element copied through a failed allocation lands just
  before index times its size, and is accepted exactly as `FailedElementExactly` says.
* Storing a result is meant to happen once per hash. A download that fails looks like an absent object, so the
  tree and log that are there are then overwritten: `OverwrittenExactly` says when, and
  `HitReturnsFirstStored` what holds as long as that does not happen.
* The check that an output directory does not overlap a hashed input lets an output pass that is two or
  more levels above the input (`RejectedExactly`).
* The signature of a build does not mark where a command ends. A list of commands is the only one with its text
  exactly when it has at most one command and `command:` is not inside it (`OnlyListExactly`); lists whose
  commands do not contain it are told apart (`CommandsTellApart`), and with `item_name:` excluded too the whole
  text tells commands and inputs apart (`HashedTellsApart`). A memo hit is stated against the call that last
  wrote the entry.
* A range map with one range finds nothing, and a key strictly inside a gap makes the search recurse until
  Python stops it, at any recursion limit (`LookupAnswers`, `EndsExactlyOutsideGaps`). `Add` keeps the
  list sorted exactly when `AddKeepsSorted` says.
* The comment on the block form of `ByteCursor::Read` says that a failed read stores NULL in a pointer; the
  code leaves the caller's buffer as it was (`ReadInto`).

## Model

| member | source | states |
|---|---|---|
| ConversionTheorems.ConvertEncoded | breakpad/src/common/convert_UTF.c:87-122 | with room, encoded text followed by anything is converted whole, and the run goes on with what follows |
| ConversionTheorems.ConvertTight | breakpad/src/common/convert_UTF.c:282-286 | with too little room, a run stops before the first character that does not fit, all before it converted, and no character split on either side |
| ConversionTheorems.ConvertExit | breakpad/src/common/convert_UTF.h:58-69 | the returned code and the returned source agree: at that place the loop lacks room, or meets a sequence that is incomplete or illegal |
| ConversionTheorems.ConvertSound | breakpad/src/common/convert_UTF.h:62-64 | at every exit, what was consumed is the encoding of some text and what was written is the other encoding of the same text |
| ConversionTheorems.ConvertResume | breakpad/src/common/convert_UTF.h:66-69 | an exhausted call followed by an ample call from the returned source is the one ample call |
| ConversionTheorems.PiecesAreWhole | breakpad/src/common/convert_UTF.h:62-70 | a conversion in any pieces consumes and writes exactly what one ample call does, with the same code unless a flag raised in an exhausted piece is lost |
| ConversionTheorems.PiecesFinish | breakpad/src/common/convert_UTF.h:62-70 | pieces with room for the largest request always make progress, so more pieces than source units suffice |
| ConversionRun.ConvertCongruent | breakpad/src/common/convert_UTF.c:359-418 | loops that agree on every turn agree on every source and target |
| ConvertUTFChars.Write8 | breakpad/src/common/convert_UTF.c:273-292 | the bytes the writing switch leaves for a scalar value are its UTF-8 encoding |
| ConvertUTFChars.Write16 | breakpad/src/common/convert_UTF.c:387-417 | the units written for a scalar value are its UTF-16 encoding |
| ConvertUTFChars.LegalIsAccepted | breakpad/src/common/convert_UTF.c:313-336 | isLegalUTF8, with the announced length, accepts exactly Table 3-7 and the sequences led by ED or F4 whose second byte is below 0x80 |
| ConvertUTFChars.LegalSequenceStartsAccepted | breakpad/src/common/convert_UTF.c:344-350 | isLegalUTF8Sequence holds exactly when some accepted sequence comes first |
| ConvertUTFChars.DecodeAccepted | breakpad/src/common/convert_UTF.c:373-381 | every accepted sequence decodes, without wrap-around, to a scalar value whose encoding is as long, and is the sequence itself exactly when Table 3-7 allows it |
| ConvertUTFChars.Decode3 | breakpad/src/common/convert_UTF.c:209-210 | for three bytes the offset never borrows and the difference is a scalar value that carries the payload bits |
| ConvertUTFChars.Decode4 | breakpad/src/common/convert_UTF.c:209-210 | for four bytes the offset never borrows and the difference is a scalar value above U+FFFF that carries the payload bits |
| ConvertUTFTheorems.ReadBack8 | breakpad/src/common/convert_UTF.c:359-381 | a UTF-8 reader that meets the encoding of a scalar value reads that value |
| ConvertUTFTheorems.PairReadsBack | breakpad/src/common/convert_UTF.c:146-147 | the pair written for a value reads back as that value |
| ConvertUTFTheorems.PairIsScalar | breakpad/src/common/convert_UTF.c:145-148 | every pair of surrogates is the pair of the value it reads as |
| ConvertUTFTheorems.ReadIsEncoded16 | breakpad/src/common/convert_UTF.c:138-166 | what a strict UTF-16 reader takes is the UTF-16 encoding of the scalar value it reads |
| ConvertUTFTheorems.RoundTrip32Via8 | breakpad/src/common/convert_UTF.c:426-535 | every sequence of scalar values survives UTF-32 to UTF-8 to UTF-32, everything consumed and conversionOK, whatever the flags |
| ConvertUTFTheorems.RoundTrip32Via16 | breakpad/src/common/convert_UTF.c:82-182 | every sequence of scalar values survives UTF-32 to UTF-16 to UTF-32 |
| ConvertUTFTheorems.Commute | breakpad/src/common/convert_UTF.c:233-298 | UTF-32 to UTF-16 to UTF-8 gives the bytes of UTF-32 to UTF-8 |
| ConvertUTFTheorems.RoundTrip16Via8 | breakpad/src/common/convert_UTF.c:233-422 | every well-formed UTF-16 sequence survives UTF-16 to UTF-8 to UTF-16 |
| ConvertUTFTheorems.ReadersDecodeScalars | breakpad/src/common/convert_UTF.c:387-407 | the surrogate and out-of-range branches of the UTF-8 readers are dead |
| ConvertUTFTheorems.StrictIsLenient | breakpad/src/common/convert_UTF.c:354-535 | both UTF-8 readers do the same under strict and lenient, on every source and target |
| ConvertUTFExits.ConsumesAccepted | breakpad/src/common/convert_UTF.c:359-369 | with any room, what a UTF-8 reader has consumed splits into accepted sequences |
| ConvertUTFExits.LongestPrefix | breakpad/src/common/convert_UTF.c:359-369 | with ample room the UTF-8 readers consume exactly the longest prefix that splits into accepted sequences |
| ConvertUTFExits.EnoughRoom | breakpad/src/common/convert_UTF.c:383-413 | as many target units as there are source bytes are ample room for both UTF-8 readers |
| ConvertUTFExits.ReaderCodes | breakpad/src/common/convert_UTF.c:359-413 | the code of both UTF-8 readers with any room: conversionOK at the end of the source, sourceExhausted when the lead byte where it stops announces more bytes than are left, sourceIllegal when they are there and are no accepted sequence, targetExhausted when they are one that does not fit |
| ConvertUTFExits.Reencoding | breakpad/src/common/convert_UTF.c:313-336 | both readers decode to the same text, and encoding it again gives the consumed bytes exactly when these are well-formed UTF-8 |
| ConvertUTFExits.Strict16To8Exit | breakpad/src/common/convert_UTF.c:233-298 | at every exit of strict ConvertUTF16toUTF8 the bytes are the UTF-8 of the consumed units, no lone surrogate was consumed and no pair split; sourceIllegal leaves the source on the first lone surrogate; sourceExhausted is returned exactly on a final high one, unless the target is exhausted by a character that does not fit |
| ConvertUTFExits.Strict16To32Exit | breakpad/src/common/convert_UTF.c:130-182 | the same for strict ConvertUTF16toUTF32, whose target is full when it is exhausted |
| ConvertUTFExits.PiecewiseUTF8To16 | breakpad/src/common/convert_UTF.c:383-413 | UTF-8 to UTF-16 in pieces gives exactly the result, source and units of one ample call |
| ConvertUTFExits.PiecewiseUTF8To16Finishes | breakpad/src/common/convert_UTF.c:383-413 | with room for two units in each piece, one piece more than there are bytes is enough |
| ConvertUTFOversize.Strict32Exit | breakpad/src/common/convert_UTF.c:429-470 | every exit of a strict call on UTF-32: no surrogate consumed, each unit written as stated, flagged exactly when an oversize value was consumed, and which codes that gives |
| ConvertUTFOversize.Strict32To16 | breakpad/src/common/convert_UTF.c:92-121 | strict ConvertUTF32toUTF16 stops at surrogates, flags and drops oversize values, encodes the rest |
| ConvertUTFOversize.Strict32To8 | breakpad/src/common/convert_UTF.c:437-470 | strict ConvertUTF32toUTF8 stops at surrogates, flags oversize values and writes U+FFFD, encodes the rest |
| ConvertUTFOversize.PointsAtIllegal | breakpad/src/common/convert_UTF.h:88-93 | after sourceIllegal the source points at an illegal value exactly when the source has a surrogate |
| ConvertUTFOversize.OversizeIsPassed | breakpad/src/common/convert_UTF.c:106-108 | on one oversize value the source is left past it, in both converters |
| ConvertUTFOversize.FittingIs | breakpad/src/common/convert_UTF.c:87-122 | how many values a strict call takes, and whether it ends for lack of room, from the values and the room alone |
| ConvertUTFOversize.LosesFlagIff | breakpad/src/common/convert_UTF.c:453-461 | a flag is lost exactly when an oversize value was taken before the last piece |
| ConvertUTFOversize.PiecesEndWell | breakpad/src/common/convert_UTF.c:437-461 | pieces end well exactly when there is no surrogate and no oversize value left for the last one |
| ConvertUTFOversize.PiecewiseUTF32 | breakpad/src/common/convert_UTF.c:106-122 | UTF-32 in pieces writes what one ample call does; the codes differ exactly when there is no surrogate and the only oversize values come before the last piece, whose start is computed from the values and the rooms |
| ConvertUTFOversize.PiecesAgree | breakpad/src/common/convert_UTF.c:106-122 | without oversize values every split gives the code of one call |
| ConvertUTFLenient.Lenient32To16 | breakpad/src/common/convert_UTF.c:95-111 | lenient ConvertUTF32toUTF16 takes any values whatever, returns conversionOK, and writes U+FFFD for what is not a scalar value |
| ConvertUTFLenient.Lenient32To8 | breakpad/src/common/convert_UTF.c:449-470 | lenient ConvertUTF32toUTF8 takes any values whatever, writes surrogates as three bytes and oversize values as U+FFFD, and returns sourceIllegal exactly when there is an oversize value |
| ConvertUTFLenient.MendedThroughUTF32 | breakpad/src/common/convert_UTF.c:82-182 | any UTF-16 comes back from the lenient way through UTF-32 with each lone surrogate, and nothing else, replaced by U+FFFD; only a high surrogate at the very end is left in the source, with sourceExhausted |
| ConvertUTFLenient.LenientThrough8 | breakpad/src/common/convert_UTF.c:233-422 | lenient ConvertUTF16toUTF8 takes any UTF-16 but a final high surrogate, and reading the bytes gives back the units up to the first lone surrogate, where it ends with sourceIllegal, and all of them with conversionOK when there is none |
| ConvertUTFLoops.ConvertUTF32toUTF16 | breakpad/src/common/convert_UTF.c:82-126 | the loop on the buffers returns the code and positions of the run, writes its units at the target and no other unit |
| ConvertUTFLoops.ConvertUTF16toUTF32 | breakpad/src/common/convert_UTF.c:130-182 | the same for UTF-16 to UTF-32 |
| ConvertUTFLoops.ConvertUTF16toUTF8 | breakpad/src/common/convert_UTF.c:233-298 | the same for UTF-16 to UTF-8, written backwards through the fall-through switch |
| ConvertUTFLoops.ConvertUTF8toUTF16 | breakpad/src/common/convert_UTF.c:354-422 | the same for UTF-8 to UTF-16; `ReaderCodes` says which code |
| ConvertUTFLoops.ConvertUTF32toUTF8 | breakpad/src/common/convert_UTF.c:426-474 | the same for UTF-32 to UTF-8 |
| ConvertUTFLoops.ConvertUTF8toUTF32 | breakpad/src/common/convert_UTF.c:478-535 | the same for UTF-8 to UTF-32; `ReaderCodes` says which code |
| ConvertUTFLoops.PutBytes | breakpad/src/common/convert_UTF.c:282-293 | the writing switch puts the bytes in front of each other from the last, and touches nothing else |
| ConvertUTFLoops.Gather | breakpad/src/common/convert_UTF.c:373-380 | the fall-through reading switch accumulates the bytes from its entry point on |
| ConvertUTFLoops.GatherNoteA | breakpad/src/common/convert_UTF.c:539-550 | the loop of Note A computes what the switch computes |
| MinidumpFile.AllocateStep | breakpad/src/client/minidump_file_writer.cc:270-308 | a successful allocation returns the old position, never kInvalidMDRVA, keeps the file's bytes and the slack bound; a failed one changes nothing |
| MinidumpFile.AllocateExactly | breakpad/src/client/minidump_file_writer.cc:287-307 | an allocation fails exactly when the aligned bytes do not fit in the size so far and ftruncate fails; the size stays when they fit and else grows by the larger of a page and the aligned bytes |
| MinidumpFile.CopyInBounds | breakpad/src/client/minidump_file_writer.cc:310-334 | a write inside the file changes bytes there only, and all of them when it succeeds, which is when seek and write do |
| MinidumpFile.FlushStep | breakpad/src/client/minidump_file_writer.h:214-218 | the flush of a failed allocation changes nothing that was handed out; it is accepted exactly when it ends inside the file |
| MinidumpFile.InvStep | breakpad/src/client/minidump_file_writer.cc:270-334 | every legal event, the flush after a failed allocation among them, keeps the invariant while less than 2^32 bytes are used |
| MinidumpFile.CopyIntoKeeps | breakpad/src/client/minidump_file_writer.cc:310-348 | a write inside a chunk spares every other live chunk and is there when it succeeds |
| MinidumpFile.FlushFailedKeeps | breakpad/src/client/minidump_file_writer.h:214-218 | the flush after a failed allocation spares every live chunk, whatever the size of the file |
| MinidumpFile.LiveChunksDisjoint | breakpad/src/client/minidump_file_writer.cc:270-341 | after any run of allocations, writes and flushes of failed allocations, live chunks are 8-aligned, inside the allocated part, in the file, and pairwise disjoint |
| MinidumpFile.SlackBelowPage | breakpad/src/client/minidump_file_writer.cc:287-307 | after any run the size exceeds the position by less than a page |
| MinidumpFile.ChunkKept | breakpad/src/client/minidump_file_writer.cc:270-348 | a chunk's bytes survive any run that does not write through it |
| MinidumpFile.Stored | breakpad/src/client/minidump_file_writer.cc:253-268 | a successful WriteMemory has put its bytes in a new live chunk |
| MinidumpFile.WriteMemoryExactly | breakpad/src/client/minidump_file_writer.cc:253-268 | WriteMemory succeeds exactly when the allocation, the seek and the whole write do |
| MinidumpFile.CloseExactly | breakpad/src/client/minidump_file_writer.cc:124-146 | Close reports success exactly when there was nothing to close or cut and close both succeed; a failed cut leaves the writer open and as it was |
| MinidumpFile.ReadBack | breakpad/src/client/minidump_file_writer.cc:124-268 | what WriteMemory stored is in the closed file at the returned location, whatever ran before and whatever other chunks were used after |
| MinidumpFile.WrappedPosition | breakpad/src/client/minidump_file_writer.cc:304-305 | after a successful allocation the position is the number of bytes used exactly when that is below 2^32; at 2^32 it is zero |
| MinidumpFile.FailedElementExactly | breakpad/src/client/minidump_file_writer-inl.h:71-77 | where an element copied through a failed allocation goes, for every index, and that it is accepted exactly when it ends inside the file |
| MinidumpFile.UnallocatedFlushExactly | breakpad/src/client/minidump_file_writer.h:209-218 | the flush of a never allocated object spares every live chunk, whatever its bytes, exactly when nothing was allocated since it was constructed or the flush would end behind the file |
| MinidumpFileWriters.MinidumpFileWriter.Allocate | breakpad/src/client/minidump_file_writer.cc:270-308 | the method takes the allocation step, which `AllocateExactly` describes, and a session that is a run goes on as a run |
| MinidumpFileWriters.MinidumpFileWriter.Copy | breakpad/src/client/minidump_file_writer.cc:310-334 | the method takes the copy step, and a session goes on as a run when the write is a legal event |
| MinidumpFileWriters.MinidumpFileWriter.Close | breakpad/src/client/minidump_file_writer.cc:124-146 | cut to the position, closed unless the cut fails; every live chunk keeps its bytes |
| MinidumpFileWriters.MinidumpFileWriter.WriteMemory | breakpad/src/client/minidump_file_writer.cc:253-268 | on success the bytes are in a new chunk, which it reports; no older chunk changes either way, and the session stays a run |
| MinidumpFileWriters.UntypedMDRVA.Allocate | breakpad/src/client/minidump_file_writer.cc:336-341 | the object is the new chunk of the session, live exactly on success |
| MinidumpFileWriters.UntypedMDRVA.Copy | breakpad/src/client/minidump_file_writer.cc:343-348 | inside this object's chunk: the bytes are there when seek and write succeed, no other live chunk changes, and the session stays a run |
| MinidumpFileWriters.TypedMDRVA.AllocateWith | breakpad/src/client/minidump_file_writer-inl.h:44-54 | allocates the object and the additional bytes |
| MinidumpFileWriters.TypedMDRVA.AllocateArray | breakpad/src/client/minidump_file_writer-inl.h:56-61 | allocates count objects |
| MinidumpFileWriters.TypedMDRVA.AllocateObjectAndArray | breakpad/src/client/minidump_file_writer-inl.h:63-69 | allocates the object and count elements |
| MinidumpFileWriters.TypedMDRVA.CopyIndex | breakpad/src/client/minidump_file_writer-inl.h:71-77 | with the index in range: the item is at its place in this object's chunk when seek and write succeed, and no other live chunk changes |
| MinidumpFileWriters.TypedMDRVA.CopyIndexAfterObject | breakpad/src/client/minidump_file_writer-inl.h:79-88 | the same for the element behind the object |
| MinidumpFileWriters.TypedMDRVA.Flush | breakpad/src/client/minidump_file_writer-inl.h:90-93 | the object is at the start of its chunk and no other live chunk changes; after a failed allocation no live chunk changes |
| MinidumpFileWriters.TypedMDRVA.Destroy | breakpad/src/client/minidump_file_writer.h:214-218 | once it was allocated, successfully or not, the destructor spares the chunks of all other objects, keeps the session a run, and leaves the object in its own chunk unless an array was allocated |
| MinidumpFileWriters.DestructorExactly | breakpad/src/client/minidump_file_writer.h:209-218 | in terms of the allocation state and the chunks, exactly when the destructor spares every live chunk but its own |
| MinidumpFileWriters.TypedWritesAreLegal | breakpad/src/client/minidump_file_writer-inl.h:71-93 | with the index in range, every write of a TypedMDRVA stays inside its chunk |
| BuildPlanner.OrderBuilder.Add | native_client/toolchain_build/toolchain_main.py:309-320 | the list stays topological and only grows, by packages reachable from the target; failures name a reachable unknown package or a cycle; the path of the search is never longer than there are packages, so at most one more call is nested than there are packages |
| BuildPlanner.OrderBuilder.BuildOrder | native_client/toolchain_build/toolchain_main.py:296-323 | succeeds exactly when no needed package is unknown and no needed cycle exists, and then lists exactly the needed packages, once each, after their dependencies |
| BuildPlanner.ChainInOrder | native_client/toolchain_build/toolchain_main.py:302-303 | along any chain of dependencies from a listed package, each later one is listed earlier |
| BuildPlanner.OrderMeansSound | native_client/toolchain_build/toolchain_main.py:312-316 | an order of exactly what is needed leaves no room for an unknown package or a cycle |
| OnceStore.KeyForOutputInjective | native_client/toolchain_build/once.py:91-100 | an output key tells package and hash apart |
| OnceStore.KeyFamilies | native_client/toolchain_build/once.py:91-123 | output, computed and log keys never meet |
| OnceStore.RunKeepsConsistent | native_client/toolchain_build/once.py:178-237 | wherever a call ends, even between two puts, objects have the hash they are filed under and every computed entry names a present object |
| OnceStore.ReachableConsistent | native_client/toolchain_build/once.py:276-373 | every store reachable by calls from an empty one is so |
| OnceStore.SwapKeepsHash | native_client/toolchain_build/once.py:213-222 | replacing a fresh output by the cached copy never changes its stable hash |
| OnceStore.WroteStores | native_client/toolchain_build/once.py:229-231 | a call that writes its entry records the hash of the output it leaves, whose object is there |
| OnceStore.OthersKept | native_client/toolchain_build/once.py:178-237 | a call changes no computed entry but its own, and removes nothing |
| OnceStore.EntryIsLastWrite | native_client/toolchain_build/once.py:229-231 | after any calls, a computed entry is the one last written and its object is present |
| OnceStore.HitIsLastWrite | native_client/toolchain_build/once.py:254-266 | a cache hit leaves an output with the stable hash left by the call that last wrote the entry and changes nothing in the store; it happens exactly when the cache is asked, an entry was written, the two downloads work and the package has an object of that hash |
| OnceStore.ObjectAfter | native_client/toolchain_build/once.py:199-207 | one call overwrites an object exactly by filing the tree it built, and otherwise leaves it |
| OnceStore.LogAfter | native_client/toolchain_build/once.py:209-210 | the same for the log |
| OnceStore.OverwrittenExactly | native_client/toolchain_build/once.py:199-210 | an object that is there is filed anew exactly when a call of its package and hash computes, its download fails and its put takes effect; it changes exactly when the trees differ too |
| OnceStore.ObjectIsLastFiled | native_client/toolchain_build/once.py:178-237 | after any calls, object and log are those that some call last filed |
| OnceStore.HitReturnsLastFiled | native_client/toolchain_build/once.py:136-162 | a cache hit leaves the very tree last filed for its package and hash, and the log last filed unless that download fails |
| OnceStore.FiledStays | native_client/toolchain_build/once.py:199-210 | while no later call of a package and hash misses the object, object and log stay as filed |
| OnceStore.HitReturnsFirstStored | native_client/toolchain_build/once.py:136-237 | while no later call of that package and hash misses the object, a hit leaves the very tree that the filing call built, and its log unless that download fails |
| OnceStore.EndingExactly | native_client/toolchain_build/once.py:276-373 | after any calls, a call raises exactly when it does not hit and a command fails, the output overlaps, or a put that it comes to fails; it computes exactly when it neither hits nor raises |
| OnceStore.WorkExactly | native_client/toolchain_build/once.py:136-237 | the directory each ending leaves: the tree and log last filed on a hit or after a swap, what was there before when a command fails, and otherwise what the commands built |
| OnceStore.RejectedExactly | native_client/toolchain_build/once.py:365-369 | the overlap check rejects an output inside a hashed path or its parent directory, and no other; an output two or more levels above is let through |
| OnceStore.OverlapMissed | native_client/toolchain_build/once.py:365-369 | an output that contains a hashed path and is let through |
| OnceObjects.Once.WriteOutputFromHash | native_client/toolchain_build/once.py:136-162 | the method's success and the directory it leaves are those of the store model |
| OnceObjects.Once.ReadMemoizedResultFromCache | native_client/toolchain_build/once.py:239-266 | the same, and the cached item is recorded exactly on a hit |
| OnceObjects.Once.WriteResultToCache | native_client/toolchain_build/once.py:178-237 | the store, the directory and the exception are those of the store model, failed downloads included; the cached item is recorded exactly on success |
| OnceObjects.Once.Run | native_client/toolchain_build/once.py:276-373 | the store, the directory and the ending are those of one call, which `EndingExactly` and `WorkExactly` describe; the signature is computed from package, commands and inputs, the overlap from the paths hashed before or now, and the item is recorded exactly on a hit or a cached result |
| OnceObjects.OverlappingExactly | native_client/toolchain_build/once.py:364-369 | the output is rejected exactly when it is inside a hashed path, is one, or is the parent of one |
| OnceObjects.InTheWayStops | native_client/toolchain_build/once.py:364-373 | a call with such an output leaves the store as it was and raises unless it hits, and no other output is rejected |
| OnceObjects.RecordedIs | native_client/toolchain_build/once.py:164-172 | the recorded item names the object of the package and hash, and other packages keep theirs |
| OnceObjects.Once.CheckOverlap | native_client/toolchain_build/once.py:364-369 | the loop raises exactly when some hashed path rejects the output |
| OnceObjects.Once.BuildSignature | native_client/toolchain_build/once.py:414-447 | hashes package, summary, commands and inputs in order, using a cached path hash where there is one and caching the others |
| OnceSignature.FreshCacheChangesNothing | native_client/toolchain_build/once.py:441-446 | while the cached path hashes are current, the cache makes no difference to what is hashed |
| OnceSignature.InputsTellApart | native_client/toolchain_build/once.py:439-446 | after the same package, summary and commands, two computations hash the same text exactly when their inputs have the same names and path hashes |
| OnceSignature.InputsTextInjective | native_client/toolchain_build/once.py:440-446 | the NUL behind a name and the fixed length of a path hash make the text of the inputs unambiguous |
| OnceSignature.CommandsTellApart | native_client/toolchain_build/once.py:436-438 | lists whose commands do not contain the marker are hashed alike exactly when they are equal |
| OnceSignature.OnlyListExactly | native_client/toolchain_build/once.py:436-438 | a list of commands is the only one with its text exactly when it has at most one command and that does not contain the marker |
| OnceSignature.Another | native_client/toolchain_build/once.py:436-438 | every other list shares its text with a list of another length |
| OnceSignature.HashedTellsApart | native_client/toolchain_build/once.py:434-446 | for one package and summary, commands without markers and names without NUL: the whole text is the same exactly when commands, input names and path hashes are |
| OnceSignature.PackagesTellApart | native_client/toolchain_build/once.py:434-435 | packages are told apart by the text when all else is the same, and whatever else differs when their names do not contain `summary:` |
| OnceSignature.PackagesHashApart | native_client/toolchain_build/once.py:434-446 | two packages with the same summary, commands and inputs are hashed alike exactly when they are the same |
| OnceSignature.PathsRegular | native_client/toolchain_build/once.py:440-446 | with names without NUL, hashes from digests give regular inputs, and so do cached ones |
| DepsRules.CoversTransitive | buildtools/checkdeps/rules.py:40-48 | covering is transitive |
| DepsRules.CoversChain | buildtools/checkdeps/rules.py:45-48 | directories that cover one path are above or below one another |
| DepsRules.FirstMatchIsNewest | buildtools/checkdeps/rules.py:154-178 | the first match in the pruned list is the most recently added covering rule of the whole history |
| DepsRules.NewestIsSaidLast | buildtools/checkdeps/rules.py:144-158 | there is a newest covering rule exactly when some addition speaks about the path, and it has the sign, the directory and the origin of the last one that does |
| DepsRules.PrunedNoneUnder | buildtools/checkdeps/rules.py:154-158 | no rule of a pruned list is at or under the directory of an earlier one |
| DepsRules.FirstMatchIsLongest | buildtools/checkdeps/rules.py:172-177 | the answer has the strictly longest covering directory |
| DepsRules.NewestIsLongest | buildtools/checkdeps/rules.py:154-178 | a rule is the newest covering one exactly when it is the longest covering one in the pruned list, so list order does not matter |
| DepsRules.AnswerIgnoresOrder | buildtools/checkdeps/rules.py:170-178 | when at most one matching expression has a rule for the path, the dictionary's order does not matter |
| DepsRules.Rules.AddRule | buildtools/checkdeps/rules.py:131-163 | the object holds the pruned lists of the history, one addition longer; a string that does not parse changes nothing; `NewestIsSaidLast` says what rule an addition becomes |
| DepsRules.Rules.RuleApplyingTo | buildtools/checkdeps/rules.py:165-178 | by the additions alone: the answer has the sign, directory and origin of the last addition that speaks about the path, for the first matching expression that has one, else for all files, and is the message rule exactly when none does |
| DepsRules.BasenameEnds | buildtools/checkdeps/rules.py:169 | the file name is what follows the last slash |
| DepsBuilder.Builder.ApplyRules | buildtools/checkdeps/builddeps.py:183-246 | a fresh object with the existing history and the directory's additions, or an exception exactly when one does not parse; `LineDecides` says which lines these are |
| DepsBuilder.Builder.ApplyDirectoryRulesAndSkipSubdirs | buildtools/checkdeps/builddeps.py:324-337 | enters the directory and None for each skipped subdirectory, and changes no other entry |
| DepsBuilder.EnterChildren | buildtools/checkdeps/builddeps.py:332-337 | entering a directory and its skips keeps the table faithful to the cache-free definition |
| DepsBuilder.NotEntered | buildtools/checkdeps/builddeps.py:417-432 | what the cache-free definition says of a directory whose parent alone is in the table |
| DepsBuilder.Builder.GetDirectoryRules | buildtools/checkdeps/builddeps.py:392-433 | after any queries in any order the answer is the cache-free definition's, which `ReferenceExactly` and `LineDecides` describe by the DEPS files; entries already there stay |
| DepsReference.ReferenceExactly | buildtools/checkdeps/builddeps.py:392-433 | rules exactly when no directory on the way is skipped or has a line that does not parse; skipped exactly when one is skipped and all before it are fine; an exception otherwise |
| DepsReference.AdditionsParse | buildtools/checkdeps/builddeps.py:215-244 | the rules of a directory parse exactly when every line that is not filtered out starts with a sign |
| DepsReference.JoinedCovers | buildtools/checkdeps/builddeps.py:207-213 | the rule for a directory covers another exactly when that is the same or below it |
| DepsReference.BaseCovers | buildtools/checkdeps/builddeps.py:207-213 | the implicit rule of the base is for `.` and covers nothing else |
| DepsPrecedence.NearestDecides | buildtools/checkdeps/builddeps.py:200-246 | a directory's own DEPS file decides about what it covers, else its implicit allowance for its own files, else whatever decides in its parent |
| DepsPrecedence.LineDecides | buildtools/checkdeps/builddeps.py:209-246 | for each expression the last line of its group that covers the path and is not filtered out decides, with its sign, directory and origin; for all files so does the last such line of include_rules; if there is none, the implicit rule for paths in the directory, and else what decides in the parent |
| DepsPrecedence.NewestAppend | buildtools/checkdeps/rules.py:154-158 | rules added later decide before rules added earlier |
| DepsPrecedence.FlagsFilter | buildtools/checkdeps/builddeps.py:215-240 | with the flags set, no directory has a temporary rule, or one limited to some files, from any DEPS file above it |
| DepsWalk.PushReversed | buildtools/checkdeps/builddeps.py:380-388 | pushing the reversed subdirectories walks them in order before the rest of the stack |
| DepsWalk.TurnKeepsWalk | buildtools/checkdeps/builddeps.py:363-390 | each turn of the stack loop leaves the whole walk as it was and shrinks what is left to do |
| DepsWalk.SplitListing | buildtools/checkdeps/builddeps.py:380-387 | files and subdirectories are told apart, in order |
| DepsWalk.GetAllRulesAndFiles | buildtools/checkdeps/builddeps.py:339-390 | the stack loop yields exactly the recursive preorder walk pruned at skipped or unmanaged directories, up to an exception |
| DepsWalk.VisitsExactly | buildtools/checkdeps/builddeps.py:363-378 | when nothing raises, a directory is visited exactly when it is in the tree and every directory from the start to it is managed and not skipped |
| DepsWalk.VisitIsRight | buildtools/checkdeps/builddeps.py:373-390 | every visit carries the rules of the directory at its path and the names of the files there |
| DepsWalk.RaisedExactly | buildtools/checkdeps/builddeps.py:363-390 | the walk ends with an exception exactly when it comes to a managed directory whose rules raise, through directories that are managed and have rules |
| DepsWalk.FilesInOrder | buildtools/checkdeps/builddeps.py:381-387 | the file names are those of the listing, in its order |
| DepsWalk.WalkInOrder | buildtools/checkdeps/builddeps.py:380-388 | over sorted listings the visits are in sorted preorder |
| DepsWalk.EachOnce | buildtools/checkdeps/builddeps.py:363-390 | no directory is visited twice |
| DepsWalk.GitSourceDirectories | buildtools/checkdeps/builddeps.py:110-138 | the base and every directory at or above the directory of a listed file, and no other |
| DepsWalk.ClimbFrom | buildtools/checkdeps/builddeps.py:128-132 | the climb adds every directory up to the base although it stops at the first that is already there |
| RangeMap.FindsFrom | native_client/tools/process_oprofile_x86_64.py:223-246 | the halving search ends at a range that overlaps the query, within logarithmically many probes |
| RangeMap.GapFrom | native_client/tools/process_oprofile_x86_64.py:223-246 | in a gap no recursion depth is enough |
| RangeMap.IndexInBounds | native_client/tools/process_oprofile_x86_64.py:223-246 | on any list, sorted or not, an index that is returned is in range and its range overlaps the query |
| RangeMap.FindIndexAnswers | native_client/tools/process_oprofile_x86_64.py:218-246 | with two or more ranges: an index exactly for covered queries, kLESS exactly below all, kGREATER exactly above all |
| RangeMap.EndsExactlyOutsideGaps | native_client/tools/process_oprofile_x86_64.py:218-246 | the search ends at some depth exactly when the query is covered, below all or above all |
| RangeMap.ShortListsAreGreater | native_client/tools/process_oprofile_x86_64.py:218-227 | with no range or one the search says kGREATER for every query |
| RangeMap.LookupAnswers | native_client/tools/process_oprofile_x86_64.py:259-270 | Lookup gives the data of the range that holds the key exactly when there are two ranges or more, and recurses without end exactly in a gap |
| RangeMap.RangeMapSorted.Add | native_client/tools/process_oprofile_x86_64.py:248-257 | inserts in front, at the end or before the found index, or raises and changes nothing |
| RangeMap.AddKeepsSorted | native_client/tools/process_oprofile_x86_64.py:248-257 | Add keeps a sorted list sorted and disjoint exactly when the new range is above all, or below all of at least two |
| RangeMap.AddPutsIn | native_client/tools/process_oprofile_x86_64.py:248-257 | an Add that ends puts the range in and keeps all the others in order; on two or more sorted ranges it stands first, last, or just before one that it overlaps |
| RangeMap.AscendingAddsAppend | native_client/tools/process_oprofile_x86_64.py:248-257 | ascending Adds append, whatever was there, so the list stays sorted and disjoint |
| ByteCursor.MeaningOfEncode | breakpad/src/common/byte_cursor.h:113-117 | an integer that fits is what its bytes mean, signed and unsigned, in both byte orders |
| ByteCursor.EncodeOfMeaning | breakpad/src/common/byte_cursor.h:113-117 | the bytes of what some bytes mean are those bytes |
| ByteCursor.XorTopBit | breakpad/src/common/byte_cursor.h:131-134 | exclusive or with the sign bit switches that bit and no other |
| ByteCursor.SignExtension | breakpad/src/common/byte_cursor.h:131-134 | the xor and subtract step is two's complement |
| ByteCursor.ThroughSizeT | breakpad/src/common/byte_cursor.h:132-133 | doing that step in size_t and cutting it down to T loses nothing |
| ByteCursor.FullWidth | breakpad/src/common/byte_cursor.h:122-136 | at the width of T or more the wrapped sum, read as a T, is already the right value |
| ByteCursor.Decrements | breakpad/src/common/byte_cursor.h:126-128 | the unsigned countdown of the little-endian loop ends just past zero |
| ByteCursor.ByteCursorObject.Accumulate | breakpad/src/common/byte_cursor.h:121-130 | both loops compute the number in base 256, wrapped to T |
| ByteCursor.ByteCursorObject.Read | breakpad/src/common/byte_cursor.h:118-141 | for every width, type and byte order the result is the T of the two's complement meaning of the bytes, and the cursor passes them; off the end it is the dummy, the cursor is at the end and the flag cleared |
| ByteCursor.ByteCursorObject.ReadWhole | breakpad/src/common/byte_cursor.h:147-151 | the operator reads at the width and signedness of T |
| ByteCursor.ByteCursorObject.ReadInto | breakpad/src/common/byte_cursor.h:157-163 | copies the bytes, or leaves the destination as it was |
| ByteCursor.ByteCursorObject.ReadCString | breakpad/src/common/byte_cursor.h:169-181 | the bytes before the first zero, passing it, or the empty string and a cleared flag when there is none |
| ByteCursor.ByteCursorObject.ReadFixedCString | breakpad/src/common/byte_cursor.h:196-209 | the bytes of the field before its first zero, if any, passing the whole field |
| ByteCursor.ByteCursorObject.PointAt | breakpad/src/common/byte_cursor.h:216-224 | the position, passing the bytes, or NULL |
| ByteCursor.ByteCursorObject.SkipOver | breakpad/src/common/byte_cursor.h:229-233 | passes the bytes, or ends at the end with the flag cleared |
| ByteCursor.ByteCursorObject.CheckAvailable | breakpad/src/common/byte_cursor.h:239-247 | whether the bytes are there, and what a failure does to the cursor |
| ByteCursorRuns.FlagIsSticky | breakpad/src/common/byte_cursor.h:108-111 | no call ever sets the flag again |
| ByteCursorRuns.FlagTellsAll | breakpad/src/common/byte_cursor.h:108-111 | over any run that does not move the cursor, the flag at the end tells exactly whether every byte asked for was there, and where the cursor then is |
| ByteCursorRuns.ItemReadsBack | breakpad/src/common/byte_cursor.h:118-233 | a number, block, string or gap at the cursor is read back and passed |
| ByteCursorRuns.RecordReadsBack | breakpad/src/common/byte_cursor.h:92-233 | any record of numbers, blocks, strings, pointers, gaps and changes of byte order, anywhere in a buffer, is read back item by item, ending just past it in the order last set with the flag as it was |
| ByteCursorRuns.ReadsAgain | breakpad/src/common/byte_cursor.h:96-100 | moved back to its start, the cursor reads the same record again |
| ByteCursorRuns.FailureIsFinal | breakpad/src/common/byte_cursor.h:137-247 | after a run that asked for missing bytes, every later call that asks for any byte hands back its dummy, unless the cursor is moved |

## Left out

- UTF32 wider than 32 bits: the type is `unsigned long`, at least 32 bits; the model has exactly 32. Pointers past the end of a buffer (`source + extraBytesToRead`) are indices that do not overflow.
- MinidumpFile.LiveChunksDisjoint: holds while less than 2^32 bytes are used in all, because the position is a 32-bit number; `WrappedPosition` shows what happens at 2^32. The same bound stands on the other statements about runs.
- The branch of Allocate and Close for Android kernels without ftruncate: it neither aligns nor pads, so other guarantees hold.
- WriteString: it needs `common/string_conversion`, which is not part of this model.
- The `start_of_memory_range` field that WriteMemory reports: an address of the calling process.
- MinidumpFileWriters.UntypedMDRVA.Copy: its assertion is modelled as a duty of the caller; the other in-range duties are those of `Legal` and `TypedWritesAreLegal`.
- BuildAll, and the loop over targets that the command line drives: no logic beyond a call for each target.
- SHA-1 and StableHashPath: any function whose results all have 40 characters. It is not assumed that a hash determines the tree, so results about outputs are up to stable hash.
- OnceObjects.Once.Run: URLs, printing, the log handler, the text of a signature file and the substitution of paths into commands are left out; what the commands leave behind is a parameter.
- Several read buckets: reads and writes go to one store. The code can read from buckets that it does not write.
- Freshness of the cached path hashes: it depends on what commands do to the file system; `FreshCacheChangesNothing` is stated for current ones.
- Packing to tar and unpacking: storing a directory and getting it back is taken to give an equal tree, and an exception from unpacking is left out; a failed download is covered.
- Regular expressions, the execution of DEPS files and path normalisation: a match is any predicate, the DEPS files are a fixed function from directories, a path is its components below the base.
- DepsRules.Rules.RuleApplyingTo: the order in which the dictionary of specific rules is walked is a parameter, since it is arbitrary in the source.
- Skip entries of DEPS files are single names, as a comment in the source says they are.
- DepsBuilder.Builder.constructor: demands that the base directory's rules parse; otherwise the source raises and there is no object.
- Changes that a consumer of the generator makes to a Rules object between two steps.
- DepsWalk.GetAllRulesAndFiles: the listing of a directory is taken as sorted() returns it; working copies under Subversion, extra repositories and symbolic links that form cycles are left out.
- DepsWalk.GitSourceDirectories: a file directly in the base also makes the source add the base with a trailing slash, which no query ever asks for; components have no trailing slash.
- RangeMap.RangeMapSorted.Add: `ranges` is an attribute of the Python class, so instances share one list; the model has one list in one object. GetRangeFromKey is Lookup with another result.
- math.ceil on a floating-point half is exact for every length that a list can have, and is modelled on integers.
- ByteCursor.ByteCursorObject.Read: a signed read of zero bytes shifts by a negative count, which C++ leaves undefined, and is not covered. Shifting a signed T wraps in the model.
- Comparison and size of ByteBuffer objects.
