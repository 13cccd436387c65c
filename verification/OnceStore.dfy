/**
 The memo store of once.py, on values: which keys a run reads and writes, in which order, and what
 every store reachable by runs keeps.

 A tree is whatever a build leaves in its output directory; `hash` is StableHashPath, of which only
 the length of the result (a SHA-1 hex digest) matters here.  Storing a directory and getting it
 back gives an equal tree.  A put may fail, and a failed put may or may not have taken effect.  A
 download may fail too, and then looks like an absent key.
 */
module OnceStore {
  import opened Basics

  datatype Blob<Tree> = Directory(tree: Tree) | Text(text: string)

  type Store<Tree> = map<string, Blob<Tree>>

  /** StableHashPath, and the empty directory that GetDirectory leaves when there is nothing to get. */
  datatype Trees<!Tree> = Trees(hash: Tree -> string, empty: Tree)

  const HASH_LENGTH: nat := 40

  ghost predicate Hashing<Tree(!new)>(trees: Trees<Tree>) {
    forall t: Tree :: |trees.hash(t)| == HASH_LENGTH
  }

  // ---------- Keys ----------

  function KeyForOutput(package: string, hash: string): string { "object/" + package + "_" + hash + ".tgz" }

  function KeyForBuildSignature(signature: string, extra: string): string { "computed/" + signature + extra + ".txt" }

  function KeyForLog(package: string, hash: string): string { "log/" + package + "_" + hash + ".log" }

  /** The three families of keys do not meet. */
  lemma KeyFamilies(package: string, hash: string, signature: string, extra: string, q: string, g: string)
    ensures KeyForOutput(package, hash) != KeyForBuildSignature(signature, extra)
    ensures KeyForOutput(package, hash) != KeyForLog(q, g)
    ensures KeyForBuildSignature(signature, extra) != KeyForLog(q, g)
  {
    assert KeyForOutput(package, hash)[0] == 'o';
    assert KeyForBuildSignature(signature, extra)[0] == 'c';
    assert KeyForLog(q, g)[0] == 'l';
  }

  /** The key of an output tells package and hash apart, because hashes have one length: an
      underscore inside a package name does no harm. */
  lemma KeyForOutputInjective(package: string, hash: string, q: string, g: string)
    requires |hash| == |g| && KeyForOutput(package, hash) == KeyForOutput(q, g)
    ensures package == q && hash == g
  {
    var k, l := KeyForOutput(package, hash), KeyForOutput(q, g);
    assert |package| == |q|;
    assert package == k[7..7 + |package|] && q == l[7..7 + |q|];
    assert hash == k[8 + |package|..8 + |package| + |hash|] && g == l[8 + |q|..8 + |q| + |g|];
  }

  // ---------- One run ----------

  /** The working directory: the output tree, and the log file if there is one. */
  datatype Work<Tree> = Work(output: Tree, log: Option<string>)

  datatype PutOutcome = PutOk | PutFailed(stored: bool)

  function Put<Tree>(store: Store<Tree>, key: string, blob: Blob<Tree>, outcome: PutOutcome): Store<Tree> {
    if outcome.PutOk? || outcome.stored then store[key := blob] else store
  }

  /** storage.GetData and storage.GetFile: None when the key is absent or the download fails. */
  function GetText<Tree>(store: Store<Tree>, key: string, downloads: bool): Option<string> {
    if downloads && key in store && store[key].Text? then Some(store[key].text) else None
  }

  /** _directory_storage.GetDirectory. */
  function GetDirectory<Tree>(store: Store<Tree>, key: string, downloads: bool): Option<Tree> {
    if downloads && key in store && store[key].Directory? then Some(store[key].tree) else None
  }

  /** Which downloads of a call work: of the computed entry, of the object and the log it names, and later of
      an object and a log that are already there for what was built. */
  datatype Gets = Gets(entry: bool, item: bool, log: bool, existing: bool, existingLog: bool)

  /** One call of Run: the flags of the Once object, the arguments, and what the world does. */
  datatype Call<Tree> = Call(
    useCached: bool, cacheResults: bool, memoize: bool,
    package: string, signature: string, extra: string,
    before: Work<Tree>,                  // what is in the working directory when Run is called
    built: Option<Work<Tree>>,           // what the commands would leave there, or None if one fails
    overlaps: bool,                      // whether the output is rejected as overlapping an input
    gets: Gets, putDirectory: PutOutcome, putLog: PutOutcome, putData: PutOutcome)
  {
    function ComputedKey(): string { KeyForBuildSignature(signature, extra) }
  }

  datatype Ending = CacheHit | Computed | Raised

  datatype Result<Tree> = Result(store: Store<Tree>, work: Work<Tree>, ending: Ending)

  /** WriteOutputFromHash: whether it succeeds, and the working directory it leaves either way. */
  function WriteOutputFromHash<Tree>(trees: Trees<Tree>, store: Store<Tree>, package: string, outHash: string,
                                     work: Work<Tree>, gets: Gets): (bool, Work<Tree>)
  {
    match GetDirectory(store, KeyForOutput(package, outHash), gets.item)
    case None => (false, work.(output := trees.empty))
    case Some(tree) =>
      var got := work.(output := tree);
      if trees.hash(got.output) != outHash then (false, got)
      else (true, got.(log := GetText(store, KeyForLog(package, outHash), gets.log)))
  }

  /** ReadMemoizedResultFromCache. */
  function ReadMemoized<Tree>(trees: Trees<Tree>, store: Store<Tree>, c: Call<Tree>): (bool, Work<Tree>) {
    match if c.useCached then GetText(store, c.ComputedKey(), c.gets.entry) else None
    case None => (false, c.before)
    case Some(outHash) => WriteOutputFromHash(trees, store, c.package, outHash, c.before, c.gets)
  }

  /** WriteResultToCache, with caching on: the object first, then its log, and only then the entry
      from the computation to the hash.  An exception leaves what was written so far. */
  function WriteResult<Tree>(trees: Trees<Tree>, store: Store<Tree>, c: Call<Tree>, work: Work<Tree>): Result<Tree> {
    var outHash := trees.hash(work.output);
    var outputKey, logKey := KeyForOutput(c.package, outHash), KeyForLog(c.package, outHash);
    match GetDirectory(store, outputKey, c.gets.existing)
    case None =>
      var stored := Put(store, outputKey, Directory(work.output), c.putDirectory);
      if c.putDirectory.PutFailed? then Result(stored, work, Raised)
      else
        var logged := if work.log.Some? then Put(stored, logKey, Text(work.log.value), c.putLog) else stored;
        if work.log.Some? && c.putLog.PutFailed? then Result(logged, work, Raised)
        else WriteEntry(logged, c, work, outHash)
    case Some(tree) =>
      var left := if c.useCached then Work(tree, GetText(store, logKey, c.gets.existingLog)) else work;
      WriteEntry(store, c, left, outHash)
  }

  function WriteEntry<Tree>(store: Store<Tree>, c: Call<Tree>, work: Work<Tree>, outHash: string): Result<Tree> {
    Result(Put(store, c.ComputedKey(), Text(outHash), c.putData), work, if c.putData.PutOk? then Computed else Raised)
  }

  function Run<Tree>(trees: Trees<Tree>, store: Store<Tree>, c: Call<Tree>): Result<Tree> {
    var (hit, read) := if c.memoize then ReadMemoized(trees, store, c) else (false, c.before);
    if hit then Result(store, read, CacheHit)
    else if c.built.None? then Result(store, read, Raised)
    else if c.overlaps then Result(store, c.built.value, Raised)
    else if c.memoize && c.cacheResults then WriteResult(trees, store, c, c.built.value)
    else Result(store, c.built.value, Computed)
  }

  // ---------- What every store keeps ----------

  /** Objects have the hash they are filed under, and every computed entry names an object. */
  ghost predicate Consistent<Tree(!new)>(trees: Trees<Tree>, store: Store<Tree>) {
    && (forall p, h :: |h| == HASH_LENGTH && KeyForOutput(p, h) in store ==>
          store[KeyForOutput(p, h)].Directory? && trees.hash(store[KeyForOutput(p, h)].tree) == h)
    && (forall s, e :: KeyForBuildSignature(s, e) in store ==>
          && store[KeyForBuildSignature(s, e)].Text?
          && |store[KeyForBuildSignature(s, e)].text| == HASH_LENGTH
          && exists p :: KeyForOutput(p, store[KeyForBuildSignature(s, e)].text) in store)
  }

  lemma PutObjectKeeps<Tree(!new)>(trees: Trees<Tree>, store: Store<Tree>, p: string, tree: Tree)
    requires Hashing(trees) && Consistent(trees, store)
    ensures Consistent(trees, store[KeyForOutput(p, trees.hash(tree)) := Directory(tree)])
  {
    var key := KeyForOutput(p, trees.hash(tree));
    var next := store[key := Directory(tree)];
    forall q, h | |h| == HASH_LENGTH && KeyForOutput(q, h) in next
      ensures next[KeyForOutput(q, h)].Directory? && trees.hash(next[KeyForOutput(q, h)].tree) == h
    {
      if KeyForOutput(q, h) == key {
        KeyForOutputInjective(q, h, p, trees.hash(tree));
      }
    }
    forall s, e | KeyForBuildSignature(s, e) in next
      ensures next[KeyForBuildSignature(s, e)].Text? && |next[KeyForBuildSignature(s, e)].text| == HASH_LENGTH
      ensures exists q :: KeyForOutput(q, next[KeyForBuildSignature(s, e)].text) in next
    {
      KeyFamilies(p, trees.hash(tree), s, e, "", "");
      var q :| KeyForOutput(q, store[KeyForBuildSignature(s, e)].text) in store;
      assert KeyForOutput(q, next[KeyForBuildSignature(s, e)].text) in next;
    }
  }

  lemma PutLogKeeps<Tree(!new)>(trees: Trees<Tree>, store: Store<Tree>, p: string, h: string, text: string)
    requires Consistent(trees, store)
    ensures Consistent(trees, store[KeyForLog(p, h) := Text(text)])
  {
    var next := store[KeyForLog(p, h) := Text(text)];
    forall q, g ensures KeyForOutput(q, g) != KeyForLog(p, h) { KeyFamilies(q, g, "", "", p, h); }
    forall s, e | KeyForBuildSignature(s, e) in next
      ensures next[KeyForBuildSignature(s, e)].Text? && |next[KeyForBuildSignature(s, e)].text| == HASH_LENGTH
      ensures exists q :: KeyForOutput(q, next[KeyForBuildSignature(s, e)].text) in next
    {
      KeyFamilies("", "", s, e, p, h);
      var q :| KeyForOutput(q, store[KeyForBuildSignature(s, e)].text) in store;
      assert KeyForOutput(q, next[KeyForBuildSignature(s, e)].text) in next;
    }
  }

  lemma PutEntryKeeps<Tree(!new)>(trees: Trees<Tree>, store: Store<Tree>, signature: string, extra: string,
                                  p: string, h: string)
    requires Consistent(trees, store) && |h| == HASH_LENGTH && KeyForOutput(p, h) in store
    ensures Consistent(trees, store[KeyForBuildSignature(signature, extra) := Text(h)])
  {
    var key := KeyForBuildSignature(signature, extra);
    var next := store[key := Text(h)];
    forall q, g ensures KeyForOutput(q, g) != key { KeyFamilies(q, g, signature, extra, "", ""); }
    forall s, e | KeyForBuildSignature(s, e) in next
      ensures next[KeyForBuildSignature(s, e)].Text? && |next[KeyForBuildSignature(s, e)].text| == HASH_LENGTH
      ensures exists q :: KeyForOutput(q, next[KeyForBuildSignature(s, e)].text) in next
    {
      if KeyForBuildSignature(s, e) == key {
        assert KeyForOutput(p, next[KeyForBuildSignature(s, e)].text) in next;
      } else {
        var q :| KeyForOutput(q, store[KeyForBuildSignature(s, e)].text) in store;
        assert KeyForOutput(q, next[KeyForBuildSignature(s, e)].text) in next;
      }
    }
  }

  /** Wherever a call ends, even between two puts, the store is consistent. */
  lemma RunKeepsConsistent<Tree(!new)>(trees: Trees<Tree>, store: Store<Tree>, c: Call<Tree>)
    requires Hashing(trees) && Consistent(trees, store)
    ensures Consistent(trees, Run(trees, store, c).store)
  {
    hide Consistent;
    if c.built.Some? {
      var work := c.built.value;
      var h := trees.hash(work.output);
      var outputKey := KeyForOutput(c.package, h);
      PutObjectKeeps(trees, store, c.package, work.output);
      var stored := store[outputKey := Directory(work.output)];
      if work.log.Some? {
        PutLogKeeps(trees, stored, c.package, h, work.log.value);
        KeyFamilies(c.package, h, c.signature, c.extra, c.package, h);
        var logged := stored[KeyForLog(c.package, h) := Text(work.log.value)];
        PutEntryKeeps(trees, logged, c.signature, c.extra, c.package, h);
      }
      PutEntryKeeps(trees, stored, c.signature, c.extra, c.package, h);
      if outputKey in store {
        PutEntryKeeps(trees, store, c.signature, c.extra, c.package, h);
      }
    }
  }

  // ---------- Histories ----------

  /** The store after a series of calls, starting from an empty one. */
  function StoreAfter<Tree>(trees: Trees<Tree>, calls: seq<Call<Tree>>): Store<Tree> {
    if calls == [] then map[]
    else Run(trees, StoreAfter(trees, calls[..|calls| - 1]), calls[|calls| - 1]).store
  }

  lemma {:induction false} ReachableConsistent<Tree(!new)>(trees: Trees<Tree>, calls: seq<Call<Tree>>)
    requires Hashing(trees)
    ensures Consistent(trees, StoreAfter(trees, calls))
  {
    if calls != [] {
      var before := calls[..|calls| - 1];
      ReachableConsistent(trees, before);
      RunKeepsConsistent(trees, StoreAfter(trees, before), calls[|calls| - 1]);
    }
  }

  /** The call does not hit, its commands succeed, and the result goes to the cache. */
  predicate Caches<Tree>(trees: Trees<Tree>, store: Store<Tree>, c: Call<Tree>) {
    c.memoize && c.cacheResults && !ReadMemoized(trees, store, c).0 && c.built.Some? && !c.overlaps
  }

  /** The call got as far as writing its computed entry, and the entry was stored. */
  predicate Wrote<Tree>(trees: Trees<Tree>, store: Store<Tree>, c: Call<Tree>) {
    && Caches(trees, store, c)
    && (c.putData.PutOk? || c.putData.stored)
    && (GetDirectory(store, KeyForOutput(c.package, trees.hash(c.built.value.output)), c.gets.existing).Some?
        || (c.putDirectory.PutOk? && (c.built.value.log.None? || c.putLog.PutOk?)))
  }

  /** Who last wrote a computed entry, and the hash of the output that call left behind. */
  datatype Entry = Entry(package: string, hash: string)

  function LastWrite<Tree>(trees: Trees<Tree>, calls: seq<Call<Tree>>, key: string): Option<Entry> {
    if calls == [] then None
    else
      var before, c := calls[..|calls| - 1], calls[|calls| - 1];
      var store := StoreAfter(trees, before);
      if Wrote(trees, store, c) && c.ComputedKey() == key then
        Some(Entry(c.package, trees.hash(Run(trees, store, c).work.output)))
      else LastWrite(trees, before, key)
  }

  /** Replacing a fresh output by the cached copy never changes its stable hash: whatever the ending,
      a call that computes leaves an output with the hash of what the commands built. */
  lemma SwapKeepsHash<Tree(!new)>(trees: Trees<Tree>, store: Store<Tree>, c: Call<Tree>)
    requires Hashing(trees) && Consistent(trees, store) && c.built.Some?
    ensures trees.hash(WriteResult(trees, store, c, c.built.value).work.output) == trees.hash(c.built.value.output)
  {
  }

  /** A call that writes its entry records the hash of the output it leaves, and that object is there. */
  lemma WroteStores<Tree(!new)>(trees: Trees<Tree>, store: Store<Tree>, c: Call<Tree>)
    requires Hashing(trees) && Consistent(trees, store) && Wrote(trees, store, c)
    ensures var r := Run(trees, store, c);
            && c.ComputedKey() in r.store && r.store[c.ComputedKey()] == Text(trees.hash(r.work.output))
            && KeyForOutput(c.package, trees.hash(r.work.output)) in r.store
  {
    SwapKeepsHash(trees, store, c);
    var h := trees.hash(c.built.value.output);
    KeyFamilies(c.package, h, c.signature, c.extra, c.package, h);
  }

  /** A call changes no computed entry but its own, and that one only by writing it; no object
      disappears. */
  lemma OthersKept<Tree(!new)>(trees: Trees<Tree>, store: Store<Tree>, c: Call<Tree>, s: string, e: string)
    requires Hashing(trees) && Consistent(trees, store)
    requires !(Wrote(trees, store, c) && c.ComputedKey() == KeyForBuildSignature(s, e))
    ensures var next, key := Run(trees, store, c).store, KeyForBuildSignature(s, e);
            key in next <==> key in store
    ensures var next, key := Run(trees, store, c).store, KeyForBuildSignature(s, e);
            key in store ==> next[key] == store[key]
    ensures store.Keys <= Run(trees, store, c).store.Keys
  {
    if c.built.Some? {
      var h := trees.hash(c.built.value.output);
      KeyFamilies(c.package, h, s, e, c.package, h);
    }
  }

  /** A computed entry in a reachable store is the one last written, and its object is present. */
  lemma {:induction false} EntryIsLastWrite<Tree(!new)>(trees: Trees<Tree>, calls: seq<Call<Tree>>, s: string,
                                                        e: string)
    requires Hashing(trees)
    ensures var store, key := StoreAfter(trees, calls), KeyForBuildSignature(s, e);
            match LastWrite(trees, calls, key)
            case None => key !in store
            case Some(entry) => key in store && store[key] == Text(entry.hash)
                                && |entry.hash| == HASH_LENGTH && KeyForOutput(entry.package, entry.hash) in store
  {
    if calls != [] {
      var before, c := calls[..|calls| - 1], calls[|calls| - 1];
      EntryIsLastWrite(trees, before, s, e);
      ReachableConsistent(trees, before);
      var store := StoreAfter(trees, before);
      hide Run, Consistent, Wrote;
      if Wrote(trees, store, c) && c.ComputedKey() == KeyForBuildSignature(s, e) {
        WroteStores(trees, store, c);
      } else {
        OthersKept(trees, store, c, s, e);
      }
    }
  }

  /** After any calls, a cache hit leaves an output with the stable hash of the output that the call
      which last wrote the entry left behind, and changes nothing in the store.  It is a hit exactly when
      the cache is asked, an entry was written, both downloads work, and there is an object of that hash for
      the package, as there is when the entry was last written for the same package. */
  lemma HitIsLastWrite<Tree(!new)>(trees: Trees<Tree>, calls: seq<Call<Tree>>, c: Call<Tree>)
    requires Hashing(trees)
    ensures var store := StoreAfter(trees, calls);
            var r := Run(trees, store, c);
            var last := LastWrite(trees, calls, c.ComputedKey());
            && (r.ending == CacheHit ==> last.Some? && trees.hash(r.work.output) == last.value.hash && r.store == store)
            && (r.ending == CacheHit <==>
                  && c.useCached && c.memoize && last.Some? && c.gets.entry && c.gets.item
                  && KeyForOutput(c.package, last.value.hash) in store)
            && (last.Some? && last.value.package == c.package ==> KeyForOutput(c.package, last.value.hash) in store)
  {
    EntryIsLastWrite(trees, calls, c.signature, c.extra);
    ReachableConsistent(trees, calls);
  }

  // ---------- Which call filed an object ----------

  lemma KeyForLogInjective(package: string, hash: string, q: string, g: string)
    requires |hash| == |g| && KeyForLog(package, hash) == KeyForLog(q, g)
    ensures package == q && hash == g
  {
    var k, l := KeyForLog(package, hash), KeyForLog(q, g);
    assert |package| == |q|;
    assert package == k[4..4 + |package|] && q == l[4..4 + |q|];
    assert hash == k[5 + |package|..5 + |package| + |hash|] && g == l[5 + |q|..5 + |q| + |g|];
  }

  /** The call stores the tree it built as the object of package `p` and hash `h`.  That takes a GetDirectory
      that finds nothing, because there is nothing or because the download fails. */
  predicate Files<Tree>(trees: Trees<Tree>, store: Store<Tree>, c: Call<Tree>, p: string, h: string) {
    && Caches(trees, store, c)
    && c.package == p && trees.hash(c.built.value.output) == h
    && GetDirectory(store, KeyForOutput(p, h), c.gets.existing).None?
    && (c.putDirectory.PutOk? || c.putDirectory.stored)
  }

  /** And the log, which needs the first put to succeed. */
  predicate FilesLog<Tree>(trees: Trees<Tree>, store: Store<Tree>, c: Call<Tree>, p: string, h: string) {
    && Files(trees, store, c, p, h)
    && c.putDirectory.PutOk? && c.built.value.log.Some? && (c.putLog.PutOk? || c.putLog.stored)
  }

  /** What one call makes of an object: overwritten by what was built when the call files it, and otherwise
      untouched. */
  lemma ObjectAfter<Tree(!new)>(trees: Trees<Tree>, store: Store<Tree>, c: Call<Tree>, p: string, h: string)
    requires Hashing(trees) && Consistent(trees, store) && |h| == HASH_LENGTH
    ensures var next, key := Run(trees, store, c).store, KeyForOutput(p, h);
            GetDirectory(next, key, true)
            == if Files(trees, store, c, p, h) then Some(c.built.value.output) else GetDirectory(store, key, true)
  {
    if c.built.Some? {
      var g := trees.hash(c.built.value.output);
      KeyFamilies(p, h, c.signature, c.extra, c.package, g);
      if KeyForOutput(c.package, g) == KeyForOutput(p, h) {
        KeyForOutputInjective(c.package, g, p, h);
      }
    }
  }

  /** And of its log. */
  lemma LogAfter<Tree(!new)>(trees: Trees<Tree>, store: Store<Tree>, c: Call<Tree>, p: string, h: string)
    requires Hashing(trees) && |h| == HASH_LENGTH
    ensures var next, key := Run(trees, store, c).store, KeyForLog(p, h);
            GetText(next, key, true)
            == if FilesLog(trees, store, c, p, h) then c.built.value.log else GetText(store, key, true)
  {
    if c.built.Some? {
      var g := trees.hash(c.built.value.output);
      KeyFamilies(c.package, g, c.signature, c.extra, p, h);
      if KeyForLog(c.package, g) == KeyForLog(p, h) {
        KeyForLogInjective(c.package, g, p, h);
      }
    }
  }

  /** An object that is there is replaced exactly when a call of its package and hash computes, fails to
      download it, and its put takes effect. */
  lemma OverwrittenExactly<Tree(!new)>(trees: Trees<Tree>, store: Store<Tree>, c: Call<Tree>, p: string, h: string)
    requires Hashing(trees) && Consistent(trees, store) && |h| == HASH_LENGTH && KeyForOutput(p, h) in store
    ensures Files(trees, store, c, p, h) <==>
              && Caches(trees, store, c) && c.package == p && trees.hash(c.built.value.output) == h
              && !c.gets.existing && (c.putDirectory.PutOk? || c.putDirectory.stored)
    ensures GetDirectory(Run(trees, store, c).store, KeyForOutput(p, h), true)
            != GetDirectory(store, KeyForOutput(p, h), true)
            <==> Files(trees, store, c, p, h) && store[KeyForOutput(p, h)] != Directory(c.built.value.output)
    ensures !Files(trees, store, c, p, h) ==>
              GetText(Run(trees, store, c).store, KeyForLog(p, h), true) == GetText(store, KeyForLog(p, h), true)
  {
    ObjectAfter(trees, store, c, p, h);
    LogAfter(trees, store, c, p, h);
  }

  /** The tree that the calls last filed as an object. */
  function LastFiled<Tree>(trees: Trees<Tree>, calls: seq<Call<Tree>>, p: string, h: string): Option<Tree> {
    if calls == [] then None
    else
      var before, c := calls[..|calls| - 1], calls[|calls| - 1];
      if Files(trees, StoreAfter(trees, before), c, p, h) then Some(c.built.value.output)
      else LastFiled(trees, before, p, h)
  }

  function LastLog<Tree>(trees: Trees<Tree>, calls: seq<Call<Tree>>, p: string, h: string): Option<string> {
    if calls == [] then None
    else
      var before, c := calls[..|calls| - 1], calls[|calls| - 1];
      if FilesLog(trees, StoreAfter(trees, before), c, p, h) then c.built.value.log
      else LastLog(trees, before, p, h)
  }

  /** After any calls, object and log are those last filed. */
  lemma {:induction false} ObjectIsLastFiled<Tree(!new)>(trees: Trees<Tree>, calls: seq<Call<Tree>>, p: string,
                                                         h: string)
    requires Hashing(trees) && |h| == HASH_LENGTH
    ensures GetDirectory(StoreAfter(trees, calls), KeyForOutput(p, h), true) == LastFiled(trees, calls, p, h)
    ensures GetText(StoreAfter(trees, calls), KeyForLog(p, h), true) == LastLog(trees, calls, p, h)
  {
    if calls != [] {
      var before := calls[..|calls| - 1];
      ObjectIsLastFiled(trees, before, p, h);
      ReachableConsistent(trees, before);
      hide Run, Consistent, Files, FilesLog, GetDirectory, GetText;
      ObjectAfter(trees, StoreAfter(trees, before), calls[|calls| - 1], p, h);
      LogAfter(trees, StoreAfter(trees, before), calls[|calls| - 1], p, h);
    }
  }

  /** A cache hit leaves the very tree that was last filed for its package and hash, and the log last filed,
      or none when that download fails. */
  lemma HitReturnsLastFiled<Tree(!new)>(trees: Trees<Tree>, calls: seq<Call<Tree>>, c: Call<Tree>)
    requires Hashing(trees) && Run(trees, StoreAfter(trees, calls), c).ending == CacheHit
    ensures var work := Run(trees, StoreAfter(trees, calls), c).work;
            var h := trees.hash(work.output);
            && Some(work.output) == LastFiled(trees, calls, c.package, h)
            && work.log == if c.gets.log then LastLog(trees, calls, c.package, h) else None
  {
    var store := StoreAfter(trees, calls);
    assert ReadMemoized(trees, store, c).0;
    ObjectIsLastFiled(trees, calls, c.package, trees.hash(Run(trees, store, c).work.output));
  }

  /** No later call of this package and hash fails to download the object that is there. */
  predicate NoneMisses<Tree>(trees: Trees<Tree>, more: seq<Call<Tree>>, p: string, h: string) {
    forall i :: 0 <= i < |more| ==>
      || more[i].gets.existing || more[i].package != p
      || more[i].built.None? || trees.hash(more[i].built.value.output) != h
  }

  lemma {:induction false} FiledStays<Tree(!new)>(trees: Trees<Tree>, calls: seq<Call<Tree>>, more: seq<Call<Tree>>,
                                                 p: string, h: string)
    requires Hashing(trees) && |h| == HASH_LENGTH
    requires LastFiled(trees, calls, p, h).Some? && NoneMisses(trees, more, p, h)
    ensures LastFiled(trees, calls + more, p, h) == LastFiled(trees, calls, p, h)
    ensures LastLog(trees, calls + more, p, h) == LastLog(trees, calls, p, h)
    decreases |more|
  {
    if more == [] {
      assert calls + more == calls;
    } else {
      var front, c := more[..|more| - 1], more[|more| - 1];
      assert (calls + more)[..|calls + more| - 1] == calls + front;
      assert more[|more| - 1] == c;
      FiledStays(trees, calls, front, p, h);
      ObjectIsLastFiled(trees, calls + front, p, h);
      hide StoreAfter, Caches;
      assert !Files(trees, StoreAfter(trees, calls + front), c, p, h);
    }
  }

  /** While no later call of the same package and hash misses the object, the call that first filed it decides:
      a hit leaves the very tree that call built, and its log unless that download fails. */
  lemma HitReturnsFirstStored<Tree(!new)>(trees: Trees<Tree>, calls: seq<Call<Tree>>, first: Call<Tree>,
                                          more: seq<Call<Tree>>, c: Call<Tree>, h: string)
    requires Hashing(trees) && FilesLog(trees, StoreAfter(trees, calls), first, first.package, h)
    requires NoneMisses(trees, more, first.package, h)
    requires var r := Run(trees, StoreAfter(trees, calls + [first] + more), c);
             r.ending == CacheHit && c.package == first.package && trees.hash(r.work.output) == h
    ensures Run(trees, StoreAfter(trees, calls + [first] + more), c).work
         == Work(first.built.value.output, if c.gets.log then first.built.value.log else None)
  {
    hide Run, StoreAfter, Files, FilesLog;
    assert (calls + [first])[..|calls|] == calls;
    FilesWhat(trees, StoreAfter(trees, calls), first, h);
    FiledStays(trees, calls + [first], more, first.package, h);
    HitReturnsLastFiled(trees, calls + [first] + more, c);
  }

  lemma FilesWhat<Tree(!new)>(trees: Trees<Tree>, store: Store<Tree>, c: Call<Tree>, h: string)
    requires Hashing(trees) && FilesLog(trees, store, c, c.package, h)
    ensures Files(trees, store, c, c.package, h) && |h| == HASH_LENGTH
  {
  }

  // ---------- How a call ends, and what it leaves ----------

  /** The cache is asked, an entry was written for the computation, both downloads work, and some call has filed
      an object of that hash for this package. */
  predicate Hits<Tree>(trees: Trees<Tree>, calls: seq<Call<Tree>>, c: Call<Tree>) {
    var last := LastWrite(trees, calls, c.ComputedKey());
    && c.memoize && c.useCached && c.gets.entry && last.Some?
    && c.gets.item && LastFiled(trees, calls, c.package, last.value.hash).Some?
  }

  /** An object of the hash that was built is there, and its download works. */
  predicate Finds<Tree>(trees: Trees<Tree>, calls: seq<Call<Tree>>, c: Call<Tree>)
    requires c.built.Some?
  {
    c.gets.existing && LastFiled(trees, calls, c.package, trees.hash(c.built.value.output)).Some?
  }

  /** One of the puts that the call comes to fails: of the object and of the log if there is one, when no object
      was found, and of the computed entry. */
  predicate PutFails<Tree>(trees: Trees<Tree>, calls: seq<Call<Tree>>, c: Call<Tree>)
    requires c.built.Some?
  {
    || (!Finds(trees, calls, c) && (c.putDirectory.PutFailed? || (c.built.value.log.Some? && c.putLog.PutFailed?)))
    || c.putData.PutFailed?
  }

  /** After any calls, a call hits as stated; otherwise it raises exactly when a command fails, or the output
      overlaps an input, or the result is cached and a put that it comes to fails; and otherwise it computes. */
  lemma EndingExactly<Tree(!new)>(trees: Trees<Tree>, calls: seq<Call<Tree>>, c: Call<Tree>)
    requires Hashing(trees)
    ensures var ending := Run(trees, StoreAfter(trees, calls), c).ending;
            var raises := || c.built.None? || c.overlaps
                          || (c.memoize && c.cacheResults && PutFails(trees, calls, c));
            && (ending == CacheHit <==> Hits(trees, calls, c))
            && (ending == Raised <==> !Hits(trees, calls, c) && raises)
            && (ending == Computed <==> !Hits(trees, calls, c) && !raises)
  {
    HitIsHits(trees, calls, c);
    if c.built.Some? {
      FindsIs(trees, calls, c);
    }
    hide StoreAfter, LastFiled, LastWrite, Hits, ReadMemoized, GetDirectory;
  }

  /** A hit of the store is a hit of the history. */
  lemma HitIsHits<Tree(!new)>(trees: Trees<Tree>, calls: seq<Call<Tree>>, c: Call<Tree>)
    requires Hashing(trees)
    ensures Run(trees, StoreAfter(trees, calls), c).ending == CacheHit <==> Hits(trees, calls, c)
    ensures c.memoize && ReadMemoized(trees, StoreAfter(trees, calls), c).0 <==> Hits(trees, calls, c)
  {
    HitIsLastWrite(trees, calls, c);
    EntryIsLastWrite(trees, calls, c.signature, c.extra);
    ReachableConsistent(trees, calls);
    var last := LastWrite(trees, calls, c.ComputedKey());
    if last.Some? {
      ObjectIsLastFiled(trees, calls, c.package, last.value.hash);
    }
    hide StoreAfter, LastFiled, LastWrite, ReadMemoized;
  }

  lemma FindsIs<Tree(!new)>(trees: Trees<Tree>, calls: seq<Call<Tree>>, c: Call<Tree>)
    requires Hashing(trees) && c.built.Some?
    ensures var h := trees.hash(c.built.value.output);
            GetDirectory(StoreAfter(trees, calls), KeyForOutput(c.package, h), c.gets.existing)
            == if Finds(trees, calls, c) then LastFiled(trees, calls, c.package, h) else None
    ensures var h := trees.hash(c.built.value.output);
            GetText(StoreAfter(trees, calls), KeyForLog(c.package, h), c.gets.existingLog)
            == if c.gets.existingLog then LastLog(trees, calls, c.package, h) else None
  {
    ObjectIsLastFiled(trees, calls, c.package, trees.hash(c.built.value.output));
  }

  /** What a call leaves in the working directory.  A hit leaves the tree last filed, and the log last filed.
      When a command fails it is as before, but for an output emptied in looking for an object that was not
      got.  Otherwise it is what was built; but when the result goes to the cache and the cache may be used, a
      tree found there takes its place, with its log. */
  lemma WorkExactly<Tree(!new)>(trees: Trees<Tree>, calls: seq<Call<Tree>>, c: Call<Tree>)
    requires Hashing(trees)
    ensures var work := Run(trees, StoreAfter(trees, calls), c).work;
            var last := LastWrite(trees, calls, c.ComputedKey());
            if Hits(trees, calls, c) then
              var h := last.value.hash;
              && Some(work.output) == LastFiled(trees, calls, c.package, h)
              && work.log == if c.gets.log then LastLog(trees, calls, c.package, h) else None
            else if c.built.None? then
              work == if c.memoize && c.useCached && c.gets.entry && last.Some? then c.before.(output := trees.empty)
                      else c.before
            else if !c.overlaps && c.memoize && c.cacheResults && c.useCached && Finds(trees, calls, c) then
              var h := trees.hash(c.built.value.output);
              && Some(work.output) == LastFiled(trees, calls, c.package, h)
              && work.log == if c.gets.existingLog then LastLog(trees, calls, c.package, h) else None
            else work == c.built.value
  {
    HitIsHits(trees, calls, c);
    if Hits(trees, calls, c) {
      HitReturnsLastFiled(trees, calls, c);
      HitIsLastWrite(trees, calls, c);
    } else if c.built.None? {
      MissLeaves(trees, calls, c);
    } else {
      FindsIs(trees, calls, c);
    }
    hide StoreAfter, LastFiled, LastLog, LastWrite, Hits, ReadMemoized, GetDirectory, GetText;
  }

  lemma MissLeaves<Tree(!new)>(trees: Trees<Tree>, calls: seq<Call<Tree>>, c: Call<Tree>)
    requires Hashing(trees) && !(c.memoize && ReadMemoized(trees, StoreAfter(trees, calls), c).0)
    ensures c.memoize ==>
              ReadMemoized(trees, StoreAfter(trees, calls), c).1
              == if c.useCached && c.gets.entry && LastWrite(trees, calls, c.ComputedKey()).Some?
                 then c.before.(output := trees.empty) else c.before
  {
    EntryIsLastWrite(trees, calls, c.signature, c.extra);
    ReachableConsistent(trees, calls);
    hide StoreAfter, LastWrite;
  }

  // ---------- The check for overlapping outputs ----------

  /** Absolute normal paths as their components. */
  type Path = seq<string>

  function CommonPrefix(p: Path, q: Path): (n: nat)
    ensures n <= |p| && n <= |q| && p[..n] == q[..n]
    ensures n < |p| && n < |q| ==> p[n] != q[n]
  {
    if p == [] || q == [] || p[0] != q[0] then 0
    else
      var n := CommonPrefix(p[1..], q[1..]);
      assert p[..n + 1] == [p[0]] + p[1..][..n] && q[..n + 1] == [q[0]] + q[1..][..n];
      n + 1
  }

  /** os.path.relpath(output, path) as components: up from `path`, then down to `output`. */
  function RelPath(output: Path, path: Path): Path {
    var n := CommonPrefix(output, path);
    seq(|path| - n, _ => "..") + output[n..]
  }

  /** The check of Run: the relative path must start with "../", that is with ".." and more. */
  predicate Rejected(output: Path, path: Path) {
    var r := RelPath(output, path);
    !(|r| >= 2 && r[0] == "..")
  }

  /** The check catches an output inside a hashed path and one that is its parent directory, and no
      other: an output two or more levels above a hashed path contains it and is let through. */
  lemma RejectedExactly(output: Path, path: Path)
    requires ".." !in output
    ensures Rejected(output, path) <==> path <= output || (output < path && |path| == |output| + 1)
    ensures (path <= output || output <= path) && !Rejected(output, path) <==> output < path && |path| >= |output| + 2
  {
    var n := CommonPrefix(output, path);
    var r := RelPath(output, path);
    assert n < |path| ==> r[0] == "..";
    assert n == |path| ==> r == output[n..];
    assert n == |output| ==> output == path[..n];
    assert n == |path| ==> path == output[..n];
    if path <= output { assert output[..|path|] == path; }
    if output <= path { assert path[..|output|] == output; }
  }

  lemma OverlapMissed()
    ensures !Rejected(["a"], ["a", "b", "c"])
  {
    RejectedExactly(["a"], ["a", "b", "c"]);
  }
}
