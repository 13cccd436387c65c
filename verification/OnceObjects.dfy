/**
 The class Once of once.py, its methods proved to do what OnceStore says of a call.
 */
module OnceObjects {
  import opened Basics
  import opened OnceStore
  import opened OnceSignature

  class Storage<Tree> {
    var store: Store<Tree>

    constructor ()
      ensures store == map[]
    { store := map[]; }

    /** `downloads` is whether the download works, here and below. */
    method GetData(key: string, downloads: bool) returns (data: Option<string>)
      ensures data == GetText(store, key, downloads)
    {
      data := None;
      if downloads && key in store && store[key].Text? {
        data := Some(store[key].text);
      }
    }

    method GetTree(key: string, downloads: bool) returns (tree: Option<Tree>)
      ensures tree == GetDirectory(store, key, downloads)
    {
      tree := None;
      if downloads && key in store && store[key].Directory? {
        tree := Some(store[key].tree);
      }
    }

    method PutBlob(key: string, blob: Blob<Tree>, outcome: PutOutcome)
      modifies this
      ensures store == Put(old(store), key, blob, outcome)
    {
      if outcome.PutOk? || outcome.stored {
        store := store[key := blob];
      }
    }
  }

  /** By the key of the stored directory. */
  datatype CloudStorageItem = CloudStorageItem(dirItem: string)

  /** _ProcessCloudItem. */
  function Recorded(items: map<string, CloudStorageItem>, package: string, hash: string): map<string,
      CloudStorageItem> {
    items[package := CloudStorageItem(KeyForOutput(package, hash))]
  }

  /** The item recorded for a package names the object of that package and hash; other packages keep theirs. */
  lemma RecordedIs(items: map<string, CloudStorageItem>, package: string, hash: string)
    ensures var now := Recorded(items, package, hash);
            && now.Keys == items.Keys + {package}
            && now[package].dirItem == KeyForOutput(package, hash)
            && forall q :: q in items && q != package ==> now[q] == items[q]
  {
  }

  /** What a call computes from: inputs by name, with the sorted names, the commands, and the output. */
  datatype Recipe = Recipe(inputs: map<string, string>, names: seq<string>, commands: seq<string>, output: string)
  {
    predicate Proper() { forall k :: k in names ==> k in inputs }

    ghost function Paths(): set<string>
      requires Proper()
    { InputPaths(inputs, names, |names|) }
  }

  /** The file system and the hash functions as they are during a call: StableHashPath, SHA-1 as a hex digest,
      and the absolute normal components of a path. */
  datatype System = System(stableHash: string -> string, sha1: string -> string, components: string -> Path,
                           summary: string)

  /** Some hashed path rejects the output. */
  predicate Overlapping(system: System, output: string, hashed: set<string>) {
    exists path :: path in hashed && Rejected(system.components(output), system.components(path))
  }

  /** An output overlaps exactly when it is inside a hashed path, or is one, or is the parent of one. */
  lemma OverlappingExactly(system: System, output: string, hashed: set<string>)
    requires ".." !in system.components(output)
    ensures Overlapping(system, output, hashed)
        <==> InTheWay(system, output, hashed)
  {
    forall path | path in hashed
      ensures Rejected(system.components(output), system.components(path))
          <==> InsideOrParent(system.components(output), system.components(path))
    {
      RejectedExactly(system.components(output), system.components(path));
    }
  }

  predicate InTheWay(system: System, output: string, hashed: set<string>) {
    exists path :: path in hashed && InsideOrParent(system.components(output), system.components(path))
  }

  predicate InsideOrParent(output: Path, path: Path) {
    path <= output || (output < path && |path| == |output| + 1)
  }

  /** So a call of Run whose output is in the way of a path that is hashed by then leaves the store as it was, and
      ends with an exception unless it hits; and no other output is rejected. */
  lemma InTheWayStops<Tree(!new)>(trees: Trees<Tree>, calls: seq<Call<Tree>>, c: Call<Tree>, system: System,
                                  output: string, hashed: set<string>)
    requires Hashing(trees) && ".." !in system.components(output)
    ensures var call := c.(overlaps := Overlapping(system, output, hashed));
            var store := StoreAfter(trees, calls);
            var r := OnceStore.Run(trees, store, call);
            && (call.overlaps <==> InTheWay(system, output, hashed))
            && (InTheWay(system, output, hashed) ==>
                  r.store == store && r.ending == if Hits(trees, calls, call) then CacheHit else Raised)
  {
    OverlappingExactly(system, output, hashed);
    EndingExactly(trees, calls, c.(overlaps := Overlapping(system, output, hashed)));
    hide StoreAfter, Hits, Overlapping, InTheWay;
  }

  lemma OverlapOnly<Tree>(trees: Trees<Tree>, store: Store<Tree>, c: Call<Tree>, overlaps: bool)
    ensures ReadMemoized(trees, store, c) == ReadMemoized(trees, store, c.(overlaps := overlaps))
    ensures c.built.Some? ==>
              WriteResult(trees, store, c, c.built.value)
              == WriteResult(trees, store, c.(overlaps := overlaps), c.built.value)
  {
  }

  class Once<Tree> {
    const trees: Trees<Tree>
    const storage: Storage<Tree>
    const useCachedResults: bool
    const cacheResults: bool
    var cachedCloudItems: map<string, CloudStorageItem>
    var pathHashCache: map<string, string>

    constructor (trees: Trees<Tree>, storage: Storage<Tree>, useCachedResults: bool, cacheResults: bool)
      ensures this.trees == trees && this.storage == storage
      ensures this.useCachedResults == useCachedResults && this.cacheResults == cacheResults
      ensures cachedCloudItems == map[] && pathHashCache == map[]
    {
      this.trees, this.storage := trees, storage;
      this.useCachedResults, this.cacheResults := useCachedResults, cacheResults;
      cachedCloudItems, pathHashCache := map[], map[];
    }

    method WriteOutputFromHash(package: string, outHash: string, work: Work<Tree>, gets: Gets)
      returns (ok: bool, after: Work<Tree>)
      ensures (ok, after) == OnceStore.WriteOutputFromHash(trees, storage.store, package, outHash, work, gets)
    {
      after := work;
      var dirItem := storage.GetTree(KeyForOutput(package, outHash), gets.item);
      if dirItem.None? {
        return false, after.(output := trees.empty);
      }
      after := after.(output := dirItem.value);
      if trees.hash(after.output) != outHash {
        return false, after;
      }
      var log := storage.GetData(KeyForLog(package, outHash), gets.log);
      after := after.(log := log);
      ok := true;
    }

    method ReadMemoizedResultFromCache(c: Call<Tree>) returns (hit: bool, work: Work<Tree>)
      requires c.useCached == useCachedResults
      modifies this`cachedCloudItems
      ensures (hit, work) == ReadMemoized(trees, storage.store, c)
      ensures cachedCloudItems == if hit
                then Recorded(old(cachedCloudItems), c.package, trees.hash(work.output))
                else old(cachedCloudItems)
    {
      hit, work := false, c.before;
      if useCachedResults {
        var outHash := storage.GetData(KeyForBuildSignature(c.signature, c.extra), c.gets.entry);
        if outHash.Some? {
          hit, work := WriteOutputFromHash(c.package, outHash.value, c.before, c.gets);
          if hit {
            cachedCloudItems := Recorded(cachedCloudItems, c.package, outHash.value);
          }
        }
      }
    }

    method WriteResultToCache(c: Call<Tree>, built: Work<Tree>) returns (work: Work<Tree>, raised: bool)
      requires c.useCached == useCachedResults && c.cacheResults == cacheResults
      modifies this`cachedCloudItems, storage
      ensures Result(storage.store, work, if raised then Raised else Computed)
           == if cacheResults then WriteResult(trees, old(storage.store), c, built)
              else Result(old(storage.store), built, Computed)
      ensures cachedCloudItems == if cacheResults && !raised
                then Recorded(old(cachedCloudItems), c.package, trees.hash(built.output))
                else old(cachedCloudItems)
    {
      work, raised := built, false;
      if !cacheResults {
        return;
      }
      var outHash := trees.hash(built.output);
      var outputKey, logKey := KeyForOutput(c.package, outHash), KeyForLog(c.package, outHash);
      var dirItem := storage.GetTree(outputKey, c.gets.existing);
      if dirItem.None? {
        storage.PutBlob(outputKey, Directory(built.output), c.putDirectory);
        if c.putDirectory.PutFailed? {
          return work, true;
        }
        if built.log.Some? {
          storage.PutBlob(logKey, Text(built.log.value), c.putLog);
          if c.putLog.PutFailed? {
            return work, true;
          }
        }
      } else if useCachedResults {
        var log := storage.GetData(logKey, c.gets.existingLog);
        work := Work(dirItem.value, log);
      }
      storage.PutBlob(KeyForBuildSignature(c.signature, c.extra), Text(outHash), c.putData);
      if c.putData.PutFailed? {
        return work, true;
      }
      cachedCloudItems := Recorded(cachedCloudItems, c.package, outHash);
    }

    /** The loop over _path_hash_cache; true is the exception. */
    method CheckOverlap(system: System, output: string) returns (overlaps: bool)
      ensures overlaps == Overlapping(system, output, pathHashCache.Keys)
    {
      var left := pathHashCache.Keys;
      while left != {}
        invariant left <= pathHashCache.Keys
        invariant Overlapping(system, output, pathHashCache.Keys) <==> Overlapping(system, output, left)
        decreases left
      {
        var path :| path in left;
        if Rejected(system.components(output), system.components(path)) {
          return true;
        }
        left := left - {path};
      }
      overlaps := false;
    }

    /** Run computes the signature from what it is given, and checks the output against every path that has a
        cached hash when the commands are done; of `c` it takes the rest. */
    method Run(c: Call<Tree>, recipe: Recipe, system: System) returns (work: Work<Tree>, ending: Ending)
      requires c.useCached == useCachedResults && c.cacheResults == cacheResults
      requires recipe.Proper()
      modifies this`cachedCloudItems, this`pathHashCache, storage
      ensures var call := c.(signature := Signed(c.package, recipe, system, old(pathHashCache)),
                             overlaps := Overlapping(system, recipe.output, old(pathHashCache).Keys + recipe.Paths()));
              Result(storage.store, work, ending) == OnceStore.Run(trees, old(storage.store), call)
      ensures cachedCloudItems
           == if ending == CacheHit then Recorded(old(cachedCloudItems), c.package, trees.hash(work.output))
              else if ending == Computed && c.memoize && c.cacheResults && c.built.Some? then
                Recorded(old(cachedCloudItems), c.package, trees.hash(c.built.value.output))
              else old(cachedCloudItems)
      ensures Covers(old(pathHashCache), pathHashCache, recipe.inputs, recipe.names,
                     InputHashes(old(pathHashCache), system.stableHash), |recipe.names|)
    {
      hide Covers, Signed, Overlapping, ReadMemoized, WriteResult, Recorded, InputHashes;
      var signature := BuildSignature(c.package, recipe, system);
      assert pathHashCache.Keys == old(pathHashCache).Keys + recipe.Paths() by {
        CoversKeys(old(pathHashCache), pathHashCache, recipe.inputs, recipe.names,
                   InputHashes(old(pathHashCache), system.stableHash), |recipe.names|);
      }
      work := c.before;
      var call := c.(signature := signature);
      ghost var whole := call.(overlaps := Overlapping(system, recipe.output, pathHashCache.Keys));
      OverlapOnly(trees, storage.store, call, whole.overlaps);
      if c.memoize {
        var hit;
        hit, work := ReadMemoizedResultFromCache(call);
        if hit {
          return work, CacheHit;
        }
      }
      if c.built.None? {
        return work, Raised;
      }
      work := c.built.value;
      var overlaps := CheckOverlap(system, recipe.output);
      if overlaps {
        return work, Raised;
      }
      ending := Computed;
      if c.memoize {
        var raised;
        work, raised := WriteResultToCache(call, work);
        if raised {
          ending := Raised;
        }
      }
    }

    /** BuildSignature with the SHA-1 hasher. */
    method BuildSignature(package: string, recipe: Recipe, system: System) returns (signature: string)
      requires recipe.Proper()
      modifies this`pathHashCache
      ensures signature == Signed(package, recipe, system, old(pathHashCache))
      ensures Covers(old(pathHashCache), pathHashCache, recipe.inputs, recipe.names,
                     InputHashes(old(pathHashCache), system.stableHash), |recipe.names|)
    {
      hide CommandItem, NameItem, Header, ItemHash, Covers, InputHashes;
      var inputs, names, commands := recipe.inputs, recipe.names, recipe.commands;
      var h := Header(package, system.summary);
      for i := 0 to |commands|
        invariant h == AddCommands(Header(package, system.summary), commands, i)
      {
        h := h + CommandItem(commands[i]);
      }
      ghost var start, hashes := h, InputHashes(pathHashCache, system.stableHash);
      assert AddInputs(start, inputs, names, hashes, 0) == start;
      CoversStart(pathHashCache, inputs, names, system.stableHash);
      hide AddInputs, AddCommands;
      for i := 0 to |names|
        invariant h == AddInputs(start, inputs, names, hashes, i)
        invariant Covers(old(pathHashCache), pathHashCache, inputs, names, hashes, i)
      {
        var path := inputs[names[i]];
        CoversStep(old(pathHashCache), pathHashCache, inputs, names, hashes, i);
        h := h + NameItem(names[i]);
        var pathHash;
        if path in pathHashCache {
          pathHash := pathHashCache[path];
        } else {
          NotCached(old(pathHashCache), system.stableHash, path);
          pathHash := ItemHash(system.stableHash(path));
          pathHashCache := pathHashCache[path := pathHash];
        }
        AddInputsStep(start, inputs, names, hashes, i);
        assert pathHash == hashes(path);
        h := h + pathHash;
      }
      signature := system.sha1(h);
    }
  }

  /** The signature of a recipe, with the cached path hashes where there are any. */
  function Signed(package: string, recipe: Recipe, system: System, cache: map<string, string>): string
    requires recipe.Proper()
  {
    system.sha1(Hashed(package, system.summary, recipe.inputs, recipe.names, recipe.commands,
                       InputHashes(cache, system.stableHash)))
  }
}
