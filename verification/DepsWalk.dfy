/**
 The walk of GetAllRulesAndFiles over the repository, with its explicit stack, and the set of
 directories that hold sources managed by git.
 */
module DepsWalk {
  import opened Basics
  import opened DepsRules
  import opened DepsBuilder

  /** What os.listdir shows of a directory, sorted: files and subdirectories together. */
  datatype Dir = Dir(name: string, listing: seq<Entry>)

  datatype Entry = File(name: string) | Sub(dir: Dir)

  /** A directory waiting to be checked, with the path it is at. */
  datatype Pending = Pending(path: Path, dir: Dir)

  /** What the generator yields for one directory; the Rules object by its history. */
  datatype Visit = Visit(path: Path, history: seq<Addition>, files: seq<string>)

  /** The visits of a walk, and whether it then ended with an exception. */
  datatype Visits = Visits(visits: seq<Visit>, raised: bool)

  function Files(listing: seq<Entry>): seq<string> {
    if listing == [] then []
    else (if listing[0].File? then [listing[0].name] else []) + Files(listing[1..])
  }

  /** The subdirectories of the directory at `path`, each at its own path. */
  function Below(path: Path, listing: seq<Entry>): seq<Pending> {
    if listing == [] then []
    else
      (if listing[0].Sub? then [Pending(path + [listing[0].dir.name], listing[0].dir)] else [])
      + Below(path, listing[1..])
  }

  /** One walk after another; an exception ends both. */
  function Then(first: Visits, rest: Visits): Visits {
    if first.raised then first else Visits(first.visits + rest.visits, rest.raised)
  }

  /** How many directories there are in and under these. */
  function Size(listing: seq<Entry>): nat {
    if listing == [] then 0
    else
      assert (listing decreases to listing[0]);
      (if listing[0].Sub? then 1 + Size(listing[0].dir.listing) else 0) + Size(listing[1..])
  }

  /** The recursive preorder walk, pruned at directories that are unmanaged or to be skipped. */
  function Walk(config: Config, managed: set<Path>, path: Path, dir: Dir): Visits
    decreases dir, 1
  {
    if path !in managed then Visits([], false)
    else match Reference(config, path)
      case Raises => Visits([], true)
      case Skipped => Visits([], false)
      case Has(h) =>
        Then(Visits([Visit(path, h, Files(dir.listing))], false), WalkBelow(config, managed, path, dir.listing))
  }

  function WalkBelow(config: Config, managed: set<Path>, path: Path, listing: seq<Entry>): Visits
    decreases listing, 0
  {
    if listing == [] then Visits([], false)
    else
      assert (listing decreases to listing[0]);
      var rest := WalkBelow(config, managed, path, listing[1..]);
      if listing[0].File? then rest
      else Then(Walk(config, managed, path + [listing[0].dir.name], listing[0].dir), rest)
  }

  /** The walks of the directories on a stack, topmost (last) first. */
  function WalkStack(config: Config, managed: set<Path>, stack: seq<Pending>): Visits {
    if stack == [] then Visits([], false)
    else
      var top := stack[|stack| - 1];
      Then(Walk(config, managed, top.path, top.dir), WalkStack(config, managed, stack[..|stack| - 1]))
  }

  function StackSize(stack: seq<Pending>): nat {
    if stack == [] then 0
    else 1 + Size(stack[|stack| - 1].dir.listing) + StackSize(stack[..|stack| - 1])
  }

  lemma ThenAssoc(a: Visits, b: Visits, c: Visits)
    ensures Then(Then(a, b), c) == Then(a, Then(b, c))
  {
    assert !a.raised && !b.raised ==> a.visits + b.visits + c.visits == a.visits + (b.visits + c.visits);
  }

  lemma NothingThen(v: Visits)
    ensures Then(Visits([], false), v) == v
  {
    assert [] + v.visits == v.visits;
  }

  lemma OneOnStack(config: Config, managed: set<Path>, one: Pending)
    ensures WalkStack(config, managed, [one]) == Walk(config, managed, one.path, one.dir)
  {
    hide Walk;
    var walk := Walk(config, managed, one.path, one.dir);
    assert [one][..0] == [];
    assert walk.visits + [] == walk.visits;
  }

  /** Pushing the reversed subdirectories walks them in order, before the rest of the stack. */
  lemma {:induction false} PushReversed(config: Config, managed: set<Path>, stack: seq<Pending>, path: Path,
                                        listing: seq<Entry>)
    ensures WalkStack(config, managed, stack + Reversed(Below(path, listing)))
         == Then(WalkBelow(config, managed, path, listing), WalkStack(config, managed, stack))
    ensures StackSize(stack + Reversed(Below(path, listing))) == StackSize(stack) + Size(listing)
  {
    hide Walk;
    if listing == [] {
      assert stack + Reversed(Below(path, listing)) == stack;
      NothingThen(WalkStack(config, managed, stack));
    } else {
      var rest := listing[1..];
      PushReversed(config, managed, stack, path, rest);
      if listing[0].Sub? {
        var first := Pending(path + [listing[0].dir.name], listing[0].dir);
        assert Below(path, listing) == [first] + Below(path, rest);
        assert Below(path, listing)[1..] == Below(path, rest);
        var pushed := stack + Reversed(Below(path, rest));
        assert stack + Reversed(Below(path, listing)) == pushed + [first];
        assert (pushed + [first])[..|pushed|] == pushed;
        ThenAssoc(Walk(config, managed, first.path, first.dir), WalkBelow(config, managed, path, rest),
                  WalkStack(config, managed, stack));
      } else {
        assert Below(path, listing) == Below(path, rest);
      }
    }
  }

  /** One turn of the stack loop: what it yields, and the stack it leaves, are the walk it started with. */
  lemma TurnKeepsWalk(config: Config, managed: set<Path>, yielded: seq<Visit>, stack: seq<Pending>, current: Pending)
    ensures match Walked(config, managed, current)
            case Raises =>
              Then(Visits(yielded, false), WalkStack(config, managed, stack + [current])) == Visits(yielded, true)
            case Skipped =>
              WalkStack(config, managed, stack + [current]) == WalkStack(config, managed, stack)
            case Has(h) =>
              var here := [Visit(current.path, h, Files(current.dir.listing))];
              var next := stack + Reversed(Below(current.path, current.dir.listing));
              Then(Visits(yielded, false), WalkStack(config, managed, stack + [current]))
              == Then(Visits(yielded + here, false), WalkStack(config, managed, next))
    ensures StackSize(stack) < StackSize(stack + [current])
    ensures StackSize(stack + Reversed(Below(current.path, current.dir.listing))) < StackSize(stack + [current])
  {
    hide Reference, WalkBelow;
    assert (stack + [current])[..|stack|] == stack;
    PushReversed(config, managed, stack, current.path, current.dir.listing);
    var before := Visits(yielded, false);
    var rest, below := WalkStack(config, managed, stack), WalkBelow(config, managed, current.path, current.dir.listing);
    NothingThen(rest);
    match Walked(config, managed, current)
    case Raises =>
      assert yielded + [] == yielded;
    case Skipped =>
    case Has(h) =>
      var here := Visits([Visit(current.path, h, Files(current.dir.listing))], false);
      ThenAssoc(here, below, rest);
      ThenAssoc(before, here, Then(below, rest));
  }

  /** What becomes of a directory taken from the stack. */
  function Walked(config: Config, managed: set<Path>, current: Pending): Lookup {
    if current.path in managed then Reference(config, current.path) else Skipped
  }

  /** The loop over one listing that tells files from subdirectories. */
  method SplitListing(path: Path, listing: seq<Entry>) returns (fileNames: seq<string>, subDirs: seq<Pending>)
    ensures fileNames == Files(listing)
    ensures subDirs == Below(path, listing)
  {
    assert listing[0..] == listing && listing[|listing|..] == [];
    assert Files([]) == [] && Below(path, []) == [];
    hide Files, Below;
    fileNames, subDirs := [], [];
    for i := 0 to |listing|
      invariant fileNames + Files(listing[i..]) == Files(listing)
      invariant subDirs + Below(path, listing[i..]) == Below(path, listing)
    {
      SplitOne(path, listing, i);
      match listing[i]
      case File(name) => fileNames := fileNames + [name];
      case Sub(dir) => subDirs := subDirs + [Pending(path + [dir.name], dir)];
    }
  }

  lemma SplitOne(path: Path, listing: seq<Entry>, i: nat)
    requires i < |listing|
    ensures Files(listing[i..]) == (if listing[i].File? then [listing[i].name] else []) + Files(listing[i + 1..])
    ensures Below(path, listing[i..])
         == (if listing[i].Sub? then [Pending(path + [listing[i].dir.name], listing[i].dir)] else [])
            + Below(path, listing[i + 1..])
  {
    assert listing[i..][1..] == listing[i + 1..];
  }

  /** The pairs that the generator yields, rules object and file names, are what the walk says. */
  ghost predicate Yields(yielded: seq<(Rules, seq<string>)>, visits: seq<Visit>)
    reads set i | 0 <= i < |yielded| :: yielded[i].0
  {
    && |yielded| == |visits|
    && forall i :: 0 <= i < |visits| ==>
         yielded[i].0.Valid() && yielded[i].0.history == visits[i].history && yielded[i].1 == visits[i].files
  }

  /** GetAllRulesAndFiles: `yielded` is what the generator yields before it ends or raises. */
  method GetAllRulesAndFiles(builder: Builder, managed: set<Path>, start: Pending)
    returns (yielded: seq<(Rules, seq<string>)>, raised: bool)
    requires builder.Valid()
    modifies builder
    ensures builder.Valid()
    ensures raised == Walk(builder.config, managed, start.path, start.dir).raised
    ensures Yields(yielded, Walk(builder.config, managed, start.path, start.dir).visits)
  {
    hide Walk, WalkBelow, WalkStack, Reference, StackSize, Reversed, Below, Files;
    hide Builder.Valid, Builder.AllValid, Rules.Valid, Faithful;
    yielded := [];
    ghost var visits := [];
    var dirsToCheck := [start];
    ghost var config := builder.config;
    ghost var walk := Walk(config, managed, start.path, start.dir);
    OneOnStack(config, managed, start);
    NothingThen(walk);
    while dirsToCheck != []
      invariant builder.Valid()
      invariant Then(Visits(visits, false), WalkStack(config, managed, dirsToCheck)) == walk
      invariant Yields(yielded, visits)
      decreases StackSize(dirsToCheck)
    {
      var current := dirsToCheck[|dirsToCheck| - 1];
      ghost var stack := dirsToCheck;
      dirsToCheck := dirsToCheck[..|dirsToCheck| - 1];
      assert stack == dirsToCheck + [current];
      TurnKeepsWalk(config, managed, visits, dirsToCheck, current);
      if current.path in managed {
        var failed, currentRules := builder.GetDirectoryRules(current.path);
        if failed {
          return yielded, true;
        }
        if currentRules != null {
          var fileNames, subDirs := SplitListing(current.path, current.dir.listing);
          dirsToCheck := dirsToCheck + Reversed(subDirs);
          visits := visits + [Visit(current.path, currentRules.history, fileNames)];
          yielded := yielded + [(currentRules, fileNames)];
        }
      }
    }
    EmptyStack(config, managed, visits);
    raised := false;
  }

  lemma EmptyStack(config: Config, managed: set<Path>, yielded: seq<Visit>)
    ensures Then(Visits(yielded, false), WalkStack(config, managed, [])) == Visits(yielded, false)
  {
    assert yielded + [] == yielded;
  }

  // ---------- Which directories are visited ----------

  predicate Visited(visits: seq<Visit>, path: Path) { exists i :: 0 <= i < |visits| && visits[i].path == path }

  /** There is a directory at this path below the directory with this listing. */
  ghost predicate At(listing: seq<Entry>, below: Path)
    decreases |below|
  {
    below == [] || exists dir :: Sub(dir) in listing && dir.name == below[0] && At(dir.listing, below[1..])
  }

  /** Every directory from `path` down to `path + below` is managed and has rules. */
  ghost predicate Kept(config: Config, managed: set<Path>, path: Path, below: Path) {
    forall k :: 0 <= k <= |below| ==>
      path + below[..k] in managed && Reference(config, path + below[..k]).Has?
  }

  lemma KeptDown(config: Config, managed: set<Path>, path: Path, below: Path)
    requires below != []
    ensures Kept(config, managed, path, below)
        <==> path in managed && Reference(config, path).Has? && Kept(config, managed, path + [below[0]], below[1..])
  {
    hide Reference;
    var child, rest := path + [below[0]], below[1..];
    assert path + below[..0] == path;
    forall k | 0 <= k <= |rest|
      ensures child + rest[..k] == path + below[..k + 1]
    {
    }
    if path in managed && Reference(config, path).Has? && Kept(config, managed, child, rest) {
      forall k | 0 <= k <= |below|
        ensures path + below[..k] in managed && Reference(config, path + below[..k]).Has?
      {
        if k > 0 {
          assert child + rest[..k - 1] == path + below[..k];
        }
      }
    }
  }

  predicate AllUnder(visits: seq<Visit>, path: Path) { forall i :: 0 <= i < |visits| ==> path <= visits[i].path }

  lemma {:induction false} WalkUnder(config: Config, managed: set<Path>, path: Path, dir: Dir)
    ensures AllUnder(Walk(config, managed, path, dir).visits, path)
    decreases dir, 1
  {
    hide Reference;
    WalkBelowUnder(config, managed, path, dir.listing);
  }

  /** Each visit below lies in one of the listed subdirectories. */
  ghost predicate InListed(visits: seq<Visit>, path: Path, listing: seq<Entry>) {
    forall i :: 0 <= i < |visits| ==>
      && path < visits[i].path
      && exists dir :: Sub(dir) in listing && dir.name == visits[i].path[|path|]
  }

  lemma {:induction false} WalkBelowUnder(config: Config, managed: set<Path>, path: Path, listing: seq<Entry>)
    ensures AllUnder(WalkBelow(config, managed, path, listing).visits, path)
    ensures InListed(WalkBelow(config, managed, path, listing).visits, path, listing)
    decreases listing, 0
  {
    hide Reference;
    if listing != [] {
      assert (listing decreases to listing[0]);
      var rest := listing[1..];
      WalkBelowUnder(config, managed, path, rest);
      var later := WalkBelow(config, managed, path, rest).visits;
      assert forall e :: e in rest ==> e in listing;
      assert InListed(later, path, listing);
      match listing[0]
      case File(_) =>
      case Sub(dir) =>
        var child := path + [dir.name];
        WalkUnder(config, managed, child, dir);
        var first := Walk(config, managed, child, dir).visits;
        assert AllUnder(first, child);
        assert Sub(dir) in listing;
        forall i | 0 <= i < |first|
          ensures path < first[i].path && first[i].path[|path|] == dir.name
        {
          assert first[i].path[..|child|] == child;
        }
    }
  }

  /** When nothing raises, a directory is visited exactly when it is in the tree and neither it nor a
      directory on the way from the start to it is skipped or unmanaged. */
  lemma {:induction false} VisitsExactly(config: Config, managed: set<Path>, path: Path, dir: Dir, below: Path)
    requires !Walk(config, managed, path, dir).raised
    ensures Visited(Walk(config, managed, path, dir).visits, path + below)
        <==> At(dir.listing, below) && Kept(config, managed, path, below)
    decreases dir, 1
  {
    hide Reference, WalkBelow;
    var visits := Walk(config, managed, path, dir).visits;
    assert path + below[..0] == path;
    if path in managed && Reference(config, path).Has? {
      assert visits[0].path == path;
      var lower := WalkBelow(config, managed, path, dir.listing).visits;
      assert forall i :: 0 < i < |visits| ==> visits[i] == lower[i - 1];
      if below == [] {
        assert path + below == path;
      } else {
        assert (path + below)[..|path|] == path;
        KeptDown(config, managed, path, below);
        BelowExactly(config, managed, path, dir.listing, below);
        if Visited(lower, path + below) {
          var i :| 0 <= i < |lower| && lower[i].path == path + below;
          assert visits[i + 1].path == path + below;
        }
      }
    }
  }

  lemma {:induction false} BelowExactly(config: Config, managed: set<Path>, path: Path, listing: seq<Entry>,
                                        below: Path)
    requires below != []
    requires !WalkBelow(config, managed, path, listing).raised
    ensures Visited(WalkBelow(config, managed, path, listing).visits, path + below)
        <==> At(listing, below) && Kept(config, managed, path + [below[0]], below[1..])
    decreases listing, 0
  {
    hide Reference, Walk, Kept;
    if listing != [] {
      assert (listing decreases to listing[0]);
      var rest := listing[1..];
      BelowExactly(config, managed, path, rest, below);
      assert forall dir :: Sub(dir) in listing <==> listing[0] == Sub(dir) || Sub(dir) in rest;
      match listing[0]
      case File(_) =>
      case Sub(dir) =>
        var child := path + [dir.name];
        var first, later := Walk(config, managed, child, dir).visits, WalkBelow(config, managed, path, rest).visits;
        VisitedInEither(first, later, path + below);
        if dir.name == below[0] {
          VisitsExactly(config, managed, child, dir, below[1..]);
          assert child + below[1..] == path + below;
        } else {
          WalkUnder(config, managed, child, dir);
          assert (path + below)[|path|] != child[|path|];
          assert !Visited(first, path + below);
        }
    }
  }

  lemma VisitedInEither(a: seq<Visit>, b: seq<Visit>, path: Path)
    ensures Visited(a + b, path) <==> Visited(a, path) || Visited(b, path)
  {
    if Visited(b, path) {
      var i :| 0 <= i < |b| && b[i].path == path;
      assert (a + b)[|a| + i].path == path;
    }
    if Visited(a, path) {
      var i :| 0 <= i < |a| && a[i].path == path;
      assert (a + b)[i].path == path;
    }
  }

  /** The file names are those of the listing, in its order: the name at each place of it that is a file comes
      after as many names as there are files before that place. */
  function FilesBefore(listing: seq<Entry>, i: nat): nat
    requires i <= |listing|
  {
    if i == 0 then 0 else FilesBefore(listing, i - 1) + if listing[i - 1].File? then 1 else 0
  }

  lemma FilesIs(listing: seq<Entry>)
    requires listing != []
    ensures Files(listing) == (if listing[0].File? then [listing[0].name] else []) + Files(listing[1..])
  {
  }

  lemma {:induction false} FilesAppend(listing: seq<Entry>, e: Entry)
    ensures Files(listing + [e]) == Files(listing) + if e.File? then [e.name] else []
  {
    var all := listing + [e];
    FilesIs(all);
    if listing == [] {
      assert all == [e] && all[1..] == [];
    } else {
      FilesIs(listing);
      assert all[1..] == listing[1..] + [e] && all[0] == listing[0];
      hide Files;
      FilesAppend(listing[1..], e);
    }
  }

  lemma {:induction false} FilesInOrder(listing: seq<Entry>, n: nat)
    requires n <= |listing|
    ensures |Files(listing[..n])| == FilesBefore(listing, n)
    ensures forall i :: 0 <= i < n && listing[i].File? ==>
              FilesBefore(listing, i) < FilesBefore(listing, n)
              && Files(listing[..n])[FilesBefore(listing, i)] == listing[i].name
  {
    if n > 0 {
      FilesInOrder(listing, n - 1);
      FilesAppend(listing[..n - 1], listing[n - 1]);
      assert listing[..n] == listing[..n - 1] + [listing[n - 1]];
    }
  }

  /** `dir` is the directory at this path below `top`. */
  ghost predicate IsAt(top: Dir, below: Path, dir: Dir)
    decreases |below|
  {
    if below == [] then dir == top
    else exists child :: Sub(child) in top.listing && child.name == below[0] && IsAt(child, below[1..], dir)
  }

  /** The visit carries the rules of its directory, and the files of a directory that is at its path. */
  ghost predicate Carries(config: Config, visit: Visit, below: Path, dir: Dir) {
    Reference(config, visit.path) == Has(visit.history) && visit.files == Files(dir.listing)
  }

  ghost predicate RightAt(config: Config, visit: Visit, path: Path, top: Dir) {
    exists below: Path, dir: Dir ::
      visit.path == path + below && IsAt(top, below, dir) && Carries(config, visit, below, dir)
  }

  /** Every visit yields the rules of the directory at its path, and the names of the files there. */
  lemma {:induction false} VisitIsRight(config: Config, managed: set<Path>, path: Path, dir: Dir)
    ensures forall i :: 0 <= i < |Walk(config, managed, path, dir).visits| ==>
              RightAt(config, Walk(config, managed, path, dir).visits[i], path, dir)
    decreases dir, 1
  {
    hide WalkBelow, RightAt, Reference, Files;
    var visits := Walk(config, managed, path, dir).visits;
    if visits != [] {
      BelowIsRight(config, managed, path, dir, dir.listing);
      var lower := WalkBelow(config, managed, path, dir.listing).visits;
      RightHere(config, visits[0], path, dir);
      assert forall i :: 0 < i < |visits| ==> visits[i] == lower[i - 1];
    }
  }

  lemma RightHere(config: Config, visit: Visit, path: Path, dir: Dir)
    requires Reference(config, path) == Has(visit.history) && visit.path == path && visit.files == Files(dir.listing)
    ensures RightAt(config, visit, path, dir)
  {
    assert path + [] == path;
    assert IsAt(dir, [], dir) && Carries(config, visit, [], dir);
  }

  lemma RightBelow(config: Config, visit: Visit, path: Path, top: Dir, child: Dir)
    requires Sub(child) in top.listing && RightAt(config, visit, path + [child.name], child)
    ensures RightAt(config, visit, path, top)
  {
    hide Reference;
    var below: Path, dir: Dir :| visit.path == path + [child.name] + below && IsAt(child, below, dir)
                                 && Carries(config, visit, below, dir);
    var longer := [child.name] + below;
    assert longer[1..] == below && path + longer == path + [child.name] + below;
    assert IsAt(top, longer, dir) && Carries(config, visit, longer, dir);
  }

  lemma {:induction false} BelowIsRight(config: Config, managed: set<Path>, path: Path, top: Dir, listing: seq<Entry>)
    requires forall e :: e in listing ==> e in top.listing
    ensures forall i :: 0 <= i < |WalkBelow(config, managed, path, listing).visits| ==>
              RightAt(config, WalkBelow(config, managed, path, listing).visits[i], path, top)
    decreases listing, 0
  {
    hide Walk, RightAt;
    if listing != [] {
      assert (listing decreases to listing[0]);
      var rest := listing[1..];
      BelowIsRight(config, managed, path, top, rest);
      match listing[0]
      case File(_) =>
      case Sub(dir) =>
        VisitIsRight(config, managed, path + [dir.name], dir);
        var first := Walk(config, managed, path + [dir.name], dir).visits;
        assert listing[0] in listing;
        forall i | 0 <= i < |first|
          ensures RightAt(config, first[i], path, top)
        {
          RightBelow(config, first[i], path, top, dir);
        }
    }
  }

  /** A directory whose DEPS file, or one above, raises, reached through directories that are kept. */
  ghost predicate RaisesAt(config: Config, managed: set<Path>, path: Path, below: Path) {
    && path + below in managed && Reference(config, path + below) == Raises
    && forall k :: 0 <= k < |below| ==>
         path + below[..k] in managed && Reference(config, path + below[..k]).Has?
  }

  lemma RaisesDown(config: Config, managed: set<Path>, path: Path, below: Path)
    requires below != []
    ensures RaisesAt(config, managed, path, below)
        <==> path in managed && Reference(config, path).Has?
             && RaisesAt(config, managed, path + [below[0]], below[1..])
  {
    hide Reference;
    var child, rest := path + [below[0]], below[1..];
    assert path + below[..0] == path && child + rest == path + below;
    forall k | 0 <= k < |rest|
      ensures child + rest[..k] == path + below[..k + 1]
    {
    }
    if path in managed && Reference(config, path).Has? && RaisesAt(config, managed, child, rest) {
      forall k | 0 <= k < |below|
        ensures path + below[..k] in managed && Reference(config, path + below[..k]).Has?
      {
        if k > 0 {
          assert child + rest[..k - 1] == path + below[..k];
        }
      }
    }
  }

  ghost predicate SomeRaises(config: Config, managed: set<Path>, path: Path, listing: seq<Entry>) {
    exists below: Path :: At(listing, below) && RaisesAt(config, managed, path, below)
  }

  ghost predicate SomeRaisesBelow(config: Config, managed: set<Path>, path: Path, listing: seq<Entry>) {
    exists below: Path :: below != [] && At(listing, below) && RaisesAt(config, managed, path + [below[0]], below[1..])
  }

  /** The walk ends with an exception exactly when it comes to a managed directory whose rules raise, through
      directories that are all managed and have rules. */
  lemma {:induction false} RaisedExactly(config: Config, managed: set<Path>, path: Path, dir: Dir)
    ensures Walk(config, managed, path, dir).raised <==> SomeRaises(config, managed, path, dir.listing)
    decreases dir, 1
  {
    hide Reference, WalkBelow, RaisesAt, At;
    AtTop(dir.listing);
    RaisesTop(config, managed, path);
    BelowRaised(config, managed, path, dir.listing);
    forall below: Path | below != []
      ensures RaisesAt(config, managed, path, below)
          <==> path in managed && Reference(config, path).Has?
               && RaisesAt(config, managed, path + [below[0]], below[1..])
    {
      RaisesDown(config, managed, path, below);
    }
  }

  lemma AtTop(listing: seq<Entry>)
    ensures At(listing, [])
  {
  }

  lemma RaisesTop(config: Config, managed: set<Path>, path: Path)
    ensures RaisesAt(config, managed, path, []) <==> path in managed && Reference(config, path) == Raises
  {
    assert path + [] == path;
  }

  lemma {:induction false} BelowRaised(config: Config, managed: set<Path>, path: Path, listing: seq<Entry>)
    ensures WalkBelow(config, managed, path, listing).raised <==> SomeRaisesBelow(config, managed, path, listing)
    decreases listing, 0
  {
    hide Reference, Walk, RaisesAt;
    if listing != [] {
      assert (listing decreases to listing[0]);
      var rest := listing[1..];
      BelowRaised(config, managed, path, rest);
      AtMore(listing);
      match listing[0]
      case File(_) =>
      case Sub(dir) =>
        var child := path + [dir.name];
        RaisedExactly(config, managed, child, dir);
        hide At;
        ChildRaises(config, managed, path, dir, listing);
    }
  }

  /** What is at a path below a listing is below its first entry or below the rest. */
  lemma AtMore(listing: seq<Entry>)
    requires listing != []
    ensures forall below: Path :: below != [] ==>
              (At(listing, below)
               <==> At(listing[1..], below)
                    || (listing[0].Sub? && listing[0].dir.name == below[0] && At(listing[0].dir.listing, below[1..])))
  {
    var rest := listing[1..];
    assert forall dir :: Sub(dir) in listing <==> listing[0] == Sub(dir) || Sub(dir) in rest;
  }

  lemma ChildRaises(config: Config, managed: set<Path>, path: Path, dir: Dir, listing: seq<Entry>)
    requires listing != [] && listing[0] == Sub(dir)
    requires forall below: Path :: below != [] ==>
               (At(listing, below)
                <==> At(listing[1..], below) || (dir.name == below[0] && At(dir.listing, below[1..])))
    ensures SomeRaisesBelow(config, managed, path, listing)
        <==> SomeRaisesBelow(config, managed, path, listing[1..])
             || SomeRaises(config, managed, path + [dir.name], dir.listing)
  {
    hide RaisesAt, At;
    if below: Path :| At(dir.listing, below) && RaisesAt(config, managed, path + [dir.name], below) {
      var longer := [dir.name] + below;
      assert longer[1..] == below;
    }
  }

  // ---------- In which order ----------

  /** The order in which Python sorts strings. */
  predicate NameLess(a: string, b: string) {
    b != [] && (a == [] || a[0] < b[0] || (a[0] == b[0] && NameLess(a[1..], b[1..])))
  }

  lemma {:induction false} NameNotLessItself(a: string)
    ensures !NameLess(a, a)
  {
    if a != [] {
      NameNotLessItself(a[1..]);
    }
  }

  /** A directory comes before what is under it, and siblings go by name. */
  ghost predicate Precedes(p: Path, q: Path) {
    p < q || exists k :: ParentedAt(p, q, k)
  }

  ghost predicate ParentedAt(p: Path, q: Path, k: nat) {
    k < |p| && k < |q| && p[..k] == q[..k] && NameLess(p[k], q[k])
  }

  lemma PrecedesIsStrict(p: Path)
    ensures !Precedes(p, p)
  {
    forall k: nat | k < |p|
      ensures !ParentedAt(p, p, k)
    {
      NameNotLessItself(p[k]);
    }
  }

  /** Listings are sorted by name, all the way down. */
  ghost predicate Ordered(listing: seq<Entry>) {
    && (forall i :: 0 <= i < |listing| && listing[i].Sub? ==>
          assert (listing decreases to listing[i]); Ordered(listing[i].dir.listing))
    && (forall i, j :: 0 <= i < j < |listing| && listing[i].Sub? && listing[j].Sub? ==>
          NameLess(listing[i].dir.name, listing[j].dir.name))
  }

  ghost predicate InOrder(visits: seq<Visit>) {
    forall i, j :: 0 <= i < j < |visits| ==> Precedes(visits[i].path, visits[j].path)
  }

  /** The walk of a sorted tree is in sorted preorder, and so comes to no directory twice. */
  lemma {:induction false} WalkInOrder(config: Config, managed: set<Path>, path: Path, dir: Dir)
    requires Ordered(dir.listing)
    ensures InOrder(Walk(config, managed, path, dir).visits)
    decreases dir, 1
  {
    hide Reference, WalkBelow, Precedes;
    WalkBelowUnder(config, managed, path, dir.listing);
    BelowInOrder(config, managed, path, dir.listing);
    var lower := WalkBelow(config, managed, path, dir.listing).visits;
    forall i | 0 <= i < |lower|
      ensures Precedes(path, lower[i].path)
    {
      StrictPrefixPrecedes(path, lower[i].path);
    }
  }

  lemma StrictPrefixPrecedes(p: Path, q: Path)
    requires p < q
    ensures Precedes(p, q)
  {
  }

  lemma {:induction false} BelowInOrder(config: Config, managed: set<Path>, path: Path, listing: seq<Entry>)
    requires Ordered(listing)
    ensures InOrder(WalkBelow(config, managed, path, listing).visits)
    decreases listing, 0
  {
    hide Reference, Walk, Precedes;
    if listing != [] {
      assert (listing decreases to listing[0]);
      var rest := listing[1..];
      assert Ordered(rest);
      BelowInOrder(config, managed, path, rest);
      match listing[0]
      case File(_) =>
      case Sub(dir) =>
        assert listing[0] in listing;
        var child := path + [dir.name];
        WalkInOrder(config, managed, child, dir);
        WalkUnder(config, managed, child, dir);
        WalkBelowUnder(config, managed, path, rest);
        var first, later := Walk(config, managed, child, dir).visits, WalkBelow(config, managed, path, rest).visits;
        forall i, j | 0 <= i < |first| && 0 <= j < |later|
          ensures Precedes(first[i].path, later[j].path)
        {
          assert exists d :: Sub(d) in rest && d.name == later[j].path[|path|];
          SiblingsPrecede(path, first[i].path, later[j].path, dir.name);
        }
    }
  }

  lemma SiblingsPrecede(path: Path, p: Path, q: Path, name: string)
    requires path + [name] <= p && path < q && NameLess(name, q[|path|])
    ensures Precedes(p, q)
  {
    assert p[|path|] == (path + [name])[|path|] == name;
    assert p[..|path|] == (path + [name])[..|path|] == path == q[..|path|];
    assert ParentedAt(p, q, |path|);
  }

  lemma EachOnce(config: Config, managed: set<Path>, path: Path, dir: Dir, i: nat, j: nat)
    requires Ordered(dir.listing)
    requires i < j < |Walk(config, managed, path, dir).visits|
    ensures Walk(config, managed, path, dir).visits[i].path != Walk(config, managed, path, dir).visits[j].path
  {
    WalkInOrder(config, managed, path, dir);
    PrecedesIsStrict(Walk(config, managed, path, dir).visits[i].path);
  }

  // ---------- The directories that git manages ----------

  predicate AtOrAbove(p: Path, q: Path) { p <= q }

  /** _GitSourceDirectories: from the directories of the files that git lists, every directory on the way
      up to the base; the climb stops at the first directory that is already there. */
  method GitSourceDirectories(fileDirs: seq<Path>) returns (managed: set<Path>)
    ensures forall p :: p in managed <==> p == [] || exists d :: d in fileDirs && AtOrAbove(p, d)
  {
    managed := {[]};
    for i := 0 to |fileDirs|
      invariant forall p :: p in managed <==> p == [] || exists d :: d in fileDirs[..i] && AtOrAbove(p, d)
    {
      assert forall d :: d in fileDirs[..i + 1] <==> d in fileDirs[..i] || d == fileDirs[i];
      managed := ClimbFrom(managed, fileDirs[i]);
    }
    assert fileDirs[..|fileDirs|] == fileDirs;
  }

  /** The inner loop for one file's directory. */
  method ClimbFrom(start: set<Path>, dir: Path) returns (managed: set<Path>)
    requires [] in start
    requires forall p, q :: q in start && AtOrAbove(p, q) ==> p in start
    ensures forall p :: p in managed <==> p in start || AtOrAbove(p, dir)
  {
    managed := start;
    var path := dir;
    while path !in managed
      invariant AtOrAbove(path, dir)
      invariant forall p :: p in managed <==> p in start || (AtOrAbove(p, dir) && !AtOrAbove(p, path))
      decreases |path|
    {
      managed := managed + {path};
      var parent := path[..|path| - 1];
      assert forall p :: AtOrAbove(p, path) <==> p == path || AtOrAbove(p, parent) by {
        forall p | AtOrAbove(p, path) && p != path
          ensures AtOrAbove(p, parent)
        {
          assert p == path[..|p|];
        }
      }
      path := parent;
    }
    assert path in start;
  }
}
