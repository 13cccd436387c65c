/**
 The table of directory rules of builddeps.py, filled on demand, and what it must hold.

 A directory is its path components below the base directory.  The DEPS files are a fixed function
 from directories.  A Rules object is known by the history of rules added to it.
 */
module DepsBuilder {
  import opened Basics
  import opened DepsRules

  type Path = seq<string>

  /** What a DEPS file sets; a directory without one has an empty record.  `specificIncludes` is in the
      order in which the dictionary is walked. */
  datatype DepsFile = DepsFile(includes: seq<string>, specificIncludes: seq<(string, seq<string>)>, skips: seq<string>)

  /** The DEPS files, and the two flags that filter rules. */
  datatype Config = Config(deps: Path -> DepsFile, ignoreTempRules: bool, ignoreSpecificRules: bool)

  function Joined(p: Path): string {
    if p == [] then "" else if |p| == 1 then p[0] else Joined(p[..|p| - 1]) + "/" + p[|p| - 1]
  }

  /** posixpath.relpath of the directory to the base. */
  function RelativeDir(p: Path): string { if p == [] then "." else Joined(p) }

  /** The implicit rule that allows the directory itself. */
  function DefaultRule(p: Path): Addition {
    Addition("+" + RelativeDir(p), RelativeDir(p), "Default rule for " + RelativeDir(p), "")
  }

  predicate Ignored(config: Config, ruleString: string) {
    config.ignoreTempRules && ruleString != "" && ruleString[0] == '!'
  }

  /** ApplyOneRule for each string, in order. */
  function Explicit(config: Config, p: Path, ruleStrings: seq<string>, regexp: string): seq<Addition> {
    if ruleStrings == [] then []
    else
      var rest := Explicit(config, p, ruleStrings[1..], regexp);
      if Ignored(config, ruleStrings[0]) then rest
      else
        var block := if regexp == "" then "'s include_rules" else "'s specific_include_rules";
        [Addition(ruleStrings[0], RelativeDir(p), RelativeDir(p) + block, regexp)] + rest
  }

  function Specific(config: Config, p: Path, groups: seq<(string, seq<string>)>): seq<Addition> {
    if groups == [] then []
    else Explicit(config, p, groups[0].1, groups[0].0) + Specific(config, p, groups[1..])
  }

  /** Everything _ApplyRules adds for one directory, in order. */
  function Additions(config: Config, p: Path): seq<Addition> {
    [DefaultRule(p)] + Explicit(config, p, config.deps(p).includes, "")
    + (if config.ignoreSpecificRules then [] else Specific(config, p, config.deps(p).specificIncludes))
  }

  /** What a query for a directory must answer. */
  datatype Lookup = Raises | Skipped | Has(history: seq<Addition>)

  /** The cache-free definition: the fold of the additions from the base down; skipped when a DEPS file
      above says so; an exception when a rule on the way does not parse. */
  function Reference(config: Config, p: Path): Lookup
    decreases |p|
  {
    if p == [] then Extended(config, [], p)
    else
      var parent := p[..|p| - 1];
      match Reference(config, parent)
      case Raises => Raises
      case Skipped => Skipped
      case Has(h) => if p[|p| - 1] in config.deps(parent).skips then Skipped else Extended(config, h, p)
  }

  function Extended(config: Config, h: seq<Addition>, p: Path): Lookup {
    if AllParse(Additions(config, p)) then Has(h + Additions(config, p)) else Raises
  }

  // ---------- The table, by the histories of its entries ----------

  /** None is the entry of a directory to skip. */
  type Table = map<Path, Option<seq<Addition>>>

  /** Every entry is what the cache-free definition says, the base is there, and the subdirectories that
      an entered directory skips are entered too. */
  ghost predicate Faithful(config: Config, table: Table) {
    && [] in table
    && (forall p :: p in table ==> Agrees(config, p, table[p]) && (p != [] ==> p[..|p| - 1] in table))
    && (forall p, name :: p in table && table[p].Some? && name in config.deps(p).skips ==> p + [name] in table)
  }

  ghost predicate Agrees(config: Config, p: Path, entry: Option<seq<Addition>>) {
    Reference(config, p) == match entry case None => Skipped case Some(h) => Has(h)
  }

  /** The None entries for the subdirectories that the DEPS file of `p` skips. */
  ghost function Skips(config: Config, p: Path): Table { Nones(Children(p, config.deps(p).skips)) }

  ghost function Nones(paths: set<Path>): Table { map q | q in paths :: None }

  ghost function Children(p: Path, names: seq<string>): set<Path> { set name | name in names :: p + [name] }

  lemma SkippedChild(config: Config, p: Path, h: seq<Addition>, name: string)
    requires Reference(config, p) == Has(h) && name in config.deps(p).skips
    ensures Reference(config, p + [name]) == Skipped
  {
    assert (p + [name])[..|p|] == p;
  }

  lemma BaseEntry(config: Config)
    requires AllParse(Additions(config, []))
    ensures Faithful(config, map[[] := Some(Additions(config, []))] + Skips(config, []))
  {
    var h := Additions(config, []);
    assert [] + h == h;
    EnterChildren(config, map[], [], h);
  }

  lemma EnterChildren(config: Config, table: Table, p: Path, h: seq<Addition>)
    requires Reference(config, p) == Has(h)
    requires if p == [] then table == map[] else Faithful(config, table) && p[..|p| - 1] in table
    ensures Faithful(config, table[p := Some(h)] + Skips(config, p))
  {
    hide Reference;
    var next := table[p := Some(h)] + Skips(config, p);
    forall q | q in next ensures Agrees(config, q, next[q]) && (q != [] ==> q[..|q| - 1] in next) {
      if q in Skips(config, p) {
        var name :| name in config.deps(p).skips && q == p + [name];
        SkippedChild(config, p, h, name);
        assert q[..|q| - 1] == p;
      }
    }
    assert [] !in Children(p, config.deps(p).skips);
    forall q, name | q in next && next[q].Some? && name in config.deps(q).skips ensures q + [name] in next {
      if q == p {
        assert q + [name] in Children(p, config.deps(p).skips);
      }
    }
  }

  /** A directory that is not entered although its parent is: what the reference says of it. */
  lemma NotEntered(config: Config, table: Table, p: Path)
    requires Faithful(config, table) && p !in table && p != [] && p[..|p| - 1] in table
    ensures p != [] && forall q :: q in table ==> q !in Skips(config, p)
    ensures table[p[..|p| - 1]].None? ==> Faithful(config, table[p := None])
    ensures table[p[..|p| - 1]].Some? ==> Reference(config, p) == Extended(config, table[p[..|p| - 1]].value, p)
  {
    hide Reference, Extended;
    var parent := p[..|p| - 1];
    assert p == parent + [p[|p| - 1]];
    assert Agrees(config, parent, table[parent]);
    ReferenceBelow(config, p);
    forall q | q in Skips(config, p) ensures q != [] && q[..|q| - 1] == p {
      var name :| name in config.deps(p).skips && q == p + [name];
    }
    if table[parent].None? {
      NoneBelow(config, table, p);
    }
  }

  lemma ReferenceBelow(config: Config, p: Path)
    requires p != []
    ensures var parent := p[..|p| - 1];
            Reference(config, p) == match Reference(config, parent)
              case Raises => Raises
              case Skipped => Skipped
              case Has(h) => if p[|p| - 1] in config.deps(parent).skips then Skipped else Extended(config, h, p)
  {
  }

  lemma NoneBelow(config: Config, table: Table, p: Path)
    requires Faithful(config, table) && p !in table && p != [] && p[..|p| - 1] in table
    requires Reference(config, p) == Skipped
    ensures Faithful(config, table[p := None])
  {
    hide Reference;
    var next := table[p := None];
    forall q, name | q in next && next[q].Some? && name in config.deps(q).skips ensures q + [name] in next {
      assert q in table && table[q] == next[q];
      assert q + [name] in table;
    }
  }

  class Builder {
    const config: Config
    /** null stands for the None entries. */
    var directoryRules: map<Path, Rules?>

    ghost predicate AllValid()
      reads this, directoryRules.Values
    {
      forall p :: p in directoryRules && directoryRules[p] != null ==> directoryRules[p].Valid()
    }

    ghost function Entries(): Table
      reads this, directoryRules.Values
    {
      map p | p in directoryRules :: if directoryRules[p] == null then None else Some(directoryRules[p].history)
    }

    ghost predicate Valid()
      reads this, directoryRules.Values
    {
      AllValid() && Faithful(config, Entries())
    }

    /** DepsBuilder.__init__: it raises when the base directory's rules do not parse. */
    constructor (config: Config)
      requires AllParse(Additions(config, []))
      ensures this.config == config && Valid()
    {
      this.config := config;
      directoryRules := map[];
      new;
      hide Additions, Faithful, Keeps;
      BaseEntry(config);
      var empty := new Rules();
      var ok := ApplyDirectoryRulesAndSkipSubdirs(empty, []);
      assert [] + Additions(config, []) == Additions(config, []);
    }

    /** _ApplyRules; null is an exception from AddRule.  The copy is new, so `existing` and every other
        Rules object stay as they are. */
    method ApplyRules(existing: Rules, p: Path) returns (rules: Rules?)
      requires existing.Valid()
      ensures (rules == null) == !AllParse(Additions(config, p))
      ensures rules != null ==> fresh(rules) && rules.Valid()
      ensures rules != null ==> rules.history == existing.history + Additions(config, p)
    {
      var copy := new Rules.Copy(existing);
      var ok := AddAll(copy, Additions(config, p));
      rules := if ok then copy else null;
    }

    method ApplyDirectoryRulesAndSkipSubdirs(parentRules: Rules, p: Path) returns (ok: bool)
      requires parentRules.Valid() && AllValid()
      modifies this
      ensures ok == AllParse(Additions(config, p)) && AllValid()
      ensures !ok ==> directoryRules == old(directoryRules)
      ensures ok ==>
                Entries() == old(Entries())[p := Some(parentRules.history + Additions(config, p))] + Skips(config, p)
      ensures forall q :: q in old(directoryRules) && q != p && q !in Skips(config, p) ==>
                q in directoryRules && directoryRules[q] == old(directoryRules[q])
    {
      hide Additions, Keeps, Children;
      var rules := ApplyRules(parentRules, p);
      assert AllValid() && Entries() == old(Entries());
      if rules == null {
        return false;
      }
      ok := true;
      directoryRules := directoryRules[p := rules];
      assert AllValid() && Entries() == old(Entries())[p := Some(rules.history)];
      SkipSubdirs(p, config.deps(p).skips);
    }

    /** The loop over excluded_subdirs. */
    method SkipSubdirs(p: Path, excluded: seq<string>)
      requires AllValid()
      modifies this
      ensures AllValid() && Entries() == old(Entries()) + Nones(Children(p, excluded))
      ensures forall q :: q in old(directoryRules) && q !in Children(p, excluded) ==>
                q in directoryRules && directoryRules[q] == old(directoryRules[q])
    {
      hide Keeps, Children;
      ghost var before := directoryRules;
      NullsStep(before, p, excluded, 0);
      for i := 0 to |excluded|
        invariant directoryRules == before + Nulls(Children(p, excluded[..i]))
      {
        NullsStep(before, p, excluded, i);
        directoryRules := directoryRules[p + [excluded[i]] := null];
      }
      assert excluded[..|excluded|] == excluded;
    }

    method GetDirectoryRules(p: Path) returns (raised: bool, rules: Rules?)
      requires Valid()
      modifies this
      ensures Valid()
      ensures forall q :: q in old(directoryRules) ==>
                q in directoryRules && directoryRules[q] == old(directoryRules[q])
      ensures raised <==> Reference(config, p) == Raises
      ensures !raised ==> p in directoryRules && directoryRules[p] == rules
      ensures !raised ==> match Reference(config, p)
                          case Raises => false
                          case Skipped => rules == null
                          case Has(h) => rules != null && rules.Valid() && rules.history == h
      decreases |p|
    {
      hide Additions, Keeps, Reference, Faithful, Extended, Skips;
      FaithfulAt(config, Entries(), p);
      if p in directoryRules {
        return false, directoryRules[p];
      }
      var parent := p[..|p| - 1];
      var parentRules;
      raised, parentRules := GetDirectoryRules(parent);
      if raised {
        RaisesBelow(config, p);
        return true, null;
      }
      FaithfulAt(config, Entries(), p);
      if p in directoryRules {
        return false, directoryRules[p];
      }
      NotEntered(config, Entries(), p);
      ghost var before := Entries();
      if parentRules != null {
        ExtendedIs(config, parentRules.history, p);
        var ok := ApplyDirectoryRulesAndSkipSubdirs(parentRules, p);
        if !ok {
          assert Entries() == before;
          return true, null;
        }
        EnterChildren(config, before, p, parentRules.history + Additions(config, p));
      } else {
        directoryRules := directoryRules[p := null];
        assert Entries() == before[p := None];
      }
      FaithfulAt(config, Entries(), p);
      rules := directoryRules[p];
    }
  }

  lemma ExtendedIs(config: Config, h: seq<Addition>, p: Path)
    ensures Extended(config, h, p) == if AllParse(Additions(config, p)) then Has(h + Additions(config, p)) else Raises
  {
  }

  lemma FaithfulAt(config: Config, table: Table, p: Path)
    requires Faithful(config, table)
    ensures p in table ==> Agrees(config, p, table[p])
    ensures p !in table ==> p != []
  {
  }

  lemma RaisesBelow(config: Config, p: Path)
    requires p != [] && Reference(config, p[..|p| - 1]) == Raises
    ensures Reference(config, p) == Raises
  {
  }

  ghost function Nulls(paths: set<Path>): map<Path, Rules?> { map q | q in paths :: null }

  lemma NullsStep(before: map<Path, Rules?>, p: Path, names: seq<string>, i: nat)
    ensures before + Nulls(Children(p, names[..0])) == before
    ensures i < |names| ==>
              (before + Nulls(Children(p, names[..i])))[p + [names[i]] := null]
              == before + Nulls(Children(p, names[..i + 1]))
  {
    if i < |names| { MoreChildren(p, names, i); }
  }

  lemma MoreChildren(p: Path, names: seq<string>, i: nat)
    requires i < |names|
    ensures Children(p, names[..i + 1]) == Children(p, names[..i]) + {p + [names[i]]}
  {
    assert names[..i + 1] == names[..i] + [names[i]];
  }

  method AddAll(rules: Rules, additions: seq<Addition>) returns (ok: bool)
    requires rules.Valid()
    modifies rules
    ensures ok == AllParse(additions)
    ensures ok ==> rules.Valid() && rules.history == old(rules.history) + additions
  {
    hide Keeps;
    for i := 0 to |additions|
      invariant rules.Valid() && rules.history == old(rules.history) + additions[..i]
      invariant AllParse(additions[..i])
    {
      var parsed := rules.AddRule(additions[i]);
      if !parsed {
        return false;
      }
      assert additions[..i + 1] == additions[..i] + [additions[i]];
    }
    assert additions[..|additions|] == additions;
    ok := true;
  }
}
