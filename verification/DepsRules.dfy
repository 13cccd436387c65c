/**
 The include rules of checkdeps: rules.py.  Directories are path strings and prefixes are string
 prefixes, as in the source.
 */
module DepsRules {
  import opened Basics

  datatype Rule =
    | Rule(allow: char, dir: string, dependentDir: string, source: string)
    | MessageRule(reason: string)

  /** `dir` is `path`, or a directory above it. */
  predicate Covers(dir: string, path: string) { dir == path || dir + "/" <= path }

  /** Rule.ParentOrMatch: `other` is the directory of the rule or above it. */
  predicate ParentOrMatch(rule: Rule, other: string)
    requires rule.Rule?
  { Covers(other, rule.dir) }

  /** Rule.ChildOrMatch: the rule covers `other`. */
  predicate ChildOrMatch(rule: Rule, other: string)
    requires rule.Rule?
  { Covers(rule.dir, other) }

  lemma CoversTransitive(a: string, b: string, c: string)
    requires Covers(a, b) && Covers(b, c)
    ensures Covers(a, c)
  {
    if a != b && b != c {
      assert (a + "/") == b[..|a| + 1] && b <= c;
      assert c[..|a| + 1] == b[..|a| + 1];
    }
  }

  /** The directories that cover one path are all above or below one another. */
  lemma CoversChain(a: string, b: string, path: string)
    requires Covers(a, path) && Covers(b, path) && |a| <= |b|
    ensures Covers(a, b)
  {
    assert a == path[..|a|] && b == path[..|b|];
    if |a| < |b| {
      assert a + "/" == path[..|a| + 1] == b[..|a| + 1];
    } else {
      assert a == b;
    }
  }

  // ---------- The history of a rule set ----------

  /** One call of AddRule.  An empty regular expression stands for none, as the code tests its truth. */
  datatype Addition = Addition(ruleString: string, dependentDir: string, source: string, regexp: string)

  /** ParseRuleString accepts it. */
  predicate Parses(ruleString: string) { ruleString != "" && ruleString[0] in ['+', '-', '!'] }

  /** A rule marked as temporary. */
  predicate IsTemporary(ruleString: string) { "!" <= ruleString }

  function RuleOf(a: Addition): (r: Rule)
    requires Parses(a.ruleString)
    ensures r.Rule?
  {
    Rule(a.ruleString[0], a.ruleString[1..], a.dependentDir, a.source)
  }

  predicate AllParse(history: seq<Addition>) { forall i :: 0 <= i < |history| ==> Parses(history[i].ruleString) }

  /** The newest rule of the whole history, under one regular expression, that covers `path`. */
  function Newest(history: seq<Addition>, regexp: string, path: string): Option<Rule>
    requires AllParse(history)
  {
    if history == [] then None
    else
      var last := history[|history| - 1];
      if last.regexp == regexp && ChildOrMatch(RuleOf(last), path) then Some(RuleOf(last))
      else Newest(history[..|history| - 1], regexp, path)
  }

  // ---------- What additions say ----------

  /** The addition is for this expression, and the directory in its string is the path or above it. */
  predicate Speaks(a: Addition, regexp: string, path: string) {
    a.regexp == regexp && Parses(a.ruleString) && Covers(a.ruleString[1..], path)
  }

  /** No later addition for this expression speaks about the path. */
  predicate SpeaksLast(history: seq<Addition>, i: int, regexp: string, path: string) {
    && 0 <= i < |history| && Speaks(history[i], regexp, path)
    && forall j :: i < j < |history| ==> !Speaks(history[j], regexp, path)
  }

  predicate SomeSpeaks(history: seq<Addition>, regexp: string, path: string) {
    exists i :: 0 <= i < |history| && Speaks(history[i], regexp, path)
  }

  /** The rule is what the addition says: its sign, then its directory, and where it comes from. */
  predicate SaidBy(r: Rule, a: Addition) {
    && r.Rule? && a.ruleString == [r.allow] + r.dir
    && r.dependentDir == a.dependentDir && r.source == a.source
  }

  /** The rule is what the last addition says that speaks about the path. */
  ghost predicate SaidLast(history: seq<Addition>, regexp: string, path: string, r: Rule) {
    exists i :: SpeaksLast(history, i, regexp, path) && SaidBy(r, history[i])
  }

  /** There is a newest covering rule exactly when some addition speaks, and it is what the last of them says. */
  lemma {:induction false} NewestIsSaidLast(history: seq<Addition>, regexp: string, path: string)
    requires AllParse(history)
    ensures Newest(history, regexp, path).Some? <==> SomeSpeaks(history, regexp, path)
    ensures Newest(history, regexp, path).Some? ==>
              SaidLast(history, regexp, path, Newest(history, regexp, path).value)
  {
    if history != [] {
      var front, last := history[..|history| - 1], history[|history| - 1];
      assert history == front + [last];
      hide SomeSpeaks, SaidLast;
      SaidLater(front, last, regexp, path);
      if !Speaks(last, regexp, path) {
        NewestIsSaidLast(front, regexp, path);
        if Newest(front, regexp, path).Some? {
          SaidStill(front, last, regexp, path, Newest(front, regexp, path).value);
        }
      }
    } else {
      assert !SomeSpeaks(history, regexp, path);
    }
  }

  /** One more addition. */
  lemma SaidLater(front: seq<Addition>, last: Addition, regexp: string, path: string)
    ensures SomeSpeaks(front + [last], regexp, path) <==> SomeSpeaks(front, regexp, path) || Speaks(last, regexp, path)
    ensures Speaks(last, regexp, path) ==> SaidLast(front + [last], regexp, path, RuleOf(last))
  {
    var history, n := front + [last], |front|;
    assert history[n] == last && forall i :: 0 <= i < n ==> front[i] == history[i];
    hide Speaks, SaidBy;
    if Speaks(last, regexp, path) {
      SignAndDirectory(last, regexp, path);
      assert SpeaksLast(history, n, regexp, path);
    }
  }

  lemma SignAndDirectory(a: Addition, regexp: string, path: string)
    requires Speaks(a, regexp, path)
    ensures SaidBy(RuleOf(a), a)
  {
    assert a.ruleString == [a.ruleString[0]] + a.ruleString[1..];
  }

  lemma SaidStill(front: seq<Addition>, last: Addition, regexp: string, path: string, r: Rule)
    requires SaidLast(front, regexp, path, r) && !Speaks(last, regexp, path)
    ensures SaidLast(front + [last], regexp, path, r)
  {
    var history := front + [last];
    assert history[|front|] == last && forall i :: 0 <= i < |front| ==> front[i] == history[i];
    hide Speaks, SaidBy;
    var i :| SpeaksLast(front, i, regexp, path) && SaidBy(r, front[i]);
    assert SpeaksLast(history, i, regexp, path);
  }

  // ---------- The pruned lists ----------

  predicate AllRules(rules: seq<Rule>) { forall i :: 0 <= i < |rules| ==> rules[i].Rule? }

  /** [x for x in rules if not x.ParentOrMatch(dir)] */
  function Outside(rules: seq<Rule>, dir: string): (kept: seq<Rule>)
    requires AllRules(rules)
    ensures AllRules(kept)
    ensures forall x :: x in kept ==> x in rules && !ParentOrMatch(x, dir)
  {
    if rules == [] then []
    else (if ParentOrMatch(rules[0], dir) then [] else [rules[0]]) + Outside(rules[1..], dir)
  }

  /** The list that the calls of AddRule leave for one regular expression. */
  function Pruned(history: seq<Addition>, regexp: string): (rules: seq<Rule>)
    requires AllParse(history)
    ensures AllRules(rules)
  {
    if history == [] then []
    else
      var last := history[|history| - 1];
      var before := Pruned(history[..|history| - 1], regexp);
      if last.regexp == regexp then [RuleOf(last)] + Outside(before, RuleOf(last).dir) else before
  }

  function FirstMatch(rules: seq<Rule>, path: string): Option<Rule>
    requires AllRules(rules)
  {
    if rules == [] then None
    else if ChildOrMatch(rules[0], path) then Some(rules[0])
    else FirstMatch(rules[1..], path)
  }

  /** Dropping the rules under a directory that does not cover `path` does not change its lookup. */
  lemma {:induction false} OutsideKeepsMatch(rules: seq<Rule>, dir: string, path: string)
    requires AllRules(rules) && !Covers(dir, path)
    ensures FirstMatch(Outside(rules, dir), path) == FirstMatch(rules, path)
  {
    if rules != [] {
      OutsideKeepsMatch(rules[1..], dir, path);
      var rest := Outside(rules[1..], dir);
      if ParentOrMatch(rules[0], dir) {
        if ChildOrMatch(rules[0], path) {
          CoversTransitive(dir, rules[0].dir, path);
        }
        assert [] + rest == rest;
      } else {
        assert ([rules[0]] + rest)[1..] == rest;
      }
    }
  }

  /** First match in the pruned list is the newest covering rule of the full history. */
  lemma {:induction false} FirstMatchIsNewest(history: seq<Addition>, regexp: string, path: string)
    requires AllParse(history)
    ensures FirstMatch(Pruned(history, regexp), path) == Newest(history, regexp, path)
  {
    if history != [] {
      var before, last := history[..|history| - 1], history[|history| - 1];
      FirstMatchIsNewest(before, regexp, path);
      if last.regexp == regexp && !ChildOrMatch(RuleOf(last), path) {
        var kept := Outside(Pruned(before, regexp), RuleOf(last).dir);
        OutsideKeepsMatch(Pruned(before, regexp), RuleOf(last).dir, path);
        assert ([RuleOf(last)] + kept)[1..] == kept;
      }
    }
  }

  /** No rule of a list is at or under the directory of an earlier one. */
  predicate NoneUnder(rules: seq<Rule>)
    requires AllRules(rules)
  {
    forall i, j :: 0 <= i < j < |rules| ==> !Covers(rules[i].dir, rules[j].dir)
  }

  lemma NoneUnderCons(x: Rule, rest: seq<Rule>)
    requires x.Rule? && AllRules(rest) && NoneUnder(rest)
    requires forall y :: y in rest ==> !Covers(x.dir, y.dir)
    ensures NoneUnder([x] + rest)
  {
    var rules := [x] + rest;
    forall i, j | 0 <= i < j < |rules| ensures !Covers(rules[i].dir, rules[j].dir) {
      assert rules[j] == rest[j - 1] && (i > 0 ==> rules[i] == rest[i - 1]);
    }
  }

  lemma {:induction false} OutsideNoneUnder(rules: seq<Rule>, dir: string)
    requires AllRules(rules) && NoneUnder(rules)
    ensures NoneUnder(Outside(rules, dir))
  {
    if rules != [] {
      OutsideNoneUnder(rules[1..], dir);
      var rest := Outside(rules[1..], dir);
      if ParentOrMatch(rules[0], dir) {
        assert [] + rest == rest;
      } else {
        assert forall x :: x in rest ==> x in rules[1..];
        NoneUnderCons(rules[0], rest);
      }
    }
  }

  lemma {:induction false} PrunedNoneUnder(history: seq<Addition>, regexp: string)
    requires AllParse(history)
    ensures NoneUnder(Pruned(history, regexp))
  {
    if history != [] {
      var before, last := history[..|history| - 1], history[|history| - 1];
      PrunedNoneUnder(before, regexp);
      if last.regexp == regexp {
        OutsideNoneUnder(Pruned(before, regexp), RuleOf(last).dir);
        NoneUnderCons(RuleOf(last), Outside(Pruned(before, regexp), RuleOf(last).dir));
      }
    }
  }

  /** The answer has the strictly longest covering directory of the list, so any order of the list
      would give the same answer. */
  lemma {:induction false} FirstMatchIsLongest(rules: seq<Rule>, path: string)
    requires AllRules(rules) && NoneUnder(rules)
    ensures match FirstMatch(rules, path)
            case None => forall x :: x in rules ==> !ChildOrMatch(x, path)
            case Some(r) => r in rules && r.Rule? && ChildOrMatch(r, path)
                            && forall x :: x in rules && ChildOrMatch(x, path) ==> x == r || |x.dir| < |r.dir|
  {
    if rules != [] {
      FirstMatchIsLongest(rules[1..], path);
      if ChildOrMatch(rules[0], path) {
        forall x | x in rules[1..] && ChildOrMatch(x, path) ensures |x.dir| < |rules[0].dir| {
          if |rules[0].dir| <= |x.dir| {
            CoversChain(rules[0].dir, x.dir, path);
          }
        }
      }
    }
  }

  /** The newest covering rule of the history is exactly the rule of the pruned list whose covering
      directory is longest: the set of rules decides the answer, not the order of the list. */
  lemma NewestIsLongest(history: seq<Addition>, regexp: string, path: string, r: Rule)
    requires AllParse(history)
    ensures Newest(history, regexp, path) == Some(r) <==>
              && r in Pruned(history, regexp) && ChildOrMatch(r, path)
              && forall x :: x in Pruned(history, regexp) && ChildOrMatch(x, path) ==> |x.dir| <= |r.dir|
  {
    FirstMatchIsNewest(history, regexp, path);
    PrunedNoneUnder(history, regexp);
    FirstMatchIsLongest(Pruned(history, regexp), path);
  }

  // ---------- The class ----------

  /** The last component of a path. */
  function Basename(path: string): string {
    if path == "" then "" else if path[|path| - 1] == '/' then "" else Basename(path[..|path| - 1]) + [path[|path| - 1]]
  }

  /** It is what follows the last slash. */
  lemma {:induction false} BasenameEnds(path: string)
    ensures |Basename(path)| <= |path| && '/' !in Basename(path)
    ensures var n := |path| - |Basename(path)|;
            path[n..] == Basename(path) && (n > 0 ==> path[n - 1] == '/')
  {
    if path != "" && path[|path| - 1] != '/' {
      BasenameEnds(path[..|path| - 1]);
    }
  }

  /** What RuleApplyingTo answers, from the history alone.  `order` is the order in which the dictionary
      of specific rules happens to be walked. */
  function Answer(history: seq<Addition>, order: seq<string>, matches: (string, string) -> bool,
                  path: string, filename: string): Rule
    requires AllParse(history)
  {
    if order == [] then
      match Newest(history, "", path)
      case Some(r) => r
      case None => MessageRule("no rule applying.")
    else if matches(order[0], filename) && Newest(history, order[0], path).Some? then
      Newest(history, order[0], path).value
    else Answer(history, order[1..], matches, path, filename)
  }

  predicate Applies(history: seq<Addition>, regexp: string, matches: (string, string) -> bool, path: string,
                    filename: string)
  {
    matches(regexp, filename) && SomeSpeaks(history, regexp, path)
  }

  /** The answer, by what was added: what the last addition says that speaks about the path, for the first
      matching expression that has one; else for all files; else that no rule applies. */
  ghost predicate Decides(history: seq<Addition>, order: seq<string>, matches: (string, string) -> bool, path: string,
                    filename: string, answer: Rule)
  {
    || (exists k :: 0 <= k < |order| && Applies(history, order[k], matches, path, filename)
                    && (forall j :: 0 <= j < k ==> !Applies(history, order[j], matches, path, filename))
                    && SaidLast(history, order[k], path, answer))
    || ((forall k :: 0 <= k < |order| ==> !Applies(history, order[k], matches, path, filename))
        && if SomeSpeaks(history, "", path) then SaidLast(history, "", path, answer)
           else answer == MessageRule("no rule applying."))
  }

  lemma {:induction false} AnswerDecides(history: seq<Addition>, order: seq<string>, matches: (string, string) -> bool,
                                         path: string, filename: string)
    requires AllParse(history)
    ensures Decides(history, order, matches, path, filename, Answer(history, order, matches, path, filename))
  {
    var answer := Answer(history, order, matches, path, filename);
    if order == [] {
      NewestIsSaidLast(history, "", path);
    } else {
      NewestIsSaidLast(history, order[0], path);
      if Applies(history, order[0], matches, path, filename) {
        assert SaidLast(history, order[0], path, answer);
      } else {
        var rest := order[1..];
        hide SomeSpeaks, SaidLast;
        AnswerDecides(history, rest, matches, path, filename);
        assert forall j :: 0 < j < |order| ==> order[j] == rest[j - 1];
        if k :| 0 <= k < |rest| && Applies(history, rest[k], matches, path, filename)
                && (forall j :: 0 <= j < k ==> !Applies(history, rest[j], matches, path, filename))
                && SaidLast(history, rest[k], path, answer)
        {
          assert order[k + 1] == rest[k];
        }
      }
    }
  }

  ghost function Regexps(history: seq<Addition>): set<string> { (set a | a in history :: a.regexp) - {""} }

  lemma OneMore(history: seq<Addition>, a: Addition, regexp: string)
    requires AllParse(history) && Parses(a.ruleString)
    ensures AllParse(history + [a])
    ensures Pruned(history + [a], regexp)
         == if a.regexp == regexp then [RuleOf(a)] + Outside(Pruned(history, regexp), RuleOf(a).dir)
            else Pruned(history, regexp)
    ensures Regexps(history + [a]) == Regexps(history) + ({a.regexp} - {""})
  {
    assert (history + [a])[..|history|] == history;
    assert forall b :: b in history + [a] <==> b in history || b == a;
  }

  /** The two fields hold the pruned lists of the history. */
  ghost predicate Keeps(general: seq<Rule>, specific: map<string, seq<Rule>>, history: seq<Addition>) {
    && AllParse(history)
    && general == Pruned(history, "")
    && specific.Keys == Regexps(history)
    && forall r :: r in specific ==> specific[r] == Pruned(history, r)
  }

  lemma KeepsGeneral(general: seq<Rule>, specific: map<string, seq<Rule>>, history: seq<Addition>, a: Addition)
    requires Keeps(general, specific, history) && Parses(a.ruleString) && a.regexp == ""
    ensures AllRules(general)
    ensures Keeps([RuleOf(a)] + Outside(general, RuleOf(a).dir), specific, history + [a])
  {
    hide Outside, RuleOf, Pruned;
    OneMore(history, a, "");
    forall r | r in specific ensures Pruned(history + [a], r) == Pruned(history, r) {
      OneMore(history, a, r);
    }
  }

  lemma KeepsSpecific(general: seq<Rule>, specific: map<string, seq<Rule>>, history: seq<Addition>, a: Addition)
    requires Keeps(general, specific, history) && Parses(a.ruleString) && a.regexp != ""
    ensures a.regexp in specific ==> AllRules(specific[a.regexp])
    ensures var rules := if a.regexp in specific then specific[a.regexp] else [];
            Keeps(general, specific[a.regexp := [RuleOf(a)] + Outside(rules, RuleOf(a).dir)], history + [a])
  {
    hide Outside, RuleOf, Pruned, Regexps;
    OneMore(history, a, "");
    OneMore(history, a, a.regexp);
    if a.regexp !in specific {
      NoHistory(history, a.regexp);
    }
    var rules := if a.regexp in specific then specific[a.regexp] else [];
    assert rules == Pruned(history, a.regexp);
    forall r | r in specific && r != a.regexp ensures Pruned(history + [a], r) == Pruned(history, r) {
      OneMore(history, a, r);
    }
  }

  class Rules {
    var generalRules: seq<Rule>
    var specificRules: map<string, seq<Rule>>
    ghost var history: seq<Addition>

    ghost predicate Valid()
      reads this
    {
      Keeps(generalRules, specificRules, history)
    }

    constructor ()
      ensures Valid() && history == []
    {
      generalRules, specificRules, history := [], map[], [];
    }

    /** copy.deepcopy. */
    constructor Copy(other: Rules)
      requires other.Valid()
      ensures Valid() && history == other.history
    {
      generalRules, specificRules, history := other.generalRules, other.specificRules, other.history;
    }

    /** AddRule; false is the exception of ParseRuleString, raised before anything is changed. */
    method AddRule(a: Addition) returns (ok: bool)
      requires Valid()
      modifies this
      ensures Valid() && ok == Parses(a.ruleString)
      ensures history == if ok then old(history) + [a] else old(history)
    {
      if a.ruleString == "" {
        return false;
      }
      if a.ruleString[0] !in ['+', '-', '!'] {
        return false;
      }
      if a.regexp == "" {
        KeepsGeneral(generalRules, specificRules, history, a);
      } else {
        KeepsSpecific(generalRules, specificRules, history, a);
      }
      hide Keeps, Outside, RuleOf, AllRules;
      ok := true;
      var rule := RuleOf(a);
      var rulesToUpdate;
      if a.regexp == "" {
        rulesToUpdate := generalRules;
      } else if a.regexp in specificRules {
        rulesToUpdate := specificRules[a.regexp];
      } else {
        rulesToUpdate := [];
      }
      rulesToUpdate := [rule] + Outside(rulesToUpdate, rule.dir);
      if a.regexp == "" {
        generalRules := rulesToUpdate;
      } else {
        specificRules := specificRules[a.regexp := rulesToUpdate];
      }
      history := history + [a];
    }

    method RuleApplyingTo(includePath: string, dependeePath: string, order: seq<string>,
                          matches: (string, string) -> bool)
      returns (answer: Rule)
      requires Valid() && forall r :: r in order <==> r in specificRules
      ensures answer == Answer(history, order, matches, includePath, Basename(dependeePath))
      ensures Decides(history, order, matches, includePath, Basename(dependeePath), answer)
    {
      AnswerDecides(history, order, matches, includePath, Basename(dependeePath));
      var dependeeFilename := Basename(dependeePath);
      for i := 0 to |order|
        invariant Answer(history, order, matches, includePath, dependeeFilename)
               == Answer(history, order[i..], matches, includePath, dependeeFilename)
      {
        assert order[i..][1..] == order[i + 1..];
        if matches(order[i], dependeeFilename) {
          var rule := LookUp(specificRules[order[i]], includePath);
          FirstMatchIsNewest(history, order[i], includePath);
          if rule.Some? {
            return rule.value;
          }
        }
      }
      var rule := LookUp(generalRules, includePath);
      FirstMatchIsNewest(history, "", includePath);
      answer := if rule.Some? then rule.value else MessageRule("no rule applying.");
    }
  }

  /** for rule in rules: if rule.ChildOrMatch(path): return rule */
  method LookUp(rules: seq<Rule>, path: string) returns (found: Option<Rule>)
    requires AllRules(rules)
    ensures found == FirstMatch(rules, path)
  {
    for i := 0 to |rules|
      invariant FirstMatch(rules, path) == FirstMatch(rules[i..], path)
    {
      assert rules[i..][1..] == rules[i + 1..];
      if ChildOrMatch(rules[i], path) {
        return Some(rules[i]);
      }
    }
    found := None;
  }

  lemma {:induction false} NoHistory(history: seq<Addition>, regexp: string)
    requires AllParse(history) && regexp != "" && regexp !in Regexps(history)
    ensures Pruned(history, regexp) == []
  {
    if history != [] {
      assert history[|history| - 1] in history;
      assert forall a :: a in history[..|history| - 1] ==> a in history;
      NoHistory(history[..|history| - 1], regexp);
    }
  }

  /** When at most one matching expression has a rule for the path, the order in which the dictionary
      is walked does not matter either. */
  lemma {:induction false} AnswerIgnoresOrder(history: seq<Addition>, order: seq<string>,
                                              matches: (string, string) -> bool,
                                             path: string, filename: string, r: string)
    requires AllParse(history) && r in order
    requires forall q :: q in order && matches(q, filename) && Newest(history, q, path).Some? ==> q == r
    ensures Answer(history, order, matches, path, filename)
         == if matches(r, filename) && Newest(history, r, path).Some? then Newest(history, r, path).value
            else Answer(history, [], matches, path, filename)
  {
    if order[0] != r || !(matches(r, filename) && Newest(history, r, path).Some?) {
      if r in order[1..] {
        AnswerIgnoresOrder(history, order[1..], matches, path, filename, r);
      } else {
        NothingMatches(history, order[1..], matches, path, filename);
      }
    }
  }

  lemma {:induction false} NothingMatches(history: seq<Addition>, order: seq<string>, matches: (string, string) -> bool,
                                         path: string, filename: string)
    requires AllParse(history)
    requires forall q :: q in order ==> !(matches(q, filename) && Newest(history, q, path).Some?)
    ensures Answer(history, order, matches, path, filename) == Answer(history, [], matches, path, filename)
  {
    if order != [] {
      NothingMatches(history, order[1..], matches, path, filename);
    }
  }
}
