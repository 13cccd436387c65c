/**
 What the order in which rules are added means for a directory: its own DEPS file decides before its
 parents', and a directory may include its own files unless its DEPS file says otherwise.
 */
module DepsPrecedence {
  import opened Basics
  import opened DepsRules
  import opened DepsBuilder

  /** Later additions decide first. */
  lemma {:induction false} NewestAppend(h: seq<Addition>, more: seq<Addition>, regexp: string, path: string)
    requires AllParse(h) && AllParse(more)
    ensures AllParse(h + more)
    ensures Newest(h + more, regexp, path)
         == if Newest(more, regexp, path).Some? then Newest(more, regexp, path) else Newest(h, regexp, path)
  {
    if more == [] {
      assert h + more == h;
    } else {
      var front, last := more[..|more| - 1], more[|more| - 1];
      assert (h + more)[..|h + more| - 1] == h + front;
      NewestAppend(h, front, regexp, path);
    }
  }

  /** What the DEPS file of a directory adds, without the implicit rule. */
  function OwnRules(config: Config, p: Path): seq<Addition> {
    Explicit(config, p, config.deps(p).includes, "")
    + (if config.ignoreSpecificRules then [] else Specific(config, p, config.deps(p).specificIncludes))
  }

  /** Who decides about an include in a directory: its own DEPS file if any rule there covers it; else the
      implicit rule, which allows it, if it is in that directory; else whatever decides in the parent. */
  lemma NearestDecides(config: Config, p: Path, regexp: string, path: string)
    requires p != [] && Reference(config, p).Has?
    ensures var parent := Reference(config, p[..|p| - 1]);
            && parent.Has? && AllParse(parent.history) && AllParse(OwnRules(config, p))
            && AllParse(Reference(config, p).history)
            && Newest(Reference(config, p).history, regexp, path)
            == (if SomeSpeaks(OwnRules(config, p), regexp, path) then
                  Newest(OwnRules(config, p), regexp, path)
                else if regexp == "" && Covers(RelativeDir(p), path) then
                  Some(Rule('+', RelativeDir(p), RelativeDir(p), "Default rule for " + RelativeDir(p)))
                else Newest(parent.history, regexp, path))
  {
    hide *;
    HistoryParses(config, p);
    HistoryParses(config, p[..|p| - 1]);
    AdditionsAre(config, p);
    OwnThenAbove(Reference(config, p[..|p| - 1]).history, p, OwnRules(config, p), regexp, path);
  }

  lemma AdditionsAre(config: Config, p: Path)
    requires Reference(config, p).Has?
    ensures Additions(config, p) == [DefaultRule(p)] + OwnRules(config, p)
    ensures AllParse(OwnRules(config, p))
  {
    hide Explicit, Specific, DefaultRule;
    var own := OwnRules(config, p);
    assert Additions(config, p) == [DefaultRule(p)] + own;
    assert AllParse(Additions(config, p));
    assert forall i :: 0 <= i < |own| ==> own[i] == Additions(config, p)[i + 1];
  }

  /** A history, then the implicit rule, then the directory's own. */
  lemma OwnThenAbove(h: seq<Addition>, p: Path, own: seq<Addition>, regexp: string, path: string)
    requires AllParse(h) && AllParse(own)
    ensures AllParse(h + ([DefaultRule(p)] + own))
    ensures Newest(h + ([DefaultRule(p)] + own), regexp, path)
         == if SomeSpeaks(own, regexp, path) then Newest(own, regexp, path)
            else if regexp == "" && Covers(RelativeDir(p), path) then
              Some(Rule('+', RelativeDir(p), RelativeDir(p), "Default rule for " + RelativeDir(p)))
            else Newest(h, regexp, path)
  {
    hide Newest, SomeSpeaks, SaidLast, Covers, RelativeDir, DefaultRule, Parses;
    DefaultAlone(p, regexp, path);
    NewestAppend([DefaultRule(p)], own, regexp, path);
    NewestAppend(h, [DefaultRule(p)] + own, regexp, path);
    NewestIsSaidLast(own, regexp, path);
  }

  lemma DefaultAlone(p: Path, regexp: string, path: string)
    ensures Parses(DefaultRule(p).ruleString)
    ensures Newest([DefaultRule(p)], regexp, path)
         == if regexp == "" && Covers(RelativeDir(p), path) then
              Some(Rule('+', RelativeDir(p), RelativeDir(p), "Default rule for " + RelativeDir(p)))
            else None
  {
    hide RelativeDir, Covers;
    var d := DefaultRule(p);
    assert d.ruleString[1..] == RelativeDir(p);
    assert [d][..0] == [];
  }

  lemma {:induction false} HistoryParses(config: Config, p: Path)
    requires Reference(config, p).Has?
    ensures AllParse(Reference(config, p).history)
    ensures p != [] ==> Reference(config, p[..|p| - 1]).Has?
                        && Reference(config, p).history
                           == Reference(config, p[..|p| - 1]).history + Additions(config, p)
    decreases |p|
  {
    hide Additions;
    if p != [] {
      HistoryParses(config, p[..|p| - 1]);
    }
  }

  // ---------- Which line of a DEPS file decides ----------

  /** The line is not filtered out, and its directory covers the path. */
  predicate Live(config: Config, ruleString: string, path: string) {
    !(config.ignoreTempRules && IsTemporary(ruleString)) && Parses(ruleString) && Covers(ruleString[1..], path)
  }

  predicate NoneLive(config: Config, ruleStrings: seq<string>, path: string) {
    forall i :: 0 <= i < |ruleStrings| ==> !Live(config, ruleStrings[i], path)
  }

  /** Line `i` is the last of the list that is live. */
  predicate LiveLast(config: Config, ruleStrings: seq<string>, i: nat, path: string) {
    i < |ruleStrings| && Live(config, ruleStrings[i], path)
    && forall j :: i < j < |ruleStrings| ==> !Live(config, ruleStrings[j], path)
  }

  /** The rule that a line of the DEPS file of `p` stands for. */
  function LineRule(p: Path, ruleString: string, regexp: string): Rule
    requires ruleString != ""
  {
    Rule(ruleString[0], ruleString[1..], RelativeDir(p),
         RelativeDir(p) + if regexp == "" then "'s include_rules" else "'s specific_include_rules")
  }

  /** The last live line decides. */
  lemma {:induction false} ExplicitDecides(config: Config, p: Path, lines: seq<string>, regexp: string, path: string)
    requires AllParse(Explicit(config, p, lines, regexp))
    ensures NoneLive(config, lines, path) ==> Newest(Explicit(config, p, lines, regexp), regexp, path) == None
    ensures forall i: nat :: LiveLast(config, lines, i, path) ==>
              Newest(Explicit(config, p, lines, regexp), regexp, path) == Some(LineRule(p, lines[i], regexp))
  {
    if lines == [] {
    } else {
      var rest := lines[1..];
      if Ignored(config, lines[0]) {
        SkipLine(config, p, lines, regexp);
      } else {
        OneLine(config, p, lines, regexp, path);
      }
      hide Newest, Explicit, Live;
      ExplicitDecides(config, p, rest, regexp, path);
      assert forall j :: 0 < j < |lines| ==> lines[j] == rest[j - 1];
      assert Live(config, lines[0], path) ==> !Ignored(config, lines[0]) by { LiveIsKept(config, lines[0], path); }
      forall i: nat | LiveLast(config, lines, i, path)
        ensures Newest(Explicit(config, p, lines, regexp), regexp, path) == Some(LineRule(p, lines[i], regexp))
      {
        if i > 0 {
          assert LiveLast(config, rest, i - 1, path);
        } else {
          assert NoneLive(config, rest, path);
        }
      }
    }
  }

  lemma LiveIsKept(config: Config, line: string, path: string)
    ensures Live(config, line, path) ==> !Ignored(config, line) && line != ""
  {
  }

  lemma SkipLine(config: Config, p: Path, lines: seq<string>, regexp: string)
    requires lines != [] && Ignored(config, lines[0])
    ensures Explicit(config, p, lines, regexp) == Explicit(config, p, lines[1..], regexp)
  {
  }

  /** A list that starts with a line that is not filtered out. */
  lemma OneLine(config: Config, p: Path, lines: seq<string>, regexp: string, path: string)
    requires lines != [] && !Ignored(config, lines[0]) && AllParse(Explicit(config, p, lines, regexp))
    ensures AllParse(Explicit(config, p, lines[1..], regexp)) && Parses(lines[0])
    ensures var later := Newest(Explicit(config, p, lines[1..], regexp), regexp, path);
            Newest(Explicit(config, p, lines, regexp), regexp, path)
            == if later.Some? then later
               else if Live(config, lines[0], path) then Some(LineRule(p, lines[0], regexp)) else None
  {
    var rest := Explicit(config, p, lines[1..], regexp);
    var all := Explicit(config, p, lines, regexp);
    var a := all[0];
    assert all == [a] + rest;
    assert forall i :: 0 <= i < |rest| ==> rest[i] == all[i + 1];
    NewestAppend([a], rest, regexp, path);
    assert [a][..0] == [];
  }

  /** Additions for other expressions do not count. */
  lemma {:induction false} OtherExpression(config: Config, p: Path, lines: seq<string>, regexp: string, other: string,
                                           path: string)
    requires AllParse(Explicit(config, p, lines, regexp)) && other != regexp
    ensures Newest(Explicit(config, p, lines, regexp), other, path) == None
  {
    ExplicitExpressions(config, p, lines, regexp);
    NewestIsSaidLast(Explicit(config, p, lines, regexp), other, path);
  }

  lemma {:induction false} ExplicitExpressions(config: Config, p: Path, lines: seq<string>, regexp: string)
    ensures forall i :: 0 <= i < |Explicit(config, p, lines, regexp)| ==>
              Explicit(config, p, lines, regexp)[i].regexp == regexp
  {
    if lines != [] {
      ExplicitExpressions(config, p, lines[1..], regexp);
    }
  }

  /** No group for this expression has a live line; in a dictionary there is one group at most. */
  predicate NoneLiveFor(config: Config, groups: seq<(string, seq<string>)>, regexp: string, path: string) {
    forall k :: 0 <= k < |groups| && groups[k].0 == regexp ==> NoneLive(config, groups[k].1, path)
  }

  predicate LiveLastIn(config: Config, groups: seq<(string, seq<string>)>, k: nat, i: nat, path: string) {
    && k < |groups| && LiveLast(config, groups[k].1, i, path)
    && NoneLiveFor(config, groups[k + 1..], groups[k].0, path)
  }

  /** And the last live line of the groups for one expression. */
  lemma {:induction false} SpecificDecides(config: Config, p: Path, groups: seq<(string, seq<string>)>, regexp: string,
                                           path: string)
    requires AllParse(Specific(config, p, groups))
    ensures NoneLiveFor(config, groups, regexp, path) ==> Newest(Specific(config, p, groups), regexp, path) == None
    ensures forall k: nat, i: nat :: LiveLastIn(config, groups, k, i, path) && groups[k].0 == regexp ==>
              Newest(Specific(config, p, groups), regexp, path) == Some(LineRule(p, groups[k].1[i], regexp))
  {
    if groups != [] {
      var rest := groups[1..];
      OneGroup(config, p, groups, regexp, path);
      SpecificDecides(config, p, rest, regexp, path);
      assert forall j :: 0 < j < |groups| ==> groups[j] == rest[j - 1];
      hide Newest, Explicit, Specific, Live, NoneLive, LiveLast;
      forall k: nat, i: nat | LiveLastIn(config, groups, k, i, path) && groups[k].0 == regexp
        ensures Newest(Specific(config, p, groups), regexp, path) == Some(LineRule(p, groups[k].1[i], regexp))
      {
        if k > 0 {
          assert groups[k + 1..] == rest[k..];
          assert LiveLastIn(config, rest, k - 1, i, path);
        } else {
          assert NoneLiveFor(config, rest, regexp, path);
        }
      }
    }
  }

  lemma OneGroup(config: Config, p: Path, groups: seq<(string, seq<string>)>, regexp: string, path: string)
    requires groups != [] && AllParse(Specific(config, p, groups))
    ensures AllParse(Specific(config, p, groups[1..]))
    ensures var later := Newest(Specific(config, p, groups[1..]), regexp, path);
            && (later.Some? ==> Newest(Specific(config, p, groups), regexp, path) == later)
            && (later.None? && (groups[0].0 == regexp ==> NoneLive(config, groups[0].1, path)) ==>
                  Newest(Specific(config, p, groups), regexp, path) == None)
            && (later.None? && groups[0].0 == regexp ==> forall i: nat :: LiveLast(config, groups[0].1, i, path) ==>
                  Newest(Specific(config, p, groups), regexp, path) == Some(LineRule(p, groups[0].1[i], regexp)))
  {
    var first, rest := Explicit(config, p, groups[0].1, groups[0].0), Specific(config, p, groups[1..]);
    var all := Specific(config, p, groups);
    assert all == first + rest;
    assert AllParse(first) by { assert forall i :: 0 <= i < |first| ==> first[i] == all[i]; }
    assert AllParse(rest) by { assert forall i :: 0 <= i < |rest| ==> rest[i] == all[|first| + i]; }
    hide Newest, Explicit, Specific;
    NewestAppend(first, rest, regexp, path);
    if groups[0].0 == regexp {
      ExplicitDecides(config, p, groups[0].1, regexp, path);
    } else {
      OtherExpression(config, p, groups[0].1, groups[0].0, regexp, path);
    }
  }

  /** The groups that count. */
  function Groups(config: Config, p: Path): seq<(string, seq<string>)> {
    if config.ignoreSpecificRules then [] else config.deps(p).specificIncludes
  }

  lemma OwnNewest(config: Config, p: Path, regexp: string, path: string)
    requires AllParse(OwnRules(config, p))
    ensures AllParse(Specific(config, p, Groups(config, p)))
    ensures AllParse(Explicit(config, p, config.deps(p).includes, ""))
    ensures Newest(OwnRules(config, p), regexp, path)
         == var later := Newest(Specific(config, p, Groups(config, p)), regexp, path);
            if later.Some? then later else Newest(Explicit(config, p, config.deps(p).includes, ""), regexp, path)
  {
    var first, rest := Explicit(config, p, config.deps(p).includes, ""), Specific(config, p, Groups(config, p));
    var all := OwnRules(config, p);
    assert all == first + rest;
    assert AllParse(first) by { assert forall i :: 0 <= i < |first| ==> first[i] == all[i]; }
    assert AllParse(rest) by { assert forall i :: 0 <= i < |rest| ==> rest[i] == all[|first| + i]; }
    hide Newest, Explicit, Specific;
    NewestAppend(first, rest, regexp, path);
  }

  /** Who decides in a directory, by the lines of its DEPS file.  For one expression: the last live line of its
      group; for all files, when no group for the empty expression has one: the last live line of include_rules;
      when nothing is live: the implicit rule if the path is in this directory, else what decides above. */
  lemma LineDecides(config: Config, p: Path, regexp: string, path: string)
    requires Reference(config, p).Has?
    ensures AllParse(Reference(config, p).history)
    ensures forall k: nat, i: nat ::
              LiveLastIn(config, Groups(config, p), k, i, path) && Groups(config, p)[k].0 == regexp ==>
              Newest(Reference(config, p).history, regexp, path)
              == Some(LineRule(p, Groups(config, p)[k].1[i], regexp))
    ensures regexp == "" && NoneLiveFor(config, Groups(config, p), "", path) ==>
              forall i: nat :: LiveLast(config, config.deps(p).includes, i, path) ==>
                Newest(Reference(config, p).history, "", path)
                == Some(LineRule(p, config.deps(p).includes[i], ""))
    ensures p != [] ==> Reference(config, p[..|p| - 1]).Has? && AllParse(Reference(config, p[..|p| - 1]).history)
    ensures NoneLiveFor(config, Groups(config, p), regexp, path)
            && (regexp == "" ==> NoneLive(config, config.deps(p).includes, path)) ==>
              Newest(Reference(config, p).history, regexp, path)
              == if regexp == "" && Covers(RelativeDir(p), path) then
                   Some(Rule('+', RelativeDir(p), RelativeDir(p), "Default rule for " + RelativeDir(p)))
                 else if p == [] then None
                 else Newest(Reference(config, p[..|p| - 1]).history, regexp, path)
  {
    hide *;
    HistoryParses(config, p);
    AdditionsAre(config, p);
    var above := Above(config, p);
    var own := OwnRules(config, p);
    HistoryIs(config, p);
    OwnThenAbove(above, p, own, regexp, path);
    NewestIsSaidLast(own, regexp, path);
    OwnNewest(config, p, regexp, path);
    SpecificDecides(config, p, Groups(config, p), regexp, path);
    if regexp == "" {
      ExplicitDecides(config, p, config.deps(p).includes, "", path);
    } else {
      OtherExpression(config, p, config.deps(p).includes, "", regexp, path);
    }
    NoHistoryNone(regexp, path);
  }

  lemma NoHistoryNone(regexp: string, path: string)
    ensures AllParse([]) && Newest([], regexp, path) == None
  {
  }

  /** What was added above this directory. */
  function Above(config: Config, p: Path): seq<Addition> {
    if p == [] then []
    else if Reference(config, p[..|p| - 1]).Has? then Reference(config, p[..|p| - 1]).history else []
  }

  lemma HistoryIs(config: Config, p: Path)
    requires Reference(config, p).Has?
    ensures Reference(config, p).history == Above(config, p) + ([DefaultRule(p)] + OwnRules(config, p))
    ensures AllParse(Above(config, p))
    ensures p == [] ==> Above(config, p) == []
    ensures p != [] ==> Reference(config, p[..|p| - 1]).Has? && AllParse(Reference(config, p[..|p| - 1]).history)
                        && Above(config, p) == Reference(config, p[..|p| - 1]).history
  {
    hide Additions, OwnRules, DefaultRule;
    HistoryParses(config, p);
    AdditionsAre(config, p);
    if p != [] {
      HistoryParses(config, p[..|p| - 1]);
    }
  }

  // ---------- The two flags ----------

  /** No temporary rule, and no rule limited to some files. */
  predicate Passes(config: Config, a: Addition) {
    && (config.ignoreTempRules ==> a.ruleString == "" || a.ruleString[0] != '!')
    && (config.ignoreSpecificRules ==> a.regexp == "")
  }

  predicate AllPass(config: Config, additions: seq<Addition>) {
    forall i :: 0 <= i < |additions| ==> Passes(config, additions[i])
  }

  lemma {:induction false} ExplicitPass(config: Config, p: Path, ruleStrings: seq<string>, regexp: string)
    requires config.ignoreSpecificRules ==> regexp == ""
    ensures AllPass(config, Explicit(config, p, ruleStrings, regexp))
  {
    if ruleStrings != [] {
      ExplicitPass(config, p, ruleStrings[1..], regexp);
    }
  }

  lemma {:induction false} SpecificPass(config: Config, p: Path, groups: seq<(string, seq<string>)>)
    requires !config.ignoreSpecificRules
    ensures AllPass(config, Specific(config, p, groups))
  {
    if groups != [] {
      ExplicitPass(config, p, groups[0].1, groups[0].0);
      SpecificPass(config, p, groups[1..]);
    }
  }

  /** With the flags set, no directory anywhere has a temporary rule, or one limited to some files. */
  lemma {:induction false} FlagsFilter(config: Config, p: Path)
    requires Reference(config, p).Has?
    ensures AllPass(config, Reference(config, p).history)
    decreases |p|
  {
    ExplicitPass(config, p, config.deps(p).includes, "");
    if !config.ignoreSpecificRules { SpecificPass(config, p, config.deps(p).specificIncludes); }
    assert AllPass(config, Additions(config, p)) by {
      assert DefaultRule(p).ruleString[0] == '+';
    }
    hide Additions, Passes;
    if p != [] {
      FlagsFilter(config, p[..|p| - 1]);
      HistoryParses(config, p);
    } else {
      assert [] + Additions(config, p) == Additions(config, p);
    }
  }
}
