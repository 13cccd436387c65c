/**
 What the cache-free definition of a directory's rules says, by the DEPS files alone: which directories are
 skipped, for which an exception is raised, and what the directory names in rules cover.
 */
module DepsReference {
  import opened Basics
  import opened DepsRules
  import opened DepsBuilder

  /** Every line of the DEPS file that is not filtered out starts with a sign. */
  predicate Sound(config: Config, p: Path) {
    && LinesSound(config, config.deps(p).includes)
    && (config.ignoreSpecificRules || GroupsSound(config, config.deps(p).specificIncludes))
  }

  predicate LinesSound(config: Config, lines: seq<string>) {
    forall i :: 0 <= i < |lines| ==> (config.ignoreTempRules && IsTemporary(lines[i])) || Parses(lines[i])
  }

  predicate GroupsSound(config: Config, groups: seq<(string, seq<string>)>) {
    forall k :: 0 <= k < |groups| ==> LinesSound(config, groups[k].1)
  }

  lemma ParsesAppend(a: seq<Addition>, b: seq<Addition>)
    ensures AllParse(a + b) <==> AllParse(a) && AllParse(b)
  {
    if AllParse(a + b) {
      assert forall i :: 0 <= i < |a| ==> a[i] == (a + b)[i];
      assert forall i :: 0 <= i < |b| ==> b[i] == (a + b)[|a| + i];
    }
  }

  lemma {:induction false} LinesParse(config: Config, p: Path, lines: seq<string>, regexp: string)
    ensures AllParse(Explicit(config, p, lines, regexp)) <==> LinesSound(config, lines)
  {
    if lines != [] {
      var rest := lines[1..];
      LinesParse(config, p, rest, regexp);
      assert forall i :: 0 < i < |lines| ==> lines[i] == rest[i - 1];
      if !Ignored(config, lines[0]) {
        var all := Explicit(config, p, lines, regexp);
        assert all == [all[0]] + Explicit(config, p, rest, regexp);
        ParsesAppend([all[0]], Explicit(config, p, rest, regexp));
        assert AllParse([all[0]]) <==> Parses([all[0]][0].ruleString);
      }
    }
  }

  lemma {:induction false} GroupsParse(config: Config, p: Path, groups: seq<(string, seq<string>)>)
    ensures AllParse(Specific(config, p, groups)) <==> GroupsSound(config, groups)
  {
    if groups != [] {
      var rest := groups[1..];
      GroupsParse(config, p, rest);
      assert forall i :: 0 < i < |groups| ==> groups[i] == rest[i - 1];
      LinesParse(config, p, groups[0].1, groups[0].0);
      hide Explicit, LinesSound;
      ParsesAppend(Explicit(config, p, groups[0].1, groups[0].0), Specific(config, p, rest));
    }
  }

  /** The rules of a directory parse exactly when its DEPS file is sound; its implicit rule always does. */
  lemma AdditionsParse(config: Config, p: Path)
    ensures AllParse(Additions(config, p)) <==> Sound(config, p)
  {
    var lines := Explicit(config, p, config.deps(p).includes, "");
    var groups := if config.ignoreSpecificRules then [] else Specific(config, p, config.deps(p).specificIncludes);
    assert Additions(config, p) == [DefaultRule(p)] + lines + groups;
    LinesParse(config, p, config.deps(p).includes, "");
    GroupsParse(config, p, config.deps(p).specificIncludes);
    assert Parses([DefaultRule(p)][0].ruleString);
    assert AllParse([DefaultRule(p)]);
    hide Explicit, Specific, LinesSound, GroupsSound, DefaultRule;
    ParsesAppend([DefaultRule(p)], lines);
    ParsesAppend([DefaultRule(p)] + lines, groups);
    assert AllParse([]);
  }

  /** The DEPS file of the directory above names this component as one to skip. */
  predicate SkippedAt(config: Config, p: Path, k: nat)
    requires k < |p|
  {
    p[k] in config.deps(p[..k]).skips
  }

  /** Nothing from the base down to depth `k` is skipped or unsound. */
  predicate FineTo(config: Config, p: Path, k: nat)
    requires k <= |p|
  {
    (forall j :: 0 <= j <= k ==> Sound(config, p[..j])) && (forall j: nat :: j < k ==> !SkippedAt(config, p, j))
  }

  lemma FineFront(config: Config, p: Path, k: nat)
    requires p != [] && k <= |p| - 1
    ensures FineTo(config, p, k) <==> FineTo(config, p[..|p| - 1], k)
    ensures k < |p| - 1 ==> (SkippedAt(config, p, k) <==> SkippedAt(config, p[..|p| - 1], k))
  {
    var front := p[..|p| - 1];
    hide Sound;
    assert forall j :: 0 <= j <= k ==> p[..j] == front[..j];
    assert forall j: nat :: j < |front| ==> (SkippedAt(config, p, j) <==> SkippedAt(config, front, j)) by {
      forall j: nat | j < |front|
        ensures SkippedAt(config, p, j) <==> SkippedAt(config, front, j)
      {
        assert p[..j] == front[..j] && p[j] == front[j];
      }
    }
    if FineTo(config, front, k) {
      forall j | 0 <= j <= k
        ensures Sound(config, p[..j])
      {
        assert Sound(config, front[..j]);
      }
    }
    if FineTo(config, p, k) {
      forall j | 0 <= j <= k
        ensures Sound(config, front[..j])
      {
        assert Sound(config, p[..j]);
      }
    }
  }

  /** Rules exactly when no directory from the base to this one is skipped or has an unsound DEPS file; skipped
      exactly when some directory on the way is skipped and all before it are fine; and an exception exactly
      when some DEPS file on the way is unsound and nothing before it or at it is skipped. */
  lemma {:induction false} ReferenceExactly(config: Config, p: Path)
    ensures Reference(config, p).Has? <==> FineTo(config, p, |p|)
    ensures Reference(config, p).Skipped?
        <==> exists k: nat :: k < |p| && FineTo(config, p, k) && SkippedAt(config, p, k)
    ensures Reference(config, p).Raises?
        <==> !FineTo(config, p, |p|) && !(exists k: nat :: k < |p| && FineTo(config, p, k) && SkippedAt(config, p, k))
    decreases |p|
  {
    AdditionsParse(config, p);
    assert p[..|p|] == p;
    hide Additions, Sound;
    if p == [] {
    } else {
      var front := p[..|p| - 1];
      ReferenceExactly(config, front);
      FineFront(config, p, |p| - 1);
      assert front == p[..|p| - 1];
      forall k: nat | k < |p| - 1
        ensures FineTo(config, p, k) && SkippedAt(config, p, k)
            <==> FineTo(config, front, k) && SkippedAt(config, front, k)
      {
        FineFront(config, p, k);
      }
      if k: nat :| k < |front| && FineTo(config, front, k) && SkippedAt(config, front, k) {
        assert FineTo(config, p, k) && SkippedAt(config, p, k);
      }
      LastStep(config, p);
    }
  }

  lemma LastStep(config: Config, p: Path)
    requires p != []
    ensures FineTo(config, p, |p|)
        <==> FineTo(config, p, |p| - 1) && !SkippedAt(config, p, |p| - 1) && Sound(config, p)
  {
    hide Sound;
    assert p[..|p|] == p;
  }

  // ---------- What directory names cover ----------

  predicate Plain(p: Path) { forall i :: 0 <= i < |p| ==> '/' !in p[i] }

  lemma {:induction false} JoinedFront(p: Path)
    requires |p| >= 2
    ensures Joined(p) == p[0] + "/" + Joined(p[1..])
  {
    var front, last := p[..|p| - 1], p[|p| - 1];
    if |p| > 2 {
      JoinedFront(front);
      assert front[1..] == p[1..][..|p| - 2];
      assert Joined(p) == p[0] + "/" + Joined(front[1..]) + "/" + last;
      assert p[1..][|p| - 2] == last;
      assert Joined(p[1..]) == Joined(front[1..]) + "/" + last;
      assert p[0] + "/" + Joined(front[1..]) + "/" + last == p[0] + "/" + (Joined(front[1..]) + "/" + last);
    } else {
      assert front == [p[0]] && p[1..] == [last];
    }
  }

  /** The first slash ends the first component. */
  lemma FirstSlash(a: string, x: string, b: string, y: string)
    requires '/' !in a && '/' !in b
    ensures a + "/" + x <= b + "/" + y <==> a == b && x <= y
    ensures a + "/" + x == b + "/" + y <==> a == b && x == y
    ensures a + "/" <= b + "/" + y <==> a == b
  {
    var s, t := a + "/" + x, b + "/" + y;
    assert s[|a|] == '/' && t[|b|] == '/' && (a + "/")[|a|] == '/';
    assert forall i :: 0 <= i < |a| ==> s[i] == a[i] && (a + "/")[i] == a[i];
    assert forall i :: 0 <= i < |b| ==> t[i] == b[i];
    if s <= t || a + "/" <= t {
      assert t[|a|] == '/';
      assert |a| == |b|;
      assert a == t[..|a|] == b;
      assert s[|a| + 1..] == x && t[|b| + 1..] == y;
    }
    if a == b && x <= y {
      assert t[..|s|] == s;
    }
  }

  /** A rule for one directory covers another exactly when that is the same directory or below it. */
  lemma {:induction false} JoinedCovers(p: Path, q: Path)
    requires p != [] && q != [] && Plain(p) && Plain(q)
    ensures Covers(Joined(p), Joined(q)) <==> p <= q
    decreases |p|
  {
    assert Joined([p[0]]) == p[0] && Joined([q[0]]) == q[0];
    if |q| >= 2 {
      JoinedFront(q);
    } else {
      assert q == [q[0]];
    }
    if |p| >= 2 {
      JoinedFront(p);
    } else {
      assert p == [p[0]];
    }
    hide Joined;
    if |p| == 1 && |q| == 1 {
      NoSlash(p[0], q[0]);
    } else if |p| == 1 {
      FirstSlash(p[0], "", q[0], Joined(q[1..]));
      assert Joined(q)[|q[0]|] == '/';
      assert '/' in Joined(q) && '/' !in p[0];
    } else if |q| == 1 {
      assert Joined(p)[|p[0]|] == '/';
      InPrefix(Joined(p), q[0]);
    } else {
      var x, y := Joined(p[1..]), Joined(q[1..]);
      JoinedCovers(p[1..], q[1..]);
      FirstSlash(p[0], x, q[0], y);
      FirstSlash(p[0], x + "/", q[0], y);
      assert Joined(p) + "/" == p[0] + "/" + (x + "/");
      assert p <= q <==> p[0] == q[0] && p[1..] <= q[1..];
    }
  }

  /** The implicit rule of the base is for ".", so it covers nothing but what is written to start with that. */
  lemma BaseCovers(q: Path)
    requires q != [] && Plain(q)
    ensures DefaultRule([]).ruleString == "+." && DefaultRule([]).dependentDir == "."
    ensures Covers(DefaultRule([]).ruleString[1..], Joined(q)) <==> q[0] == "."
  {
    JoinedCovers(["."], q);
    assert Joined(["."]) == "." && "+."[1..] == ".";
  }

  lemma SlashIn(a: string, b: string)
    ensures a + "/" <= b ==> '/' in b
  {
    assert (a + "/")[|a|] == '/';
    assert a + "/" <= b ==> b[|a|] == '/';
  }

  lemma NoSlash(a: string, b: string)
    requires '/' !in b
    ensures Covers(a, b) <==> a == b
  {
    SlashIn(a, b);
  }

  lemma InPrefix(s: string, t: string)
    requires '/' in s && '/' !in t
    ensures !Covers(s, t)
  {
    SlashIn(s, t);
  }
}
