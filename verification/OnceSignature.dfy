/**
 What BuildSignature of once.py feeds to the hasher, and which computations that text tells apart.
 */
module OnceSignature {
  import opened Basics
  import opened OnceStore

  /** The paths of the first `n` inputs. */
  ghost function InputPaths(inputs: map<string, string>, names: seq<string>, n: nat): set<string>
    requires n <= |names| && forall k :: k in names ==> k in inputs
  {
    set j | 0 <= j < n :: inputs[names[j]]
  }

  /** `now` is `before` with the hashes of the first `n` inputs added. */
  ghost predicate Covers(before: map<string, string>, now: map<string, string>, inputs: map<string, string>,
                         names: seq<string>, hashes: string -> string, n: nat)
    requires n <= |names| && forall k :: k in names ==> k in inputs
  {
    && now.Keys == before.Keys + InputPaths(inputs, names, n)
    && (forall p :: p in now ==> now[p] == hashes(p))
  }

  lemma CoversStart(cache: map<string, string>, inputs: map<string, string>, names: seq<string>,
                    stableHash: string -> string)
    requires forall k :: k in names ==> k in inputs
    ensures Covers(cache, cache, inputs, names, InputHashes(cache, stableHash), 0)
  {
  }

  lemma NotCached(cache: map<string, string>, stableHash: string -> string, path: string)
    requires path !in cache
    ensures InputHashes(cache, stableHash)(path) == ItemHash(stableHash(path))
  {
  }

  lemma CoversKeys(before: map<string, string>, now: map<string, string>, inputs: map<string, string>,
                   names: seq<string>, hashes: string -> string, n: nat)
    requires n <= |names| && forall k :: k in names ==> k in inputs
    requires Covers(before, now, inputs, names, hashes, n)
    ensures now.Keys == before.Keys + InputPaths(inputs, names, n)
  {
  }

  lemma CoversStep(before: map<string, string>, now: map<string, string>, inputs: map<string, string>,
                   names: seq<string>, hashes: string -> string, n: nat)
    requires n < |names| && forall k :: k in names ==> k in inputs
    requires Covers(before, now, inputs, names, hashes, n)
    ensures var path := inputs[names[n]];
            && (path in now ==> now[path] == hashes(path)) && (path !in now ==> path !in before)
            && Covers(before, if path in now then now else now[path := hashes(path)], inputs, names, hashes, n + 1)
  {
    var path := inputs[names[n]];
    var next := if path in now then now else now[path := hashes(path)];
    assert InputPaths(inputs, names, n + 1) == InputPaths(inputs, names, n) + {path};
  }

  /** The hash used for a path: the cached one if there is one. */
  function InputHashes(cache: map<string, string>, stableHash: string -> string): string -> string {
    (p: string) => if p in cache then cache[p] else ItemHash(stableHash(p))
  }

  function ItemHash(hash: string): string { "item:" + hash }

  function Header(package: string, summary: string): string { "package:" + package + "summary:" + summary }

  function CommandItem(command: string): string { "command:" + command }

  function NameItem(name: string): string { "item_name:" + name + "\0" }

  /** What has been hashed after the first `n` commands. */
  function AddCommands(start: string, commands: seq<string>, n: nat): string
    requires n <= |commands|
  {
    if n == 0 then start else AddCommands(start, commands, n - 1) + CommandItem(commands[n - 1])
  }

  /** What has been hashed after the first `n` inputs. */
  function AddInputs(start: string, inputs: map<string, string>, names: seq<string>, hashes: string -> string,
                     n: nat): string
    requires n <= |names| && forall k :: k in names ==> k in inputs
  {
    if n == 0 then start
    else AddInputs(start, inputs, names, hashes, n - 1) + NameItem(names[n - 1]) + hashes(inputs[names[n - 1]])
  }

  lemma AddInputsStep(start: string, inputs: map<string, string>, names: seq<string>, hashes: string -> string, i: nat)
    requires i < |names| && forall k :: k in names ==> k in inputs
    ensures AddInputs(start, inputs, names, hashes, i + 1)
         == AddInputs(start, inputs, names, hashes, i) + NameItem(names[i]) + hashes(inputs[names[i]])
  {
  }

  /** Everything that is fed to the hasher, in order. */
  function Hashed(package: string, summary: string, inputs: map<string, string>, names: seq<string>,
                  commands: seq<string>, hashes: string -> string): string
    requires forall k :: k in names ==> k in inputs
  {
    AddInputs(AddCommands(Header(package, summary), commands, |commands|), inputs, names, hashes, |names|)
  }

  // ---------- What the hashed text tells apart ----------

  /** The names of the inputs with their path hashes, in order. */
  function Pairs(inputs: map<string, string>, names: seq<string>,
                 hashes: string -> string): (pairs: seq<(string, string)>)
    requires forall k :: k in names ==> k in inputs
    ensures |pairs| == |names|
    ensures forall i :: 0 <= i < |names| ==> pairs[i] == (names[i], hashes(inputs[names[i]]))
  {
    seq(|names|, i requires 0 <= i < |names| => (names[i], hashes(inputs[names[i]])))
  }

  /** The text of some inputs, from the front. */
  function InputsText(pairs: seq<(string, string)>): string {
    if pairs == [] then "" else NameItem(pairs[0].0) + pairs[0].1 + InputsText(pairs[1..])
  }

  lemma {:induction false} InputsTextAppend(pairs: seq<(string, string)>, last: (string, string))
    ensures InputsText(pairs + [last]) == InputsText(pairs) + NameItem(last.0) + last.1
  {
    hide NameItem;
    if pairs == [] {
      assert InputsText([last]) == NameItem(last.0) + last.1 + "";
    } else {
      assert (pairs + [last])[1..] == pairs[1..] + [last];
      InputsTextAppend(pairs[1..], last);
    }
  }

  lemma {:induction false} AddInputsIsText(start: string, inputs: map<string, string>, names: seq<string>,
                                          hashes: string -> string, n: nat)
    requires n <= |names| && forall k :: k in names ==> k in inputs
    ensures AddInputs(start, inputs, names, hashes, n) == start + InputsText(Pairs(inputs, names, hashes)[..n])
  {
    hide NameItem;
    var pairs := Pairs(inputs, names, hashes);
    if n == 0 {
      assert start + "" == start;
    } else {
      AddInputsIsText(start, inputs, names, hashes, n - 1);
      assert pairs[..n] == pairs[..n - 1] + [pairs[n - 1]];
      InputsTextAppend(pairs[..n - 1], pairs[n - 1]);
    }
  }

  const ITEM_LENGTH: nat := 5 + HASH_LENGTH

  /** Names hold no NUL, and every path hash has the length of "item:" and a digest. */
  predicate Regular(pairs: seq<(string, string)>) {
    forall i :: 0 <= i < |pairs| ==> '\0' !in pairs[i].0 && |pairs[i].1| == ITEM_LENGTH
  }

  /** The NUL behind a name and the fixed length of a hash make the text of the inputs unambiguous. */
  lemma {:induction false} InputsTextInjective(pairs: seq<(string, string)>, others: seq<(string, string)>)
    requires Regular(pairs) && Regular(others)
    requires InputsText(pairs) == InputsText(others)
    ensures pairs == others
    decreases |pairs|
  {
    NoInputs(pairs);
    NoInputs(others);
    if pairs != [] {
      var a, b := pairs[0], others[0];
      assert Regular(pairs[1..]) && Regular(others[1..]);
      FirstApart(a.0, a.1, InputsText(pairs[1..]), b.0, b.1, InputsText(others[1..]));
      InputsTextInjective(pairs[1..], others[1..]);
      assert pairs == [a] + pairs[1..] && others == [b] + others[1..];
    }
  }

  lemma NoInputs(pairs: seq<(string, string)>)
    ensures InputsText(pairs) == "" <==> pairs == []
  {
    if pairs != [] {
      assert InputsText(pairs)[0] == NameItem(pairs[0].0)[0];
    }
  }

  /** The first NUL behind "item_name:" ends the name. */
  lemma NameEnds(name: string, rest: string)
    requires '\0' !in name
    ensures var s := NameItem(name) + rest;
            && |s| == 11 + |name| + |rest| && s[10..10 + |name|] == name && s[11 + |name|..] == rest
            && s[10 + |name|] == '\0' && forall k :: 10 <= k < 10 + |name| ==> s[k] != '\0'
  {
    var s := NameItem(name) + rest;
    forall k | 10 <= k < 10 + |name|
      ensures s[k] != '\0'
    {
      assert s[k] == name[k - 10];
    }
  }

  /** Path hashes computed from digests are regular, and so are cached ones that were. */
  lemma PathsRegular(cache: map<string, string>, stableHash: string -> string, inputs: map<string, string>,
                     names: seq<string>)
    requires forall k :: k in names ==> k in inputs && '\0' !in k
    requires (forall p :: |stableHash(p)| == HASH_LENGTH) && forall p :: p in cache ==> |cache[p]| == ITEM_LENGTH
    ensures Regular(Pairs(inputs, names, InputHashes(cache, stableHash)))
  {
    var pairs := Pairs(inputs, names, InputHashes(cache, stableHash));
    forall i | 0 <= i < |pairs|
      ensures '\0' !in pairs[i].0 && |pairs[i].1| == ITEM_LENGTH
    {
      assert names[i] in names;
    }
  }

  lemma FirstApart(name: string, hash: string, rest: string, other: string, otherHash: string, otherRest: string)
    requires '\0' !in name && '\0' !in other && |hash| == |otherHash| == ITEM_LENGTH
    requires NameItem(name) + hash + rest == NameItem(other) + otherHash + otherRest
    ensures name == other && hash == otherHash && rest == otherRest
  {
    hide NameItem;
    assert NameItem(name) + hash + rest == NameItem(name) + (hash + rest);
    assert NameItem(other) + otherHash + otherRest == NameItem(other) + (otherHash + otherRest);
    NameEnds(name, hash + rest);
    NameEnds(other, otherHash + otherRest);
    assert hash == (hash + rest)[..ITEM_LENGTH] && rest == (hash + rest)[ITEM_LENGTH..];
    assert otherHash == (otherHash + otherRest)[..ITEM_LENGTH] && otherRest == (otherHash + otherRest)[ITEM_LENGTH..];
  }

  /** Two computations that hash the same text after the same package, summary and commands have the same
      input names, in the same order, with the same path hashes. */
  lemma InputsTellApart(start: string, inputs: map<string, string>, names: seq<string>, hashes: string -> string,
                        inputs2: map<string, string>, names2: seq<string>, hashes2: string -> string)
    requires (forall k :: k in names ==> k in inputs) && forall k :: k in names2 ==> k in inputs2
    requires Regular(Pairs(inputs, names, hashes)) && Regular(Pairs(inputs2, names2, hashes2))
    ensures AddInputs(start, inputs, names, hashes, |names|) == AddInputs(start, inputs2, names2, hashes2, |names2|)
        <==> Pairs(inputs, names, hashes) == Pairs(inputs2, names2, hashes2)
  {
    var p, q := Pairs(inputs, names, hashes), Pairs(inputs2, names2, hashes2);
    hide *;
    AddInputsIsText(start, inputs, names, hashes, |names|);
    AddInputsIsText(start, inputs2, names2, hashes2, |names2|);
    assert p[..|names|] == p && q[..|names2|] == q;
    var s, t := start + InputsText(p), start + InputsText(q);
    assert InputsText(p) == s[|start|..] && InputsText(q) == t[|start|..];
    if s == t {
      InputsTextInjective(p, q);
    }
  }

  /** While the cached path hashes are those of the file system, the cache makes no difference to
      what is hashed. */
  lemma {:induction false} FreshCacheChangesNothing(cache: map<string, string>, stableHash: string -> string,
                                                    start: string,
                                                   inputs: map<string, string>, names: seq<string>, n: nat)
    requires n <= |names| && forall k :: k in names ==> k in inputs
    requires forall p :: p in cache ==> cache[p] == ItemHash(stableHash(p))
    ensures AddInputs(start, inputs, names, InputHashes(cache, stableHash), n)
         == AddInputs(start, inputs, names, InputHashes(map[], stableHash), n)
  {
    forall path
      ensures InputHashes(cache, stableHash)(path) == InputHashes(map[], stableHash)(path)
    {
    }
    SameHashesSameText(start, inputs, names, InputHashes(cache, stableHash), InputHashes(map[], stableHash), n);
  }

  lemma {:induction false} SameHashesSameText(start: string, inputs: map<string, string>, names: seq<string>,
                                              hashes: string -> string, others: string -> string, n: nat)
    requires n <= |names| && forall k :: k in names ==> k in inputs
    requires forall path :: hashes(path) == others(path)
    ensures AddInputs(start, inputs, names, hashes, n) == AddInputs(start, inputs, names, others, n)
  {
    hide NameItem;
    if n > 0 {
      SameHashesSameText(start, inputs, names, hashes, others, n - 1);
    }
  }

  // ---------- Commands ----------

  const COMMAND: string := "command:"
  const ITEM_NAME: string := "item_name:"

  predicate Occurs(s: string, mark: string, i: nat) { i + |mark| <= |s| && s[i..i + |mark|] == mark }

  ghost predicate Contains(s: string, mark: string) { exists i: nat :: Occurs(s, mark, i) }

  /** A marker whose first character is nowhere else in it cannot overlap itself. */
  predicate IsMark(mark: string) { mark != "" && forall i :: 0 < i < |mark| ==> mark[i] != mark[0] }

  predicate EmptyOrMarked(s: string, mark: string) { s == "" || mark <= s }

  /** The first occurrence of a marker ends the text that holds none. */
  lemma SameFirst(a: string, rest: string, b: string, other: string, mark: string)
    requires IsMark(mark) && a + rest == b + other && |a| <= |b|
    requires EmptyOrMarked(rest, mark) && EmptyOrMarked(other, mark) && !Contains(b, mark)
    ensures a == b && rest == other
  {
    var s, t := a + rest, b + other;
    if |a| < |b| {
      assert s[|a|..] == rest;
      MarkWithin(s, b, other, mark, |a|);
    } else {
      assert a == s[..|a|] && b == t[..|b|] && rest == s[|a|..] && other == t[|b|..];
    }
  }

  lemma Straddles(a: string, b: string, mark: string, i: nat)
    requires i < |a| < i + |mark| && Occurs(a + b, mark, i)
    ensures mark[0] in a && b != "" && b[0] == mark[|a| - i]
  {
    var s := a + b;
    assert a[i] == s[i] == s[i..i + |mark|][0] == mark[0];
    assert b[0] == s[|a|] == s[i..i + |mark|][|a| - i] == mark[|a| - i];
  }

  /** A marker that starts inside `b` would lie in it, or the text after `b` would start in its middle. */
  lemma MarkWithin(s: string, b: string, other: string, mark: string, i: nat)
    requires IsMark(mark) && s == b + other && i < |b| && Occurs(s, mark, i)
    requires EmptyOrMarked(other, mark)
    ensures Contains(b, mark)
  {
    if i + |mark| > |b| {
      Straddles(b, other, mark, i);
      assert false;
    }
    assert b[i..i + |mark|] == s[i..i + |mark|];
    assert Occurs(b, mark, i);
  }

  /** The text of some commands, from the front. */
  function CommandsText(commands: seq<string>): string {
    if commands == [] then "" else CommandItem(commands[0]) + CommandsText(commands[1..])
  }

  lemma {:induction false} CommandsTextAppend(commands: seq<string>, last: string)
    ensures CommandsText(commands + [last]) == CommandsText(commands) + CommandItem(last)
  {
    hide CommandItem;
    if commands == [] {
      assert CommandsText([last]) == CommandItem(last) + "";
    } else {
      assert (commands + [last])[1..] == commands[1..] + [last];
      CommandsTextAppend(commands[1..], last);
    }
  }

  lemma {:induction false} AddCommandsIsText(start: string, commands: seq<string>, n: nat)
    requires n <= |commands|
    ensures AddCommands(start, commands, n) == start + CommandsText(commands[..n])
  {
    hide CommandItem;
    if n == 0 {
      assert start + "" == start;
    } else {
      AddCommandsIsText(start, commands, n - 1);
      assert commands[..n] == commands[..n - 1] + [commands[n - 1]];
      CommandsTextAppend(commands[..n - 1], commands[n - 1]);
    }
  }

  ghost predicate Unmarked(commands: seq<string>, mark: string) {
    forall i :: 0 <= i < |commands| ==> !Contains(commands[i], mark)
  }

  lemma CommandsMarked(commands: seq<string>)
    ensures EmptyOrMarked(CommandsText(commands), COMMAND)
    ensures CommandsText(commands) == "" <==> commands == []
  {
  }

  /** Commands without the marker inside are told apart by their text. */
  lemma {:induction false} CommandsTextInjective(commands: seq<string>, others: seq<string>)
    requires Unmarked(commands, COMMAND) && Unmarked(others, COMMAND)
    requires CommandsText(commands) == CommandsText(others)
    ensures commands == others
    decreases |commands|
  {
    CommandsMarked(commands);
    CommandsMarked(others);
    if commands != [] {
      var a, b := commands[0], others[0];
      var rest, other := CommandsText(commands[1..]), CommandsText(others[1..]);
      CommandsMarked(commands[1..]);
      CommandsMarked(others[1..]);
      assert a + rest == CommandsText(commands)[|COMMAND|..];
      assert b + other == CommandsText(others)[|COMMAND|..];
      hide Contains;
      if |a| <= |b| {
        SameFirst(a, rest, b, other, COMMAND);
      } else {
        SameFirst(b, other, a, rest, COMMAND);
      }
      CommandsTextInjective(commands[1..], others[1..]);
      assert commands == [a] + commands[1..] && others == [b] + others[1..];
    }
  }

  /** So, after the same package and summary, such lists are hashed alike exactly when they are equal. */
  lemma CommandsTellApart(start: string, commands: seq<string>, others: seq<string>)
    requires Unmarked(commands, COMMAND) && Unmarked(others, COMMAND)
    ensures AddCommands(start, commands, |commands|) == AddCommands(start, others, |others|) <==> commands == others
  {
    hide *;
    AddCommandsIsText(start, commands, |commands|);
    AddCommandsIsText(start, others, |others|);
    assert commands[..|commands|] == commands && others[..|others|] == others;
    var s, t := start + CommandsText(commands), start + CommandsText(others);
    assert CommandsText(commands) == s[|start|..] && CommandsText(others) == t[|start|..];
    if s == t {
      CommandsTextInjective(commands, others);
    }
  }

  /** Two commands are hashed like the one that joins them with the marker. */
  lemma Joined(a: string, b: string, rest: seq<string>)
    ensures CommandsText([a, b] + rest) == CommandsText([a + COMMAND + b] + rest)
  {
    var two, one := [a, b] + rest, [a + COMMAND + b] + rest;
    assert two[1..][0] == b && two[1..][1..] == rest && one[1..] == rest;
    assert CommandsText(two) == CommandItem(a) + (CommandItem(b) + CommandsText(rest));
  }

  /** A list of commands is the only one with its text exactly when it has at most one command and the marker
      is not inside it. */
  lemma OnlyListExactly(commands: seq<string>)
    ensures (forall others :: CommandsText(others) == CommandsText(commands) ==> others == commands)
        <==> |commands| <= 1 && Unmarked(commands, COMMAND)
  {
    if !(|commands| <= 1 && Unmarked(commands, COMMAND)) {
      var others := Another(commands);
    } else {
      forall others | CommandsText(others) == CommandsText(commands)
        ensures others == commands
      {
        CommandsMarked(others);
        CommandsMarked(commands);
        if commands != [] {
          assert commands == [commands[0]];
          OnlyOne(commands[0], others);
        }
      }
    }
  }

  /** Another list with the same text: two commands joined, or one split at a marker. */
  lemma Another(commands: seq<string>) returns (others: seq<string>)
    requires !(|commands| <= 1 && Unmarked(commands, COMMAND))
    ensures CommandsText(others) == CommandsText(commands) && |others| != |commands|
  {
    hide CommandsText;
    if |commands| >= 2 {
      var a, b, rest := commands[0], commands[1], commands[2..];
      assert commands == [a, b] + rest;
      Joined(a, b, rest);
      others := [a + COMMAND + b] + rest;
    } else {
      assert |commands| == 1 && Contains(commands[0], COMMAND);
      var i: nat :| Occurs(commands[0], COMMAND, i);
      var a, b := commands[0][..i], commands[0][i + |COMMAND|..];
      assert commands[0] == a + COMMAND + b;
      assert commands == [a + COMMAND + b] + [];
      Joined(a, b, []);
      others := [a, b] + [];
    }
  }

  lemma OnlyOne(command: string, others: seq<string>)
    requires !Contains(command, COMMAND) && others != []
    requires CommandsText(others) == CommandsText([command])
    ensures others == [command]
  {
    var rest := CommandsText(others[1..]);
    CommandsMarked(others[1..]);
    assert CommandsText([command]) == CommandItem(command) + "";
    assert others[0] + rest == CommandsText(others)[|COMMAND|..];
    assert command + "" == CommandsText([command])[|COMMAND|..];
    SameFirst(others[0], rest, command, "", COMMAND);
  }

  // ---------- The whole text ----------

  /** Text that holds no marker, before text whose first character is not in the marker, or after text that
      has no first character of it. */
  lemma ConcatUnmarked(a: string, b: string, mark: string)
    requires mark != "" && !Contains(a, mark) && !Contains(b, mark)
    requires mark[0] !in a || b == "" || b[0] !in mark
    ensures !Contains(a + b, mark)
  {
    forall i: nat | Occurs(a + b, mark, i)
      ensures false
    {
      var s := a + b;
      if i + |mark| <= |a| {
        assert a[i..i + |mark|] == s[i..i + |mark|];
        assert Occurs(a, mark, i);
      } else if i >= |a| {
        assert s[|a|..] == b;
        assert b[i - |a|..i - |a| + |mark|] == s[i..i + |mark|];
        assert Occurs(b, mark, i - |a|);
      } else {
        Straddles(a, b, mark, i);
      }
    }
  }

  lemma {:induction false} CommandsTextUnmarked(commands: seq<string>)
    requires Unmarked(commands, ITEM_NAME)
    ensures !Contains(CommandsText(commands), ITEM_NAME)
  {
    if commands != [] {
      CommandsTextUnmarked(commands[1..]);
      assert !Contains(COMMAND, ITEM_NAME) by {
        forall i: nat | Occurs(COMMAND, ITEM_NAME, i) ensures false { }
      }
      var rest := CommandsText(commands[1..]);
      hide Contains;
      assert Unmarked(commands, ITEM_NAME) && !Contains(commands[0], ITEM_NAME);
      ConcatUnmarked(COMMAND, commands[0], ITEM_NAME);
      RestStarts(commands[1..]);
      ConcatUnmarked(CommandItem(commands[0]), rest, ITEM_NAME);
    }
  }

  lemma RestStarts(commands: seq<string>)
    ensures CommandsText(commands) == "" || CommandsText(commands)[0] !in ITEM_NAME
  {
  }

  lemma InputsMarked(pairs: seq<(string, string)>)
    ensures EmptyOrMarked(InputsText(pairs), ITEM_NAME)
  {
    if pairs != [] {
      var s := InputsText(pairs);
      assert s[..|ITEM_NAME|] == ITEM_NAME;
    }
  }

  /** Commands that hold neither marker, then regular inputs: the whole text tells both apart. */
  lemma TextTellsApart(commands: seq<string>, pairs: seq<(string, string)>, others: seq<string>,
                       otherPairs: seq<(string, string)>)
    requires Unmarked(commands, COMMAND) && Unmarked(others, COMMAND)
    requires Unmarked(commands, ITEM_NAME) && Unmarked(others, ITEM_NAME)
    requires Regular(pairs) && Regular(otherPairs)
    requires CommandsText(commands) + InputsText(pairs) == CommandsText(others) + InputsText(otherPairs)
    ensures commands == others && pairs == otherPairs
  {
    hide *;
    CommandsTextUnmarked(commands);
    CommandsTextUnmarked(others);
    InputsMarked(pairs);
    InputsMarked(otherPairs);
    ItemNameIsMark();
    if |CommandsText(commands)| <= |CommandsText(others)| {
      SameFirst(CommandsText(commands), InputsText(pairs), CommandsText(others), InputsText(otherPairs), ITEM_NAME);
    } else {
      SameFirst(CommandsText(others), InputsText(otherPairs), CommandsText(commands), InputsText(pairs), ITEM_NAME);
    }
    CommandsTextInjective(commands, others);
    InputsTextInjective(pairs, otherPairs);
  }

  lemma ItemNameIsMark()
    ensures IsMark(ITEM_NAME)
  {
  }

  lemma HashedIs(package: string, summary: string, inputs: map<string, string>, names: seq<string>,
                 commands: seq<string>, hashes: string -> string)
    requires forall k :: k in names ==> k in inputs
    ensures Hashed(package, summary, inputs, names, commands, hashes)
         == Header(package, summary) + (CommandsText(commands) + InputsText(Pairs(inputs, names, hashes)))
  {
    hide AddCommands, AddInputs, Header;
    var h := Header(package, summary);
    AddCommandsIsText(h, commands, |commands|);
    assert commands[..|commands|] == commands;
    var start := AddCommands(h, commands, |commands|);
    AddInputsIsText(start, inputs, names, hashes, |names|);
    var pairs := Pairs(inputs, names, hashes);
    assert pairs[..|names|] == pairs;
    assert h + CommandsText(commands) + InputsText(pairs) == h + (CommandsText(commands) + InputsText(pairs));
  }

  /** Two computations of one package on one system, whose commands hold neither marker and whose input names
      hold no NUL, are hashed alike exactly when commands, input names and path hashes are the same. */
  lemma HashedTellsApart(package: string, summary: string,
                         inputs: map<string, string>, names: seq<string>, commands: seq<string>,
                             hashes: string -> string,
                         inputs2: map<string, string>, names2: seq<string>, commands2: seq<string>,
                             hashes2: string -> string)
    requires (forall k :: k in names ==> k in inputs) && forall k :: k in names2 ==> k in inputs2
    requires Unmarked(commands, COMMAND) && Unmarked(commands, ITEM_NAME)
    requires Unmarked(commands2, COMMAND) && Unmarked(commands2, ITEM_NAME)
    requires Regular(Pairs(inputs, names, hashes)) && Regular(Pairs(inputs2, names2, hashes2))
    ensures Hashed(package, summary, inputs, names, commands, hashes)
         == Hashed(package, summary, inputs2, names2, commands2, hashes2)
        <==> commands == commands2 && Pairs(inputs, names, hashes) == Pairs(inputs2, names2, hashes2)
  {
    hide *;
    HashedIs(package, summary, inputs, names, commands, hashes);
    HashedIs(package, summary, inputs2, names2, commands2, hashes2);
    var h := Header(package, summary);
    var a := CommandsText(commands) + InputsText(Pairs(inputs, names, hashes));
    var b := CommandsText(commands2) + InputsText(Pairs(inputs2, names2, hashes2));
    assert a == (h + a)[|h|..] && b == (h + b)[|h|..];
    if a == b {
      TextTellsApart(commands, Pairs(inputs, names, hashes), commands2, Pairs(inputs2, names2, hashes2));
    }
  }

  const SUMMARY: string := "summary:"

  /** Packages without the next marker in their names are told apart, whatever the two systems, commands and
      inputs are; and on one system, with the same commands and inputs, all packages are. */
  lemma PackagesTellApart(package: string, summary: string, rest: string,
                          package2: string, summary2: string, rest2: string)
    ensures !Contains(package, SUMMARY) && !Contains(package2, SUMMARY) ==>
              Header(package, summary) + rest == Header(package2, summary2) + rest2 ==>
              package == package2 && summary + rest == summary2 + rest2
    ensures Header(package, summary) + rest == Header(package2, summary) + rest <==> package == package2
  {
    HeaderIs(package, summary, rest);
    HeaderIs(package2, summary2, rest2);
    HeaderIs(package2, summary, rest);
    var a, b := SUMMARY + (summary + rest), SUMMARY + (summary2 + rest2);
    if !Contains(package, SUMMARY) && !Contains(package2, SUMMARY) && package + a == package2 + b {
      if |package| <= |package2| {
        SameFirst(package, a, package2, b, SUMMARY);
      } else {
        SameFirst(package2, b, package, a, SUMMARY);
      }
      assert a[|SUMMARY|..] == summary + rest && b[|SUMMARY|..] == summary2 + rest2;
    }
    if package + a == package2 + a {
      assert |package| == |package2|;
      assert package == (package + a)[..|package|] && package2 == (package2 + a)[..|package2|];
    }
  }

  lemma PackagesHashApart(package: string, package2: string, summary: string, inputs: map<string, string>,
                          names: seq<string>, commands: seq<string>, hashes: string -> string)
    requires forall k :: k in names ==> k in inputs
    ensures Hashed(package, summary, inputs, names, commands, hashes)
         == Hashed(package2, summary, inputs, names, commands, hashes)
        <==> package == package2
  {
    hide *;
    HashedIs(package, summary, inputs, names, commands, hashes);
    HashedIs(package2, summary, inputs, names, commands, hashes);
    var rest := CommandsText(commands) + InputsText(Pairs(inputs, names, hashes));
    PackagesTellApart(package, summary, rest, package2, summary, rest);
  }

  lemma HeaderIs(package: string, summary: string, rest: string)
    ensures (Header(package, summary) + rest)[8..] == package + (SUMMARY + (summary + rest))
    ensures (Header(package, summary) + rest)[..8] == "package:"
    ensures Header(package, summary) + rest == "package:" + (package + (SUMMARY + (summary + rest)))
  {
  }
}
