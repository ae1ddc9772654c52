/** A canonical printer for parsed command lines, and the stability of parsing under it. */
module CliRendering {
  import opened Prelude
  import opened CliSpec
  import opened CliParser
  import CliCompletion

  function RenderOption(option: ParsedOption): string {
    "--" + option.name + if option.value.Some? then "=" + option.value.value else ""
  }

  function RenderOptions(options: seq<ParsedOption>): (words: seq<string>)
    ensures |words| == |options|
    ensures forall i :: 0 <= i < |options| ==> words[i] == RenderOption(options[i])
  {
    if options == [] then []
    else RenderOptions(options[..|options| - 1]) + [RenderOption(options[|options| - 1])]
  }

  /** Command names, then `--long[=value]` options, then positionals, then `--` and the rest. */
  function Render(s: State): seq<string> {
    s.path + RenderOptions(s.options) + s.positionals + ["--"] + s.passthrough
  }

  // --------------------------------------------------------------------------
  // Scopes of a valid specification
  // --------------------------------------------------------------------------

  ghost predicate Entered(spec: Spec, chain: seq<CommandSpec>, path: seq<string>) {
    |chain| == |path| &&
    (chain == [] ||
     (&& chain[|chain| - 1] in Commands(spec, chain[..|chain| - 1])
      && path[|path| - 1] == chain[|chain| - 1].name
      && Entered(spec, chain[..|chain| - 1], path[..|path| - 1])))
  }

  ghost predicate GoodScope(spec: Spec, chain: seq<CommandSpec>) {
    var visible := VisibleOptions(spec, chain);
    && ValidCommands(Commands(spec, chain))
    && DistinctOptions(visible)
    && (forall o :: o in visible ==> ValidName(o.long))
    && (forall c :: c in Commands(spec, chain) ==> ValidScope(c.commands, c.options, c.arguments, visible))
  }

  lemma {:induction false} ScopesAreGood(spec: Spec, chain: seq<CommandSpec>, path: seq<string>)
    requires ValidSpec(spec) && Entered(spec, chain, path)
    ensures GoodScope(spec, chain)
  {
    if chain == [] {
      assert [] + spec.options == spec.options;
    } else {
      ScopesAreGood(spec, chain[..|chain| - 1], path[..|path| - 1]);
    }
  }

  /** Labels of one command occupy their own stretch of the label list. */
  lemma LabelPosition(commands: seq<CommandSpec>, i: nat, word: string) returns (p: nat)
    requires i < |commands| && commands[i].Matches(word)
    ensures |Labels(commands[..i])| <= p < |Labels(commands[..i + 1])| <= |Labels(commands)|
    ensures Labels(commands)[p] == word
  {
    var labels := [commands[i].name] + commands[i].aliases;
    assert word in labels;
    var b :| 0 <= b < |labels| && labels[b] == word;
    LabelsPrefix(commands, i);
    assert commands[..i + 1][..i] == commands[..i];
    p := |Labels(commands[..i])| + b;
  }

  lemma LabelsGrow(commands: seq<CommandSpec>, i: nat, k: nat)
    requires i < k <= |commands|
    ensures |Labels(commands[..i + 1])| <= |Labels(commands[..k])|
  {
    LabelsPrefix(commands[..k], i);
    assert commands[..k][..i] == commands[..i] && commands[..i + 1][..i] == commands[..i];
  }

  lemma {:induction false} FirstMatchIndex(commands: seq<CommandSpec>, word: string) returns (i: nat)
    requires exists k :: 0 <= k < |commands| && commands[k].Matches(word)
    ensures i < |commands| && commands[i].Matches(word) && FirstMatch(commands, word) == Some(commands[i])
  {
    if commands[0].Matches(word) {
      i := 0;
    } else {
      var k :| 0 <= k < |commands| && commands[k].Matches(word);
      assert commands[1..][k - 1].Matches(word);
      i := FirstMatchIndex(commands[1..], word);
      i := i + 1;
    }
  }

  lemma NameFindsCommand(commands: seq<CommandSpec>, command: CommandSpec)
    requires ValidCommands(commands) && command in commands
    ensures FirstMatch(commands, command.name) == Some(command)
  {
    var k :| 0 <= k < |commands| && commands[k] == command;
    assert commands[k].Matches(command.name);
    var i := FirstMatchIndex(commands, command.name);
    var p := LabelPosition(commands, i, command.name);
    var q := LabelPosition(commands, k, command.name);
    assert p == q;
    if i < k {
      LabelsGrow(commands, i, k);
    } else if k < i {
      LabelsGrow(commands, k, i);
    }
  }

  /** Options found in an outer scope are found unchanged in every inner one. */
  lemma {:induction false} FoundInInnerScope(outer: seq<OptionSpec>, inner: seq<OptionSpec>, long: string)
    requires DistinctOptions(outer + inner) && LastLong(outer, long).Some?
    ensures LastLong(outer + inner, long) == LastLong(outer, long)
  {
    if inner == [] {
      assert outer + inner == outer;
    } else {
      var n := |inner| - 1;
      var both := outer + inner;
      assert both[..|both| - 1] == outer + inner[..n] && both[|both| - 1] == inner[n];
      CliCompletion.FoundIsVisible(outer, long, 'x');
      var option := LastLong(outer, long).value;
      var i :| 0 <= i < |outer| && outer[i] == option;
      assert both[i].long == long && both[|outer| + n].long == inner[n].long;
      assert forall k :: 0 <= k < |outer| + n ==> (outer + inner[..n])[k] == both[k];
      FoundInInnerScope(outer, inner[..n], long);
    }
  }

  // --------------------------------------------------------------------------
  // What every state reached by the loop satisfies
  // --------------------------------------------------------------------------

  predicate FitsMode(option: OptionSpec, value: Option<string>) {
    && (option.mode == Forbidden ==> value.None?)
    && (option.mode == Required ==> value.Some?)
    && (value.Some? ==> Accepts(value.value, option.valueType, option.possible))
  }

  ghost predicate OptionFits(spec: Spec, chain: seq<CommandSpec>, options: seq<ParsedOption>, k: nat)
    requires k < |options|
  {
    var found := FindLong(spec, chain, options[k].name);
    && found.Some? && found.value.long == options[k].name && FitsMode(found.value, options[k].value)
    && (!found.value.repeatable ==> !HasOption(options[..k], options[k].name))
  }

  predicate PositionalFits(spec: Spec, chain: seq<CommandSpec>, k: nat, word: string) {
    var argument := NextArgument(spec, chain, k);
    && !StartsWith(word, "--")
    && (IsShort(word) ==> AcceptsNegative(spec, chain, k, word))
    && (k == 0 ==> FirstMatch(Commands(spec, chain), word).None?)
    && argument.Some? && Accepts(word, argument.value.valueType, argument.value.possible)
  }

  ghost predicate Reachable(spec: Spec, s: State) {
    && Entered(spec, s.chain, s.path)
    && GoodScope(spec, s.chain)
    && (forall k :: 0 <= k < |s.options| ==> OptionFits(spec, s.chain, s.options, k))
    && (forall k :: 0 <= k < |s.positionals| ==> PositionalFits(spec, s.chain, k, s.positionals[k]))
  }

  lemma PushOptionReaches(spec: Spec, s: State, long: string, value: Option<string>)
    requires Reachable(spec, s)
    requires FindLong(spec, s.chain, long).Some? && FindLong(spec, s.chain, long).value.long == long
    requires var option := FindLong(spec, s.chain, long).value;
      PushOption(s, option, value).Ok? &&
      (option.mode == Forbidden ==> value.None?) && (option.mode == Required ==> value.Some?)
    ensures Reachable(spec, PushOption(s, FindLong(spec, s.chain, long).value, value).value)
  {
    var after := PushOption(s, FindLong(spec, s.chain, long).value, value).value;
    forall k | 0 <= k < |after.options| ensures OptionFits(spec, after.chain, after.options, k) {
      if k < |s.options| {
        assert OptionFits(spec, s.chain, s.options, k);
        assert after.options[..k] == s.options[..k];
      } else {
        assert after.options[..k] == s.options;
      }
    }
  }

  lemma {:induction false} ShortFindsByLong(options: seq<OptionSpec>, short: char)
    requires DistinctOptions(options) && LastShort(options, short).Some?
    ensures LastLong(options, LastShort(options, short).value.long) == LastShort(options, short)
  {
    var n := |options| - 1;
    if options[n].short != Some(short) {
      ShortFindsByLong(options[..n], short);
      CliCompletion.FoundIsVisible(options[..n], "", short);
      var i :| 0 <= i < n && options[..n][i] == LastShort(options, short).value;
      assert options[i].long != options[n].long;
    }
  }

  lemma {:induction false} ClusterReaches(spec: Spec, words: seq<string>, index: nat, k: nat, s: State)
    requires index < |words| && Reachable(spec, s) && ParseShort(spec, words, index, k, s).Ok?
    ensures Reachable(spec, ParseShort(spec, words, index, k, s).value.0)
    decreases |words[index]| - k
  {
    var word := words[index];
    if k < |word| {
      var option := FindShort(spec, s.chain, word[k]).value;
      ShortFindsByLong(VisibleOptions(spec, s.chain), word[k]);
      CliCompletion.FoundIsVisible(VisibleOptions(spec, s.chain), "", word[k]);
      var (value, next) := OptionValue(words, index, Remainder(word, k), option, true).value;
      PushOptionReaches(spec, s, option.long, value);
      if option.mode == Forbidden {
        ClusterReaches(spec, words, index, k + 1, PushOption(s, option, value).value);
      }
    }
  }

  lemma EnteringReaches(spec: Spec, s: State, word: string)
    requires ValidSpec(spec) && Reachable(spec, s) && s.positionals == []
    requires FirstMatch(Commands(spec, s.chain), word).Some?
    ensures Reachable(spec, EnterCommand(s, FirstMatch(Commands(spec, s.chain), word).value))
  {
    var command := FirstMatch(Commands(spec, s.chain), word).value;
    var after := EnterCommand(s, command);
    CliCompletion.MatchIsListed(Commands(spec, s.chain), word);
    assert after.chain[..|s.chain|] == s.chain && after.path[..|s.path|] == s.path;
    ScopesAreGood(spec, after.chain, after.path);
    forall k | 0 <= k < |s.options| ensures OptionFits(spec, after.chain, after.options, k) {
      assert OptionFits(spec, s.chain, s.options, k);
      FoundInInnerScope(VisibleOptions(spec, s.chain), command.options, s.options[k].name);
    }
  }

  lemma WordReaches(spec: Spec, words: seq<string>, index: nat, s: State)
    requires ValidSpec(spec)
    requires index < |words| && Reachable(spec, s) && ParseWord(spec, words, index, s).Ok?
    ensures Reachable(spec, ParseWord(spec, words, index, s).value.0)
    ensures ParseWord(spec, words, index, s).value.0.passthrough == s.passthrough
  {
    var word := words[index];
    if StartsWith(word, "--") {
      var (name, inline) := SplitOnce(word[2..]);
      CliCompletion.FoundIsVisible(VisibleOptions(spec, s.chain), name, 'x');
      var (value, next) := OptionValue(words, index, inline, FindLong(spec, s.chain, name).value, false).value;
      PushOptionReaches(spec, s, name, value);
    } else if IsShort(word) && !AcceptsNegative(spec, s.chain, |s.positionals|, word) {
      ClusterReaches(spec, words, index, 1, s);
      ClusterKeepsRest(spec, words, index, 1, s);
    } else if s.positionals == [] && FirstMatch(Commands(spec, s.chain), word).Some? {
      EnteringReaches(spec, s, word);
    } else {
      assert PositionalFits(spec, s.chain, |s.positionals|, word);
    }
  }

  lemma {:induction false} ClusterKeepsRest(spec: Spec, words: seq<string>, index: nat, k: nat, s: State)
    requires index < |words| && ParseShort(spec, words, index, k, s).Ok?
    ensures var after := ParseShort(spec, words, index, k, s).value.0;
      after.passthrough == s.passthrough && s.options <= after.options
    decreases |words[index]| - k
  {
    var word := words[index];
    if k < |word| {
      var option := FindShort(spec, s.chain, word[k]).value;
      var (value, next) := OptionValue(words, index, Remainder(word, k), option, true).value;
      if option.mode == Forbidden {
        ClusterKeepsRest(spec, words, index, k + 1, PushOption(s, option, value).value);
      }
    }
  }

  lemma {:induction false} LoopReaches(spec: Spec, words: seq<string>, index: nat, s: State)
    requires ValidSpec(spec)
    requires index <= |words| && Reachable(spec, s) && s.passthrough == []
    requires ParseWords(spec, words, index, s).Ok?
    ensures Reachable(spec, ParseWords(spec, words, index, s).value.0)
    decreases |words| - index
  {
    if index < |words| && words[index] != "--" {
      WordReaches(spec, words, index, s);
      WordAdvances(spec, words, index, s);
      var (after, next) := ParseWord(spec, words, index, s).value;
      LoopReaches(spec, words, next, after);
    }
  }

  // --------------------------------------------------------------------------
  // Parsing the rendered words
  // --------------------------------------------------------------------------

  /** Each command name reads as a word, not as an option, in the scope it is entered from. The validator allows names
      that start with a dash; such a command is entered through an alias. */
  ghost predicate Readable(spec: Spec, s: State) {
    forall n :: 0 <= n < |s.path| && n < |s.chain| ==> ReadsAsCommand(spec, s.chain[..n], s.path[n])
  }

  predicate ReadsAsCommand(spec: Spec, chain: seq<CommandSpec>, name: string) {
    !StartsWith(name, "--") && (IsShort(name) ==> AcceptsNegative(spec, chain, 0, name))
  }

  /** `s` cut down to its first commands, options and positionals, without the rest. */
  function Part(s: State, commands: nat, options: nat, positionals: nat): State
    requires commands <= |s.chain| == |s.path| && options <= |s.options| && positionals <= |s.positionals|
  {
    State(s.chain[..commands], s.path[..commands], s.options[..options], s.positionals[..positionals], [])
  }

  /** `s` as rebuilt by its first `n` rendered words. */
  function PartAt(s: State, n: nat): State
    requires |s.chain| == |s.path| && n <= |s.path| + |s.options| + |s.positionals|
  {
    if n <= |s.path| then Part(s, n, 0, 0)
    else if n <= |s.path| + |s.options| then Part(s, |s.path|, n - |s.path|, 0)
    else Part(s, |s.path|, |s.options|, n - |s.path| - |s.options|)
  }

  /** One loop turn on rendered word `n` rebuilds one more part of `s`. */
  ghost predicate Turns(spec: Spec, s: State, n: nat)
    requires |s.chain| == |s.path| && n < |s.path| + |s.options| + |s.positionals|
  {
    && Render(s)[n] != "--"
    && ParseWord(spec, Render(s), n, PartAt(s, n)) == Ok((PartAt(s, n + 1), n + 1))
  }

  lemma {:induction false} EnteredPrefix(spec: Spec, chain: seq<CommandSpec>, path: seq<string>, n: nat)
    requires Entered(spec, chain, path) && n < |chain|
    ensures Entered(spec, chain[..n], path[..n]) && chain[n] in Commands(spec, chain[..n]) && path[n] == chain[n].name
  {
    var m := |chain| - 1;
    if n < m {
      EnteredPrefix(spec, chain[..m], path[..m], n);
      assert chain[..m][..n] == chain[..n] && path[..m][..n] == path[..n];
    }
  }

  /** What is known of every state an accepted command line leaves. */
  ghost predicate Accepted(spec: Spec, s: State) {
    ValidSpec(spec) && Reachable(spec, s)
  }

  /** Printed at `words[index]`, the option takes the word after it as its separate value. */
  predicate SwallowsNext(
    spec: Spec, chain: seq<CommandSpec>, option: ParsedOption, words: seq<string>, index: nat)
  {
    var found := FindLong(spec, chain, option.name);
    found.Some? && CliCompletion.TakesNext(found.value, option.value, words, index)
  }

  /** No option printed without a value is followed by a word that it accepts as a separate one; the bare `--` after the
      last option is such a word too. */
  predicate NoneSwallows(spec: Spec, s: State) {
    forall k :: 0 <= k < |s.options| ==> !SwallowsNext(spec, s.chain, s.options[k], Render(s), |s.path| + k)
  }

  /** What printing preserves. */
  ghost predicate Printable(spec: Spec, s: State) {
    Readable(spec, s) && NoneSwallows(spec, s)
  }

  /** One turn that consumes exactly one word. */
  lemma OneWord(spec: Spec, words: seq<string>, index: nat, before: State, after: State)
    requires index < |words| && words[index] != "--"
    requires ParseWord(spec, words, index, before) == Ok((after, index + 1))
    ensures ParseWords(spec, words, index, before) == ParseWords(spec, words, index + 1, after)
  {
  }

  lemma EnterTurn(spec: Spec, words: seq<string>, index: nat, before: State, command: CommandSpec)
    requires index < |words| && words[index] == command.name && ReadsAsCommand(spec, before.chain, command.name)
    requires before.positionals == [] && FirstMatch(Commands(spec, before.chain), command.name) == Some(command)
    ensures words[index] != "--"
    ensures ParseWord(spec, words, index, before) == Ok((EnterCommand(before, command), index + 1))
  {
    assert StartsWith("--", "--");
  }

  lemma CommandFound(spec: Spec, s: State, n: nat)
    requires Accepted(spec, s) && n < |s.path|
    ensures var command := s.chain[n];
      s.path[n] == command.name && FirstMatch(Commands(spec, s.chain[..n]), command.name) == Some(command)
  {
    EnteredPrefix(spec, s.chain, s.path, n);
    ScopesAreGood(spec, s.chain[..n], s.path[..n]);
    NameFindsCommand(Commands(spec, s.chain[..n]), s.chain[n]);
  }

  lemma CommandTurn(spec: Spec, s: State, n: nat)
    requires Accepted(spec, s) && n < |s.path| && ReadsAsCommand(spec, s.chain[..n], s.path[n])
    ensures Turns(spec, s, n)
  {
    CommandFound(spec, s, n);
    assert Render(s)[n] == s.path[n];
    EnterTurn(spec, Render(s), n, Part(s, n, 0, 0), s.chain[n]);
    assert EnterCommand(Part(s, n, 0, 0), s.chain[n]) == Part(s, n + 1, 0, 0);
  }

  lemma {:induction false} FirstEquals(name: string, rest: string)
    requires '=' !in name
    ensures IndexOf(name + "=" + rest, '=') == |name|
    ensures IndexOf(name, '=') == |name|
  {
    if name != [] {
      FirstEquals(name[1..], rest);
      assert (name + "=" + rest)[1..] == name[1..] + "=" + rest;
    }
  }

  lemma SplitsRendered(option: ParsedOption)
    requires ValidName(option.name)
    ensures SplitOnce(RenderOption(option)[2..]) == (option.name, option.value)
    ensures StartsWith(RenderOption(option), "--") && RenderOption(option) != "--"
  {
    var raw := RenderOption(option)[2..];
    FirstEquals(option.name, if option.value.Some? then option.value.value else "");
    if option.value.Some? {
      assert raw == option.name + "=" + option.value.value;
      assert raw[..|option.name|] == option.name && raw[|option.name| + 1..] == option.value.value;
    } else {
      assert raw == option.name;
    }
    assert RenderOption(option)[..2] == "--" && |RenderOption(option)| > 2;
  }

  /** A rendered option is read back as the option. */
  lemma OptionWord(spec: Spec, words: seq<string>, index: nat, s: State, option: ParsedOption)
    requires index < |words| && words[index] == RenderOption(option)
    requires var found := FindLong(spec, s.chain, option.name);
      && found.Some? && found.value.long == option.name && FitsMode(found.value, option.value)
      && ValidName(option.name) && !SwallowsNext(spec, s.chain, option, words, index)
      && (!found.value.repeatable ==> !HasOption(s.options, option.name))
    ensures ParseWord(spec, words, index, s) == Ok((s.(options := s.options + [option]), index + 1))
  {
    var found := FindLong(spec, s.chain, option.name).value;
    SplitsRendered(option);
    assert OptionValue(words, index, option.value, found, false) == Ok((option.value, index + 1));
    assert PushOption(s, found, option.value) == Ok(s.(options := s.options + [option]));
  }

  lemma OptionStep(spec: Spec, words: seq<string>, index: nat, s: State, n: nat)
    requires Accepted(spec, s) && n < |s.options| && index < |words| && words[index] == RenderOption(s.options[n])
    requires !SwallowsNext(spec, s.chain, s.options[n], words, index)
    ensures words[index] != "--"
    ensures ParseWord(spec, words, index, Part(s, |s.path|, n, 0)) == Ok((Part(s, |s.path|, n + 1, 0), index + 1))
  {
    var before, option := Part(s, |s.path|, n, 0), s.options[n];
    assert before.chain == s.chain;
    assert OptionFits(spec, s.chain, s.options, n);
    CliCompletion.FoundIsVisible(VisibleOptions(spec, s.chain), option.name, 'x');
    SplitsRendered(option);
    OptionWord(spec, words, index, before, option);
    assert s.options[..n] + [option] == s.options[..n + 1];
  }

  lemma RenderedOption(s: State, n: nat)
    requires |s.chain| == |s.path| && n < |s.options|
    ensures |s.path| + n < |Render(s)| && Render(s)[|s.path| + n] == RenderOption(s.options[n])
    ensures PartAt(s, |s.path| + n) == Part(s, |s.path|, n, 0)
    ensures PartAt(s, |s.path| + n + 1) == Part(s, |s.path|, n + 1, 0)
  {
  }

  lemma OptionTurn(spec: Spec, s: State, n: nat)
    requires Accepted(spec, s) && |s.path| <= n < |s.path| + |s.options|
    requires !SwallowsNext(spec, s.chain, s.options[n - |s.path|], Render(s), n)
    ensures Turns(spec, s, n)
  {
    RenderedOption(s, n - |s.path|);
    OptionStep(spec, Render(s), n, s, n - |s.path|);
  }

  /** A rendered positional is read back as a positional. */
  lemma PositionalWord(spec: Spec, words: seq<string>, index: nat, s: State)
    requires index < |words| && PositionalFits(spec, s.chain, |s.positionals|, words[index])
    ensures ParseWord(spec, words, index, s) == Ok((s.(positionals := s.positionals + [words[index]]), index + 1))
  {
  }

  lemma PositionalStep(spec: Spec, words: seq<string>, index: nat, s: State, n: nat)
    requires Accepted(spec, s) && n < |s.positionals| && index < |words| && words[index] == s.positionals[n]
    ensures words[index] != "--"
    ensures ParseWord(spec, words, index, Part(s, |s.path|, |s.options|, n)) ==
      Ok((Part(s, |s.path|, |s.options|, n + 1), index + 1))
  {
    var before := Part(s, |s.path|, |s.options|, n);
    assert before.chain == s.chain && |before.positionals| == n;
    assert PositionalFits(spec, s.chain, n, words[index]);
    PositionalWord(spec, words, index, before);
    assert s.positionals[..n] + [words[index]] == s.positionals[..n + 1];
  }

  lemma RenderedPositional(s: State, n: nat)
    requires |s.chain| == |s.path| && n < |s.positionals|
    ensures var index := |s.path| + |s.options| + n;
      && index < |Render(s)| && Render(s)[index] == s.positionals[n]
      && PartAt(s, index) == Part(s, |s.path|, |s.options|, n)
      && PartAt(s, index + 1) == Part(s, |s.path|, |s.options|, n + 1)
  {
  }

  lemma PositionalTurn(spec: Spec, s: State, n: nat)
    requires Accepted(spec, s) && |s.path| + |s.options| <= n < |s.path| + |s.options| + |s.positionals|
    ensures Turns(spec, s, n)
  {
    var k := n - |s.path| - |s.options|;
    RenderedPositional(s, k);
    PositionalStep(spec, Render(s), n, s, k);
  }

  lemma ReadableAt(spec: Spec, s: State, n: nat)
    requires Readable(spec, s) && n < |s.path| == |s.chain|
    ensures ReadsAsCommand(spec, s.chain[..n], s.path[n])
  {
  }

  /** Every rendered word is read back, unless an option there takes the next one. */
  lemma TurnAt(spec: Spec, s: State, n: nat)
    requires Accepted(spec, s) && Readable(spec, s) && n < |s.path| + |s.options| + |s.positionals|
    requires |s.path| <= n < |s.path| + |s.options| ==>
      !SwallowsNext(spec, s.chain, s.options[n - |s.path|], Render(s), n)
    ensures Turns(spec, s, n)
  {
    if n < |s.path| {
      ReadableAt(spec, s, n);
      CommandTurn(spec, s, n);
    } else if n < |s.path| + |s.options| {
      OptionTurn(spec, s, n);
    } else {
      PositionalTurn(spec, s, n);
    }
  }

  /** After `n` rendered words that are read back, the loop has rebuilt the first commands, options and positionals. */
  lemma {:induction false} ParsesPrefix(spec: Spec, s: State, n: nat)
    requires |s.chain| == |s.path| && n <= |s.path| + |s.options| + |s.positionals|
    requires forall m :: 0 <= m < n ==> Turns(spec, s, m)
    ensures ParseWords(spec, Render(s), 0, INITIAL) == ParseWords(spec, Render(s), n, PartAt(s, n))
  {
    if n == 0 {
      assert PartAt(s, 0) == INITIAL;
    } else {
      ParsesPrefix(spec, s, n - 1);
      assert Turns(spec, s, n - 1);
      OneWord(spec, Render(s), n - 1, PartAt(s, n - 1), PartAt(s, n));
    }
  }

  lemma SwallowsNothing(spec: Spec, s: State, n: nat)
    requires NoneSwallows(spec, s) && |s.path| <= n < |s.path| + |s.options|
    ensures !SwallowsNext(spec, s.chain, s.options[n - |s.path|], Render(s), n)
  {
    var k := n - |s.path|;
    assert !SwallowsNext(spec, s.chain, s.options[k], Render(s), |s.path| + k);
  }

  lemma ParsesRendered(spec: Spec, s: State)
    requires Accepted(spec, s) && Printable(spec, s)
    ensures ParseWords(spec, Render(s), 0, INITIAL).Ok? && ParseWords(spec, Render(s), 0, INITIAL).value.0 == s
  {
    var words := Render(s);
    var index := |s.path| + |s.options| + |s.positionals|;
    PathMatchesChain(spec, s);
    forall m | 0 <= m < index ensures Turns(spec, s, m) {
      if |s.path| <= m < |s.path| + |s.options| {
        SwallowsNothing(spec, s, m);
      }
      TurnAt(spec, s, m);
    }
    ParsesPrefix(spec, s, index);
    assert words[index] == "--" && words[index + 1..] == s.passthrough;
    assert PartAt(s, index) == s.(passthrough := []);
    assert [] + s.passthrough == s.passthrough;
  }

  lemma PathMatchesChain(spec: Spec, s: State)
    requires Accepted(spec, s)
    ensures |s.chain| == |s.path|
  {
  }

  /** Rendering an accepted command line and parsing it again gives the same command line. */
  lemma ParsingIsStable(spec: Spec, words: seq<string>)
    requires Parse(spec, words).Ok? && Printable(spec, Parse(spec, words).value)
    ensures Parse(spec, Render(Parse(spec, words).value)) == Parse(spec, words)
  {
    AcceptedByParser(spec, words);
    ParsesRendered(spec, ParseWords(spec, words, 0, INITIAL).value.0);
  }

  lemma AcceptedByParser(spec: Spec, words: seq<string>)
    requires Parse(spec, words).Ok?
    ensures Accepted(spec, Parse(spec, words).value)
    ensures ParseWords(spec, words, 0, INITIAL).Ok?
    ensures ParseWords(spec, words, 0, INITIAL).value.0 == Parse(spec, words).value
  {
    ScopesAreGood(spec, [], []);
    LoopReaches(spec, words, 0, INITIAL);
  }

  // --------------------------------------------------------------------------
  // Readable names are needed: counting commands and positionals
  // --------------------------------------------------------------------------

  function Size(s: State): nat {
    |s.path| + |s.positionals|
  }

  predicate ReadsAsOption(spec: Spec, s: State, word: string) {
    StartsWith(word, "--") || (IsShort(word) && !AcceptsNegative(spec, s.chain, |s.positionals|, word))
  }

  /** How many of the words from `lo` to `hi` do not start with two dashes. */
  function Plain(words: seq<string>, lo: nat, hi: nat): nat
    requires lo <= hi <= |words|
    decreases hi - lo
  {
    if lo == hi then 0 else (if StartsWith(words[lo], "--") then 0 else 1) + Plain(words, lo + 1, hi)
  }

  lemma {:induction false} ClusterKeepsSize(spec: Spec, words: seq<string>, index: nat, k: nat, s: State)
    requires index < |words| && ParseShort(spec, words, index, k, s).Ok?
    ensures Size(ParseShort(spec, words, index, k, s).value.0) == Size(s)
    ensures ParseShort(spec, words, index, k, s).value.1 <= index + 2
    decreases |words[index]| - k
  {
    var word := words[index];
    if k < |word| {
      var option := FindShort(spec, s.chain, word[k]).value;
      var (value, next) := OptionValue(words, index, Remainder(word, k), option, true).value;
      if option.mode == Forbidden {
        ClusterKeepsSize(spec, words, index, k + 1, PushOption(s, option, value).value);
      }
    }
  }

  /** A word read as an option adds no command and no positional, any other word one. */
  lemma WordGains(spec: Spec, words: seq<string>, index: nat, s: State)
    requires index < |words| && ParseWord(spec, words, index, s).Ok?
    ensures var (after, next) := ParseWord(spec, words, index, s).value;
      && after.passthrough == s.passthrough && s.options <= after.options && index < next <= index + 2 && next <= |words|
      && (if ReadsAsOption(spec, s, words[index]) then Size(after) == Size(s)
          else Size(after) == Size(s) + 1 && next == index + 1)
  {
    WordAdvances(spec, words, index, s);
    if !StartsWith(words[index], "--") && ReadsAsOption(spec, s, words[index]) {
      ClusterKeepsSize(spec, words, index, 1, s);
      ClusterKeepsRest(spec, words, index, 1, s);
    }
  }

  /** The loop passes on the words after a bare `--`, which are fewer than all it has left. */
  lemma {:induction false} RestIsShorter(spec: Spec, words: seq<string>, index: nat, s: State)
    requires index <= |words| && s.passthrough == [] && ParseWords(spec, words, index, s).Ok?
    ensures var t := ParseWords(spec, words, index, s).value.0;
      if index == |words| then t == s else |t.passthrough| < |words| - index
    decreases |words| - index
  {
    if index < |words| && words[index] != "--" {
      WordGains(spec, words, index, s);
      WordAdvances(spec, words, index, s);
      var (after, next) := ParseWord(spec, words, index, s).value;
      RestIsShorter(spec, words, next, after);
    }
  }

  /** Bounds what the words before the `--` at `last` add, unless an option swallows that `--` and the rest with it. */
  lemma {:induction false} GainIsBounded(spec: Spec, words: seq<string>, index: nat, s: State, last: nat)
    requires index <= last < |words| && words[last] == "--" && s.passthrough == []
    requires ParseWords(spec, words, index, s).Ok?
    requires ParseWords(spec, words, index, s).value.0.passthrough == words[last + 1..]
    ensures var t := ParseWords(spec, words, index, s).value.0;
      && Size(t) <= Size(s) + Plain(words, index, last)
      && (index < last && ReadsAsOption(spec, s, words[index]) ==> Size(t) <= Size(s) + Plain(words, index + 1, last))
    decreases last - index
  {
    if index < last && words[index] != "--" {
      WordGains(spec, words, index, s);
      WordAdvances(spec, words, index, s);
      var (after, next) := ParseWord(spec, words, index, s).value;
      if next <= last {
        GainIsBounded(spec, words, next, after, last);
      } else {
        RestIsShorter(spec, words, next, after);
      }
    }
  }

  lemma {:induction false} PlainAtMost(words: seq<string>, lo: nat, hi: nat)
    requires lo <= hi <= |words|
    ensures Plain(words, lo, hi) <= hi - lo
    decreases hi - lo
  {
    if lo < hi {
      PlainAtMost(words, lo + 1, hi);
    }
  }

  /** Rendered options count for nothing. */
  lemma {:induction false} PlainOfRendered(s: State, from: nat)
    requires from <= |s.path| + |s.options|
    ensures Plain(Render(s), from, |s.path| + |s.options| + |s.positionals|)
            <= (if from < |s.path| then |s.path| - from else 0) + |s.positionals|
    decreases |s.path| + |s.options| - from
  {
    var last := |s.path| + |s.options| + |s.positionals|;
    if from == |s.path| + |s.options| {
      PlainAtMost(Render(s), from, last);
    } else {
      PlainOfRendered(s, from + 1);
      if from >= |s.path| {
        assert Render(s)[from] == RenderOption(s.options[from - |s.path|]);
        assert RenderOption(s.options[from - |s.path|])[..2] == "--";
      }
    }
  }

  ghost predicate ReadsBack(spec: Spec, s: State, n: nat)
    requires |s.chain| == |s.path| && n <= |s.path|
  {
    var parsed := ParseWords(spec, Render(s), n, Part(s, n, 0, 0));
    parsed.Ok? && parsed.value.0 == s
  }

  lemma RenderedParts(s: State, n: nat)
    requires n < |s.path|
    ensures var last := |s.path| + |s.options| + |s.positionals|;
            Render(s)[n] == s.path[n] && Render(s)[last] == "--" && Render(s)[last + 1..] == s.passthrough
  {
  }

  lemma NameReadsBack(spec: Spec, s: State, n: nat)
    requires |s.chain| == |s.path| && n < |s.path| && ReadsBack(spec, s, n)
    ensures ReadsAsCommand(spec, s.chain[..n], s.path[n])
  {
    var before := Part(s, n, 0, 0);
    RenderedParts(s, n);
    GainIsBounded(spec, Render(s), n, before, |s.path| + |s.options| + |s.positionals|);
    PlainOfRendered(s, n + 1);
    assert Size(before) == n && before.chain == s.chain[..n];
    assert !ReadsAsOption(spec, before, s.path[n]);
  }

  lemma NextReadsBack(spec: Spec, s: State, n: nat)
    requires Accepted(spec, s) && n < |s.path| && ReadsAsCommand(spec, s.chain[..n], s.path[n])
    ensures ReadsBack(spec, s, n) ==> ReadsBack(spec, s, n + 1)
  {
    CommandTurn(spec, s, n);
    assert PartAt(s, n) == Part(s, n, 0, 0) && PartAt(s, n + 1) == Part(s, n + 1, 0, 0);
    OneWord(spec, Render(s), n, PartAt(s, n), PartAt(s, n + 1));
  }

  lemma OneNameReadsBack(spec: Spec, s: State, n: nat)
    requires Accepted(spec, s) && n < |s.path| && ReadsBack(spec, s, n)
    ensures ReadsAsCommand(spec, s.chain[..n], s.path[n]) && ReadsBack(spec, s, n + 1)
  {
    NameReadsBack(spec, s, n);
    NextReadsBack(spec, s, n);
  }

  /** If rendered words parse back, so do the words after any of the command names. */
  lemma {:induction false} PathReadsBack(spec: Spec, s: State, n: nat)
    requires Accepted(spec, s) && |s.chain| == |s.path| && n <= |s.path| && ReadsBack(spec, s, 0)
    ensures ReadsBack(spec, s, n)
  {
    if n > 0 {
      PathReadsBack(spec, s, n - 1);
      OneNameReadsBack(spec, s, n - 1);
    }
  }

  /** If rendered words parse back, no command name among them was read as an option. */
  lemma NamesReadBack(spec: Spec, s: State)
    requires Accepted(spec, s) && |s.chain| == |s.path| && ReadsBack(spec, s, 0)
    ensures Readable(spec, s)
  {
    forall n | 0 <= n < |s.path| ensures ReadsAsCommand(spec, s.chain[..n], s.path[n]) {
      PathReadsBack(spec, s, n);
      OneNameReadsBack(spec, s, n);
    }
  }

  // --------------------------------------------------------------------------
  // Swallowed words
  // --------------------------------------------------------------------------

  lemma PrefixTransitive(a: seq<ParsedOption>, b: seq<ParsedOption>, c: seq<ParsedOption>)
    requires a <= b <= c
    ensures a <= c
  {
  }

  /** The loop only adds options. */
  lemma {:induction false} OptionsGrow(spec: Spec, words: seq<string>, index: nat, s: State)
    requires index <= |words| && ParseWords(spec, words, index, s).Ok?
    ensures s.options <= ParseWords(spec, words, index, s).value.0.options
    decreases |words| - index
  {
    if index < |words| && words[index] != "--" {
      WordGains(spec, words, index, s);
      WordAdvances(spec, words, index, s);
      var (after, next) := ParseWord(spec, words, index, s).value;
      OptionsGrow(spec, words, next, after);
      PrefixTransitive(s.options, after.options, ParseWords(spec, words, next, after).value.0.options);
    }
  }

  /** Read back where it takes the next word, an option has that word as its value. */
  lemma SwallowingWord(spec: Spec, words: seq<string>, index: nat, s: State, option: ParsedOption)
    requires index < |words| && words[index] == RenderOption(option) && ValidName(option.name)
    requires SwallowsNext(spec, s.chain, option, words, index) && ParseWords(spec, words, index, s).Ok?
    ensures var options := ParseWords(spec, words, index, s).value.0.options;
      |options| > |s.options| && options[|s.options|].value.Some? && option.value.None?
  {
    SplitsRendered(option);
    WordAdvances(spec, words, index, s);
    var (after, next) := ParseWord(spec, words, index, s).value;
    assert after.options[|s.options|].value == Some(words[index + 1]);
    OptionsGrow(spec, words, next, after);
  }

  /** The options from `k` on, and what follows them in `words`, are read back. */
  ghost predicate OptionsFollow(spec: Spec, s: State, words: seq<string>, k: nat)
    requires |s.chain| == |s.path| && k <= |s.options| && |s.path| + k <= |words|
  {
    var parsed := ParseWords(spec, words, |s.path| + k, Part(s, |s.path|, k, 0));
    parsed.Ok? && parsed.value.0 == s
  }

  lemma OptionReadsBack(spec: Spec, s: State, words: seq<string>, k: nat)
    requires Accepted(spec, s) && |s.chain| == |s.path| && k < |s.options| && |s.path| + k < |words|
    requires words[|s.path| + k] == RenderOption(s.options[k]) && OptionsFollow(spec, s, words, k)
    ensures !SwallowsNext(spec, s.chain, s.options[k], words, |s.path| + k) && OptionsFollow(spec, s, words, k + 1)
  {
    var index := |s.path| + k;
    OptionNameIsValid(spec, s, k);
    SwallowedNotRead(spec, words, index, Part(s, |s.path|, k, 0), s, k);
    OptionStep(spec, words, index, s, k);
    OneWord(spec, words, index, Part(s, |s.path|, k, 0), Part(s, |s.path|, k + 1, 0));
  }

  /** If rendered words parse back, no option among them takes the next word. */
  lemma {:induction false} OptionsReadBack(spec: Spec, s: State, words: seq<string>, k: nat)
    requires Accepted(spec, s) && |s.chain| == |s.path| && k <= |s.options| && |s.path| + |s.options| <= |words|
    requires forall j :: 0 <= j < |s.options| ==> words[|s.path| + j] == RenderOption(s.options[j])
    requires OptionsFollow(spec, s, words, k)
    ensures forall j :: k <= j < |s.options| ==> !SwallowsNext(spec, s.chain, s.options[j], words, |s.path| + j)
    decreases |s.options| - k
  {
    if k < |s.options| {
      OptionReadsBack(spec, s, words, k);
      OptionsReadBack(spec, s, words, k + 1);
    }
  }

  lemma SwallowedNotRead(spec: Spec, words: seq<string>, index: nat, before: State, s: State, k: nat)
    requires k < |s.options| && before.chain == s.chain && before.options == s.options[..k]
    requires index < |words| && words[index] == RenderOption(s.options[k]) && ValidName(s.options[k].name)
    requires ParseWords(spec, words, index, before).Ok? && ParseWords(spec, words, index, before).value.0 == s
    ensures !SwallowsNext(spec, s.chain, s.options[k], words, index)
  {
    if SwallowsNext(spec, s.chain, s.options[k], words, index) {
      SwallowingWord(spec, words, index, before, s.options[k]);
    }
  }

  lemma OptionNameIsValid(spec: Spec, s: State, k: nat)
    requires Accepted(spec, s) && k < |s.options|
    ensures ValidName(s.options[k].name) && |s.chain| == |s.path|
  {
    assert OptionFits(spec, s.chain, s.options, k);
    CliCompletion.FoundIsVisible(VisibleOptions(spec, s.chain), s.options[k].name, 'x');
  }

  lemma RenderedOptions(s: State)
    ensures |s.path| + |s.options| <= |Render(s)|
    ensures forall j :: 0 <= j < |s.options| ==> Render(s)[|s.path| + j] == RenderOption(s.options[j])
  {
  }

  /** Parsing is stable under the printer exactly when every command name entered reads as a word where it is entered,
      and no option printed without a value is followed by a word it accepts. */
  lemma StableExactlyWhenPrintable(spec: Spec, words: seq<string>)
    requires Parse(spec, words).Ok?
    ensures var s := Parse(spec, words).value;
      Parse(spec, Render(s)) == Parse(spec, words) <==> Printable(spec, s)
  {
    var s := Parse(spec, words).value;
    AcceptedByParser(spec, words);
    if Printable(spec, s) {
      ParsingIsStable(spec, words);
    }
    if Parse(spec, Render(s)) == Parse(spec, words) {
      assert Part(s, 0, 0, 0) == INITIAL;
      PathMatchesChain(spec, s);
      NamesReadBack(spec, s);
      PathReadsBack(spec, s, |s.path|);
      RenderedOptions(s);
      OptionsReadBack(spec, s, Render(s), 0);
    }
  }

  lemma {:induction false} EnteredAttached(spec: Spec, chain: seq<CommandSpec>, path: seq<string>)
    requires CliCompletion.Attached(spec) && Entered(spec, chain, path)
    ensures CliCompletion.ChainAttached(spec, chain)
  {
    if chain != [] {
      EnteredAttached(spec, chain[..|chain| - 1], path[..|path| - 1]);
    }
  }

  /** Without detached optional values, readable names are all it takes. */
  lemma AttachedSwallowsNothing(spec: Spec, words: seq<string>)
    requires CliCompletion.Attached(spec) && Parse(spec, words).Ok?
    ensures NoneSwallows(spec, Parse(spec, words).value)
  {
    var s := Parse(spec, words).value;
    AcceptedByParser(spec, words);
    EnteredAttached(spec, s.chain, s.path);
    forall k | 0 <= k < |s.options| ensures !SwallowsNext(spec, s.chain, s.options[k], Render(s), |s.path| + k) {
      CliCompletion.FoundIsVisible(VisibleOptions(spec, s.chain), s.options[k].name, 'x');
    }
  }

  // --------------------------------------------------------------------------
  // Inputs for which parsing is not stable
  // --------------------------------------------------------------------------

  /** A specification with one option that may be given without a value and accepts the word `--` as a separate one. */
  predicate SwallowingSpec(spec: Spec, option: OptionSpec) {
    && ValidName(spec.name) && ValidOption(option) && CliCompletion.Detachable(option)
    && Accepts("--", option.valueType, option.possible) && option.conflicts == [] && option.requirements == []
    && spec == Spec(spec.name, [], [option], [], false)
  }

  lemma SwallowingSpecIsValid(spec: Spec, option: OptionSpec)
    requires SwallowingSpec(spec, option)
    ensures ValidSpec(spec)
  {
    assert [] + [option] == [option];
    assert ValidCommands([]);
  }

  lemma BareOptionWord(spec: Spec, option: OptionSpec, words: seq<string>, after: State)
    requires SwallowingSpec(spec, option) && 1 <= |words| <= 2 && words[0] == "--" + option.long
    requires |words| == 2 ==> words[1] == "--"
    requires after == State([], [], [ParsedOption(option.long, if |words| == 1 then None else Some("--"))], [], [])
    ensures ParseWord(spec, words, 0, INITIAL) == Ok((after, |words|)) && words[0] != "--"
  {
    var value := if |words| == 1 then None else Some("--");
    SplitsRendered(ParsedOption(option.long, None));
    assert words[0] == RenderOption(ParsedOption(option.long, None));
    assert FindLong(spec, [], option.long) == Some(option);
    assert OptionValue(words, 0, None, option, false) == Ok((value, |words|));
    assert !HasOption([], option.long);
    assert [] + [ParsedOption(option.long, value)] == [ParsedOption(option.long, value)];
    assert PushOption(INITIAL, option, value) == Ok(after);
  }

  lemma BareOptionFinishes(spec: Spec, option: OptionSpec, s: State)
    requires SwallowingSpec(spec, option) && |s.options| == 1 && s.options[0].name == option.long
    requires s.chain == [] && s.positionals == []
    ensures Finish(spec, s) == Ok(s)
  {
    assert s.options[0].name == option.long;
    assert HasOption(s.options, option.long);
    assert BrokenRule([], s.options).None? && [option][..0] == [];
    assert BrokenRule([option], s.options).None?;
  }

  /** Its option alone on the command line, and then before a bare `--`. */
  lemma BareOptionParses(spec: Spec, option: OptionSpec, words: seq<string>, after: State)
    requires SwallowingSpec(spec, option) && 1 <= |words| <= 2 && words[0] == "--" + option.long
    requires |words| == 2 ==> words[1] == "--"
    requires after == State([], [], [ParsedOption(option.long, if |words| == 1 then None else Some("--"))], [], [])
    ensures Parse(spec, words) == Ok(after)
  {
    SwallowingSpecIsValid(spec, option);
    BareOptionWord(spec, option, words, after);
    BareOptionFinishes(spec, option, after);
    assert ParseWords(spec, words, |words|, after) == Ok((after, |words|));
  }

  /** With such an option the printed line comes back with the bare `--` as a value. */
  lemma SwallowedDashesDoNotParseBack(spec: Spec, option: OptionSpec)
    requires SwallowingSpec(spec, option)
    ensures var s := State([], [], [ParsedOption(option.long, None)], [], []);
      && ValidSpec(spec) && Parse(spec, ["--" + option.long]) == Ok(s) && Readable(spec, s)
      && Render(s) == ["--" + option.long, "--"]
      && Parse(spec, Render(s)) == Ok(s.(options := [ParsedOption(option.long, Some("--"))]))
  {
    var option' := ParsedOption(option.long, None);
    SwallowingSpecIsValid(spec, option);
    BareOptionParses(spec, option, ["--" + option.long], State([], [], [option'], [], []));
    BareOptionParses(spec, option, ["--" + option.long, "--"],
                     State([], [], [ParsedOption(option.long, Some("--"))], [], []));
    assert RenderOption(option') == "--" + option.long && RenderOptions([option']) == [RenderOption(option')];
  }

  /** A specification with one command, named like an option and with an alias that is not, such as `-x` and `x`. */
  predicate DashedSpec(spec: Spec, command: CommandSpec, name: string, alias: string) {
    && ValidName(spec.name) && ValidName(name) && ValidName(alias) && IsShort(name) && alias[0] != '-'
    && command == CommandSpec(name, [alias], [], [], [], false)
    && spec == Spec(spec.name, [command], [], [], false)
  }

  lemma DashedSpecIsValid(spec: Spec, command: CommandSpec, name: string, alias: string)
    requires DashedSpec(spec, command, name, alias)
    ensures ValidSpec(spec) && CliCompletion.Attached(spec)
  {
    assert [command][..0] == [];
    assert Labels([command]) == [name, alias];
    assert ValidCommands([command]) && ValidCommands([]);
    assert ValidScope([], [], [], [] + []);
    assert CliCompletion.ScopeAttached([], []);
  }

  lemma AliasEnters(spec: Spec, command: CommandSpec, name: string, alias: string)
    requires DashedSpec(spec, command, name, alias) && ValidSpec(spec)
    ensures Parse(spec, [alias]) == Ok(State([command], [name], [], [], []))
  {
    var words, s := [alias], State([command], [name], [], [], []);
    assert command.Matches(alias) && FirstMatch([command], alias) == Some(command);
    assert alias != "--" && !StartsWith(alias, "-") && !StartsWith(alias, "--");
    assert EnterCommand(INITIAL, command) == s;
    assert ParseWord(spec, words, 0, INITIAL) == Ok((s, 1));
    OneWord(spec, words, 0, INITIAL, s);
    assert VisibleOptions(spec, [command]) == [];
    assert Finish(spec, s) == Ok(s);
  }

  lemma DashedIsUnknown(spec: Spec, command: CommandSpec, name: string, alias: string, words: seq<string>)
    requires DashedSpec(spec, command, name, alias) && ValidSpec(spec) && |words| == 2 && words[0] == name
    ensures Parse(spec, words) == Err(UnknownOption)
  {
    assert name != "--";
    assert NextArgument(spec, [], 0).None? && FindShort(spec, [], name[1]).None?;
    assert ParseWord(spec, words, 0, INITIAL) == Err(UnknownOption);
  }

  /** Inputs for which parsing is not stable: the alias enters the command, and its printed name is an unknown option. */
  lemma DashedNameDoesNotParseBack(spec: Spec, command: CommandSpec, name: string, alias: string)
    requires DashedSpec(spec, command, name, alias)
    ensures ValidSpec(spec) && CliCompletion.Attached(spec)
    ensures var s := State([command], [name], [], [], []);
      && Parse(spec, [alias]) == Ok(s) && Render(s) == [name, "--"] && Parse(spec, Render(s)) == Err(UnknownOption)
  {
    DashedSpecIsValid(spec, command, name, alias);
    AliasEnters(spec, command, name, alias);
    DashedIsUnknown(spec, command, name, alias, [name, "--"]);
  }
}
