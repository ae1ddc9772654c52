/** The command-line parser: an index that jumps over option values. */
module CliParser {
  import opened Prelude
  import opened CliSpec

  datatype ParsedOption = ParsedOption(name: string, value: Option<string>)

  datatype State = State(
    chain: seq<CommandSpec>, path: seq<string>, options: seq<ParsedOption>,
    positionals: seq<string>, passthrough: seq<string>)

  type Parsed<T> = Result<T, ErrorKind>

  const INITIAL := State([], [], [], [], [])

  // --------------------------------------------------------------------------
  // Lookups in the scopes entered so far
  // --------------------------------------------------------------------------

  function Commands(spec: Spec, chain: seq<CommandSpec>): seq<CommandSpec> {
    if chain == [] then spec.commands else chain[|chain| - 1].commands
  }

  function Arguments(spec: Spec, chain: seq<CommandSpec>): seq<ArgumentSpec> {
    if chain == [] then spec.arguments else chain[|chain| - 1].arguments
  }

  function VisibleOptions(spec: Spec, chain: seq<CommandSpec>): seq<OptionSpec> {
    if chain == [] then spec.options
    else VisibleOptions(spec, chain[..|chain| - 1]) + chain[|chain| - 1].options
  }

  function FirstMatch(commands: seq<CommandSpec>, word: string): Option<CommandSpec> {
    if commands == [] then None
    else if commands[0].Matches(word) then Some(commands[0])
    else FirstMatch(commands[1..], word)
  }

  function LastLong(options: seq<OptionSpec>, long: string): Option<OptionSpec> {
    if options == [] then None
    else if options[|options| - 1].long == long then Some(options[|options| - 1])
    else LastLong(options[..|options| - 1], long)
  }

  function LastShort(options: seq<OptionSpec>, short: char): Option<OptionSpec> {
    if options == [] then None
    else if options[|options| - 1].short == Some(short) then Some(options[|options| - 1])
    else LastShort(options[..|options| - 1], short)
  }

  function FindLong(spec: Spec, chain: seq<CommandSpec>, long: string): Option<OptionSpec> {
    LastLong(VisibleOptions(spec, chain), long)
  }

  function FindShort(spec: Spec, chain: seq<CommandSpec>, short: char): Option<OptionSpec> {
    LastShort(VisibleOptions(spec, chain), short)
  }

  function NextArgument(spec: Spec, chain: seq<CommandSpec>, count: nat): Option<ArgumentSpec> {
    var arguments := Arguments(spec, chain);
    if count < |arguments| then Some(arguments[count])
    else if arguments != [] && arguments[|arguments| - 1].multiple then Some(arguments[|arguments| - 1])
    else None
  }

  predicate AcceptsNegative(spec: Spec, chain: seq<CommandSpec>, count: nat, word: string) {
    var argument := NextArgument(spec, chain, count);
    && argument.Some? && argument.value.valueType == I64 && ParsesI64(word)
    && (|word| < 2 || FindShort(spec, chain, word[1]).None?)
  }

  predicate IsShort(word: string) {
    StartsWith(word, "-") && !StartsWith(word, "--") && |word| > 1
  }

  /** Position of the first `c`, or the length of the word. */
  function IndexOf(word: string, c: char): (i: nat)
    ensures i <= |word|
    ensures c !in word[..i]
    ensures i < |word| ==> word[i] == c
  {
    if word == [] || word[0] == c then 0
    else
      var rest := IndexOf(word[1..], c);
      assert word[..1 + rest] == [word[0]] + word[1..][..rest];
      1 + rest
  }

  /** Splits `name=value` at the first equals sign. */
  function SplitOnce(raw: string): (string, Option<string>) {
    var i := IndexOf(raw, '=');
    if i < |raw| then (raw[..i], Some(raw[i + 1..])) else (raw, None)
  }

  // --------------------------------------------------------------------------
  // Steps
  // --------------------------------------------------------------------------

  function PushOption(s: State, option: OptionSpec, value: Option<string>): Parsed<State> {
    if !option.repeatable && HasOption(s.options, option.long) then Err(DuplicateOption)
    else if value.Some? && !Accepts(value.value, option.valueType, option.possible) then Err(InvalidValue)
    else Ok(s.(options := s.options + [ParsedOption(option.long, value)]))
  }

  predicate HasOption(options: seq<ParsedOption>, name: string) {
    exists i :: 0 <= i < |options| && options[i].name == name
  }

  function PushPositional(spec: Spec, s: State, word: string): Parsed<State> {
    var argument := NextArgument(spec, s.chain, |s.positionals|);
    if argument.None? then Err(UnexpectedArgument)
    else if !Accepts(word, argument.value.valueType, argument.value.possible) then Err(InvalidValue)
    else Ok(s.(positionals := s.positionals + [word]))
  }

  /** Value of one option occurrence and the index to go on from. */
  function OptionValue(words: seq<string>, index: nat, inline: Option<string>, option: OptionSpec, short: bool)
    : Parsed<(Option<string>, nat)>
  {
    match option.mode
    case Forbidden => if inline.Some? && !short then Err(InvalidValue) else Ok((None, index + 1))
    case Optional =>
      if inline.Some? || !option.detached then Ok((inline, index + 1))
      else if index + 1 < |words| && Accepts(words[index + 1], option.valueType, option.possible) then
        Ok((Some(words[index + 1]), index + 2))
      else Ok((None, index + 1))
    case Required =>
      if inline.Some? then Ok((inline, index + 1))
      else if index + 1 < |words| then Ok((Some(words[index + 1]), index + 2))
      else Err(MissingValue)
  }

  function ParseLong(spec: Spec, words: seq<string>, index: nat, s: State): Parsed<(State, nat)>
    requires index < |words| && StartsWith(words[index], "--")
  {
    var (name, inline) := SplitOnce(words[index][2..]);
    if name == [] then Err(UnknownOption)
    else
      var found := FindLong(spec, s.chain, name);
      if found.None? then Err(UnknownOption)
      else
        var (value, next) :- OptionValue(words, index, inline, found.value, false);
        var pushed :- PushOption(s, found.value, value);
        Ok((pushed, next))
  }

  /** What follows position `k` of a cluster, without the equals sign that may introduce it. */
  function Remainder(word: string, k: nat): Option<string> {
    if k + 1 >= |word| then None
    else if word[k + 1] == '=' then Some(word[k + 2..])
    else Some(word[k + 1..])
  }

  /** Parses the cluster `words[index]` from its character `k` on. */
  function ParseShort(spec: Spec, words: seq<string>, index: nat, k: nat, s: State): Parsed<(State, nat)>
    requires index < |words|
    decreases |words[index]| - k
  {
    var word := words[index];
    if k >= |word| then Ok((s, index + 1))
    else
      var found := FindShort(spec, s.chain, word[k]);
      if found.None? then Err(UnknownOption)
      else
        var (value, next) :- OptionValue(words, index, Remainder(word, k), found.value, true);
        var pushed :- PushOption(s, found.value, value);
        if found.value.mode != Forbidden then Ok((pushed, next)) else ParseShort(spec, words, index, k + 1, pushed)
  }

  function EnterCommand(s: State, command: CommandSpec): State {
    s.(chain := s.chain + [command], path := s.path + [command.name])
  }

  /** One turn of the main loop on a word other than `--`. */
  function ParseWord(spec: Spec, words: seq<string>, index: nat, s: State): Parsed<(State, nat)>
    requires index < |words|
  {
    var word := words[index];
    if StartsWith(word, "--") then ParseLong(spec, words, index, s)
    else if IsShort(word) && !AcceptsNegative(spec, s.chain, |s.positionals|, word) then
      ParseShort(spec, words, index, 1, s)
    else
      var command := FirstMatch(Commands(spec, s.chain), word);
      if s.positionals == [] && command.Some? then Ok((EnterCommand(s, command.value), index + 1))
      else
        var pushed :- PushPositional(spec, s, word);
        Ok((pushed, index + 1))
  }

  lemma {:induction false} ShortAdvances(spec: Spec, words: seq<string>, index: nat, k: nat, s: State)
    requires index < |words| && ParseShort(spec, words, index, k, s).Ok?
    ensures index < ParseShort(spec, words, index, k, s).value.1 <= |words|
    decreases |words[index]| - k
  {
    var word := words[index];
    if k < |word| {
      var found := FindShort(spec, s.chain, word[k]).value;
      if found.mode == Forbidden {
        ShortAdvances(spec, words, index, k + 1, PushOption(s, found, None).value);
      }
    }
  }

  lemma WordAdvances(spec: Spec, words: seq<string>, index: nat, s: State)
    requires index < |words| && ParseWord(spec, words, index, s).Ok?
    ensures index < ParseWord(spec, words, index, s).value.1 <= |words|
  {
    if IsShort(words[index]) && !AcceptsNegative(spec, s.chain, |s.positionals|, words[index]) {
      ShortAdvances(spec, words, index, 1, s);
    }
  }

  /** The main loop from `index` on: the final state, and the index where the loop stopped, which is short of
      the end exactly when a bare `--` stopped it. */
  function ParseWords(spec: Spec, words: seq<string>, index: nat, s: State): Parsed<(State, nat)>
    requires index <= |words|
    decreases |words| - index
  {
    if index == |words| then Ok((s, index))
    else if words[index] == "--" then Ok((s.(passthrough := s.passthrough + words[index + 1..]), index))
    else
      var (after, next) :- ParseWord(spec, words, index, s);
      WordAdvances(spec, words, index, s);
      ParseWords(spec, words, next, after)
  }

  // --------------------------------------------------------------------------
  // Final rules
  // --------------------------------------------------------------------------

  predicate HasTerminal(spec: Spec, s: State) {
    exists o :: o in VisibleOptions(spec, s.chain) && o.terminal && HasOption(s.options, o.long)
  }

  predicate CommandMissing(spec: Spec, s: State) {
    && (if s.chain == [] then spec.commandRequired else s.chain[|s.chain| - 1].commandRequired)
    && Commands(spec, s.chain) != []
  }

  predicate ArgumentMissing(spec: Spec, s: State) {
    exists i :: |s.positionals| <= i < |Arguments(spec, s.chain)| && Arguments(spec, s.chain)[i].required
  }

  /** The first broken rule among the visible options, in their order. */
  function BrokenRule(options: seq<OptionSpec>, present: seq<ParsedOption>): Option<ErrorKind> {
    if options == [] then None
    else
      var earlier := BrokenRule(options[..|options| - 1], present);
      var option := options[|options| - 1];
      if earlier.Some? then earlier
      else if !HasOption(present, option.long) then if option.required then Some(MissingOption) else None
      else if exists c :: c in option.conflicts && HasOption(present, c) then Some(OptionConflict)
      else if exists r :: r in option.requirements && !HasOption(present, r) then Some(MissingRequirement)
      else None
  }

  lemma {:induction false} BrokenStays(options: seq<OptionSpec>, n: nat, present: seq<ParsedOption>)
    requires n <= |options|
    ensures BrokenRule(options[..n], present).Some? ==>
      BrokenRule(options, present) == BrokenRule(options[..n], present)
  {
    if n == |options| {
      assert options[..n] == options;
    } else {
      var shorter := options[..|options| - 1];
      BrokenStays(shorter, n, present);
      assert shorter[..n] == options[..n];
    }
  }

  function Finish(spec: Spec, s: State): Parsed<State> {
    if HasTerminal(spec, s) then Ok(s)
    else if CommandMissing(spec, s) then Err(MissingCommand)
    else if ArgumentMissing(spec, s) then Err(MissingValue)
    else
      var broken := BrokenRule(VisibleOptions(spec, s.chain), s.options);
      if broken.Some? then Err(broken.value) else Ok(s)
  }

  /** Result of a whole parse. */
  function Parse(spec: Spec, words: seq<string>): Parsed<State> {
    if !ValidSpec(spec) then Err(InvalidSpecification)
    else
      var (s, _) :- ParseWords(spec, words, 0, INITIAL);
      Finish(spec, s)
  }

  // --------------------------------------------------------------------------
  // The parser as the program runs it
  // --------------------------------------------------------------------------

  class Parser {
    const spec: Spec
    var chain: seq<CommandSpec>
    var path: seq<string>
    var options: seq<ParsedOption>
    var positionals: seq<string>
    var passthrough: seq<string>

    constructor (spec: Spec)
      ensures this.spec == spec && View() == INITIAL
    {
      this.spec := spec;
      chain, path, options, positionals, passthrough := [], [], [], [], [];
    }

    function View(): State
      reads this
    {
      State(chain, path, options, positionals, passthrough)
    }

    method EnterMatching(word: string) returns (entered: bool)
      modifies this
      ensures var command := FirstMatch(Commands(spec, old(chain)), word);
        && entered == command.Some?
        && View() == if command.Some? then EnterCommand(old(View()), command.value) else old(View())
    {
      var available := Commands(spec, chain);
      var i := 0;
      while i < |available| && !available[i].Matches(word)
        invariant 0 <= i <= |available|
        invariant FirstMatch(available[i..], word) == FirstMatch(available, word)
      {
        i := i + 1;
      }
      if i == |available| {
        return false;
      }
      path := path + [available[i].name];
      chain := chain + [available[i]];
      entered := true;
    }

    method Push(option: OptionSpec, value: Option<string>) returns (result: Parsed<()>)
      modifies this
      ensures PushOption(old(View()), option, value) == (if result.Ok? then Ok(View()) else Err(result.error))
      ensures result.Err? ==> View() == old(View())
    {
      if !option.repeatable && HasOption(options, option.long) {
        return Err(DuplicateOption);
      }
      if value.Some? && !Accepts(value.value, option.valueType, option.possible) {
        return Err(InvalidValue);
      }
      options := options + [ParsedOption(option.long, value)];
      result := Ok(());
    }

    method ParseLongOption(words: seq<string>, index: nat) returns (result: Parsed<nat>)
      requires index < |words| && StartsWith(words[index], "--")
      modifies this
      ensures ParseLong(spec, words, index, old(View())) ==
        (if result.Ok? then Ok((View(), result.value)) else Err(result.error))
    {
      var (name, inline) := SplitOnce(words[index][2..]);
      if name == [] {
        return Err(UnknownOption);
      }
      var option := FindLong(spec, chain, name);
      if option.None? {
        return Err(UnknownOption);
      }
      var taken :- OptionValue(words, index, inline, option.value, false);
      var _ :- Push(option.value, taken.0);
      result := Ok(taken.1);
    }

    method ParseShortOptions(words: seq<string>, index: nat) returns (result: Parsed<nat>)
      requires index < |words|
      modifies this
      ensures ParseShort(spec, words, index, 1, old(View())) ==
        (if result.Ok? then Ok((View(), result.value)) else Err(result.error))
    {
      var word := words[index];
      var k := 1;
      while k < |word|
        invariant 1 <= k
        invariant ParseShort(spec, words, index, 1, old(View())) == ParseShort(spec, words, index, k, View())
        decreases |word| - k
      {
        var option := FindShort(spec, chain, word[k]);
        if option.None? {
          return Err(UnknownOption);
        }
        var taken :- OptionValue(words, index, Remainder(word, k), option.value, true);
        var _ :- Push(option.value, taken.0);
        if option.value.mode != Forbidden {
          return Ok(taken.1);
        }
        k := k + 1;
      }
      result := Ok(index + 1);
    }

    method PushWord(word: string) returns (result: Parsed<()>)
      modifies this
      ensures PushPositional(spec, old(View()), word) == (if result.Ok? then Ok(View()) else Err(result.error))
    {
      var argument := NextArgument(spec, chain, |positionals|);
      if argument.None? {
        return Err(UnexpectedArgument);
      }
      if !Accepts(word, argument.value.valueType, argument.value.possible) {
        return Err(InvalidValue);
      }
      positionals := positionals + [word];
      result := Ok(());
    }

    /** The whole parse: the loop over words with a jumping index, then the final rules. */
    method Run(words: seq<string>) returns (result: Parsed<State>)
      requires View() == INITIAL
      modifies this
      ensures result == Parse(spec, words)
    {
      var valid := ValidateSpec(spec);
      if !valid {
        return Err(InvalidSpecification);
      }
      var index := 0;
      while index < |words|
        invariant 0 <= index <= |words|
        invariant ParseWords(spec, words, 0, INITIAL) == ParseWords(spec, words, index, View())
        decreases |words| - index
      {
        var word := words[index];
        if word == "--" {
          passthrough := passthrough + words[index + 1..];
          result := FinishParse();
          return;
        }
        ghost var before, at := View(), index;
        if StartsWith(word, "--") {
          index :- ParseLongOption(words, index);
        } else if IsShort(word) && !AcceptsNegative(spec, chain, |positionals|, word) {
          index :- ParseShortOptions(words, index);
        } else {
          var entered := false;
          if positionals == [] {
            entered := EnterMatching(word);
          }
          if !entered {
            var _ :- PushWord(word);
          }
          index := index + 1;
        }
        WordAdvances(spec, words, at, before);
      }
      result := FinishParse();
    }

    /** The final rules: terminal options, the required command, the arguments, then the options one by one. */
    method FinishParse() returns (result: Parsed<State>)
      ensures result == Finish(spec, View())
    {
      var visible := VisibleOptions(spec, chain);
      for i := 0 to |visible|
        invariant forall k :: 0 <= k < i ==> !(visible[k].terminal && HasOption(options, visible[k].long))
      {
        if visible[i].terminal && HasOption(options, visible[i].long) {
          return Ok(View());
        }
      }
      var required := if chain == [] then spec.commandRequired else chain[|chain| - 1].commandRequired;
      if required && Commands(spec, chain) != [] {
        return Err(MissingCommand);
      }
      var arguments := Arguments(spec, chain);
      for i := 0 to |arguments|
        invariant forall k :: 0 <= k < i && arguments[k].required ==> k < |positionals|
      {
        if arguments[i].required && i >= |positionals| {
          return Err(MissingValue);
        }
      }
      result := ValidateOptionRules(visible);
    }

    method ValidateOptionRules(visible: seq<OptionSpec>) returns (result: Parsed<State>)
      ensures var broken := BrokenRule(visible, options);
        result == if broken.Some? then Err(broken.value) else Ok(View())
    {
      for i := 0 to |visible|
        invariant BrokenRule(visible[..i], options).None?
      {
        var option := visible[i];
        assert visible[..i + 1][..i] == visible[..i];
        BrokenStays(visible, i + 1, options);
        var present := HasOption(options, option.long);
        if option.required && !present {
          return Err(MissingOption);
        }
        if present {
          if c :| c in option.conflicts && HasOption(options, c) {
            return Err(OptionConflict);
          }
          if r :| r in option.requirements && !HasOption(options, r) {
            return Err(MissingRequirement);
          }
        }
      }
      assert visible[..|visible|] == visible;
      result := Ok(View());
    }
  }
}
