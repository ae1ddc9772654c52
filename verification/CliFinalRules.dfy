/** What the final rules of a parse decide, stated on the options given and the scopes entered. */
module CliFinalRules {
  import opened Prelude
  import opened CliSpec
  import opened CliParser

  function Given(s: State): set<string> {
    set o | o in s.options :: o.name
  }

  /** The options of the root and of every command entered. */
  lemma {:induction false} VisibleAreThoseInScope(spec: Spec, chain: seq<CommandSpec>, o: OptionSpec)
    ensures o in VisibleOptions(spec, chain) <==>
      o in spec.options || exists k :: 0 <= k < |chain| && o in chain[k].options
  {
    if chain != [] {
      var n := |chain| - 1;
      VisibleAreThoseInScope(spec, chain[..n], o);
      assert forall k :: 0 <= k < n ==> chain[..n][k] == chain[k];
    }
  }

  /** A terminal option, such as one that asks for help, switches the final rules off. */
  predicate TerminalGiven(visible: seq<OptionSpec>, given: set<string>) {
    exists k :: 0 <= k < |visible| && visible[k].terminal && visible[k].long in given
  }

  /** A command is required in the scope entered last, which has some. */
  predicate CommandDue(spec: Spec, s: State) {
    if s.chain == [] then spec.commandRequired && spec.commands != []
    else s.chain[|s.chain| - 1].commandRequired && s.chain[|s.chain| - 1].commands != []
  }

  function ScopeArguments(spec: Spec, s: State): seq<ArgumentSpec> {
    if s.chain == [] then spec.arguments else s.chain[|s.chain| - 1].arguments
  }

  predicate ArgumentsFilled(spec: Spec, s: State) {
    forall i :: 0 <= i < |ScopeArguments(spec, s)| && ScopeArguments(spec, s)[i].required ==> i < |s.positionals|
  }

  /** The option breaks a rule, and this is the error it is reported as. */
  predicate Breaks(option: OptionSpec, given: set<string>, kind: ErrorKind) {
    || (kind == MissingOption && option.required && option.long !in given)
    || (kind == OptionConflict && option.long in given && exists c :: c in option.conflicts && c in given)
    || (&& kind == MissingRequirement && option.long in given && (forall c :: c in option.conflicts ==> c !in given)
        && exists r :: r in option.requirements && r !in given)
  }

  predicate KeepsRules(option: OptionSpec, given: set<string>) {
    && (option.required ==> option.long in given)
    && (option.long in given ==>
          && (forall c :: c in option.conflicts ==> c !in given)
          && (forall r :: r in option.requirements ==> r in given))
  }

  lemma KeepsOrBreaks(option: OptionSpec, given: set<string>)
    ensures KeepsRules(option, given) <==> forall kind :: !Breaks(option, given, kind)
  {
    if !KeepsRules(option, given) {
      assert Breaks(option, given, MissingOption) || Breaks(option, given, OptionConflict)
             || Breaks(option, given, MissingRequirement);
    }
  }

  lemma GivenIsPresent(s: State, name: string)
    ensures HasOption(s.options, name) <==> name in Given(s)
  {
    if HasOption(s.options, name) {
      var i :| 0 <= i < |s.options| && s.options[i].name == name;
      assert s.options[i] in s.options;
    }
  }

  /** The first of the options to break a rule, with the error it is reported as. */
  ghost predicate FirstBroken(visible: seq<OptionSpec>, given: set<string>, k: nat, kind: ErrorKind) {
    && k < |visible| && Breaks(visible[k], given, kind)
    && forall j :: 0 <= j < k ==> KeepsRules(visible[j], given)
  }

  lemma OneOption(option: OptionSpec, s: State)
    ensures var given := Given(s);
      var broken :=
        if !HasOption(s.options, option.long) then if option.required then Some(MissingOption) else None
        else if exists c :: c in option.conflicts && HasOption(s.options, c) then Some(OptionConflict)
        else if exists r :: r in option.requirements && !HasOption(s.options, r) then Some(MissingRequirement)
        else None;
      && (broken.None? <==> KeepsRules(option, given))
      && (forall kind :: broken == Some(kind) <==> Breaks(option, given, kind))
  {
    forall name ensures HasOption(s.options, name) <==> name in Given(s) {
      GivenIsPresent(s, name);
    }
  }

  lemma {:induction false} BrokenRuleIsFirst(visible: seq<OptionSpec>, s: State)
    ensures BrokenRule(visible, s.options).None? <==> forall k :: 0 <= k < |visible| ==> KeepsRules(visible[k], Given(s))
    ensures forall kind :: BrokenRule(visible, s.options) == Some(kind) <==>
      exists k :: FirstBroken(visible, Given(s), k, kind)
  {
    if visible != [] {
      var n := |visible| - 1;
      var before, given := visible[..n], Given(s);
      BrokenRuleIsFirst(before, s);
      OneOption(visible[n], s);
      KeepsOrBreaks(visible[n], given);
      forall kind ensures BrokenRule(visible, s.options) == Some(kind) <==> exists k :: FirstBroken(visible, given, k, kind) {
        FirstOfMore(visible, given, kind);
      }
      assert forall k :: 0 <= k < n ==> before[k] == visible[k];
    }
  }

  lemma FirstOfMore(visible: seq<OptionSpec>, given: set<string>, kind: ErrorKind)
    requires visible != []
    ensures var n := |visible| - 1;
      (exists k :: FirstBroken(visible, given, k, kind)) <==>
        || (exists k :: FirstBroken(visible[..n], given, k, kind))
        || ((forall j :: 0 <= j < n ==> KeepsRules(visible[j], given)) && Breaks(visible[n], given, kind))
  {
    var n := |visible| - 1;
    forall k | 0 <= k < n ensures FirstBroken(visible, given, k, kind) <==> FirstBroken(visible[..n], given, k, kind) {
      assert forall j :: 0 <= j <= k ==> visible[..n][j] == visible[j];
    }
    if (forall j :: 0 <= j < n ==> KeepsRules(visible[j], given)) && Breaks(visible[n], given, kind) {
      assert FirstBroken(visible, given, n, kind);
    }
    if exists k :: FirstBroken(visible, given, k, kind) {
      var k: nat :| FirstBroken(visible, given, k, kind);
      assert k < n ==> FirstBroken(visible[..n], given, k, kind);
    }
    if exists k :: FirstBroken(visible[..n], given, k, kind) {
      var k: nat :| FirstBroken(visible[..n], given, k, kind);
      assert FirstBroken(visible, given, k, kind);
    }
  }

  // --------------------------------------------------------------------------
  // What a whole parse accepts, and how it refuses
  // --------------------------------------------------------------------------

  /** Every rule of the last scope and of the visible options is kept. */
  predicate RulesKept(spec: Spec, s: State) {
    var visible := VisibleOptions(spec, s.chain);
    && !CommandDue(spec, s) && ArgumentsFilled(spec, s)
    && forall k :: 0 <= k < |visible| ==> KeepsRules(visible[k], Given(s))
  }

  lemma TerminalIff(spec: Spec, s: State)
    ensures HasTerminal(spec, s) <==> TerminalGiven(VisibleOptions(spec, s.chain), Given(s))
  {
    forall name ensures HasOption(s.options, name) <==> name in Given(s) {
      GivenIsPresent(s, name);
    }
    var visible := VisibleOptions(spec, s.chain);
    forall o | o in visible && o.terminal && HasOption(s.options, o.long) ensures TerminalGiven(visible, Given(s)) {
      var k :| 0 <= k < |visible| && visible[k] == o;
    }
  }

  lemma ScopeIff(spec: Spec, s: State)
    ensures CommandMissing(spec, s) <==> CommandDue(spec, s)
    ensures ArgumentMissing(spec, s) <==> !ArgumentsFilled(spec, s)
  {
    var arguments := ScopeArguments(spec, s);
    assert arguments == Arguments(spec, s.chain);
    if !ArgumentsFilled(spec, s) {
      var i :| 0 <= i < |arguments| && arguments[i].required && i >= |s.positionals|;
      assert Arguments(spec, s.chain)[i].required;
    }
  }

  /** A command line is accepted exactly when the specification is valid, the loop over its words ends well, and a
      terminal option was given or every rule is kept. */
  lemma AcceptedExactlyWhen(spec: Spec, words: seq<string>, s: State)
    ensures Parse(spec, words) == Ok(s) <==>
      && ValidSpec(spec)
      && ParseWords(spec, words, 0, INITIAL).Ok? && ParseWords(spec, words, 0, INITIAL).value.0 == s
      && (TerminalGiven(VisibleOptions(spec, s.chain), Given(s)) || RulesKept(spec, s))
  {
    TerminalIff(spec, s);
    ScopeIff(spec, s);
    BrokenRuleIsFirst(VisibleOptions(spec, s.chain), s);
  }

  /** How everything else is refused: an invalid specification and the loop's own errors first, then a missing command,
      a missing argument, and the first option that breaks a rule. */
  lemma RefusedInOrder(spec: Spec, words: seq<string>)
    ensures !ValidSpec(spec) ==> Parse(spec, words) == Err(InvalidSpecification)
    ensures ValidSpec(spec) && ParseWords(spec, words, 0, INITIAL).Err? ==>
      Parse(spec, words) == Err(ParseWords(spec, words, 0, INITIAL).error)
    ensures ValidSpec(spec) && ParseWords(spec, words, 0, INITIAL).Ok? ==>
      var s := ParseWords(spec, words, 0, INITIAL).value.0;
      var visible := VisibleOptions(spec, s.chain);
      !TerminalGiven(visible, Given(s)) ==>
        if CommandDue(spec, s) then Parse(spec, words) == Err(MissingCommand)
        else if !ArgumentsFilled(spec, s) then Parse(spec, words) == Err(MissingValue)
        else forall kind :: Parse(spec, words) == Err(kind) <==> exists k :: FirstBroken(visible, Given(s), k, kind)
  {
    if ValidSpec(spec) && ParseWords(spec, words, 0, INITIAL).Ok? {
      FinishRefusesInOrder(spec, ParseWords(spec, words, 0, INITIAL).value.0);
    }
  }

  lemma FinishRefusesInOrder(spec: Spec, s: State)
    ensures var visible := VisibleOptions(spec, s.chain);
      !TerminalGiven(visible, Given(s)) ==>
        if CommandDue(spec, s) then Finish(spec, s) == Err(MissingCommand)
        else if !ArgumentsFilled(spec, s) then Finish(spec, s) == Err(MissingValue)
        else forall kind :: Finish(spec, s) == Err(kind) <==> exists k :: FirstBroken(visible, Given(s), k, kind)
  {
    TerminalIff(spec, s);
    ScopeIff(spec, s);
    BrokenRuleIsFirst(VisibleOptions(spec, s.chain), s);
  }
}
