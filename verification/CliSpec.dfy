/** Command-line specifications, their validation, and value checks. */
module CliSpec {
  import opened Prelude

  datatype ValueMode = Forbidden | Required | Optional

  datatype ValueType = Text | Bool | I64 | U64

  datatype OptionSpec = OptionSpec(
    long: string, short: Option<char>, mode: ValueMode, valueType: ValueType, possible: seq<string>,
    required: bool, repeatable: bool, detached: bool, terminal: bool,
    conflicts: seq<string>, requirements: seq<string>)

  datatype ArgumentSpec = ArgumentSpec(
    name: string, valueType: ValueType, possible: seq<string>, required: bool, multiple: bool)

  datatype CommandSpec = CommandSpec(
    name: string, aliases: seq<string>, commands: seq<CommandSpec>,
    options: seq<OptionSpec>, arguments: seq<ArgumentSpec>, commandRequired: bool)
  {
    predicate Matches(word: string) {
      name == word || word in aliases
    }
  }

  datatype Spec = Spec(
    name: string, commands: seq<CommandSpec>, options: seq<OptionSpec>,
    arguments: seq<ArgumentSpec>, commandRequired: bool)

  datatype ErrorKind =
    | InvalidSpecification | UnknownOption | InvalidValue | MissingValue | DuplicateOption
    | UnexpectedArgument | MissingCommand | MissingOption | OptionConflict | MissingRequirement

  // --------------------------------------------------------------------------
  // Words and values
  // --------------------------------------------------------------------------

  predicate StartsWith(word: string, prefix: string) {
    |prefix| <= |word| && word[..|prefix|] == prefix
  }

  predicate IsDigit(c: char) {
    '0' <= c <= '9'
  }

  /** Decimal value of a non-empty run of ASCII digits. */
  function Decimal(digits: string): Option<nat> {
    if digits == [] || !IsDigit(digits[|digits| - 1]) then None
    else
      var unit := digits[|digits| - 1] as int - '0' as int;
      if |digits| == 1 then Some(unit)
      else
        var rest := Decimal(digits[..|digits| - 1]);
        if rest.None? then None else Some(10 * rest.value + unit)
  }

  predicate DecimalAtMost(digits: string, bound: nat) {
    Decimal(digits).Some? && Decimal(digits).value <= bound
  }

  predicate ParsesI64(word: string) {
    if StartsWith(word, "-") then DecimalAtMost(word[1..], 0x8000_0000_0000_0000)
    else if StartsWith(word, "+") then DecimalAtMost(word[1..], 0x7FFF_FFFF_FFFF_FFFF)
    else DecimalAtMost(word, 0x7FFF_FFFF_FFFF_FFFF)
  }

  predicate ParsesU64(word: string) {
    if StartsWith(word, "+") then DecimalAtMost(word[1..], U64_MAX) else DecimalAtMost(word, U64_MAX)
  }

  predicate Typed(value: string, valueType: ValueType) {
    match valueType
    case Text => true
    case Bool => value == "true" || value == "false"
    case I64 => ParsesI64(value)
    case U64 => ParsesU64(value)
  }

  /** Whether a value passes the declared type and enumeration. */
  predicate Accepts(value: string, valueType: ValueType, possible: seq<string>) {
    Typed(value, valueType) && (possible == [] || value in possible)
  }

  // --------------------------------------------------------------------------
  // Validation
  // --------------------------------------------------------------------------

  predicate IsNameChar(c: char) {
    'a' <= c <= 'z' || 'A' <= c <= 'Z' || IsDigit(c) || c == '-' || c == '_' || c == '.'
  }

  predicate ValidName(name: string) {
    name != [] && forall c :: c in name ==> IsNameChar(c)
  }

  predicate IsAsciiSpace(c: char) {
    '\t' <= c <= '\r' || c == ' '
  }

  predicate ValidShort(short: char) {
    short != '-' && !IsAsciiSpace(short) && short as int < 128
  }

  predicate Unique<T(==)>(items: seq<T>) {
    forall i, j :: 0 <= i < j < |items| ==> items[i] != items[j]
  }

  predicate ValidPossible(values: seq<string>) {
    Unique(values) && forall v :: v in values ==> v != []
  }

  function Labels(commands: seq<CommandSpec>): seq<string> {
    if commands == [] then []
    else
      var last := commands[|commands| - 1];
      Labels(commands[..|commands| - 1]) + [last.name] + last.aliases
  }

  predicate ValidCommands(commands: seq<CommandSpec>) {
    Unique(Labels(commands)) && forall name :: name in Labels(commands) ==> ValidName(name)
  }

  predicate DefinesLong(options: seq<OptionSpec>, long: string) {
    exists i :: 0 <= i < |options| && options[i].long == long
  }

  predicate ValidOption(option: OptionSpec) {
    && ValidName(option.long)
    && (option.short.Some? ==> ValidShort(option.short.value))
    && (option.mode == Forbidden ==> option.possible == [] && option.valueType == Text)
    && ValidPossible(option.possible)
  }

  /** No two of the options visible in one scope share a long or a short name. */
  predicate DistinctOptions(options: seq<OptionSpec>) {
    forall i, j :: 0 <= i < j < |options| ==>
      options[i].long != options[j].long && (options[i].short.Some? ==> options[i].short != options[j].short)
  }

  predicate ValidRelations(option: OptionSpec, visible: seq<OptionSpec>) {
    forall related :: related in option.conflicts + option.requirements ==>
      related != option.long && DefinesLong(visible, related)
  }

  predicate ValidOptions(options: seq<OptionSpec>, inherited: seq<OptionSpec>) {
    && (forall option :: option in options ==> ValidOption(option))
    && DistinctOptions(inherited + options)
    && (forall option :: option in options ==> ValidRelations(option, inherited + options))
  }

  predicate ValidArguments(arguments: seq<ArgumentSpec>) {
    && (forall a :: a in arguments ==> ValidName(a.name) && ValidPossible(a.possible))
    && (forall i, j :: 0 <= i < j < |arguments| ==>
          && arguments[i].name != arguments[j].name
          && (arguments[j].required ==> arguments[i].required)
          && !arguments[i].multiple)
  }

  predicate ValidScope(
    commands: seq<CommandSpec>, options: seq<OptionSpec>, arguments: seq<ArgumentSpec>, inherited: seq<OptionSpec>)
    decreases commands
  {
    && ValidCommands(commands)
    && ValidOptions(options, inherited)
    && ValidArguments(arguments)
    && forall command :: command in commands ==>
         ValidScope(command.commands, command.options, command.arguments, inherited + options)
  }

  predicate ValidSpec(spec: Spec) {
    ValidName(spec.name) && ValidScope(spec.commands, spec.options, spec.arguments, [])
  }

  // --------------------------------------------------------------------------
  // The validator's loops
  // --------------------------------------------------------------------------

  lemma UniqueSnoc<T>(items: seq<T>, item: T)
    ensures Unique(items + [item]) <==> Unique(items) && item !in items
  {
    var more := items + [item];
    if Unique(more) {
      assert forall i :: 0 <= i < |items| ==> items[i] == more[i] && more[i] != more[|items|];
    }
  }

  lemma {:induction false} LabelsPrefix(commands: seq<CommandSpec>, n: nat)
    requires n < |commands|
    ensures Labels(commands[..n]) + ([commands[n].name] + commands[n].aliases) <= Labels(commands)
  {
    if n + 1 == |commands| {
      assert commands[..n + 1] == commands;
    } else {
      var shorter := commands[..|commands| - 1];
      LabelsPrefix(shorter, n);
      assert shorter[..n] == commands[..n];
    }
  }

  /** Each list of values is scanned once with a set of the values met so far. */
  method ValidatePossible(values: seq<string>) returns (ok: bool)
    ensures ok <==> ValidPossible(values)
  {
    var unique := {};
    for i := 0 to |values|
      invariant Unique(values[..i])
      invariant forall v :: v in unique <==> v in values[..i]
      invariant forall k :: 0 <= k < i ==> values[k] != []
    {
      assert values[..i + 1] == values[..i] + [values[i]];
      UniqueSnoc(values[..i], values[i]);
      if values[i] == [] || values[i] in unique {
        assert values[i] in values;
        return false;
      }
      unique := unique + {values[i]};
    }
    assert values[..|values|] == values;
    ok := true;
  }

  method ValidateCommands(commands: seq<CommandSpec>) returns (ok: bool)
    ensures ok <==> ValidCommands(commands)
  {
    var names := {};
    for i := 0 to |commands|
      invariant Unique(Labels(commands[..i]))
      invariant forall n :: n in names <==> n in Labels(commands[..i])
      invariant forall n :: n in names ==> ValidName(n)
    {
      ghost var before := Labels(commands[..i]);
      var labels := [commands[i].name] + commands[i].aliases;
      LabelsPrefix(commands, i);
      for j := 0 to |labels|
        invariant Unique(before + labels[..j])
        invariant forall n :: n in names <==> n in before + labels[..j]
        invariant forall n :: n in names ==> ValidName(n)
      {
        assert before + labels[..j + 1] == (before + labels[..j]) + [labels[j]];
        UniqueSnoc(before + labels[..j], labels[j]);
        if !ValidName(labels[j]) || labels[j] in names {
          assert labels[j] in before + labels;
          assert before + labels[..j + 1] <= Labels(commands);
          return false;
        }
        names := names + {labels[j]};
      }
      assert labels[..|labels|] == labels;
      assert commands[..i + 1][..i] == commands[..i];
      assert Labels(commands[..i + 1]) == before + labels;
    }
    assert commands[..|commands|] == commands;
    ok := true;
  }

  /** The long and short names of some options, as the validator collects them. */
  ghost predicate Collected(longs: set<string>, shorts: set<char>, options: seq<OptionSpec>) {
    && (forall long :: long in longs <==> DefinesLong(options, long))
    && (forall c :: c in shorts <==> exists i :: 0 <= i < |options| && options[i].short == Some(c))
  }

  function WithShort(shorts: set<char>, option: OptionSpec): set<char> {
    if option.short.Some? then shorts + {option.short.value} else shorts
  }

  lemma CollectOne(options: seq<OptionSpec>, option: OptionSpec, longs: set<string>, shorts: set<char>)
    requires Collected(longs, shorts, options)
    ensures DistinctOptions(options + [option]) <==>
      DistinctOptions(options) && option.long !in longs && (option.short.Some? ==> option.short.value !in shorts)
    ensures Collected(longs + {option.long}, WithShort(shorts, option), options + [option])
  {
    var more := options + [option];
    assert forall i :: 0 <= i < |options| ==> more[i] == options[i];
    assert more[|options|] == option;
    forall long ensures long in longs + {option.long} <==> DefinesLong(more, long) {
      if long in longs {
        var i :| 0 <= i < |options| && options[i].long == long;
        assert more[i].long == long;
      }
    }
    forall c ensures c in WithShort(shorts, option) <==> exists i :: 0 <= i < |more| && more[i].short == Some(c) {
      if c in shorts {
        var i :| 0 <= i < |options| && options[i].short == Some(c);
        assert more[i].short == Some(c);
      }
    }
  }

  method CollectOptions(options: seq<OptionSpec>) returns (longs: set<string>, shorts: set<char>)
    ensures Collected(longs, shorts, options)
  {
    longs, shorts := {}, {};
    for i := 0 to |options|
      invariant Collected(longs, shorts, options[..i])
    {
      CollectOne(options[..i], options[i], longs, shorts);
      assert options[..i + 1] == options[..i] + [options[i]];
      longs := longs + {options[i].long};
      shorts := WithShort(shorts, options[i]);
    }
    assert options[..|options|] == options;
  }

  lemma DistinctPrefix(options: seq<OptionSpec>, n: nat)
    requires n <= |options| && DistinctOptions(options)
    ensures DistinctOptions(options[..n])
  {
    assert forall i :: 0 <= i < n ==> options[..n][i] == options[i];
  }

  lemma NextInScope(inherited: seq<OptionSpec>, options: seq<OptionSpec>, i: nat)
    requires i < |options|
    ensures inherited + options[..i + 1] == (inherited + options[..i]) + [options[i]]
    ensures DistinctOptions(inherited + options) ==> DistinctOptions(inherited + options[..i + 1])
  {
    if DistinctOptions(inherited + options) {
      DistinctPrefix(inherited + options, |inherited| + i + 1);
      assert (inherited + options)[..|inherited| + i + 1] == inherited + options[..i + 1];
    }
  }

  method ValidateOption(option: OptionSpec) returns (ok: bool)
    ensures ok <==> ValidOption(option)
  {
    if !ValidName(option.long) {
      return false;
    }
    if option.short.Some? && !ValidShort(option.short.value) {
      return false;
    }
    if option.mode == Forbidden && (option.possible != [] || option.valueType != Text) {
      return false;
    }
    ok := ValidatePossible(option.possible);
  }

  /** The first loop: each option is valid and repeats no name in scope. */
  method CollectScope(options: seq<OptionSpec>, inherited: seq<OptionSpec>) returns (ok: bool, longs: set<string>)
    requires DistinctOptions(inherited)
    ensures ok <==> (forall o :: o in options ==> ValidOption(o)) && DistinctOptions(inherited + options)
    ensures ok ==> forall long :: long in longs <==> DefinesLong(inherited + options, long)
  {
    var shorts;
    longs, shorts := CollectOptions(inherited);
    assert inherited + options[..0] == inherited;
    for i := 0 to |options|
      invariant Collected(longs, shorts, inherited + options[..i])
      invariant DistinctOptions(inherited + options[..i])
      invariant forall k :: 0 <= k < i ==> ValidOption(options[k])
    {
      CollectOne(inherited + options[..i], options[i], longs, shorts);
      NextInScope(inherited, options, i);
      ok := ValidateOption(options[i]);
      if !ok || options[i].long in longs || (options[i].short.Some? && options[i].short.value in shorts) {
        return false, longs;
      }
      longs := longs + {options[i].long};
      shorts := WithShort(shorts, options[i]);
    }
    assert options[..|options|] == options;
    ok := true;
  }

  method ValidateOptions(options: seq<OptionSpec>, inherited: seq<OptionSpec>) returns (ok: bool)
    requires DistinctOptions(inherited)
    ensures ok <==> ValidOptions(options, inherited)
  {
    var longs;
    ok, longs := CollectScope(options, inherited);
    if !ok {
      return;
    }
    for i := 0 to |options|
      invariant forall k :: 0 <= k < i ==> ValidRelations(options[k], inherited + options)
    {
      var related := options[i].conflicts + options[i].requirements;
      for j := 0 to |related|
        invariant forall k :: 0 <= k < j ==> related[k] != options[i].long && DefinesLong(inherited + options, related[k])
      {
        if related[j] == options[i].long || related[j] !in longs {
          assert related[j] in related && !ValidRelations(options[i], inherited + options);
          assert options[i] in options;
          return false;
        }
      }
    }
    ok := true;
  }

  method ValidateArguments(arguments: seq<ArgumentSpec>) returns (ok: bool)
    ensures ok <==> ValidArguments(arguments)
  {
    var names := {};
    var optionalSeen := false;
    for i := 0 to |arguments|
      invariant forall n :: n in names <==> exists k :: 0 <= k < i && arguments[k].name == n
      invariant optionalSeen <==> exists k :: 0 <= k < i && !arguments[k].required
      invariant forall k :: 0 <= k < i ==> ValidName(arguments[k].name) && ValidPossible(arguments[k].possible)
      invariant forall k :: 0 <= k < i && arguments[k].multiple ==> k + 1 == |arguments|
      invariant forall k, m :: 0 <= k < m < i ==>
        arguments[k].name != arguments[m].name && (arguments[m].required ==> arguments[k].required)
    {
      var argument := arguments[i];
      assert argument in arguments;
      var possible := ValidatePossible(argument.possible);
      if !ValidName(argument.name) || !possible {
        return false;
      }
      if argument.name in names {
        var k :| 0 <= k < i && arguments[k].name == argument.name;
        assert arguments[k].name == arguments[i].name;
        return false;
      }
      if argument.required && optionalSeen {
        var k :| 0 <= k < i && !arguments[k].required;
        assert arguments[i].required && !arguments[k].required;
        return false;
      }
      if argument.multiple && i + 1 != |arguments| {
        assert arguments[i].name != arguments[i + 1].name ==> arguments[i].multiple;
        return false;
      }
      names := names + {argument.name};
      optionalSeen := optionalSeen || !argument.required;
    }
    ok := true;
  }

  method ValidateScope(
    commands: seq<CommandSpec>, options: seq<OptionSpec>, arguments: seq<ArgumentSpec>, inherited: seq<OptionSpec>)
    returns (ok: bool)
    requires DistinctOptions(inherited)
    ensures ok <==> ValidScope(commands, options, arguments, inherited)
    decreases commands
  {
    var commandsOk := ValidateCommands(commands);
    var optionsOk := ValidateOptions(options, inherited);
    var argumentsOk := ValidateArguments(arguments);
    if !commandsOk || !optionsOk || !argumentsOk {
      return false;
    }
    for i := 0 to |commands|
      invariant forall k :: 0 <= k < i ==>
        ValidScope(commands[k].commands, commands[k].options, commands[k].arguments, inherited + options)
    {
      var command := commands[i];
      ok := ValidateScope(command.commands, command.options, command.arguments, inherited + options);
      if !ok {
        assert command in commands;
        return false;
      }
    }
    ok := true;
  }

  /** The validator's nested loops decide the declarative conditions. */
  method ValidateSpec(spec: Spec) returns (ok: bool)
    ensures ok <==> ValidSpec(spec)
  {
    if !ValidName(spec.name) {
      return false;
    }
    ok := ValidateScope(spec.commands, spec.options, spec.arguments, []);
  }
}
