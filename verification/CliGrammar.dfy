/** What the parser's lookups and value checks mean, each stated on its own. */
module CliGrammar {
  import opened Prelude
  import opened CliSpec
  import opened CliParser

  // --------------------------------------------------------------------------
  // Scopes
  // --------------------------------------------------------------------------

  /** Commands and arguments come from the command entered last, or the root. */
  lemma ScopeIsLastEntered(spec: Spec, chain: seq<CommandSpec>)
    ensures chain == [] ==> Commands(spec, chain) == spec.commands && Arguments(spec, chain) == spec.arguments
    ensures chain != [] ==>
      && Commands(spec, chain) == chain[|chain| - 1].commands && Arguments(spec, chain) == chain[|chain| - 1].arguments
  {
  }

  /** Options come from the root and from every command entered, outermost first. */
  lemma {:induction false} VisibleOptionsSnoc(spec: Spec, chain: seq<CommandSpec>, command: CommandSpec)
    ensures VisibleOptions(spec, []) == spec.options
    ensures VisibleOptions(spec, chain + [command]) == VisibleOptions(spec, chain) + command.options
  {
    assert (chain + [command])[..|chain|] == chain;
  }

  /** A long option is found exactly when it is the last visible one of that name. */
  lemma {:induction false} LongFound(options: seq<OptionSpec>, long: string, o: OptionSpec)
    ensures LastLong(options, long) == Some(o) <==>
      exists k :: 0 <= k < |options| && options[k] == o && o.long == long
                  && forall j :: k < j < |options| ==> options[j].long != long
    ensures LastLong(options, long).None? <==> forall k :: 0 <= k < |options| ==> options[k].long != long
  {
    if options != [] && options[|options| - 1].long != long {
      LongFound(options[..|options| - 1], long, o);
      LastOfMore(options, options[..|options| - 1]);
    }
  }

  lemma LastOfMore(options: seq<OptionSpec>, before: seq<OptionSpec>)
    requires options != [] && before == options[..|options| - 1]
    ensures |before| == |options| - 1 && forall k :: 0 <= k < |before| ==> before[k] == options[k]
  {
  }

  lemma {:induction false} NoShort(options: seq<OptionSpec>, short: char)
    ensures LastShort(options, short).None? <==> forall k :: 0 <= k < |options| ==> options[k].short != Some(short)
  {
    if options != [] && options[|options| - 1].short != Some(short) {
      NoShort(options[..|options| - 1], short);
      LastOfMore(options, options[..|options| - 1]);
    }
  }

  lemma {:induction false} ShortFound(options: seq<OptionSpec>, short: char, o: OptionSpec)
    ensures LastShort(options, short) == Some(o) <==>
      exists k :: 0 <= k < |options| && options[k] == o && o.short == Some(short)
                  && forall j :: k < j < |options| ==> options[j].short != Some(short)
  {
    if options != [] && options[|options| - 1].short != Some(short) {
      ShortFound(options[..|options| - 1], short, o);
      LastOfMore(options, options[..|options| - 1]);
    }
  }

  /** A command is matched exactly when it is the first in scope with that name or alias. */
  lemma {:induction false} CommandMatched(commands: seq<CommandSpec>, word: string, c: CommandSpec)
    ensures FirstMatch(commands, word) == Some(c) <==>
      exists k :: 0 <= k < |commands| && commands[k] == c && (c.name == word || word in c.aliases)
                  && forall j :: 0 <= j < k ==> commands[j].name != word && word !in commands[j].aliases
    ensures FirstMatch(commands, word).None? <==>
      forall k :: 0 <= k < |commands| ==> commands[k].name != word && word !in commands[k].aliases
  {
    if commands != [] && !commands[0].Matches(word) {
      var rest := commands[1..];
      CommandMatched(rest, word, c);
      assert forall k :: 0 < k < |commands| ==> rest[k - 1] == commands[k];
      if FirstMatch(commands, word) == Some(c) {
        var k :| 0 <= k < |rest| && rest[k] == c && (c.name == word || word in c.aliases)
          && forall j :: 0 <= j < k ==> rest[j].name != word && word !in rest[j].aliases;
        assert commands[k + 1] == c;
      }
    }
  }

  /** The argument that the next positional is checked against: its own, or the last one when that repeats. */
  lemma ArgumentForNext(spec: Spec, chain: seq<CommandSpec>, count: nat)
    ensures var arguments := if chain == [] then spec.arguments else chain[|chain| - 1].arguments;
      NextArgument(spec, chain, count) ==
        if |arguments| == 0 then None
        else if count < |arguments| then Some(arguments[count])
        else if arguments[|arguments| - 1].multiple then Some(arguments[|arguments| - 1]) else None
  {
  }

  // --------------------------------------------------------------------------
  // Words
  // --------------------------------------------------------------------------

  /** `name=value` is split at the first equals sign, and anything else is a name alone. */
  lemma SplitAtFirstEquals(raw: string)
    ensures var (name, value) := SplitOnce(raw);
      && '=' !in name && raw == (if value.Some? then name + "=" + value.value else name)
  {
    var i := IndexOf(raw, '=');
    if i < |raw| {
      assert raw == raw[..i] + [raw[i]] + raw[i + 1..];
    } else {
      assert raw[..i] == raw;
    }
  }

  /** What follows an option in a cluster is its value, after an equals sign or at once. */
  lemma RestOfCluster(word: string, k: nat)
    requires k < |word|
    ensures Remainder(word, k) ==
      if k == |word| - 1 then None
      else if word[k + 1] == '=' then Some(word[k + 2..]) else Some(word[k + 1..])
  {
  }

  /** The value an option takes and where parsing goes on, or why it takes none. */
  lemma ValueTaken(words: seq<string>, index: nat, inline: Option<string>, option: OptionSpec, short: bool)
    ensures var taken := OptionValue(words, index, inline, option, short);
      var next := if index + 1 < |words| then Some(words[index + 1]) else None;
      && (option.mode == Forbidden ==>
            taken == if inline.Some? && !short then Err(InvalidValue) else Ok((None, index + 1)))
      && (option.mode != Forbidden && inline.Some? ==> taken == Ok((inline, index + 1)))
      && (option.mode == Required && inline.None? ==>
            taken == if next.Some? then Ok((next, index + 2)) else Err(MissingValue))
      && (option.mode == Optional && inline.None? ==>
            taken == if option.detached && next.Some? && Accepts(next.value, option.valueType, option.possible)
                     then Ok((next, index + 2)) else Ok((None, index + 1)))
  {
  }

  /** A value is accepted exactly when it is of the declared type and, where values are enumerated, one of them. */
  lemma AcceptedExactlyWhen(value: string, valueType: ValueType, possible: seq<string>)
    ensures Accepts(value, valueType, possible) <==>
      && (|possible| > 0 ==> exists i :: 0 <= i < |possible| && possible[i] == value)
      && (valueType == Bool ==> value == "true" || value == "false")
      && (valueType == I64 ==> ParsesI64(value))
      && (valueType == U64 ==> ParsesU64(value))
  {
  }

  /** A dashed word is read as a negative positional exactly when the next argument takes whole numbers, the word is one,
      and its second character is no visible short option. */
  lemma NegativeExactlyWhen(spec: Spec, chain: seq<CommandSpec>, count: nat, word: string)
    requires IsShort(word)
    ensures AcceptsNegative(spec, chain, count, word) <==>
      && NextArgument(spec, chain, count).Some? && NextArgument(spec, chain, count).value.valueType == I64
      && ParsesI64(word) && forall k :: 0 <= k < |VisibleOptions(spec, chain)| ==>
           VisibleOptions(spec, chain)[k].short != Some(word[1])
  {
    NoShort(VisibleOptions(spec, chain), word[1]);
    var argument := NextArgument(spec, chain, count);
    assert AcceptsNegative(spec, chain, count, word) <==>
      && argument.Some? && argument.value.valueType == I64 && ParsesI64(word)
      && LastShort(VisibleOptions(spec, chain), word[1]).None?;
  }

  lemma NameCharacters(c: char)
    ensures IsNameChar(c) <==> c in LOWER || c in UPPER || c in DIGITS || c == '-' || c == '_' || c == '.'
  {
    LetterRanges(c);
  }

  /** Names are made of these characters; a short option is one ASCII character but a dash or white space. */
  lemma NamesAre(name: string, short: char)
    ensures ValidName(name) <==> |name| > 0 && forall i :: 0 <= i < |name| ==>
      var c := name[i]; c in LOWER || c in UPPER || c in DIGITS || c == '-' || c == '_' || c == '.'
    ensures ValidShort(short) <==> short != '-' && short as int < 128 && !IsWhiteSpace(short as int)
  {
    forall c ensures IsNameChar(c) <==> c in LOWER || c in UPPER || c in DIGITS || c == '-' || c == '_' || c == '.' {
      NameCharacters(c);
    }
    assert forall i :: 0 <= i < |name| ==> name[i] in name;
  }

  // --------------------------------------------------------------------------
  // Numbers
  // --------------------------------------------------------------------------

  /** Decimal notation without leading zeros. */
  function Show(n: nat): string {
    if n < 10 then [DIGITS[n]] else Show(n / 10) + [DIGITS[n % 10]]
  }

  function Zeros(k: nat): string {
    if k == 0 then "" else Zeros(k - 1) + ['0']
  }

  lemma DigitValue(n: nat)
    requires n < 10
    ensures IsDigit(DIGITS[n]) && DIGITS[n] as int - '0' as int == n
  {
  }

  lemma DigitOf(c: char)
    requires IsDigit(c)
    ensures DIGITS[c as int - '0' as int] == c
  {
  }

  lemma DecimalSnoc(before: string, n: nat, unit: nat)
    requires unit < 10 && Decimal(before) == Some(n)
    ensures Decimal(before + [DIGITS[unit]]) == Some(10 * n + unit)
  {
    var word := before + [DIGITS[unit]];
    DigitValue(unit);
    assert word[..|word| - 1] == before && word[|word| - 1] == DIGITS[unit];
  }

  lemma SingleDigit(unit: nat)
    requires unit < 10
    ensures Decimal([DIGITS[unit]]) == Some(unit) && Show(unit) == [DIGITS[unit]]
  {
    DigitValue(unit);
  }

  lemma {:induction false} ZerosThenNumber(z: nat, n: nat)
    ensures Decimal(Zeros(z) + Show(n)) == Some(n)
    decreases n, z
  {
    if n >= 10 {
      ZerosThenNumber(z, n / 10);
      DecimalSnoc(Zeros(z) + Show(n / 10), n / 10, n % 10);
      assert Zeros(z) + Show(n) == Zeros(z) + Show(n / 10) + [DIGITS[n % 10]];
    } else {
      SingleDigit(n);
      if z == 0 {
        assert Zeros(0) + Show(n) == [DIGITS[n]];
      } else {
        SingleDigit(0);
        ZerosThenNumber(z - 1, 0);
        assert Zeros(z - 1) + Show(0) == Zeros(z);
        DecimalSnoc(Zeros(z), 0, n);
      }
    }
  }

  /** A run of digits is the decimal notation of its value after some zeros. */
  lemma {:induction false} DigitsAreANumber(word: string) returns (z: nat)
    requires Decimal(word).Some?
    ensures word == Zeros(z) + Show(Decimal(word).value)
  {
    var before, last := word[..|word| - 1], word[|word| - 1];
    DigitOf(last);
    assert word == before + [last];
    if |word| == 1 {
      z := 0;
    } else {
      z := DigitsAreANumber(before);
      OneMoreDigit(before, last, z, Decimal(before).value);
      if Decimal(before).value == 0 {
        z := z + 1;
      }
    }
  }

  lemma OneMoreDigit(before: string, last: char, z: nat, n: nat)
    requires before == Zeros(z) + Show(n) && IsDigit(last)
    ensures before + [last] ==
      Zeros(if n == 0 then z + 1 else z) + Show(10 * n + (last as int - '0' as int))
  {
    DigitOf(last);
    var unit := last as int - '0' as int;
    assert (10 * n + unit) / 10 == n && (10 * n + unit) % 10 == unit;
    if n == 0 {
      assert Show(0) == ['0'] && Show(unit) == [last];
    } else {
      assert Show(10 * n + unit) == Show(n) + [last];
    }
  }

  ghost predicate IsNotation(word: string, n: nat) {
    exists z: nat :: word == Zeros(z) + Show(n)
  }

  lemma DecimalExactlyWhen(word: string, n: nat)
    ensures Decimal(word) == Some(n) <==> IsNotation(word, n)
  {
    if Decimal(word) == Some(n) {
      var z := DigitsAreANumber(word);
    }
    if IsNotation(word, n) {
      var z: nat :| word == Zeros(z) + Show(n);
      ZerosThenNumber(z, n);
    }
  }

  ghost predicate NotationUpTo(word: string, bound: nat) {
    exists n: nat :: n <= bound && IsNotation(word, n)
  }

  lemma AtMostExactlyWhen(word: string, bound: nat)
    ensures DecimalAtMost(word, bound) <==> NotationUpTo(word, bound)
  {
    if DecimalAtMost(word, bound) {
      DecimalExactlyWhen(word, Decimal(word).value);
    }
    if NotationUpTo(word, bound) {
      var n: nat :| n <= bound && IsNotation(word, n);
      DecimalExactlyWhen(word, n);
    }
  }

  lemma {:induction false} AllDigits(word: string)
    requires Decimal(word).Some?
    ensures word != [] && forall c :: c in word ==> IsDigit(c)
  {
    if |word| > 1 {
      AllDigits(word[..|word| - 1]);
      assert word == word[..|word| - 1] + [word[|word| - 1]];
    }
  }

  lemma NotationStarts(word: string, bound: nat)
    ensures NotationUpTo(word, bound) ==> word != [] && word[0] != '+' && word[0] != '-'
  {
    AtMostExactlyWhen(word, bound);
    if NotationUpTo(word, bound) {
      AllDigits(word);
      assert word[0] in word;
    }
  }

  /** Unsigned values: decimal notation of a 64-bit number, with or without a plus sign. */
  lemma UnsignedExactlyWhen(word: string)
    ensures ParsesU64(word) <==>
      || NotationUpTo(word, 0xFFFF_FFFF_FFFF_FFFF)
      || (word != [] && word[0] == '+' && NotationUpTo(word[1..], 0xFFFF_FFFF_FFFF_FFFF))
  {
    AtMostExactlyWhen(word, U64_MAX);
    NotationStarts(word, U64_MAX);
    if word != [] {
      AtMostExactlyWhen(word[1..], U64_MAX);
    }
  }

  /** Signed values: decimal notation of a number of that range, with an optional sign. */
  lemma SignedExactlyWhen(word: string)
    ensures ParsesI64(word) <==>
      || NotationUpTo(word, 0x7FFF_FFFF_FFFF_FFFF)
      || (word != [] && word[0] == '+' && NotationUpTo(word[1..], 0x7FFF_FFFF_FFFF_FFFF))
      || (word != [] && word[0] == '-' && NotationUpTo(word[1..], 0x8000_0000_0000_0000))
  {
    AtMostExactlyWhen(word, 0x7FFF_FFFF_FFFF_FFFF);
    NotationStarts(word, 0x7FFF_FFFF_FFFF_FFFF);
    if word != [] {
      AtMostExactlyWhen(word[1..], 0x7FFF_FFFF_FFFF_FFFF);
      AtMostExactlyWhen(word[1..], 0x8000_0000_0000_0000);
    }
  }
}
