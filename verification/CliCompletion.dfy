/** The completer: a one-word-at-a-time machine with a pending flag, and its agreement with the parser. */
module CliCompletion {
  import opened Prelude
  import opened CliSpec
  import opened CliParser

  datatype Context = Context(
    chain: seq<CommandSpec>, used: set<string>, positionals: nat,
    pending: Option<OptionSpec>, passthrough: bool)

  const EMPTY := Context([], {}, 0, None, false)

  function ConsumeLong(spec: Spec, c: Context, raw: string): Context {
    var (name, inline) := SplitOnce(raw);
    var found := FindLong(spec, c.chain, name);
    if found.None? then c
    else
      c.(used := c.used + {found.value.long},
         pending := if found.value.mode == Required && inline.None? then found else c.pending)
  }

  function TrimDashes(word: string): string {
    if StartsWith(word, "-") then TrimDashes(word[1..]) else word
  }

  function ConsumeShort(spec: Spec, c: Context, raw: string): Context
    decreases |raw|
  {
    if raw == [] then c
    else
      var found := FindShort(spec, c.chain, raw[0]);
      if found.None? then c
      else
        var used := c.(used := c.used + {found.value.long});
        if found.value.mode == Forbidden then ConsumeShort(spec, used, raw[1..])
        else if |raw| == 1 && found.value.mode == Required then used.(pending := found)
        else used
  }

  /** Consumes one word; the answer says whether the machine stops. */
  function Consume(spec: Spec, c: Context, word: string): (Context, bool) {
    if c.pending.Some? then (c.(pending := None), false)
    else if word == "--" then (c.(passthrough := true), true)
    else if StartsWith(word, "--") then (ConsumeLong(spec, c, word[2..]), false)
    else if StartsWith(word, "-") && |word| > 1 && !AcceptsNegative(spec, c.chain, c.positionals, word) then
      (ConsumeShort(spec, c, TrimDashes(word)), false)
    else
      var command := FirstMatch(Commands(spec, c.chain), word);
      if c.positionals == 0 && command.Some? then (c.(chain := c.chain + [command.value]), false)
      else (c.(positionals := c.positionals + 1), false)
  }

  function Analyze(spec: Spec, words: seq<string>, index: nat, c: Context): Context
    requires index <= |words|
    decreases |words| - index
  {
    if index == |words| then c
    else
      var (after, stop) := Consume(spec, c, words[index]);
      if stop then after else Analyze(spec, words, index + 1, after)
  }

  class CompletionContext {
    const spec: Spec
    var chain: seq<CommandSpec>
    var used: set<string>
    var positionals: nat
    var pending: Option<OptionSpec>
    var passthrough: bool

    constructor (spec: Spec)
      ensures this.spec == spec && View() == EMPTY
    {
      this.spec := spec;
      chain, used, positionals, pending, passthrough := [], {}, 0, None, false;
    }

    function View(): Context
      reads this
    {
      Context(chain, used, positionals, pending, passthrough)
    }

    method AnalyzeWords(words: seq<string>)
      requires View() == EMPTY
      modifies this
      ensures View() == Analyze(spec, words, 0, EMPTY)
    {
      for i := 0 to |words|
        invariant Analyze(spec, words, 0, EMPTY) == Analyze(spec, words, i, View())
      {
        var stop := ConsumeWord(words[i]);
        if stop {
          return;
        }
      }
    }

    method ConsumeWord(word: string) returns (stop: bool)
      modifies this
      ensures (View(), stop) == Consume(spec, old(View()), word)
    {
      if pending.Some? {
        pending := None;
        return false;
      }
      if word == "--" {
        passthrough := true;
        return true;
      }
      if StartsWith(word, "--") {
        ConsumeLongOption(word[2..]);
        return false;
      }
      if StartsWith(word, "-") && |word| > 1 && !AcceptsNegative(spec, chain, positionals, word) {
        ConsumeCluster(word);
        return false;
      }
      if positionals == 0 {
        var command := FirstMatch(Commands(spec, chain), word);
        if command.Some? {
          chain := chain + [command.value];
          return false;
        }
      }
      positionals := positionals + 1;
      stop := false;
    }

    method ConsumeLongOption(raw: string)
      modifies this
      ensures View() == ConsumeLong(spec, old(View()), raw)
    {
      var (name, inline) := SplitOnce(raw);
      var option := FindLong(spec, chain, name);
      if option.Some? {
        used := used + {option.value.long};
        if option.value.mode == Required && inline.None? {
          pending := option;
        }
      }
    }

    method ConsumeCluster(word: string)
      modifies this
      ensures View() == ConsumeShort(spec, old(View()), TrimDashes(word))
    {
      var raw := TrimDashes(word);
      var k := 0;
      while k < |raw|
        invariant 0 <= k <= |raw|
        invariant ConsumeShort(spec, old(View()), raw) == ConsumeShort(spec, View(), raw[k..])
      {
        var option := FindShort(spec, chain, raw[k]);
        if option.None? {
          return;
        }
        used := used + {option.value.long};
        if option.value.mode != Forbidden {
          if k + 1 == |raw| && option.value.mode == Required {
            pending := option;
          }
          return;
        }
        assert raw[k..][1..] == raw[k + 1..];
        k := k + 1;
      }
    }
  }

  // --------------------------------------------------------------------------
  // Agreement
  // --------------------------------------------------------------------------

  /** Separate optional values are known to the parser only. */
  predicate Detachable(option: OptionSpec) {
    option.mode == Optional && option.detached
  }

  predicate ScopeAttached(options: seq<OptionSpec>, commands: seq<CommandSpec>)
    decreases commands
  {
    && (forall o :: o in options ==> !Detachable(o))
    && forall c :: c in commands ==> ScopeAttached(c.options, c.commands)
  }

  predicate Attached(spec: Spec) {
    ScopeAttached(spec.options, spec.commands)
  }

  function Names(options: seq<ParsedOption>): set<string> {
    set o | o in options :: o.name
  }

  /** What the completer knows of a parser state. */
  function Seen(s: State): Context {
    Context(s.chain, Names(s.options), |s.positionals|, None, false)
  }

  lemma {:induction false} FoundIsVisible(options: seq<OptionSpec>, long: string, short: char)
    ensures LastLong(options, long).Some? ==>
      LastLong(options, long).value in options && LastLong(options, long).value.long == long
    ensures LastShort(options, short).Some? ==> LastShort(options, short).value in options
  {
    if options != [] {
      FoundIsVisible(options[..|options| - 1], long, short);
    }
  }

  lemma {:induction false} MatchIsListed(commands: seq<CommandSpec>, word: string)
    ensures FirstMatch(commands, word).Some? ==> FirstMatch(commands, word).value in commands
  {
    if commands != [] && !commands[0].Matches(word) {
      MatchIsListed(commands[1..], word);
    }
  }

  lemma PushNames(s: State, option: OptionSpec, value: Option<string>)
    requires PushOption(s, option, value).Ok?
    ensures Names(PushOption(s, option, value).value.options) == Names(s.options) + {option.long}
  {
    var after := PushOption(s, option, value).value.options;
    assert after[|s.options|].name == option.long;
    forall n | n in Names(s.options) + {option.long} ensures n in Names(after) {
      if n in Names(s.options) {
        var i :| 0 <= i < |s.options| && s.options[i].name == n;
        assert after[i].name == n;
      }
    }
  }

  /** The option takes the next word as its separate optional value. */
  predicate TakesNext(option: OptionSpec, inline: Option<string>, words: seq<string>, index: nat) {
    && Detachable(option) && inline.None? && index + 1 < |words|
    && Accepts(words[index + 1], option.valueType, option.possible)
  }

  predicate ClusterTakesNext(spec: Spec, chain: seq<CommandSpec>, words: seq<string>, index: nat, k: nat)
    requires index < |words|
    decreases |words[index]| - k
  {
    k < |words[index]| &&
    var found := FindShort(spec, chain, words[index][k]);
    found.Some? && if found.value.mode == Forbidden then ClusterTakesNext(spec, chain, words, index, k + 1)
                   else TakesNext(found.value, Remainder(words[index], k), words, index)
  }

  /** The parser's turn at `index` takes the next word as a separate optional value. */
  predicate TakesDetached(spec: Spec, words: seq<string>, index: nat, s: State)
    requires index < |words|
  {
    var word := words[index];
    if StartsWith(word, "--") then
      var (name, inline) := SplitOnce(word[2..]);
      var found := FindLong(spec, s.chain, name);
      found.Some? && TakesNext(found.value, inline, words, index)
    else
      && IsShort(word) && !AcceptsNegative(spec, s.chain, |s.positionals|, word)
      && ClusterTakesNext(spec, s.chain, words, index, 1)
  }

  /** A parser turn that ends at `next` is one completer word, plus one more that clears the pending flag; after a
      separate optional value the completer has that value still ahead. */
  ghost predicate SameTurn(
    spec: Spec, before: Context, word: string, index: nat, after: Context, next: nat, detached: bool)
  {
    if detached then next == index + 2 && Consume(spec, before, word) == (after, false)
    else
      || (next == index + 1 && Consume(spec, before, word) == (after, false))
      || (next == index + 2 && exists o: OptionSpec :: Consume(spec, before, word) == (after.(pending := Some(o)), false))
  }

  lemma LongTurn(spec: Spec, words: seq<string>, index: nat, s: State)
    requires index < |words| && StartsWith(words[index], "--") && words[index] != "--"
    requires ParseLong(spec, words, index, s).Ok?
    ensures var (after, next) := ParseLong(spec, words, index, s).value;
      SameTurn(spec, Seen(s), words[index], index, Seen(after), next, TakesDetached(spec, words, index, s))
  {
    var (name, inline) := SplitOnce(words[index][2..]);
    var option := FindLong(spec, s.chain, name).value;
    var (value, next) := OptionValue(words, index, inline, option, false).value;
    PushNames(s, option, value);
    FoundIsVisible(VisibleOptions(spec, s.chain), name, 'x');
    var after := PushOption(s, option, value).value;
    if next == index + 2 && option.mode == Required {
      assert Consume(spec, Seen(s), words[index]) == (Seen(after).(pending := Some(option)), false);
    }
  }

  lemma {:induction false} ClusterTurn(spec: Spec, words: seq<string>, index: nat, k: nat, s: State)
    requires index < |words| && k <= |words[index]|
    requires ParseShort(spec, words, index, k, s).Ok?
    ensures var (after, next) := ParseShort(spec, words, index, k, s).value;
      var c := ConsumeShort(spec, Seen(s), words[index][k..]);
      if ClusterTakesNext(spec, s.chain, words, index, k) then next == index + 2 && c == Seen(after)
      else
        || (next == index + 1 && c == Seen(after))
        || (next == index + 2 && exists o: OptionSpec :: c == Seen(after).(pending := Some(o)))
    decreases |words[index]| - k
  {
    var word := words[index];
    if k < |word| {
      var raw := word[k..];
      assert raw[0] == word[k] && raw[1..] == word[k + 1..];
      var option := FindShort(spec, s.chain, word[k]).value;
      var (value, next) := OptionValue(words, index, Remainder(word, k), option, true).value;
      PushNames(s, option, value);
      var pushed := PushOption(s, option, value).value;
      if option.mode == Forbidden {
        ClusterTurn(spec, words, index, k + 1, pushed);
      } else if option.mode == Required && next == index + 2 {
        assert ConsumeShort(spec, Seen(s), raw) == Seen(pushed).(pending := Some(option));
      }
    }
  }

  lemma WordTurn(spec: Spec, words: seq<string>, index: nat, s: State)
    requires index < |words| && words[index] != "--"
    requires ParseWord(spec, words, index, s).Ok?
    ensures var (after, next) := ParseWord(spec, words, index, s).value;
      SameTurn(spec, Seen(s), words[index], index, Seen(after), next, TakesDetached(spec, words, index, s))
  {
    var word := words[index];
    if StartsWith(word, "--") {
      LongTurn(spec, words, index, s);
    } else if IsShort(word) && !AcceptsNegative(spec, s.chain, |s.positionals|, word) {
      assert TrimDashes(word) == word[1..];
      ClusterTurn(spec, words, index, 1, s);
    }
  }

  /** The completer passes over the word without a change. */
  predicate Ignores(spec: Spec, c: Context, word: string) {
    Consume(spec, c, word) == (c, false)
  }

  /** Every separate optional value that the parser takes from `index` on is one the completer passes over. */
  predicate DetachedIgnored(spec: Spec, words: seq<string>, index: nat, s: State)
    requires index <= |words|
    decreases |words| - index
  {
    index == |words| || words[index] == "--" || ParseWord(spec, words, index, s).Err? ||
    var (after, next) := ParseWord(spec, words, index, s).value;
    WordAdvances(spec, words, index, s);
    && (TakesDetached(spec, words, index, s) && index + 1 < |words| ==> Ignores(spec, Seen(after), words[index + 1]))
    && DetachedIgnored(spec, words, next, after)
  }

  /** One turn of the parser, as the completer lives through it. */
  lemma TurnAnalyzed(spec: Spec, words: seq<string>, index: nat, s: State)
    requires index < |words| && words[index] != "--"
    requires ParseWord(spec, words, index, s).Ok?
    requires TakesDetached(spec, words, index, s) && index + 1 < |words| ==>
      Ignores(spec, Seen(ParseWord(spec, words, index, s).value.0), words[index + 1])
    ensures var (after, next) := ParseWord(spec, words, index, s).value;
      next <= |words| && Analyze(spec, words, index, Seen(s)) == Analyze(spec, words, next, Seen(after))
  {
    WordTurn(spec, words, index, s);
    WordAdvances(spec, words, index, s);
    var (after, next) := ParseWord(spec, words, index, s).value;
    if next == index + 2 && !TakesDetached(spec, words, index, s) {
      var o: OptionSpec :| Consume(spec, Seen(s), words[index]) == (Seen(after).(pending := Some(o)), false);
      assert Consume(spec, Seen(after).(pending := Some(o)), words[index + 1]) == (Seen(after), false);
    }
  }

  /** From matching states, the rest of an accepted word list leaves matching states. */
  lemma {:induction false} WordsAgree(spec: Spec, words: seq<string>, index: nat, s: State)
    requires index <= |words| && DetachedIgnored(spec, words, index, s)
    requires ParseWords(spec, words, index, s).Ok?
    ensures var (after, stop) := ParseWords(spec, words, index, s).value;
      Analyze(spec, words, index, Seen(s)) == Seen(after).(passthrough := stop < |words|)
    decreases |words| - index
  {
    if index < |words| && words[index] != "--" {
      TurnAnalyzed(spec, words, index, s);
      WordAdvances(spec, words, index, s);
      var (after, next) := ParseWord(spec, words, index, s).value;
      WordsAgree(spec, words, next, after);
    }
  }

  /** Two readers of one grammar: whenever the parser's loop accepts a word list, the completer's machine ends with the
      same command chain, positional count, used options and passthrough flag, and with nothing pending, as long as it
      passes over the separate optional values among the words. */
  lemma CompleterAgreesWithParser(spec: Spec, words: seq<string>)
    requires DetachedIgnored(spec, words, 0, INITIAL) && ParseWords(spec, words, 0, INITIAL).Ok?
    ensures var (s, stop) := ParseWords(spec, words, 0, INITIAL).value;
      Analyze(spec, words, 0, EMPTY) ==
        Context(s.chain, set o | o in s.options :: o.name, |s.positionals|, None, stop < |words|)
  {
    assert Seen(INITIAL) == EMPTY;
    WordsAgree(spec, words, 0, INITIAL);
  }

  // --------------------------------------------------------------------------
  // Agreement turn by turn
  // --------------------------------------------------------------------------

  /** From `index` on, after every turn of the parser the completer of the words so far sees the parser's state. */
  predicate AgreesAtTurns(spec: Spec, words: seq<string>, index: nat, s: State)
    requires index <= |words|
    decreases |words| - index
  {
    && Analyze(spec, words[..index], 0, EMPTY) == Seen(s)
    && (index < |words| && words[index] != "--" && ParseWord(spec, words, index, s).Ok? ==>
          var (after, next) := ParseWord(spec, words, index, s).value;
          WordAdvances(spec, words, index, s);
          AgreesAtTurns(spec, words, next, after))
  }

  /** Analyzing one more word consumes it, unless a bare `--` stopped the machine before. */
  lemma {:induction false} AnalyzeSnoc(spec: Spec, words: seq<string>, n: nat, index: nat, c: Context)
    requires index <= n < |words| && !c.passthrough && !Analyze(spec, words[..n], index, c).passthrough
    ensures Analyze(spec, words[..n + 1], index, c) == Consume(spec, Analyze(spec, words[..n], index, c), words[n]).0
    decreases n - index
  {
    var less, more := words[..n], words[..n + 1];
    var (after, stop) := Consume(spec, c, more[index]);
    if index < n {
      assert less[index] == more[index] == words[index];
      assert stop ==> after.passthrough;
      PassthroughComesFromStop(spec, c, words[index]);
      AnalyzeSnoc(spec, words, n, index + 1, after);
    } else {
      assert Analyze(spec, more, n, c) == if stop then after else Analyze(spec, more, n + 1, after);
    }
  }

  lemma PassthroughComesFromStop(spec: Spec, c: Context, word: string)
    requires !c.passthrough
    ensures Consume(spec, c, word).0.passthrough == Consume(spec, c, word).1
  {
    if StartsWith(word, "-") && !StartsWith(word, "--") {
      ClusterKeepsPassthrough(spec, c, TrimDashes(word));
    }
  }

  lemma {:induction false} ClusterKeepsPassthrough(spec: Spec, c: Context, raw: string)
    ensures ConsumeShort(spec, c, raw).passthrough == c.passthrough
    decreases |raw|
  {
    if raw != [] && FindShort(spec, c.chain, raw[0]).Some? {
      var found := FindShort(spec, c.chain, raw[0]).value;
      if found.mode == Forbidden {
        ClusterKeepsPassthrough(spec, c.(used := c.used + {found.long}), raw[1..]);
      }
    }
  }

  /** What the completer sees at the end of a turn, when it saw the parser's state at its beginning. */
  lemma TurnBoundary(spec: Spec, words: seq<string>, index: nat, s: State)
    requires index < |words| && words[index] != "--" && ParseWord(spec, words, index, s).Ok?
    requires Analyze(spec, words[..index], 0, EMPTY) == Seen(s)
    ensures var (after, next) := ParseWord(spec, words, index, s).value;
      && next <= |words|
      && Analyze(spec, words[..next], 0, EMPTY) ==
           if TakesDetached(spec, words, index, s) && index + 1 < |words|
           then Consume(spec, Seen(after), words[index + 1]).0 else Seen(after)
  {
    WordTurn(spec, words, index, s);
    WordAdvances(spec, words, index, s);
    var (after, next) := ParseWord(spec, words, index, s).value;
    AnalyzeSnoc(spec, words, index, 0, EMPTY);
    if next == index + 2 {
      AnalyzeSnoc(spec, words, index + 1, 0, EMPTY);
    }
  }

  /** The completer leaves a context as it is exactly when it passes over the word. */
  lemma UnchangedIsIgnored(spec: Spec, c: Context, word: string)
    requires !c.passthrough
    ensures Consume(spec, c, word).0 == c <==> Ignores(spec, c, word)
  {
    PassthroughComesFromStop(spec, c, word);
  }

  lemma {:induction false} AgreesFrom(spec: Spec, words: seq<string>, index: nat, s: State)
    requires index <= |words| && Analyze(spec, words[..index], 0, EMPTY) == Seen(s)
    ensures AgreesAtTurns(spec, words, index, s) <==> DetachedIgnored(spec, words, index, s)
    decreases |words| - index
  {
    if index < |words| && words[index] != "--" && ParseWord(spec, words, index, s).Ok? {
      TurnBoundary(spec, words, index, s);
      WordAdvances(spec, words, index, s);
      var (after, next) := ParseWord(spec, words, index, s).value;
      if TakesDetached(spec, words, index, s) && index + 1 < |words| {
        UnchangedIsIgnored(spec, Seen(after), words[index + 1]);
      }
      if Analyze(spec, words[..next], 0, EMPTY) == Seen(after) {
        AgreesFrom(spec, words, next, after);
      }
    }
  }

  /** Separate optional values are all that divides the two readers: on any word list they agree after every turn of the
      parser exactly when the completer passes over each such value it meets. */
  lemma AgreesExactlyWhenDetachedIgnored(spec: Spec, words: seq<string>)
    ensures AgreesAtTurns(spec, words, 0, INITIAL) <==> DetachedIgnored(spec, words, 0, INITIAL)
  {
    assert Seen(INITIAL) == EMPTY;
    AgreesFrom(spec, words, 0, INITIAL);
  }

  /** The option at position `k` of a cluster is looked at: all before it are flags. */
  predicate ReadInCluster(spec: Spec, chain: seq<CommandSpec>, raw: string, k: nat)
    requires k < |raw|
  {
    && FindShort(spec, chain, raw[k]).Some?
    && forall j :: 0 <= j < k ==>
         FindShort(spec, chain, raw[j]).Some? && FindShort(spec, chain, raw[j]).value.mode == Forbidden
  }

  /** Every option looked at in a cluster was used already, and none is left waiting for a value. */
  predicate ClusterKnown(spec: Spec, c: Context, raw: string) {
    forall k :: 0 <= k < |raw| && ReadInCluster(spec, c.chain, raw, k) ==>
      var option := FindShort(spec, c.chain, raw[k]).value;
      option.long in c.used && !(k + 1 == |raw| && option.mode == Required)
  }

  lemma TrimOneDash(word: string)
    requires IsShort(word)
    ensures TrimDashes(word) == word[1..]
  {
    assert !StartsWith(word[1..], "-");
  }

  lemma {:induction false} ClusterOnlyAdds(spec: Spec, c: Context, raw: string)
    ensures c.used <= ConsumeShort(spec, c, raw).used
    decreases |raw|
  {
    if raw != [] && FindShort(spec, c.chain, raw[0]).Some? {
      var option := FindShort(spec, c.chain, raw[0]).value;
      if option.mode == Forbidden {
        ClusterOnlyAdds(spec, c.(used := c.used + {option.long}), raw[1..]);
      }
    }
  }

  lemma FlagThenRest(spec: Spec, c: Context, raw: string)
    requires raw != [] && FindShort(spec, c.chain, raw[0]).Some?
    requires FindShort(spec, c.chain, raw[0]).value.mode == Forbidden
    ensures ClusterKnown(spec, c, raw) <==>
      FindShort(spec, c.chain, raw[0]).value.long in c.used && ClusterKnown(spec, c, raw[1..])
  {
    forall k | 0 <= k < |raw| - 1
      ensures ReadInCluster(spec, c.chain, raw[1..], k) <==> ReadInCluster(spec, c.chain, raw, k + 1)
    {
      assert forall j :: 0 <= j < k ==> raw[1..][j] == raw[j + 1];
    }
    assert ReadInCluster(spec, c.chain, raw, 0);
    if ClusterKnown(spec, c, raw) {
      forall k | 0 <= k < |raw[1..]| && ReadInCluster(spec, c.chain, raw[1..], k)
        ensures var option := FindShort(spec, c.chain, raw[1..][k]).value;
          option.long in c.used && !(k + 1 == |raw[1..]| && option.mode == Required)
      {
        assert ReadInCluster(spec, c.chain, raw, k + 1) && raw[1..][k] == raw[k + 1];
      }
    }
    if FindShort(spec, c.chain, raw[0]).value.long in c.used && ClusterKnown(spec, c, raw[1..]) {
      forall k | 0 <= k < |raw| && ReadInCluster(spec, c.chain, raw, k)
        ensures var option := FindShort(spec, c.chain, raw[k]).value;
          option.long in c.used && !(k + 1 == |raw| && option.mode == Required)
      {
        if k > 0 {
          assert ReadInCluster(spec, c.chain, raw[1..], k - 1) && raw[1..][k - 1] == raw[k];
        }
      }
    }
  }

  lemma {:induction false} ClusterUnchanged(spec: Spec, c: Context, raw: string)
    requires c.pending.None?
    ensures ConsumeShort(spec, c, raw) == c <==> ClusterKnown(spec, c, raw)
    decreases |raw|
  {
    if raw != [] && FindShort(spec, c.chain, raw[0]).Some? {
      var option := FindShort(spec, c.chain, raw[0]).value;
      assert ReadInCluster(spec, c.chain, raw, 0);
      if option.mode == Forbidden {
        ClusterOnlyAdds(spec, c.(used := c.used + {option.long}), raw[1..]);
        FlagThenRest(spec, c, raw);
        if option.long in c.used {
          assert c.used + {option.long} == c.used;
          ClusterUnchanged(spec, c, raw[1..]);
        }
      } else {
        assert forall k :: 0 < k < |raw| ==> !ReadInCluster(spec, c.chain, raw, k);
        assert c.used + {option.long} == c.used <==> option.long in c.used;
      }
    } else {
      assert forall k :: 0 <= k < |raw| ==> !ReadInCluster(spec, c.chain, raw, k);
    }
  }

  /** Which words the completer passes over: never a plain one or a bare `--`; a long option exactly when it is unknown,
      or used already and not left waiting for a value; a cluster exactly when it is not read as a negative number and
      every option looked at in it was used already, with none left waiting. */
  lemma IgnoredWords(spec: Spec, c: Context, word: string)
    requires c.pending.None? && !c.passthrough
    ensures !StartsWith(word, "-") || word == "-" || word == "--" ==> !Ignores(spec, c, word)
    ensures StartsWith(word, "--") && word != "--" ==>
      var (name, inline) := SplitOnce(word[2..]);
      var found := FindLong(spec, c.chain, name);
      Ignores(spec, c, word) <==>
        found.None? || (found.value.long in c.used && !(found.value.mode == Required && inline.None?))
    ensures IsShort(word) ==>
      (Ignores(spec, c, word) <==>
         !AcceptsNegative(spec, c.chain, c.positionals, word) && ClusterKnown(spec, c, word[1..]))
  {
    if IsShort(word) {
      TrimOneDash(word);
      ClusterUnchanged(spec, c, word[1..]);
    }
    if StartsWith(word, "--") && word != "--" {
      var (name, inline) := SplitOnce(word[2..]);
      var found := FindLong(spec, c.chain, name);
      if found.Some? {
        assert c.used + {found.value.long} == c.used <==> found.value.long in c.used;
      }
    }
  }

  // --------------------------------------------------------------------------
  // Specifications without separate optional values
  // --------------------------------------------------------------------------

  ghost predicate ChainAttached(spec: Spec, chain: seq<CommandSpec>) {
    && (forall o :: o in VisibleOptions(spec, chain) ==> !Detachable(o))
    && (forall c :: c in Commands(spec, chain) ==> ScopeAttached(c.options, c.commands))
  }

  lemma EnteringStaysAttached(spec: Spec, chain: seq<CommandSpec>, word: string)
    requires ChainAttached(spec, chain)
    requires FirstMatch(Commands(spec, chain), word).Some?
    ensures ChainAttached(spec, chain + [FirstMatch(Commands(spec, chain), word).value])
  {
    MatchIsListed(Commands(spec, chain), word);
    var command := FirstMatch(Commands(spec, chain), word).value;
    assert (chain + [command])[..|chain|] == chain;
  }

  lemma {:induction false} ClusterKeepsChain(spec: Spec, words: seq<string>, index: nat, k: nat, s: State)
    requires index < |words| && (forall o :: o in VisibleOptions(spec, s.chain) ==> !Detachable(o))
    ensures !ClusterTakesNext(spec, s.chain, words, index, k)
    ensures ParseShort(spec, words, index, k, s).Ok? ==> ParseShort(spec, words, index, k, s).value.0.chain == s.chain
    decreases |words[index]| - k
  {
    var word := words[index];
    if k < |word| && FindShort(spec, s.chain, word[k]).Some? {
      var option := FindShort(spec, s.chain, word[k]).value;
      FoundIsVisible(VisibleOptions(spec, s.chain), "", word[k]);
      if option.mode == Forbidden {
        ClusterKeepsChain(spec, words, index, k + 1, s);
        var taken := OptionValue(words, index, Remainder(word, k), option, true);
        if taken.Ok? && PushOption(s, option, taken.value.0).Ok? {
          ClusterKeepsChain(spec, words, index, k + 1, PushOption(s, option, taken.value.0).value);
        }
      }
    }
  }

  lemma AttachedTurn(spec: Spec, words: seq<string>, index: nat, s: State)
    requires index < |words| && ChainAttached(spec, s.chain)
    ensures !TakesDetached(spec, words, index, s)
    ensures ParseWord(spec, words, index, s).Ok? ==> ChainAttached(spec, ParseWord(spec, words, index, s).value.0.chain)
  {
    var word := words[index];
    if StartsWith(word, "--") {
      FoundIsVisible(VisibleOptions(spec, s.chain), SplitOnce(word[2..]).0, 'x');
    } else if IsShort(word) && !AcceptsNegative(spec, s.chain, |s.positionals|, word) {
      ClusterKeepsChain(spec, words, index, 1, s);
    } else if s.positionals == [] && FirstMatch(Commands(spec, s.chain), word).Some? {
      EnteringStaysAttached(spec, s.chain, word);
    }
  }

  lemma {:induction false} AttachedFrom(spec: Spec, words: seq<string>, index: nat, s: State)
    requires index <= |words| && ChainAttached(spec, s.chain)
    ensures DetachedIgnored(spec, words, index, s)
    decreases |words| - index
  {
    if index < |words| && words[index] != "--" && ParseWord(spec, words, index, s).Ok? {
      AttachedTurn(spec, words, index, s);
      WordAdvances(spec, words, index, s);
      var (after, next) := ParseWord(spec, words, index, s).value;
      AttachedFrom(spec, words, next, after);
    }
  }

  /** A specification without such options never divides the readers. */
  lemma AttachedAgrees(spec: Spec, words: seq<string>)
    requires Attached(spec)
    ensures DetachedIgnored(spec, words, 0, INITIAL)
  {
    AttachedFrom(spec, words, 0, INITIAL);
  }

  // --------------------------------------------------------------------------
  // A missing last value is what the completer waits for
  // --------------------------------------------------------------------------

  /** Whether `result` is what pushing `option` with value `v` last gives, from a state the completer sees as `c`. */
  ghost predicate CompletedBy(result: Parsed<(State, nat)>, c: Context, option: OptionSpec, v: string) {
    match result
    case Ok((after, _)) =>
      && Seen(after) == c.(pending := None)
      && after.options != [] && after.options[|after.options| - 1] == ParsedOption(option.long, Some(v))
    case Err(kind) => kind == DuplicateOption || kind == InvalidValue
  }

  /** `before` waits for the value of `option` at the end of `words`; `v` would complete it. */
  ghost predicate Waiting(spec: Spec, c: Context, option: OptionSpec) {
    option.mode == Required && c.pending == Some(option) && FindLong(spec, c.chain, option.long).Some?
  }

  lemma {:induction false} LastLongExists(options: seq<OptionSpec>, option: OptionSpec)
    requires option in options
    ensures LastLong(options, option.long).Some?
  {
    if options[|options| - 1].long != option.long {
      var i :| 0 <= i < |options| && options[i] == option;
      assert options[..|options| - 1][i] == option;
      LastLongExists(options[..|options| - 1], option);
    }
  }

  lemma {:induction false} ClusterExtended(spec: Spec, words: seq<string>, index: nat, k: nat, s: State, v: string)
    requires index < |words| && k <= |words[index]|
    ensures var more, here := ParseShort(spec, words + [v], index, k, s), ParseShort(spec, words, index, k, s);
      && (here.Ok? && index + 1 < |words| ==> more == here)
      && (here == Err(MissingValue) ==>
            && index + 1 == |words|
            && (more.Ok? ==> more.value.1 == |words| + 1)
            && var c := ConsumeShort(spec, Seen(s), words[index][k..]);
               c.pending.Some? && Waiting(spec, c, c.pending.value) && !c.passthrough
               && CompletedBy(more, c, c.pending.value, v))
    decreases |words[index]| - k
  {
    var word := words[index];
    if k < |word| {
      var raw := word[k..];
      assert raw[0] == word[k] && raw[1..] == word[k + 1..];
      var found := FindShort(spec, s.chain, word[k]);
      if found.Some? {
        var option := found.value;
        FoundIsVisible(VisibleOptions(spec, s.chain), "", word[k]);
        LastLongExists(VisibleOptions(spec, s.chain), option);
        var taken := OptionValue(words, index, Remainder(word, k), option, true);
        if taken.Ok? {
          var pushed := PushOption(s, option, taken.value.0);
          if pushed.Ok? && option.mode == Forbidden {
            PushNames(s, option, taken.value.0);
            ClusterExtended(spec, words, index, k + 1, pushed.value, v);
          }
        } else if PushOption(s, option, Some(v)).Ok? {
          PushNames(s, option, Some(v));
        }
      }
    }
  }

  lemma LongExtended(spec: Spec, words: seq<string>, index: nat, s: State, v: string)
    requires index < |words| && words[index] != "--" && StartsWith(words[index], "--")
    ensures var more, here := ParseWord(spec, words + [v], index, s), ParseWord(spec, words, index, s);
      && (here.Ok? && index + 1 < |words| ==> more == here)
      && (here == Err(MissingValue) ==>
            && index + 1 == |words|
            && (more.Ok? ==> more.value.1 == |words| + 1)
            && var (c, stop) := Consume(spec, Seen(s), words[index]);
               !stop && c.pending.Some? && Waiting(spec, c, c.pending.value) && !c.passthrough
               && CompletedBy(more, c, c.pending.value, v))
  {
    var (name, inline) := SplitOnce(words[index][2..]);
    var found := FindLong(spec, s.chain, name);
    if name != [] && found.Some? {
      FoundIsVisible(VisibleOptions(spec, s.chain), name, 'x');
      if OptionValue(words, index, inline, found.value, false).Err? && PushOption(s, found.value, Some(v)).Ok? {
        PushNames(s, found.value, Some(v));
      }
    }
  }

  lemma WordExtended(spec: Spec, words: seq<string>, index: nat, s: State, v: string)
    requires index < |words| && words[index] != "--"
    ensures var more, here := ParseWord(spec, words + [v], index, s), ParseWord(spec, words, index, s);
      && (here.Ok? && index + 1 < |words| ==> more == here)
      && (here == Err(MissingValue) ==>
            && index + 1 == |words|
            && (more.Ok? ==> more.value.1 == |words| + 1)
            && var (c, stop) := Consume(spec, Seen(s), words[index]);
               !stop && c.pending.Some? && Waiting(spec, c, c.pending.value) && !c.passthrough
               && CompletedBy(more, c, c.pending.value, v))
  {
    var word := words[index];
    if StartsWith(word, "--") {
      LongExtended(spec, words, index, s, v);
    } else if IsShort(word) && !AcceptsNegative(spec, s.chain, |s.positionals|, word) {
      assert TrimDashes(word) == word[1..];
      ClusterExtended(spec, words, index, 1, s, v);
    }
  }

  lemma {:induction false} MissingIsPending(spec: Spec, words: seq<string>, index: nat, s: State, v: string)
    requires index <= |words| && DetachedIgnored(spec, words, index, s)
    requires ParseWords(spec, words, index, s) == Err(MissingValue)
    ensures var c := Analyze(spec, words, index, Seen(s));
      && c.pending.Some? && Waiting(spec, c, c.pending.value) && !c.passthrough
      && CompletedBy(ParseWords(spec, words + [v], index, s), c, c.pending.value, v)
    decreases |words| - index
  {
    WordExtended(spec, words, index, s, v);
    if ParseWord(spec, words, index, s).Ok? {
      TurnAnalyzed(spec, words, index, s);
      WordAdvances(spec, words, index, s);
      var (after, next) := ParseWord(spec, words, index, s).value;
      MissingIsPending(spec, words, next, after, v);
    }
  }

  /** When the parser's loop stops only because the last option lacks its value, that option is the completer's
      pending one: any further word becomes its value, or is refused as a duplicate or an invalid value. */
  lemma MissingValueIsPendingOption(spec: Spec, words: seq<string>, v: string)
    requires DetachedIgnored(spec, words, 0, INITIAL) && ParseWords(spec, words, 0, INITIAL) == Err(MissingValue)
    ensures var c := Analyze(spec, words, 0, EMPTY);
      && c.pending.Some? && c.pending.value.mode == Required
      && match ParseWords(spec, words + [v], 0, INITIAL)
         case Ok((after, _)) =>
           && after.options != []
           && after.options[|after.options| - 1] == ParsedOption(c.pending.value.long, Some(v))
           && (c.chain, c.positionals, c.used) == (after.chain, |after.positionals|, Names(after.options))
         case Err(kind) => kind == DuplicateOption || kind == InvalidValue
  {
    assert Seen(INITIAL) == EMPTY;
    MissingIsPending(spec, words, 0, INITIAL, v);
  }

  lemma {:induction false} NoEquals(raw: string)
    requires '=' !in raw
    ensures SplitOnce(raw) == (raw, None)
  {
  }

  /** Inputs on which the readers disagree: every root option with a separate optional value, followed by an accepted
      value that is neither an option nor a command. Only the parser takes the second word as the value. */
  lemma DetachedValueDisagrees(spec: Spec, option: OptionSpec, v: string)
    requires option.long != [] && '=' !in option.long
    requires FindLong(spec, [], option.long) == Some(option) && Detachable(option)
    requires Accepts(v, option.valueType, option.possible)
    requires v != [] && v[0] != '-' && FirstMatch(spec.commands, v).None?
    ensures var words := ["--" + option.long, v];
      && ParseWords(spec, words, 0, INITIAL) == Ok((State([], [], [ParsedOption(option.long, Some(v))], [], []), 2))
      && Analyze(spec, words, 0, EMPTY).positionals == 1
  {
    var words := ["--" + option.long, v];
    assert words[0][..2] == "--" && words[0][2..] == option.long && |words[0]| > 2;
    NoEquals(option.long);
    DetachedParses(spec, words, option, v);
    DetachedCounts(spec, words, option, v);
  }

  lemma DetachedParses(spec: Spec, words: seq<string>, option: OptionSpec, v: string)
    requires |words| == 2 && words[0] != "--" && StartsWith(words[0], "--") && words[0][2..] == option.long && words[1] == v
    requires SplitOnce(option.long) == (option.long, None) && option.long != []
    requires FindLong(spec, [], option.long) == Some(option) && Detachable(option)
    requires Accepts(v, option.valueType, option.possible)
    ensures ParseWords(spec, words, 0, INITIAL) == Ok((State([], [], [ParsedOption(option.long, Some(v))], [], []), 2))
  {
    var after := State([], [], [ParsedOption(option.long, Some(v))], [], []);
    assert INITIAL.options + [ParsedOption(option.long, Some(v))] == after.options;
    assert ParseWord(spec, words, 0, INITIAL) == Ok((after, 2));
    assert ParseWords(spec, words, 2, after) == Ok((after, 2));
  }

  lemma DetachedCounts(spec: Spec, words: seq<string>, option: OptionSpec, v: string)
    requires |words| == 2 && words[0] != "--" && StartsWith(words[0], "--") && words[0][2..] == option.long && words[1] == v
    requires SplitOnce(option.long) == (option.long, None)
    requires FindLong(spec, [], option.long) == Some(option) && Detachable(option)
    requires v != [] && v[0] != '-' && FirstMatch(spec.commands, v).None?
    ensures Analyze(spec, words, 0, EMPTY).positionals == 1
  {
    var after := ConsumeLong(spec, EMPTY, option.long);
    assert Consume(spec, EMPTY, words[0]) == (after, false);
    assert Consume(spec, after, words[1]) == (after.(positionals := 1), false);
    assert Analyze(spec, words, 1, after) == Analyze(spec, words, 2, after.(positionals := 1));
  }
}
