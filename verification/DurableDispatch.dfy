/** The command controller over its file store: restarts, and crashes inside an append, between and during commands. */
module DurableDispatch {
  import opened Prelude
  import opened TextFile
  import opened IdempotencyRecords
  import opened IdempotencyLog
  import Controller = CommandController

  /** The store's file and the controller's world; the world's store is what the file store holds in memory. */
  datatype State = State(file: Bytes, world: Controller.World)

  datatype Step =
    | Run(step: Controller.Step)
    | Restart
    | CrashDuring(step: Controller.Step, bytes: nat)

  /** Key whose record a step of the controller may change. */
  function KeyOf(w: Controller.World, step: Controller.Step): Option<string> {
    match step
    case Begin(_, command, _) => command.key
    case Finish(index, _, _) => if index < |w.inFlight| then w.inFlight[index].key else None
  }

  /** The record a step appends, if it stores one. */
  function Appended(before: Seen, after: Seen, key: Option<string>): Option<Record> {
    if key.Some? && key.value in after && (key.value !in before || before[key.value] != after[key.value])
    then Some(after[key.value]) else None
  }

  /** What the change at one key does to the file: a new record is appended, a removed one leads to a rewrite. */
  ghost predicate FileFollows(f: Format, file: Bytes, before: Seen, after: Seen, key: Option<string>, file': Bytes) {
    var appended := Appended(before, after, key);
    if appended.Some? then file' == file + f.toLine(appended.value) + [NEWLINE]
    else if after == before then file' == file
    else Rewritten(f, Memory(after, file'))
  }

  /** What a new process finds: nothing executing, the store as opened, and every completion and event there ever was. */
  ghost predicate Reborn(f: Format, file: Bytes, w: Controller.World, s': State) {
    && Opened(f, file, Memory(s'.world.store, s'.file))
    && s'.world.inFlight == [] && s'.world.completed == w.completed && s'.world.batches == w.batches
  }

  /** An interrupted second phase whose line is complete on disk has completed, though it was never acknowledged and
      emitted nothing. */
  function Interrupted(env: Controller.Env, f: Format, w: Controller.World, step: Controller.Step, bytes: nat)
    : Controller.World
  {
    var after := Controller.Exec(env, w, step);
    var appended := Appended(w.store, after.store, KeyOf(w, step));
    if appended.Some? && bytes == |f.toLine(appended.value)| + 1 then after.(batches := w.batches) else w
  }

  ghost predicate Next(f: Format, env: Controller.Env, s: State, step: Step, s': State) {
    match step
    case Run(c) =>
      && s'.world == Controller.Exec(env, s.world, c)
      && FileFollows(f, s.file, s.world.store, s'.world.store, KeyOf(s.world, c), s'.file)
    case Restart => Reborn(f, s.file, s.world, s')
    case CrashDuring(c, bytes) =>
      var appended := Appended(s.world.store, Controller.Exec(env, s.world, c).store, KeyOf(s.world, c));
      && appended.Some?
      && var line := f.toLine(appended.value) + [NEWLINE];
      && bytes <= |line| && Reborn(f, s.file + line[..bytes], Interrupted(env, f, s.world, c, bytes), s')
  }

  ghost predicate StepsAt(f: Format, env: Controller.Env, states: seq<State>, steps: seq<Step>, i: nat)
    requires i < |steps| < |states|
  {
    Next(f, env, states[i], steps[i], states[i + 1])
  }

  /** A sequence of steps, under one key validator. */
  ghost predicate AreSteps(f: Format, env: Controller.Env, states: seq<State>, steps: seq<Step>) {
    && |states| == |steps| + 1 && (forall k: string :: env.validKey(k) <==> f.validKey(k))
    && forall i :: 0 <= i < |steps| ==> StepsAt(f, env, states, steps, i)
  }

  /** A run on a store whose file is new. */
  ghost predicate IsRun(f: Format, env: Controller.Env, states: seq<State>, steps: seq<Step>) {
    AreSteps(f, env, states, steps) && states[0] == State(FileOf(f, []), Controller.START)
  }

  /** The controller's invariant, and a file that shows exactly the resolved records. */
  ghost predicate Sound(f: Format, env: Controller.Env, s: State) {
    && Controller.Sound(env, s.world) && KeysValid(f, s.world.store)
    && Reads(f, s.file, ResolvedIn(s.world.store))
  }

  /** A process that dies keeps the controller's invariant: what was executing is forgotten with its reservations. */
  lemma RebirthKeepsControllerSound(env: Controller.Env, w: Controller.World)
    requires Controller.Sound(env, w)
    ensures Controller.Sound(env, Controller.World(ResolvedIn(w.store), [], w.completed, w.batches))
  {
    var w' := Controller.World(ResolvedIn(w.store), [], w.completed, w.batches);
    forall c | c in w'.completed ensures Controller.Recorded(env, w'.store, c) {
      assert Controller.Recorded(env, w.store, c);
    }
    forall k | k in w'.store ensures Controller.Accounted(w', k) {
      assert Controller.Accounted(w, k);
      forall i | 0 <= i < |w.inFlight| ensures w.inFlight[i].key != Some(k) {
        assert Controller.Reserved(env, w.store, w.inFlight[i]);
      }
    }
  }

  lemma ExecKeepsControllerSound(env: Controller.Env, w: Controller.World, step: Controller.Step)
    requires Controller.Sound(env, w)
    ensures Controller.Sound(env, Controller.Exec(env, w, step))
  {
    match step
    case Begin(_, _, _) => Controller.BeginKeepsSound(env, w, step);
    case Finish(index, _, _) =>
      if index < |w.inFlight| {
        Controller.FinishKeepsSound(env, w, step);
      }
  }

  /** A step changes the store at its own key only, and stores valid records under their keys. */
  lemma ExecChangesOneKey(f: Format, env: Controller.Env, w: Controller.World, step: Controller.Step)
    requires Controller.Sound(env, w) && KeysValid(f, w.store)
    requires forall k: string :: env.validKey(k) <==> f.validKey(k)
    ensures var after := Controller.Exec(env, w, step).store;
      && KeysValid(f, after)
      && var appended := Appended(w.store, after, KeyOf(w, step));
      && (appended.Some? ==> f.validKey(appended.value.key) && after == w.store[appended.value.key := appended.value]
                             && (appended.value.status.Pending? ==> appended.value.key !in w.store))
      && (appended.None? && after != w.store ==> KeyOf(w, step).Some? && after == w.store - {KeyOf(w, step).value})
  {
    Controller.NoServerErrors(env, w);
    var after := Controller.Exec(env, w, step).store;
    match step
    case Begin(_, _, _) =>
    case Finish(index, _, _) =>
      if index < |w.inFlight| {
        assert Controller.Reserved(env, w.store, w.inFlight[index]);
      }
  }

  lemma ResolvedAfterAppend(seen: Seen, record: Record)
    requires record.status.Pending? ==> record.key !in seen
    ensures ResolvedIn(seen[record.key := record]) == WithRecord(ResolvedIn(seen), record)
  {
  }

  lemma RunKeepsSound(f: Format, env: Controller.Env, s: State, c: Controller.Step, s': State)
    requires f.Lawful() && Sound(f, env, s) && Next(f, env, s, Run(c), s')
    requires forall k: string :: env.validKey(k) <==> f.validKey(k)
    ensures Sound(f, env, s')
  {
    var store, after := s.world.store, s'.world.store;
    var appended := Appended(store, after, KeyOf(s.world, c));
    ExecKeepsControllerSound(env, s.world, c);
    ExecChangesOneKey(f, env, s.world, c);
    if appended.Some? {
      AppendedReads(f, s.file, ResolvedIn(store), appended.value);
      ResolvedAfterAppend(store, appended.value);
    } else if after != store {
      RewrittenReads(f, Memory(after, s'.file));
    }
  }

  lemma RebornFrom(f: Format, env: Controller.Env, file: Bytes, w: Controller.World, s': State)
    requires f.Lawful() && Controller.Sound(env, w) && Reborn(f, file, w, s') && f.Header() <= file
    requires Load(f, file).value.0 == ResolvedIn(w.store)
    ensures Sound(f, env, s') && s'.world.store == ResolvedIn(w.store)
  {
    RebirthKeepsControllerSound(env, w);
    OpenedReads(f, file, Memory(s'.world.store, s'.file));
    assert ResolvedIn(s'.world.store) == s'.world.store;
  }

  lemma FewerBatches(env: Controller.Env, w: Controller.World, batches: seq<Controller.Command>)
    requires Controller.Sound(env, w) && batches <= w.batches
    ensures Controller.Sound(env, w.(batches := batches))
  {
    forall c | c in batches ensures c in w.batches {
      var i :| 0 <= i < |batches| && batches[i] == c;
      assert w.batches[i] == c;
    }
    forall k | k in w.store ensures Controller.Accounted(w.(batches := batches), k) {
      assert Controller.Accounted(w, k);
    }
  }

  lemma CrashKeepsSound(f: Format, env: Controller.Env, s: State, c: Controller.Step, bytes: nat, s': State)
    requires f.Lawful() && Sound(f, env, s) && Next(f, env, s, CrashDuring(c, bytes), s')
    requires forall k: string :: env.validKey(k) <==> f.validKey(k)
    ensures Sound(f, env, s')
  {
    var store := s.world.store;
    var after := Controller.Exec(env, s.world, c);
    var record := Appended(store, after.store, KeyOf(s.world, c)).value;
    var line := f.toLine(record) + [NEWLINE];
    ExecChangesOneKey(f, env, s.world, c);
    ExecKeepsControllerSound(env, s.world, c);
    CrashedAppendLoads(f, s.file, ResolvedIn(store), record, bytes);
    ResolvedAfterAppend(store, record);
    HeaderStays(f.Header(), s.file, line[..bytes]);
    if bytes == |line| {
      ExecKeepsBatches(env, s.world, c);
      FewerBatches(env, after, s.world.batches);
    }
    RebornFrom(f, env, s.file + line[..bytes], Interrupted(env, f, s.world, c, bytes), s');
  }

  lemma ExecKeepsBatches(env: Controller.Env, w: Controller.World, step: Controller.Step)
    ensures w.batches <= Controller.Exec(env, w, step).batches
  {
  }

  lemma HeaderStays(header: Bytes, file: Bytes, more: Bytes)
    requires header <= file
    ensures header <= file + more
  {
  }

  lemma RestartKeepsSound(f: Format, env: Controller.Env, s: State, s': State)
    requires f.Lawful() && Sound(f, env, s) && Reborn(f, s.file, s.world, s')
    ensures Sound(f, env, s')
  {
    ReadableLoads(f, s.file, ResolvedIn(s.world.store));
    RebornFrom(f, env, s.file, s.world, s');
  }

  lemma StepKeepsSound(f: Format, env: Controller.Env, s: State, step: Step, s': State)
    requires f.Lawful() && Sound(f, env, s) && Next(f, env, s, step, s')
    requires forall k: string :: env.validKey(k) <==> f.validKey(k)
    ensures Sound(f, env, s')
  {
    match step
    case Run(c) => RunKeepsSound(f, env, s, c, s');
    case Restart => RestartKeepsSound(f, env, s, s');
    case CrashDuring(c, bytes) => CrashKeepsSound(f, env, s, c, bytes, s');
  }

  lemma StartIsSound(f: Format, env: Controller.Env)
    requires f.Lawful()
    ensures Sound(f, env, State(FileOf(f, []), Controller.START))
  {
    WholeFileReads(f, []);
    assert ResolvedIn(map[]) == map[];
  }

  lemma RunStepKeepsSound(f: Format, env: Controller.Env, states: seq<State>, steps: seq<Step>, i: nat)
    requires f.Lawful() && AreSteps(f, env, states, steps) && i < |steps| && Sound(f, env, states[i])
    ensures Sound(f, env, states[i + 1])
  {
    assert StepsAt(f, env, states, steps, i);
    StepKeepsSound(f, env, states[i], steps[i], states[i + 1]);
  }

  lemma {:induction false} StepsKeepSound(f: Format, env: Controller.Env, states: seq<State>, steps: seq<Step>, n: nat)
    requires f.Lawful() && AreSteps(f, env, states, steps) && n <= |steps| && Sound(f, env, states[0])
    ensures Sound(f, env, states[n])
  {
    if n > 0 {
      StepsKeepSound(f, env, states, steps, n - 1);
      RunStepKeepsSound(f, env, states, steps, n - 1);
    }
  }

  /** Over every run with restarts and torn appends: the controller's invariant, and a file that shows its outcomes. */
  lemma RunsAreSound(f: Format, env: Controller.Env, states: seq<State>, steps: seq<Step>, n: nat)
    requires f.Lawful() && IsRun(f, env, states, steps) && n <= |steps|
    ensures Sound(f, env, states[n])
  {
    StartIsSound(f, env);
    StepsKeepSound(f, env, states, steps, n);
  }

  /** Across restarts and crashes at most one execution per key ever completes, and a completed key never executes
      again. */
  lemma CompletesOnceAcrossRestarts(
      f: Format, env: Controller.Env, states: seq<State>, steps: seq<Step>, n: nat, i: nat, j: nat)
    requires f.Lawful() && IsRun(f, env, states, steps) && n <= |steps|
    requires j < |states[n].world.completed| && states[n].world.completed[j].command.key.Some?
    ensures var w := states[n].world;
      && (i < j ==> w.completed[i].command.key != w.completed[j].command.key)
      && (i < |w.inFlight| ==> w.inFlight[i].key != w.completed[j].command.key)
  {
    RunsAreSound(f, env, states, steps, n);
    var w := states[n].world;
    assert Controller.CompletedCommands(w.completed)[j] == w.completed[j].command;
    assert i < j ==> Controller.CompletedCommands(w.completed)[i] == w.completed[i].command;
    assert Controller.Recorded(env, w.store, w.completed[j]);
    assert i < |w.inFlight| ==> Controller.Reserved(env, w.store, w.inFlight[i]);
  }

  lemma ExecKeepsCompletions(env: Controller.Env, w: Controller.World, step: Controller.Step)
    ensures w.completed <= Controller.Exec(env, w, step).completed
  {
  }

  lemma StepKeepsCompletions(f: Format, env: Controller.Env, s: State, step: Step, s': State)
    requires Next(f, env, s, step, s')
    ensures s.world.completed <= s'.world.completed
  {
    if step.Run? || step.CrashDuring? {
      ExecKeepsCompletions(env, s.world, step.step);
    }
  }

  /** What has completed stays completed, in the same order. */
  lemma {:induction false} CompletionsStay(
      f: Format, env: Controller.Env, states: seq<State>, steps: seq<Step>, m: nat, n: nat)
    requires IsRun(f, env, states, steps) && m <= n <= |steps|
    ensures states[m].world.completed <= states[n].world.completed
    decreases n - m
  {
    if m < n {
      CompletionsStay(f, env, states, steps, m, n - 1);
      RunStepKeepsCompletions(f, env, states, steps, n - 1);
    }
  }

  lemma RunStepKeepsCompletions(f: Format, env: Controller.Env, states: seq<State>, steps: seq<Step>, i: nat)
    requires IsRun(f, env, states, steps) && i < |steps|
    ensures states[i].world.completed <= states[i + 1].world.completed
  {
    assert StepsAt(f, env, states, steps, i);
    StepKeepsCompletions(f, env, states[i], steps[i], states[i + 1]);
  }

  /** Whatever completed, in this process or an earlier one, is from then on replayed for the same payload digest and
      conflicts for another one. */
  lemma ReplaysAcrossRestarts(
      f: Format, env: Controller.Env, states: seq<State>, steps: seq<Step>, m: nat, n: nat, j: nat,
      lifecycle: Controller.Lifecycle, command: Controller.Command, now: u64)
    requires f.Lawful() && env.Lawful() && IsRun(f, env, states, steps) && m <= n <= |steps|
    requires j < |states[m].world.completed| && command.key.Some?
    requires lifecycle == Controller.Running || lifecycle == Controller.Degraded
    requires states[m].world.completed[j].command.key == command.key
    ensures var first := states[m].world.completed[j];
      Controller.PreDispatch(env, states[n].world.store, lifecycle, command, now) ==
        (states[n].world.store,
         if env.hash(command.payload) == env.hash(first.command.payload) then Controller.Answered(first.result)
         else Controller.Refused(Controller.IdempotencyConflict))
  {
    CompletionsStay(f, env, states, steps, m, n);
    RunsAreSound(f, env, states, steps, n);
    Controller.RecordedReplays(env, states[n].world, j, lifecycle, command, now);
  }
}
