/** Idempotent command dispatch: a two-phase protocol around handler execution, over a store without expiry. */
module CommandController {
  import opened Prelude
  import opened IdempotencyRecords

  datatype Event = Event(id: string, trace: Option<string>)

  datatype Command = Command(key: Option<string>, payload: Bytes, trace: Option<string>)

  datatype CommandResult = CommandResult(accepted: bool, events: seq<Event>, message: Option<string>)

  datatype Lifecycle = Running | Degraded | Restricted | NotReady

  datatype DispatchError = IdempotencyConflict | IdempotencyPending | InvalidKey | StoreIo | HandlerFailed

  /** Outcome of the first phase: run the handler, or answer without running it. */
  datatype Phase = Proceed | Answered(result: CommandResult) | Refused(error: DispatchError)

  type Store = map<string, Record>

  /** Payload digest, response serializer and key validator, which this model leaves abstract. */
  datatype Env = Env(
    hash: Bytes -> string,
    toText: CommandResult -> string,
    fromText: string -> Option<CommandResult>,
    validKey: string -> bool)
  {
    ghost predicate Lawful() {
      forall r: CommandResult :: toText(r) != "" && fromText(toText(r)) == Some(r)
    }
  }

  const ACCEPTED := CommandResult(true, [], None)

  function Rejected(message: string): CommandResult {
    CommandResult(false, [], Some(message))
  }

  function Rejection(lifecycle: Lifecycle): Option<CommandResult> {
    match lifecycle
    case Running => None
    case Degraded => None
    case Restricted => Some(Rejected("runtime is restricted"))
    case NotReady => Some(Rejected("runtime is not ready"))
  }

  /** First phase: lifecycle check, replay or refusal by key, and reservation of a new key. */
  function PreDispatch(env: Env, store: Store, lifecycle: Lifecycle, command: Command, now: u64): (Store, Phase) {
    var rejection := Rejection(lifecycle);
    if rejection.Some? then (store, Answered(rejection.value))
    else if command.key.None? then (store, Proceed)
    else
      var key := command.key.value;
      if key in store then
        var record := store[key];
        if record.requestHash != env.hash(command.payload) then (store, Refused(IdempotencyConflict))
        else if record.status.Pending? then (store, Refused(IdempotencyPending))
        else if record.status.responseStatus >= 400 then (store - {key}, Proceed)
        else if record.status.responseBody == "" then (store, Answered(ACCEPTED))
        else
          var replay := env.fromText(record.status.responseBody);
          if replay.None? then (store, Refused(StoreIo)) else (store, Answered(replay.value))
      else if !env.validKey(key) then (store, Refused(InvalidKey))
      else (store[key := Record(key, env.hash(command.payload), Pending, now)], Proceed)
  }

  /** Events of an accepted result, with the command's trace where they carry none. */
  function Emitted(command: Command, result: Result<CommandResult, DispatchError>): seq<Event> {
    if result.Ok? && result.value.accepted then
      seq(|result.value.events|, i requires 0 <= i < |result.value.events| =>
        var event := result.value.events[i];
        if event.trace.None? then event.(trace := command.trace) else event)
    else []
  }

  /** Second phase: an outcome is stored for replay, a failure frees the key. */
  function PostDispatch(env: Env, store: Store, command: Command, result: Result<CommandResult, DispatchError>, now: u64)
    : (Store, Result<seq<Event>, DispatchError>)
  {
    if command.key.None? then (store, Ok(Emitted(command, result)))
    else
      var key := command.key.value;
      if result.Err? then (store - {key}, Ok([]))
      else if !env.validKey(key) then (store, Err(InvalidKey))
      else
        var record := Record(key, env.hash(command.payload), Resolved(200, env.toText(result.value)), now);
        (store[key := record], Ok(Emitted(command, result)))
  }

  class RuntimeController {
    const env: Env
    var lifecycle: Lifecycle
    var store: Store
    var bus: seq<Event>

    constructor (env: Env)
      ensures this.env == env && lifecycle == NotReady && store == map[] && bus == []
    {
      this.env := env;
      lifecycle, store, bus := NotReady, map[], [];
    }

    method Pre(command: Command, now: u64) returns (phase: Phase)
      modifies this`store
      ensures (store, phase) == PreDispatch(env, old(store), lifecycle, command, now)
    {
      var rejection := Rejection(lifecycle);
      if rejection.Some? {
        return Answered(rejection.value);
      }
      if command.key.Some? {
        var key := command.key.value;
        var requestHash := env.hash(command.payload);
        if key in store {
          var record := store[key];
          if record.requestHash != requestHash {
            return Refused(IdempotencyConflict);
          }
          match record.status
          case Pending =>
            return Refused(IdempotencyPending);
          case Resolved(responseStatus, responseBody) =>
            if responseStatus >= 400 {
              store := store - {key};
              return Proceed;
            }
            if responseBody == "" {
              return Answered(ACCEPTED);
            }
            var replay := env.fromText(responseBody);
            if replay.None? {
              return Refused(StoreIo);
            }
            return Answered(replay.value);
        }
        if !env.validKey(key) {
          return Refused(InvalidKey);
        }
        store := store[key := Record(key, requestHash, Pending, now)];
      }
      phase := Proceed;
    }

    method Post(command: Command, result: Result<CommandResult, DispatchError>, now: u64)
      returns (done: Result<(), DispatchError>)
      modifies this`store, this`bus
      ensures var (after, emitted) := PostDispatch(env, old(store), command, result, now);
        && store == after
        && bus == old(bus) + (if emitted.Ok? then emitted.value else [])
        && done == (if emitted.Ok? then Ok(()) else Err(emitted.error))
    {
      if command.key.Some? {
        var key := command.key.value;
        match result {
          case Ok(value) =>
            if !env.validKey(key) {
              return Err(InvalidKey);
            }
            store := store[key := Record(key, env.hash(command.payload), Resolved(200, env.toText(value)), now)];
          case Err(_) =>
            store := store - {key};
        }
      }
      if result.Ok? && result.value.accepted {
        var events := result.value.events;
        var stamped: seq<Event> := [];
        for i := 0 to |events|
          invariant stamped == Emitted(command, result)[..i]
        {
          var event := events[i];
          stamped := stamped + [if event.trace.None? then event.(trace := command.trace) else event];
        }
        bus := bus + stamped;
      }
      done := Ok(());
    }
  }

  // --------------------------------------------------------------------------
  // Runs
  // --------------------------------------------------------------------------

  datatype Completion = Completion(command: Command, result: CommandResult)

  /** `inFlight` lists the commands whose handler is running, `completed` the outcomes that were Ok, and
      `batches` the commands whose events went to the bus, in order. */
  datatype World = World(store: Store, inFlight: seq<Command>, completed: seq<Completion>, batches: seq<Command>)

  const START := World(map[], [], [], [])

  datatype Step =
    | Begin(lifecycle: Lifecycle, command: Command, now: u64)
    | Finish(index: nat, result: Result<CommandResult, DispatchError>, now: u64)

  function Exec(env: Env, w: World, step: Step): World {
    match step
    case Begin(lifecycle, command, now) =>
      var (store, phase) := PreDispatch(env, w.store, lifecycle, command, now);
      w.(store := store, inFlight := if phase == Proceed then w.inFlight + [command] else w.inFlight)
    case Finish(index, result, now) =>
      if index >= |w.inFlight| then w
      else
        var command := w.inFlight[index];
        var (store, emitted) := PostDispatch(env, w.store, command, result, now);
        World(store,
              w.inFlight[..index] + w.inFlight[index + 1..],
              if result.Ok? then w.completed + [Completion(command, result.value)] else w.completed,
              if emitted.Ok? && emitted.value != [] then w.batches + [command] else w.batches)
  }

  function Run(env: Env, steps: seq<Step>): World {
    if steps == [] then START else Exec(env, Run(env, steps[..|steps| - 1]), steps[|steps| - 1])
  }

  lemma RunSnoc(env: Env, steps: seq<Step>, step: Step)
    ensures Run(env, []) == START && Run(env, steps + [step]) == Exec(env, Run(env, steps), step)
  {
    assert (steps + [step])[..|steps|] == steps;
  }

  /** An execution that ends leaves those in flight; its result, if it has one, is recorded, and its events, if any reach
      the bus. */
  lemma FinishedExecution(env: Env, w: World, index: nat, result: Result<CommandResult, DispatchError>, now: u64)
    requires index < |w.inFlight|
    ensures var command, after := w.inFlight[index], Exec(env, w, Finish(index, result, now));
      && after.inFlight == w.inFlight[..index] + w.inFlight[index + 1..]
      && after.completed == (if result.Ok? then w.completed + [Completion(command, result.value)] else w.completed)
      && (command.key.None? || env.validKey(command.key.value) ==>
            after.batches ==
              if result.Ok? && result.value.accepted && result.value.events != [] then w.batches + [command]
              else w.batches)
  {
  }

  /** Keys of the commands that carry one never repeat. */
  predicate DistinctKeys(commands: seq<Command>) {
    forall i, j :: 0 <= i < j < |commands| && commands[i].key.Some? ==> commands[i].key != commands[j].key
  }

  function CompletedCommands(completed: seq<Completion>): (commands: seq<Command>)
    ensures |commands| == |completed|
    ensures forall i :: 0 <= i < |completed| ==> commands[i] == completed[i].command
  {
    seq(|completed|, i requires 0 <= i < |completed| => completed[i].command)
  }

  /** The stored record of a key, seen from the execution that holds it. */
  ghost predicate Reserved(env: Env, store: Store, command: Command) {
    command.key.Some? ==>
      && env.validKey(command.key.value)
      && command.key.value in store
      && store[command.key.value].status == Pending
      && store[command.key.value].requestHash == env.hash(command.payload)
  }

  ghost predicate Recorded(env: Env, store: Store, c: Completion) {
    c.command.key.Some? ==>
      && c.command.key.value in store
      && store[c.command.key.value].status == Resolved(200, env.toText(c.result))
      && store[c.command.key.value].requestHash == env.hash(c.command.payload)
  }

  ghost predicate Sound(env: Env, w: World) {
    && DistinctKeys(w.inFlight)
    && DistinctKeys(CompletedCommands(w.completed))
    && DistinctKeys(w.batches)
    && (forall c :: c in w.inFlight ==> Reserved(env, w.store, c))
    && (forall c :: c in w.completed ==> Recorded(env, w.store, c))
    && (forall c :: c in w.batches ==> exists i :: 0 <= i < |w.completed| && w.completed[i].command == c)
    && (forall k :: k in w.store ==> Accounted(w, k))
  }

  /** A stored key belongs to an execution in flight or to a completed one. */
  ghost predicate Accounted(w: World, k: string) {
    || k in KeysOf(w.inFlight)
    || exists i :: 0 <= i < |w.completed| && w.completed[i].command.key == Some(k)
  }

  ghost function KeysOf(commands: seq<Command>): iset<string> {
    iset k: string | exists i :: 0 <= i < |commands| && commands[i].key == Some(k)
  }

  /** The branch on response statuses of 400 and above is dead: only 200 is ever stored. */
  lemma NoServerErrors(env: Env, w: World)
    requires Sound(env, w)
    ensures forall k :: k in w.store ==>
      w.store[k].status.Pending? || w.store[k].status.responseStatus == 200
  {
    forall k | k in w.store
      ensures w.store[k].status.Pending? || w.store[k].status.responseStatus == 200
    {
      assert Accounted(w, k);
      if i :| 0 <= i < |w.inFlight| && w.inFlight[i].key == Some(k) {
        assert Reserved(env, w.store, w.inFlight[i]);
      } else {
        var i :| 0 <= i < |w.completed| && w.completed[i].command.key == Some(k);
        assert Recorded(env, w.store, w.completed[i]);
      }
    }
  }

  /** A first phase that proceeds adds its command and, under a new key, a reservation. */
  lemma BeginStore(env: Env, w: World, step: Step)
    requires Sound(env, w) && step.Begin? && Exec(env, w, step).inFlight != w.inFlight
    ensures var after, key := Exec(env, w, step), step.command.key;
      && after == w.(store := after.store, inFlight := w.inFlight + [step.command])
      && Reserved(env, after.store, step.command)
      && (if key.None? then after.store == w.store
          else key.value !in w.store && after.store == w.store[key.value := after.store[key.value]])
  {
    NoServerErrors(env, w);
  }

  lemma BeginStoreKeepsAccounts(w: World, command: Command, after: World)
    requires after == w.(store := after.store, inFlight := w.inFlight + [command])
    requires forall k :: k in after.store ==> k in w.store || Some(k) == command.key
    requires forall k :: k in w.store ==> Accounted(w, k)
    ensures forall k :: k in after.store ==> Accounted(after, k)
  {
    forall k | k in after.store ensures Accounted(after, k) {
      assert after.inFlight[|w.inFlight|] == command;
      if Some(k) != command.key {
        assert Accounted(w, k);
        if i :| 0 <= i < |w.inFlight| && w.inFlight[i].key == Some(k) {
          assert after.inFlight[i].key == Some(k);
        }
      }
    }
  }

  lemma BeginKeepsSound(env: Env, w: World, step: Step)
    requires Sound(env, w) && step.Begin?
    ensures Sound(env, Exec(env, w, step))
  {
    var after := Exec(env, w, step);
    if after.inFlight == w.inFlight {
      NoServerErrors(env, w);
      assert after == w;
    } else {
      BeginStore(env, w, step);
      forall c | c in w.inFlight
        ensures Reserved(env, after.store, c) && (step.command.key.Some? ==> c.key != step.command.key)
      {
        assert Reserved(env, w.store, c);
      }
      forall c | c in w.completed ensures Recorded(env, after.store, c) {
        assert Recorded(env, w.store, c);
      }
      DistinctSnoc(w.inFlight, step.command);
      BeginStoreKeepsAccounts(w, step.command, after);
    }
  }

  /** The commands left when one execution finishes. */
  lemma Without(commands: seq<Command>, index: nat)
    requires index < |commands| && DistinctKeys(commands)
    ensures var rest := commands[..index] + commands[index + 1..];
      && DistinctKeys(rest)
      && (forall c :: c in rest ==> c in commands && (c.key.Some? ==> c.key != commands[index].key))
      && (forall k: string :: k in KeysOf(rest) <==> k in KeysOf(commands) && Some(k) != commands[index].key)
  {
    var rest := commands[..index] + commands[index + 1..];
    assert forall i :: 0 <= i < |rest| ==> rest[i] == commands[if i < index then i else i + 1];
    forall k: string ensures k in KeysOf(rest) <==> k in KeysOf(commands) && Some(k) != commands[index].key {
      if k in KeysOf(commands) && Some(k) != commands[index].key {
        var i :| 0 <= i < |commands| && commands[i].key == Some(k);
        assert rest[if i < index then i else i - 1].key == Some(k);
      }
    }
  }

  /** Only the finished command's key changes in the store. */
  lemma FinishStore(env: Env, w: World, step: Step)
    requires Sound(env, w) && step.Finish? && step.index < |w.inFlight|
    ensures var after, command := Exec(env, w, step), w.inFlight[step.index];
      && (forall k :: Some(k) != command.key ==> (k in after.store <==> k in w.store))
      && (forall k :: Some(k) != command.key && k in w.store ==> after.store[k] == w.store[k])
      && (step.result.Ok? ==> Recorded(env, after.store, Completion(command, step.result.value)))
      && (step.result.Err? && command.key.Some? ==> command.key.value !in after.store)
  {
    assert Reserved(env, w.store, w.inFlight[step.index]);
  }

  lemma DistinctSnoc(commands: seq<Command>, command: Command)
    requires DistinctKeys(commands)
    requires command.key.Some? ==> forall c :: c in commands ==> c.key != command.key
    ensures DistinctKeys(commands + [command])
  {
    assert forall i :: 0 <= i < |commands| ==> commands[i] in commands;
  }

  lemma FinishCompleted(env: Env, w: World, step: Step)
    requires Sound(env, w) && step.Finish? && step.index < |w.inFlight|
    ensures var after := Exec(env, w, step);
      && DistinctKeys(CompletedCommands(after.completed))
      && (forall c :: c in after.completed ==> Recorded(env, after.store, c))
  {
    var after, command := Exec(env, w, step), w.inFlight[step.index];
    FinishStore(env, w, step);
    assert Reserved(env, w.store, command);
    forall c | c in w.completed
      ensures command.key.Some? ==> c.command.key != command.key
    {
      assert Recorded(env, w.store, c);
    }
    if step.result.Ok? {
      DistinctSnoc(CompletedCommands(w.completed), command);
      assert CompletedCommands(after.completed) == CompletedCommands(w.completed) + [command];
    }
    forall c | c in after.completed ensures Recorded(env, after.store, c) {
      if c in w.completed {
        assert Recorded(env, w.store, c);
      }
    }
  }

  lemma FinishBatches(env: Env, w: World, step: Step)
    requires Sound(env, w) && step.Finish? && step.index < |w.inFlight|
    ensures var after := Exec(env, w, step);
      && DistinctKeys(after.batches)
      && (forall c :: c in after.batches ==> exists i :: 0 <= i < |after.completed| && after.completed[i].command == c)
  {
    var after, command := Exec(env, w, step), w.inFlight[step.index];
    assert Reserved(env, w.store, command);
    forall c | c in w.batches
      ensures (command.key.Some? ==> c.key != command.key)
      ensures exists i :: 0 <= i < |after.completed| && after.completed[i].command == c
    {
      var i :| 0 <= i < |w.completed| && w.completed[i].command == c;
      assert Recorded(env, w.store, w.completed[i]);
      assert after.completed[i] == w.completed[i];
    }
    if after.batches != w.batches {
      DistinctSnoc(w.batches, command);
      assert after.completed[|w.completed|].command == command;
    }
  }

  lemma FinishKeepsSound(env: Env, w: World, step: Step)
    requires Sound(env, w) && step.Finish? && step.index < |w.inFlight|
    ensures Sound(env, Exec(env, w, step))
  {
    var after, command := Exec(env, w, step), w.inFlight[step.index];
    Without(w.inFlight, step.index);
    FinishStore(env, w, step);
    FinishCompleted(env, w, step);
    FinishBatches(env, w, step);
    forall c | c in after.inFlight ensures Reserved(env, after.store, c) {
      assert Reserved(env, w.store, c);
    }
    forall k | k in after.store ensures Accounted(after, k) {
      if Some(k) == command.key {
        assert after.completed[|w.completed|].command.key == Some(k);
      } else {
        assert Accounted(w, k);
        if i :| 0 <= i < |w.completed| && w.completed[i].command.key == Some(k) {
          assert after.completed[i] == w.completed[i];
        }
      }
    }
  }

  lemma {:induction false} RunsAreSound(env: Env, steps: seq<Step>)
    ensures Sound(env, Run(env, steps))
  {
    if steps != [] {
      var before, step := steps[..|steps| - 1], steps[|steps| - 1];
      RunsAreSound(env, before);
      match step
      case Begin(_, _, _) => BeginKeepsSound(env, Run(env, before), step);
      case Finish(index, _, _) =>
        if index < |Run(env, before).inFlight| {
          FinishKeepsSound(env, Run(env, before), step);
        }
    }
  }

  // --------------------------------------------------------------------------
  // Readiness
  // --------------------------------------------------------------------------

  /** A runtime that is restricted or not ready answers every command with a rejection and changes nothing. */
  lemma NotReadyRefuses(env: Env, store: Store, lifecycle: Lifecycle, command: Command, now: u64)
    requires lifecycle == Restricted || lifecycle == NotReady
    ensures PreDispatch(env, store, lifecycle, command, now) ==
      (store, Answered(CommandResult(
         false, [], Some(if lifecycle == Restricted then "runtime is restricted" else "runtime is not ready"))))
  {
  }

  /** Where a command began to execute. */
  ghost predicate BeganReady(steps: seq<Step>, command: Command) {
    exists n :: 0 <= n < |steps| && steps[n].Begin? && steps[n].command == command
      && (steps[n].lifecycle == Running || steps[n].lifecycle == Degraded)
  }

  ghost predicate AllBeganReady(steps: seq<Step>, w: World) {
    && (forall c :: c in w.inFlight ==> BeganReady(steps, c))
    && (forall c :: c in w.completed ==> BeganReady(steps, c.command))
    && (forall c :: c in w.batches ==> BeganReady(steps, c))
  }

  lemma BeganBefore(steps: seq<Step>, step: Step, command: Command)
    requires BeganReady(steps, command)
    ensures BeganReady(steps + [step], command)
  {
    var n :| 0 <= n < |steps| && steps[n].Begin? && steps[n].command == command
      && (steps[n].lifecycle == Running || steps[n].lifecycle == Degraded);
    assert (steps + [step])[n] == steps[n];
  }

  /** Only a ready runtime adds a command to those in flight. */
  lemma BeginNeedsReady(env: Env, w: World, step: Step)
    requires step.Begin?
    ensures var after := Exec(env, w, step);
      && after.completed == w.completed && after.batches == w.batches
      && (after.inFlight == w.inFlight
          || (after.inFlight == w.inFlight + [step.command] && (step.lifecycle == Running || step.lifecycle == Degraded)))
  {
    if step.lifecycle == Restricted || step.lifecycle == NotReady {
      NotReadyRefuses(env, w.store, step.lifecycle, step.command, step.now);
    }
  }

  lemma FinishMovesOnly(env: Env, w: World, step: Step)
    requires step.Finish?
    ensures var after := Exec(env, w, step);
      && (forall c :: c in after.inFlight ==> c in w.inFlight)
      && (forall c :: c in after.completed ==> c in w.completed || c.command in w.inFlight)
      && (forall c :: c in after.batches ==> c in w.batches || c in w.inFlight)
  {
  }

  lemma StepBeganReady(env: Env, steps: seq<Step>, w: World, step: Step)
    requires AllBeganReady(steps, w)
    ensures AllBeganReady(steps + [step], Exec(env, w, step))
  {
    var after, more := Exec(env, w, step), steps + [step];
    forall c | BeganReady(steps, c) ensures BeganReady(more, c) {
      BeganBefore(steps, step, c);
    }
    if step.Begin? {
      BeginNeedsReady(env, w, step);
      if after.inFlight != w.inFlight {
        assert more[|steps|] == step;
        assert BeganReady(more, step.command);
      }
    } else {
      FinishMovesOnly(env, w, step);
    }
  }

  /** In every run, whatever is in flight, completed or emitted began while the runtime was running or degraded. */
  lemma {:induction false} OnlyReadyRuntimesExecute(env: Env, steps: seq<Step>)
    ensures AllBeganReady(steps, Run(env, steps))
  {
    if steps != [] {
      var before, step := steps[..|steps| - 1], steps[|steps| - 1];
      OnlyReadyRuntimesExecute(env, before);
      StepBeganReady(env, before, Run(env, before), step);
      assert before + [step] == steps;
    }
  }

  // --------------------------------------------------------------------------
  // What reaches the bus
  // --------------------------------------------------------------------------

  /** The events that an outcome puts on the bus: all of an accepted result's, in order, each with its own trace or else
      with the command's; none of any other result, nor of one that could not be stored. */
  lemma EventsKeepOrTakeTraces(
      env: Env, store: Store, command: Command, result: Result<CommandResult, DispatchError>, now: u64)
    requires PostDispatch(env, store, command, result, now).1.Ok?
    ensures var emitted := PostDispatch(env, store, command, result, now).1.value;
      if result.Err? || !result.value.accepted then emitted == []
      else
        && |emitted| == |result.value.events|
        && forall i :: 0 <= i < |emitted| ==>
             && emitted[i].id == result.value.events[i].id
             && emitted[i].trace == (if result.value.events[i].trace.Some? then result.value.events[i].trace
                                     else command.trace)
  {
  }

  /** The outcome of a keyed command cannot be stored exactly when its key is not valid. */
  lemma OutcomeIsStored(
      env: Env, store: Store, command: Command, result: Result<CommandResult, DispatchError>, now: u64)
    ensures var (after, emitted) := PostDispatch(env, store, command, result, now);
      && (emitted == Err(InvalidKey) <==> command.key.Some? && result.Ok? && !env.validKey(command.key.value))
      && (emitted.Err? ==> emitted == Err(InvalidKey) && after == store)
      && (command.key.None? ==> after == store)
      && (command.key.Some? && result.Err? ==> after == store - {command.key.value})
      && (command.key.Some? && result.Ok? && emitted.Ok? ==>
            after == store[command.key.value := Record(command.key.value, env.hash(command.payload),
                                                       Resolved(200, env.toText(result.value)), now)])
  {
  }

  // --------------------------------------------------------------------------
  // One execution per key
  // --------------------------------------------------------------------------

  /** In every interleaving of the two phases, at most one execution per key is in flight, at most one ever completes,
      and at most one batch of events per key reaches the bus. */
  lemma AtMostOnce(env: Env, steps: seq<Step>, key: string, i: nat, j: nat)
    requires i < j
    ensures var w := Run(env, steps);
      && !(j < |w.inFlight| && w.inFlight[i].key == w.inFlight[j].key == Some(key))
      && !(j < |w.completed| && w.completed[i].command.key == w.completed[j].command.key == Some(key))
      && !(j < |w.batches| && w.batches[i].key == w.batches[j].key == Some(key))
  {
    RunsAreSound(env, steps);
    var w := Run(env, steps);
    assert j < |w.completed| ==> CompletedCommands(w.completed)[i] == w.completed[i].command;
  }

  /** A completed key never executes: no command in flight has the key of any completed one. */
  lemma CompletedNeverExecutes(env: Env, steps: seq<Step>, i: nat, j: nat)
    requires i < |Run(env, steps).inFlight| && j < |Run(env, steps).completed|
    requires Run(env, steps).inFlight[i].key.Some?
    ensures Run(env, steps).inFlight[i].key != Run(env, steps).completed[j].command.key
  {
    RunsAreSound(env, steps);
    var w := Run(env, steps);
    assert Reserved(env, w.store, w.inFlight[i]) && Recorded(env, w.store, w.completed[j]);
  }

  lemma RecordedReplays(env: Env, w: World, i: nat, lifecycle: Lifecycle, command: Command, now: u64)
    requires env.Lawful() && Sound(env, w) && i < |w.completed|
    requires command.key.Some? && (lifecycle == Running || lifecycle == Degraded) && w.completed[i].command.key == command.key
    ensures var first := w.completed[i];
      PreDispatch(env, w.store, lifecycle, command, now) ==
        (w.store,
         if env.hash(command.payload) == env.hash(first.command.payload) then Answered(first.result)
         else Refused(IdempotencyConflict))
  {
    assert Recorded(env, w.store, w.completed[i]);
    assert env.toText(w.completed[i].result) != "";
  }

  /** Once an execution with a key completed, every later ready dispatch with that key answers the same result for the
      same payload digest and a conflict for another one, and changes nothing. */
  lemma LaterDispatchesReplay(env: Env, steps: seq<Step>, i: nat, lifecycle: Lifecycle, command: Command, now: u64)
    requires env.Lawful() && i < |Run(env, steps).completed|
    requires Run(env, steps).completed[i].command.key == command.key && command.key.Some?
    requires lifecycle == Running || lifecycle == Degraded
    ensures var w := Run(env, steps);
      var first := w.completed[i];
      PreDispatch(env, w.store, lifecycle, command, now) ==
        (w.store,
         if env.hash(command.payload) == env.hash(first.command.payload) then Answered(first.result)
         else Refused(IdempotencyConflict))
  {
    RunsAreSound(env, steps);
    RecordedReplays(env, Run(env, steps), i, lifecycle, command, now);
  }

  /** A dispatch proceeds exactly when the key is neither executing nor completed; then it holds the reservation. */
  lemma ProceedsExactlyWhenNew(env: Env, steps: seq<Step>, lifecycle: Lifecycle, command: Command, now: u64)
    requires env.Lawful() && command.key.Some? && env.validKey(command.key.value) && (lifecycle == Running || lifecycle == Degraded)
    ensures var w := Run(env, steps);
      var (after, phase) := PreDispatch(env, w.store, lifecycle, command, now);
      && (phase == Proceed <==>
            && (forall c :: c in w.inFlight ==> c.key != command.key)
            && (forall c :: c in w.completed ==> c.command.key != command.key))
      && (phase == Proceed ==> command.key.value !in w.store && after == w.store[command.key.value :=
            Record(command.key.value, env.hash(command.payload), Pending, now)])
  {
    RunsAreSound(env, steps);
    var w := Run(env, steps);
    NoServerErrors(env, w);
    if command.key.value in w.store {
      assert Accounted(w, command.key.value);
    } else {
      assert forall c :: c in w.inFlight ==> Reserved(env, w.store, c);
      assert forall c :: c in w.completed ==> Recorded(env, w.store, c);
    }
  }

  /** A dispatch whose key is executing is refused as pending for the same payload digest, as a conflict for another. */
  lemma ExecutingKeysAreRefused(env: Env, steps: seq<Step>, i: nat, lifecycle: Lifecycle, command: Command, now: u64)
    requires i < |Run(env, steps).inFlight| && Run(env, steps).inFlight[i].key == command.key && command.key.Some?
    requires lifecycle == Running || lifecycle == Degraded
    ensures var w := Run(env, steps);
      PreDispatch(env, w.store, lifecycle, command, now) ==
        (w.store, Refused(if env.hash(command.payload) == env.hash(w.inFlight[i].payload) then IdempotencyPending
                          else IdempotencyConflict))
  {
    RunsAreSound(env, steps);
    assert Reserved(env, Run(env, steps).store, Run(env, steps).inFlight[i]);
  }

  /** A ready runtime runs every command without a key, and refuses a key that is neither known nor valid. */
  lemma UnkeyedAndInvalid(env: Env, store: Store, lifecycle: Lifecycle, command: Command, now: u64)
    requires lifecycle == Running || lifecycle == Degraded
    ensures command.key.None? ==> PreDispatch(env, store, lifecycle, command, now) == (store, Proceed)
    ensures command.key.Some? && command.key.value !in store && !env.validKey(command.key.value) ==>
      PreDispatch(env, store, lifecycle, command, now) == (store, Refused(InvalidKey))
  {
  }
}
