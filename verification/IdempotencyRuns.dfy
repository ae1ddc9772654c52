/** Runs of a controller-driven file store: reservations, outcomes, compaction, restarts and torn appends. */
module IdempotencyRuns {
  import opened Prelude
  import opened TextFile
  import opened IdempotencyRecords
  import opened IdempotencyLog

  /** The store and the latest time it has seen; its clock may run back. */
  datatype State = State(memory: Memory, latest: nat)

  datatype Step =
    | Reserve(record: Record, now: nat)
    | Settle(record: Record, now: nat)
    | Discard(key: string)
    | Compact(now: nat)
    | Restart
    | CrashDuring(append: Step, bytes: nat)

  /** The controller reserves a key only when looking it up shows nothing, and settles with a resolved record. */
  predicate Allowed(f: Format, ttl: Option<nat>, s: State, step: Step) {
    match step
    case Reserve(record, now) =>
      && f.validKey(record.key) && record.status.Pending?
      && Lookup(s.memory.seen, ttl, record.key, now).None?
    case Settle(record, now) => f.validKey(record.key) && record.status.Resolved?
    case Compact(_) => true
    case CrashDuring(append, bytes) =>
      && (append.Reserve? || append.Settle?) && Allowed(f, ttl, s, append)
      && bytes <= |f.toLine(append.record)| + 1
    case Discard(_) => true
    case Restart => true
  }

  /** Each step is one call of the store's methods; the last two end one process and start another on its file. */
  ghost predicate Next(f: Format, ttl: Option<nat>, s: State, step: Step, s': State) {
    Allowed(f, ttl, s, step) &&
    match step
    case Reserve(record, now) => Inserted(f, s.memory, record, s'.memory) && s'.latest == Max(s.latest, now)
    case Settle(record, now) => Inserted(f, s.memory, record, s'.memory) && s'.latest == Max(s.latest, now)
    case Discard(key) => Removed(f, s.memory, key, s'.memory) && s'.latest == s.latest
    case Compact(now) => Compacted(f, ttl, s.memory, now, s'.memory) && s'.latest == Max(s.latest, now)
    case Restart => Opened(f, s.memory.file, s'.memory) && s'.latest == s.latest
    case CrashDuring(append, bytes) =>
      var line := f.toLine(append.record) + [NEWLINE];
      Opened(f, s.memory.file + line[..bytes], s'.memory) && s'.latest == Max(s.latest, append.now)
  }

  ghost predicate StepsAt(f: Format, ttl: Option<nat>, states: seq<State>, steps: seq<Step>, i: nat)
    requires i < |steps| < |states|
  {
    Next(f, ttl, states[i], steps[i], states[i + 1])
  }

  ghost predicate AreSteps(f: Format, ttl: Option<nat>, states: seq<State>, steps: seq<Step>) {
    |states| == |steps| + 1 && forall i :: 0 <= i < |steps| ==> StepsAt(f, ttl, states, steps, i)
  }

  /** A run on a file that opens and has a complete first line; a new file is one. */
  ghost predicate IsRun(f: Format, ttl: Option<nat>, file: Bytes, states: seq<State>, steps: seq<Step>) {
    && AreSteps(f, ttl, states, steps) && f.Header() <= file && Opened(f, file, states[0].memory)
  }

  /** What the file shows agrees with memory: each resolved record is the one the file shows for its key, and a record
      that memory no longer shows has expired by the latest time. */
  ghost predicate Agrees(view: Seen, ttl: Option<nat>, seen: Seen, latest: nat) {
    && (forall k :: k in seen && seen[k].status.Resolved? ==> k in view && view[k] == seen[k])
    && (forall k :: k in view && !(k in seen && seen[k].status.Resolved?) ==> Expired(view[k].createdAt, ttl, latest))
  }

  ghost predicate Sound(f: Format, ttl: Option<nat>, s: State, view: Seen) {
    && KeysValid(f, s.memory.seen) && AllResolved(view)
    && Reads(f, s.memory.file, view) && Agrees(view, ttl, s.memory.seen, s.latest)
  }

  lemma OpenedIsSound(f: Format, ttl: Option<nat>, file: Bytes, s: State)
    requires f.Lawful() && f.Header() <= file && Opened(f, file, s.memory)
    ensures Sound(f, ttl, s, s.memory.seen)
  {
    OpenedReads(f, file, s.memory);
  }

  lemma RewrittenIsSound(f: Format, ttl: Option<nat>, s: State)
    requires f.Lawful() && KeysValid(f, s.memory.seen) && Rewritten(f, s.memory)
    ensures Sound(f, ttl, s, ResolvedIn(s.memory.seen))
  {
    RewrittenReads(f, s.memory);
  }

  lemma InsertKeepsSound(f: Format, ttl: Option<nat>, s: State, view: Seen, record: Record, now: nat, s': State)
    requires f.Lawful() && Sound(f, ttl, s, view) && f.validKey(record.key)
    requires Inserted(f, s.memory, record, s'.memory) && s'.latest == Max(s.latest, now)
    requires record.status.Pending? ==> Lookup(s.memory.seen, ttl, record.key, now).None?
    ensures Sound(f, ttl, s', WithRecord(view, record))
  {
    AppendedReads(f, s.memory.file, view, record);
    KeysStayValid(f, s.memory.seen, record);
    AgreesAfterInsert(view, ttl, s.memory.seen, s.latest, record, now);
  }

  lemma KeysStayValid(f: Format, seen: Seen, record: Record)
    requires KeysValid(f, seen) && f.validKey(record.key)
    ensures KeysValid(f, seen[record.key := record])
  {
  }

  lemma AgreesAfterInsert(view: Seen, ttl: Option<nat>, seen: Seen, latest: nat, record: Record, now: nat)
    requires Agrees(view, ttl, seen, latest) && AllResolved(view)
    requires record.status.Pending? ==> Lookup(seen, ttl, record.key, now).None?
    ensures AllResolved(WithRecord(view, record))
    ensures Agrees(WithRecord(view, record), ttl, seen[record.key := record], Max(latest, now))
  {
  }

  lemma CrashKeepsSound(f: Format, ttl: Option<nat>, s: State, view: Seen, step: Step, s': State)
    requires f.Lawful() && Sound(f, ttl, s, view) && step.CrashDuring? && Next(f, ttl, s, step, s')
    ensures Sound(f, ttl, s', s'.memory.seen)
  {
    var line := f.toLine(step.append.record) + [NEWLINE];
    assert Allowed(f, ttl, s, step.append);
    HeaderStays(f.Header(), s.memory.file, line[..step.bytes]);
    OpenedIsSound(f, ttl, s.memory.file + line[..step.bytes], s');
  }

  lemma HeaderStays(header: Bytes, file: Bytes, more: Bytes)
    requires header <= file
    ensures header <= file + more
  {
  }

  lemma StepKeepsSound(f: Format, ttl: Option<nat>, s: State, view: Seen, step: Step, s': State) returns (view': Seen)
    requires f.Lawful() && Sound(f, ttl, s, view) && Next(f, ttl, s, step, s')
    ensures Sound(f, ttl, s', view')
  {
    match step
    case Reserve(record, now) =>
      InsertKeepsSound(f, ttl, s, view, record, now, s');
      view' := WithRecord(view, record);
    case Settle(record, now) =>
      InsertKeepsSound(f, ttl, s, view, record, now, s');
      view' := WithRecord(view, record);
    case Discard(key) =>
      if key in s.memory.seen {
        RewrittenIsSound(f, ttl, s');
        view' := ResolvedIn(s'.memory.seen);
      } else {
        view' := view;
      }
    case Compact(now) =>
      RewrittenIsSound(f, ttl, s');
      view' := ResolvedIn(s'.memory.seen);
    case Restart =>
      OpenedIsSound(f, ttl, s.memory.file, s');
      view' := s'.memory.seen;
    case CrashDuring(_, _) =>
      CrashKeepsSound(f, ttl, s, view, step, s');
      view' := s'.memory.seen;
  }

  lemma RunStepKeepsSound(f: Format, ttl: Option<nat>, states: seq<State>, steps: seq<Step>, i: nat, view: Seen)
    returns (view': Seen)
    requires f.Lawful() && AreSteps(f, ttl, states, steps) && i < |steps| && Sound(f, ttl, states[i], view)
    ensures Sound(f, ttl, states[i + 1], view')
  {
    assert StepsAt(f, ttl, states, steps, i);
    view' := StepKeepsSound(f, ttl, states[i], view, steps[i], states[i + 1]);
  }

  lemma {:induction false} StepsKeepSound(
      f: Format, ttl: Option<nat>, states: seq<State>, steps: seq<Step>, m: nat, n: nat, view: Seen)
      returns (view': Seen)
    requires f.Lawful() && AreSteps(f, ttl, states, steps) && m <= n <= |steps| && Sound(f, ttl, states[m], view)
    ensures Sound(f, ttl, states[n], view')
    decreases n - m
  {
    if m == n {
      view' := view;
    } else {
      view' := RunStepKeepsSound(f, ttl, states, steps, m, view);
      view' := StepsKeepSound(f, ttl, states, steps, m + 1, n, view');
    }
  }

  /** Over every run memory and file agree on resolved records, except for those that expired. */
  lemma RunsAreSound(
      f: Format, ttl: Option<nat>, file: Bytes, states: seq<State>, steps: seq<Step>, n: nat) returns (view: Seen)
    requires f.Lawful() && IsRun(f, ttl, file, states, steps) && n <= |steps|
    ensures Sound(f, ttl, states[n], view)
  {
    OpenedIsSound(f, ttl, file, states[0]);
    view := StepsKeepSound(f, ttl, states, steps, 0, n, states[0].memory.seen);
  }

  /** The resolved records a store shows at a time. */
  function Shown(seen: Seen, ttl: Option<nat>, now: nat): Seen {
    map k | k in seen && seen[k].status.Resolved? && !Expired(seen[k].createdAt, ttl, now) :: seen[k]
  }

  /** Key of a resolved record that the file shows and memory does not. */
  predicate OnlyOnFile(view: Seen, seen: Seen, k: string) {
    k in view && !(k in seen && seen[k].status.Resolved?)
  }

  /** What a view shows beyond memory: records that had expired by the latest time and have not expired now. */
  lemma AgreedShow(view: Seen, ttl: Option<nat>, seen: Seen, latest: nat, now: nat)
    requires AllResolved(view) && Agrees(view, ttl, seen, latest)
    ensures Shown(view, ttl, now) == Shown(seen, ttl, now) + Revived(view, ttl, seen, latest, now)
    ensures latest <= now ==> Shown(view, ttl, now) == Shown(seen, ttl, now)
  {
    var revived := Revived(view, ttl, seen, latest, now);
    forall k ensures k in Shown(view, ttl, now) <==> k in Shown(seen, ttl, now) || k in revived {
      if OnlyOnFile(view, seen, k) {
        assert Expired(view[k].createdAt, ttl, latest);
      }
    }
  }

  function Revived(view: Seen, ttl: Option<nat>, seen: Seen, latest: nat, now: nat): Seen {
    map k | k in view && OnlyOnFile(view, seen, k)
            && Expired(view[k].createdAt, ttl, latest) && !Expired(view[k].createdAt, ttl, now) :: view[k]
  }

  /** In every run, on any clock, and at any time: reopening the store shows exactly the live resolved records that memory
      showed, and no pending one, and those of the file alone whose expiry, seen before, the clock has gone back on. From
      the latest time on there are none. Opening can fail only because the file has outgrown the size limit. */
  lemma ReopeningShowsLiveRecords(
      f: Format, ttl: Option<nat>, file: Bytes, states: seq<State>, steps: seq<Step>, n: nat, now: nat)
    requires f.Lawful() && IsRun(f, ttl, file, states, steps) && n <= |steps|
    ensures var m, latest := states[n].memory, states[n].latest;
      if |m.file| > MAX_FILE_BYTES then Load(f, m.file) == Err(Corrupt)
      else
        && Load(f, m.file).Ok? && !Load(f, m.file).value.1
        && var reopened := Load(f, m.file).value.0;
           && AllResolved(reopened)
           && Shown(reopened, ttl, now) == Shown(m.seen, ttl, now) + Revived(reopened, ttl, m.seen, latest, now)
           && (latest <= now ==> Shown(reopened, ttl, now) == Shown(m.seen, ttl, now))
  {
    var view := RunsAreSound(f, ttl, file, states, steps, n);
    ReadableLoads(f, states[n].memory.file, view);
    AgreedShow(view, ttl, states[n].memory.seen, states[n].latest, now);
  }

  lemma ReservingIsARun(f: Format, ttl: Option<nat>, file: Bytes, before: State, step: Step, after: State)
    requires Opened(f, file, before.memory) && f.Header() <= file && Next(f, ttl, before, step, after)
    ensures IsRun(f, ttl, file, [before, after], [step])
  {
    assert StepsAt(f, ttl, [before, after], [step], 0);
  }

  lemma OverTheLifetime(seen: Seen, key: string, lifetime: nat, late: nat)
    requires key in seen && seen[key].createdAt != 0 && late > seen[key].createdAt + lifetime
    ensures Lookup(seen, Some(lifetime), key, late).None?
  {
  }

  lemma ShownAtFirst(seen: Seen, pending: Record, lifetime: nat)
    requires pending.status.Pending? && pending.key in seen && seen[pending.key].status.Resolved?
    ensures var early := seen[pending.key].createdAt;
      && pending.key !in Shown(seen[pending.key := pending], Some(lifetime), early)
      && pending.key in Shown(seen, Some(lifetime), early)
  {
  }

  /** A clock that goes back revives: on any file with a dated record, a new execution reserves its key after its expiry
      and the process ends; at the earlier time memory showed nothing under the key, and the reopened file the record. */
  lemma BackwardClockRevives(
      f: Format, file: Bytes, seen: Seen, lifetime: nat, pending: Record, late: nat, before: State, after: State)
    requires f.Lawful() && f.Header() <= file && Load(f, file) == Ok((seen, false)) && f.validKey(pending.key)
    requires pending.status.Pending? && pending.key in seen && seen[pending.key].createdAt != 0
    requires late > seen[pending.key].createdAt + lifetime && before == State(Memory(seen, file), 0)
    requires after == State(Memory(seen[pending.key := pending], file + f.toLine(pending) + [NEWLINE]), late)
    ensures IsRun(f, Some(lifetime), file, [before, after], [Reserve(pending, late)])
    ensures Reads(f, after.memory.file, seen)
    ensures var early := seen[pending.key].createdAt;
      && pending.key !in Shown(after.memory.seen, Some(lifetime), early)
      && pending.key in Shown(seen, Some(lifetime), early)
  {
    OpenedReads(f, file, before.memory);
    AppendedReads(f, file, seen, pending);
    assert WithRecord(seen, pending) == seen;
    OverTheLifetime(seen, pending.key, lifetime, late);
    ReservingIsARun(f, Some(lifetime), file, before, Reserve(pending, late), after);
    ShownAtFirst(seen, pending, lifetime);
  }

  /** A crash inside an append shows, from the latest time on, the same records as before it, or those with the new
      record once its newline is written; opening refuses exactly when the file is over the limit or the cut falls inside
      a character. */
  lemma CrashShowsBeforeOrAfter(
      f: Format, ttl: Option<nat>, file: Bytes, states: seq<State>, steps: seq<Step>, n: nat,
      append: Step, bytes: nat, now: nat)
    requires f.Lawful() && IsRun(f, ttl, file, states, steps) && n <= |steps|
    requires Allowed(f, ttl, states[n], CrashDuring(append, bytes))
    requires states[n].latest <= now && append.now <= now
    ensures var m := states[n].memory;
      var line := f.toLine(append.record) + [NEWLINE];
      var loaded := Load(f, m.file + line[..bytes]);
      if |m.file| + bytes > MAX_FILE_BYTES then loaded == Err(Corrupt)
      else if bytes < |line| && IsContinuation(line[bytes]) then loaded == Err(NotUtf8)
      else
        && loaded.Ok?
        && Shown(loaded.value.0, ttl, now) ==
             Shown(if bytes < |line| then m.seen else m.seen[append.record.key := append.record], ttl, now)
  {
    var s, record := states[n], append.record;
    var view := RunsAreSound(f, ttl, file, states, steps, n);
    CrashedAppendLoads(f, s.memory.file, view, record, bytes);
    AgreedShow(view, ttl, s.memory.seen, s.latest, now);
    var after := Memory(s.memory.seen[record.key := record], s.memory.file + f.toLine(record) + [NEWLINE]);
    var latest := Max(s.latest, append.now);
    InsertKeepsSound(f, ttl, s, view, record, append.now, State(after, latest));
    AgreedShow(WithRecord(view, record), ttl, after.seen, latest, now);
  }
}
