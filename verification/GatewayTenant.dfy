/** One tenant's worker connections and the capabilities they advertise. */
module GatewayTenant {
  import opened Prelude
  import opened GatewayRegistry

  const MAX_WORKERS: nat := 1024

  /** Installation and core of a worker: the key under which a newer connection replaces an older one. */
  type Slot = (string, string)

  datatype WorkerConnection = WorkerConnection(key: WorkerKey, cluster: Option<string>, generation: nat)

  function SlotOf(key: WorkerKey): Slot {
    (key.installation, key.core)
  }

  type Workers = map<Slot, WorkerConnection>

  datatype Partition = Partition(workers: Workers, adverts: Adverts)

  /** Connections are filed under their own slot, and exactly the live ones are registered. */
  ghost predicate Consistent(p: Partition) {
    && (forall s :: s in p.workers ==> SlotOf(p.workers[s].key) == s)
    && (forall k :: k in p.adverts <==> SlotOf(k) in p.workers && p.workers[SlotOf(k)].key == k)
    && |p.workers| <= MAX_WORKERS
  }

  predicate Full(p: Partition, slot: Slot) {
    slot !in p.workers && |p.workers| >= MAX_WORKERS
  }

  function Connected(p: Partition, conn: WorkerConnection, capabilities: set<Capability>): Partition {
    var slot := SlotOf(conn.key);
    if Full(p, slot) then p
    else
      var adverts := if slot in p.workers then p.adverts - {p.workers[slot].key} else p.adverts;
      Partition(p.workers[slot := conn], adverts[conn.key := capabilities])
  }

  function Removed(p: Partition, slot: Slot): Partition {
    if slot in p.workers then Partition(p.workers - {slot}, p.adverts - {p.workers[slot].key}) else p
  }

  predicate IsCurrent(p: Partition, slot: Slot, generation: nat) {
    slot in p.workers && p.workers[slot].generation == generation
  }

  function RemovedIfCurrent(p: Partition, slot: Slot, generation: nat): Partition {
    if IsCurrent(p, slot, generation) then Removed(p, slot) else p
  }

  class TenantState {
    const registry: CapabilityRegistry
    var workers: Workers

    ghost predicate Valid()
      reads this, registry
    {
      registry.Valid() && Consistent(View())
    }

    ghost function View(): Partition
      reads this, registry
    {
      Partition(workers, registry.workerToCapabilities)
    }

    constructor ()
      ensures Valid() && View() == Partition(map[], map[]) && fresh(registry)
    {
      registry := new CapabilityRegistry();
      workers := map[];
    }

    method AddWorker(conn: WorkerConnection, capabilities: seq<Capability>) returns (added: bool)
      requires Valid()
      modifies this, registry
      ensures Valid() && added == !Full(old(View()), SlotOf(conn.key))
      ensures View() == Connected(old(View()), conn, set c | c in capabilities)
    {
      ConnectedStaysConsistent(View(), conn, set c | c in capabilities);
      var slot := SlotOf(conn.key);
      if slot !in workers && |workers| >= MAX_WORKERS {
        return false;
      }
      if slot in workers {
        registry.Deregister(workers[slot].key);
      }
      workers := workers[slot := conn];
      registry.Register(conn.key, capabilities);
      added := true;
    }

    method RemoveWorker(slot: Slot)
      requires Valid()
      modifies this, registry
      ensures Valid() && View() == Removed(old(View()), slot)
    {
      RemovedStaysConsistent(View(), slot);
      if slot in workers {
        var conn := workers[slot];
        workers := workers - {slot};
        registry.Deregister(conn.key);
      }
    }

    method RemoveWorkerIfCurrent(slot: Slot, generation: nat) returns (removed: bool)
      requires Valid()
      modifies this, registry
      ensures Valid() && removed == IsCurrent(old(View()), slot, generation)
      ensures View() == RemovedIfCurrent(old(View()), slot, generation)
    {
      if slot !in workers || workers[slot].generation != generation {
        return false;
      }
      RemoveWorker(slot);
      removed := true;
    }
  }

  lemma ConnectedStaysConsistent(p: Partition, conn: WorkerConnection, capabilities: set<Capability>)
    requires Consistent(p)
    ensures Consistent(Connected(p, conn, capabilities))
  {
    var slot := SlotOf(conn.key);
    if !Full(p, slot) {
      if slot in p.workers {
        assert p.workers[slot := conn].Keys == p.workers.Keys;
        assert |p.workers[slot := conn]| == |p.workers[slot := conn].Keys| == |p.workers.Keys|;
      }
    }
  }

  lemma RemovedStaysConsistent(p: Partition, slot: Slot)
    requires Consistent(p)
    ensures Consistent(Removed(p, slot))
  {
    if slot in p.workers {
      assert (p.workers - {slot}).Keys == p.workers.Keys - {slot};
      assert |p.workers - {slot}| == |(p.workers - {slot}).Keys|;
    }
  }

  // --------------------------------------------------------------------------
  // Runs of connects, replacements, teardowns and prunes
  // --------------------------------------------------------------------------

  /** The teardown of a connection and the pruning of a silent one are the same step, possibly late. */
  datatype Step =
    | Connect(conn: WorkerConnection, capabilities: set<Capability>)
    | Teardown(slot: Slot, generation: nat)

  function Next(p: Partition, step: Step): Partition {
    match step
    case Connect(conn, capabilities) => Connected(p, conn, capabilities)
    case Teardown(slot, generation) => RemovedIfCurrent(p, slot, generation)
  }

  function Run(p: Partition, steps: seq<Step>): Partition {
    if steps == [] then p else Next(Run(p, steps[..|steps| - 1]), steps[|steps| - 1])
  }

  lemma {:induction false} RunsStayConsistent(p: Partition, steps: seq<Step>)
    requires Consistent(p)
    ensures Consistent(Run(p, steps))
  {
    if steps != [] {
      var before, step := Run(p, steps[..|steps| - 1]), steps[|steps| - 1];
      RunsStayConsistent(p, steps[..|steps| - 1]);
      if step.Connect? {
        ConnectedStaysConsistent(before, step.conn, step.capabilities);
      } else {
        RemovedStaysConsistent(before, step.slot);
      }
    }
  }

  /** The step neither replaces the connection in the slot nor is its own teardown. */
  predicate Spares(step: Step, slot: Slot, generation: nat) {
    match step
    case Connect(conn, _) => SlotOf(conn.key) != slot
    case Teardown(s, g) => s != slot || g != generation
  }

  predicate Serves(p: Partition, conn: WorkerConnection, capabilities: set<Capability>) {
    && SlotOf(conn.key) in p.workers && p.workers[SlotOf(conn.key)] == conn
    && conn.key in p.adverts && p.adverts[conn.key] == capabilities
  }

  lemma StepServes(p: Partition, step: Step, conn: WorkerConnection, capabilities: set<Capability>)
    requires Consistent(p) && Serves(p, conn, capabilities) && Spares(step, SlotOf(conn.key), conn.generation)
    ensures Serves(Next(p, step), conn, capabilities)
  {
  }

  /**
   * A replacement survives whatever the connections it replaced still do: only its own replacement or its own
   * teardown ends it, and until then it advertises what it brought.
   */
  lemma {:induction false} ReplacementSurvives(
      p: Partition, conn: WorkerConnection, capabilities: set<Capability>, steps: seq<Step>)
    requires Consistent(p) && !Full(p, SlotOf(conn.key))
    requires forall i :: 0 <= i < |steps| ==> Spares(steps[i], SlotOf(conn.key), conn.generation)
    ensures Serves(Run(Connected(p, conn, capabilities), steps), conn, capabilities)
  {
    var start := Connected(p, conn, capabilities);
    if steps != [] {
      var earlier := steps[..|steps| - 1];
      ReplacementSurvives(p, conn, capabilities, earlier);
      ConnectedStaysConsistent(p, conn, capabilities);
      RunsStayConsistent(start, earlier);
      StepServes(Run(start, earlier), steps[|steps| - 1], conn, capabilities);
    }
  }

  /** Its own teardown, however many stale ones came before, removes it and everything it advertised. */
  lemma OwnTeardownRemoves(p: Partition, conn: WorkerConnection, capabilities: set<Capability>)
    requires Consistent(p) && Serves(p, conn, capabilities)
    ensures var q := RemovedIfCurrent(p, SlotOf(conn.key), conn.generation);
            SlotOf(conn.key) !in q.workers && (forall k :: SlotOf(k) == SlotOf(conn.key) ==> k !in q.adverts)
  {
    RemovedStaysConsistent(p, SlotOf(conn.key));
  }

  /** So it does at the end of any run that spared it. */
  lemma OwnTeardownEndsTheRun(
      p: Partition, conn: WorkerConnection, capabilities: set<Capability>, steps: seq<Step>)
    requires Consistent(p) && !Full(p, SlotOf(conn.key))
    requires forall i :: 0 <= i < |steps| ==> Spares(steps[i], SlotOf(conn.key), conn.generation)
    ensures var q := Run(Connected(p, conn, capabilities), steps + [Teardown(SlotOf(conn.key), conn.generation)]);
            SlotOf(conn.key) !in q.workers && (forall k :: SlotOf(k) == SlotOf(conn.key) ==> k !in q.adverts)
  {
    var start, last := Connected(p, conn, capabilities), Teardown(SlotOf(conn.key), conn.generation);
    ConnectedStaysConsistent(p, conn, capabilities);
    RunsStayConsistent(start, steps);
    ReplacementSurvives(p, conn, capabilities, steps);
    OwnTeardownRemoves(Run(start, steps), conn, capabilities);
    assert (steps + [last])[..|steps|] == steps;
  }
}
