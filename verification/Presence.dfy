/** Registration, heartbeat and peer discovery of the file-backed control plane, with lazy pruning. */
module Presence {
  import opened Prelude

  datatype Mode = Starting | Discovering | Syncing | ReadOnly | ReadWrite | Degraded | Isolated

  datatype Identity = Identity(tenant: string, cluster: string, core: string, instance: string)

  /** `profile` stands for the endpoints, capabilities and metadata of the manifest. */
  datatype Registration = Registration(identity: Identity, profile: string, mode: Mode, registeredAt: nat)

  datatype PresenceReport = PresenceReport(identity: Identity, mode: Mode, healthy: bool, lastSeen: nat)

  datatype Peer = Peer(identity: Identity, profile: string, healthy: bool, lastSeen: nat)

  datatype ControlPlaneError = Rejected | Transport

  /** How writing the state ended: done, before the file was replaced, or between that and the directory's
      synchronisation, which leaves the new state on disk and the caller with an error. */
  datatype Save = Done | Lost | Unsynced

  type Registrations = map<string, Registration>

  function InstanceKey(id: Identity): string {
    id.tenant + ":" + id.cluster + ":" + id.instance
  }

  predicate IsRoutable(mode: Mode) {
    mode == ReadWrite || mode == ReadOnly || mode == Syncing
  }

  function Cutoff(now: nat, retention: nat): nat {
    SaturatingSub(now, retention)
  }

  function Pruned(rs: Registrations, cutoff: nat): Registrations {
    map k | k in rs && rs[k].registeredAt >= cutoff :: rs[k]
  }

  function Registered(rs: Registrations, r: Registration): Registrations {
    rs[InstanceKey(r.identity) := r]
  }

  /** A heartbeat refreshes a registration that is there, and is acknowledged even when none is. */
  function Refreshed(rs: Registrations, id: Identity, mode: Mode, at: nat): Registrations {
    var k := InstanceKey(id);
    if k in rs then rs[k := rs[k].(registeredAt := at, mode := mode)] else rs
  }

  predicate IsPeerOf(r: Registration, caller: Identity) {
    && r.identity.tenant == caller.tenant && r.identity.cluster == caller.cluster
    && r.identity.instance != caller.instance
  }

  function PeerOf(r: Registration): Peer {
    Peer(r.identity, r.profile, IsRoutable(r.mode), r.registeredAt)
  }

  function Directory(rs: Registrations, caller: Identity): set<Peer> {
    set k | k in rs && IsPeerOf(rs[k], caller) :: PeerOf(rs[k])
  }

  // --------------------------------------------------------------------------
  // The provider classes
  // --------------------------------------------------------------------------

  class InMemoryControlPlane {
    var registrations: Registrations

    constructor FromState(registrations: Registrations)
      ensures this.registrations == registrations
    {
      this.registrations := registrations;
    }

    /** Drops what is older than the cutoff and counts it. */
    method PruneRegistrations(cutoff: nat) returns (removed: nat)
      modifies this
      ensures forall k :: k in registrations <==> k in old(registrations) && old(registrations)[k].registeredAt >= cutoff
      ensures forall k :: k in registrations ==> registrations[k] == old(registrations)[k]
      ensures removed == |set k | k in old(registrations) && old(registrations)[k].registeredAt < cutoff|
    {
      ghost var before := registrations;
      ghost var dropped: set<string> := {};
      var todo := registrations.Keys;
      removed := 0;
      while todo != {}
        invariant todo <= before.Keys && todo !! dropped && removed == |dropped|
        invariant dropped == set k | k in before && k !in todo && before[k].registeredAt < cutoff
        invariant registrations == before - dropped
        decreases |todo|
      {
        var k :| k in todo;
        todo := todo - {k};
        if registrations[k].registeredAt < cutoff {
          registrations := registrations - {k};
          dropped := dropped + {k};
          removed := removed + 1;
        }
      }
      assert dropped == set k | k in before && before[k].registeredAt < cutoff;
    }

    method Register(r: Registration) returns (report: PresenceReport)
      modifies this
      ensures registrations == Registered(old(registrations), r)
      ensures report == PresenceReport(r.identity, r.mode, IsRoutable(r.mode), r.registeredAt)
    {
      var routable := r.mode == ReadWrite || r.mode == ReadOnly || r.mode == Syncing;
      report := PresenceReport(r.identity, r.mode, routable, r.registeredAt);
      registrations := registrations[InstanceKey(report.identity) := r];
    }

    method Heartbeat(id: Identity, mode: Mode, sentAt: nat) returns (serverTime: nat)
      modifies this
      ensures registrations == Refreshed(old(registrations), id, mode, sentAt) && serverTime == sentAt
    {
      var key := InstanceKey(id);
      if key in registrations {
        var r := registrations[key];
        registrations := registrations[key := r.(registeredAt := sentAt, mode := mode)];
      }
      serverTime := sentAt;
    }

    method DiscoverPeers(caller: Identity) returns (peers: set<Peer>)
      ensures forall p :: p in peers <==>
        exists k :: k in registrations && IsPeerOf(registrations[k], caller) && p == PeerOf(registrations[k])
    {
      peers := {};
      var todo := registrations.Keys;
      while todo != {}
        invariant todo <= registrations.Keys
        invariant forall p :: p in peers <==> exists k ::
          k in registrations && k !in todo && IsPeerOf(registrations[k], caller) && p == PeerOf(registrations[k])
        decreases |todo|
      {
        var k :| k in todo;
        todo := todo - {k};
        var r := registrations[k];
        if r.identity.tenant == caller.tenant && r.identity.cluster == caller.cluster
           && r.identity.instance != caller.instance {
          var routable := r.mode == ReadWrite || r.mode == ReadOnly || r.mode == Syncing;
          peers := peers + {Peer(r.identity, r.profile, routable, r.registeredAt)};
        }
      }
    }
  }

  /** One locked operation; `saved` says whether its new state reached the disk before a crash or an error. */
  datatype Step =
    | Register(registration: Registration, now: nat, saved: bool)
    | Heartbeat(id: Identity, mode: Mode, now: nat, saved: bool)
    | Discover(caller: Identity, now: nat, saved: bool)
    | LeaseOperation(now: nat, saved: bool)

  /** The registrations an operation computes: prune, then touch, at the server's own time. */
  function After(rs: Registrations, retention: nat, step: Step): Registrations {
    var kept := Pruned(rs, Cutoff(step.now, retention));
    match step
    case Register(r, now, _) => Registered(kept, r.(registeredAt := now))
    case Heartbeat(id, mode, now, _) => Refreshed(kept, id, mode, now)
    case Discover(_, _, _) => kept
    case LeaseOperation(_, _) => rs
  }

  function OnDisk(rs: Registrations, retention: nat, step: Step): Registrations {
    if step.saved then After(rs, retention, step) else rs
  }

  class FileControlPlane {
    const retention: nat
    var disk: Registrations

    constructor (retention: nat, disk: Registrations)
      ensures this.retention == retention && this.disk == disk
    {
      this.retention, this.disk := retention, disk;
    }

    /** Opens a directory holding `existing`, or a fresh one. */
    static method Open(retention: nat, existing: Option<Registrations>) returns (r: Result<FileControlPlane, ControlPlaneError>)
      ensures r.Ok? <==> retention > 0
      ensures r.Ok? ==> fresh(r.value) && r.value.retention == retention
      ensures r.Ok? ==> r.value.disk == if existing.Some? then existing.value else map[]
    {
      if retention == 0 {
        return Err(Rejected);
      }
      var plane := new FileControlPlane(retention, if existing.Some? then existing.value else map[]);
      r := Ok(plane);
    }

    /** Reports the registration, or an error when writing the state did not end well. */
    method Register(r: Registration, now: nat, save: Save) returns (result: Result<PresenceReport, ControlPlaneError>)
      modifies this
      ensures disk == OnDisk(old(disk), retention, Step.Register(r, now, save != Lost))
      ensures result == if save == Done then Ok(PresenceReport(r.identity, r.mode, IsRoutable(r.mode), now))
                        else Err(Transport)
    {
      var control := new InMemoryControlPlane.FromState(disk);
      var stamped := r.(registeredAt := now);
      var _ := control.PruneRegistrations(Cutoff(now, retention));
      assert control.registrations == Pruned(disk, Cutoff(now, retention));
      var report := control.Register(stamped);
      if save != Lost {
        disk := control.registrations;
      }
      result := if save == Done then Ok(report) else Err(Transport);
    }

    method Heartbeat(id: Identity, mode: Mode, now: nat, save: Save) returns (result: Result<nat, ControlPlaneError>)
      modifies this
      ensures disk == OnDisk(old(disk), retention, Step.Heartbeat(id, mode, now, save != Lost))
      ensures result == if save == Done then Ok(now) else Err(Transport)
    {
      var control := new InMemoryControlPlane.FromState(disk);
      var _ := control.PruneRegistrations(Cutoff(now, retention));
      assert control.registrations == Pruned(disk, Cutoff(now, retention));
      var serverTime := control.Heartbeat(id, mode, now);
      if save != Lost {
        disk := control.registrations;
      }
      result := if save == Done then Ok(serverTime) else Err(Transport);
    }

    /** Answers from the pruned state, once that is saved. */
    method DiscoverPeers(caller: Identity, now: nat, save: Save) returns (result: Result<set<Peer>, ControlPlaneError>)
      modifies this
      ensures disk == OnDisk(old(disk), retention, Discover(caller, now, save != Lost))
      ensures result == if save == Done then Ok(Directory(Pruned(old(disk), Cutoff(now, retention)), caller))
                        else Err(Transport)
    {
      var control := new InMemoryControlPlane.FromState(disk);
      var _ := control.PruneRegistrations(Cutoff(now, retention));
      assert control.registrations == Pruned(disk, Cutoff(now, retention));
      var peers := control.DiscoverPeers(caller);
      assert peers == Directory(control.registrations, caller);
      if save != Lost {
        disk := control.registrations;
      }
      result := if save == Done then Ok(peers) else Err(Transport);
    }
  }

  // --------------------------------------------------------------------------
  // Runs
  // --------------------------------------------------------------------------

  /** The disk after a history of operations on an empty directory. */
  function Run(history: seq<Step>, retention: nat): Registrations {
    if history == [] then map[]
    else OnDisk(Run(history[..|history| - 1], retention), retention, history[|history| - 1])
  }

  ghost predicate ClockNeverRunsBack(history: seq<Step>, now: nat) {
    && (forall i, j :: 0 <= i < j < |history| ==> history[i].now <= history[j].now)
    && (forall i :: 0 <= i < |history| ==> history[i].now <= now)
  }

  // --------------------------------------------------------------------------
  // The eager definition: no pruning anywhere, only the touches of one instance
  // --------------------------------------------------------------------------

  predicate Registers(step: Step, key: string) {
    step.Register? && step.saved && InstanceKey(step.registration.identity) == key
  }

  predicate Beats(step: Step, key: string) {
    step.Heartbeat? && step.saved && InstanceKey(step.id) == key
  }

  /** Times of the last committed registration under `key` and of the committed heartbeats since. */
  function Touches(history: seq<Step>, key: string): seq<nat> {
    if history == [] then []
    else
      var before, step := Touches(history[..|history| - 1], key), history[|history| - 1];
      if Registers(step, key) then [step.now]
      else if Beats(step, key) && before != [] then before + [step.now]
      else before
  }

  /** What that registration said, with the mode and the time of the last touch. */
  function Latest(history: seq<Step>, key: string): Option<Registration> {
    if history == [] then None
    else
      var before, step := Latest(history[..|history| - 1], key), history[|history| - 1];
      if Registers(step, key) then Some(step.registration.(registeredAt := step.now))
      else if Beats(step, key) && before.Some? then Some(before.value.(registeredAt := step.now, mode := step.mode))
      else before
  }

  predicate NoGap(touches: seq<nat>, retention: nat) {
    forall i :: 0 < i < |touches| ==> touches[i] - touches[i - 1] <= retention
  }

  /** Present: registered, and never silent for longer than the retention window, up to now. */
  predicate Present(history: seq<Step>, key: string, retention: nat, now: nat) {
    var t := Touches(history, key);
    t != [] && NoGap(t, retention) && now - t[|t| - 1] <= retention
  }

  /** Operations that prune before they do anything else. */
  predicate Prunes(step: Step) {
    step.saved && !step.LeaseOperation?
  }

  /** No saved pruning operation since the last registration ran later than the retention window after the touch
      before it, by the time it read from the clock. */
  predicate NeverOverdue(history: seq<Step>, key: string, retention: nat) {
    history == [] ||
    var before, step := history[..|history| - 1], history[|history| - 1];
    var t := Touches(before, key);
    || Registers(step, key)
    || (NeverOverdue(before, key, retention) && (Prunes(step) && t != [] ==> step.now - t[|t| - 1] <= retention))
  }

  // --------------------------------------------------------------------------
  // Lazy pruning against the eager definition
  // --------------------------------------------------------------------------

  /** What the disk says about one key, in terms of the history alone. */
  ghost predicate Agrees(rs: Registrations, history: seq<Step>, key: string, retention: nat) {
    var t := Touches(history, key);
    && (Latest(history, key).Some? <==> t != [])
    && (t != [] ==> Latest(history, key).value.registeredAt == t[|t| - 1])
    && (NeverOverdue(history, key, retention) ==> NoGap(t, retention))
    && (key in rs <==> t != [] && NeverOverdue(history, key, retention))
    && (key in rs ==> rs[key] == Latest(history, key).value)
  }

  lemma LongerChain(t: seq<nat>, now: nat, retention: nat)
    requires t != []
    ensures NoGap(t + [now], retention) <==> NoGap(t, retention) && now - t[|t| - 1] <= retention
  {
    if NoGap(t + [now], retention) {
      forall i | 0 < i < |t| ensures t[i] - t[i - 1] <= retention {
        assert (t + [now])[i] - (t + [now])[i - 1] <= retention;
      }
      assert (t + [now])[|t|] - (t + [now])[|t| - 1] <= retention;
    }
  }

  /** How the history of a key goes on. */
  lemma OneMoreStep(history: seq<Step>, step: Step, key: string, retention: nat)
    ensures var more, t := history + [step], Touches(history, key);
      && Touches(more, key) == (if Registers(step, key) then [step.now]
                                else if Beats(step, key) && t != [] then t + [step.now] else t)
      && Latest(more, key) ==
         (if Registers(step, key) then Some(step.registration.(registeredAt := step.now))
          else if Beats(step, key) && Latest(history, key).Some?
          then Some(Latest(history, key).value.(registeredAt := step.now, mode := step.mode)) else Latest(history, key))
      && (NeverOverdue(more, key, retention) <==>
          || Registers(step, key)
          || (NeverOverdue(history, key, retention) && (Prunes(step) && t != [] ==> step.now - t[|t| - 1] <= retention)))
  {
    assert (history + [step])[..|history + [step]| - 1] == history;
  }

  lemma StepAgrees(rs: Registrations, history: seq<Step>, step: Step, key: string, retention: nat)
    requires Agrees(rs, history, key, retention)
    ensures Agrees(OnDisk(rs, retention, step), history + [step], key, retention)
  {
    OneMoreStep(history, step, key, retention);
    var t := Touches(history, key);
    if Beats(step, key) && t != [] {
      LongerChain(t, step.now, retention);
    }
  }

  /** Over any run, crashes included and on any clock: a key is on disk exactly when it was registered and never pruned
      as overdue since, with what was last reported under it. */
  lemma {:induction false} RunAgrees(history: seq<Step>, key: string, retention: nat)
    ensures Agrees(Run(history, retention), history, key, retention)
  {
    if history != [] {
      var before, step := history[..|history| - 1], history[|history| - 1];
      assert before + [step] == history;
      RunAgrees(before, key, retention);
      StepAgrees(Run(before, retention), before, step, key, retention);
    }
  }

  /** What discovery sees of a key on any clock: it is present by the eager definition and was never overdue. */
  lemma SeenExactlyWhenNeverOverdue(history: seq<Step>, key: string, retention: nat, now: nat)
    ensures var rs := Pruned(Run(history, retention), Cutoff(now, retention));
      && (key in rs <==> Present(history, key, retention, now) && NeverOverdue(history, key, retention))
      && (key in rs ==> Some(rs[key]) == Latest(history, key))
  {
    RunAgrees(history, key, retention);
  }

  /** On a clock that never runs back, an instance that is present was never overdue. */
  lemma {:induction false} PresentIsNeverOverdue(history: seq<Step>, key: string, retention: nat, now: nat)
    requires ClockNeverRunsBack(history, now) && Present(history, key, retention, now)
    ensures NeverOverdue(history, key, retention)
  {
    if history != [] {
      var before, step := history[..|history| - 1], history[|history| - 1];
      assert before + [step] == history;
      OneMoreStep(before, step, key, retention);
      var t := Touches(before, key);
      if !Registers(step, key) {
        if Beats(step, key) && t != [] {
          LongerChain(t, step.now, retention);
        }
        PresentIsNeverOverdue(before, key, retention, step.now);
      }
    }
  }

  /** The latest registration under a key is one of an instance with that key. */
  lemma {:induction false} LatestHasItsKey(history: seq<Step>, key: string)
    ensures Latest(history, key).Some? ==> InstanceKey(Latest(history, key).value.identity) == key
  {
    if history != [] {
      LatestHasItsKey(history[..|history| - 1], key);
    }
  }

  /** The instance that a peer record names last reported exactly this record to a caller it is a peer of. */
  predicate Reports(history: seq<Step>, caller: Identity, peer: Peer) {
    var latest := Latest(history, InstanceKey(peer.identity));
    && latest.Some? && latest.value.identity == peer.identity
    && peer.identity.tenant == caller.tenant && peer.identity.cluster == caller.cluster
    && peer.identity.instance != caller.instance
    && peer.profile == latest.value.profile && peer.lastSeen == latest.value.registeredAt
    && (peer.healthy <==>
          latest.value.mode == ReadWrite || latest.value.mode == ReadOnly || latest.value.mode == Syncing)
  }

  /** Discovery after any run lists exactly the records whose instance is present and was never overdue. */
  lemma DiscoveryOnAnyClock(history: seq<Step>, retention: nat, caller: Identity, now: nat, peer: Peer)
    ensures var key := InstanceKey(peer.identity);
      peer in Directory(Pruned(Run(history, retention), Cutoff(now, retention)), caller) <==>
        && Reports(history, caller, peer)
        && Present(history, key, retention, now) && NeverOverdue(history, key, retention)
  {
    var rs := Pruned(Run(history, retention), Cutoff(now, retention));
    if peer in Directory(rs, caller) {
      var key :| key in rs && IsPeerOf(rs[key], caller) && PeerOf(rs[key]) == peer;
      SeenExactlyWhenNeverOverdue(history, key, retention, now);
      LatestHasItsKey(history, key);
    }
    SeenExactlyWhenNeverOverdue(history, InstanceKey(peer.identity), retention, now);
  }

  /** On a clock that never runs back, discovery after any run, crashes included, lists exactly the caller's peers that
      are present by the eager definition, with what they last reported. */
  lemma DiscoveryIsEager(history: seq<Step>, retention: nat, caller: Identity, now: nat, peer: Peer)
    requires ClockNeverRunsBack(history, now)
    ensures peer in Directory(Pruned(Run(history, retention), Cutoff(now, retention)), caller) <==>
      Reports(history, caller, peer) && Present(history, InstanceKey(peer.identity), retention, now)
  {
    DiscoveryOnAnyClock(history, retention, caller, now, peer);
    if Present(history, InstanceKey(peer.identity), retention, now) {
      PresentIsNeverOverdue(history, InstanceKey(peer.identity), retention, now);
    }
  }

  /** A clock that runs back breaks the agreement: what a later time pruned stays away at an earlier one. */
  lemma BackwardClockLosesPresence(r: Registration, caller: Identity, retention: nat)
    ensures var key := InstanceKey(r.identity);
      var history := [Register(r, 0, true)] + [Discover(caller, retention + 1, true)];
      && Present(history, key, retention, retention) && !NeverOverdue(history, key, retention)
      && key !in Run(history, retention)
  {
    var key := InstanceKey(r.identity);
    var first := [Register(r, 0, true)];
    assert [] + [Register(r, 0, true)] == first;
    OneMoreStep([], Register(r, 0, true), key, retention);
    OneMoreStep(first, Discover(caller, retention + 1, true), key, retention);
    RunAgrees(first + [Discover(caller, retention + 1, true)], key, retention);
  }
}
