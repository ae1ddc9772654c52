/** Request correlation in the gateway: reply channels, their metadata, and who may answer. */
module GatewayRouter {
  import opened Prelude
  import opened GatewayRegistry
  import opened GatewayTenant

  const MAX_PENDING: nat := 2048

  /** A one-shot reply channel, numbered in the order of registration. */
  type Channel = nat

  type Waiting = map<string, Channel>

  datatype Tenant = Tenant(partition: Partition, requests: Waiting, meshRequests: Waiting)

  datatype PendingKey = PendingKey(tenant: string, request: string, mesh: bool)

  datatype Metadata = Metadata(generation: nat, limit: Option<nat>)

  /** `wellFormed` says that a mesh response carries the expected schema. */
  datatype Response = Response(request: string, wellFormed: bool, bodyLength: nat)

  /** What a registration fixed: the key, the chosen worker and the response limit of a mesh request. */
  datatype Registration = Registration(key: PendingKey, worker: WorkerConnection, limit: Option<nat>)

  /** A response put into a channel; `sender` is the connection it came through, if the entry was bound to one. */
  datatype Delivery = Delivery(channel: Channel, key: PendingKey, sender: Option<nat>, response: Response)

  /** The shared maps, the history of registrations and deliveries, and the channels whose task still lives: each task
      holds one cleanup guard, which forgets the request's key when the task ends. */
  datatype World = World(
    tenants: map<string, Tenant>, metadata: map<PendingKey, Metadata>,
    issued: seq<Registration>, deliveries: seq<Delivery>, live: set<Channel>)

  const EMPTY_TENANT := Tenant(Partition(map[], map[]), map[], map[])

  const START := World(map[], map[], [], [], {})

  function TenantAt(w: World, tenant: string): Tenant {
    if tenant in w.tenants then w.tenants[tenant] else EMPTY_TENANT
  }

  function WaitingOf(t: Tenant, mesh: bool): Waiting {
    if mesh then t.meshRequests else t.requests
  }

  function WithWaiting(t: Tenant, mesh: bool, waiting: Waiting): Tenant {
    if mesh then t.(meshRequests := waiting) else t.(requests := waiting)
  }

  // --------------------------------------------------------------------------
  // The atomic steps under the tenants lock
  // --------------------------------------------------------------------------

  /** What a request asks for; a mesh request without a peer envelope names no cluster and no capability. */
  datatype Ask = Ask(key: PendingKey, core: string, filter: Option<(string, string)>, limit: Option<nat>)

  /** The first worker of the core in map order, if there is one. */
  predicate IsChoice(workers: Workers, core: string, choice: Option<Slot>) {
    match choice
    case Some(slot) => slot in workers && slot.1 == core
    case None => forall slot :: slot in workers ==> slot.1 != core
  }

  predicate Compatible(p: Partition, worker: WorkerConnection, filter: Option<(string, string)>) {
    filter.Some? ==>
      worker.cluster == Some(filter.value.0) && Advertises(p.adverts, worker.key, filter.value.1)
  }

  predicate CanRegister(t: Tenant, key: PendingKey) {
    var waiting := WaitingOf(t, key.mesh);
    |waiting| < MAX_PENDING && key.request !in waiting
  }

  predicate Registrable(w: World, ask: Ask, choice: Option<Slot>) {
    var t := TenantAt(w, ask.key.tenant);
    && (ask.key.mesh ==> ask.key.tenant in w.tenants)
    && choice.Some? && choice.value in t.partition.workers
    && Compatible(t.partition, t.partition.workers[choice.value], ask.filter)
    && CanRegister(t, ask.key)
  }

  /** A client request creates its tenant even when it is then rejected. */
  function Entered(w: World, key: PendingKey): World {
    if key.mesh then w else w.(tenants := w.tenants[key.tenant := TenantAt(w, key.tenant)])
  }

  function Registered(w: World, ask: Ask, choice: Option<Slot>): World {
    if !Registrable(w, ask, choice) then Entered(w, ask.key)
    else
      var t, key := TenantAt(w, ask.key.tenant), ask.key;
      var worker := t.partition.workers[choice.value];
      var waiting := WaitingOf(t, key.mesh)[key.request := |w.issued|];
      World(w.tenants[key.tenant := WithWaiting(t, key.mesh, waiting)],
            w.metadata[key := Metadata(worker.generation, ask.limit)],
            w.issued + [Registration(key, worker, ask.limit)], w.deliveries, w.live + {|w.issued|})
  }

  /** The response may answer the request the metadata describes. */
  predicate Admissible(m: Metadata, key: PendingKey, sender: Option<nat>, r: Response) {
    && (sender.Some? ==> sender.value == m.generation)
    && (key.mesh ==> m.limit.Some? && r.wellFormed && r.bodyLength <= m.limit.value)
  }

  predicate Awaited(w: World, key: PendingKey, sender: Option<nat>, r: Response) {
    && key.tenant in w.tenants && key in w.metadata && Admissible(w.metadata[key], key, sender, r)
  }

  function Forgotten(w: World, key: PendingKey): World {
    var tenants :=
      if key.tenant in w.tenants then
        var t := w.tenants[key.tenant];
        w.tenants[key.tenant := WithWaiting(t, key.mesh, WaitingOf(t, key.mesh) - {key.request})]
      else w.tenants;
    w.(tenants := tenants, metadata := w.metadata - {key})
  }

  function ChannelOf(w: World, key: PendingKey): Option<Channel> {
    if key.tenant in w.tenants && key.request in WaitingOf(w.tenants[key.tenant], key.mesh)
    then Some(WaitingOf(w.tenants[key.tenant], key.mesh)[key.request]) else None
  }

  function Dispatched(w: World, key: PendingKey, sender: Option<nat>, r: Response): World {
    if !Awaited(w, key, sender, r) then w
    else
      var channel, w' := ChannelOf(w, key), Forgotten(w, key);
      if channel.None? then w'
      else w'.(deliveries := w.deliveries + [Delivery(channel.value, key, sender, r)])
  }

  /** A live task forgets its request's key: before it answers for itself, or through its guard as it ends. */
  function CleanedUp(w: World, channel: Channel, ends: bool): World {
    if channel !in w.live || channel >= |w.issued| then w
    else Forgotten(w, w.issued[channel].key).(live := if ends then w.live - {channel} else w.live)
  }

  datatype Step =
    | Register(ask: Ask, choice: Option<Slot>)
    | Dispatch(tenant: string, mesh: bool, sender: Option<nat>, response: Response)
    | GiveUp(channel: Channel)
    | DropGuard(channel: Channel)
    | WorkerStep(tenant: string, step: GatewayTenant.Step)

  /** A worker connects into a tenant that is created for it; a teardown finds the tenant or does nothing. */
  function WorkerStepped(w: World, tenant: string, step: GatewayTenant.Step): World {
    if step.Teardown? && tenant !in w.tenants then w
    else
      var t := TenantAt(w, tenant);
      w.(tenants := w.tenants[tenant := t.(partition := GatewayTenant.Next(t.partition, step))])
  }

  function After(w: World, step: Step): World {
    match step
    case Register(ask, choice) => Registered(w, ask, choice)
    case Dispatch(tenant, mesh, sender, r) => Dispatched(w, PendingKey(tenant, r.request, mesh), sender, r)
    case GiveUp(channel) => CleanedUp(w, channel, false)
    case DropGuard(channel) => CleanedUp(w, channel, true)
    case WorkerStep(tenant, s) => WorkerStepped(w, tenant, s)
  }

  function Exec(w: World, steps: seq<Step>): World {
    if steps == [] then w else After(Exec(w, steps[..|steps| - 1]), steps[|steps| - 1])
  }

  // --------------------------------------------------------------------------
  // The router
  // --------------------------------------------------------------------------

  class Router {
    var tenants: map<string, Tenant>
    var metadata: map<PendingKey, Metadata>
    var issued: seq<Registration>
    var deliveries: seq<Delivery>
    var live: set<Channel>

    ghost function View(): World
      reads this
    {
      World(tenants, metadata, issued, deliveries, live)
    }

    constructor ()
      ensures View() == START
    {
      tenants, metadata, issued, deliveries, live := map[], map[], [], [], {};
    }

    /** Picks a worker, opens a channel and registers it together with its metadata. */
    method RegisterRequest(ask: Ask) returns (r: Option<Channel>, choice: Option<Slot>)
      modifies this
      ensures IsChoice(TenantAt(old(View()), ask.key.tenant).partition.workers, ask.core, choice)
      ensures View() == Registered(old(View()), ask, choice)
      ensures r == if Registrable(old(View()), ask, choice) then Some(|old(issued)|) else None
    {
      var key := ask.key;
      if key.tenant !in tenants {
        if key.mesh {
          return None, None;
        }
        tenants := tenants[key.tenant := EMPTY_TENANT];
      }
      var t := tenants[key.tenant];
      assert tenants == tenants[key.tenant := t];
      var candidates := set slot | slot in t.partition.workers && slot.1 == ask.core;
      if candidates == {} {
        assert forall slot :: slot in t.partition.workers && slot.1 == ask.core ==> slot in candidates;
        return None, None;
      }
      var slot :| slot in candidates;
      choice := Some(slot);
      var worker := t.partition.workers[slot];
      if !Compatible(t.partition, worker, ask.filter) || !CanRegister(t, key) {
        return None, choice;
      }
      var channel := |issued|;
      tenants := tenants[key.tenant := WithWaiting(t, key.mesh, WaitingOf(t, key.mesh)[key.request := channel])];
      metadata := metadata[key := Metadata(worker.generation, ask.limit)];
      issued := issued + [Registration(key, worker, ask.limit)];
      live := live + {channel};
      r := Some(channel);
    }

    method DispatchWorkerResponse(tenant: string, mesh: bool, sender: Option<nat>, response: Response)
      returns (delivered: bool)
      modifies this
      ensures View() == After(old(View()), Dispatch(tenant, mesh, sender, response))
      ensures delivered <==> |deliveries| == |old(deliveries)| + 1
    {
      var key := PendingKey(tenant, response.request, mesh);
      delivered := false;
      if tenant in tenants {
        if key in metadata && Admissible(metadata[key], key, sender, response) {
          var t := tenants[tenant];
          var waiting := WaitingOf(t, mesh);
          metadata := metadata - {key};
          tenants := tenants[tenant := WithWaiting(t, mesh, waiting - {response.request})];
          if response.request in waiting {
            deliveries := deliveries + [Delivery(waiting[response.request], key, sender, response)];
            delivered := true;
          }
        }
      }
    }

    method CleanupPendingRequest(key: PendingKey)
      modifies this
      ensures View() == Forgotten(old(View()), key)
    {
      if key.tenant in tenants {
        var t := tenants[key.tenant];
        tenants := tenants[key.tenant := WithWaiting(t, key.mesh, WaitingOf(t, key.mesh) - {key.request})];
      }
      metadata := metadata - {key};
    }

    /** The guard of a task, dropped as the task ends. */
    method DropPendingCleanup(channel: Channel)
      modifies this
      ensures View() == After(old(View()), DropGuard(channel))
    {
      if channel in live && channel < |issued| {
        CleanupPendingRequest(issued[channel].key);
        live := live - {channel};
      }
    }
  }

  // --------------------------------------------------------------------------
  // What every step keeps
  // --------------------------------------------------------------------------

  predicate Delivered(w: World, channel: Channel) {
    exists i :: 0 <= i < |w.deliveries| && w.deliveries[i].channel == channel
  }

  /** Channel and metadata of one key are in step; a waiting channel is the one registered for the key, unanswered. */
  predicate Linked(w: World, key: PendingKey) {
    match ChannelOf(w, key)
    case None => key !in w.metadata
    case Some(channel) =>
      && key in w.metadata && channel < |w.issued| && !Delivered(w, channel) && w.issued[channel].key == key
      && w.metadata[key] == Metadata(w.issued[channel].worker.generation, w.issued[channel].limit)
  }

  /** A delivery answers the request its channel was registered for, from the worker chosen then. */
  predicate Correlated(w: World, d: Delivery) {
    && d.channel < |w.issued| && w.issued[d.channel].key == d.key && d.key.request == d.response.request
    && Admissible(Metadata(w.issued[d.channel].worker.generation, w.issued[d.channel].limit), d.key, d.sender, d.response)
  }

  ghost predicate AtMostOnce(w: World) {
    forall i, j :: 0 <= i < j < |w.deliveries| ==> w.deliveries[i].channel != w.deliveries[j].channel
  }

  ghost predicate AllLinked(w: World) {
    forall key :: Linked(w, key)
  }

  ghost predicate AllCorrelated(w: World) {
    forall i :: 0 <= i < |w.deliveries| ==> Correlated(w, w.deliveries[i])
  }

  ghost predicate SoundTenant(t: Tenant) {
    |t.requests| <= MAX_PENDING && |t.meshRequests| <= MAX_PENDING && Consistent(t.partition)
  }

  ghost predicate AllSound(w: World) {
    forall t :: t in w.tenants ==> SoundTenant(w.tenants[t])
  }

  ghost predicate Safe(w: World) {
    AllLinked(w) && AtMostOnce(w) && AllCorrelated(w) && AllSound(w)
  }

  // --------------------------------------------------------------------------
  // Tenants
  // --------------------------------------------------------------------------

  lemma SmallerMap(m: Waiting, k: string)
    ensures |m - {k}| <= |m|
  {
    assert (m - {k}).Keys == m.Keys - {k};
    assert |m - {k}| == |(m - {k}).Keys| && |m| == |m.Keys|;
  }

  lemma GrowingMap(m: Waiting, k: string, c: Channel)
    requires k !in m
    ensures |m[k := c]| == |m| + 1
  {
    assert m[k := c].Keys == m.Keys + {k};
    assert |m[k := c]| == |m[k := c].Keys| && |m| == |m.Keys|;
  }

  lemma ForgottenIsSound(w: World, key: PendingKey)
    requires AllSound(w)
    ensures AllSound(Forgotten(w, key))
  {
    if key.tenant in w.tenants {
      assert SoundTenant(w.tenants[key.tenant]);
      SmallerMap(WaitingOf(w.tenants[key.tenant], key.mesh), key.request);
    }
  }

  lemma TenantAtIsSound(w: World, tenant: string)
    requires AllSound(w)
    ensures SoundTenant(TenantAt(w, tenant))
  {
  }

  lemma UpdatedIsSound(w: World, w': World, tenant: string, t: Tenant)
    requires AllSound(w) && SoundTenant(t) && w'.tenants == w.tenants[tenant := t]
    ensures AllSound(w')
  {
  }

  lemma RegisteredIsSound(w: World, ask: Ask, choice: Option<Slot>)
    requires AllSound(w)
    ensures AllSound(Registered(w, ask, choice))
  {
    var t, key := TenantAt(w, ask.key.tenant), ask.key;
    TenantAtIsSound(w, key.tenant);
    if Registrable(w, ask, choice) {
      var waiting := WaitingOf(t, key.mesh);
      GrowingMap(waiting, key.request, |w.issued|);
      UpdatedIsSound(w, Registered(w, ask, choice), key.tenant,
                     WithWaiting(t, key.mesh, waiting[key.request := |w.issued|]));
    }
  }

  lemma WorkersStaySound(w: World, tenant: string, step: GatewayTenant.Step)
    requires AllSound(w)
    ensures AllSound(WorkerStepped(w, tenant, step))
  {
    var p := TenantAt(w, tenant).partition;
    TenantAtIsSound(w, tenant);
    if step.Connect? {
      ConnectedStaysConsistent(p, step.conn, step.capabilities);
    } else {
      RemovedStaysConsistent(p, step.slot);
    }
  }

  // --------------------------------------------------------------------------
  // Links
  // --------------------------------------------------------------------------

  lemma ForgottenChannels(w: World, key: PendingKey, k: PendingKey)
    ensures ChannelOf(Forgotten(w, key), k) == if k == key then None else ChannelOf(w, k)
  {
  }

  lemma ForgottenIsLinked(w: World, key: PendingKey)
    requires AllLinked(w)
    ensures AllLinked(Forgotten(w, key))
  {
    forall k ensures Linked(Forgotten(w, key), k) {
      assert Linked(w, k);
      ForgottenChannels(w, key, k);
    }
  }

  /** A waiting channel waits under one key only. */
  lemma OneKey(w: World, key: PendingKey, k: PendingKey)
    requires AllLinked(w) && ChannelOf(w, key).Some? && ChannelOf(w, k) == ChannelOf(w, key)
    ensures k == key
  {
    assert Linked(w, key) && Linked(w, k);
  }

  lemma DeliveredSoFar(w: World, d: Delivery, channel: Channel)
    ensures Delivered(w.(deliveries := w.deliveries + [d]), channel) <==> Delivered(w, channel) || channel == d.channel
  {
    var w' := w.(deliveries := w.deliveries + [d]);
    assert w'.deliveries[|w.deliveries|] == d;
    if i :| 0 <= i < |w.deliveries| && w.deliveries[i].channel == channel {
      assert w'.deliveries[i].channel == channel;
    }
  }

  lemma DeliveryKeepsLinks(w: World, d: Delivery)
    requires AllLinked(w) && forall key :: ChannelOf(w, key) != Some(d.channel)
    ensures AllLinked(w.(deliveries := w.deliveries + [d]))
  {
    var w' := w.(deliveries := w.deliveries + [d]);
    forall k ensures Linked(w', k) {
      assert Linked(w, k) && ChannelOf(w', k) == ChannelOf(w, k);
      if ChannelOf(w, k).Some? {
        DeliveredSoFar(w, d, ChannelOf(w, k).value);
      }
    }
  }

  lemma DeliveryKeepsHistory(w: World, d: Delivery)
    requires AllCorrelated(w) && AtMostOnce(w) && Correlated(w, d) && !Delivered(w, d.channel)
    ensures AllCorrelated(w.(deliveries := w.deliveries + [d])) && AtMostOnce(w.(deliveries := w.deliveries + [d]))
  {
    var w' := w.(deliveries := w.deliveries + [d]);
    forall i | 0 <= i < |w'.deliveries| ensures Correlated(w', w'.deliveries[i]) {
      assert i < |w.deliveries| ==> Correlated(w, w.deliveries[i]);
    }
  }

  lemma DispatchKeepsSafe(w: World, key: PendingKey, sender: Option<nat>, r: Response)
    requires Safe(w) && key.request == r.request
    ensures Safe(Dispatched(w, key, sender, r))
  {
    if Awaited(w, key, sender, r) {
      assert Linked(w, key);
      var w', channel := Forgotten(w, key), ChannelOf(w, key).value;
      CleanupKeepsSafe(w, key);
      forall k ensures ChannelOf(w', k) != Some(channel) {
        ForgottenChannels(w, key, k);
        if ChannelOf(w, k) == Some(channel) {
          OneKey(w, key, k);
        }
      }
      var d := Delivery(channel, key, sender, r);
      assert Delivered(w', channel) == Delivered(w, channel);
      DeliveryKeepsLinks(w', d);
      DeliveryKeepsHistory(w', d);
    }
  }

  lemma CleanupKeepsSafe(w: World, key: PendingKey)
    requires Safe(w)
    ensures Safe(Forgotten(w, key))
  {
    ForgottenIsSound(w, key);
    ForgottenIsLinked(w, key);
    SameHistory(w, Forgotten(w, key));
  }

  /** What was delivered stays correlated as registrations are added. */
  lemma SameHistory(w: World, w': World)
    requires AllCorrelated(w) && AtMostOnce(w) && w'.deliveries == w.deliveries && w.issued <= w'.issued
    ensures AllCorrelated(w') && AtMostOnce(w')
  {
    forall i | 0 <= i < |w'.deliveries| ensures Correlated(w', w'.deliveries[i]) {
      assert Correlated(w, w.deliveries[i]);
    }
  }

  lemma SameLinks(w: World, w': World)
    requires AllLinked(w) && w'.metadata == w.metadata && w'.issued == w.issued && w'.deliveries == w.deliveries
    requires forall k :: ChannelOf(w', k) == ChannelOf(w, k)
    ensures AllLinked(w')
  {
    forall k ensures Linked(w', k) {
      assert Linked(w, k) && ChannelOf(w', k) == ChannelOf(w, k);
    }
  }

  lemma NextChannelIsNew(w: World)
    requires AllCorrelated(w)
    ensures !Delivered(w, |w.issued|)
  {
    forall i | 0 <= i < |w.deliveries| ensures w.deliveries[i].channel != |w.issued| {
      assert Correlated(w, w.deliveries[i]);
    }
  }

  lemma RegisteredChannels(w: World, ask: Ask, choice: Option<Slot>, k: PendingKey)
    requires Registrable(w, ask, choice)
    ensures ChannelOf(Registered(w, ask, choice), k) == if k == ask.key then Some(|w.issued|) else ChannelOf(w, k)
  {
  }

  lemma RegisteredIsLinked(w: World, ask: Ask, choice: Option<Slot>)
    requires AllLinked(w) && AllCorrelated(w) && Registrable(w, ask, choice)
    ensures AllLinked(Registered(w, ask, choice))
  {
    var w' := Registered(w, ask, choice);
    NextChannelIsNew(w);
    forall k ensures Linked(w', k) {
      assert Linked(w, k);
      RegisteredChannels(w, ask, choice, k);
    }
  }

  lemma EnteredIsLinked(w: World, key: PendingKey)
    requires AllLinked(w)
    ensures AllLinked(Entered(w, key))
  {
    var w' := Entered(w, key);
    forall k ensures ChannelOf(w', k) == ChannelOf(w, k) {
    }
    SameLinks(w, w');
  }

  lemma RegisterKeepsHistory(w: World, ask: Ask, choice: Option<Slot>)
    requires AllCorrelated(w) && AtMostOnce(w)
    ensures AllCorrelated(Registered(w, ask, choice)) && AtMostOnce(Registered(w, ask, choice))
  {
    SameHistory(w, Registered(w, ask, choice));
  }

  lemma RegisterKeepsSafe(w: World, ask: Ask, choice: Option<Slot>)
    requires Safe(w)
    ensures Safe(Registered(w, ask, choice))
  {
    RegisteredIsSound(w, ask, choice);
    RegisterKeepsHistory(w, ask, choice);
    if Registrable(w, ask, choice) {
      RegisteredIsLinked(w, ask, choice);
    } else {
      EnteredIsLinked(w, ask.key);
      assert Registered(w, ask, choice) == Entered(w, ask.key);
    }
  }

  lemma WorkersKeepLinks(w: World, tenant: string, step: GatewayTenant.Step)
    requires AllLinked(w)
    ensures AllLinked(WorkerStepped(w, tenant, step))
  {
    var w' := WorkerStepped(w, tenant, step);
    forall k ensures ChannelOf(w', k) == ChannelOf(w, k) {
    }
    SameLinks(w, w');
  }

  lemma WorkersKeepSafe(w: World, tenant: string, step: GatewayTenant.Step)
    requires Safe(w)
    ensures Safe(WorkerStepped(w, tenant, step))
  {
    WorkersStaySound(w, tenant, step);
    WorkersKeepLinks(w, tenant, step);
    SameHistory(w, WorkerStepped(w, tenant, step));
  }

  lemma SameButLive(w: World, live: set<Channel>)
    requires Safe(w)
    ensures Safe(w.(live := live))
  {
    var w' := w.(live := live);
    forall k ensures ChannelOf(w', k) == ChannelOf(w, k) {
    }
    SameLinks(w, w');
    SameHistory(w, w');
  }

  lemma CleanedUpKeepsSafe(w: World, channel: Channel, ends: bool)
    requires Safe(w)
    ensures Safe(CleanedUp(w, channel, ends))
  {
    if channel in w.live && channel < |w.issued| {
      CleanupKeepsSafe(w, w.issued[channel].key);
      SameButLive(Forgotten(w, w.issued[channel].key), CleanedUp(w, channel, ends).live);
    }
  }

  /**
   * Whatever the interleaving: channels and metadata stay in step and bounded, no channel is answered twice,
   * and every answer belongs to its request and, through the worker-bound entry, comes from the chosen worker.
   */
  lemma {:induction false} RunsAreSafe(steps: seq<Step>)
    ensures Safe(Exec(START, steps))
  {
    if steps != [] {
      var w, step := Exec(START, steps[..|steps| - 1]), steps[|steps| - 1];
      RunsAreSafe(steps[..|steps| - 1]);
      match step
      case Register(ask, choice) => RegisterKeepsSafe(w, ask, choice);
      case Dispatch(tenant, mesh, sender, r) => DispatchKeepsSafe(w, PendingKey(tenant, r.request, mesh), sender, r);
      case GiveUp(channel) => CleanedUpKeepsSafe(w, channel, false);
      case DropGuard(channel) => CleanedUpKeepsSafe(w, channel, true);
      case WorkerStep(tenant, s) => WorkersKeepSafe(w, tenant, s);
    }
  }

  /** A bound response that reaches a channel came through the connection generation fixed at registration. */
  lemma BoundResponsesComeFromTheChosenWorker(steps: seq<Step>, i: nat)
    requires i < |Exec(START, steps).deliveries| && Exec(START, steps).deliveries[i].sender.Some?
    ensures var w := Exec(START, steps);
            var d := w.deliveries[i];
            d.channel < |w.issued| && w.issued[d.channel].worker.generation == d.sender.value
            && w.issued[d.channel].key.request == d.response.request
  {
    RunsAreSafe(steps);
    assert Correlated(Exec(START, steps), Exec(START, steps).deliveries[i]);
  }

  /** A request is registered exactly when its tenant is known or it is not a mesh request, the chosen worker is live and
      fits what it asks for, fewer than the limit wait, and its id does not; then channel, metadata, history and guard
      are all added for it. */
  lemma RegisteredExactlyWhen(w: World, ask: Ask, slot: Slot)
    ensures var known := ask.key.tenant in w.tenants;
      var t := if known then w.tenants[ask.key.tenant] else EMPTY_TENANT;
      var waiting := if ask.key.mesh then t.meshRequests else t.requests;
      var w' := Registered(w, ask, Some(slot));
      var accepted :=
        && (known || !ask.key.mesh) && slot in t.partition.workers
        && (ask.filter.Some? ==>
              var worker := t.partition.workers[slot];
              && worker.cluster == Some(ask.filter.value.0)
              && worker.key in t.partition.adverts && ask.filter.value.1 in t.partition.adverts[worker.key])
        && |waiting| < 2048 && ask.key.request !in waiting;
      if accepted then
        && w'.issued == w.issued + [Registration(ask.key, t.partition.workers[slot], ask.limit)]
        && w'.metadata == w.metadata[ask.key := Metadata(t.partition.workers[slot].generation, ask.limit)]
        && ChannelOf(w', ask.key) == Some(|w.issued|) && w'.live == w.live + {|w.issued|}
        && w'.deliveries == w.deliveries
        && forall k :: k != ask.key ==> ChannelOf(w', k) == ChannelOf(w, k)
      else
        && w'.issued == w.issued && w'.metadata == w.metadata && w'.live == w.live && w'.deliveries == w.deliveries
        && forall k :: ChannelOf(w', k) == ChannelOf(w, k)
  {
    if Registrable(w, ask, Some(slot)) {
      forall k ensures k != ask.key ==> ChannelOf(Registered(w, ask, Some(slot)), k) == ChannelOf(w, k) {
        RegisteredChannels(w, ask, Some(slot), k);
      }
    }
  }

  /** A live task that gives up forgets its key and lives on; when it ends its guard forgets the key again, and is gone. A
      task that is not alive does neither. */
  lemma GivingUpAndEnding(w: World, c: Channel)
    requires c < |w.issued|
    ensures After(w, GiveUp(c)).live == w.live && After(w, DropGuard(c)).live == w.live - {c}
    ensures c !in w.live ==> After(w, GiveUp(c)) == w && After(w, DropGuard(c)) == w
    ensures c in w.live ==>
      forall step :: step == GiveUp(c) || step == DropGuard(c) ==>
        && ChannelOf(After(w, step), w.issued[c].key).None? && w.issued[c].key !in After(w, step).metadata
        && After(w, step).deliveries == w.deliveries && After(w, step).issued == w.issued
        && forall k :: k != w.issued[c].key ==> ChannelOf(After(w, step), k) == ChannelOf(w, k)
  {
    forall k, ends | c in w.live ensures ChannelOf(CleanedUp(w, c, ends), k) ==
                                         (if k == w.issued[c].key then None else ChannelOf(w, k)) {
      CleanedUpChannels(w, c, ends, k);
    }
  }

  /** Workers come and go in their own tenant: a connection creates it, a teardown does not; what waits is untouched. */
  lemma WorkerStepsStayInTheirTenant(w: World, tenant: string, step: GatewayTenant.Step)
    ensures var before := if tenant in w.tenants then w.tenants[tenant] else EMPTY_TENANT;
      After(w, WorkerStep(tenant, step)) ==
        if tenant in w.tenants || step.Connect? then
          w.(tenants := w.tenants[tenant := before.(partition := GatewayTenant.Next(before.partition, step))])
        else w
  {
  }

  /** In every run a response is delivered exactly when a request waits under its key, it comes through the chosen
      connection if it is bound to one, and a mesh response is well formed and within the limit; anything else changes
      nothing. */
  lemma DeliveredExactlyWhen(steps: seq<Step>, key: PendingKey, sender: Option<nat>, r: Response)
    ensures var w := Exec(START, steps);
      var channel := ChannelOf(w, key);
      var admitted :=
        && channel.Some? && channel.value < |w.issued|
        && (sender.Some? ==> sender.value == w.issued[channel.value].worker.generation)
        && (key.mesh ==>
              var limit := w.issued[channel.value].limit;
              limit.Some? && r.wellFormed && r.bodyLength <= limit.value);
      if admitted then Dispatched(w, key, sender, r).deliveries == w.deliveries + [Delivery(channel.value, key, sender, r)]
      else Dispatched(w, key, sender, r) == w
  {
    RunsAreSafe(steps);
    var w := Exec(START, steps);
    assert Linked(w, key);
  }

  /** An admissible response to a waiting request is delivered, and to that request. */
  lemma AwaitedResponseIsDelivered(w: World, key: PendingKey, sender: Option<nat>, r: Response)
    requires Safe(w) && ChannelOf(w, key).Some? && key.request == r.request
    requires key in w.metadata && Admissible(w.metadata[key], key, sender, r)
    ensures var w' := Dispatched(w, key, sender, r);
            && w'.deliveries == w.deliveries + [Delivery(ChannelOf(w, key).value, key, sender, r)]
            && ChannelOf(w', key).None?
            && forall k :: k != key ==> ChannelOf(w', k) == ChannelOf(w, k)
  {
    forall k ensures ChannelOf(Forgotten(w, key), k) == if k == key then None else ChannelOf(w, k) {
      ForgottenChannels(w, key, k);
    }
    forall k ensures ChannelOf(Dispatched(w, key, sender, r), k) == ChannelOf(Forgotten(w, key), k) {
    }
  }

  // --------------------------------------------------------------------------
  // Once a channel no longer waits, its fate is sealed
  // --------------------------------------------------------------------------

  ghost predicate Abandoned(w: World, channel: Channel) {
    channel < |w.issued| && !Delivered(w, channel) && forall key :: ChannelOf(w, key) != Some(channel)
  }

  lemma StepKeepsAbandoned(w: World, step: Step, channel: Channel)
    requires Abandoned(w, channel)
    ensures Abandoned(After(w, step), channel)
  {
    match step
    case Register(ask, choice) =>
      forall k ensures ChannelOf(After(w, step), k) != Some(channel) {
        if Registrable(w, ask, choice) {
          RegisteredChannels(w, ask, choice, k);
        } else {
          assert ChannelOf(Entered(w, ask.key), k) == ChannelOf(w, k);
        }
      }
    case Dispatch(tenant, mesh, sender, r) =>
      DispatchKeepsAbandoned(w, PendingKey(tenant, r.request, mesh), sender, r, channel);
    case GiveUp(c) => CleanedUpStaysAbandoned(w, c, false, channel);
    case DropGuard(c) => CleanedUpStaysAbandoned(w, c, true, channel);
    case WorkerStep(tenant, s) =>
      forall k ensures ChannelOf(After(w, step), k) != Some(channel) {
        assert ChannelOf(WorkerStepped(w, tenant, s), k) == ChannelOf(w, k);
      }
  }

  lemma CleanedUpStaysAbandoned(w: World, c: Channel, ends: bool, channel: Channel)
    requires Abandoned(w, channel)
    ensures Abandoned(CleanedUp(w, c, ends), channel)
  {
    if c in w.live && c < |w.issued| {
      var forgotten, w' := Forgotten(w, w.issued[c].key), CleanedUp(w, c, ends);
      ForgottenStaysAbandoned(w, w.issued[c].key, channel);
      forall k ensures ChannelOf(w', k) == ChannelOf(forgotten, k) {
      }
    }
  }

  lemma ForgottenStaysAbandoned(w: World, key: PendingKey, channel: Channel)
    requires Abandoned(w, channel)
    ensures Abandoned(Forgotten(w, key), channel)
  {
    forall k ensures ChannelOf(Forgotten(w, key), k) != Some(channel) {
      ForgottenChannels(w, key, k);
    }
  }

  lemma DispatchKeepsAbandoned(w: World, key: PendingKey, sender: Option<nat>, r: Response, channel: Channel)
    requires Abandoned(w, channel)
    ensures Abandoned(Dispatched(w, key, sender, r), channel)
  {
    var w' := Forgotten(w, key);
    ForgottenStaysAbandoned(w, key, channel);
    if Awaited(w, key, sender, r) && ChannelOf(w, key).Some? {
      var d := Delivery(ChannelOf(w, key).value, key, sender, r);
      DeliveredSoFar(w', d, channel);
      forall k ensures ChannelOf(w'.(deliveries := w'.deliveries + [d]), k) == ChannelOf(w', k) {
      }
    }
  }

  /** A request whose channel was dropped unanswered is never answered afterwards. */
  lemma {:induction false} AbandonedIsNeverAnswered(w: World, steps: seq<Step>, channel: Channel)
    requires Abandoned(w, channel)
    ensures Abandoned(Exec(w, steps), channel)
  {
    if steps != [] {
      AbandonedIsNeverAnswered(w, steps[..|steps| - 1], channel);
      StepKeepsAbandoned(Exec(w, steps[..|steps| - 1]), steps[|steps| - 1], channel);
    }
  }

  // --------------------------------------------------------------------------
  // Guards of other tasks
  // --------------------------------------------------------------------------

  /** Every waiting channel belongs to a live task. */
  ghost predicate WaitingLives(w: World) {
    && (forall c :: c in w.live ==> c < |w.issued|)
    && (forall key :: ChannelOf(w, key).Some? ==> ChannelOf(w, key).value in w.live)
  }

  lemma CleanedUpChannels(w: World, c: Channel, ends: bool, k: PendingKey)
    ensures ChannelOf(CleanedUp(w, c, ends), k) ==
      if c in w.live && c < |w.issued| && k == w.issued[c].key then None else ChannelOf(w, k)
  {
    if c in w.live && c < |w.issued| {
      ForgottenChannels(w, w.issued[c].key, k);
      assert ChannelOf(CleanedUp(w, c, ends), k) == ChannelOf(Forgotten(w, w.issued[c].key), k);
    }
  }

  lemma DispatchedChannels(w: World, key: PendingKey, sender: Option<nat>, r: Response, k: PendingKey)
    ensures ChannelOf(Dispatched(w, key, sender, r), k) ==
      if k == key && Awaited(w, key, sender, r) then None else ChannelOf(w, k)
  {
    if Awaited(w, key, sender, r) {
      ForgottenChannels(w, key, k);
      assert ChannelOf(Dispatched(w, key, sender, r), k) == ChannelOf(Forgotten(w, key), k);
    }
  }

  lemma WorkerSteppedChannels(w: World, tenant: string, step: GatewayTenant.Step, k: PendingKey)
    ensures ChannelOf(WorkerStepped(w, tenant, step), k) == ChannelOf(w, k)
  {
  }

  lemma EnteredChannels(w: World, key: PendingKey, k: PendingKey)
    ensures ChannelOf(Entered(w, key), k) == ChannelOf(w, k)
  {
  }

  lemma CleanedUpKeepsLives(w: World, c: Channel, ends: bool)
    requires Safe(w) && WaitingLives(w)
    ensures WaitingLives(CleanedUp(w, c, ends))
  {
    forall k | ChannelOf(CleanedUp(w, c, ends), k).Some?
      ensures ChannelOf(CleanedUp(w, c, ends), k).value in CleanedUp(w, c, ends).live
    {
      CleanedUpChannels(w, c, ends, k);
      assert Linked(w, k);
    }
  }

  lemma RegisterKeepsLives(w: World, ask: Ask, choice: Option<Slot>)
    requires WaitingLives(w)
    ensures WaitingLives(Registered(w, ask, choice))
  {
    if Registrable(w, ask, choice) {
      AcceptedKeepsLives(w, ask, choice, Registered(w, ask, choice));
    } else {
      EnteredKeepsLives(w, ask.key);
    }
  }

  lemma AcceptedKeepsLives(w: World, ask: Ask, choice: Option<Slot>, w': World)
    requires WaitingLives(w) && Registrable(w, ask, choice) && w' == Registered(w, ask, choice)
    ensures WaitingLives(w')
  {
    LivesAfterRegister(w, ask, choice);
    forall k | ChannelOf(w', k).Some? ensures ChannelOf(w', k).value in w'.live {
      RegisteredChannels(w, ask, choice, k);
    }
  }

  lemma EnteredKeepsLives(w: World, key: PendingKey)
    requires WaitingLives(w)
    ensures WaitingLives(Entered(w, key))
  {
    forall k | ChannelOf(Entered(w, key), k).Some? ensures ChannelOf(Entered(w, key), k).value in Entered(w, key).live {
      EnteredChannels(w, key, k);
    }
  }

  lemma LivesAfterRegister(w: World, ask: Ask, choice: Option<Slot>)
    requires Registrable(w, ask, choice)
    ensures Registered(w, ask, choice).live == w.live + {|w.issued|}
  {
  }

  lemma DispatchedKeepsLives(w: World, key: PendingKey, sender: Option<nat>, r: Response)
    requires WaitingLives(w)
    ensures WaitingLives(Dispatched(w, key, sender, r))
  {
    var w' := Dispatched(w, key, sender, r);
    forall k | ChannelOf(w', k).Some? ensures ChannelOf(w', k).value in w'.live {
      DispatchedChannels(w, key, sender, r, k);
    }
  }

  lemma WorkerSteppedKeepsLives(w: World, tenant: string, step: GatewayTenant.Step)
    requires WaitingLives(w)
    ensures WaitingLives(WorkerStepped(w, tenant, step))
  {
    var w' := WorkerStepped(w, tenant, step);
    forall k | ChannelOf(w', k).Some? ensures ChannelOf(w', k).value in w'.live {
      WorkerSteppedChannels(w, tenant, step, k);
    }
  }

  lemma StepKeepsLives(w: World, step: Step)
    requires Safe(w) && WaitingLives(w)
    ensures WaitingLives(After(w, step))
  {
    match step
    case Register(ask, choice) => RegisterKeepsLives(w, ask, choice);
    case Dispatch(tenant, mesh, sender, r) => DispatchedKeepsLives(w, PendingKey(tenant, r.request, mesh), sender, r);
    case GiveUp(c) => CleanedUpKeepsLives(w, c, false);
    case DropGuard(c) => CleanedUpKeepsLives(w, c, true);
    case WorkerStep(tenant, s) => WorkerSteppedKeepsLives(w, tenant, s);
  }

  lemma {:induction false} WaitingChannelsLive(steps: seq<Step>)
    ensures WaitingLives(Exec(START, steps))
  {
    if steps != [] {
      WaitingChannelsLive(steps[..|steps| - 1]);
      RunsAreSafe(steps[..|steps| - 1]);
      StepKeepsLives(Exec(START, steps[..|steps| - 1]), steps[|steps| - 1]);
    }
  }

  predicate OwnCleanup(step: Step, channel: Channel) {
    step == GiveUp(channel) || step == DropGuard(channel)
  }

  /** The step takes the channel from under its key and does not answer it. */
  predicate Cancels(w: World, step: Step, key: PendingKey, channel: Channel) {
    ChannelOf(After(w, step), key) != Some(channel) && !Delivered(After(w, step), channel)
  }

  /** The guard of another live task holds the key. */
  predicate AnotherHolds(w: World, key: PendingKey, channel: Channel) {
    exists other :: other in w.live && other != channel && other < |w.issued| && w.issued[other].key == key
  }

  lemma OnlyCleanupsCancel(w: World, step: Step, key: PendingKey, channel: Channel)
    requires Safe(w) && ChannelOf(w, key) == Some(channel)
    requires !OwnCleanup(step, channel) && Cancels(w, step, key, channel)
    ensures AnotherHolds(w, key, channel)
  {
    match step
    case Register(ask, choice) =>
      if Registrable(w, ask, choice) {
        RegisteredChannels(w, ask, choice, key);
      } else {
        EnteredChannels(w, ask.key, key);
      }
    case Dispatch(tenant, mesh, sender, r) =>
      var dispatched := PendingKey(tenant, r.request, mesh);
      DispatchedChannels(w, dispatched, sender, r, key);
      if dispatched == key && Awaited(w, key, sender, r) {
        DeliveredSoFar(Forgotten(w, key), Delivery(channel, key, sender, r), channel);
      }
    case GiveUp(c) => CleanedUpChannels(w, c, false, key);
    case DropGuard(c) => CleanedUpChannels(w, c, true, key);
    case WorkerStep(tenant, s) => WorkerSteppedChannels(w, tenant, s, key);
  }

  lemma OtherGuardCancels(w: World, key: PendingKey, channel: Channel, other: Channel)
    requires ChannelOf(w, key) == Some(channel) && !Delivered(w, channel)
    requires other in w.live && other < |w.issued| && w.issued[other].key == key
    ensures Cancels(w, DropGuard(other), key, channel)
  {
    CleanedUpChannels(w, other, true, key);
    CleanedUpDelivers(w, other, true, channel);
  }

  lemma WaitingIsUnanswered(w: World, key: PendingKey, channel: Channel)
    requires Safe(w) && ChannelOf(w, key) == Some(channel)
    ensures !Delivered(w, channel)
  {
    assert Linked(w, key);
  }

  lemma CleanedUpDelivers(w: World, c: Channel, ends: bool, channel: Channel)
    ensures Delivered(CleanedUp(w, c, ends), channel) <==> Delivered(w, channel)
  {
  }

  /** A step that is not the channel's own cleanup cancels it. */
  ghost predicate Cancellable(w: World, key: PendingKey, channel: Channel) {
    exists step :: !OwnCleanup(step, channel) && Cancels(w, step, key, channel)
  }

  /** In every run, a waiting request can lose its channel unanswered to anything but its own task exactly when the
      guard of another live task holds its key. */
  lemma CancelledExactlyByOtherGuards(steps: seq<Step>, key: PendingKey, channel: Channel)
    requires ChannelOf(Exec(START, steps), key) == Some(channel)
    ensures Cancellable(Exec(START, steps), key, channel) <==> AnotherHolds(Exec(START, steps), key, channel)
  {
    RunsAreSafe(steps);
    CancellableIff(Exec(START, steps), key, channel);
  }

  lemma CancellableIff(w: World, key: PendingKey, channel: Channel)
    requires Safe(w) && ChannelOf(w, key) == Some(channel)
    ensures Cancellable(w, key, channel) <==> AnotherHolds(w, key, channel)
  {
    if Cancellable(w, key, channel) {
      var step :| !OwnCleanup(step, channel) && Cancels(w, step, key, channel);
      OnlyCleanupsCancel(w, step, key, channel);
    }
    if AnotherHolds(w, key, channel) {
      var other :| other in w.live && other != channel && other < |w.issued| && w.issued[other].key == key;
      WaitingIsUnanswered(w, key, channel);
      OtherGuardCancels(w, key, channel, other);
      assert !OwnCleanup(DropGuard(other), channel);
    }
  }

  /** No live task holds the key. */
  predicate FreshKey(w: World, key: PendingKey) {
    forall c :: c in w.live && c < |w.issued| ==> w.issued[c].key != key
  }

  ghost predicate DistinctLiveKeys(w: World) {
    forall a, b :: a in w.live && b in w.live && a < b < |w.issued| ==> w.issued[a].key != w.issued[b].key
  }

  /** The registration is refused, or its key is fresh. */
  predicate RegistersFresh(w: World, step: Step) {
    step.Register? && Registrable(w, step.ask, step.choice) ==> FreshKey(w, step.ask.key)
  }

  /** Every accepted registration of the run uses a key that no live task holds. */
  ghost predicate FreshRun(steps: seq<Step>) {
    forall n :: 0 <= n < |steps| ==> RegistersFresh(Exec(START, steps[..n]), steps[n])
  }

  lemma {:induction false} FreshRunsKeepKeysDistinct(steps: seq<Step>)
    requires FreshRun(steps)
    ensures DistinctLiveKeys(Exec(START, steps))
  {
    if steps != [] {
      var n := |steps| - 1;
      var before := steps[..n];
      PrefixIsFresh(steps, n);
      FreshRunsKeepKeysDistinct(before);
      WaitingChannelsLive(before);
      assert RegistersFresh(Exec(START, before), steps[n]);
      StepKeepsKeysDistinct(Exec(START, before), steps[n]);
    }
  }

  lemma PrefixIsFresh(steps: seq<Step>, n: nat)
    requires n <= |steps| && FreshRun(steps)
    ensures FreshRun(steps[..n])
  {
    forall m | 0 <= m < n ensures RegistersFresh(Exec(START, steps[..n][..m]), steps[..n][m]) {
      assert steps[..n][..m] == steps[..m];
    }
  }

  lemma StepKeepsKeysDistinct(w: World, step: Step)
    requires WaitingLives(w) && DistinctLiveKeys(w) && RegistersFresh(w, step)
    ensures DistinctLiveKeys(After(w, step))
  {
  }

  lemma DistinctMeansNoOther(w: World, key: PendingKey, channel: Channel)
    requires DistinctLiveKeys(w) && channel in w.live && channel < |w.issued| && w.issued[channel].key == key
    ensures !AnotherHolds(w, key, channel)
  {
    forall other | other in w.live && other != channel && other < |w.issued| ensures w.issued[other].key != key {
      assert w.issued[Min(other, channel)].key != w.issued[Max(other, channel)].key;
    }
  }

  /** With fresh ids among live tasks, no request ever loses its channel to another task. */
  lemma FreshRunsCancelNothing(steps: seq<Step>, key: PendingKey, channel: Channel)
    requires FreshRun(steps) && ChannelOf(Exec(START, steps), key) == Some(channel)
    ensures !Cancellable(Exec(START, steps), key, channel)
  {
    RunsAreSafe(steps);
    WaitingChannelsLive(steps);
    FreshRunsKeepKeysDistinct(steps);
    assert Linked(Exec(START, steps), key);
    DistinctMeansNoOther(Exec(START, steps), key, channel);
    CancelledExactlyByOtherGuards(steps, key, channel);
  }

  /** A registration under a key that is not fresh exposes its channel to the guard that holds the key. */
  lemma StaleKeyIsCancellable(steps: seq<Step>, step: Step)
    requires !RegistersFresh(Exec(START, steps), step)
    ensures var w := Exec(START, steps + [step]);
      && ChannelOf(w, step.ask.key).Some?
      && Cancellable(w, step.ask.key, ChannelOf(w, step.ask.key).value)
  {
    var before, w := Exec(START, steps), Exec(START, steps + [step]);
    ExecSnoc(START, steps, step);
    RegisteredChannels(before, step.ask, step.choice, step.ask.key);
    WaitingChannelsLive(steps);
    var c :| c in before.live && c < |before.issued| && before.issued[c].key == step.ask.key;
    assert c in w.live && c != |before.issued| && w.issued[c] == before.issued[c];
    assert AnotherHolds(w, step.ask.key, |before.issued|);
    CancelledExactlyByOtherGuards(steps + [step], step.ask.key, |before.issued|);
  }

  /** No waiting request can lose its channel to another task. */
  ghost predicate NothingCancellable(w: World) {
    forall key :: ChannelOf(w, key).Some? ==> !Cancellable(w, key, ChannelOf(w, key).value)
  }

  /** At no point of the run. */
  ghost predicate NeverCancellable(steps: seq<Step>) {
    forall n :: 0 <= n <= |steps| ==> NothingCancellable(Exec(START, steps[..n]))
  }

  /** At no point of a run can a waiting request lose its channel to another task, if and only if every accepted
      registration used a key that no live task held. */
  lemma NothingCancelsExactlyWhenFresh(steps: seq<Step>)
    ensures NeverCancellable(steps) <==> FreshRun(steps)
  {
    if FreshRun(steps) {
      FreshNeverCancels(steps);
    } else {
      StaleCancelsOnce(steps);
    }
  }

  lemma FreshNeverCancels(steps: seq<Step>)
    requires FreshRun(steps)
    ensures NeverCancellable(steps)
  {
    forall n | 0 <= n <= |steps| ensures NothingCancellable(Exec(START, steps[..n])) {
      PrefixIsFresh(steps, n);
      FreshEndsUncancellable(steps[..n]);
    }
  }

  lemma StaleCancelsOnce(steps: seq<Step>)
    requires !FreshRun(steps)
    ensures !NeverCancellable(steps)
  {
    var n :| 0 <= n < |steps| && !RegistersFresh(Exec(START, steps[..n]), steps[n]);
    StaleAt(steps, n, steps[..n], steps[..n + 1]);
  }

  lemma StaleAt(steps: seq<Step>, n: nat, before: seq<Step>, until: seq<Step>)
    requires n < |steps| && before == steps[..n] && until == steps[..n + 1]
    requires !RegistersFresh(Exec(START, before), steps[n])
    ensures !NeverCancellable(steps)
  {
    assert until == before + [steps[n]];
    StaleEndsCancellable(before, steps[n], until);
  }

  lemma FreshEndsUncancellable(steps: seq<Step>)
    requires FreshRun(steps)
    ensures NothingCancellable(Exec(START, steps))
  {
    var w := Exec(START, steps);
    forall key | ChannelOf(w, key).Some? ensures !Cancellable(w, key, ChannelOf(w, key).value) {
      FreshRunsCancelNothing(steps, key, ChannelOf(w, key).value);
    }
  }

  lemma StaleEndsCancellable(before: seq<Step>, step: Step, steps: seq<Step>)
    requires steps == before + [step] && !RegistersFresh(Exec(START, before), step)
    ensures !NothingCancellable(Exec(START, steps))
  {
    StaleKeyIsCancellable(before, step);
  }

  /** The failing run: a request is registered and answered, a new one is registered under the same id, and only then
      does the first task end. */
  function LateCleanup(ask: Ask, choice: Option<Slot>, sender: Option<nat>, r: Response, again: Ask, next: Option<Slot>,
                       first: Channel): seq<Step>
  {
    [Register(ask, choice), Dispatch(ask.key.tenant, ask.key.mesh, sender, r), Register(again, next), DropGuard(first)]
  }

  lemma {:induction false} ExecAppends(w: World, a: seq<Step>, b: seq<Step>)
    ensures Exec(w, a + b) == Exec(Exec(w, a), b)
  {
    if b == [] {
      assert a + b == a;
    } else {
      ExecAppends(w, a, b[..|b| - 1]);
      assert (a + b)[..|a + b| - 1] == a + b[..|b| - 1];
    }
  }

  lemma ExecSnoc(w: World, steps: seq<Step>, step: Step)
    ensures Exec(w, steps + [step]) == After(Exec(w, steps), step)
  {
    assert (steps + [step])[..|steps|] == steps;
  }

  lemma ExecFour(w: World, a: Step, b: Step, c: Step, d: Step)
    ensures Exec(w, [a, b, c, d]) == After(After(After(After(w, a), b), c), d)
  {
    assert [a, b, c, d] == ((([] + [a]) + [b]) + [c]) + [d];
    ExecSnoc(w, [], a);
    ExecSnoc(w, [] + [a], b);
    ExecSnoc(w, ([] + [a]) + [b], c);
    ExecSnoc(w, (([] + [a]) + [b]) + [c], d);
  }

  /** A registration under the key of another live task is abandoned when that task's guard drops. */
  lemma GuardAbandons(w: World, ask: Ask, choice: Option<Slot>, first: Channel)
    requires Safe(w) && Registrable(w, ask, choice)
    requires first in w.live && first < |w.issued| && w.issued[first].key == ask.key
    ensures Abandoned(CleanedUp(Registered(w, ask, choice), first, true), |w.issued|)
  {
    var registered := Registered(w, ask, choice);
    forall k ensures ChannelOf(CleanedUp(registered, first, true), k) != Some(|w.issued|) {
      CleanedUpChannels(registered, first, true, k);
      RegisteredChannels(w, ask, choice, k);
      assert Linked(w, k);
    }
    NextChannelIsNew(w);
  }

  /** A registered request that is answered: its task still lives, and its key is free again. */
  lemma AnsweredStillLives(w: World, ask: Ask, choice: Option<Slot>, sender: Option<nat>, r: Response)
    requires Safe(w) && Registrable(w, ask, choice) && r.request == ask.key.request
    requires Awaited(Registered(w, ask, choice), ask.key, sender, r)
    ensures var answered := Dispatched(Registered(w, ask, choice), ask.key, sender, r);
      && Safe(answered) && Delivered(answered, |w.issued|) && |answered.issued| == |w.issued| + 1
      && |w.issued| in answered.live && answered.issued[|w.issued|].key == ask.key
  {
    var registered := Registered(w, ask, choice);
    RegisterKeepsSafe(w, ask, choice);
    DispatchKeepsSafe(registered, ask.key, sender, r);
    RegisteredChannels(w, ask, choice, ask.key);
    DeliveredSoFar(Forgotten(registered, ask.key), Delivery(|w.issued|, ask.key, sender, r), |w.issued|);
  }

  /** Its first request is answered, and its second one, though registered, never is, whatever follows. */
  lemma LateCleanupCancelsReusedId(
      w: World, ask: Ask, choice: Option<Slot>, sender: Option<nat>, r: Response, again: Ask, next: Option<Slot>,
      steps: seq<Step>)
    requires Safe(w) && Registrable(w, ask, choice) && again.key == ask.key
    requires r.request == ask.key.request && Awaited(Registered(w, ask, choice), ask.key, sender, r)
    requires Registrable(Dispatched(Registered(w, ask, choice), ask.key, sender, r), again, next)
    ensures var run := LateCleanup(ask, choice, sender, r, again, next, |w.issued|);
      && Delivered(Exec(w, run), |w.issued|) && Abandoned(Exec(w, run + steps), |w.issued| + 1)
  {
    var run := LateCleanup(ask, choice, sender, r, again, next, |w.issued|);
    var answered := Dispatched(Registered(w, ask, choice), ask.key, sender, r);
    LateCleanupEnds(w, ask, choice, sender, r, again, next, |w.issued|);
    AnsweredStillLives(w, ask, choice, sender, r);
    GuardAbandons(answered, again, next, |w.issued|);
    GuardKeepsDeliveries(answered, again, next, |w.issued|);
    ExecAppends(w, run, steps);
    AbandonedIsNeverAnswered(Exec(w, run), steps, |w.issued| + 1);
  }

  lemma LateCleanupEnds(
      w: World, ask: Ask, choice: Option<Slot>, sender: Option<nat>, r: Response, again: Ask, next: Option<Slot>,
      first: Channel)
    requires r.request == ask.key.request
    ensures Exec(w, LateCleanup(ask, choice, sender, r, again, next, first)) ==
      CleanedUp(Registered(Dispatched(Registered(w, ask, choice), ask.key, sender, r), again, next), first, true)
  {
    ExecFour(w, Register(ask, choice), Dispatch(ask.key.tenant, ask.key.mesh, sender, r), Register(again, next),
             DropGuard(first));
  }

  lemma GuardKeepsDeliveries(w: World, ask: Ask, choice: Option<Slot>, first: Channel)
    requires Delivered(w, first)
    ensures Delivered(CleanedUp(Registered(w, ask, choice), first, true), first)
  {
    assert CleanedUp(Registered(w, ask, choice), first, true).deliveries == w.deliveries;
  }
}
