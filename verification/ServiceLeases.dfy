/** Service leases with fencing epochs: the control plane, the guards on other
    nodes, and a resource that fences writes by the highest epoch it accepted. */
module ServiceLeases {
  import opened Prelude

  datatype CoreIdentity = CoreIdentity(tenant: string, cluster: string, core: string)

  datatype Lease = Lease(
    service: string, tenant: string, cluster: string, holder: string,
    epoch: nat, acquiredAt: nat, expiresAt: nat)

  datatype Slot = Slot(lease: Option<Lease>, lastEpoch: nat)

  datatype LeaseError = Rejected | LeaseUnavailable | Conflict

  type Slots = map<string, Slot>

  function JoinKey(tenant: string, cluster: string, service: string): string {
    tenant + ":" + cluster + ":" + service
  }

  function LeaseKey(lease: Lease): string {
    JoinKey(lease.tenant, lease.cluster, lease.service)
  }

  function LeaseExpiration(now: nat, ttl: nat): Result<nat, LeaseError> {
    if ttl == 0 then Err(Rejected)
    else if now + ttl > U64_MAX then Err(Rejected)
    else Ok(now + ttl)
  }

  predicate Live(slot: Slot, now: nat) {
    slot.lease.Some? && slot.lease.value.expiresAt > now
  }

  /** The lease one request would be given, from the slot of its key. */
  function Grant(slot: Slot, identity: CoreIdentity, service: string, now: nat, expiresAt: nat)
    : Result<Lease, LeaseError>
  {
    if Live(slot, now) && slot.lease.value.holder == identity.core then
      Ok(slot.lease.value.(expiresAt := expiresAt))
    else if Live(slot, now) then Err(LeaseUnavailable)
    else if slot.lastEpoch >= U64_MAX then Err(Conflict)
    else
      Ok(Lease(service, identity.tenant, identity.cluster, identity.core, slot.lastEpoch + 1, now, expiresAt))
  }

  function SlotAt(slots: Slots, key: string): Slot {
    if key in slots then slots[key] else Slot(None, 0)
  }

  /** State and answer of acquire-or-renew. */
  function Acquire(slots: Slots, identity: CoreIdentity, service: string, ttl: nat, now: nat)
    : (Slots, Result<Lease, LeaseError>)
  {
    var expiration := LeaseExpiration(now, ttl);
    if expiration.Err? then (slots, Err(expiration.error))
    else
      var key := JoinKey(identity.tenant, identity.cluster, service);
      var slot := SlotAt(slots, key);
      var granted := Grant(slot, identity, service, now, expiration.value);
      if granted.Err? then (slots[key := slot], granted)
      else
        (slots[key := Slot(Some(granted.value), Max(slot.lastEpoch, granted.value.epoch))], granted)
  }

  /** State and answer of release; the answer says whether a lease was cleared. */
  function Release(slots: Slots, lease: Lease): (Slots, Result<bool, LeaseError>) {
    var key := LeaseKey(lease);
    if key !in slots then (slots, Ok(false))
    else
      var current := slots[key].lease;
      if current.Some? && current.value.holder == lease.holder && current.value.epoch == lease.epoch then
        (slots[key := slots[key].(lease := None)], Ok(true))
      else
        (slots, Err(Conflict))
  }

  class ControlPlane {
    var slots: Slots

    constructor ()
      ensures slots == map[]
    {
      slots := map[];
    }

    method AcquireOrRenew(identity: CoreIdentity, service: string, ttl: nat, now: nat)
      returns (result: Result<Lease, LeaseError>)
      modifies this
      ensures (slots, result) == Acquire(old(slots), identity, service, ttl, now)
    {
      var expiration := LeaseExpiration(now, ttl);
      if expiration.Err? {
        return Err(expiration.error);
      }
      var key := JoinKey(identity.tenant, identity.cluster, service);
      if key !in slots {
        slots := slots[key := Slot(None, 0)];
      }
      var slot := slots[key];
      assert slots == old(slots)[key := slot];
      var lease: Lease;
      match slot.lease {
        case Some(current) =>
          if current.expiresAt > now && current.holder == identity.core {
            lease := current.(expiresAt := expiration.value);
          } else if current.expiresAt > now {
            return Err(LeaseUnavailable);
          } else if slot.lastEpoch >= U64_MAX {
            return Err(Conflict);
          } else {
            lease := Lease(service, identity.tenant, identity.cluster, identity.core,
                           slot.lastEpoch + 1, now, expiration.value);
          }
        case None =>
          if slot.lastEpoch >= U64_MAX {
            return Err(Conflict);
          }
          lease := Lease(service, identity.tenant, identity.cluster, identity.core,
                         slot.lastEpoch + 1, now, expiration.value);
      }
      slots := slots[key := Slot(Some(lease), Max(slot.lastEpoch, lease.epoch))];
      assert slots == old(slots)[key := slots[key]];
      result := Ok(lease);
    }

    method ReleaseLease(lease: Lease) returns (result: Result<bool, LeaseError>)
      modifies this
      ensures (slots, result) == Release(old(slots), lease)
    {
      var key := LeaseKey(lease);
      if key !in slots {
        return Ok(false);
      }
      var slot := slots[key];
      if slot.lease.None? || slot.lease.value.holder != lease.holder || slot.lease.value.epoch != lease.epoch {
        return Err(Conflict);
      }
      slots := slots[key := slot.(lease := None)];
      result := Ok(true);
    }
  }

  // --------------------------------------------------------------------------
  // Guards
  // --------------------------------------------------------------------------

  type Held = map<string, Lease>

  datatype Decision = NoLease | Expired | WrongHolder | StaleEpoch | Allowed

  function SetLease(held: Held, service: string, lease: Option<Lease>): Result<Held, LeaseError> {
    if lease.None? then Ok(held - {service})
    else if lease.value.service != service then Err(Conflict)
    else if service in held && SameScope(held[service], lease.value) && lease.value.epoch < held[service].epoch then
      Err(Conflict)
    else if service in held && SameScope(held[service], lease.value) && lease.value.epoch == held[service].epoch
            && lease.value.holder != held[service].holder then Err(Conflict)
    else Ok(held[service := lease.value])
  }

  predicate SameScope(a: Lease, b: Lease) {
    a.tenant == b.tenant && a.cluster == b.cluster
  }

  function CheckWrite(
    held: Held, service: string, tenant: string, cluster: string, core: string, minEpoch: Option<nat>, now: nat)
    : Decision
  {
    if service !in held then NoLease
    else
      var lease := held[service];
      if lease.expiresAt <= now then Expired
      else if lease.service != service || lease.tenant != tenant || lease.cluster != cluster || lease.holder != core
      then WrongHolder
      else if minEpoch.Some? && lease.epoch < minEpoch.value then StaleEpoch
      else Allowed
  }

  class LeadershipGuard {
    var held: Held

    constructor ()
      ensures held == map[]
    {
      held := map[];
    }

    method SetServiceLease(service: string, lease: Option<Lease>) returns (result: Result<(), LeaseError>)
      modifies this
      ensures SetLease(old(held), service, lease) ==
        (if result.Ok? then Ok(held) else Err(result.error))
      ensures result.Err? ==> held == old(held)
    {
      if lease.Some? && lease.value.service != service {
        return Err(Conflict);
      }
      if lease.Some? && service in held {
        var existing, replacement := held[service], lease.value;
        var sameScope := existing.tenant == replacement.tenant && existing.cluster == replacement.cluster;
        if sameScope && replacement.epoch < existing.epoch {
          return Err(Conflict);
        }
        if sameScope && replacement.epoch == existing.epoch && replacement.holder != existing.holder {
          return Err(Conflict);
        }
      }
      match lease {
        case Some(l) => held := held[service := l];
        case None => held := held - {service};
      }
      result := Ok(());
    }

    /** Whether `core` may write now, and the first reason why not. */
    method CheckServiceWritePermission(
        service: string, tenant: string, cluster: string, core: string, minEpoch: Option<nat>, now: nat)
      returns (decision: Decision)
      ensures decision == CheckWrite(held, service, tenant, cluster, core, minEpoch, now)
      ensures decision == NoLease <==> service !in held
      ensures decision == Expired <==> service in held && held[service].expiresAt <= now
      ensures decision == Allowed <==>
        && service in held && held[service].expiresAt > now && held[service].service == service
        && held[service].tenant == tenant && held[service].cluster == cluster && held[service].holder == core
        && (minEpoch.Some? ==> minEpoch.value <= held[service].epoch)
    {
      if service !in held {
        return NoLease;
      }
      var lease := held[service];
      if lease.expiresAt <= now {
        return Expired;
      }
      if lease.service != service || lease.tenant != tenant || lease.cluster != cluster || lease.holder != core {
        return WrongHolder;
      }
      if minEpoch.Some? && lease.epoch < minEpoch.value {
        return StaleEpoch;
      }
      decision := Allowed;
    }
  }

  // --------------------------------------------------------------------------
  // Runs
  // --------------------------------------------------------------------------

  datatype Scope = Scope(service: string, tenant: string, cluster: string)

  /** A write the resource accepted, and when. */
  datatype Accepted = Accepted(scope: Scope, holder: string, epoch: nat, at: nat)

  /** `grants` lists every lease copy the control plane saved, oldest first; a copy whose
      reply was lost in a crash is simply never delivered. `released` lists the
      (slot key, epoch) pairs that were released. */
  datatype World = World(
    slots: Slots, grants: seq<Lease>, released: set<(string, nat)>,
    guards: map<nat, Held>, accepted: seq<Accepted>)

  datatype Step =
    | AcquireStep(identity: CoreIdentity, service: string, ttl: nat, now: nat)
    | ReleaseStep(lease: Lease)
    | DeliverStep(guard: nat, copy: nat)
    | RemoveStep(guard: nat, service: string)
    | WriteStep(guard: nat, scope: Scope, core: string, now: nat)

  const START := World(map[], [], {}, map[], [])

  function HeldBy(w: World, guard: nat): Held {
    if guard in w.guards then w.guards[guard] else map[]
  }

  /** What the resource passes as its minimum epoch. */
  function HighestAccepted(accepted: seq<Accepted>, scope: Scope): Option<nat> {
    if accepted == [] then None
    else
      var last := accepted[|accepted| - 1];
      var rest := HighestAccepted(accepted[..|accepted| - 1], scope);
      if last.scope != scope then rest
      else if rest.Some? then Some(Max(rest.value, last.epoch))
      else Some(last.epoch)
  }

  function Exec(w: World, step: Step): World {
    match step
    case AcquireStep(identity, service, ttl, now) =>
      var (slots, granted) := Acquire(w.slots, identity, service, ttl, now);
      if granted.Ok? then w.(slots := slots, grants := w.grants + [granted.value]) else w.(slots := slots)
    case ReleaseStep(lease) =>
      var (slots, cleared) := Release(w.slots, lease);
      if cleared == Ok(true) then
        w.(slots := slots, released := w.released + {(LeaseKey(lease), lease.epoch)})
      else w.(slots := slots)
    case DeliverStep(guard, copy) =>
      if copy >= |w.grants| then w
      else
        var lease := w.grants[copy];
        var held := SetLease(HeldBy(w, guard), lease.service, Some(lease));
        if held.Ok? then w.(guards := w.guards[guard := held.value]) else w
    case RemoveStep(guard, service) =>
      w.(guards := w.guards[guard := HeldBy(w, guard) - {service}])
    case WriteStep(guard, scope, core, now) =>
      var held := HeldBy(w, guard);
      var decision := CheckWrite(held, scope.service, scope.tenant, scope.cluster, core,
                                 HighestAccepted(w.accepted, scope), now);
      if decision == Allowed && scope.service in held then
        w.(accepted := w.accepted + [Accepted(scope, core, held[scope.service].epoch, now)])
      else w
  }

  function Run(steps: seq<Step>): World {
    if steps == [] then START else Exec(Run(steps[..|steps| - 1]), steps[|steps| - 1])
  }

  // --------------------------------------------------------------------------
  // Fencing safety
  // --------------------------------------------------------------------------

  /** What two copies granted from one slot have in common: epochs never decrease, and copies
      of one epoch are renewals of one lease. */
  ghost predicate Ordered(earlier: Lease, later: Lease) {
    && earlier.epoch <= later.epoch
    && (earlier.epoch == later.epoch ==> earlier == later.(expiresAt := earlier.expiresAt))
  }

  ghost predicate GrantsOrdered(grants: seq<Lease>) {
    forall i, j :: 0 <= i < j < |grants| && LeaseKey(grants[i]) == LeaseKey(grants[j]) ==>
      Ordered(grants[i], grants[j])
  }

  /** Every slot is ahead of the copies it granted, and holds the last of them unless cleared. */
  ghost predicate SlotsAhead(slots: Slots, grants: seq<Lease>) {
    && (forall i :: 0 <= i < |grants| ==> LeaseKey(grants[i]) in slots)
    && (forall i :: 0 <= i < |grants| ==> grants[i].epoch <= slots[LeaseKey(grants[i])].lastEpoch)
    && (forall key :: key in slots && slots[key].lease.Some? ==>
          && LeaseKey(slots[key].lease.value) == key
          && slots[key].lease.value in grants
          && slots[key].lease.value.epoch == slots[key].lastEpoch
          && forall i :: 0 <= i < |grants| && LeaseKey(grants[i]) == key ==>
               Ordered(grants[i], slots[key].lease.value))
  }

  ghost predicate GuardsHoldGrants(guards: map<nat, Held>, grants: seq<Lease>) {
    forall g, s :: g in guards && s in guards[g] ==> guards[g][s] in grants && guards[g][s].service == s
  }

  /** The accepted writes of one resource: fenced by non-decreasing epochs, each with one holder. */
  ghost predicate Fenced(accepted: seq<Accepted>) {
    forall i, j :: 0 <= i < j < |accepted| && accepted[i].scope == accepted[j].scope ==>
      && accepted[i].epoch <= accepted[j].epoch
      && (accepted[i].epoch == accepted[j].epoch ==> accepted[i].holder == accepted[j].holder)
  }

  ghost predicate Backed(write: Accepted, grants: seq<Lease>) {
    exists i :: 0 <= i < |grants| && Backs(grants[i], write)
  }

  predicate Backs(lease: Lease, write: Accepted) {
    && Scope(lease.service, lease.tenant, lease.cluster) == write.scope
    && lease.holder == write.holder && lease.epoch == write.epoch && write.at < lease.expiresAt
  }

  ghost predicate Safe(w: World) {
    && GrantsOrdered(w.grants)
    && SlotsAhead(w.slots, w.grants)
    && (forall pair :: pair in w.released ==> pair.0 in w.slots && pair.1 <= w.slots[pair.0].lastEpoch)
    && GuardsHoldGrants(w.guards, w.grants)
    && Fenced(w.accepted)
    && (forall i :: 0 <= i < |w.accepted| ==> Backed(w.accepted[i], w.grants))
  }

  /** A lease just granted comes after every copy its slot granted before. */
  lemma GrantIsOrdered(slots: Slots, grants: seq<Lease>, identity: CoreIdentity, service: string, ttl: nat, now: nat)
    requires SlotsAhead(slots, grants) && Acquire(slots, identity, service, ttl, now).1.Ok?
    ensures var lease := Acquire(slots, identity, service, ttl, now).1.value;
      && LeaseKey(lease) == JoinKey(identity.tenant, identity.cluster, service)
      && forall i :: 0 <= i < |grants| && LeaseKey(grants[i]) == LeaseKey(lease) ==> Ordered(grants[i], lease)
  {
  }

  lemma AcquireKeepsSlotsAhead(slots: Slots, grants: seq<Lease>, identity: CoreIdentity, service: string, ttl: nat, now: nat)
    requires SlotsAhead(slots, grants) && Acquire(slots, identity, service, ttl, now).1.Ok?
    ensures var (after, granted) := Acquire(slots, identity, service, ttl, now);
      SlotsAhead(after, grants + [granted.value])
  {
    GrantIsOrdered(slots, grants, identity, service, ttl, now);
    var (after, granted) := Acquire(slots, identity, service, ttl, now);
    var more := grants + [granted.value];
    assert more[|grants|] == granted.value;
    assert forall l :: l in grants ==> l in more;
  }

  lemma OrderedSnoc(grants: seq<Lease>, lease: Lease)
    requires GrantsOrdered(grants)
    requires forall i :: 0 <= i < |grants| && LeaseKey(grants[i]) == LeaseKey(lease) ==> Ordered(grants[i], lease)
    ensures GrantsOrdered(grants + [lease])
  {
    var more := grants + [lease];
    forall i, j | 0 <= i < j < |more| && LeaseKey(more[i]) == LeaseKey(more[j])
      ensures Ordered(more[i], more[j])
    {
      assert more[i] == grants[i];
      assert j < |grants| ==> more[j] == grants[j];
    }
  }

  lemma BackedByMore(accepted: seq<Accepted>, grants: seq<Lease>, lease: Lease)
    requires forall i :: 0 <= i < |accepted| ==> Backed(accepted[i], grants)
    ensures forall i :: 0 <= i < |accepted| ==> Backed(accepted[i], grants + [lease])
  {
    forall i | 0 <= i < |accepted|
      ensures Backed(accepted[i], grants + [lease])
    {
      var k :| 0 <= k < |grants| && Backs(grants[k], accepted[i]);
      assert (grants + [lease])[k] == grants[k];
    }
  }

  lemma AcquireKeepsSafe(w: World, identity: CoreIdentity, service: string, ttl: nat, now: nat)
    requires Safe(w)
    ensures Safe(Exec(w, AcquireStep(identity, service, ttl, now)))
  {
    var (slots, granted) := Acquire(w.slots, identity, service, ttl, now);
    if granted.Ok? {
      GrantIsOrdered(w.slots, w.grants, identity, service, ttl, now);
      OrderedSnoc(w.grants, granted.value);
      AcquireKeepsSlotsAhead(w.slots, w.grants, identity, service, ttl, now);
      BackedByMore(w.accepted, w.grants, granted.value);
      assert GuardsHoldGrants(w.guards, w.grants + [granted.value]);
    } else {
      assert SlotsAhead(slots, w.grants);
    }
  }

  lemma {:induction false} HighestIsUpperBound(accepted: seq<Accepted>, scope: Scope)
    ensures forall i :: 0 <= i < |accepted| && accepted[i].scope == scope ==>
      HighestAccepted(accepted, scope).Some? && accepted[i].epoch <= HighestAccepted(accepted, scope).value
  {
    if accepted != [] {
      var rest := accepted[..|accepted| - 1];
      HighestIsUpperBound(rest, scope);
      assert forall i :: 0 <= i < |rest| ==> accepted[i] == rest[i];
    }
  }

  /** Two writes backed by one epoch of one scope have one holder. */
  lemma OneHolderPerEpoch(grants: seq<Lease>, a: Accepted, b: Accepted)
    requires GrantsOrdered(grants) && Backed(a, grants) && Backed(b, grants)
    requires a.scope == b.scope && a.epoch == b.epoch
    ensures a.holder == b.holder
  {
    var k :| 0 <= k < |grants| && Backs(grants[k], a);
    var m :| 0 <= m < |grants| && Backs(grants[m], b);
    assert k == m || Ordered(grants[Min(k, m)], grants[Max(k, m)]);
  }

  lemma HeldIsGranted(w: World, guard: nat, scope: Scope, core: string, now: nat)
    requires Safe(w) && Exec(w, WriteStep(guard, scope, core, now)) != w
    ensures Backed(Accepted(scope, core, HeldBy(w, guard)[scope.service].epoch, now), w.grants)
  {
    var lease := HeldBy(w, guard)[scope.service];
    var k :| 0 <= k < |w.grants| && w.grants[k] == lease;
    assert Backs(w.grants[k], Accepted(scope, core, lease.epoch, now));
  }

  lemma WriteKeepsSafe(w: World, guard: nat, scope: Scope, core: string, now: nat)
    requires Safe(w)
    ensures Safe(Exec(w, WriteStep(guard, scope, core, now)))
  {
    var after := Exec(w, WriteStep(guard, scope, core, now));
    if after != w {
      var lease := HeldBy(w, guard)[scope.service];
      var write := Accepted(scope, core, lease.epoch, now);
      HighestIsUpperBound(w.accepted, scope);
      HeldIsGranted(w, guard, scope, core, now);
      forall i | 0 <= i < |w.accepted| && w.accepted[i].scope == scope && w.accepted[i].epoch == write.epoch
        ensures w.accepted[i].holder == core
      {
        OneHolderPerEpoch(w.grants, w.accepted[i], write);
      }
      assert Fenced(after.accepted);
    }
  }

  lemma StepKeepsSafe(w: World, step: Step)
    requires Safe(w)
    ensures Safe(Exec(w, step))
  {
    match step
    case AcquireStep(identity, service, ttl, now) => AcquireKeepsSafe(w, identity, service, ttl, now);
    case WriteStep(guard, scope, core, now) => WriteKeepsSafe(w, guard, scope, core, now);
    case ReleaseStep(_) =>
    case DeliverStep(_, _) =>
    case RemoveStep(_, _) =>
  }

  lemma {:induction false} RunsAreSafe(steps: seq<Step>)
    ensures Safe(Run(steps))
  {
    if steps != [] {
      RunsAreSafe(steps[..|steps| - 1]);
      StepKeepsSafe(Run(steps[..|steps| - 1]), steps[|steps| - 1]);
    }
  }

  /** In every run a deposed holder never writes after its successor, whatever copies the guards
      were fed and in whatever order. */
  lemma FencingSafety(steps: seq<Step>, i: nat, j: nat, k: nat)
    requires i < j < k < |Run(steps).accepted|
    requires var log := Run(steps).accepted; log[i].scope == log[j].scope == log[k].scope
    requires var log := Run(steps).accepted; log[i].holder != log[j].holder
    ensures var log := Run(steps).accepted;
      log[i].epoch < log[j].epoch <= log[k].epoch && (log[k].epoch == log[j].epoch ==> log[k].holder == log[j].holder)
  {
    RunsAreSafe(steps);
  }

  /** On any clock and across releases, a grant is a renewal of the latest lease of its slot or carries an
      epoch above every earlier one. */
  lemma EpochsStrictlyIncrease(steps: seq<Step>, i: nat, j: nat)
    requires i < j < |Run(steps).grants|
    requires LeaseKey(Run(steps).grants[i]) == LeaseKey(Run(steps).grants[j])
    ensures var grants := Run(steps).grants;
      || grants[i].epoch < grants[j].epoch
      || (grants[i].epoch == grants[j].epoch && grants[i].holder == grants[j].holder &&
          grants[i].acquiredAt == grants[j].acquiredAt)
  {
    RunsAreSafe(steps);
  }

  // --------------------------------------------------------------------------
  // Validity windows
  // --------------------------------------------------------------------------

  /** Times of the acquisitions never go back. */
  ghost predicate ClockNeverBack(steps: seq<Step>) {
    forall i, j :: 0 <= i < j < |steps| && steps[i].AcquireStep? && steps[j].AcquireStep? ==>
      steps[i].now <= steps[j].now
  }

  /** The step does not renew a lease to an earlier expiry than it has; a rejected request renews nothing. */
  predicate KeepsExpiry(w: World, step: Step) {
    step.AcquireStep? && LeaseExpiration(step.now, step.ttl).Ok? ==>
      var slot := SlotAt(w.slots, JoinKey(step.identity.tenant, step.identity.cluster, step.service));
      Live(slot, step.now) && slot.lease.value.holder == step.identity.core ==>
        slot.lease.value.expiresAt <= step.now + step.ttl
  }

  ghost predicate NeverShortens(steps: seq<Step>) {
    forall n :: 0 <= n < |steps| ==> KeepsExpiry(Run(steps[..n]), steps[n])
  }

  predicate Disjoint(a: Lease, b: Lease) {
    a.expiresAt <= b.acquiredAt || b.expiresAt <= a.acquiredAt
  }

  predicate Unreleased(w: World, lease: Lease) {
    (LeaseKey(lease), lease.epoch) !in w.released
  }

  /** Two copies of one service granted to different holders, neither released, never overlap. */
  ghost predicate WindowsDisjoint(w: World) {
    forall i, j ::
      (&& 0 <= i < j < |w.grants| && LeaseKey(w.grants[i]) == LeaseKey(w.grants[j])
       && w.grants[i].holder != w.grants[j].holder && Unreleased(w, w.grants[i]) && Unreleased(w, w.grants[j]))
      ==> Disjoint(w.grants[i], w.grants[j])
  }

  /** An unreleased copy is over, or is a copy of the lease its slot holds and ends no later than it. */
  ghost predicate Accounted(w: World, clock: nat, copy: Lease) {
    || copy.expiresAt <= clock
    || var slot := SlotAt(w.slots, LeaseKey(copy));
       slot.lease.Some? && slot.lease.value.epoch == copy.epoch && copy.expiresAt <= slot.lease.value.expiresAt
  }

  ghost predicate WindowsInv(w: World, clock: nat) {
    && (forall i :: 0 <= i < |w.grants| && Unreleased(w, w.grants[i]) ==> Accounted(w, clock, w.grants[i]))
    && (forall i, j ::
          (&& 0 <= i < j < |w.grants| && LeaseKey(w.grants[i]) == LeaseKey(w.grants[j])
           && w.grants[i].epoch < w.grants[j].epoch && Unreleased(w, w.grants[i]))
          ==> w.grants[i].expiresAt <= w.grants[j].acquiredAt)
    && (forall i :: 0 <= i < |w.grants| ==> w.grants[i].acquiredAt <= clock)
  }

  /** Unreleased copies of earlier epochs are over when the lease just granted begins. */
  lemma GrantBeginsAfter(w: World, clock: nat, step: Step, i: nat)
    requires Safe(w) && WindowsInv(w, clock)
    requires step.AcquireStep? && clock <= step.now
    requires |Exec(w, step).grants| > |w.grants| && i < |w.grants|
    requires var lease := Exec(w, step).grants[|w.grants|];
      LeaseKey(w.grants[i]) == LeaseKey(lease) && w.grants[i].epoch < lease.epoch && Unreleased(w, w.grants[i])
    ensures w.grants[i].expiresAt <= Exec(w, step).grants[|w.grants|].acquiredAt
  {
    var lease := Exec(w, step).grants[|w.grants|];
    var slot := SlotAt(w.slots, LeaseKey(lease));
    assert Accounted(w, clock, w.grants[i]);
    if slot.lease.Some? && slot.lease.value.epoch == lease.epoch {
      var c :| 0 <= c < |w.grants| && w.grants[c] == slot.lease.value;
      assert c == i || Ordered(w.grants[Min(c, i)], w.grants[Max(c, i)]);
    }
  }

  lemma GrantIsAccounted(w: World, clock: nat, step: Step, i: nat)
    requires Safe(w) && WindowsInv(w, clock)
    requires step.AcquireStep? && clock <= step.now && KeepsExpiry(w, step)
    requires i < |Exec(w, step).grants| && Unreleased(w, Exec(w, step).grants[i])
    ensures Accounted(Exec(w, step), step.now, Exec(w, step).grants[i])
  {
    if i < |w.grants| {
      assert Accounted(w, clock, w.grants[i]);
    }
  }

  lemma AcquireKeepsWindows(w: World, clock: nat, step: Step)
    requires Safe(w) && WindowsInv(w, clock)
    requires step.AcquireStep? && clock <= step.now && KeepsExpiry(w, step)
    ensures WindowsInv(Exec(w, step), step.now)
  {
    var after := Exec(w, step);
    forall i | 0 <= i < |after.grants| && Unreleased(after, after.grants[i])
      ensures Accounted(after, step.now, after.grants[i])
    {
      GrantIsAccounted(w, clock, step, i);
    }
    forall i, j |
      && 0 <= i < j < |after.grants| && LeaseKey(after.grants[i]) == LeaseKey(after.grants[j])
      && after.grants[i].epoch < after.grants[j].epoch && Unreleased(after, after.grants[i])
      ensures after.grants[i].expiresAt <= after.grants[j].acquiredAt
    {
      LaterBeginsAfter(w, clock, step, i, j);
    }
    AcquiredInTime(w, clock, step);
  }

  lemma LaterBeginsAfter(w: World, clock: nat, step: Step, i: nat, j: nat)
    requires Safe(w) && WindowsInv(w, clock) && step.AcquireStep? && clock <= step.now
    requires var grants := Exec(w, step).grants;
      && i < j < |grants| && LeaseKey(grants[i]) == LeaseKey(grants[j]) && grants[i].epoch < grants[j].epoch
      && Unreleased(w, grants[i])
    ensures Exec(w, step).grants[i].expiresAt <= Exec(w, step).grants[j].acquiredAt
  {
    if j == |w.grants| {
      GrantBeginsAfter(w, clock, step, i);
    }
  }

  lemma AcquiredInTime(w: World, clock: nat, step: Step)
    requires Safe(w) && WindowsInv(w, clock) && step.AcquireStep? && clock <= step.now
    ensures forall i :: 0 <= i < |Exec(w, step).grants| ==> Exec(w, step).grants[i].acquiredAt <= step.now
  {
  }

  lemma StepKeepsWindows(w: World, clock: nat, step: Step)
    requires Safe(w) && WindowsInv(w, clock) && KeepsExpiry(w, step)
    requires step.AcquireStep? ==> clock <= step.now
    ensures WindowsInv(Exec(w, step), if step.AcquireStep? then step.now else clock)
  {
    if step.AcquireStep? {
      AcquireKeepsWindows(w, clock, step);
    } else {
      var after := Exec(w, step);
      assert after.grants == w.grants;
      forall i | 0 <= i < |after.grants| && Unreleased(after, after.grants[i])
        ensures Accounted(after, clock, after.grants[i])
      {
        assert Unreleased(w, w.grants[i]) && Accounted(w, clock, w.grants[i]);
      }
    }
  }

  function LastTime(steps: seq<Step>): nat {
    if steps == [] then 0
    else if steps[|steps| - 1].AcquireStep? then steps[|steps| - 1].now
    else LastTime(steps[..|steps| - 1])
  }

  lemma {:induction false} LastTimeIsATime(steps: seq<Step>)
    ensures LastTime(steps) == 0 || exists i :: 0 <= i < |steps| && steps[i].AcquireStep? && steps[i].now == LastTime(steps)
  {
    if steps != [] && !steps[|steps| - 1].AcquireStep? {
      var rest := steps[..|steps| - 1];
      LastTimeIsATime(rest);
      if LastTime(rest) != 0 {
        var i :| 0 <= i < |rest| && rest[i].AcquireStep? && rest[i].now == LastTime(rest);
        assert steps[i] == rest[i];
      }
    }
  }

  lemma {:induction false} RunsKeepWindows(steps: seq<Step>)
    requires ClockNeverBack(steps) && NeverShortens(steps)
    ensures WindowsInv(Run(steps), LastTime(steps))
  {
    if steps != [] {
      var n := |steps| - 1;
      var rest := steps[..n];
      forall m | 0 <= m < n
        ensures KeepsExpiry(Run(rest[..m]), rest[m])
      {
        assert rest[..m] == steps[..m];
        assert KeepsExpiry(Run(steps[..m]), steps[m]);
      }
      RunsKeepWindows(rest);
      RunsAreSafe(rest);
      LastTimeIsATime(rest);
      assert KeepsExpiry(Run(steps[..n]), steps[n]);
      StepKeepsWindows(Run(rest), LastTime(rest), steps[n]);
    }
  }

  /** On a clock that never goes back, windows of different holders are disjoint in every run that never
      shortens a lease. */
  lemma WindowsAreDisjoint(steps: seq<Step>)
    requires ClockNeverBack(steps) && NeverShortens(steps)
    ensures WindowsDisjoint(Run(steps))
  {
    RunsKeepWindows(steps);
    RunsAreSafe(steps);
  }

  ghost predicate FixedTtl(steps: seq<Step>, ttl: nat) {
    forall i :: 0 <= i < |steps| && steps[i].AcquireStep? ==> steps[i].ttl == ttl
  }

  lemma {:induction false} FixedTtlBoundsExpiry(steps: seq<Step>, ttl: nat)
    requires ClockNeverBack(steps) && FixedTtl(steps, ttl)
    ensures forall key :: key in Run(steps).slots && Run(steps).slots[key].lease.Some? ==>
      Run(steps).slots[key].lease.value.expiresAt <= LastTime(steps) + ttl
  {
    if steps != [] {
      var n := |steps| - 1;
      FixedTtlBoundsExpiry(steps[..n], ttl);
      LastTimeIsATime(steps[..n]);
    }
  }

  /** One lifetime for every request is enough. */
  lemma FixedTtlWindowsAreDisjoint(steps: seq<Step>, ttl: nat)
    requires ClockNeverBack(steps) && FixedTtl(steps, ttl)
    ensures WindowsDisjoint(Run(steps))
  {
    forall n | 0 <= n < |steps|
      ensures KeepsExpiry(Run(steps[..n]), steps[n])
    {
      FixedTtlBoundsExpiry(steps[..n], ttl);
      LastTimeIsATime(steps[..n]);
    }
    WindowsAreDisjoint(steps);
  }

  lemma {:induction false} AcquiredByNow(steps: seq<Step>)
    requires ClockNeverBack(steps)
    ensures forall i :: 0 <= i < |Run(steps).grants| ==> Run(steps).grants[i].acquiredAt <= LastTime(steps)
  {
    if steps != [] {
      var rest := steps[..|steps| - 1];
      AcquiredByNow(rest);
      LastTimeIsATime(rest);
      RunsAreSafe(rest);
    }
  }

  /** What holds of every slot after some steps: its lease was not released, its times are machine integers, and there
      are no more epochs than steps. */
  ghost predicate Current(w: World, count: nat) {
    forall key :: key in w.slots ==>
      && w.slots[key].lastEpoch <= count
      && (w.slots[key].lease.Some? ==>
            Unreleased(w, w.slots[key].lease.value) && w.slots[key].lease.value.expiresAt <= U64_MAX)
  }

  lemma StepKeepsCurrent(w: World, step: Step, count: nat)
    requires Safe(w) && Current(w, count)
    ensures Current(Exec(w, step), count + 1)
  {
    if step.AcquireStep? {
      AcquireKeepsCurrent(w, step, count);
    } else if step.ReleaseStep? {
      ReleaseKeepsCurrent(w, step, count);
    } else {
      var after := Exec(w, step);
      assert after.slots == w.slots && after.released == w.released;
    }
  }

  lemma AcquireKeepsCurrent(w: World, step: Step, count: nat)
    requires Safe(w) && Current(w, count) && step.AcquireStep?
    ensures Current(Exec(w, step), count + 1)
  {
  }

  lemma ReleaseKeepsCurrent(w: World, step: Step, count: nat)
    requires Safe(w) && Current(w, count) && step.ReleaseStep?
    ensures Current(Exec(w, step), count + 1)
  {
    var after := Exec(w, step);
    forall key | key in after.slots && after.slots[key].lease.Some?
      ensures Unreleased(after, after.slots[key].lease.value)
    {
      assert key in w.slots && w.slots[key].lease.Some? && LeaseKey(w.slots[key].lease.value) == key;
    }
  }

  lemma {:induction false} RunsStayCurrent(steps: seq<Step>)
    ensures Current(Run(steps), |steps|)
  {
    if steps != [] {
      var before := steps[..|steps| - 1];
      RunsStayCurrent(before);
      RunsAreSafe(before);
      StepKeepsCurrent(Run(before), steps[|steps| - 1], |before|);
    }
  }

  /** Another core asks at the moment the lease granted by `step` ends. */
  function Takeover(step: Step, other: string): Step
    requires step.AcquireStep? && other != step.identity.core
  {
    AcquireStep(step.identity.(core := other), step.service, 1, step.now + step.ttl)
  }

  /** Two acquisitions, the second by another core at the moment the first one ends. */
  lemma TakeoverOverlaps(w: World, step: Step, other: string)
    requires Safe(w) && step.AcquireStep? && other != step.identity.core && !KeepsExpiry(w, step)
    requires forall i :: 0 <= i < |w.grants| ==> w.grants[i].acquiredAt <= step.now
    requires Current(w, U64_MAX - 1)
    ensures KeepsExpiry(Exec(w, step), Takeover(step, other))
    ensures !WindowsDisjoint(Exec(Exec(w, step), Takeover(step, other)))
  {
    var takeover := Takeover(step, other);
    var key := JoinKey(step.identity.tenant, step.identity.cluster, step.service);
    var long := SlotAt(w.slots, key).lease.value;
    var i :| 0 <= i < |w.grants| && w.grants[i] == long;
    var middle := Exec(w, step);
    assert middle.slots[key].lease == Some(long.(expiresAt := step.now + step.ttl));
    assert middle.grants == w.grants + [middle.slots[key].lease.value];
    var after := Exec(middle, takeover);
    var late := Lease(step.service, step.identity.tenant, step.identity.cluster, takeover.identity.core,
                      middle.slots[key].lastEpoch + 1, step.now + step.ttl, step.now + step.ttl + 1);
    assert after.grants == middle.grants + [late];
    assert after.grants[i] == long && after.grants[|w.grants| + 1] == late;
    assert Unreleased(after, long) && Unreleased(after, late);
  }

  /** After any renewal that shortens a lease, any other core can acquire while the longer copy is still valid. */
  lemma ShorteningOverlaps(steps: seq<Step>, step: Step, other: string)
    requires ClockNeverBack(steps) && step.AcquireStep? && LastTime(steps) <= step.now && |steps| < U64_MAX
    requires !KeepsExpiry(Run(steps), step) && other != step.identity.core
    ensures KeepsExpiry(Run(steps + [step]), Takeover(step, other))
    ensures !WindowsDisjoint(Run((steps + [step]) + [Takeover(step, other)]))
  {
    RunsAreSafe(steps);
    FewerEpochsThanSteps(steps);
    AcquiredByNow(steps);
    TakeoverOverlaps(Run(steps), step, other);
    RunSnoc(steps, step);
    RunSnoc(steps + [step], Takeover(step, other));
  }

  lemma FewerEpochsThanSteps(steps: seq<Step>)
    requires |steps| < U64_MAX
    ensures Current(Run(steps), U64_MAX - 1)
  {
    RunsStayCurrent(steps);
  }

  lemma RunSnoc(steps: seq<Step>, step: Step)
    ensures Run(steps + [step]) == Exec(Run(steps), step)
  {
    assert (steps + [step])[..|steps|] == steps;
  }

  lemma {:induction false} LastTimeIsLast(steps: seq<Step>)
    requires ClockNeverBack(steps)
    ensures forall i :: 0 <= i < |steps| && steps[i].AcquireStep? ==> steps[i].now <= LastTime(steps)
  {
    if steps != [] && !steps[|steps| - 1].AcquireStep? {
      var before := steps[..|steps| - 1];
      LastTimeIsLast(before);
      forall i | 0 <= i < |steps| && steps[i].AcquireStep? ensures steps[i].now <= LastTime(steps) {
        assert before[i] == steps[i];
      }
    }
  }

  /** A request that comes after these steps, and shortens nothing itself, leaves all windows disjoint. */
  ghost predicate StaysDisjoint(steps: seq<Step>, request: Step) {
    request.AcquireStep? && LastTime(steps) <= request.now && KeepsExpiry(Run(steps), request) ==>
      WindowsDisjoint(Run(steps + [request]))
  }

  lemma UnshortenedStaysDisjoint(steps: seq<Step>, request: Step)
    requires ClockNeverBack(steps) && NeverShortens(steps)
    ensures StaysDisjoint(steps, request)
  {
    if request.AcquireStep? && LastTime(steps) <= request.now && KeepsExpiry(Run(steps), request) {
      var more := steps + [request];
      LastTimeIsLast(steps);
      forall n | 0 <= n < |more| ensures KeepsExpiry(Run(more[..n]), more[n]) {
        assert more[..n] == steps[..n];
        assert n == |steps| ==> steps[..n] == steps;
      }
      WindowsAreDisjoint(more);
    }
  }

  lemma PrefixNeverShortens(steps: seq<Step>, n: nat)
    requires n <= |steps| && NeverShortens(steps)
    ensures NeverShortens(steps[..n])
  {
    forall m | 0 <= m < n ensures KeepsExpiry(Run(steps[..n][..m]), steps[..n][m]) {
      assert steps[..n][..m] == steps[..m];
      assert KeepsExpiry(Run(steps[..m]), steps[m]);
    }
  }

  /** Never shortening a lease is exactly what keeps validity windows disjoint: it holds of a run if and only if no
      later request, after any of its steps, can make two windows of different holders overlap. */
  lemma DisjointExactlyWhenNeverShortened(steps: seq<Step>)
    requires ClockNeverBack(steps) && |steps| < U64_MAX
    ensures NeverShortens(steps) <==> forall n, request :: 0 <= n <= |steps| ==> StaysDisjoint(steps[..n], request)
  {
    if NeverShortens(steps) {
      forall n, request | 0 <= n <= |steps| ensures StaysDisjoint(steps[..n], request) {
        PrefixNeverShortens(steps, n);
        UnshortenedStaysDisjoint(steps[..n], request);
      }
    } else {
      var n :| 0 <= n < |steps| && !KeepsExpiry(Run(steps[..n]), steps[n]);
      ShortenedIsNotDisjoint(steps, n, if steps[n].identity.core == "a" then "b" else "a");
    }
  }

  lemma ShortenedIsNotDisjoint(steps: seq<Step>, n: nat, other: string)
    requires ClockNeverBack(steps) && |steps| < U64_MAX && n < |steps|
    requires !KeepsExpiry(Run(steps[..n]), steps[n]) && other != steps[n].identity.core
    ensures !StaysDisjoint(steps[..n + 1], Takeover(steps[n], other))
  {
    var before, step := steps[..n], steps[n];
    LastTimeIsATime(before);
    ShorteningOverlaps(before, step, other);
    assert before + [step] == steps[..n + 1];
    LastTimeSnoc(before, step);
  }

  lemma LastTimeSnoc(steps: seq<Step>, step: Step)
    requires step.AcquireStep?
    ensures LastTime(steps + [step]) == step.now
  {
  }

  // --------------------------------------------------------------------------
  // Slot keys
  // --------------------------------------------------------------------------

  lemma {:induction false} SplitsAtFirstColon(a: string, b: string, x: string, y: string)
    requires ':' !in a && ':' !in x && a + ":" + b == x + ":" + y
    ensures a == x && b == y
  {
    var whole := a + ":" + b;
    assert forall k :: 0 <= k < |a| ==> whole[k] == a[k] && a[k] != ':';
    assert forall k :: 0 <= k < |x| ==> whole[k] == x[k] && x[k] != ':';
    assert whole[|a|] == ':' && whole[|x|] == ':';
    assert |a| == |x|;
    assert whole[..|a|] == a && whole[..|x|] == x;
    assert whole[|a| + 1..] == b && whole[|x| + 1..] == y;
  }

  /** The joined key tells scopes apart as long as tenant and cluster ids hold no colon ... */
  lemma KeysSeparateScopes(t: string, c: string, s: string, t': string, c': string, s': string)
    requires ':' !in t && ':' !in t' && ':' !in c && ':' !in c'
    ensures JoinKey(t, c, s) == JoinKey(t', c', s') <==> (t, c, s) == (t', c', s')
  {
    if JoinKey(t, c, s) == JoinKey(t', c', s') {
      assert JoinKey(t, c, s) == t + ":" + (c + ":" + s) && JoinKey(t', c', s') == t' + ":" + (c' + ":" + s');
      SplitsAtFirstColon(t, c + ":" + s, t', c' + ":" + s');
      SplitsAtFirstColon(c, s, c', s');
    }
  }

  /** ... and merges every pair that splits one colon differently. */
  lemma ColonMergesScopes(t: string, m: string, c: string, s: string)
    ensures JoinKey(t + ":" + m, c, s) == JoinKey(t, m + ":" + c, s)
  {
  }
}
