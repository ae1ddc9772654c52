/** What leases permit: when the control plane grants one, when a guard allows a write, and that writes of different
    holders never coincide while leases are neither shortened nor released. */
module ServiceWrites {
  import opened Prelude
  import opened ServiceLeases

  // --------------------------------------------------------------------------
  // Granting and releasing
  // --------------------------------------------------------------------------

  /** A lease of the key is valid at this time. */
  predicate ValidAt(slots: Slots, key: string, now: nat) {
    key in slots && slots[key].lease.Some? && now < slots[key].lease.value.expiresAt
  }

  function EpochAt(slots: Slots, key: string): nat {
    if key in slots then slots[key].lastEpoch else 0
  }

  /** A request is granted exactly when its lifetime fits the clock, no other core's lease is valid, and a new lease has
      an epoch left; a renewal keeps the lease but for its expiry, anything else begins the next epoch now. */
  lemma GrantedExactlyWhen(slots: Slots, identity: CoreIdentity, service: string, ttl: nat, now: nat)
    ensures var key := JoinKey(identity.tenant, identity.cluster, service);
      var (after, answer) := Acquire(slots, identity, service, ttl, now);
      var renews := ValidAt(slots, key, now) && slots[key].lease.value.holder == identity.core;
      && (answer.Ok? <==>
            && 0 < ttl && now + ttl <= U64_MAX && (ValidAt(slots, key, now) ==> renews)
            && (renews || EpochAt(slots, key) < U64_MAX))
      && (answer.Ok? ==>
            && answer.value == (if renews then slots[key].lease.value.(expiresAt := now + ttl)
                                else Lease(service, identity.tenant, identity.cluster, identity.core,
                                           EpochAt(slots, key) + 1, now, now + ttl))
            && key in after && after[key].lease == Some(answer.value))
      && (answer.Err? ==>
            answer.error == (if ttl == 0 || now + ttl > U64_MAX then Rejected
                             else if ValidAt(slots, key, now) then LeaseUnavailable else Conflict))
      && EpochAt(slots, key) <= EpochAt(after, key)
      && forall k :: k != key ==> (k in after <==> k in slots) && (k in after ==> after[k] == slots[k])
  {
  }

  /** After its holder releases a lease the slot is free at once and remembers its epoch. */
  lemma ReleasedSlotIsFree(w: World, lease: Lease, other: CoreIdentity, ttl: nat, now: nat)
    requires Safe(w) && LeaseKey(lease) in w.slots && w.slots[LeaseKey(lease)].lease == Some(lease)
    requires other.tenant == lease.tenant && other.cluster == lease.cluster && 0 < ttl && now + ttl <= U64_MAX
    requires lease.epoch < U64_MAX
    ensures var after := Exec(w, ReleaseStep(lease));
      && (LeaseKey(lease), lease.epoch) in after.released && after.grants == w.grants
      && Acquire(after.slots, other, lease.service, ttl, now).1 ==
           Ok(Lease(lease.service, other.tenant, other.cluster, other.core, lease.epoch + 1, now, now + ttl))
  {
  }

  // --------------------------------------------------------------------------
  // Writing
  // --------------------------------------------------------------------------

  /** The guard holds an unexpired lease of exactly this scope and core, and the resource accepted no later epoch. */
  ghost predicate MayWrite(w: World, guard: nat, scope: Scope, core: string, now: nat) {
    && guard in w.guards && scope.service in w.guards[guard]
    && var lease := w.guards[guard][scope.service];
    && now < lease.expiresAt
    && lease.service == scope.service && lease.tenant == scope.tenant && lease.cluster == scope.cluster
    && lease.holder == core
    && forall a :: a in w.accepted && a.scope == scope ==> a.epoch <= lease.epoch
  }

  lemma {:induction false} HighestIsAccepted(accepted: seq<Accepted>, scope: Scope)
    ensures var highest := HighestAccepted(accepted, scope);
      && (highest.Some? ==> exists a :: a in accepted && a.scope == scope && a.epoch == highest.value)
      && forall a :: a in accepted && a.scope == scope ==> highest.Some? && a.epoch <= highest.value
  {
    if accepted != [] {
      var rest, last := accepted[..|accepted| - 1], accepted[|accepted| - 1];
      HighestIsAccepted(rest, scope);
      assert accepted == rest + [last];
      if last.scope == scope && HighestAccepted(accepted, scope).value == last.epoch {
        assert last in accepted;
      }
    }
  }

  /** A write is accepted exactly when the guard and the resource permit it, and then recorded with the lease's epoch. */
  lemma WriteAcceptedExactlyWhen(w: World, guard: nat, scope: Scope, core: string, now: nat)
    ensures Exec(w, WriteStep(guard, scope, core, now)) ==
      if MayWrite(w, guard, scope, core, now) then
        w.(accepted := w.accepted + [Accepted(scope, core, w.guards[guard][scope.service].epoch, now)])
      else w
  {
    HighestIsAccepted(w.accepted, scope);
  }

  /** A delivered copy replaces what the guard held for its service, unless that is of the same scope and of a later
      epoch, or of the same epoch with another holder. */
  lemma DeliveredExactlyWhen(w: World, guard: nat, copy: nat)
    requires copy < |w.grants|
    ensures var lease := w.grants[copy];
      var held := if guard in w.guards then w.guards[guard] else map[];
      var stale := lease.service in held && held[lease.service].tenant == lease.tenant
        && held[lease.service].cluster == lease.cluster
        && (lease.epoch < held[lease.service].epoch
            || (lease.epoch == held[lease.service].epoch && lease.holder != held[lease.service].holder));
      Exec(w, DeliverStep(guard, copy)) ==
        if stale then w else w.(guards := w.guards[guard := held[lease.service := lease]])
  {
  }

  /** Whatever happened before: a core that is granted a lease of its scope and delivered its copy can write until it
      expires. */
  lemma HolderCanWrite(
      steps: seq<Step>, identity: CoreIdentity, service: string, ttl: nat, now: nat, guard: nat, at: nat, lease: Lease)
    requires Acquire(Run(steps).slots, identity, service, ttl, now).1 == Ok(lease) && at < lease.expiresAt
    requires lease.service == service && lease.tenant == identity.tenant && lease.cluster == identity.cluster
    requires guard in Run(steps).guards ==> service !in Run(steps).guards[guard]
    ensures var granted := Exec(Run(steps), AcquireStep(identity, service, ttl, now));
      var delivered := Exec(granted, DeliverStep(guard, |Run(steps).grants|));
      var scope := Scope(service, identity.tenant, identity.cluster);
      Exec(delivered, WriteStep(guard, scope, identity.core, at)).accepted ==
        Run(steps).accepted + [Accepted(scope, identity.core, lease.epoch, at)]
  {
    var w := Run(steps);
    var granted := Exec(w, AcquireStep(identity, service, ttl, now));
    var delivered := Exec(granted, DeliverStep(guard, |w.grants|));
    var scope := Scope(service, identity.tenant, identity.cluster);
    RunsAreSafe(steps);
    GrantedExactlyWhen(w.slots, identity, service, ttl, now);
    DeliveredExactlyWhen(granted, guard, |w.grants|);
    LatestGrantIsHighest(w, identity, service, ttl, now, lease);
    WriteAcceptedExactlyWhen(delivered, guard, scope, identity.core, at);
  }

  lemma LatestGrantIsHighest(w: World, identity: CoreIdentity, service: string, ttl: nat, now: nat, lease: Lease)
    requires Safe(w) && Acquire(w.slots, identity, service, ttl, now).1 == Ok(lease)
    ensures forall a :: a in w.accepted && a.scope == Scope(service, identity.tenant, identity.cluster) ==>
      a.epoch <= lease.epoch
  {
    forall a | a in w.accepted && a.scope == Scope(service, identity.tenant, identity.cluster)
      ensures a.epoch <= lease.epoch
    {
      var i :| 0 <= i < |w.accepted| && w.accepted[i] == a;
      assert Backed(w.accepted[i], w.grants);
      var k :| 0 <= k < |w.grants| && Backs(w.grants[k], a);
    }
  }

  // --------------------------------------------------------------------------
  // Writes and the validity of leases
  // --------------------------------------------------------------------------

  /** Every accepted write was made under a granted copy of its scope, holder and epoch that had not expired. */
  lemma EveryWriteIsCovered(steps: seq<Step>, i: nat)
    requires i < |Run(steps).accepted|
    ensures var write := Run(steps).accepted[i];
      exists lease :: lease in Run(steps).grants
        && Scope(lease.service, lease.tenant, lease.cluster) == write.scope
        && lease.holder == write.holder && lease.epoch == write.epoch && write.at < lease.expiresAt
  {
    RunsAreSafe(steps);
    var w := Run(steps);
    assert Backed(w.accepted[i], w.grants);
    var k :| 0 <= k < |w.grants| && Backs(w.grants[k], w.accepted[i]);
    assert w.grants[k] in w.grants;
  }

  predicate Timed(step: Step) {
    step.AcquireStep? || step.WriteStep?
  }

  /** Acquisitions and writes read one clock, which never runs back. */
  ghost predicate OneClock(steps: seq<Step>) {
    forall i, j :: 0 <= i < j < |steps| && Timed(steps[i]) && Timed(steps[j]) ==> steps[i].now <= steps[j].now
  }

  /** Made under a copy that had been granted and had not expired. */
  ghost predicate Covered(write: Accepted, grants: seq<Lease>) {
    exists k :: 0 <= k < |grants| && Backs(grants[k], write) && grants[k].acquiredAt <= write.at
  }

  ghost predicate AllCovered(w: World) {
    forall i :: 0 <= i < |w.accepted| ==> Covered(w.accepted[i], w.grants)
  }

  lemma CoveredByMore(write: Accepted, grants: seq<Lease>, more: seq<Lease>)
    requires Covered(write, grants) && grants <= more
    ensures Covered(write, more)
  {
    var k :| 0 <= k < |grants| && Backs(grants[k], write) && grants[k].acquiredAt <= write.at;
    assert more[k] == grants[k];
  }

  lemma GrantsOnlyGrow(w: World, step: Step)
    ensures w.grants <= Exec(w, step).grants
    ensures !step.WriteStep? ==> Exec(w, step).accepted == w.accepted
  {
  }

  ghost predicate GrantedBy(w: World, now: nat) {
    forall i :: 0 <= i < |w.grants| ==> w.grants[i].acquiredAt <= now
  }

  lemma WriteIsCovered(w: World, guard: nat, scope: Scope, core: string, now: nat)
    requires Safe(w) && MayWrite(w, guard, scope, core, now) && GrantedBy(w, now)
    ensures Covered(Accepted(scope, core, w.guards[guard][scope.service].epoch, now), w.grants)
  {
    var lease := w.guards[guard][scope.service];
    var k :| 0 <= k < |w.grants| && w.grants[k] == lease;
    assert Backs(w.grants[k], Accepted(scope, core, lease.epoch, now));
  }

  lemma StepKeepsCovered(w: World, step: Step)
    requires Safe(w) && AllCovered(w)
    requires step.WriteStep? ==> GrantedBy(w, step.now)
    ensures AllCovered(Exec(w, step))
  {
    var after := Exec(w, step);
    GrantsOnlyGrow(w, step);
    if step.WriteStep? {
      WriteAcceptedExactlyWhen(w, step.guard, step.scope, step.core, step.now);
      if MayWrite(w, step.guard, step.scope, step.core, step.now) {
        WriteIsCovered(w, step.guard, step.scope, step.core, step.now);
      }
    }
    forall i | 0 <= i < |after.accepted| ensures Covered(after.accepted[i], after.grants) {
      if i < |w.accepted| {
        CoveredByMore(w.accepted[i], w.grants, after.grants);
      }
    }
  }

  lemma PrefixOnOneClock(steps: seq<Step>, n: nat)
    requires n <= |steps| && OneClock(steps)
    ensures OneClock(steps[..n]) && ClockNeverBack(steps[..n])
  {
  }

  lemma GrantedByNow(steps: seq<Step>, n: nat)
    requires n < |steps| && OneClock(steps) && Timed(steps[n])
    ensures GrantedBy(Run(steps[..n]), steps[n].now)
  {
    PrefixOnOneClock(steps, n);
    AcquiredByNow(steps[..n]);
    LastTimeIsATime(steps[..n]);
  }

  lemma {:induction false} WritesFollowGrants(steps: seq<Step>)
    requires OneClock(steps)
    ensures AllCovered(Run(steps))
  {
    if steps != [] {
      var n := |steps| - 1;
      PrefixOnOneClock(steps, n);
      WritesFollowGrants(steps[..n]);
      RunsAreSafe(steps[..n]);
      if steps[n].WriteStep? {
        GrantedByNow(steps, n);
      }
      StepKeepsCovered(Run(steps[..n]), steps[n]);
    }
  }

  lemma OnOneClock(steps: seq<Step>)
    requires OneClock(steps)
    ensures ClockNeverBack(steps)
  {
  }

  lemma DisjointWrites(w: World, a: Accepted, b: Accepted, key: string)
    requires WindowsDisjoint(w) && Covered(a, w.grants) && Covered(b, w.grants)
    requires a.scope == b.scope && a.holder != b.holder
    requires key == JoinKey(a.scope.tenant, a.scope.cluster, a.scope.service)
    requires (key, a.epoch) !in w.released && (key, b.epoch) !in w.released
    ensures a.at != b.at
  {
    var k :| 0 <= k < |w.grants| && Backs(w.grants[k], a) && w.grants[k].acquiredAt <= a.at;
    var m :| 0 <= m < |w.grants| && Backs(w.grants[m], b) && w.grants[m].acquiredAt <= b.at;
    assert Unreleased(w, w.grants[k]) && Unreleased(w, w.grants[m]);
    assert Disjoint(w.grants[Min(k, m)], w.grants[Max(k, m)]);
  }

  /** On one clock that never runs back, in a run that shortens no lease: two holders of one scope, neither of whose
      leases was released, never have writes accepted at the same time. */
  lemma OneWriterAtATime(steps: seq<Step>, i: nat, j: nat)
    requires OneClock(steps) && NeverShortens(steps) && i < |Run(steps).accepted| && j < |Run(steps).accepted|
    requires Run(steps).accepted[i].scope == Run(steps).accepted[j].scope
    requires Run(steps).accepted[i].holder != Run(steps).accepted[j].holder
    requires var (a, b) := (Run(steps).accepted[i], Run(steps).accepted[j]);
      var key := JoinKey(a.scope.tenant, a.scope.cluster, a.scope.service);
      (key, a.epoch) !in Run(steps).released && (key, b.epoch) !in Run(steps).released
    ensures Run(steps).accepted[i].at != Run(steps).accepted[j].at
  {
    var w := Run(steps);
    var a, b := w.accepted[i], w.accepted[j];
    WritesFollowGrants(steps);
    OnOneClock(steps);
    WindowsAreDisjoint(steps);
    DisjointWrites(w, a, b, JoinKey(a.scope.tenant, a.scope.cluster, a.scope.service));
  }
}
