/** The gateway's capability registry: who advertises what, kept in both directions. */
module GatewayRegistry {
  import opened Prelude

  type Capability = string

  datatype WorkerKey = WorkerKey(tenant: string, installation: string, core: string)

  type Index = map<Capability, set<WorkerKey>>

  type Adverts = map<WorkerKey, set<Capability>>

  predicate Lists(index: Index, c: Capability, w: WorkerKey) {
    c in index && w in index[c]
  }

  predicate Advertises(adverts: Adverts, w: WorkerKey, c: Capability) {
    w in adverts && c in adverts[w]
  }

  predicate NoEmptyEntry(index: Index) {
    forall c :: c in index ==> index[c] != {}
  }

  /** The index lists exactly the advertisements, and no capability nobody has. */
  ghost predicate Inverse(index: Index, adverts: Adverts) {
    NoEmptyEntry(index) && forall c, w :: Lists(index, c, w) <==> Advertises(adverts, w, c)
  }

  /** The same while the capabilities `extra` of one worker are still in the index, or already. */
  ghost predicate InverseWith(index: Index, adverts: Adverts, worker: WorkerKey, extra: set<Capability>) {
    && NoEmptyEntry(index)
    && forall c, w :: Lists(index, c, w) <==> Advertises(adverts, w, c) || (w == worker && c in extra)
  }

  /** The advertisements determine the index. */
  lemma IndexIsDetermined(a: Index, b: Index, adverts: Adverts)
    requires Inverse(a, adverts) && Inverse(b, adverts)
    ensures a == b
  {
    forall c ensures c in a <==> c in b {
      if c in a {
        var w :| w in a[c];
        assert Lists(a, c, w) && Lists(b, c, w);
      }
      if c in b {
        var w :| w in b[c];
        assert Lists(b, c, w) && Lists(a, c, w);
      }
    }
    forall c | c in a ensures a[c] == b[c] {
      forall w ensures w in a[c] <==> w in b[c] {
        assert Lists(a, c, w) <==> Lists(b, c, w);
      }
    }
  }

  function Advertisers(adverts: Adverts, capability: Capability): set<WorkerKey> {
    set w | w in adverts && capability in adverts[w]
  }

  class CapabilityRegistry {
    var capabilityToWorkers: Index
    var workerToCapabilities: Adverts

    ghost predicate Valid()
      reads this
    {
      Inverse(capabilityToWorkers, workerToCapabilities)
    }

    constructor ()
      ensures Valid() && workerToCapabilities == map[]
    {
      capabilityToWorkers, workerToCapabilities := map[], map[];
    }

    method Deregister(worker: WorkerKey)
      requires Valid()
      modifies this
      ensures Valid() && workerToCapabilities == old(workerToCapabilities) - {worker}
    {
      if worker !in workerToCapabilities {
        return;
      }
      var todo := workerToCapabilities[worker];
      workerToCapabilities := workerToCapabilities - {worker};
      while todo != {}
        invariant workerToCapabilities == old(workerToCapabilities) - {worker}
        invariant InverseWith(capabilityToWorkers, workerToCapabilities, worker, todo)
        decreases |todo|
      {
        var cap :| cap in todo;
        todo := todo - {cap};
        ghost var before := capabilityToWorkers;
        if cap in capabilityToWorkers {
          var workers := capabilityToWorkers[cap] - {worker};
          if workers == {} {
            capabilityToWorkers := capabilityToWorkers - {cap};
          } else {
            capabilityToWorkers := capabilityToWorkers[cap := workers];
          }
        }
        forall c, w
          ensures Lists(capabilityToWorkers, c, w) <==> Lists(before, c, w) && !(c == cap && w == worker)
        {
        }
      }
    }

    method Register(worker: WorkerKey, capabilities: seq<Capability>)
      requires Valid()
      modifies this
      ensures Valid()
      ensures workerToCapabilities == old(workerToCapabilities)[worker := set c | c in capabilities]
    {
      Deregister(worker);
      var caps: set<Capability> := {};
      for i := 0 to |capabilities|
        invariant caps == set c | c in capabilities[..i]
        invariant workerToCapabilities == old(workerToCapabilities) - {worker}
        invariant InverseWith(capabilityToWorkers, workerToCapabilities, worker, caps)
      {
        var cap := capabilities[i];
        ghost var before := capabilityToWorkers;
        var workers := if cap in capabilityToWorkers then capabilityToWorkers[cap] else {};
        capabilityToWorkers := capabilityToWorkers[cap := workers + {worker}];
        forall c, w
          ensures Lists(capabilityToWorkers, c, w) <==> Lists(before, c, w) || (c == cap && w == worker)
        {
        }
        assert capabilities[..i + 1] == capabilities[..i] + [cap];
        caps := caps + {cap};
      }
      assert capabilities[..|capabilities|] == capabilities;
      workerToCapabilities := workerToCapabilities[worker := caps];
    }

    method Resolve(capability: Capability) returns (r: Option<set<WorkerKey>>)
      requires Valid()
      ensures var who := Advertisers(workerToCapabilities, capability);
              r == if who == {} then None else Some(who)
    {
      ghost var who := Advertisers(workerToCapabilities, capability);
      forall w ensures w in who <==> Lists(capabilityToWorkers, capability, w) {
        assert Lists(capabilityToWorkers, capability, w) <==> Advertises(workerToCapabilities, w, capability);
      }
      if capability in capabilityToWorkers {
        r := Some(capabilityToWorkers[capability]);
        assert capabilityToWorkers[capability] == who;
      } else {
        r := None;
        assert who == {};
      }
    }

    method AllCapabilities() returns (r: set<Capability>)
      requires Valid()
      ensures forall c :: c in r <==> Advertisers(workerToCapabilities, c) != {}
    {
      r := capabilityToWorkers.Keys;
      forall c ensures c in r <==> Advertisers(workerToCapabilities, c) != {} {
        if c in r {
          var w :| w in capabilityToWorkers[c];
          assert Lists(capabilityToWorkers, c, w);
          assert w in Advertisers(workerToCapabilities, c);
        } else if Advertisers(workerToCapabilities, c) != {} {
          var w :| w in Advertisers(workerToCapabilities, c);
          assert !Lists(capabilityToWorkers, c, w) && Advertises(workerToCapabilities, w, c);
          assert false;
        }
      }
    }
  }
}
