/** The reconciler as an object: its maps, and a rate limiter object for each policy. */
module Reconcilers {
  import opened Int64
  import opened Wrappers
  import opened Policies
  import opened Worlds
  import opened Reconciling
  import Evaluation
  import Deletion
  import T = Terms

  /** A token bucket, of which only the rate is kept (internal/ratelimiter/ratelimiter.go). */
  class RateLimiter {
    var rate: int64

    constructor (maxPerSecond: int64)
      ensures rate == if maxPerSecond <= 0 then 10 else maxPerSecond
    {
      rate := if maxPerSecond <= 0 then DEFAULT_RATE else maxPerSecond;
    }

    method SetRate(maxPerSecond: int64)
      modifies this
      ensures rate == if maxPerSecond <= 0 then 10 else maxPerSecond
    {
      rate := if maxPerSecond <= 0 then DEFAULT_RATE else maxPerSecond;
    }
  }

  predicate MatchLabelsEqual(a: map<string, string>, b: map<string, string>) {
    |a| == |b| && forall k :: k in a ==> a[k] == if k in b then b[k] else ""
  }

  predicate LabelSelectorsEqual(a: Option<LabelSelector>, b: Option<LabelSelector>) {
    match (a, b)
    case (None, None) => true
    case (Some(x), Some(y)) => MatchLabelsEqual(x.matchLabels, y.matchLabels) && x.matchExpressions == y.matchExpressions
    case _ => false
  }

  /** shouldRecreateInformer, once a spec is tracked. */
  predicate Retargeted(was: Target, target: Target) {
    || was.apiVersion != target.apiVersion || was.kind != target.kind || was.namespace != target.namespace
    || !LabelSelectorsEqual(was.labelSelector, target.labelSelector)
  }

  /**
   Two label maps compare equal exactly when they are, whatever the other one is, for maps without
   empty values: an empty value counts as present in a map that does not have the key.
   */
  lemma EmptyValuesAreOverlooked(a: map<string, string>)
    ensures (forall b :: MatchLabelsEqual(a, b) <==> a == b) <==> "" !in a.Values
  {
    if "" in a.Values {
      var k :| k in a && a[k] == "";
      var other := LongerThanAll(a.Keys);
      var rest := a - {k};
      var b := rest[other := ""];
      assert rest.Keys == a.Keys - {k} && b.Keys == rest.Keys + {other};
      assert |a| == |a.Keys| && |b| == |b.Keys|;
      assert MatchLabelsEqual(a, b) && k !in b;
    } else {
      forall b | MatchLabelsEqual(a, b)
        ensures a == b
      {
        forall k | k in a
          ensures k in b && a[k] == b[k]
        {
          assert a[k] in a.Values;
        }
        SameKeys(a.Keys, b.Keys);
      }
    }
  }

  lemma SameKeys(a: set<string>, b: set<string>)
    requires a <= b && |a| == |b|
    ensures a == b
  {
    assert |b - a| == 0;
  }

  /**
   Between targets whose label selectors have no empty values, a new informer is asked for exactly when
   anything differs that is not the field selector.
   */
  lemma RetargetedExactly(was: Target, target: Target)
    requires was.labelSelector.Some? ==> "" !in was.labelSelector.value.matchLabels.Values
    ensures Retargeted(was, target) <==> was.(fieldSelector := None) != target.(fieldSelector := None)
  {
    if was.labelSelector.Some? && target.labelSelector.Some? {
      EmptyValuesAreOverlooked(was.labelSelector.value.matchLabels);
      assert MatchLabelsEqual(was.labelSelector.value.matchLabels, target.labelSelector.value.matchLabels)
        <==> was.labelSelector.value.matchLabels == target.labelSelector.value.matchLabels;
    }
  }

  class Reconciler {
    const world: World
    const deleter: Deletion.Deleter
    const cfg: ControllerConfig

    var policyUIDs: map<Name, string>
    var policySpecs: map<string, Spec>
    var rateLimiters: map<string, RateLimiter?>
    var resourceInformers: map<string, Informer>
    var evaluationServices: map<string, Informer>

    ghost var Repr: set<object>
    ghost var rates: map<string, int64>          // the rates of the limiters
    ghost var owner: map<RateLimiter, string>    // whose limiter it is: no two policies share one

    ghost predicate Owned(uid: string)
      requires uid in rateLimiters && uid in rates
      reads this, Repr
    {
      var limiter := rateLimiters[uid];
      && limiter != null
      && limiter in Repr
      && limiter in owner && owner[limiter] == uid
      && limiter.rate == rates[uid]
    }

    ghost predicate Valid()
      reads this, Repr
    {
      && this in Repr && world !in Repr
      && deleter.world == world
      && rateLimiters.Keys == rates.Keys
      && forall uid :: uid in rateLimiters ==> Owned(uid)
    }

    ghost function Abstract(): State
      reads this
    {
      State(policyUIDs, policySpecs, rates, resourceInformers, evaluationServices)
    }

    constructor (world: World, cfg: ControllerConfig)
      ensures Valid() && fresh(Repr) && this.world == world && this.cfg == cfg
      ensures Abstract() == INITIAL
    {
      this.world := world;
      this.cfg := cfg;
      deleter := new Deletion.Deleter(world);
      policyUIDs, policySpecs, rateLimiters := map[], map[], map[];
      resourceInformers, evaluationServices := map[], map[];
      Repr, rates, owner := {this}, map[], map[];
    }

    /** A new limiter in the map, under the write lock. */
    method AddRateLimiter(uid: string, rate: int64) returns (limiter: RateLimiter)
      requires Valid() && rate > 0
      modifies this`rateLimiters, this`rates, this`owner, this`Repr
      ensures Valid() && fresh(limiter) && Repr == old(Repr) + {limiter}
      ensures limiter.rate == rate && rates == old(rates)[uid := rate]
    {
      limiter := new RateLimiter(rate);
      assert forall other :: other in rateLimiters ==> Owned(other);
      rateLimiters, rates := rateLimiters[uid := limiter], rates[uid := rate];
      owner, Repr := owner[limiter := uid], Repr + {limiter};
    }

    /** getOrCreateRateLimiterShared. A stored limiter is never nil, so the second look under the lock finds nothing. */
    method GetOrCreateRateLimiter(p: Policy) returns (limiter: RateLimiter)
      requires Valid()
      modifies Repr
      ensures Valid() && fresh(Repr - old(Repr)) && limiter in Repr
      ensures limiter.rate == RequestedRate(p.spec.behavior)
      ensures limiter.rate == if p.spec.behavior.maxDeletionsPerSecond > 0 then p.spec.behavior.maxDeletionsPerSecond else 10
      ensures Abstract() == WithLimiter(old(Abstract()), p)
    {
      var rate := RequestedRate(p.spec.behavior);
      if p.uid in rateLimiters {
        assert Owned(p.uid);
        var found := rateLimiters[p.uid];
        if found != null {
          assert forall uid :: uid in rateLimiters && uid != p.uid ==> Owned(uid) && rateLimiters[uid] != found;
          found.SetRate(rate);
          rates := rates[p.uid := rate];
          return found;
        }
      }
      limiter := AddRateLimiter(p.uid, rate);
    }

    method GetOrCreateResourceInformer(t: Target) returns (informer: Option<Informer>)
      requires Valid()
      modifies this`resourceInformers, world
      ensures Valid()
      ensures
        var got := GetInformer(world.env, |old(world.trace)|, old(Abstract()), t);
        world.trace == old(world.trace) + got.ev && Abstract() == got.state && informer == got.informer
      ensures ServiceKey(t) !in old(resourceInformers) && informer.Some? ==> T.WatchesFor(informer.value, t)
      ensures informer.None? ==> resourceInformers == old(resourceInformers)
    {
      var key := ServiceKey(t);
      if key in resourceInformers {
        return Some(resourceInformers[key]);
      }
      var created := InformerFor(t);
      ghost var before := resourceInformers;
      resourceInformers := resourceInformers[key := created];
      var synced := world.WaitForSync(created);
      if !synced {
        resourceInformers := resourceInformers - {key};
        assert resourceInformers == before;
        return None;
      }
      return Some(created);
    }

    /** deleteResourcesInBatches with the policy's limiter and batch size. */
    method DeleteInBatches(p: Policy, queue: seq<Resource>) returns (deleted: nat)
      requires Valid() && Sized(cfg, p)
      modifies Repr, world
      ensures Valid() && fresh(Repr - old(Repr))
      ensures Abstract() == WithLimiter(old(Abstract()), p)
      ensures
        var b := DeleteQueued(world.env, cfg, |old(world.trace)|, p, queue);
        world.trace == old(world.trace) + b.ev && deleted == b.deleted
      ensures
        var size := T.BatchSize(p.spec.behavior, Some(cfg));
        && size > 0
        && world.trace == old(world.trace) + Deletion.DeleteQueue(world.env, |old(world.trace)|, p, queue, size).ev
    {
      var limiter := GetOrCreateRateLimiter(p);
      var batchSize := ResolveBatchSize(p.spec.behavior, Some(cfg));
      var panicked: bool, errors: seq<Deletion.Failure>;
      panicked, deleted, errors := deleter.DeleteQueueInBatches(p, queue, limiter.rate, batchSize);
    }

    /** How an evaluation ends: the queue is deleted if it is not empty, and the counts go into the status. */
    method DeleteAndReport(p: Policy, look: bool, matched: nat, pending: nat, queue: seq<Resource>) returns (ok: bool)
      requires Valid() && Sized(cfg, p)
      modifies Repr, world
      ensures Valid() && fresh(Repr - old(Repr))
      ensures
        var n, env := |old(world.trace)|, world.env;
        var looked := if look then [CheckedContext(env.done(n))] else [];
        var b := DeleteQueued(env, cfg, n + |looked|, p, queue);
        if queue == [] then
          world.trace == old(world.trace) + [StatusUpdated(matched, 0, pending)]
          && Abstract() == old(Abstract()) && ok == !env.statusFails(n)
        else if look && env.done(n) then
          world.trace == old(world.trace) + looked + [StatusUpdated(matched, 0, pending)]
          && Abstract() == old(Abstract()) && ok == !env.statusFails(n + 1)
        else
          world.trace == old(world.trace) + looked + b.ev + [StatusUpdated(matched, b.deleted, pending)]
          && Abstract() == WithLimiter(old(Abstract()), p) && ok == !env.statusFails(n + |looked| + |b.ev|)
    {
      hide DeleteQueued, WithLimiter, Deletion.DeleteQueue, T.BatchSize;
      var deleted := 0;
      if queue != [] {
        var done := false;
        if look {
          done := world.CheckContext();
        }
        if !done {
          deleted := DeleteInBatches(p, queue);
        }
      }
      var failed := world.UpdateStatus(matched, deleted, pending);
      return !failed;
    }

    /** PolicyEvaluationService.EvaluatePolicy */
    method EvaluateWithService(p: Policy, source: Informer) returns (ok: bool)
      requires Valid() && Sized(cfg, p)
      modifies Repr, world
      ensures Valid() && fresh(Repr - old(Repr))
      ensures
        var step := EvaluateByService(world.env, cfg, |old(world.trace)|, old(Abstract()), p, source);
        world.trace == old(world.trace) + step.ev && Abstract() == step.state && ok == step.ok
    {
      hide Evaluation.Service, Evaluation.Scoped, Evaluation.Objects, DeleteQueued, Parses, WithLimiter, NormalNamespace;
      hide T.Meant, Evaluation.Matching;
      if !Parses(p.spec.target) {
        return false;
      }
      ghost var start := world.trace;
      var items := world.ListStore(source);
      var resources := Evaluation.ListResources(items, NormalNamespace(p.spec.target.namespace));
      var matched, pending, queue, reasons := Evaluation.EvaluateResources(world, p, resources);
      ghost var ev := [Listed(source, items)] + Evaluation.Service(world.env, |start| + 1, p, resources).ev;
      assert world.trace == start + ev;
      ok := DeleteAndReport(p, true, matched, pending, queue);
    }

    /** The direct path of evaluatePolicy. */
    method EvaluateWithoutService(p: Policy) returns (ok: bool)
      requires Valid() && Sized(cfg, p)
      modifies Repr, world
      ensures Valid() && fresh(Repr - old(Repr))
      ensures
        var step := EvaluateDirectly(world.env, cfg, |old(world.trace)|, old(Abstract()), p);
        world.trace == old(world.trace) + step.ev && Abstract() == step.state && ok == step.ok
    {
      hide Evaluation.Direct, DeleteQueued, GetInformer, WithLimiter;
      hide T.Meant, T.WatchesFor, Evaluation.Matching, Evaluation.Objects, ServiceKey;
      ghost var start := world.trace;
      var informer := GetOrCreateResourceInformer(p.spec.target);
      ghost var got := GetInformer(world.env, |start|, old(Abstract()), p.spec.target);
      if informer.None? {
        return false;
      }
      var items := world.ListStore(informer.value);
      ghost var ev := got.ev + [Listed(informer.value, items)];
      assert world.trace == start + ev;
      var matched, pending, queue, reasons := Evaluation.EvaluatePolicyResources(world, p, items);
      ev := ev + Evaluation.Direct(world.env, |start| + |ev|, p, items).ev;
      assert world.trace == start + ev;
      ok := DeleteAndReport(p, false, matched, pending, queue);
    }

    /** getOrCreateEvaluationService; a service is its informer. */
    method GetOrCreateEvaluationService(p: Policy) returns (service: Option<Informer>)
      requires Valid()
      modifies this`resourceInformers, this`evaluationServices, world
      ensures Valid()
      ensures
        var key := ServiceKey(p.spec.target);
        if key in old(evaluationServices) then
          service == Some(old(evaluationServices)[key]) && world.trace == old(world.trace) && Abstract() == old(Abstract())
        else
          var got := GetInformer(world.env, |old(world.trace)|, old(Abstract()), p.spec.target);
          && world.trace == old(world.trace) + got.ev && service == got.informer
          && Abstract() ==
            if got.informer.Some? then got.state.(services := got.state.services[key := got.informer.value]) else got.state
    {
      hide GetInformer;
      var key := ServiceKey(p.spec.target);
      if key in evaluationServices {
        return Some(evaluationServices[key]);
      }
      service := GetOrCreateResourceInformer(p.spec.target);
      if service.Some? {
        evaluationServices := evaluationServices[key := service.value];
      }
    }

    method Evaluate(p: Policy) returns (ok: bool)
      requires Valid() && Sized(cfg, p)
      modifies Repr, world
      ensures Valid() && fresh(Repr - old(Repr))
      ensures
        var step := EvaluatePolicy(world.env, cfg, |old(world.trace)|, old(Abstract()), p);
        world.trace == old(world.trace) + step.ev && Abstract() == step.state && ok == step.ok
    {
      hide GetInformer, EvaluateByService, EvaluateDirectly;
      ghost var start := world.trace;
      var service := GetOrCreateEvaluationService(p);
      if service.Some? {
        ok := EvaluateWithService(p, service.value);
      } else {
        ok := EvaluateWithoutService(p);
      }
    }

    /** A changed target or selector asks for a new informer; informers are shared, so only the old spec goes. */
    method HandleInformerRecreation(p: Policy)
      requires Valid()
      modifies this`policySpecs
      ensures Valid()
      ensures
        policySpecs ==
          if p.uid in old(policySpecs) && Retargeted(old(policySpecs)[p.uid].target, p.spec.target)
          then old(policySpecs) - {p.uid} else old(policySpecs)
    {
      if p.uid in policySpecs {
        var was, target := policySpecs[p.uid].target, p.spec.target;
        if was.apiVersion != target.apiVersion || was.kind != target.kind || was.namespace != target.namespace
          || !LabelSelectorsEqual(was.labelSelector, target.labelSelector)
        {
          policySpecs := policySpecs - {p.uid};
        }
      }
    }

    /** cleanupPolicyResources */
    method CleanupPolicyResources(name: Name)
      requires Valid()
      modifies this`policyUIDs, this`policySpecs, this`rateLimiters, this`rates
      ensures Valid()
      ensures Abstract() == Released(old(Abstract()), name)
    {
      if name !in policyUIDs {
        return;
      }
      var uid := policyUIDs[name];
      policyUIDs := policyUIDs - {name};
      rateLimiters, rates := rateLimiters - {uid}, rates - {uid};
      policySpecs := policySpecs - {uid};
    }

    method ReconcilePolicy(name: Name) returns (outcome: Outcome)
      requires Valid() && Deletable(cfg, world.env.fetches(|world.trace|, name))
      modifies Repr, world
      ensures Valid() && fresh(Repr - old(Repr))
      ensures
        var r := Reconcile(world.env, cfg, |old(world.trace)|, old(Abstract()), name);
        world.trace == old(world.trace) + r.ev && Abstract() == r.state && outcome == r.outcome
    {
      hide EvaluatePolicy;
      ghost var start := world.trace;
      var fetch := world.FetchPolicy(name);
      match fetch {
        case Missing =>
          CleanupPolicyResources(name);
          outcome := Finished;
        case Unavailable =>
          outcome := FetchFailed;
        case Found(p) =>
          policyUIDs := policyUIDs[name := p.uid];
          HandleInformerRecreation(p);
          policySpecs := policySpecs[p.uid := p.spec];
          assert policySpecs == old(policySpecs)[p.uid := p.spec];
          if p.spec.paused {
            return RequeueAfter(cfg.gcInterval);
          }
          var ok := Evaluate(p);
          if !ok {
            return RequeueAfter(RETRY_INTERVAL);
          }
          outcome := RequeueAfter(RequeueInterval(cfg, p));
      }
    }

    /** A whole run of a new reconciler. */
    static method RunPolicies(world: World, cfg: ControllerConfig, names: seq<Name>) returns (r: Reconciler)
      requires AllSized(world.env, cfg) && world.trace == []
      modifies world
      ensures r.Valid()
      ensures world.trace == RunOf(world.env, cfg, names).ev && r.Abstract() == RunOf(world.env, cfg, names).state
    {
      hide Reconcile;
      r := new Reconciler(world, cfg);
      assert names[..0] == [];
      for i := 0 to |names|
        invariant fresh(r.Repr) && r.Valid() && r.world == world && r.cfg == cfg
        invariant
          var run := RunOf(world.env, cfg, names[..i]);
          world.trace == run.ev && r.Abstract() == run.state
      {
        var _ := r.ReconcilePolicy(names[i]);
        assert names[..i + 1][..i] == names[..i];
      }
      assert names[..|names|] == names;
    }
  }
}
