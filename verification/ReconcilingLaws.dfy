/** What every run of the reconciler guarantees. */
module ReconcilingLaws {
  import opened Int64
  import opened Wrappers
  import opened Policies
  import opened Worlds
  import opened Reconciling
  import Evaluation
  import T = Terms

  // --------------------------------------------------------------- sharing

  /** A target whose kind and namespace contain no slash. */
  predicate Plain(t: Target) {
    '/' !in t.kind && '/' !in t.namespace
  }

  lemma LastSlash(s: string, a: string)
    requires '/' !in a
    ensures
      var whole := s + "/" + a;
      && |whole| == |s| + 1 + |a| && whole[|s|] == '/'
      && (forall i :: |s| < i < |whole| ==> whole[i] != '/')
      && whole[..|s|] == s && whole[|s| + 1..] == a
  {
    var whole := s + "/" + a;
    assert forall i :: |s| < i < |whole| ==> whole[i] == a[i - |s| - 1];
  }

  lemma CutAtLastSlash(s: string, a: string, t: string, b: string)
    requires '/' !in a && '/' !in b
    requires s + "/" + a == t + "/" + b
    ensures s == t && a == b
  {
    LastSlash(s, a);
    LastSlash(t, b);
  }

  /** For plain targets the key of services and informers tells targets apart. */
  lemma KeyIsInjective(t: Target, u: Target)
    requires Plain(t) && Plain(u)
    ensures ServiceKey(t) == ServiceKey(u) <==> t.apiVersion == u.apiVersion && t.kind == u.kind && t.namespace == u.namespace
  {
    if ServiceKey(t) == ServiceKey(u) {
      CutAtLastSlash(t.apiVersion + "/" + t.kind, t.namespace, u.apiVersion + "/" + u.kind, u.namespace);
      CutAtLastSlash(t.apiVersion, t.kind, u.apiVersion, u.kind);
    }
  }

  /** A part of one target's apiVersion is, in the other one, a part of the kind. */
  predicate Slid(t: Target, u: Target) {
    var k := |u.apiVersion|;
    && k < |t.apiVersion| && t.apiVersion[..k] == u.apiVersion && t.apiVersion[k] == '/'
    && u.kind == t.apiVersion[k + 1..] + "/" + t.kind
  }

  lemma SlidSame(t: Target, u: Target)
    requires Slid(t, u)
    ensures t.apiVersion + "/" + t.kind == u.apiVersion + "/" + u.kind
  {
    var k := |u.apiVersion|;
    assert t.apiVersion == u.apiVersion + "/" + t.apiVersion[k + 1..];
  }

  lemma SameSlid(t: Target, u: Target)
    requires t.apiVersion + "/" + t.kind == u.apiVersion + "/" + u.kind && |u.apiVersion| < |t.apiVersion|
    ensures Slid(t, u)
  {
    var k, a, b := |u.apiVersion|, t.apiVersion + "/" + t.kind, u.apiVersion + "/" + u.kind;
    assert t.apiVersion[..k] == a[..k] == b[..k] == u.apiVersion;
    assert t.apiVersion[k] == a[k] == b[k] == '/';
    assert u.kind == b[k + 1..] == a[k + 1..] == t.apiVersion[k + 1..] + "/" + t.kind;
  }

  /**
   For namespaces without a slash, which is all that validation admits: two targets have one key
   exactly when they are the same, or in the same namespace with a slash in the kind of one of them
   where the other's apiVersion has it.
   */
  lemma KeysCollideExactly(t: Target, u: Target)
    requires '/' !in t.namespace && '/' !in u.namespace
    ensures ServiceKey(t) == ServiceKey(u) <==>
      && t.namespace == u.namespace
      && ((t.apiVersion == u.apiVersion && t.kind == u.kind) || Slid(t, u) || Slid(u, t))
  {
    hide Slid;
    var a, b := t.apiVersion + "/" + t.kind, u.apiVersion + "/" + u.kind;
    if ServiceKey(t) == ServiceKey(u) {
      CutAtLastSlash(a, t.namespace, b, u.namespace);
      if |u.apiVersion| < |t.apiVersion| {
        SameSlid(t, u);
      } else if |t.apiVersion| < |u.apiVersion| {
        SameSlid(u, t);
      } else {
        assert t.apiVersion == a[..|t.apiVersion|] && t.kind == a[|t.apiVersion| + 1..];
        assert u.apiVersion == b[..|u.apiVersion|] && u.kind == b[|u.apiVersion| + 1..];
      }
    } else if Slid(t, u) {
      SlidSame(t, u);
    } else if Slid(u, t) {
      SlidSame(u, t);
    }
  }

  /** A slash in a kind can make two targets, both acceptable, share a service. */
  lemma KeysCanCollide() returns (t: Target, u: Target)
    ensures Parses(t) && Parses(u) && t.namespace == u.namespace == ""
    ensures ServiceKey(t) == ServiceKey(u) && InformerFor(t) != InformerFor(u)
  {
    t := Target("v1", "x/Pod", "", None, None);
    u := Target("v1/x", "Pod", "", None, None);
    assert ServiceKey(t) == "v1/x/Pod/" == ServiceKey(u);
    assert u.apiVersion[2] == '/' && u.apiVersion[..2] == "v1" && u.apiVersion[3..] == "x";
  }

  /** Some policy that is fetched at some time has the target. */
  ghost predicate Targeted(env: Environment, t: Target) {
    exists n: nat, name: Name :: env.fetches(n, name).Found? && env.fetches(n, name).policy.spec.target == t
  }

  /** No two targets of fetched policies have one key and different informers. */
  ghost predicate NoClashes(env: Environment) {
    forall t: Target, u: Target ::
      Targeted(env, t) && Targeted(env, u) && ServiceKey(t) == ServiceKey(u) ==> InformerFor(t) == InformerFor(u)
  }

  lemma PlainTargetsDoNotClash(env: Environment)
    requires forall t: Target :: Targeted(env, t) ==> Plain(t)
    ensures NoClashes(env)
  {
    hide ServiceKey, Plain, Targeted;
    forall t: Target, u: Target | Targeted(env, t) && Targeted(env, u) && ServiceKey(t) == ServiceKey(u)
      ensures InformerFor(t) == InformerFor(u)
    {
      KeyIsInjective(t, u);
    }
  }

  /** Whoever made them, informers and services are the ones that any policy of the target would make. */
  ghost predicate Shared(env: Environment, s: State) {
    && SharedIn(env, s.informers)
    && SharedIn(env, s.services)
  }

  ghost predicate SharedIn(env: Environment, m: map<string, Informer>) {
    forall t: Target :: Targeted(env, t) && ServiceKey(t) in m ==> m[ServiceKey(t)] == InformerFor(t)
  }

  lemma SharedAdd(env: Environment, m: map<string, Informer>, t: Target)
    requires NoClashes(env) && Targeted(env, t) && SharedIn(env, m)
    ensures SharedIn(env, m[ServiceKey(t) := InformerFor(t)])
  {
    hide ServiceKey, Targeted, InformerFor;
  }

  /** The informer made for a target watches for it: its kind, in its namespace or, for "" and "*", in all of them. */
  lemma OwnInformer(t: Target)
    ensures T.WatchesFor(InformerFor(t), t)
  {
  }

  lemma GetInformerShared(env: Environment, n: nat, s: State, t: Target)
    requires NoClashes(env) && Targeted(env, t) && Shared(env, s)
    ensures
      var got := GetInformer(env, n, s, t);
      && Shared(env, got.state)
      && (got.informer.Some? ==> got.informer.value == InformerFor(t))
  {
    hide ServiceKey, Targeted, InformerFor;
    SharedAdd(env, s.informers, t);
  }

  lemma EvaluatePolicyShared(env: Environment, cfg: ControllerConfig, n: nat, s: State, p: Policy)
    requires Sized(cfg, p) && NoClashes(env) && Targeted(env, p.spec.target) && Shared(env, s)
    ensures Shared(env, EvaluatePolicy(env, cfg, n, s, p).state)
  {
    hide ServiceKey, GetInformer, EvaluateByService, EvaluateDirectly, WithLimiter;
    var t := p.spec.target;
    GetInformerShared(env, n, s, t);
    var got := GetInformer(env, n, s, t);
    SharedAdd(env, got.state.services, t);
    GetInformerShared(env, n + |got.ev|, got.state, t);
    DirectKeeps(env, cfg, n + |got.ev|, got.state, p);
    var key := ServiceKey(t);
    if key in s.services {
      ServiceKeeps(env, cfg, n, s, p, s.services[key]);
      LimiterShared(env, s, p);
    } else if got.informer.Some? {
      var made := got.state.(services := got.state.services[key := got.informer.value]);
      ServiceKeeps(env, cfg, n + |got.ev|, made, p, got.informer.value);
      LimiterShared(env, made, p);
    } else {
      LimiterShared(env, GetInformer(env, n + |got.ev|, got.state, t).state, p);
    }
  }

  lemma LimiterShared(env: Environment, s: State, p: Policy)
    requires Shared(env, s)
    ensures Shared(env, WithLimiter(s, p))
  {
    hide ServiceKey;
  }

  lemma ReconcileShared(env: Environment, cfg: ControllerConfig, n: nat, s: State, name: Name)
    requires Deletable(cfg, env.fetches(n, name)) && NoClashes(env) && Shared(env, s)
    ensures Shared(env, Reconcile(env, cfg, n, s, name).state)
  {
    hide ServiceKey, EvaluatePolicy;
    match env.fetches(n, name) {
      case Found(p) =>
        if !p.spec.paused {
          IsTargeted(env, n, name);
          EvaluatePolicyShared(env, cfg, n + 1, Tracked(s, name, p), p);
        }
      case _ =>
    }
  }

  lemma IsTargeted(env: Environment, n: nat, name: Name)
    requires env.fetches(n, name).Found?
    ensures Targeted(env, env.fetches(n, name).policy.spec.target)
  {
  }

  lemma {:induction false} RunShared(env: Environment, cfg: ControllerConfig, names: seq<Name>)
    requires AllSized(env, cfg) && NoClashes(env)
    ensures Shared(env, RunOf(env, cfg, names).state)
  {
    hide Shared, Reconcile;
    if |names| == 0 {
      InitiallyShared(env);
    } else {
      var last := |names| - 1;
      RunShared(env, cfg, names[..last]);
      var before := RunOf(env, cfg, names[..last]);
      ReconcileShared(env, cfg, |before.ev|, before.state, names[last]);
    }
  }

  lemma InitiallyShared(env: Environment)
    ensures Shared(env, INITIAL)
  {
  }

  /** Whether a target is served already: by a service, or by an informer that one can be made of. */
  predicate Served(s: State, t: Target) {
    ServiceKey(t) in s.services.Keys + s.informers.Keys
  }

  /**
   Sharing is transparent. Reconciling a policy has the same events and the same outcome after any
   two runs that both serve its target, by a service or only by an informer, or both do not: it does
   not matter which policy made them, nor what was reconciled before.
   */
  lemma SharingIsTransparent(env: Environment, cfg: ControllerConfig, n: nat, name: Name,
                             one: seq<Name>, other: seq<Name>)
    requires AllSized(env, cfg) && NoClashes(env)
    requires env.fetches(n, name).Found? ==>
               var t := env.fetches(n, name).policy.spec.target;
               Served(RunOf(env, cfg, one).state, t) == Served(RunOf(env, cfg, other).state, t)
    ensures
      var r := Reconcile(env, cfg, n, RunOf(env, cfg, one).state, name);
      var q := Reconcile(env, cfg, n, RunOf(env, cfg, other).state, name);
      r.ev == q.ev && r.outcome == q.outcome
  {
    hide RunOf, Served, EvaluatePolicy, Shared;
    RunShared(env, cfg, one);
    RunShared(env, cfg, other);
    match env.fetches(n, name) {
      case Found(p) =>
        IsTargeted(env, n, name);
        var s, s' := RunOf(env, cfg, one).state, RunOf(env, cfg, other).state;
        TrackedServed(env, s, name, p);
        TrackedServed(env, s', name, p);
        if !p.spec.paused {
          SameEvaluation(env, cfg, n + 1, Tracked(s, name, p), Tracked(s', name, p), p);
        }
      case _ =>
    }
  }

  lemma TrackedServed(env: Environment, s: State, name: Name, p: Policy)
    ensures Served(Tracked(s, name, p), p.spec.target) == Served(s, p.spec.target)
    ensures Shared(env, s) ==> Shared(env, Tracked(s, name, p))
  {
    hide ServiceKey;
  }

  /** Two states that both serve a target, or both do not, evaluate its policies alike. */
  lemma SameEvaluation(env: Environment, cfg: ControllerConfig, n: nat, s: State, s': State, p: Policy)
    requires Sized(cfg, p) && NoClashes(env) && Targeted(env, p.spec.target) && Shared(env, s) && Shared(env, s')
    requires Served(s, p.spec.target) == Served(s', p.spec.target)
    ensures EvaluatePolicy(env, cfg, n, s, p).ev == EvaluatePolicy(env, cfg, n, s', p).ev
    ensures EvaluatePolicy(env, cfg, n, s, p).ok == EvaluatePolicy(env, cfg, n, s', p).ok
  {
    hide Served, Shared, EvaluatePolicy, EvaluateByService;
    if Served(s, p.spec.target) {
      EvaluatedByService(env, cfg, n, s, p);
      EvaluatedByService(env, cfg, n, s', p);
    } else {
      EvaluatedAnew(env, cfg, n, s, p);
      EvaluatedAnew(env, cfg, n, s', p);
    }
  }

  lemma EvaluatedByService(env: Environment, cfg: ControllerConfig, n: nat, s: State, p: Policy)
    requires Sized(cfg, p) && NoClashes(env) && Targeted(env, p.spec.target) && Shared(env, s) && Served(s, p.spec.target)
    ensures EvaluatePolicy(env, cfg, n, s, p).ev
         == EvaluateByService(env, cfg, n, INITIAL, p, InformerFor(p.spec.target)).ev
    ensures EvaluatePolicy(env, cfg, n, s, p).ok
         == EvaluateByService(env, cfg, n, INITIAL, p, InformerFor(p.spec.target)).ok
  {
    hide ServiceKey, EvaluateByService, EvaluateDirectly;
    var source := InformerFor(p.spec.target);
    SameByService(env, cfg, n, s, INITIAL, p, source);
    SameByService(env, cfg, n, s.(services := s.services[ServiceKey(p.spec.target) := source]), INITIAL, p, source);
    assert [] + EvaluateByService(env, cfg, n, INITIAL, p, source).ev
        == EvaluateByService(env, cfg, n, INITIAL, p, source).ev;
  }

  lemma EvaluatedAnew(env: Environment, cfg: ControllerConfig, n: nat, s: State, p: Policy)
    requires Sized(cfg, p) && !Served(s, p.spec.target)
    ensures EvaluatePolicy(env, cfg, n, s, p).ev == EvaluatePolicy(env, cfg, n, INITIAL, p).ev
    ensures EvaluatePolicy(env, cfg, n, s, p).ok == EvaluatePolicy(env, cfg, n, INITIAL, p).ok
  {
    hide ServiceKey, EvaluateByService, EvaluateDirectly;
    var t := p.spec.target;
    var key, source := ServiceKey(t), InformerFor(t);
    var got, new_ := GetInformer(env, n, s, t), GetInformer(env, n, INITIAL, t);
    if got.informer.Some? {
      SameByService(env, cfg, n + |got.ev|, got.state.(services := got.state.services[key := source]),
                    new_.state.(services := new_.state.services[key := source]), p, source);
    } else {
      SameDirectly(env, cfg, n + |got.ev|, got.state, new_.state, p);
    }
  }

  lemma SameByService(env: Environment, cfg: ControllerConfig, n: nat, s: State, s': State, p: Policy, source: Informer)
    requires Sized(cfg, p)
    ensures EvaluateByService(env, cfg, n, s, p, source).ev == EvaluateByService(env, cfg, n, s', p, source).ev
    ensures EvaluateByService(env, cfg, n, s, p, source).ok == EvaluateByService(env, cfg, n, s', p, source).ok
  {
    hide Evaluation.Service, Evaluation.Scoped, Evaluation.Objects, DeleteQueued, Parses;
  }

  lemma SameDirectly(env: Environment, cfg: ControllerConfig, n: nat, s: State, s': State, p: Policy)
    requires Sized(cfg, p)
    requires ServiceKey(p.spec.target) !in s.informers && ServiceKey(p.spec.target) !in s'.informers
    ensures EvaluateDirectly(env, cfg, n, s, p).ev == EvaluateDirectly(env, cfg, n, s', p).ev
    ensures EvaluateDirectly(env, cfg, n, s, p).ok == EvaluateDirectly(env, cfg, n, s', p).ok
  {
    hide ServiceKey, Evaluation.Direct, DeleteQueued;
  }

  predicate Extends(later: map<string, Informer>, earlier: map<string, Informer>) {
    forall key :: key in earlier ==> key in later && later[key] == earlier[key]
  }

  /** Whether an evaluation by a service asks for the policy's limiter: for a queue, unless it is cancelled. */
  predicate AsksByService(env: Environment, n: nat, p: Policy, source: Informer) {
    Parses(p.spec.target) &&
    var resources :=
      Evaluation.Scoped(Evaluation.Objects(env.stores(n, source)), NormalNamespace(p.spec.target.namespace));
    var e := Evaluation.Service(env, n + 1, p, resources);
    e.queue != [] && !env.done(n + 1 + |e.ev|)
  }

  predicate AsksDirectly(env: Environment, n: nat, s: State, p: Policy) {
    var got := GetInformer(env, n, s, p.spec.target);
    got.informer.Some? &&
    Evaluation.Direct(env, n + |got.ev| + 1, p, env.stores(n + |got.ev|, got.informer.value)).queue != []
  }

  predicate Asks(env: Environment, n: nat, s: State, p: Policy) {
    var key := ServiceKey(p.spec.target);
    if key in s.services then AsksByService(env, n, p, s.services[key])
    else
      var got := GetInformer(env, n, s, p.spec.target);
      if got.informer.Some? then AsksByService(env, n + |got.ev|, p, got.informer.value)
      else AsksDirectly(env, n + |got.ev|, got.state, p)
  }

  /** What an evaluation leaves of the state: it adds informers and services, and sets the rate it asks for. */
  ghost predicate EvaluationKeeps(s: State, s': State, p: Policy, asks: bool) {
    && s'.uids == s.uids && s'.specs == s.specs
    && s'.rates == (if asks then s.rates[p.uid := T.Rate(p.spec.behavior)] else s.rates)
    && Extends(s'.informers, s.informers) && Extends(s'.services, s.services)
  }

  lemma GetInformerKeeps(env: Environment, n: nat, s: State, t: Target)
    ensures
      var s' := GetInformer(env, n, s, t).state;
      s' == s.(informers := s'.informers) && Extends(s'.informers, s.informers)
  {
    hide ServiceKey;
  }

  lemma ServiceKeeps(env: Environment, cfg: ControllerConfig, n: nat, s: State, p: Policy, source: Informer)
    requires Sized(cfg, p)
    ensures EvaluateByService(env, cfg, n, s, p, source).state
         == if AsksByService(env, n, p, source) then WithLimiter(s, p) else s
  {
    hide Evaluation.Service, Evaluation.Scoped, Evaluation.Objects, DeleteQueued, Parses, WithLimiter, NormalNamespace;
  }

  lemma DirectKeeps(env: Environment, cfg: ControllerConfig, n: nat, s: State, p: Policy)
    requires Sized(cfg, p)
    ensures
      var made := GetInformer(env, n, s, p.spec.target).state;
      EvaluateDirectly(env, cfg, n, s, p).state == if AsksDirectly(env, n, s, p) then WithLimiter(made, p) else made
  {
    hide GetInformer, Evaluation.Direct, DeleteQueued, WithLimiter;
  }

  lemma EvaluatePolicyKeeps(env: Environment, cfg: ControllerConfig, n: nat, s: State, p: Policy)
    requires Sized(cfg, p)
    ensures EvaluationKeeps(s, EvaluatePolicy(env, cfg, n, s, p).state, p, Asks(env, n, s, p))
  {
    hide GetInformer, EvaluateByService, EvaluateDirectly, ServiceKey, AsksByService, AsksDirectly;
    var t := p.spec.target;
    var key := ServiceKey(t);
    if key in s.services {
      ServiceKeeps(env, cfg, n, s, p, s.services[key]);
    } else {
      GetInformerKeeps(env, n, s, t);
      var got := GetInformer(env, n, s, t);
      if got.informer.Some? {
        var made := got.state.(services := got.state.services[key := got.informer.value]);
        ServiceKeeps(env, cfg, n + |got.ev|, made, p, got.informer.value);
      } else {
        GetInformerKeeps(env, n + |got.ev|, got.state, t);
        DirectKeeps(env, cfg, n + |got.ev|, got.state, p);
      }
    }
  }

  /** Informers are never taken away, whatever policies come, change and go. */
  lemma InformersStay(env: Environment, cfg: ControllerConfig, n: nat, s: State, name: Name)
    requires Deletable(cfg, env.fetches(n, name))
    ensures
      var s' := Reconcile(env, cfg, n, s, name).state;
      Extends(s'.informers, s.informers) && Extends(s'.services, s.services)
  {
    hide EvaluatePolicy;
    match env.fetches(n, name) {
      case Found(p) =>
        if !p.spec.paused {
          EvaluatePolicyKeeps(env, cfg, n + 1, Tracked(s, name, p), p);
        }
      case _ =>
    }
  }

  // ---------------------------------------------------- synced informers

  /** An informer said to have synced, in some events. */
  ghost predicate SaidSynced(ev: seq<Event>, informer: Informer) {
    exists i: nat :: i < |ev| && ev[i] == Synced(informer, true)
  }

  /** Every informer that is kept has synced, and every service lists from a kept one. */
  ghost predicate Backed(ev: seq<Event>, s: State) {
    && (forall key :: key in s.informers ==> SaidSynced(ev, s.informers[key]))
    && (forall key :: key in s.services ==> key in s.informers && s.informers[key] == s.services[key])
  }

  lemma BackedLonger(ev: seq<Event>, more: seq<Event>, s: State)
    requires Backed(ev, s)
    ensures Backed(ev + more, s)
  {
    forall key | key in s.informers
      ensures SaidSynced(ev + more, s.informers[key])
    {
      var i: nat :| i < |ev| && ev[i] == Synced(s.informers[key], true);
      assert (ev + more)[i] == ev[i];
    }
  }

  lemma GetInformerBacked(env: Environment, ev: seq<Event>, n: nat, s: State, t: Target)
    requires Backed(ev, s)
    ensures
      var got := GetInformer(env, n, s, t);
      && Backed(ev + got.ev, got.state)
      && (got.informer.Some? ==>
            ServiceKey(t) in got.state.informers && got.state.informers[ServiceKey(t)] == got.informer.value)
  {
    hide ServiceKey, InformerFor;
    var got := GetInformer(env, n, s, t);
    BackedLonger(ev, got.ev, s);
    if got.ev != [] {
      assert (ev + got.ev)[|ev|] == got.ev[0];
    }
  }

  lemma EvaluationBacked(env: Environment, cfg: ControllerConfig, ev: seq<Event>, n: nat, s: State, p: Policy)
    requires Sized(cfg, p) && Backed(ev, s)
    ensures
      var step := EvaluatePolicy(env, cfg, n, s, p);
      Backed(ev + step.ev, step.state)
  {
    hide ServiceKey, GetInformer, EvaluateByService, EvaluateDirectly, Backed, AsksByService, AsksDirectly;
    var t := p.spec.target;
    var key, got := ServiceKey(t), GetInformer(env, n, s, t);
    GetInformerBacked(env, ev, n, s, t);
    if key in s.services {
      var step := EvaluateByService(env, cfg, n, s, p, s.services[key]);
      ServiceKeeps(env, cfg, n, s, p, s.services[key]);
      LimiterBacked(ev, s, p);
      BackedLonger(ev, step.ev, step.state);
    } else if got.informer.Some? {
      var made := got.state.(services := got.state.services[key := got.informer.value]);
      ServiceBacked(ev + got.ev, got.state, key);
      ServiceKeeps(env, cfg, n + |got.ev|, made, p, got.informer.value);
      LimiterBacked(ev + got.ev, made, p);
      var step := EvaluateByService(env, cfg, n + |got.ev|, made, p, got.informer.value);
      BackedLonger(ev + got.ev, step.ev, step.state);
      assert ev + got.ev + step.ev == ev + (got.ev + step.ev);
    } else {
      var m, again := n + |got.ev|, GetInformer(env, n + |got.ev|, got.state, t);
      GetInformerBacked(env, ev + got.ev, m, got.state, t);
      DirectKeeps(env, cfg, m, got.state, p);
      LimiterBacked(ev + got.ev + again.ev, again.state, p);
      var step := EvaluateDirectly(env, cfg, m, got.state, p);
      DirectBegins(env, cfg, m, got.state, p);
      BackedLonger(ev + got.ev + again.ev, step.ev[|again.ev|..], step.state);
      assert ev + got.ev + again.ev + step.ev[|again.ev|..] == ev + (got.ev + step.ev);
    }
  }

  lemma DirectBegins(env: Environment, cfg: ControllerConfig, n: nat, s: State, p: Policy)
    requires Sized(cfg, p)
    ensures GetInformer(env, n, s, p.spec.target).ev <= EvaluateDirectly(env, cfg, n, s, p).ev
  {
    hide GetInformer, Evaluation.Direct, DeleteQueued;
  }

  lemma LimiterBacked(ev: seq<Event>, s: State, p: Policy)
    requires Backed(ev, s)
    ensures Backed(ev, WithLimiter(s, p))
  {
    hide SaidSynced;
  }

  lemma ServiceBacked(ev: seq<Event>, s: State, key: string)
    requires Backed(ev, s) && key in s.informers
    ensures Backed(ev, s.(services := s.services[key := s.informers[key]]))
  {
    hide SaidSynced;
  }

  lemma ReconcileBacked(env: Environment, cfg: ControllerConfig, ev: seq<Event>, s: State, name: Name)
    requires Deletable(cfg, env.fetches(|ev|, name)) && Backed(ev, s)
    ensures
      var r := Reconcile(env, cfg, |ev|, s, name);
      Backed(ev + r.ev, r.state)
  {
    hide EvaluatePolicy, Backed;
    var fetch := env.fetches(|ev|, name);
    var fetched := [Fetched(name, fetch)];
    BackedLonger(ev, fetched, s);
    match fetch {
      case Missing => ReleasedBacked(ev + fetched, s, name);
      case Unavailable =>
      case Found(p) =>
        var tracked := Tracked(s, name, p);
        TrackedBacked(ev + fetched, s, name, p);
        if !p.spec.paused {
          EvaluationBacked(env, cfg, ev + fetched, |ev| + 1, tracked, p);
          var step := EvaluatePolicy(env, cfg, |ev| + 1, tracked, p);
          assert ev + fetched + step.ev == ev + (fetched + step.ev);
        }
    }
  }

  lemma ReleasedBacked(ev: seq<Event>, s: State, name: Name)
    requires Backed(ev, s)
    ensures Backed(ev, Released(s, name))
  {
    hide SaidSynced;
  }

  lemma TrackedBacked(ev: seq<Event>, s: State, name: Name, p: Policy)
    requires Backed(ev, s)
    ensures Backed(ev, Tracked(s, name, p))
  {
    hide SaidSynced;
  }

  /** Over every run, an informer that is kept has synced, so that one that did not is not. */
  lemma {:induction false} KeptInformersHaveSynced(env: Environment, cfg: ControllerConfig, names: seq<Name>)
    requires AllSized(env, cfg)
    ensures Backed(RunOf(env, cfg, names).ev, RunOf(env, cfg, names).state)
  {
    hide Reconcile, SaidSynced;
    if |names| > 0 {
      var last := |names| - 1;
      KeptInformersHaveSynced(env, cfg, names[..last]);
      var before := RunOf(env, cfg, names[..last]);
      ReconcileBacked(env, cfg, before.ev, before.state, names[last]);
    }
  }

  /** Whatever else becomes of it, an evaluation leaves a service for its target exactly if it finds one or gets an informer. */
  lemma EvaluationServes(env: Environment, cfg: ControllerConfig, n: nat, s: State, p: Policy)
    requires Sized(cfg, p)
    ensures
      var key := ServiceKey(p.spec.target);
      key in EvaluatePolicy(env, cfg, n, s, p).state.services
      <==> key in s.services || key in s.informers || env.syncs(n)
  {
    hide ServiceKey, InformerFor, EvaluateByService, EvaluateDirectly, WithLimiter, AsksByService, AsksDirectly;
    var t := p.spec.target;
    var key, got := ServiceKey(t), GetInformer(env, n, s, t);
    if key in s.services {
      ServiceKeeps(env, cfg, n, s, p, s.services[key]);
    } else if got.informer.Some? {
      var made := got.state.(services := got.state.services[key := got.informer.value]);
      ServiceKeeps(env, cfg, n + |got.ev|, made, p, got.informer.value);
      LimiterOnly(made, p);
    } else {
      var again := GetInformer(env, n + |got.ev|, got.state, t);
      DirectKeeps(env, cfg, n + |got.ev|, got.state, p);
      LimiterOnly(again.state, p);
    }
    LimiterOnly(s, p);
  }

  lemma LimiterOnly(s: State, p: Policy)
    ensures WithLimiter(s, p).services == s.services && WithLimiter(s, p).informers == s.informers
  {
  }

  // --------------------------------------------------------------- outcomes

  /** An evaluation succeeds when it ends with a status update that does not fail. */
  ghost predicate Reported(env: Environment, n: nat, ev: seq<Event>) {
    |ev| > 0 && ev[|ev| - 1].StatusUpdated? && !env.statusFails(n + |ev| - 1)
  }

  lemma ServiceReports(env: Environment, cfg: ControllerConfig, n: nat, s: State, p: Policy, source: Informer)
    requires Sized(cfg, p)
    ensures
      var step := EvaluateByService(env, cfg, n, s, p, source);
      step.ok <==> Reported(env, n, step.ev)
  {
    hide Evaluation.Service, Evaluation.Scoped, Evaluation.Objects, DeleteQueued, Parses;
  }

  lemma DirectReports(env: Environment, cfg: ControllerConfig, n: nat, s: State, p: Policy)
    requires Sized(cfg, p)
    ensures
      var step := EvaluateDirectly(env, cfg, n, s, p);
      step.ok <==> Reported(env, n, step.ev)
  {
    hide ServiceKey, Evaluation.Direct, DeleteQueued;
  }

  lemma EvaluationReports(env: Environment, cfg: ControllerConfig, n: nat, s: State, p: Policy)
    requires Sized(cfg, p)
    ensures
      var step := EvaluatePolicy(env, cfg, n, s, p);
      step.ok <==> Reported(env, n, step.ev)
  {
    hide ServiceKey, EvaluateByService, EvaluateDirectly, GetInformer;
    var t := p.spec.target;
    var key, got := ServiceKey(t), GetInformer(env, n, s, t);
    GotReportsNothing(env, n, s, t);
    if key in s.services {
      ServiceReports(env, cfg, n, s, p, s.services[key]);
    } else if got.informer.Some? {
      var made := got.state.(services := got.state.services[key := got.informer.value]);
      ServiceReports(env, cfg, n + |got.ev|, made, p, got.informer.value);
    } else {
      DirectReports(env, cfg, n + |got.ev|, got.state, p);
    }
  }

  lemma GotReportsNothing(env: Environment, n: nat, s: State, t: Target)
    ensures forall i :: 0 <= i < |GetInformer(env, n, s, t).ev| ==> GetInformer(env, n, s, t).ev[i].Synced?
  {
    hide ServiceKey;
  }

  /**
   What comes after a reconciliation: nothing for a deleted policy, an error for one that could not be
   fetched, the controller's interval for a paused one; and after an evaluation the policy's own
   interval, if it has a positive one, or else the controller's, unless the status was not updated:
   then half a minute.
   */
  lemma OutcomesAreAsPromised(env: Environment, cfg: ControllerConfig, n: nat, s: State, name: Name)
    requires Deletable(cfg, env.fetches(n, name))
    ensures
      var r := Reconcile(env, cfg, n, s, name);
      match env.fetches(n, name)
      case Missing => r.outcome == Finished
      case Unavailable => r.outcome == FetchFailed
      case Found(p) =>
        var own := p.spec.evaluationInterval;
        r.outcome == RequeueAfter(
          if p.spec.paused then cfg.gcInterval
          else if !Reported(env, n, r.ev) then 30_000_000_000
          else if own.Some? && own.value > 0 then own.value
          else cfg.gcInterval)
  {
    hide EvaluatePolicy;
    match env.fetches(n, name) {
      case Found(p) =>
        if !p.spec.paused {
          EvaluationReports(env, cfg, n + 1, Tracked(s, name, p), p);
        }
      case _ =>
    }
  }

  /** The targets that parse: a kind, and a version that begins with v, or a group and a version. */
  lemma ParsesExactly(t: Target)
    ensures Parses(t) <==>
      && t.kind != ""
      && ((exists rest: string :: CoreVersion(t.apiVersion, rest))
          || (exists group: string, version: string :: GroupVersion(t.apiVersion, group, version)))
  {
    var a := t.apiVersion;
    if rest: string :| CoreVersion(a, rest) {
      CoreVersionParts(a, rest);
    }
    if group: string, version: string :| GroupVersion(a, group, version) {
      GroupVersionParts(a, group, version);
      assert a[|group|] == '/' && '/' !in a[..|group|] && '/' !in a[|group| + 1..];
    }
    if Parses(t) {
      ParsedParts(t);
    }
  }

  predicate CoreVersion(a: string, rest: string) {
    a == "v" + rest && '/' !in rest
  }

  predicate GroupVersion(a: string, group: string, version: string) {
    a == group + "/" + version && group != "" && version != "" && '/' !in group && '/' !in version
  }

  lemma CoreVersionParts(a: string, rest: string)
    requires CoreVersion(a, rest)
    ensures a != "" && a[0] == 'v' && '/' !in a
  {
  }

  lemma GroupVersionParts(a: string, group: string, version: string)
    requires GroupVersion(a, group, version)
    ensures |a| == |group| + 1 + |version| && a[..|group|] == group && a[|group| + 1..] == version
    ensures a[|group|] == '/' && '/' in a
  {
    assert a[|group|] == '/';
  }

  lemma CutAtSlash(a: string, i: nat)
    requires 0 < i < |a| - 1 && a[i] == '/' && '/' !in a[..i] && '/' !in a[i + 1..]
    ensures GroupVersion(a, a[..i], a[i + 1..])
  {
    assert a == a[..i] + "/" + a[i + 1..];
  }

  lemma CutAtV(a: string)
    requires a != "" && a[0] == 'v' && '/' !in a
    ensures CoreVersion(a, a[1..])
  {
    assert a == "v" + a[1..];
  }

  lemma ParsedParts(t: Target)
    requires Parses(t)
    ensures
      || (exists rest: string :: CoreVersion(t.apiVersion, rest))
      || (exists group: string, version: string :: GroupVersion(t.apiVersion, group, version))
  {
    hide CoreVersion, GroupVersion;
    if '/' !in t.apiVersion {
      CutAtV(t.apiVersion);
    } else {
      var i: nat :| 0 < i < |t.apiVersion| - 1 && t.apiVersion[i] == '/'
                    && '/' !in t.apiVersion[..i] && '/' !in t.apiVersion[i + 1..];
      CutAtSlash(t.apiVersion, i);
    }
  }

  // -------------------------------------------------------------- lifecycle

  /** The UIDs for which something is held. */
  function Held(s: State): set<string> {
    s.specs.Keys + s.rates.Keys
  }

  /** Everything held is held for a policy tracked under some name. */
  ghost predicate NothingLeaks(s: State) {
    forall uid :: uid in Held(s) ==> exists name :: name in s.uids && s.uids[name] == uid
  }

  lemma ReconcileTracks(env: Environment, cfg: ControllerConfig, n: nat, s: State, name: Name)
    requires Deletable(cfg, env.fetches(n, name)) && env.fetches(n, name).Found?
    ensures
      var p := env.fetches(n, name).policy;
      var s' := Reconcile(env, cfg, n, s, name).state;
      && s'.uids == s.uids[name := p.uid]
      && s'.specs == s.specs[p.uid := p.spec]
      && s'.rates ==
           if !p.spec.paused && Asks(env, n + 1, Tracked(s, name, p), p)
           then s.rates[p.uid := T.Rate(p.spec.behavior)] else s.rates
  {
    hide EvaluatePolicy, Asks;
    var p := env.fetches(n, name).policy;
    if !p.spec.paused {
      EvaluatePolicyKeeps(env, cfg, n + 1, Tracked(s, name, p), p);
    }
  }

  /** What the name was tracking before is nobody else's, and something is held for it. */
  ghost predicate Abandons(s: State, name: Name, uid: string) {
    && name in s.uids && s.uids[name] != uid && s.uids[name] in Held(s)
    && forall other :: other in s.uids && other != name ==> s.uids[other] != s.uids[name]
  }

  /**
   Reconciling a fetched policy leaks exactly when its name was tracking another UID that still
   holds something: a policy deleted and created again before its deletion was reconciled.
   */
  lemma LeaksExactlyWhenAbandoned(env: Environment, cfg: ControllerConfig, n: nat, s: State, name: Name)
    requires Deletable(cfg, env.fetches(n, name)) && env.fetches(n, name).Found? && NothingLeaks(s)
    ensures NothingLeaks(Reconcile(env, cfg, n, s, name).state) <==> !Abandons(s, name, env.fetches(n, name).policy.uid)
  {
    hide Reconcile;
    var p := env.fetches(n, name).policy;
    var s' := Reconcile(env, cfg, n, s, name).state;
    ReconcileTracks(env, cfg, n, s, name);
    if Abandons(s, name, p.uid) {
      assert s.uids[name] in Held(s');
      assert forall other :: other in s'.uids ==> s'.uids[other] != s.uids[name];
    } else {
      forall uid | uid in Held(s')
        ensures exists other :: other in s'.uids && s'.uids[other] == uid
      {
        if uid == p.uid {
          assert s'.uids[name] == uid;
        } else {
          assert uid in Held(s);
          var other :| other in s.uids && s.uids[other] == uid;
          if other == name {
            var third :| third in s.uids && third != name && s.uids[third] == s.uids[name];
            assert s'.uids[third] == uid;
          } else {
            assert s'.uids[other] == uid;
          }
        }
      }
    }
  }

  /** Reconciling a deletion gives up what was held for the UID, and touches nothing else. */
  lemma DeletionReleases(env: Environment, cfg: ControllerConfig, n: nat, s: State, name: Name)
    requires Deletable(cfg, env.fetches(n, name)) && env.fetches(n, name).Missing?
    ensures
      var s' := Reconcile(env, cfg, n, s, name).state;
      && name !in s'.uids
      && (name in s.uids ==> s.uids[name] !in Held(s'))
      && (forall other :: other in s.uids && other != name ==> other in s'.uids && s'.uids[other] == s.uids[other])
      && (forall uid :: (name in s.uids ==> uid != s.uids[name]) ==>
            && (uid in s.specs <==> uid in s'.specs) && (uid in s.specs ==> s'.specs[uid] == s.specs[uid])
            && (uid in s.rates <==> uid in s'.rates) && (uid in s.rates ==> s'.rates[uid] == s.rates[uid]))
      && s'.informers == s.informers && s'.services == s.services
      && (NothingLeaks(s) ==> NothingLeaks(s'))
  {
    hide EvaluatePolicy;
    var s' := Reconcile(env, cfg, n, s, name).state;
    if NothingLeaks(s) {
      forall uid | uid in Held(s')
        ensures exists other :: other in s'.uids && s'.uids[other] == uid
      {
        assert uid in Held(s);
        var other :| other in s.uids && s.uids[other] == uid;
        assert other in s'.uids;
      }
    }
  }

  /** In a run, a name's UID only changes after the deletion was reconciled. */
  ghost predicate Orderly(env: Environment, cfg: ControllerConfig, names: seq<Name>)
    requires AllSized(env, cfg)
  {
    forall k :: 0 <= k < |names| ==>
      var before := RunOf(env, cfg, names[..k]);
      var fetch := env.fetches(|before.ev|, names[k]);
      fetch.Found? && names[k] in before.state.uids ==> before.state.uids[names[k]] == fetch.policy.uid
  }

  /** Orderly runs leak nothing: every limiter and every tracked spec belongs to a policy tracked by name. */
  lemma {:induction false} OrderlyRunsLeakNothing(env: Environment, cfg: ControllerConfig, names: seq<Name>)
    requires AllSized(env, cfg) && Orderly(env, cfg, names)
    ensures NothingLeaks(RunOf(env, cfg, names).state)
  {
    hide Reconcile;
    if |names| > 0 {
      var last := |names| - 1;
      var earlier := names[..last];
      assert forall k :: 0 <= k < last ==> earlier[..k] == names[..k] && earlier[k] == names[k];
      OrderlyRunsLeakNothing(env, cfg, earlier);
      var before := RunOf(env, cfg, earlier);
      var n := |before.ev|;
      match env.fetches(n, names[last]) {
        case Missing => DeletionReleases(env, cfg, n, before.state, names[last]);
        case Unavailable => UnavailableChangesNothing(env, cfg, n, before.state, names[last]);
        case Found(p) => LeaksExactlyWhenAbandoned(env, cfg, n, before.state, names[last]);
      }
    }
  }

  /** At the k-th reconciliation of a run the name's UID changes, and what was held for the old one is abandoned. */
  ghost predicate AbandonsAt(env: Environment, cfg: ControllerConfig, names: seq<Name>, k: nat)
    requires AllSized(env, cfg) && k < |names|
  {
    var before := RunOf(env, cfg, names[..k]);
    var fetch := env.fetches(|before.ev|, names[k]);
    fetch.Found? && Abandons(before.state, names[k], fetch.policy.uid)
  }

  /** One reconciliation more. */
  lemma LeaksAtLast(env: Environment, cfg: ControllerConfig, names: seq<Name>)
    requires AllSized(env, cfg) && names != [] && NothingLeaks(RunOf(env, cfg, names[..|names| - 1]).state)
    ensures NothingLeaks(RunOf(env, cfg, names).state) <==> !AbandonsAt(env, cfg, names, |names| - 1)
  {
    hide Reconcile, NothingLeaks, Abandons;
    var last := |names| - 1;
    var before := RunOf(env, cfg, names[..last]);
    var n := |before.ev|;
    match env.fetches(n, names[last]) {
      case Missing => DeletionReleases(env, cfg, n, before.state, names[last]);
      case Unavailable => UnavailableChangesNothing(env, cfg, n, before.state, names[last]);
      case Found(p) => LeaksExactlyWhenAbandoned(env, cfg, n, before.state, names[last]);
    }
  }

  /** A run leaks nothing at any of its stages exactly when it abandons nothing at any of them. */
  lemma {:induction false} RunsLeakExactlyWhenTheyAbandon(env: Environment, cfg: ControllerConfig, names: seq<Name>)
    requires AllSized(env, cfg)
    ensures (forall k: nat | k <= |names| :: NothingLeaks(RunOf(env, cfg, names[..k]).state))
       <==> (forall k: nat | k < |names| :: !AbandonsAt(env, cfg, names, k))
  {
    hide RunOf, NothingLeaks, AbandonsAt;
    if names == [] {
      NothingLeaksAtFirst(env, cfg);
    } else {
      var last := |names| - 1;
      var earlier := names[..last];
      RunsLeakExactlyWhenTheyAbandon(env, cfg, earlier);
      forall k: nat | k <= last
        ensures earlier[..k] == names[..k]
        ensures k < last ==> AbandonsAt(env, cfg, earlier, k) == AbandonsAt(env, cfg, names, k)
      {
        assert earlier[..k] == names[..k];
        if k < last {
          AbandonsAlike(env, cfg, names, k);
        }
      }
      assert names[..last + 1] == names && earlier[..last] == earlier;
      if NothingLeaks(RunOf(env, cfg, earlier).state) {
        LeaksAtLast(env, cfg, names);
      }
      if forall k: nat | k < |names| :: !AbandonsAt(env, cfg, names, k) {
        assert forall k: nat | k < last :: !AbandonsAt(env, cfg, earlier, k);
        assert NothingLeaks(RunOf(env, cfg, earlier[..last]).state);
        forall k: nat | k <= |names|
          ensures NothingLeaks(RunOf(env, cfg, names[..k]).state)
        {
          if k <= last {
            assert NothingLeaks(RunOf(env, cfg, earlier[..k]).state);
          }
        }
      }
    }
  }

  lemma AbandonsAlike(env: Environment, cfg: ControllerConfig, names: seq<Name>, k: nat)
    requires AllSized(env, cfg) && k < |names| - 1
    ensures AbandonsAt(env, cfg, names[..|names| - 1], k) == AbandonsAt(env, cfg, names, k)
  {
    hide RunOf, Abandons;
    assert names[..|names| - 1][..k] == names[..k];
  }

  lemma NothingLeaksAtFirst(env: Environment, cfg: ControllerConfig)
    requires AllSized(env, cfg)
    ensures NothingLeaks(RunOf(env, cfg, []).state)
  {
  }

  lemma PausedRun(env: Environment, cfg: ControllerConfig, name: Name, p: Policy)
    requires AllSized(env, cfg) && env.fetches(0, name) == Found(p) && p.spec.paused
    ensures RunOf(env, cfg, [name]) == Run([Fetched(name, Found(p))], Tracked(INITIAL, name, p))
  {
    assert [name][..0] == [] && RunOf(env, cfg, []) == Run([], INITIAL);
  }

  lemma AbandonsNothing(env: Environment, cfg: ControllerConfig, names: seq<Name>)
    requires AllSized(env, cfg) && names != []
    ensures !AbandonsAt(env, cfg, names, 0)
  {
    assert names[..0] == [];
  }

  lemma AbandonsSecond(env: Environment, cfg: ControllerConfig, name: Name, first: Policy, second: Policy)
    requires AllSized(env, cfg) && env.fetches(0, name) == Found(first) && env.fetches(1, name) == Found(second)
    requires first.spec.paused && first.uid != second.uid
    ensures AbandonsAt(env, cfg, [name, name], 1)
  {
    hide RunOf;
    PausedRun(env, cfg, name, first);
    assert [name, name][..1] == [name];
    assert first.uid in Tracked(INITIAL, name, first).specs;
  }

  /** A run that leaks: a policy deleted and created again under its name before the deletion was reconciled. */
  lemma ALeakingRun() returns (env: Environment, cfg: ControllerConfig, names: seq<Name>)
    ensures env.Lawful() && AllSized(env, cfg) && |names| == 2
    ensures !NothingLeaks(RunOf(env, cfg, names).state)
  {
    var spec := Spec(Target("v1", "Pod", "", None, None), TtlSpec(None, "", map[], None, "", None), None,
                     Behavior(0, 0, false, "", "", None), None, true);
    var name := Name("default", "policy");
    cfg, names := ControllerConfig(0, 50), [name, name];
    env := Environment(
      Library((selector, labels) => false, text => None), n => false, n => 0, n => true, n => false,
      n => Accepted, (n, name) => Found(Policy(if n == 0 then "old" else "new", spec)),
      n => true, (n, informer) => [], n => false);
    SizedByConfigOrPolicies(env, cfg);
    hide RunOf, AbandonsAt;
    var old_ := Policy("old", spec);
    PausedRun(env, cfg, name, old_);
    assert [name][..0] == [] && names[..1] == [name];
    NothingLeaksAtFirst(env, cfg);
    assert !AbandonsAt(env, cfg, [name], 0) by {
      AbandonsNothing(env, cfg, [name]);
    }
    LeaksAtLast(env, cfg, [name]);
    assert AbandonsAt(env, cfg, names, 1) by {
      AbandonsSecond(env, cfg, name, old_, Policy("new", spec));
    }
    LeaksAtLast(env, cfg, names);
  }

  /** The rate last asked for by each policy that is still there, over a run. */
  ghost function LastAsked(env: Environment, cfg: ControllerConfig, names: seq<Name>): map<string, int64>
    requires AllSized(env, cfg)
  {
    if |names| == 0 then map[]
    else
      var last := |names| - 1;
      var before, asked := RunOf(env, cfg, names[..last]), LastAsked(env, cfg, names[..last]);
      match env.fetches(|before.ev|, names[last])
      case Missing => if names[last] in before.state.uids then asked - {before.state.uids[names[last]]} else asked
      case Unavailable => asked
      case Found(p) =>
        if !p.spec.paused && Asks(env, |before.ev| + 1, Tracked(before.state, names[last], p), p)
        then asked[p.uid := T.Rate(p.spec.behavior)] else asked
  }

  /** Over every run there is one limiter for each UID that has asked for one, at the rate it last asked for. */
  lemma {:induction false} LimitersCarryTheRateLastAsked(env: Environment, cfg: ControllerConfig, names: seq<Name>)
    requires AllSized(env, cfg)
    ensures RunOf(env, cfg, names).state.rates == LastAsked(env, cfg, names)
  {
    hide Reconcile, Asks;
    if |names| > 0 {
      var last := |names| - 1;
      LimitersCarryTheRateLastAsked(env, cfg, names[..last]);
      var before := RunOf(env, cfg, names[..last]);
      var n := |before.ev|;
      match env.fetches(n, names[last]) {
        case Missing => DeletionForgets(env, cfg, n, before.state, names[last]);
        case Unavailable => UnavailableChangesNothing(env, cfg, n, before.state, names[last]);
        case Found(p) => ReconcileTracks(env, cfg, n, before.state, names[last]);
      }
    }
  }

  lemma UnavailableChangesNothing(env: Environment, cfg: ControllerConfig, n: nat, s: State, name: Name)
    requires Deletable(cfg, env.fetches(n, name)) && env.fetches(n, name).Unavailable?
    ensures Reconcile(env, cfg, n, s, name).state == s
  {
    hide EvaluatePolicy;
  }

  /** What is abandoned stays: nothing but another policy with that UID ever gives it up. */
  lemma LeakIsForGood(env: Environment, cfg: ControllerConfig, n: nat, s: State, name: Name, uid: string)
    requires Deletable(cfg, env.fetches(n, name))
    requires uid in Held(s) && forall other :: other in s.uids ==> s.uids[other] != uid
    requires env.fetches(n, name).Found? ==> env.fetches(n, name).policy.uid != uid
    ensures
      var s' := Reconcile(env, cfg, n, s, name).state;
      uid in Held(s') && forall other :: other in s'.uids ==> s'.uids[other] != uid
  {
    hide Reconcile;
    match env.fetches(n, name) {
      case Missing => DeletionReleases(env, cfg, n, s, name); DeletionForgets(env, cfg, n, s, name);
      case Unavailable => UnavailableChangesNothing(env, cfg, n, s, name);
      case Found(p) => ReconcileTracks(env, cfg, n, s, name);
    }
  }

  lemma DeletionForgets(env: Environment, cfg: ControllerConfig, n: nat, s: State, name: Name)
    requires Deletable(cfg, env.fetches(n, name)) && env.fetches(n, name).Missing?
    ensures Reconcile(env, cfg, n, s, name).state.uids == s.uids - {name}
    ensures Reconcile(env, cfg, n, s, name).state.rates == if name in s.uids then s.rates - {s.uids[name]} else s.rates
  {
    hide EvaluatePolicy;
    assert name !in s.uids ==> s.uids - {name} == s.uids;
  }
}
