/**
 One reconciliation of a policy, and runs of them
 (pkg/controller/reconciler.go, pkg/controller/reconciler_helpers.go).
 */
module Reconciling {
  import opened Int64
  import opened Wrappers
  import opened Policies
  import opened Worlds
  import Evaluation
  import Deletion

  // ------------------------------------------------------------- the state

  /**
   The reconciler's maps: UIDs by policy name, specs and limiter rates by UID, and, by target,
   the shared informers and the evaluation services, a service being the informer it lists from.
   */
  datatype State = State(
    uids: map<Name, string>,
    specs: map<string, Spec>,
    rates: map<string, int64>,
    informers: map<string, Informer>,
    services: map<string, Informer>)

  const INITIAL := State(map[], map[], map[], map[], map[])

  /** evaluationServiceKey */
  function ServiceKey(t: Target): string {
    t.apiVersion + "/" + t.kind + "/" + t.namespace
  }

  function InformerFor(t: Target): Informer {
    Informer(t.apiVersion, t.kind, if t.namespace == "*" then "" else t.namespace)
  }

  /** The targets that ParseGVR accepts. */
  predicate Parses(t: Target) {
    && t.apiVersion != "" && t.kind != ""
    && if '/' !in t.apiVersion then t.apiVersion[0] == 'v'
       else exists i :: 0 < i < |t.apiVersion| - 1 && t.apiVersion[i] == '/'
              && '/' !in t.apiVersion[..i] && '/' !in t.apiVersion[i + 1..]
  }

  // -------------------------------------------------------------- informers

  datatype Got = Got(ev: seq<Event>, state: State, informer: Option<Informer>)

  /** getOrCreateResourceInformer: an informer that does not sync is taken out again. */
  function GetInformer(env: Environment, n: nat, s: State, t: Target): Got {
    var key := ServiceKey(t);
    if key in s.informers then Got([], s, Some(s.informers[key]))
    else
      var informer := InformerFor(t);
      if env.syncs(n) then Got([Synced(informer, true)], s.(informers := s.informers[key := informer]), Some(informer))
      else Got([Synced(informer, false)], s, None)
  }

  // ------------------------------------------------------------- evaluation

  datatype Step = Step(ev: seq<Event>, state: State, ok: bool)

  /** The batch size that a policy gets is positive: its own, or else the configured one. */
  predicate Sized(cfg: ControllerConfig, p: Policy) {
    ResolveBatchSize(p.spec.behavior, Some(cfg)) > 0
  }

  /** Deletion of a queue that is not empty: the policy's limiter, then the batches. */
  function DeleteQueued(env: Environment, cfg: ControllerConfig, n: nat, p: Policy,
                        queue: seq<Resource>): Deletion.Batch
    requires Sized(cfg, p)
  {
    Deletion.DeleteQueue(env, n, p, queue, ResolveBatchSize(p.spec.behavior, Some(cfg)))
  }

  function WithLimiter(s: State, p: Policy): State {
    s.(rates := s.rates[p.uid := RequestedRate(p.spec.behavior)])
  }

  /** The end of an evaluation: the status update. */
  function Conclude(env: Environment, n: nat, s: State, ev: seq<Event>, e: Evaluation.Evaluated, deleted: nat): Step {
    Step(ev + [StatusUpdated(e.matched, deleted, e.pending)], s, !env.statusFails(n + |ev|))
  }

  /** PolicyEvaluationService.EvaluatePolicy, on the informer that the service lists from. */
  function EvaluateByService(env: Environment, cfg: ControllerConfig, n: nat, s: State, p: Policy,
                             source: Informer): Step
    requires Sized(cfg, p)
  {
    if !Parses(p.spec.target) then Step([], s, false)
    else
      var items := env.stores(n, source);
      var resources := Evaluation.Scoped(Evaluation.Objects(items), NormalNamespace(p.spec.target.namespace));
      var e := Evaluation.Service(env, n + 1, p, resources);
      var ev := [Listed(source, items)] + e.ev;
      if e.queue == [] then Conclude(env, n, s, ev, e, 0)
      else
        var done := env.done(n + |ev|);
        var looked := ev + [CheckedContext(done)];
        if done then Conclude(env, n, s, looked, e, 0)
        else
          var b := DeleteQueued(env, cfg, n + |looked|, p, e.queue);
          Conclude(env, n, WithLimiter(s, p), looked + b.ev, e, b.deleted)
  }

  /** The rest of evaluatePolicy when there is no service. */
  function EvaluateDirectly(env: Environment, cfg: ControllerConfig, n: nat, s: State, p: Policy): Step
    requires Sized(cfg, p)
  {
    var got := GetInformer(env, n, s, p.spec.target);
    if got.informer.None? then Step(got.ev, got.state, false)
    else
      var source := got.informer.value;
      var items := env.stores(n + |got.ev|, source);
      var listed := got.ev + [Listed(source, items)];
      var e := Evaluation.Direct(env, n + |listed|, p, items);
      var ev := listed + e.ev;
      if e.queue == [] then Conclude(env, n, got.state, ev, e, 0)
      else
        var b := DeleteQueued(env, cfg, n + |ev|, p, e.queue);
        Conclude(env, n, WithLimiter(got.state, p), ev + b.ev, e, b.deleted)
  }

  /** evaluatePolicy: by the cached or a new service, or directly when no service can be made. */
  function EvaluatePolicy(env: Environment, cfg: ControllerConfig, n: nat, s: State, p: Policy): Step
    requires Sized(cfg, p)
  {
    var key := ServiceKey(p.spec.target);
    if key in s.services then EvaluateByService(env, cfg, n, s, p, s.services[key])
    else
      var got := GetInformer(env, n, s, p.spec.target);
      if got.informer.Some? then
        var made := got.state.(services := got.state.services[key := got.informer.value]);
        var step := EvaluateByService(env, cfg, n + |got.ev|, made, p, got.informer.value);
        step.(ev := got.ev + step.ev)
      else
        var step := EvaluateDirectly(env, cfg, n + |got.ev|, got.state, p);
        step.(ev := got.ev + step.ev)
  }

  // --------------------------------------------------------- reconciliation

  datatype Outcome = Finished | FetchFailed | RequeueAfter(interval: int64)

  datatype Reconciled = Reconciled(ev: seq<Event>, state: State, outcome: Outcome)

  const RETRY_INTERVAL: int64 := 30_000_000_000

  /** cleanupPolicyResources; the shared informers stay. */
  function Released(s: State, name: Name): State {
    if name !in s.uids then s
    else s.(uids := s.uids - {name}, specs := s.specs - {s.uids[name]}, rates := s.rates - {s.uids[name]})
  }

  /** trackPolicyUID and trackPolicySpec. */
  function Tracked(s: State, name: Name, p: Policy): State {
    s.(uids := s.uids[name := p.uid], specs := s.specs[p.uid := p.spec])
  }

  function RequeueInterval(cfg: ControllerConfig, p: Policy): int64 {
    if p.spec.evaluationInterval.Some? && p.spec.evaluationInterval.value > 0
    then p.spec.evaluationInterval.value else cfg.gcInterval
  }

  /** What is fetched is no policy, or a paused one, or one whose batch size is positive. */
  predicate Deletable(cfg: ControllerConfig, fetch: Fetch) {
    fetch.Found? && !fetch.policy.spec.paused ==> Sized(cfg, fetch.policy)
  }

  function Reconcile(env: Environment, cfg: ControllerConfig, n: nat, s: State, name: Name): Reconciled
    requires Deletable(cfg, env.fetches(n, name))
  {
    var fetch := env.fetches(n, name);
    var fetched := [Fetched(name, fetch)];
    match fetch
    case Missing => Reconciled(fetched, Released(s, name), Finished)
    case Unavailable => Reconciled(fetched, s, FetchFailed)
    case Found(p) =>
      var tracked := Tracked(s, name, p);
      if p.spec.paused then Reconciled(fetched, tracked, RequeueAfter(cfg.gcInterval))
      else
        var step := EvaluatePolicy(env, cfg, n + 1, tracked, p);
        Reconciled(fetched + step.ev, step.state, RequeueAfter(if step.ok then RequeueInterval(cfg, p) else RETRY_INTERVAL))
  }

  ghost predicate AllSized(env: Environment, cfg: ControllerConfig) {
    forall n: nat, name: Name :: Deletable(cfg, env.fetches(n, name))
  }

  /** A positive configured size will do, whatever policies come; and so will policies that bring their own. */
  lemma SizedByConfigOrPolicies(env: Environment, cfg: ControllerConfig)
    ensures cfg.batchSize > 0 ==> AllSized(env, cfg)
    ensures
      (forall n: nat, name: Name :: env.fetches(n, name).Found? ==>
          env.fetches(n, name).policy.spec.behavior.batchSize > 0) ==> AllSized(env, cfg)
  {
  }

  datatype Run = Run(ev: seq<Event>, state: State)

  /** A run: the names that are reconciled, one after the other. */
  function RunOf(env: Environment, cfg: ControllerConfig, names: seq<Name>): Run
    requires AllSized(env, cfg)
  {
    if |names| == 0 then Run([], INITIAL)
    else
      var last := |names| - 1;
      var before := RunOf(env, cfg, names[..last]);
      var r := Reconcile(env, cfg, |before.ev|, before.state, names[last]);
      Run(before.ev + r.ev, r.state)
  }
}
