/**
 What is due gets deleted: the other half of safety. When nothing outside stands in the way, a
 reconciliation deletes every resource that was due when it began.
 */
module Completeness {
  import opened Int64
  import opened Wrappers
  import opened Policies
  import opened Ttl
  import opened Worlds
  import opened Reconciling
  import Backoff
  import Evaluation
  import Deletion
  import D = DeletionLaws
  import E = EvaluationLaws
  import R = ReconcilingLaws
  import T = Terms

  predicate Gone(answer: Answer) {
    answer == Accepted || answer == NotFound
  }

  /** Of five answers that a retry loop gets in a row, four events apart, one says that the resource is gone. */
  predicate GoneInFive(env: Environment, m: nat) {
    || Gone(env.answers(m)) || Gone(env.answers(m + 4)) || Gone(env.answers(m + 8))
    || Gone(env.answers(m + 12)) || Gone(env.answers(m + 16))
  }

  /**
   No cancellation, tokens for all, informers that sync, and an API server that refuses nothing for
   good and never gives a retry loop five retryable answers in a row.
   */
  ghost predicate Cooperative(env: Environment) {
    && (forall m: nat :: !env.done(m) && env.grants(m) && env.syncs(m) && env.answers(m) != Fatal)
    && (forall m: nat :: GoneInFive(env, m))
  }

  /** A delete that gets its token: two events, and no error exactly when the answer is that the resource is gone. */
  lemma OnceAnswered(env: Environment, n: nat, p: Policy, r: Resource)
    requires Cooperative(env) && !p.spec.behavior.dryRun
    ensures
      var once := Deletion.DeleteOnce(env, n, p, r);
      && |once.ev| == 2
      && once.error ==
           if Gone(env.answers(n + 1)) then None else Some(Deletion.ApiError(Retryable))
  {
    hide BuildDeleteOptions, RequestedRate, GoneInFive;
    assert env.Grants(n) && env.answers(n + 1) != Fatal;
  }

  lemma NotDone(env: Environment, n: nat)
    requires Cooperative(env)
    ensures !env.done(n) && !env.Interrupts(n)
    ensures !Deletion.Look(env, n).stopped && Deletion.Look(env, n).errors == []
  {
    hide GoneInFive;
    assert !env.done(n) && !env.done(n + 1);
  }

  /** One turn: gone, or four events and another turn. */
  lemma TurnOfFour(env: Environment, n: nat, p: Policy, r: Resource, step: nat)
    requires Cooperative(env) && !p.spec.behavior.dryRun && step < Backoff.DEFAULT.steps
    ensures
      var turn := Deletion.Turn(env, n, p, r, step);
      if Gone(env.answers(n + 2)) then turn.result == Some(Deletion.Deleted) else turn.result == None && |turn.ev| == 4
  {
    hide Backoff.Wait, Deletion.DeleteOnce, Cooperative, Gone;
    OnceAnswered(env, n + 1, p, r);
    NotDone(env, n);
    NotDone(env, n + 3);
    Backoff.WaitZeroOnlyWhenExhausted(Backoff.DEFAULT, step);
  }

  /** The loop goes on for as long as the answers are retryable, and ends with the first that is not. */
  lemma {:induction false} TurnsOfFour(env: Environment, n: nat, p: Policy, r: Resource, turns: nat)
    requires Cooperative(env) && !p.spec.behavior.dryRun && turns <= Backoff.DEFAULT.steps
    ensures
      var loop := Deletion.Turns(env, n, p, r, turns);
      if exists k: nat :: k < turns && Gone(env.answers(n + 2 + 4 * k)) then loop.result == Some(Deletion.Deleted)
      else loop.result == None && |loop.ev| == 4 * turns
  {
    hide Deletion.Turn, Gone, Cooperative;
    if turns > 0 {
      TurnsOfFour(env, n, p, r, turns - 1);
      TurnOfFour(env, n + 4 * (turns - 1), p, r, turns - 1);
    }
  }

  lemma SomeGone(env: Environment, m: nat) returns (k: nat)
    requires Cooperative(env)
    ensures k < 5 && Gone(env.answers(m + 4 * k))
  {
    hide Gone;
    assert GoneInFive(env, m);
    k := if Gone(env.answers(m)) then 0 else if Gone(env.answers(m + 4)) then 1
         else if Gone(env.answers(m + 8)) then 2 else if Gone(env.answers(m + 12)) then 3 else 4;
  }

  lemma DryTurn(env: Environment, n: nat, p: Policy, r: Resource)
    requires !env.done(n) && env.Grants(n + 1) && p.spec.behavior.dryRun
    ensures Deletion.Turns(env, n, p, r, 1).result == Some(Deletion.Deleted)
  {
    hide Backoff.Wait, RequestedRate;
    Deletion.TurnsNone(env, n, p, r);
  }

  lemma RetrySucceeds(env: Environment, n: nat, p: Policy, r: Resource)
    requires Cooperative(env)
    ensures Deletion.DeleteWithBackoff(env, n, p, r).result == Deletion.Deleted
  {
    hide Deletion.Turns, Gone;
    if p.spec.behavior.dryRun {
      DryTurn(env, n, p, r);
      Deletion.TurnsStop(env, n, p, r, 1, Backoff.DEFAULT.steps);
    } else {
      hide Cooperative;
      var k := SomeGone(env, n + 2);
      TurnsOfFour(env, n, p, r, 5);
    }
  }

  lemma OneSucceeds(env: Environment, n: nat, p: Policy, r: Resource)
    requires Cooperative(env)
    ensures
      var one := Deletion.DeleteOne(env, n, p, r);
      !one.stopped && one.errors == []
  {
    hide Deletion.DeleteWithBackoff, RequestedRate;
    assert env.Grants(n);
    RetrySucceeds(env, n + 1, p, r);
  }

  lemma {:induction false} BatchSucceeds(env: Environment, n: nat, p: Policy, batch: seq<Resource>, k: nat)
    requires Cooperative(env) && k <= |batch|
    ensures
      var b := Deletion.BatchTo(env, n, p, batch, k);
      !b.stopped && |b.errors| == 0
  {
    hide Deletion.DeleteOne, Deletion.Look, Cooperative;
    if k > 0 {
      BatchSucceeds(env, n, p, batch, k - 1);
      var before := Deletion.BatchTo(env, n, p, batch, k - 1);
      NotDone(env, n + |before.ev|);
      var looked := if (k - 1) % Deletion.CONTEXT_CHECK_INTERVAL == 0
        then Deletion.Then(before, Deletion.Look(env, n + |before.ev|)) else before;
      OneSucceeds(env, n + |looked.ev|, p, batch[k - 1]);
    }
  }

  lemma {:induction false} QueueSucceeds(env: Environment, n: nat, p: Policy, queue: seq<Resource>, size: int64)
    requires Cooperative(env) && size > 0
    ensures |Deletion.DeleteQueue(env, n, p, queue, size).errors| == 0
    decreases |queue|
  {
    hide Deletion.BatchTo, Deletion.DeleteQueue;
    if queue == [] {
      Deletion.QueueNone(env, n, p, queue, size);
    } else {
      Deletion.QueueNext(env, n, p, queue, size);
      var end: nat := if size < |queue| then size else |queue|;
      BatchSucceeds(env, n + 1, p, queue[..end], end);
      var step := Deletion.Then(Deletion.Look(env, n), Deletion.BatchTo(env, n + 1, p, queue[..end], end).(stopped := false));
      QueueSucceeds(env, n + |step.ev|, p, queue[end..], size);
    }
  }

  /** The whole queue is gone, each resource as often as it was queued. */
  lemma QueueIsGone(env: Environment, n: nat, p: Policy, queue: seq<Resource>, size: int64)
    requires Cooperative(env) && size > 0 && !p.spec.behavior.dryRun
    ensures D.Gone(Deletion.DeleteQueue(env, n, p, queue, size).ev) == multiset(queue)
  {
    hide Deletion.DeleteQueue, D.Gone, D.CutShort, GoneInFive;
    QueueSucceeds(env, n, p, queue, size);
    D.QueueHandled(env, n, p, queue, size);
    D.QueueConserves(env, n, p, queue, size);
  }

  lemma {:induction false} ScopedHas(resources: seq<Resource>, namespace: string, r: Resource)
    requires r in resources && Evaluation.InScope(r, namespace)
    ensures r in Evaluation.Scoped(resources, namespace)
  {
    var last := |resources| - 1;
    if r != resources[last] {
      assert resources == resources[..last] + [resources[last]];
      ScopedHas(resources[..last], namespace, r);
    }
  }

  lemma {:induction false} ObjectsHas(items: seq<Item>, r: Resource)
    requires Item.Object(r) in items
    ensures r in Evaluation.Objects(items)
  {
    var last := |items| - 1;
    if items[last] != Item.Object(r) {
      assert items == items[..last] + [items[last]];
      ObjectsHas(items[..last], r);
    }
  }

  lemma DueStays(env: Environment, spec: Spec, r: Resource, earlier: nat, later: nat)
    requires env.Lawful() && earlier <= later && E.Due(env.lib, spec, r, env.clock(earlier))
    ensures E.Due(env.lib, spec, r, env.clock(later))
  {
    hide T.Meant, AddSeconds, LifetimeOf, IsRelative;
  }

  /** In an evaluation that is not stopped, what was due at an earlier reading is in the queue. */
  lemma DueIsQueued(env: Environment, earlier: nat, start: nat, spec: Spec, given: seq<Resource>,
                    e: Evaluation.Evaluated, r: Resource)
    requires env.Lawful() && earlier <= start
    requires E.Right(env, start, spec, given, e) && !e.stopped
    requires r in given && E.Due(env.lib, spec, r, env.clock(earlier))
    ensures r in e.queue
  {
    hide E.Due, E.Justified;
    DueStays(env, spec, r, earlier, start);
  }

  /** What is gone after the listing, whatever comes before and after. */
  lemma GoneInside(a: seq<Event>, b: seq<Event>, c: seq<Event>)
    ensures D.Gone(b) <= D.Gone(a + b + c)
  {
    hide D.Gone;
    D.GoneAppend(a + b, c);
    D.GoneAppend(a, b);
  }

  /** By the service: everything in the store that was due at an earlier moment is gone. */
  lemma ServiceDeletesDue(env: Environment, cfg: ControllerConfig, earlier: nat, n: nat, s: State, p: Policy,
                          source: Informer, r: Resource)
    requires env.Lawful() && Cooperative(env) && Sized(cfg, p) && earlier <= n
    requires !p.spec.behavior.dryRun && Parses(p.spec.target)
    requires Item.Object(r) in env.stores(n, source) && E.Due(env.lib, p.spec, r, env.clock(earlier))
    ensures r in D.Gone(EvaluateByService(env, cfg, n, s, p, source).ev)
  {
    hide Evaluation.Service, Evaluation.Scoped, Evaluation.Objects, E.Right, E.Due, D.Gone, Deletion.DeleteQueue, Parses;
    var items := env.stores(n, source);
    var namespace := NormalNamespace(p.spec.target.namespace);
    var resources := Evaluation.Scoped(Evaluation.Objects(items), namespace);
    var e := Evaluation.Service(env, n + 1, p, resources);
    ObjectsHas(items, r);
    DueInScope(env.lib, p.spec, r, env.clock(earlier));
    ScopedHas(Evaluation.Objects(items), namespace, r);
    E.ServiceRight(env, n + 1, p, resources);
    ServiceNotStopped(env, n + 1, p, resources);
    DueIsQueued(env, earlier, n + 1, p.spec, resources, e, r);
    var looked := [Listed(source, items)] + e.ev + [CheckedContext(false)];
    var size := ResolveBatchSize(p.spec.behavior, Some(cfg));
    var b := Deletion.DeleteQueue(env, n + |looked|, p, e.queue, size);
    QueueIsGone(env, n + |looked|, p, e.queue, size);
    GoneInside(looked, b.ev, [StatusUpdated(e.matched, b.deleted, e.pending)]);
  }

  lemma DueInScope(lib: Library, spec: Spec, r: Resource, now: int)
    requires E.Due(lib, spec, r, now)
    ensures Evaluation.InScope(r, NormalNamespace(spec.target.namespace))
  {
    hide ExpiredAt, T.ConditionsHold, T.StringAt;
  }

  lemma {:induction false} ServiceToNotStopped(env: Environment, n: nat, p: Policy, resources: seq<Resource>, k: nat)
    requires Cooperative(env) && k <= |resources|
    ensures !Evaluation.ServiceTo(env, n, p, resources, k).stopped
  {
    hide Evaluation.Judge, MatchesSelectors, MeetsConditions, Evaluation.ServiceTo;
    if k == 0 {
      Evaluation.ServiceNone(env, n, p, resources);
    } else {
      ServiceToNotStopped(env, n, p, resources, k - 1);
      Evaluation.ServiceNext(env, n, p, resources, k - 1);
    }
  }

  lemma ServiceNotStopped(env: Environment, n: nat, p: Policy, resources: seq<Resource>)
    requires Cooperative(env)
    ensures !Evaluation.Service(env, n, p, resources).stopped
  {
    hide Evaluation.ServiceTo;
    ServiceToNotStopped(env, n + 1, p, resources, |resources|);
  }

  /**
   After every run: a reconciliation of a policy that is fetched, not paused, no dry run and well
   formed lists the store of the target's informer, and deletes from it everything that was due by
   the clock when the policy was fetched.
   */
  lemma DueIsDeleted(env: Environment, cfg: ControllerConfig, names: seq<Name>, name: Name, p: Policy)
    returns (listed: nat)
    requires env.Lawful() && Cooperative(env) && R.NoClashes(env) && AllSized(env, cfg)
    requires env.fetches(|RunOf(env, cfg, names).ev|, name) == Found(p)
    requires !p.spec.paused && !p.spec.behavior.dryRun && Parses(p.spec.target)
    ensures
      var before := RunOf(env, cfg, names);
      var n := |before.ev|;
      var ev := Reconcile(env, cfg, n, before.state, name).ev;
      && listed < |ev| && ev[listed].Listed? && T.WatchesFor(ev[listed].source, p.spec.target)
      && forall r :: Item.Object(r) in ev[listed].items && E.Due(env.lib, p.spec, r, env.clock(n)) ==> r in D.Gone(ev)
  {
    hide RunOf, EvaluateByService, E.Due, D.Gone, Parses, ServiceKey;
    var before := RunOf(env, cfg, names);
    var n := |before.ev|;
    var tracked := Tracked(before.state, name, p);
    R.RunShared(env, cfg, names);
    R.IsTargeted(env, n, name);
    var key, got := ServiceKey(p.spec.target), GetInformer(env, n + 1, tracked, p.spec.target);
    var source := InformerFor(p.spec.target);
    R.OwnInformer(p.spec.target);
    var synced, s := [], tracked;
    if key !in tracked.services {
      synced, s := got.ev, got.state.(services := got.state.services[key := source]);
    }
    var m := n + 1 + |synced|;
    var step := EvaluateByService(env, cfg, m, s, p, source);
    var ev := Reconcile(env, cfg, n, before.state, name).ev;
    listed := 1 + |synced|;
    var head := [Fetched(name, Found(p))] + synced;
    assert ev == head + step.ev + [];
    StartsWithListing(env, cfg, m, s, p, source);
    forall r | Item.Object(r) in env.stores(m, source) && E.Due(env.lib, p.spec, r, env.clock(n))
      ensures r in D.Gone(ev)
    {
      ServiceDeletesDue(env, cfg, n, m, s, p, source, r);
      GoneInside(head, step.ev, []);
    }
  }

  lemma StartsWithListing(env: Environment, cfg: ControllerConfig, n: nat, s: State, p: Policy, source: Informer)
    requires Sized(cfg, p) && Parses(p.spec.target)
    ensures
      var ev := EvaluateByService(env, cfg, n, s, p, source).ev;
      |ev| > 0 && ev[0] == Listed(source, env.stores(n, source))
  {
    hide Evaluation.Service, Evaluation.Scoped, Evaluation.Objects, DeleteQueued, Parses;
  }

  // -------------------------------- whatever the tokens and the API server do

  /**
   A store was listed; unless in a dry run, all that was due in it at an earlier moment is gone or in one
   of the errors; and the report at the end says how many of its resources the policy's target means,
   and how many of them were neither deleted nor in an error.
   */
  ghost predicate HandlesDue(env: Environment, earlier: nat, p: Policy, ev: seq<Event>, source: Informer,
                             errors: seq<Deletion.Failure>)
  {
    exists listed: nat ::
      && Lists(ev, listed, source)
      && (!p.spec.behavior.dryRun ==> HandlesListed(env, earlier, p, ev, listed, errors))
      && ReportsListed(env, p, ev, listed, errors)
  }

  ghost predicate ReportsListed(env: Environment, p: Policy, ev: seq<Event>, listed: nat, errors: seq<Deletion.Failure>)
    requires listed < |ev| && ev[listed].Listed?
  {
    var report := ev[|ev| - 1];
    && report.StatusUpdated?
    && report.matched == |Evaluation.Matching(env.lib, p.spec.target, Evaluation.Objects(ev[listed].items))|
    && report.matched == report.deleted + |errors| + report.pending
  }

  ghost predicate Lists(ev: seq<Event>, listed: nat, source: Informer) {
    listed < |ev| && ev[listed].Listed? && ev[listed].source == source
  }

  ghost predicate HandlesListed(env: Environment, earlier: nat, p: Policy, ev: seq<Event>, listed: nat,
                                errors: seq<Deletion.Failure>)
    requires listed < |ev| && ev[listed].Listed?
  {
    forall r :: Item.Object(r) in ev[listed].items && E.Due(env.lib, p.spec, r, env.clock(earlier))
      ==> r in D.Gone(ev) + D.ResourcesOf(errors)
  }

  lemma HandlesDueAfter(env: Environment, earlier: nat, p: Policy, a: seq<Event>, ev: seq<Event>, source: Informer,
                        errors: seq<Deletion.Failure>)
    requires HandlesDue(env, earlier, p, ev, source, errors)
    ensures HandlesDue(env, earlier, p, a + ev, source, errors)
  {
    hide D.Gone, D.ResourcesOf, E.Due;
    hide Evaluation.Matching, Evaluation.Objects;
    var listed: nat :|
      && Lists(ev, listed, source)
      && (!p.spec.behavior.dryRun ==> HandlesListed(env, earlier, p, ev, listed, errors))
      && ReportsListed(env, p, ev, listed, errors);
    D.GoneAppend(a, ev);
    assert (a + ev)[|a| + listed] == ev[listed] && (a + ev)[|a + ev| - 1] == ev[|ev| - 1];
    assert Lists(a + ev, |a| + listed, source) && ReportsListed(env, p, a + ev, |a| + listed, errors);
    assert !p.spec.behavior.dryRun ==> HandlesListed(env, earlier, p, a + ev, |a| + listed, errors);
  }

  /** The errors of the deletion in an evaluation by a service. */
  function ServiceErrors(env: Environment, cfg: ControllerConfig, n: nat, p: Policy, source: Informer): seq<Deletion.Failure>
    requires Sized(cfg, p)
  {
    var resources :=
      Evaluation.Scoped(Evaluation.Objects(env.stores(n, source)), NormalNamespace(p.spec.target.namespace));
    var e := Evaluation.Service(env, n + 1, p, resources);
    if e.queue == [] || env.done(n + 1 + |e.ev|) then [] else DeleteQueued(env, cfg, n + 2 + |e.ev|, p, e.queue).errors
  }

  function DirectErrors(env: Environment, cfg: ControllerConfig, n: nat, s: State, p: Policy): seq<Deletion.Failure>
    requires Sized(cfg, p)
  {
    var got := GetInformer(env, n, s, p.spec.target);
    if got.informer.None? then []
    else
      var m := n + |got.ev|;
      var e := Evaluation.Direct(env, m + 1, p, env.stores(m, got.informer.value));
      if e.queue == [] then [] else DeleteQueued(env, cfg, m + 1 + |e.ev|, p, e.queue).errors
  }

  function EvaluationErrors(env: Environment, cfg: ControllerConfig, n: nat, s: State, p: Policy): seq<Deletion.Failure>
    requires Sized(cfg, p)
  {
    var key := ServiceKey(p.spec.target);
    if key in s.services then ServiceErrors(env, cfg, n, p, s.services[key])
    else
      var got := GetInformer(env, n, s, p.spec.target);
      if got.informer.Some? then ServiceErrors(env, cfg, n + |got.ev|, p, got.informer.value)
      else DirectErrors(env, cfg, n + |got.ev|, got.state, p)
  }

  /** Listing, evaluating, deleting and reporting, with no look that finds the context done. */
  lemma QueueHandlesDue(env: Environment, earlier: nat, n: nat, p: Policy, source: Informer, items: seq<Item>,
                        given: seq<Resource>, e: Evaluation.Evaluated, mid: seq<Event>, size: int64)
    requires env.Lawful() && size > 0 && earlier <= n
    requires E.Right(env, n + 1, p.spec, given, e)
    requires |Evaluation.Matching(env.lib, p.spec.target, given)|
          == |Evaluation.Matching(env.lib, p.spec.target, Evaluation.Objects(items))|
    requires forall r :: Item.Object(r) in items && E.Due(env.lib, p.spec, r, env.clock(earlier)) ==> r in given
    requires
      var b := Deletion.DeleteQueue(env, n + 1 + |e.ev| + |mid|, p, e.queue, size);
      CheckedContext(true) !in [Listed(source, items)] + e.ev + mid + b.ev
    ensures
      var b := Deletion.DeleteQueue(env, n + 1 + |e.ev| + |mid|, p, e.queue, size);
      HandlesDue(env, earlier, p,
        [Listed(source, items)] + e.ev + mid + b.ev + [StatusUpdated(e.matched, b.deleted, e.pending)], source, b.errors)
  {
    hide Deletion.DeleteQueue, D.Gone, D.ResourcesOf, E.Due, E.Right, Evaluation.Matching, Evaluation.Objects;
    var m := n + 1 + |e.ev| + |mid|;
    var b := Deletion.DeleteQueue(env, m, p, e.queue, size);
    var head := [Listed(source, items)] + e.ev + mid;
    var tail := [StatusUpdated(e.matched, b.deleted, e.pending)];
    var ev := head + b.ev + tail;
    NotSeen([Listed(source, items)], e.ev, mid, b.ev);
    RightNotStopped(env, n + 1, p.spec, given, e);
    D.UnseenCancellationLosesNothing(env, m, p, e.queue, size);
    GoneInside(head, b.ev, tail);
    assert ev[0] == Listed(source, items) && Lists(ev, 0, source);
    assert ev[|ev| - 1] == tail[0];
    assert ReportsListed(env, p, ev, 0, b.errors);
    if p.spec.behavior.dryRun {
      return;
    }
    forall r | Item.Object(r) in items && E.Due(env.lib, p.spec, r, env.clock(earlier))
      ensures r in D.Gone(ev) + D.ResourcesOf(b.errors)
    {
      DueIsQueued(env, earlier, n + 1, p.spec, given, e, r);
      assert r in D.Handled(b);
    }
    assert HandlesListed(env, earlier, p, ev, 0, b.errors);
  }

  lemma NotSeen(a: seq<Event>, b: seq<Event>, c: seq<Event>, d: seq<Event>)
    requires CheckedContext(true) !in a + b + c + d
    ensures CheckedContext(true) !in b && CheckedContext(true) !in d
  {
  }

  lemma RightNotStopped(env: Environment, start: nat, spec: Spec, given: seq<Resource>, e: Evaluation.Evaluated)
    requires E.Right(env, start, spec, given, e) && CheckedContext(true) !in e.ev
    ensures !e.stopped
    ensures e.matched == |Evaluation.Matching(env.lib, spec.target, given)| == e.pending + |e.queue|
  {
    hide E.Due, E.Justified;
  }

  lemma EmptyQueue(env: Environment, n: nat, p: Policy, size: int64)
    requires size > 0
    ensures Deletion.DeleteQueue(env, n, p, [], size) == Deletion.NOTHING
  {
  }

  lemma ServiceHandlesDue(env: Environment, cfg: ControllerConfig, earlier: nat, n: nat, s: State, p: Policy,
                          source: Informer)
    requires env.Lawful() && Sized(cfg, p) && earlier <= n && Parses(p.spec.target)
    requires CheckedContext(true) !in EvaluateByService(env, cfg, n, s, p, source).ev
    ensures HandlesDue(env, earlier, p, EvaluateByService(env, cfg, n, s, p, source).ev, source,
                       ServiceErrors(env, cfg, n, p, source))
  {
    hide Evaluation.Service, Evaluation.Scoped, Evaluation.Objects, Evaluation.Matching, E.AllDue;
    hide E.Right, E.Due, HandlesDue, Deletion.DeleteQueue, Parses;
    var items := env.stores(n, source);
    var namespace := NormalNamespace(p.spec.target.namespace);
    var resources := Evaluation.Scoped(Evaluation.Objects(items), namespace);
    var e := Evaluation.Service(env, n + 1, p, resources);
    E.ServiceRight(env, n + 1, p, resources);
    E.ScopeIsImplied(env.lib, p.spec, Evaluation.Objects(items), 0);
    forall r | Item.Object(r) in items && E.Due(env.lib, p.spec, r, env.clock(earlier))
      ensures r in resources
    {
      ObjectsHas(items, r);
      DueInScope(env.lib, p.spec, r, env.clock(earlier));
      ScopedHas(Evaluation.Objects(items), namespace, r);
    }
    var size := ResolveBatchSize(p.spec.behavior, Some(cfg));
    var list := [Listed(source, items)];
    var ev := EvaluateByService(env, cfg, n, s, p, source).ev;
    if e.queue == [] {
      EmptyQueue(env, n + 1 + |e.ev|, p, size);
      var status := [StatusUpdated(e.matched, 0, e.pending)];
      assert ev == list + e.ev + [] + [] + status;
      Unseen(list + e.ev + [] + [], status);
      QueueHandlesDue(env, earlier, n, p, source, items, resources, e, [], size);
    } else {
      var look := CheckedContext(env.done(n + 1 + |e.ev|));
      SeenThere(list + e.ev, look, ev);
      var b := Deletion.DeleteQueue(env, n + 1 + |e.ev| + 1, p, e.queue, size);
      var status := [StatusUpdated(e.matched, b.deleted, e.pending)];
      assert ev == list + e.ev + [look] + b.ev + status;
      Unseen(list + e.ev + [look] + b.ev, status);
      QueueHandlesDue(env, earlier, n, p, source, items, resources, e, [look], size);
    }
  }

  lemma Unseen(a: seq<Event>, b: seq<Event>)
    requires CheckedContext(true) !in a + b
    ensures CheckedContext(true) !in a
  {
  }

  lemma SeenThere(head: seq<Event>, look: Event, ev: seq<Event>)
    requires CheckedContext(true) !in ev && head + [look] <= ev
    ensures look != CheckedContext(true)
  {
    assert (head + [look])[|head|] == look && ev[|head|] == look;
  }

  lemma DirectHandlesDue(env: Environment, cfg: ControllerConfig, earlier: nat, n: nat, s: State, p: Policy)
    requires env.Lawful() && Sized(cfg, p) && earlier <= n
    requires GetInformer(env, n, s, p.spec.target).informer.Some?
    requires CheckedContext(true) !in EvaluateDirectly(env, cfg, n, s, p).ev
    ensures HandlesDue(env, earlier, p, EvaluateDirectly(env, cfg, n, s, p).ev,
                       GetInformer(env, n, s, p.spec.target).informer.value, DirectErrors(env, cfg, n, s, p))
  {
    hide Evaluation.Direct, Evaluation.Objects, E.Right, E.Due, HandlesDue, Deletion.DeleteQueue, GetInformer;
    var got := GetInformer(env, n, s, p.spec.target);
    var source, m := got.informer.value, n + |got.ev|;
    var items := env.stores(m, source);
    var e := Evaluation.Direct(env, m + 1, p, items);
    E.DirectRight(env, m + 1, p, items);
    forall r | Item.Object(r) in items
      ensures r in Evaluation.Objects(items)
    {
      ObjectsHas(items, r);
    }
    var size := ResolveBatchSize(p.spec.behavior, Some(cfg));
    var list := [Listed(source, items)];
    var ev := EvaluateDirectly(env, cfg, n, s, p).ev;
    EmptyQueue(env, m + 1 + |e.ev|, p, size);
    var b := Deletion.DeleteQueue(env, m + 1 + |e.ev|, p, e.queue, size);
    var status := [StatusUpdated(e.matched, b.deleted, e.pending)];
    assert ev == got.ev + (list + e.ev + [] + b.ev + status);
    UnseenIn(got.ev, list + e.ev + [] + b.ev, status);
    QueueHandlesDue(env, earlier, m, p, source, items, Evaluation.Objects(items), e, [], size);
    HandlesDueAfter(env, earlier, p, got.ev, list + e.ev + [] + b.ev + status, source, b.errors);
  }

  lemma UnseenIn(a: seq<Event>, b: seq<Event>, c: seq<Event>)
    requires CheckedContext(true) !in a + (b + c)
    ensures CheckedContext(true) !in b && CheckedContext(true) !in b + c
  {
  }

  /** On either path: an evaluation that lists a store and sees no cancellation handles all that is due in it. */
  lemma EvaluationHandlesDue(env: Environment, cfg: ControllerConfig, earlier: nat, n: nat, s: State, p: Policy)
    returns (source: Informer)
    requires env.Lawful() && Sized(cfg, p) && earlier <= n
    requires CheckedContext(true) !in EvaluatePolicy(env, cfg, n, s, p).ev
    requires exists i :: 0 <= i < |EvaluatePolicy(env, cfg, n, s, p).ev| && EvaluatePolicy(env, cfg, n, s, p).ev[i].Listed?
    ensures HandlesDue(env, earlier, p, EvaluatePolicy(env, cfg, n, s, p).ev, source, EvaluationErrors(env, cfg, n, s, p))
    ensures R.NoClashes(env) && R.Targeted(env, p.spec.target) && R.Shared(env, s) ==> source == InformerFor(p.spec.target)
  {
    hide GetInformer, EvaluateByService, EvaluateDirectly, ServiceErrors, DirectErrors, ServiceKey, HandlesDue, Parses;
    hide R.NoClashes, R.Targeted, R.Shared;
    var t, ev := p.spec.target, EvaluatePolicy(env, cfg, n, s, p).ev;
    var key, got := ServiceKey(t), GetInformer(env, n, s, t);
    SourceIsOwn(env, n, s, t);
    GotListsNothing(env, n, s, t);
    if key in s.services {
      source := s.services[key];
      MustParse(env, cfg, n, s, p, source);
      ServiceHandlesDue(env, cfg, earlier, n, s, p, source);
    } else if got.informer.Some? {
      source := got.informer.value;
      var made := got.state.(services := got.state.services[key := source]);
      MustParse(env, cfg, n + |got.ev|, made, p, source);
      var step := EvaluateByService(env, cfg, n + |got.ev|, made, p, source);
      UnseenAfter(got.ev, step.ev);
      ListsLater(got.ev, step.ev);
      ServiceHandlesDue(env, cfg, earlier, n + |got.ev|, made, p, source);
      HandlesDueAfter(env, earlier, p, got.ev, step.ev, source, ServiceErrors(env, cfg, n + |got.ev|, p, source));
    } else {
      var m, again := n + |got.ev|, GetInformer(env, n + |got.ev|, got.state, t);
      var step := EvaluateDirectly(env, cfg, m, got.state, p);
      UnseenAfter(got.ev, step.ev);
      ListsLater(got.ev, step.ev);
      SourceIsOwn(env, m, got.state, t);
      GotListsNothing(env, m, got.state, t);
      MustGet(env, cfg, m, got.state, p);
      source := again.informer.value;
      DirectHandlesDue(env, cfg, earlier, m, got.state, p);
      HandlesDueAfter(env, earlier, p, got.ev, step.ev, source, DirectErrors(env, cfg, m, got.state, p));
    }
  }

  lemma SourceIsOwn(env: Environment, n: nat, s: State, t: Target)
    ensures
      R.NoClashes(env) && R.Targeted(env, t) && R.Shared(env, s) ==>
        var got := GetInformer(env, n, s, t);
        && R.Shared(env, got.state)
        && (got.informer.Some? ==> got.informer.value == InformerFor(t))
        && (ServiceKey(t) in s.services ==> s.services[ServiceKey(t)] == InformerFor(t))
  {
    hide ServiceKey, GetInformer, R.NoClashes, R.Targeted;
    if R.NoClashes(env) && R.Targeted(env, t) && R.Shared(env, s) {
      R.GetInformerShared(env, n, s, t);
    }
  }

  lemma GotListsNothing(env: Environment, n: nat, s: State, t: Target)
    ensures forall i :: 0 <= i < |GetInformer(env, n, s, t).ev| ==> !GetInformer(env, n, s, t).ev[i].Listed?
  {
    hide ServiceKey;
  }

  lemma MustParse(env: Environment, cfg: ControllerConfig, n: nat, s: State, p: Policy, source: Informer)
    requires Sized(cfg, p)
    ensures !Parses(p.spec.target) ==> EvaluateByService(env, cfg, n, s, p, source).ev == []
  {
    hide Parses;
  }

  lemma MustGet(env: Environment, cfg: ControllerConfig, n: nat, s: State, p: Policy)
    requires Sized(cfg, p)
    ensures GetInformer(env, n, s, p.spec.target).informer.None? ==>
      EvaluateDirectly(env, cfg, n, s, p).ev == GetInformer(env, n, s, p.spec.target).ev
  {
    hide GetInformer;
  }

  lemma UnseenAfter(a: seq<Event>, b: seq<Event>)
    requires CheckedContext(true) !in a + b
    ensures CheckedContext(true) !in b
  {
  }

  lemma ListsLater(a: seq<Event>, b: seq<Event>)
    requires forall i :: 0 <= i < |a| ==> !a[i].Listed?
    requires exists i :: 0 <= i < |a + b| && (a + b)[i].Listed?
    ensures exists i :: 0 <= i < |b| && b[i].Listed?
  {
    var i :| 0 <= i < |a + b| && (a + b)[i].Listed?;
    assert forall k :: 0 <= k < |a| ==> (a + b)[k] == a[k];
    assert b[i - |a|] == (a + b)[i];
  }

  /**
   After every run, on either path, whatever the rate limiter and the API server do: a reconciliation
   that lists a store and sees no cancellation leaves no resource that was due in it when the policy was
   fetched, but gone or in an error of its own, unless in a dry run; and it reports, exactly, how many
   resources the target means and how many of them stay.
   */
  lemma DueIsHandled(env: Environment, cfg: ControllerConfig, names: seq<Name>, name: Name, p: Policy)
    returns (source: Informer)
    requires env.Lawful() && AllSized(env, cfg)
    requires env.fetches(|RunOf(env, cfg, names).ev|, name) == Found(p)
    requires !p.spec.paused && Sized(cfg, p)
    requires
      var before := RunOf(env, cfg, names);
      var ev := EvaluatePolicy(env, cfg, |before.ev| + 1, Tracked(before.state, name, p), p).ev;
      CheckedContext(true) !in ev && exists i :: 0 <= i < |ev| && ev[i].Listed?
    ensures
      var before := RunOf(env, cfg, names);
      var n := |before.ev|;
      HandlesDue(env, n, p, Reconcile(env, cfg, n, before.state, name).ev, source,
                 EvaluationErrors(env, cfg, n + 1, Tracked(before.state, name, p), p))
    ensures R.NoClashes(env) ==> T.WatchesFor(source, p.spec.target)
  {
    hide RunOf, EvaluatePolicy, EvaluationErrors, HandlesDue, R.NoClashes, R.Targeted, R.Shared;
    var before := RunOf(env, cfg, names);
    var n := |before.ev|;
    var tracked := Tracked(before.state, name, p);
    source := EvaluationHandlesDue(env, cfg, n, n + 1, tracked, p);
    HandlesDueAfter(env, n, p, [Fetched(name, Found(p))], EvaluatePolicy(env, cfg, n + 1, tracked, p).ev, source,
                    EvaluationErrors(env, cfg, n + 1, tracked, p));
    if R.NoClashes(env) {
      R.RunShared(env, cfg, names);
      R.IsTargeted(env, n, name);
      R.TrackedServed(env, before.state, name, p);
      R.OwnInformer(p.spec.target);
    }
  }
}
