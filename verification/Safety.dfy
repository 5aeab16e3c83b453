/** Nothing is deleted without authority: over every run of the reconciler, in every environment. */
module Safety {
  import opened Wrappers
  import opened Policies
  import opened Ttl
  import opened Worlds
  import opened Reconciling
  import Evaluation
  import Deletion
  import E = EvaluationLaws
  import D = DeletionLaws
  import R = ReconcilingLaws
  import T = Terms

  /** A listing and, later, a reading of the clock, both before i, that speak for deleting r. */
  ghost predicate Evidence(env: Environment, ev: seq<Event>, i: nat, p: Policy, r: Resource, source: Informer,
                           listed: nat, read: nat)
    requires i <= |ev|
  {
    && listed < read < i
    && ev[listed].Listed? && ev[listed].source == source && Item.Object(r) in ev[listed].items
    && ev[read].ReadClock? && ExpiredAt(env.lib, r, p.spec.ttl, ev[read].now)
  }

  /** A token granted just before, at the rate of the policy. */
  predicate TokenFor(ev: seq<Event>, i: nat, b: Behavior)
    requires i < |ev|
  {
    i > 0 && ev[i - 1].Waited? && ev[i - 1].granted && T.IsRate(ev[i - 1].rate, b)
  }

  /** An API delete made in the evaluation of a policy over an informer's store. */
  ghost predicate Grounded(env: Environment, n: nat, ev: seq<Event>, i: nat, p: Policy, source: Informer)
    requires i < |ev| && ev[i].ApiDelete?
  {
    && ev[i].policy == p && !p.spec.behavior.dryRun
    && T.AsAsked(ev[i].options, p.spec.behavior)
    && TokenFor(ev, i, p.spec.behavior) && !env.done(n + i - 1)
    && T.Meant(env.lib, ev[i].resource, p.spec)
    && exists listed: nat, read: nat :: Evidence(env, ev, i, p, ev[i].resource, source, listed, read)
  }

  ghost predicate AllGrounded(env: Environment, n: nat, ev: seq<Event>, p: Policy, source: Informer) {
    && (forall i: nat :: i < |ev| && ev[i].ApiDelete? ==> Grounded(env, n, ev, i, p, source))
    && (forall i: nat :: i < |ev| ==> Conducted(ev[i], p, source))
  }

  /** No fetch; the store listed is that of the informer, and the tokens asked for are at the policy's rate. */
  predicate Conducted(e: Event, p: Policy, source: Informer) {
    && !e.Fetched?
    && (e.Listed? ==> e.source == source)
    && (e.Waited? ==> T.IsRate(e.rate, p.spec.behavior))
  }

  /** No fetch, no API delete, no token; only one informer's store is listed. */
  ghost predicate Idle(ev: seq<Event>, source: Informer) {
    forall i: nat :: i < |ev| ==>
      !ev[i].ApiDelete? && !ev[i].Fetched? && !ev[i].Waited? && (ev[i].Listed? ==> ev[i].source == source)
  }

  lemma IdleGrounded(env: Environment, n: nat, ev: seq<Event>, p: Policy, source: Informer)
    requires Idle(ev, source)
    ensures AllGrounded(env, n, ev, p, source)
  {
  }

  lemma EvidenceShifted(env: Environment, a: seq<Event>, b: seq<Event>, k: nat, p: Policy, r: Resource, source: Informer,
                        listed: nat, read: nat)
    requires k <= |b| && Evidence(env, b, k, p, r, source, listed, read)
    ensures Evidence(env, a + b, |a| + k, p, r, source, |a| + listed, |a| + read)
  {
    hide ExpiredAt;
    assert (a + b)[|a| + listed] == b[listed] && (a + b)[|a| + read] == b[read];
  }

  lemma GroundedShifted(env: Environment, n: nat, a: seq<Event>, b: seq<Event>, k: nat, p: Policy, source: Informer)
    requires k < |b| && b[k].ApiDelete? && Grounded(env, n + |a|, b, k, p, source)
    ensures (a + b)[|a| + k].ApiDelete? && Grounded(env, n, a + b, |a| + k, p, source)
  {
    hide T.Meant, T.AsAsked, T.IsRate, ExpiredAt, Evidence;
    var listed: nat, read: nat :| Evidence(env, b, k, p, b[k].resource, source, listed, read);
    assert (a + b)[|a| + k] == b[k] && (a + b)[|a| + k - 1] == b[k - 1];
    EvidenceShifted(env, a, b, k, p, b[k].resource, source, listed, read);
  }

  lemma GroundedAfter(env: Environment, n: nat, a: seq<Event>, b: seq<Event>, p: Policy, source: Informer)
    requires Idle(a, source) && AllGrounded(env, n + |a|, b, p, source)
    ensures AllGrounded(env, n, a + b, p, source)
  {
    hide Grounded, T.IsRate;
    forall i: nat | i < |a + b|
      ensures Conducted((a + b)[i], p, source)
    {
      assert (a + b)[i] == if i < |a| then a[i] else b[i - |a|];
    }
    forall i: nat | i < |a + b| && (a + b)[i].ApiDelete?
      ensures Grounded(env, n, a + b, i, p, source)
    {
      GroundedShifted(env, n, a, b, i - |a|, p, source);
    }
  }

  lemma GroundedBefore(env: Environment, n: nat, a: seq<Event>, b: seq<Event>, p: Policy, source: Informer)
    requires AllGrounded(env, n, a, p, source) && Idle(b, source)
    ensures AllGrounded(env, n, a + b, p, source)
  {
    hide T.Meant, T.AsAsked, T.IsRate, ExpiredAt;
    var ev := a + b;
    forall i: nat | i < |ev| && ev[i].ApiDelete?
      ensures Grounded(env, n, ev, i, p, source)
    {
      assert i < |a| && ev[i] == a[i];
      assert Grounded(env, n, a, i, p, source);
      var listed: nat, read: nat :| Evidence(env, a, i, p, a[i].resource, source, listed, read);
      assert Evidence(env, ev, i, p, ev[i].resource, source, listed, read);
    }
  }

  /** One delete of a listed and judged resource stands on the listing and on a reading of the clock. */
  lemma DeleteGrounded(env: Environment, n: nat, p: Policy, source: Informer, items: seq<Item>, judged: seq<Event>,
                       b: seq<Event>, queue: seq<Resource>, ev: seq<Event>, before: nat, k: nat)
    requires k < |b| && b[k].ApiDelete? && D.ProperDelete(env, n + before, b, k, p, queue)
    requires forall r :: r in queue ==> Item.Object(r) in items && E.Justified(env.lib, p.spec, judged, r)
    requires |ev| == before + |b| && ev[before + k] == b[k] && (k > 0 ==> ev[before + k - 1] == b[k - 1])
    requires 1 + |judged| <= before && ev[0] == Listed(source, items)
    requires forall c: nat :: c < |judged| ==> ev[1 + c] == judged[c]
    ensures ev[before + k].ApiDelete? && Grounded(env, n, ev, before + k, p, source)
  {
    hide ExpiredAt, E.Due, T.Selected, T.ConditionsHold, T.AsAsked, T.IsRate;
    var r := b[k].resource;
    assert E.Justified(env.lib, p.spec, judged, r);
    var c: nat :| c < |judged| && judged[c].ReadClock? && ExpiredAt(env.lib, r, p.spec.ttl, judged[c].now);
    assert ev[1 + c] == judged[c];
    assert Evidence(env, ev, before + k, p, r, source, 0, 1 + c);
  }

  /** Listing, evaluating and deleting: each delete stands on the listing and on a reading of the clock. */
  lemma DeletionGrounded(env: Environment, n: nat, p: Policy, source: Informer, items: seq<Item>,
                         given: seq<Resource>, e: Evaluation.Evaluated, mid: seq<Event>, b: seq<Event>, start: nat)
    requires E.Right(env, start, p.spec, given, e)
    requires forall r :: r in given ==> Item.Object(r) in items
    requires Idle(mid, source) && Idle(e.ev, source)
    requires D.Inside(b, p.spec.behavior)
    requires D.Proper(env, n + 1 + |e.ev| + |mid|, b, p, e.queue)
    ensures AllGrounded(env, n, [Listed(source, items)] + e.ev + mid + b, p, source)
  {
    hide ExpiredAt, T.Meant, E.Due, Grounded, D.ProperDelete, E.Justified, T.IsRate;
    var head := [Listed(source, items)] + e.ev + mid;
    var ev := head + b;
    var before := 1 + |e.ev| + |mid|;
    assert Idle(head, source);
    assert forall j: nat :: j < before ==> ev[j] == head[j];
    assert forall c: nat :: c < |e.ev| ==> ev[1 + c] == e.ev[c];
    forall i: nat | i < |ev| && ev[i].ApiDelete?
      ensures Grounded(env, n, ev, i, p, source)
    {
      var k: nat := i - before;
      assert ev[i] == b[k] && (k > 0 ==> ev[i - 1] == b[k - 1]);
      DeleteGrounded(env, n, p, source, items, e.ev, b, e.queue, ev, before, k);
    }
  }

  lemma QuietIsIdle(ev: seq<Event>, source: Informer)
    requires E.Quiet(ev)
    ensures Idle(ev, source)
  {
    forall i: nat | i < |ev|
      ensures !ev[i].ApiDelete? && !ev[i].Fetched? && !ev[i].Waited? && !ev[i].Listed?
    {
      assert ev[i] in ev;
    }
  }

  lemma {:induction false} ObjectsAreItems(items: seq<Item>, namespace: string)
    ensures forall r :: r in Evaluation.Objects(items) ==> Item.Object(r) in items
    ensures forall r :: r in Evaluation.Scoped(Evaluation.Objects(items), namespace) ==> Item.Object(r) in items
  {
    ObjectsFrom(items);
    ScopedFrom(Evaluation.Objects(items), namespace);
  }

  lemma {:induction false} ObjectsFrom(items: seq<Item>)
    ensures forall r :: r in Evaluation.Objects(items) ==> Item.Object(r) in items
  {
    if |items| > 0 {
      ObjectsFrom(items[..|items| - 1]);
    }
  }

  lemma {:induction false} ScopedFrom(resources: seq<Resource>, namespace: string)
    ensures forall r :: r in Evaluation.Scoped(resources, namespace) ==> r in resources
  {
    if |resources| > 0 {
      ScopedFrom(resources[..|resources| - 1], namespace);
    }
  }

  lemma ServiceGrounded(env: Environment, cfg: ControllerConfig, n: nat, s: State, p: Policy, source: Informer)
    requires env.Lawful() && Sized(cfg, p)
    ensures AllGrounded(env, n, EvaluateByService(env, cfg, n, s, p, source).ev, p, source)
  {
    hide Evaluation.Service, Evaluation.Scoped, Evaluation.Objects, AllGrounded, D.Proper, E.Right, Deletion.DeleteQueue, Parses;
    if !Parses(p.spec.target) {
      IdleGrounded(env, n, [], p, source);
    } else {
      var items := env.stores(n, source);
      var namespace := NormalNamespace(p.spec.target.namespace);
      var resources := Evaluation.Scoped(Evaluation.Objects(items), namespace);
      ObjectsAreItems(items, namespace);
      var e := Evaluation.Service(env, n + 1, p, resources);
      E.ServiceRight(env, n + 1, p, resources);
      RightIsIdle(env, n + 1, p.spec, resources, e, source);
      var ev := [Listed(source, items)] + e.ev;
      var done := env.done(n + |ev|);
      var looked := if e.queue == [] then ev else ev + [CheckedContext(done)];
      if e.queue == [] || done {
        IdleGrounded(env, n, looked, p, source);
        GroundedBefore(env, n, looked, [StatusUpdated(e.matched, 0, e.pending)], p, source);
      } else {
        var size := ResolveBatchSize(p.spec.behavior, Some(cfg));
        var b := Deletion.DeleteQueue(env, n + |looked|, p, e.queue, size);
        D.QueueProper(env, n + |looked|, p, e.queue, size);
        D.QueueInside(env, n + |looked|, p, e.queue, size);
        DeletionGrounded(env, n, p, source, items, resources, e, [CheckedContext(done)], b.ev, n + 1);
        GroundedBefore(env, n, looked + b.ev, [StatusUpdated(e.matched, b.deleted, e.pending)], p, source);
      }
    }
  }

  lemma RightIsIdle(env: Environment, start: nat, spec: Spec, given: seq<Resource>, e: Evaluation.Evaluated,
                    source: Informer)
    requires E.Right(env, start, spec, given, e)
    ensures Idle(e.ev, source)
  {
    hide E.Justified, E.Due;
    QuietIsIdle(e.ev, source);
  }

  lemma DirectGrounded(env: Environment, cfg: ControllerConfig, n: nat, s: State, p: Policy)
    requires env.Lawful() && Sized(cfg, p)
    ensures
      var got := GetInformer(env, n, s, p.spec.target);
      var source := if got.informer.Some? then got.informer.value else InformerFor(p.spec.target);
      AllGrounded(env, n, EvaluateDirectly(env, cfg, n, s, p).ev, p, source)
  {
    hide Evaluation.Direct, Evaluation.Objects, AllGrounded, D.Proper, E.Right, Deletion.DeleteQueue, GetInformer;
    var got := GetInformer(env, n, s, p.spec.target);
    var any := if got.informer.Some? then got.informer.value else InformerFor(p.spec.target);
    GotIsIdle(env, n, s, p.spec.target, any);
    if got.informer.None? {
      IdleGrounded(env, n, got.ev, p, InformerFor(p.spec.target));
    } else {
      var source := got.informer.value;
      var m := n + |got.ev|;
      var items := env.stores(m, source);
      ObjectsAreItems(items, "");
      var listed := got.ev + [Listed(source, items)];
      var e := Evaluation.Direct(env, n + |listed|, p, items);
      E.DirectRight(env, n + |listed|, p, items);
      RightIsIdle(env, n + |listed|, p.spec, Evaluation.Objects(items), e, source);
      var ev := listed + e.ev;
      if e.queue == [] {
        IdleGrounded(env, n, ev, p, source);
        GroundedBefore(env, n, ev, [StatusUpdated(e.matched, 0, e.pending)], p, source);
      } else {
        var size := ResolveBatchSize(p.spec.behavior, Some(cfg));
        var b := Deletion.DeleteQueue(env, n + |ev|, p, e.queue, size);
        D.QueueProper(env, n + |ev|, p, e.queue, size);
        D.QueueInside(env, n + |ev|, p, e.queue, size);
        DeletionGrounded(env, m, p, source, items, Evaluation.Objects(items), e, [], b.ev, n + |listed|);
        var tail := [Listed(source, items)] + e.ev + [] + b.ev;
        GroundedAfter(env, n, got.ev, tail, p, source);
        assert got.ev + tail == ev + b.ev;
        GroundedBefore(env, n, ev + b.ev, [StatusUpdated(e.matched, b.deleted, e.pending)], p, source);
      }
    }
  }

  lemma GotIsIdle(env: Environment, n: nat, s: State, t: Target, source: Informer)
    ensures Idle(GetInformer(env, n, s, t).ev, source)
  {
    hide ServiceKey;
  }

  /** In the evaluation of a policy, every delete is grounded; unless targets clash, in the target's own informer. */
  lemma EvaluationGrounded(env: Environment, cfg: ControllerConfig, n: nat, s: State,
                           p: Policy) returns (source: Informer)
    requires env.Lawful() && Sized(cfg, p)
    ensures AllGrounded(env, n, EvaluatePolicy(env, cfg, n, s, p).ev, p, source)
    ensures R.NoClashes(env) && R.Targeted(env, p.spec.target) && R.Shared(env, s) ==> source == InformerFor(p.spec.target)
  {
    hide AllGrounded, GetInformer, EvaluateByService, EvaluateDirectly, ServiceKey;
    var t := p.spec.target;
    var key := ServiceKey(t);
    var got := GetInformer(env, n, s, t);
    if R.NoClashes(env) && R.Targeted(env, t) && R.Shared(env, s) {
      R.GetInformerShared(env, n, s, t);
      R.GetInformerShared(env, n + |got.ev|, got.state, t);
    }
    if key in s.services {
      source := s.services[key];
      ServiceGrounded(env, cfg, n, s, p, source);
    } else if got.informer.Some? {
      source := got.informer.value;
      var made := got.state.(services := got.state.services[key := source]);
      GotIsIdle(env, n, s, t, source);
      ServiceGrounded(env, cfg, n + |got.ev|, made, p, source);
      GroundedAfter(env, n, got.ev, EvaluateByService(env, cfg, n + |got.ev|, made, p, source).ev, p, source);
    } else {
      var again := GetInformer(env, n + |got.ev|, got.state, t);
      source := if again.informer.Some? then again.informer.value else InformerFor(t);
      GotIsIdle(env, n, s, t, source);
      DirectGrounded(env, cfg, n + |got.ev|, got.state, p);
      GroundedAfter(env, n, got.ev, EvaluateDirectly(env, cfg, n + |got.ev|, got.state, p).ev, p, source);
    }
  }

  // -------------------------------------------------------------- all runs

  /** The latest fetch before i gave the policy. */
  ghost predicate FetchedBefore(ev: seq<Event>, i: nat, p: Policy, fetched: nat)
    requires i <= |ev|
  {
    && fetched < i && ev[fetched].Fetched? && ev[fetched].fetch == Found(p)
    && forall k: nat :: fetched < k < i ==> !ev[k].Fetched?
  }

  /**
   The authority of an API delete: the policy is the one fetched last, neither paused nor a dry run;
   since that fetch the resource was listed, unless targets clash by an informer that watches for the
   policy's own target, and after the listing the clock showed it expired; it is what the policy means
   by its selectors and conditions; propagation and grace period are as the policy asks; and just
   before, on a context not done, a token was granted at the policy's rate.
   The authority is about the object that was listed: the call names it by namespace and name, without
   its UID, so an object created again under the name since the listing would be the one to go.
   */
  ghost predicate Authorised(env: Environment, n: nat, ev: seq<Event>, i: nat)
    requires i < |ev| && ev[i].ApiDelete?
  {
    var p, r := ev[i].policy, ev[i].resource;
    && !p.spec.paused && !p.spec.behavior.dryRun
    && T.AsAsked(ev[i].options, p.spec.behavior)
    && TokenFor(ev, i, p.spec.behavior) && !env.done(n + i - 1)
    && T.Meant(env.lib, r, p.spec)
    && exists fetched: nat, listed: nat, read: nat, source: Informer ::
         && FetchedBefore(ev, i, p, fetched) && fetched < listed
         && Evidence(env, ev, i, p, r, source, listed, read)
         && (R.NoClashes(env) ==> T.WatchesFor(source, p.spec.target))
  }

  /**
   What a listing and a token stand under: the policy fetched last, which is not paused; the store
   listed is that of an informer watching for its target, and the token is asked for at its rate.
   */
  ghost predicate Governed(env: Environment, ev: seq<Event>, i: nat)
    requires i < |ev|
  {
    exists p: Policy, fetched: nat :: FetchedBefore(ev, i, p, fetched) && UnderPolicy(env, ev[i], p)
  }

  ghost predicate UnderPolicy(env: Environment, e: Event, p: Policy) {
    && !p.spec.paused
    && (e.Listed? && R.NoClashes(env) ==> T.WatchesFor(e.source, p.spec.target))
    && (e.Waited? ==> T.IsRate(e.rate, p.spec.behavior))
  }

  ghost predicate AllAuthorised(env: Environment, n: nat, ev: seq<Event>) {
    && (forall i: nat :: i < |ev| && ev[i].ApiDelete? ==> Authorised(env, n, ev, i))
    && (forall i: nat :: i < |ev| && (ev[i].Listed? || ev[i].Waited?) ==> Governed(env, ev, i))
  }

  lemma FetchAuthorises(env: Environment, n: nat, name: Name, p: Policy, ev: seq<Event>, source: Informer)
    requires !p.spec.paused && AllGrounded(env, n + 1, ev, p, source)
    requires R.NoClashes(env) ==> T.WatchesFor(source, p.spec.target)
    ensures AllAuthorised(env, n, [Fetched(name, Found(p))] + ev)
  {
    hide T.Meant, T.AsAsked, T.IsRate, T.WatchesFor, ExpiredAt, R.NoClashes;
    var whole := [Fetched(name, Found(p))] + ev;
    assert forall j: nat :: 0 < j < |whole| ==> whole[j] == ev[j - 1];
    forall i: nat | 0 < i < |whole|
      ensures FetchedBefore(whole, i, p, 0) && Conducted(whole[i], p, source)
    {
    }
    forall i: nat | i < |whole| && (whole[i].Listed? || whole[i].Waited?)
      ensures Governed(env, whole, i)
    {
      assert FetchedBefore(whole, i, p, 0) && Conducted(whole[i], p, source) && UnderPolicy(env, whole[i], p);
    }
    forall i: nat | i < |whole| && whole[i].ApiDelete?
      ensures Authorised(env, n, whole, i)
    {
      var k: nat := i - 1;
      assert Grounded(env, n + 1, ev, k, p, source);
      var listed: nat, read: nat :| Evidence(env, ev, k, p, ev[k].resource, source, listed, read);
      EvidenceShifted(env, [Fetched(name, Found(p))], ev, k, p, ev[k].resource, source, listed, read);
      assert FetchedBefore(whole, i, p, 0);
    }
  }

  lemma AuthorisedKept(env: Environment, n: nat, a: seq<Event>, b: seq<Event>, i: nat)
    requires i < |a| && a[i].ApiDelete? && Authorised(env, n, a, i)
    ensures (a + b)[i].ApiDelete? && Authorised(env, n, a + b, i)
  {
    hide T.Meant, T.AsAsked, T.IsRate, T.WatchesFor, ExpiredAt, R.NoClashes;
    var ev := a + b;
    assert forall j: nat :: j < |a| ==> ev[j] == a[j];
    var p := a[i].policy;
    var fetched: nat, listed: nat, read: nat, source: Informer :|
      FetchedBefore(a, i, p, fetched) && fetched < listed && Evidence(env, a, i, p, a[i].resource, source, listed, read)
      && (R.NoClashes(env) ==> T.WatchesFor(source, p.spec.target));
    assert FetchedBefore(ev, i, p, fetched);
    assert Evidence(env, ev, i, p, ev[i].resource, source, listed, read);
  }

  lemma AuthorisedShifted(env: Environment, n: nat, a: seq<Event>, b: seq<Event>, k: nat)
    requires k < |b| && b[k].ApiDelete? && Authorised(env, n + |a|, b, k)
    ensures (a + b)[|a| + k].ApiDelete? && Authorised(env, n, a + b, |a| + k)
  {
    hide T.Meant, T.AsAsked, T.IsRate, T.WatchesFor, ExpiredAt, R.NoClashes;
    var ev, m := a + b, |a|;
    assert forall j: nat :: m <= j < m + |b| ==> ev[j] == b[j - m];
    var p := b[k].policy;
    var fetched: nat, listed: nat, read: nat, source: Informer :|
      FetchedBefore(b, k, p, fetched) && fetched < listed && Evidence(env, b, k, p, b[k].resource, source, listed, read)
      && (R.NoClashes(env) ==> T.WatchesFor(source, p.spec.target));
    assert ev[m + k - 1] == b[k - 1];
    assert FetchedBefore(ev, m + k, p, m + fetched);
    EvidenceShifted(env, a, b, k, p, b[k].resource, source, listed, read);
  }

  lemma GovernedKept(env: Environment, a: seq<Event>, b: seq<Event>, i: nat)
    requires i < |a| && Governed(env, a, i)
    ensures Governed(env, a + b, i)
  {
    hide UnderPolicy;
    assert forall j: nat :: j < |a| ==> (a + b)[j] == a[j];
    var p: Policy, fetched: nat :| FetchedBefore(a, i, p, fetched) && UnderPolicy(env, a[i], p);
    assert FetchedBefore(a + b, i, p, fetched);
  }

  lemma GovernedShifted(env: Environment, a: seq<Event>, b: seq<Event>, k: nat)
    requires k < |b| && Governed(env, b, k)
    ensures Governed(env, a + b, |a| + k)
  {
    hide UnderPolicy;
    assert forall j: nat :: |a| <= j < |a| + |b| ==> (a + b)[j] == b[j - |a|];
    var p: Policy, fetched: nat :| FetchedBefore(b, k, p, fetched) && UnderPolicy(env, b[k], p);
    assert FetchedBefore(a + b, |a| + k, p, |a| + fetched);
  }

  lemma AuthorisedAppend(env: Environment, n: nat, a: seq<Event>, b: seq<Event>)
    requires AllAuthorised(env, n, a) && AllAuthorised(env, n + |a|, b)
    ensures AllAuthorised(env, n, a + b)
  {
    hide Authorised, Governed;
    var ev := a + b;
    forall i: nat | i < |ev| && ev[i].ApiDelete?
      ensures Authorised(env, n, ev, i)
    {
      if i < |a| {
        AuthorisedKept(env, n, a, b, i);
      } else {
        AuthorisedShifted(env, n, a, b, i - |a|);
      }
    }
    forall i: nat | i < |ev| && (ev[i].Listed? || ev[i].Waited?)
      ensures Governed(env, ev, i)
    {
      if i < |a| {
        GovernedKept(env, a, b, i);
      } else {
        GovernedShifted(env, a, b, i - |a|);
      }
    }
  }

  lemma ReconcileAuthorised(env: Environment, cfg: ControllerConfig, n: nat, s: State, name: Name)
    requires env.Lawful() && Deletable(cfg, env.fetches(n, name))
    requires R.NoClashes(env) ==> R.Shared(env, s)
    ensures AllAuthorised(env, n, Reconcile(env, cfg, n, s, name).ev)
  {
    hide EvaluatePolicy, AllGrounded, R.Shared, R.NoClashes, R.Targeted;
    match env.fetches(n, name) {
      case Found(p) =>
        if !p.spec.paused {
          var tracked := Tracked(s, name, p);
          TrackedShared(env, s, name, p);
          R.IsTargeted(env, n, name);
          var source := EvaluationGrounded(env, cfg, n + 1, tracked, p);
          R.OwnInformer(p.spec.target);
          FetchAuthorises(env, n, name, p, EvaluatePolicy(env, cfg, n + 1, tracked, p).ev, source);
        }
      case _ =>
    }
  }

  lemma TrackedShared(env: Environment, s: State, name: Name, p: Policy)
    ensures R.Shared(env, s) ==> R.Shared(env, Tracked(s, name, p))
  {
    hide ServiceKey;
  }

  /** Every API delete of every run is authorised, and every listing and every token stands under the policy fetched last. */
  lemma {:induction false} EveryDeleteIsAuthorised(env: Environment, cfg: ControllerConfig, names: seq<Name>)
    requires env.Lawful() && AllSized(env, cfg)
    ensures AllAuthorised(env, 0, RunOf(env, cfg, names).ev)
  {
    hide AllAuthorised, Reconcile;
    if |names| == 0 {
      assert AllAuthorised(env, 0, []) by { NoneAuthorised(env); }
    } else {
      var last := |names| - 1;
      EveryDeleteIsAuthorised(env, cfg, names[..last]);
      var before := RunOf(env, cfg, names[..last]);
      if R.NoClashes(env) {
        R.RunShared(env, cfg, names[..last]);
      }
      ReconcileAuthorised(env, cfg, |before.ev|, before.state, names[last]);
      AuthorisedAppend(env, 0, before.ev, Reconcile(env, cfg, |before.ev|, before.state, names[last]).ev);
    }
  }

  lemma NoneAuthorised(env: Environment)
    ensures AllAuthorised(env, 0, [])
  {
  }

  lemma DeleteWhileNotDone(env: Environment, cfg: ControllerConfig, names: seq<Name>, i: nat)
    requires env.Lawful() && AllSized(env, cfg)
    requires i < |RunOf(env, cfg, names).ev| && RunOf(env, cfg, names).ev[i].ApiDelete?
    ensures i > 0 && !env.done(i - 1)
  {
    hide RunOf, T.Meant, R.NoClashes;
    EveryDeleteIsAuthorised(env, cfg, names);
    assert Authorised(env, 0, RunOf(env, cfg, names).ev, i);
  }

  /** Once the context is done, no API delete starts in the rest of the run. */
  lemma NoDeleteAfterCancellation(env: Environment, cfg: ControllerConfig, names: seq<Name>, done: nat, i: nat)
    requires env.Lawful() && AllSized(env, cfg)
    requires env.done(done)
    requires done < i < |RunOf(env, cfg, names).ev|
    ensures !RunOf(env, cfg, names).ev[i].ApiDelete?
  {
    hide RunOf;
    if RunOf(env, cfg, names).ev[i].ApiDelete? {
      DeleteWhileNotDone(env, cfg, names, i);
      assert false;
    }
  }

  /**
   No resource is deleted before its time: with a TTL whose nanoseconds are representable, the clock
   has passed the promised instant when the delete is made.
   */
  lemma NoEarlyDelete(env: Environment, cfg: ControllerConfig, names: seq<Name>, i: nat)
    requires env.Lawful() && AllSized(env, cfg)
    requires i < |RunOf(env, cfg, names).ev| && RunOf(env, cfg, names).ev[i].ApiDelete?
    ensures
      var call := RunOf(env, cfg, names).ev[i];
      var l := LifetimeOf(env.lib, call.resource, call.policy.spec.ttl);
      && l.Lifetime?
      && (Representable(l.seconds) ==>
            exists read: nat :: read < i && RunOf(env, cfg, names).ev[read].ReadClock?
              && RunOf(env, cfg, names).ev[read].now > l.base + l.seconds * SECOND)
  {
    hide RunOf, LifetimeOf;
    EveryDeleteIsAuthorised(env, cfg, names);
    var ev := RunOf(env, cfg, names).ev;
    assert Authorised(env, 0, ev, i);
    var p, r := ev[i].policy, ev[i].resource;
    var fetched: nat, listed: nat, read: nat, source: Informer :|
      FetchedBefore(ev, i, p, fetched) && fetched < listed && Evidence(env, ev, i, p, r, source, listed, read)
      && (R.NoClashes(env) ==> T.WatchesFor(source, p.spec.target));
    var l := LifetimeOf(env.lib, r, p.spec.ttl);
    AddSecondsExact(l.base, l.seconds);
    assert ev[read].ReadClock?;
  }
}
