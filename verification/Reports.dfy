/**
 What the status reports say is what happened: over every run, the deletions that policies report
 add up to the resources that the API server said are gone.
 */
module Reports {
  import opened Wrappers
  import opened Policies
  import opened Worlds
  import opened Reconciling
  import Evaluation
  import Deletion
  import D = DeletionLaws
  import E = EvaluationLaws

  function ReportedBy(e: Event): nat {
    if e.StatusUpdated? then e.deleted else 0
  }

  /** The deletions reported so far. */
  function Reported(ev: seq<Event>): nat {
    if |ev| == 0 then 0 else Reported(ev[..|ev| - 1]) + ReportedBy(ev[|ev| - 1])
  }

  /** Resources gone and not yet reported. */
  function Owed(ev: seq<Event>): int {
    D.TallyOf(ev).gone - Reported(ev)
  }

  /** No report counts a resource as both deleted and pending, or more of them than matched. */
  ghost predicate CountsFit(ev: seq<Event>) {
    forall i: nat :: i < |ev| && ev[i].StatusUpdated? ==> ev[i].deleted + ev[i].pending <= ev[i].matched
  }

  /** A part of a run, on behalf of a policy or none, at whose end nothing is owed. */
  ghost predicate Settled(ev: seq<Event>, dryRun: bool) {
    && CountsFit(ev)
    && if dryRun then D.TallyOf(ev).gone == 0 else Owed(ev) == 0
  }

  lemma ReportedSnoc(ev: seq<Event>, e: Event)
    ensures Reported(ev + [e]) == Reported(ev) + ReportedBy(e)
    ensures Reported([]) == 0
  {
    assert (ev + [e])[..|ev|] == ev;
  }

  lemma {:induction false} ReportedAppend(a: seq<Event>, b: seq<Event>)
    ensures Reported(a + b) == Reported(a) + Reported(b)
  {
    hide Reported, ReportedBy;
    if |b| == 0 {
      assert a + b == a && b == [];
      ReportedSnoc(a, CheckedContext(false));
    } else {
      var last := |b| - 1;
      assert b[..last] + [b[last]] == b && a + b == (a + b[..last]) + [b[last]];
      ReportedAppend(a, b[..last]);
      ReportedSnoc(a + b[..last], b[last]);
      ReportedSnoc(b[..last], b[last]);
    }
  }

  lemma OwedAppend(a: seq<Event>, b: seq<Event>)
    ensures Owed(a + b) == Owed(a) + Owed(b)
    ensures D.TallyOf(a + b).gone == D.TallyOf(a).gone + D.TallyOf(b).gone
  {
    hide D.TallyOf, Reported;
    ReportedAppend(a, b);
    D.TallyAppend(a, b);
  }

  lemma {:induction false} InsideReportsNothing(ev: seq<Event>, b: Behavior)
    requires D.Inside(ev, b)
    ensures Reported(ev) == 0
  {
    if |ev| > 0 {
      InsideReportsNothing(ev[..|ev| - 1], b);
    }
  }

  /** An event that is neither an API delete nor a report. */
  ghost predicate Plain(e: Event) {
    !e.ApiDelete? && !e.StatusUpdated?
  }

  lemma {:induction false} PlainSettles(ev: seq<Event>, dryRun: bool)
    requires forall i: nat :: i < |ev| ==> Plain(ev[i])
    ensures Settled(ev, dryRun) && D.TallyOf(ev).gone == Reported(ev) == 0
  {
    hide D.TallyOf, Reported;
    if |ev| == 0 {
      assert ev == [];
      D.TallyNone();
      ReportedSnoc([], CheckedContext(false));
    } else {
      var last := |ev| - 1;
      var front, e := ev[..last], ev[last];
      PlainSettles(front, dryRun);
      assert ev == front + [e] && Plain(e);
      D.TallyAppend(front, [e]);
      D.TallyOne(e);
      ReportedSnoc(front, e);
    }
  }

  lemma SettledAppend(a: seq<Event>, b: seq<Event>, dryRun: bool)
    requires Settled(a, dryRun) && Settled(b, dryRun)
    ensures Settled(a + b, dryRun)
  {
    hide Owed, D.TallyOf;
    OwedAppend(a, b);
  }

  /** The end of an evaluation: what the queue's deletion owes, the report pays. */
  lemma ReportSettles(env: Environment, cfg: ControllerConfig, n: nat, p: Policy, queue: seq<Resource>, matched: nat,
                      pending: nat)
    requires Sized(cfg, p) && matched == pending + |queue|
    ensures
      var b := DeleteQueued(env, cfg, n, p, queue);
      Settled(b.ev + [StatusUpdated(matched, b.deleted, pending)], p.spec.behavior.dryRun)
  {
    hide D.TallyOf, Reported, Deletion.DeleteQueue;
    var size := ResolveBatchSize(p.spec.behavior, Some(cfg));
    var b := Deletion.DeleteQueue(env, n, p, queue, size);
    var report := StatusUpdated(matched, b.deleted, pending);
    D.QueueInside(env, n, p, queue, size);
    D.QueueConserves(env, n, p, queue, size);
    D.TokenAccounting(env, n, p, queue, size);
    D.GoneWereCalled(b.ev);
    InsideReportsNothing(b.ev, p.spec.behavior);
    ReportedSnoc(b.ev, report);
    D.TallyAppend(b.ev, [report]);
    D.TallyOne(report);
  }

  lemma EmptyReportSettles(matched: nat, pending: nat, dryRun: bool)
    requires pending <= matched
    ensures Settled([StatusUpdated(matched, 0, pending)], dryRun)
  {
    hide D.TallyOf, Reported;
    var report := StatusUpdated(matched, 0, pending);
    D.TallyOne(report);
    ReportedSnoc([], report);
    assert [] + [report] == [report];
  }

  lemma ServiceSettles(env: Environment, cfg: ControllerConfig, n: nat, s: State, p: Policy, source: Informer)
    requires env.Lawful() && Sized(cfg, p)
    ensures Settled(EvaluateByService(env, cfg, n, s, p, source).ev, p.spec.behavior.dryRun)
  {
    hide Evaluation.Service, Evaluation.Scoped, Evaluation.Objects, Settled, E.Right, DeleteQueued, Parses;
    var dryRun := p.spec.behavior.dryRun;
    if !Parses(p.spec.target) {
      PlainSettles([], dryRun);
    } else {
      var items := env.stores(n, source);
      var resources := Evaluation.Scoped(Evaluation.Objects(items), NormalNamespace(p.spec.target.namespace));
      var e := Evaluation.Service(env, n + 1, p, resources);
      E.ServiceRight(env, n + 1, p, resources);
      RightIsPlain(env, n + 1, p.spec, resources, e);
      var ev := [Listed(source, items)] + e.ev;
      var looked := ev + [CheckedContext(env.done(n + |ev|))];
      PlainSettles(ev, dryRun);
      PlainSettles(looked, dryRun);
      EmptyReportSettles(e.matched, e.pending, dryRun);
      var report := [StatusUpdated(e.matched, 0, e.pending)];
      if e.queue == [] {
        SettledAppend(ev, report, dryRun);
      } else if env.done(n + |ev|) {
        SettledAppend(looked, report, dryRun);
      } else {
        var b := DeleteQueued(env, cfg, n + |looked|, p, e.queue);
        ReportSettles(env, cfg, n + |looked|, p, e.queue, e.matched, e.pending);
        var rest := b.ev + [StatusUpdated(e.matched, b.deleted, e.pending)];
        SettledAppend(looked, rest, dryRun);
        assert looked + rest == looked + b.ev + [StatusUpdated(e.matched, b.deleted, e.pending)];
      }
    }
  }

  lemma RightIsPlain(env: Environment, start: nat, spec: Spec, given: seq<Resource>, e: Evaluation.Evaluated)
    requires E.Right(env, start, spec, given, e)
    ensures forall i: nat :: i < |e.ev| ==> Plain(e.ev[i])
    ensures e.matched == e.pending + |e.queue|
  {
    hide E.Justified, E.Due;
    forall i: nat | i < |e.ev|
      ensures Plain(e.ev[i])
    {
      assert e.ev[i] in e.ev;
    }
  }

  lemma DirectSettles(env: Environment, cfg: ControllerConfig, n: nat, s: State, p: Policy)
    requires env.Lawful() && Sized(cfg, p)
    ensures Settled(EvaluateDirectly(env, cfg, n, s, p).ev, p.spec.behavior.dryRun)
  {
    hide Evaluation.Direct, Evaluation.Objects, Settled, E.Right, DeleteQueued, GetInformer, D.TallyOf, Reported;
    var dryRun := p.spec.behavior.dryRun;
    var got := GetInformer(env, n, s, p.spec.target);
    GotSettles(env, n, s, p.spec.target, dryRun);
    if got.informer.Some? {
      var items := env.stores(n + |got.ev|, got.informer.value);
      var listed := got.ev + [Listed(got.informer.value, items)];
      var e := Evaluation.Direct(env, n + |listed|, p, items);
      E.DirectRight(env, n + |listed|, p, items);
      RightIsPlain(env, n + |listed|, p.spec, Evaluation.Objects(items), e);
      var ev := listed + e.ev;
      PlainSettles(ev, dryRun);
      if e.queue == [] {
        EmptyReportSettles(e.matched, e.pending, dryRun);
        SettledAppend(ev, [StatusUpdated(e.matched, 0, e.pending)], dryRun);
      } else {
        var b := DeleteQueued(env, cfg, n + |ev|, p, e.queue);
        ReportSettles(env, cfg, n + |ev|, p, e.queue, e.matched, e.pending);
        var rest := b.ev + [StatusUpdated(e.matched, b.deleted, e.pending)];
        SettledAppend(ev, rest, dryRun);
        assert ev + rest == ev + b.ev + [StatusUpdated(e.matched, b.deleted, e.pending)];
      }
    }
  }

  lemma GotSettles(env: Environment, n: nat, s: State, t: Target, dryRun: bool)
    ensures Settled(GetInformer(env, n, s, t).ev, dryRun)
    ensures forall i: nat :: i < |GetInformer(env, n, s, t).ev| ==> Plain(GetInformer(env, n, s, t).ev[i])
  {
    hide ServiceKey, D.TallyOf, Reported;
    PlainSettles(GetInformer(env, n, s, t).ev, dryRun);
  }

  lemma EvaluationSettles(env: Environment, cfg: ControllerConfig, n: nat, s: State, p: Policy)
    requires env.Lawful() && Sized(cfg, p)
    ensures Settled(EvaluatePolicy(env, cfg, n, s, p).ev, p.spec.behavior.dryRun)
  {
    hide Settled, Plain, GetInformer, EvaluateByService, EvaluateDirectly, ServiceKey;
    var dryRun := p.spec.behavior.dryRun;
    var key := ServiceKey(p.spec.target);
    var got := GetInformer(env, n, s, p.spec.target);
    GotSettles(env, n, s, p.spec.target, dryRun);
    if key in s.services {
      ServiceSettles(env, cfg, n, s, p, s.services[key]);
    } else if got.informer.Some? {
      var made := got.state.(services := got.state.services[key := got.informer.value]);
      ServiceSettles(env, cfg, n + |got.ev|, made, p, got.informer.value);
      SettledAppend(got.ev, EvaluateByService(env, cfg, n + |got.ev|, made, p, got.informer.value).ev, dryRun);
    } else {
      DirectSettles(env, cfg, n + |got.ev|, got.state, p);
      SettledAppend(got.ev, EvaluateDirectly(env, cfg, n + |got.ev|, got.state, p).ev, dryRun);
    }
  }

  /** What a reconciliation reports for a dry run. */
  function DryReported(fetch: Fetch, ev: seq<Event>): nat {
    if fetch.Found? && fetch.policy.spec.behavior.dryRun then Reported(ev) else 0
  }

  /** The deletions that the reconciliations of a run have reported for dry runs. */
  function DryReportedBy(env: Environment, cfg: ControllerConfig, names: seq<Name>): nat
    requires AllSized(env, cfg)
  {
    if |names| == 0 then 0
    else
      var last := |names| - 1;
      var before := RunOf(env, cfg, names[..last]);
      var r := Reconcile(env, cfg, |before.ev|, before.state, names[last]);
      DryReportedBy(env, cfg, names[..last]) + DryReported(env.fetches(|before.ev|, names[last]), r.ev)
  }

  lemma ReconcileSettles(env: Environment, cfg: ControllerConfig, n: nat, s: State, name: Name)
    requires env.Lawful() && Deletable(cfg, env.fetches(n, name))
    ensures
      var ev := Reconcile(env, cfg, n, s, name).ev;
      CountsFit(ev) && D.TallyOf(ev).gone + DryReported(env.fetches(n, name), ev) == Reported(ev)
  {
    hide EvaluatePolicy, D.TallyOf, Reported;
    var fetch := env.fetches(n, name);
    PlainSettles([Fetched(name, fetch)], false);
    match fetch {
      case Found(p) =>
        if !p.spec.paused {
          var dryRun := p.spec.behavior.dryRun;
          EvaluationSettles(env, cfg, n + 1, Tracked(s, name, p), p);
          PlainSettles([Fetched(name, fetch)], dryRun);
          SettledAppend([Fetched(name, fetch)], EvaluatePolicy(env, cfg, n + 1, Tracked(s, name, p), p).ev, dryRun);
        }
      case _ =>
    }
  }

  /**
   The account of every run: each report's deleted and pending resources fit into its matched ones,
   and the reported deletions are, to the last one, the resources that the API server said are gone
   and those that dry runs would have deleted.
   */
  lemma {:induction false} ReportsAddUp(env: Environment, cfg: ControllerConfig, names: seq<Name>)
    requires env.Lawful() && AllSized(env, cfg)
    ensures
      var ev := RunOf(env, cfg, names).ev;
      && (forall i: nat :: i < |ev| && ev[i].StatusUpdated? ==> ev[i].deleted + ev[i].pending <= ev[i].matched)
      && D.TallyOf(ev).gone + DryReportedBy(env, cfg, names) == Reported(ev)
  {
    hide D.TallyOf, Reported, Reconcile;
    if |names| == 0 {
      PlainSettles([], false);
    } else {
      var last := |names| - 1;
      var before := RunOf(env, cfg, names[..last]);
      var r := Reconcile(env, cfg, |before.ev|, before.state, names[last]);
      ReportsAddUp(env, cfg, names[..last]);
      ReconcileSettles(env, cfg, |before.ev|, before.state, names[last]);
      OwedAppend(before.ev, r.ev);
    }
  }

  // -------------------------------------------------- informers, once each

  /** How many informers have synced. */
  function Syncs(ev: seq<Event>): nat {
    if |ev| == 0 then 0
    else
      var last := |ev| - 1;
      Syncs(ev[..last]) + if ev[last].Synced? && ev[last].ok then 1 else 0
  }

  lemma SyncsSnoc(ev: seq<Event>, e: Event)
    ensures Syncs(ev + [e]) == Syncs(ev) + if e.Synced? && e.ok then 1 else 0
    ensures Syncs([]) == 0
  {
    assert (ev + [e])[..|ev|] == ev;
  }

  lemma {:induction false} SyncsAppend(a: seq<Event>, b: seq<Event>)
    ensures Syncs(a + b) == Syncs(a) + Syncs(b)
  {
    hide Syncs;
    if |b| == 0 {
      assert a + b == a && b == [];
      SyncsSnoc(a, CheckedContext(false));
    } else {
      var last := |b| - 1;
      assert b[..last] + [b[last]] == b && a + b == (a + b[..last]) + [b[last]];
      SyncsAppend(a, b[..last]);
      SyncsSnoc(a + b[..last], b[last]);
      SyncsSnoc(b[..last], b[last]);
    }
  }

  lemma {:induction false} NothingSyncs(ev: seq<Event>)
    requires forall i: nat :: i < |ev| ==> !ev[i].Synced?
    ensures Syncs(ev) == 0
  {
    if |ev| > 0 {
      NothingSyncs(ev[..|ev| - 1]);
    }
  }

  /** The informers held after some events: those held before, and one for each that has synced. */
  ghost predicate OnePerSync(s: State, ev: seq<Event>, s': State) {
    |s'.informers| == |s.informers| + Syncs(ev)
  }

  lemma OneMore(informers: map<string, Informer>, key: string, informer: Informer)
    requires key !in informers
    ensures |informers[key := informer]| == |informers| + 1
  {
    assert informers[key := informer].Keys == informers.Keys + {key};
    assert |informers[key := informer]| == |informers[key := informer].Keys| && |informers| == |informers.Keys|;
  }

  lemma OneSyncs(informer: Informer, ok: bool)
    ensures Syncs([Synced(informer, ok)]) == if ok then 1 else 0
    ensures Syncs([]) == 0
  {
    SyncsSnoc([], Synced(informer, ok));
    assert [] + [Synced(informer, ok)] == [Synced(informer, ok)];
  }

  lemma GotOnePerSync(env: Environment, n: nat, s: State, t: Target)
    ensures OnePerSync(s, GetInformer(env, n, s, t).ev, GetInformer(env, n, s, t).state)
  {
    hide ServiceKey, InformerFor, Syncs;
    OneSyncs(InformerFor(t), env.syncs(n));
    if ServiceKey(t) !in s.informers {
      OneMore(s.informers, ServiceKey(t), InformerFor(t));
    }
  }

  lemma RightSyncsNothing(env: Environment, start: nat, spec: Spec, given: seq<Resource>, e: Evaluation.Evaluated)
    requires E.Right(env, start, spec, given, e)
    ensures Syncs(e.ev) == 0
  {
    hide E.Justified, E.Due;
    forall i: nat | i < |e.ev|
      ensures !e.ev[i].Synced?
    {
      assert e.ev[i] in e.ev;
    }
    NothingSyncs(e.ev);
  }

  lemma QueueSyncsNothing(env: Environment, cfg: ControllerConfig, n: nat, p: Policy, queue: seq<Resource>)
    requires Sized(cfg, p)
    ensures Syncs(DeleteQueued(env, cfg, n, p, queue).ev) == 0
  {
    hide Syncs, Deletion.DeleteQueue;
    D.QueueInside(env, n, p, queue, ResolveBatchSize(p.spec.behavior, Some(cfg)));
    NothingSyncs(DeleteQueued(env, cfg, n, p, queue).ev);
  }

  lemma ServiceOnePerSync(env: Environment, cfg: ControllerConfig, n: nat, s: State, p: Policy, source: Informer)
    requires env.Lawful() && Sized(cfg, p)
    ensures
      var step := EvaluateByService(env, cfg, n, s, p, source);
      OnePerSync(s, step.ev, step.state)
  {
    hide Evaluation.Service, Evaluation.Scoped, Evaluation.Objects, E.Right, DeleteQueued, Parses, Syncs;
    SyncsSnoc([], CheckedContext(true));
    if Parses(p.spec.target) {
      var items := env.stores(n, source);
      var resources := Evaluation.Scoped(Evaluation.Objects(items), NormalNamespace(p.spec.target.namespace));
      var e := Evaluation.Service(env, n + 1, p, resources);
      E.ServiceRight(env, n + 1, p, resources);
      RightSyncsNothing(env, n + 1, p.spec, resources, e);
      var ev := [Listed(source, items)] + e.ev;
      SyncsSnoc([], Listed(source, items));
      assert [] + [Listed(source, items)] == [Listed(source, items)];
      SyncsAppend([Listed(source, items)], e.ev);
      var looked := ev + [CheckedContext(env.done(n + |ev|))];
      SyncsSnoc(ev, CheckedContext(env.done(n + |ev|)));
      SyncsSnoc(ev, StatusUpdated(e.matched, 0, e.pending));
      SyncsSnoc(looked, StatusUpdated(e.matched, 0, e.pending));
      var b := DeleteQueued(env, cfg, n + |looked|, p, e.queue);
      QueueSyncsNothing(env, cfg, n + |looked|, p, e.queue);
      SyncsAppend(looked, b.ev);
      SyncsSnoc(looked + b.ev, StatusUpdated(e.matched, b.deleted, e.pending));
    }
  }

  lemma DirectOnePerSync(env: Environment, cfg: ControllerConfig, n: nat, s: State, p: Policy)
    requires env.Lawful() && Sized(cfg, p)
    ensures
      var step := EvaluateDirectly(env, cfg, n, s, p);
      OnePerSync(s, step.ev, step.state)
  {
    hide Evaluation.Direct, Evaluation.Objects, E.Right, DeleteQueued, GetInformer, Syncs;
    var got := GetInformer(env, n, s, p.spec.target);
    GotOnePerSync(env, n, s, p.spec.target);
    if got.informer.Some? {
      var source := got.informer.value;
      var items := env.stores(n + |got.ev|, source);
      var listed := got.ev + [Listed(source, items)];
      var e := Evaluation.Direct(env, n + |listed|, p, items);
      E.DirectRight(env, n + |listed|, p, items);
      RightSyncsNothing(env, n + |listed|, p.spec, Evaluation.Objects(items), e);
      SyncsSnoc(got.ev, Listed(source, items));
      SyncsAppend(listed, e.ev);
      var ev := listed + e.ev;
      SyncsSnoc(ev, StatusUpdated(e.matched, 0, e.pending));
      var b := DeleteQueued(env, cfg, n + |ev|, p, e.queue);
      QueueSyncsNothing(env, cfg, n + |ev|, p, e.queue);
      SyncsAppend(ev, b.ev);
      SyncsSnoc(ev + b.ev, StatusUpdated(e.matched, b.deleted, e.pending));
    }
  }

  lemma EvaluationOnePerSync(env: Environment, cfg: ControllerConfig, n: nat, s: State, p: Policy)
    requires env.Lawful() && Sized(cfg, p)
    ensures
      var step := EvaluatePolicy(env, cfg, n, s, p);
      OnePerSync(s, step.ev, step.state)
  {
    hide GetInformer, EvaluateByService, EvaluateDirectly, ServiceKey, Syncs;
    var key := ServiceKey(p.spec.target);
    var got := GetInformer(env, n, s, p.spec.target);
    GotOnePerSync(env, n, s, p.spec.target);
    if key in s.services {
      ServiceOnePerSync(env, cfg, n, s, p, s.services[key]);
    } else if got.informer.Some? {
      var made := got.state.(services := got.state.services[key := got.informer.value]);
      ServiceOnePerSync(env, cfg, n + |got.ev|, made, p, got.informer.value);
      SyncsAppend(got.ev, EvaluateByService(env, cfg, n + |got.ev|, made, p, got.informer.value).ev);
    } else {
      DirectOnePerSync(env, cfg, n + |got.ev|, got.state, p);
      SyncsAppend(got.ev, EvaluateDirectly(env, cfg, n + |got.ev|, got.state, p).ev);
    }
  }

  lemma ReconcileOnePerSync(env: Environment, cfg: ControllerConfig, n: nat, s: State, name: Name)
    requires env.Lawful() && Deletable(cfg, env.fetches(n, name))
    ensures
      var r := Reconcile(env, cfg, n, s, name);
      OnePerSync(s, r.ev, r.state)
  {
    hide EvaluatePolicy, Syncs;
    var fetch := env.fetches(n, name);
    SyncsSnoc([], Fetched(name, fetch));
    assert [] + [Fetched(name, fetch)] == [Fetched(name, fetch)];
    match fetch {
      case Found(p) =>
        if !p.spec.paused {
          EvaluationOnePerSync(env, cfg, n + 1, Tracked(s, name, p), p);
          SyncsAppend([Fetched(name, fetch)], EvaluatePolicy(env, cfg, n + 1, Tracked(s, name, p), p).ev);
        }
      case _ =>
    }
  }

  /**
   The account of informers: over every run as many are held as have synced, so none that has synced is
   lost, made a second time for its key, or held twice.
   */
  lemma {:induction false} InformersAddUp(env: Environment, cfg: ControllerConfig, names: seq<Name>)
    requires env.Lawful() && AllSized(env, cfg)
    ensures |RunOf(env, cfg, names).state.informers| == Syncs(RunOf(env, cfg, names).ev)
  {
    hide Syncs, Reconcile;
    if |names| == 0 {
      SyncsSnoc([], CheckedContext(true));
    } else {
      var last := |names| - 1;
      var before := RunOf(env, cfg, names[..last]);
      var r := Reconcile(env, cfg, |before.ev|, before.state, names[last]);
      InformersAddUp(env, cfg, names[..last]);
      ReconcileOnePerSync(env, cfg, |before.ev|, before.state, names[last]);
      SyncsAppend(before.ev, r.ev);
    }
  }
}
