/**
 Deciding which resources of a policy to delete, in the two ways the controller has: the
 evaluation service over a namespace-filtered list (pkg/controller/evaluate_policy_refactored.go,
 pkg/controller/adapters.go), and the direct path over the informer's store
 (pkg/controller/evaluate_policy_shared.go).
 */
module Evaluation {
  import opened Wrappers
  import opened Policies
  import opened Ttl
  import opened Worlds
  import T = Terms

  // -------------------------------------------------------------- verdicts

  datatype Judged = Judged(ev: seq<Event>, verdict: Verdict)

  /** shouldDelete by TTL, with the clock readings it makes. */
  function Judge(env: Environment, n: nat, r: Resource, spec: TtlSpec): Judged {
    var first := env.clock(n);
    var read := if ReadsClock(env.lib, r, spec) then [ReadClock(first)] else [];
    var expiration := CalculateExpirationTime(env.lib, r, spec, first);
    var second := env.clock(n + |read|);
    Judged(
      read + if expiration.At? && expiration.instant != 0 then [ReadClock(second)] else [],
      ShouldDelete(env.lib, r, spec, first, second))
  }

  /** shouldDelete by conditions and TTL. */
  function JudgeChecked(env: Environment, n: nat, r: Resource, spec: Spec): Judged {
    if spec.conditions.Some? && !MeetsConditions(r, spec.conditions.value)
    then Judged([], Verdict(false, "condition_not_met"))
    else Judge(env, n, r, spec.ttl)
  }

  /** What an evaluation has found so far. */
  datatype Evaluated = Evaluated(
    ev: seq<Event>,
    matched: nat,
    pending: nat,
    queue: seq<Resource>,
    reasons: map<string, string>,
    stopped: bool)

  const UNEVALUATED := Evaluated([], 0, 0, [], map[], false)

  const CONTEXT_CHECK_INTERVAL: nat := 100

  /** Enters a matching resource with its verdict. */
  function Enter(s: Evaluated, r: Resource, j: Judged): Evaluated {
    var t := s.(ev := s.ev + j.ev, matched := s.matched + 1);
    if j.verdict.delete then t.(queue := t.queue + [r], reasons := t.reasons[r.uid := j.verdict.reason])
    else t.(pending := t.pending + 1)
  }

  /** The periodic look at the context, before the item at an index. */
  function Look(env: Environment, n: nat, s: Evaluated, index: nat): Evaluated {
    if index % CONTEXT_CHECK_INTERVAL == 0 then
      var done := env.done(n + |s.ev|);
      s.(ev := s.ev + [CheckedContext(done)], stopped := done)
    else s
  }

  // ------------------------------------------------------ the service path

  /** One resource in evaluateResources. */
  function ServiceStep(env: Environment, n: nat, p: Policy, s: Evaluated, r: Resource): Evaluated {
    if !MatchesSelectors(env.lib, r, p.spec.target) then s
    else if p.spec.conditions.Some? && !MeetsConditions(r, p.spec.conditions.value) then
      s.(matched := s.matched + 1, pending := s.pending + 1)
    else Enter(s, r, Judge(env, n + |s.ev|, r, p.spec.ttl))
  }

  /** The loop of evaluateResources after k resources. */
  function ServiceTo(env: Environment, n: nat, p: Policy, resources: seq<Resource>, k: nat): Evaluated
    requires k <= |resources|
  {
    if k == 0 then UNEVALUATED
    else
      var before := ServiceTo(env, n, p, resources, k - 1);
      if before.stopped then before
      else
        var looked := Look(env, n, before, k - 1);
        if looked.stopped then looked else ServiceStep(env, n, p, looked, resources[k - 1])
  }

  /** evaluateResources: a look at the context, then the loop. */
  function Service(env: Environment, n: nat, p: Policy, resources: seq<Resource>): Evaluated {
    var done := env.done(n);
    if done then UNEVALUATED.(ev := [CheckedContext(true)], stopped := true)
    else
      var loop := ServiceTo(env, n + 1, p, resources, |resources|);
      loop.(ev := [CheckedContext(false)] + loop.ev)
  }

  /** The unstructured objects of a store. */
  function Objects(items: seq<Item>): seq<Resource> {
    if |items| == 0 then []
    else
      var last := |items| - 1;
      Objects(items[..last]) + if items[last].Object? then [items[last].resource] else []
  }

  predicate InScope(r: Resource, namespace: string) {
    namespace == "" || namespace == "*" || r.namespace == namespace
  }

  function Scoped(resources: seq<Resource>, namespace: string): seq<Resource> {
    if |resources| == 0 then []
    else
      var last := |resources| - 1;
      Scoped(resources[..last], namespace) + if InScope(resources[last], namespace) then [resources[last]] else []
  }

  // ------------------------------------------------------- the direct path

  /** One item in evaluatePolicyResourcesShared. */
  function DirectStep(env: Environment, n: nat, p: Policy, s: Evaluated, item: Item): Evaluated {
    match item
    case Alien => s
    case Object(r) =>
      if !MatchesSelectors(env.lib, r, p.spec.target) then s
      else Enter(s, r, JudgeChecked(env, n + |s.ev|, r, p.spec))
  }

  /** evaluatePolicyResourcesShared after k items. */
  function DirectTo(env: Environment, n: nat, p: Policy, items: seq<Item>, k: nat): Evaluated
    requires k <= |items|
  {
    if k == 0 then UNEVALUATED
    else
      var before := DirectTo(env, n, p, items, k - 1);
      if before.stopped then before
      else
        var looked := Look(env, n, before, k - 1);
        if looked.stopped then looked else DirectStep(env, n, p, looked, items[k - 1])
  }

  function Direct(env: Environment, n: nat, p: Policy, items: seq<Item>): Evaluated {
    DirectTo(env, n, p, items, |items|)
  }

  // ------------------------------------------------------ one step further

  /** What the clock says does not matter where it is not read. */
  lemma UnreadClock(lib: Library, r: Resource, spec: TtlSpec, now: int, other: int)
    requires !ReadsClock(lib, r, spec)
    ensures CalculateExpirationTime(lib, r, spec, now) == CalculateExpirationTime(lib, r, spec, other)
  {
  }

  lemma ServiceNone(env: Environment, n: nat, p: Policy, resources: seq<Resource>)
    ensures ServiceTo(env, n, p, resources, 0) == UNEVALUATED
  {
  }

  lemma ServiceNext(env: Environment, n: nat, p: Policy, resources: seq<Resource>, i: nat)
    requires i < |resources| && !ServiceTo(env, n, p, resources, i).stopped
    ensures
      var looked := Look(env, n, ServiceTo(env, n, p, resources, i), i);
      ServiceTo(env, n, p, resources, i + 1) == if looked.stopped then looked else ServiceStep(env, n, p, looked, resources[i])
  {
    hide ServiceStep, Look;
  }

  lemma {:induction false} ServiceStops(env: Environment, n: nat, p: Policy, resources: seq<Resource>, stopped: nat,
                                        k: nat)
    requires stopped <= k <= |resources| && ServiceTo(env, n, p, resources, stopped).stopped
    ensures ServiceTo(env, n, p, resources, k) == ServiceTo(env, n, p, resources, stopped)
    decreases k
  {
    hide ServiceStep, Look;
    if stopped < k {
      ServiceStops(env, n, p, resources, stopped, k - 1);
    }
  }

  lemma DirectNone(env: Environment, n: nat, p: Policy, items: seq<Item>)
    ensures DirectTo(env, n, p, items, 0) == UNEVALUATED
  {
  }

  lemma DirectNext(env: Environment, n: nat, p: Policy, items: seq<Item>, i: nat)
    requires i < |items| && !DirectTo(env, n, p, items, i).stopped
    ensures
      var looked := Look(env, n, DirectTo(env, n, p, items, i), i);
      DirectTo(env, n, p, items, i + 1) == if looked.stopped then looked else DirectStep(env, n, p, looked, items[i])
  {
    hide DirectStep, Look;
  }

  lemma {:induction false} DirectStops(env: Environment, n: nat, p: Policy, items: seq<Item>, stopped: nat, k: nat)
    requires stopped <= k <= |items| && DirectTo(env, n, p, items, stopped).stopped
    ensures DirectTo(env, n, p, items, k) == DirectTo(env, n, p, items, stopped)
    decreases k
  {
    hide DirectStep, Look;
    if stopped < k {
      DirectStops(env, n, p, items, stopped, k - 1);
    }
  }

  /** The selected resources, in order. */
  ghost function Matching(lib: Library, t: Target, resources: seq<Resource>): seq<Resource> {
    if |resources| == 0 then []
    else
      var last := |resources| - 1;
      Matching(lib, t, resources[..last]) + if T.Selected(lib, resources[last], t) then [resources[last]] else []
  }

  lemma MatchingSnoc(lib: Library, t: Target, resources: seq<Resource>, r: Resource)
    ensures Matching(lib, t, resources + [r]) == Matching(lib, t, resources) + if T.Selected(lib, r, t) then [r] else []
  {
    hide T.Selected;
    assert (resources + [r])[..|resources|] == resources;
  }

  lemma NoMatching(lib: Library, t: Target)
    ensures Matching(lib, t, []) == [] && Objects([]) == []
  {
  }

  /** What the code tests is what the policy says. */
  lemma MeantExactly(lib: Library, spec: Spec, r: Resource)
    ensures MatchesSelectors(lib, r, spec.target) <==> T.Selected(lib, r, spec.target)
    ensures T.Meant(lib, r, spec) <==>
      && MatchesSelectors(lib, r, spec.target)
      && (spec.conditions.Some? ==> MeetsConditions(r, spec.conditions.value))
  {
    hide MatchesSelectors, MeetsConditions, T.Selected, T.ConditionsHold;
    T.SelectedExactly(lib, r, spec.target);
    if spec.conditions.Some? {
      T.ConditionsExactly(r, spec.conditions.value);
    }
  }

  lemma ObjectsSnoc(items: seq<Item>, k: nat)
    requires k < |items|
    ensures Objects(items[..k + 1]) == Objects(items[..k]) + if items[k].Object? then [items[k].resource] else []
    ensures Objects([]) == []
  {
    assert items[..k + 1][..k] == items[..k];
  }

  // -------------------------------------------------------------- the code

  /** ListResources: the store's objects in the namespace. */
  method ListResources(items: seq<Item>, namespace: string) returns (resources: seq<Resource>)
    ensures resources == Scoped(Objects(items), namespace)
  {
    resources := [];
    for i := 0 to |items|
      invariant resources == Scoped(Objects(items[..i]), namespace)
    {
      assert items[..i + 1][..i] == items[..i];
      if items[i].Alien? {
        assert Objects(items[..i]) + [] == Objects(items[..i]);
        continue;
      }
      var r := items[i].resource;
      ghost var before := Objects(items[..i]);
      assert (before + [r])[..|before|] == before;
      assert resources + [] == resources;
      if namespace != "" && namespace != "*" && r.namespace != namespace {
        continue;
      }
      resources := resources + [r];
    }
    assert items[..|items|] == items;
  }

  method ShouldDeleteNow(world: World, r: Resource, spec: TtlSpec) returns (verdict: Verdict)
    modifies world
    ensures
      var j := Judge(world.env, |old(world.trace)|, r, spec);
      world.trace == old(world.trace) + j.ev && verdict == j.verdict
  {
    hide CalculateExpirationTime;
    ghost var start := world.trace;
    var expiration: Expiration;
    if ReadsClock(world.env.lib, r, spec) {
      var first := world.Now();
      expiration := CalculateExpirationTime(world.env.lib, r, spec, first);
    } else {
      UnreadClock(world.env.lib, r, spec, 0, world.env.clock(|start|));
      expiration := CalculateExpirationTime(world.env.lib, r, spec, 0);
    }
    match expiration {
      case Failed(error) =>
        verdict := if error == RelativeTtlExpired then Verdict(true, "ttl_expired") else Verdict(false, "no_ttl");
      case At(instant) =>
        if instant == 0 {
          verdict := Verdict(false, "no_ttl");
        } else {
          var second := world.Now();
          verdict := if second > instant then Verdict(true, "ttl_expired") else Verdict(false, "not_expired");
        }
    }
  }

  lemma JudgedForItsAge(env: Environment, n: nat, r: Resource, spec: TtlSpec)
    ensures Judge(env, n, r, spec).verdict.reason != "condition_not_met"
  {
    hide CalculateExpirationTime, ReadsClock;
  }

  method ShouldDeleteCheckedNow(world: World, r: Resource, spec: Spec) returns (verdict: Verdict)
    modifies world
    ensures
      var j := JudgeChecked(world.env, |old(world.trace)|, r, spec);
      world.trace == old(world.trace) + j.ev && verdict == j.verdict
    ensures verdict.reason == "condition_not_met"
      <==> spec.conditions.Some? && !T.ConditionsHold(r, spec.conditions.value)
    ensures verdict.delete && spec.conditions.Some? ==> MeetsConditions(r, spec.conditions.value)
  {
    hide Judge, MeetsConditions, T.ConditionsHold;
    if spec.conditions.Some? {
      T.ConditionsExactly(r, spec.conditions.value);
    }
    JudgedForItsAge(world.env, |world.trace|, r, spec.ttl);
    if spec.conditions.Some? {
      if !MeetsConditions(r, spec.conditions.value) {
        return Verdict(false, "condition_not_met");
      }
    }
    verdict := ShouldDeleteNow(world, r, spec.ttl);
  }

  method EvaluateResources(world: World, p: Policy, resources: seq<Resource>)
    returns (matched: nat, pending: nat, queue: seq<Resource>, reasons: map<string, string>)
    modifies world
    ensures
      var s := Service(world.env, |old(world.trace)|, p, resources);
      world.trace == old(world.trace) + s.ev
      && matched == s.matched && pending == s.pending && queue == s.queue && reasons == s.reasons
      && (!s.stopped ==> matched == |Matching(world.env.lib, p.spec.target, resources)|)
    ensures forall r :: r in queue ==> T.Meant(world.env.lib, r, p.spec)
  {
    hide Judge, ServiceTo, MatchesSelectors, MeetsConditions, T.Meant, T.Selected, Matching;
    matched, pending, queue, reasons := 0, 0, [], map[];
    var done := world.CheckContext();
    if done {
      return;
    }
    ghost var start := world.trace;
    ServiceNone(world.env, |start|, p, resources);
    NoMatching(world.env.lib, p.spec.target);
    assert resources[..0] == [] && resources[..|resources|] == resources;
    for i := 0 to |resources|
      invariant
        var s := ServiceTo(world.env, |start|, p, resources, i);
        && world.trace == start + s.ev && !s.stopped
        && matched == s.matched && pending == s.pending && queue == s.queue && reasons == s.reasons
      invariant matched == |Matching(world.env.lib, p.spec.target, resources[..i])|
      invariant forall r :: r in queue ==> T.Meant(world.env.lib, r, p.spec)
    {
      MatchingSnoc(world.env.lib, p.spec.target, resources[..i], resources[i]);
      MeantExactly(world.env.lib, p.spec, resources[i]);
      assert resources[..i + 1] == resources[..i] + [resources[i]];
      ServiceNext(world.env, |start|, p, resources, i);
      if i % CONTEXT_CHECK_INTERVAL == 0 {
        done := world.CheckContext();
        if done {
          ServiceStops(world.env, |start|, p, resources, i + 1, |resources|);
          return;
        }
      }
      var r := resources[i];
      if !MatchesSelectors(world.env.lib, r, p.spec.target) {
        continue;
      }
      matched := matched + 1;
      if p.spec.conditions.Some? {
        if !MeetsConditions(r, p.spec.conditions.value) {
          pending := pending + 1;
          continue;
        }
      }
      var verdict := ShouldDeleteNow(world, r, p.spec.ttl);
      if !verdict.delete {
        pending := pending + 1;
        continue;
      }
      queue := queue + [r];
      reasons := reasons[r.uid := verdict.reason];
    }
  }

  method EvaluatePolicyResources(world: World, p: Policy, items: seq<Item>)
    returns (matched: nat, pending: nat, queue: seq<Resource>, reasons: map<string, string>)
    modifies world
    ensures
      var s := Direct(world.env, |old(world.trace)|, p, items);
      world.trace == old(world.trace) + s.ev
      && matched == s.matched && pending == s.pending && queue == s.queue && reasons == s.reasons
      && (!s.stopped ==> matched == |Matching(world.env.lib, p.spec.target, Objects(items))|)
    ensures forall r :: r in queue ==> T.Meant(world.env.lib, r, p.spec)
  {
    hide Judge, DirectTo, JudgeChecked, MatchesSelectors, MeetsConditions, T.Meant, T.Selected, Matching, Objects;
    matched, pending, queue, reasons := 0, 0, [], map[];
    ghost var start := world.trace;
    DirectNone(world.env, |start|, p, items);
    NoMatching(world.env.lib, p.spec.target);
    assert items[..0] == [] && items[..|items|] == items;
    for i := 0 to |items|
      invariant
        var s := DirectTo(world.env, |start|, p, items, i);
        && world.trace == start + s.ev && !s.stopped
        && matched == s.matched && pending == s.pending && queue == s.queue && reasons == s.reasons
      invariant matched == |Matching(world.env.lib, p.spec.target, Objects(items[..i]))|
      invariant forall r :: r in queue ==> T.Meant(world.env.lib, r, p.spec)
    {
      ObjectsSnoc(items, i);
      assert Objects(items[..i]) + [] == Objects(items[..i]);
      DirectNext(world.env, |start|, p, items, i);
      if i % CONTEXT_CHECK_INTERVAL == 0 {
        var done := world.CheckContext();
        if done {
          DirectStops(world.env, |start|, p, items, i + 1, |items|);
          return;
        }
      }
      if items[i].Alien? {
        continue;
      }
      var r := items[i].resource;
      MatchingSnoc(world.env.lib, p.spec.target, Objects(items[..i]), r);
      MeantExactly(world.env.lib, p.spec, r);
      if !MatchesSelectors(world.env.lib, r, p.spec.target) {
        continue;
      }
      matched := matched + 1;
      var verdict := ShouldDeleteCheckedNow(world, r, p.spec);
      if !verdict.delete {
        pending := pending + 1;
        continue;
      }
      queue := queue + [r];
      reasons := reasons[r.uid := verdict.reason];
    }
  }
}
