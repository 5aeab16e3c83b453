/** What an evaluation guarantees on either path, and that the two paths agree. */
module EvaluationLaws {
  import opened Wrappers
  import opened Policies
  import FieldPath
  import opened Ttl
  import opened Worlds
  import opened Evaluation
  import T = Terms

  // -------------------------------------------------------------- verdicts

  /** A clock reading among the events says that the resource is expired. */
  ghost predicate SeenExpired(lib: Library, ev: seq<Event>, r: Resource, spec: TtlSpec) {
    exists i :: 0 <= i < |ev| && ev[i].ReadClock? && ExpiredAt(lib, r, spec, ev[i].now)
  }

  lemma SeenLonger(lib: Library, a: seq<Event>, b: seq<Event>, r: Resource, spec: TtlSpec)
    requires SeenExpired(lib, a, r, spec) || SeenExpired(lib, b, r, spec)
    ensures SeenExpired(lib, a + b, r, spec)
  {
    if SeenExpired(lib, a, r, spec) {
      var i :| 0 <= i < |a| && a[i].ReadClock? && ExpiredAt(lib, r, spec, a[i].now);
      assert (a + b)[i] == a[i];
    } else {
      var i :| 0 <= i < |b| && b[i].ReadClock? && ExpiredAt(lib, r, spec, b[i].now);
      assert (a + b)[|a| + i] == b[i];
    }
  }

  /** Events of an evaluation: looks at the context and readings of the clock. */
  ghost predicate Quiet(ev: seq<Event>) {
    forall e :: e in ev ==> e.CheckedContext? || e.ReadClock?
  }

  /** A verdict to delete comes with a reading that justifies it, in every mode. */
  lemma JudgeSound(env: Environment, n: nat, r: Resource, spec: TtlSpec)
    requires env.Lawful()
    ensures
      var j := Judge(env, n, r, spec);
      && (forall e :: e in j.ev ==> e.ReadClock?)
      && (j.verdict.delete ==> SeenExpired(env.lib, j.ev, r, spec) && j.verdict.reason == "ttl_expired")
  {
    hide CalculateExpirationTime, ExpiredAt, LifetimeOf, ShouldDelete;
    var j := Judge(env, n, r, spec);
    var first := env.clock(n);
    var second := env.clock(n + if ReadsClock(env.lib, r, spec) then 1 else 0);
    assert first <= second;
    if j.verdict.delete {
      JudgedByReading(env.lib, r, spec, first, second);
      var k := if j.ev[0].now == first && ExpiredAt(env.lib, r, spec, first) then 0 else |j.ev| - 1;
      assert j.ev[k].ReadClock? && ExpiredAt(env.lib, r, spec, j.ev[k].now);
    }
  }

  lemma JudgedByReading(lib: Library, r: Resource, spec: TtlSpec, first: int, second: int)
    requires first <= second
    requires ShouldDelete(lib, r, spec, first, second).delete
    ensures ShouldDelete(lib, r, spec, first, second).reason == "ttl_expired"
    ensures
      var e := CalculateExpirationTime(lib, r, spec, first);
      if e.At? then e.instant != 0 && ExpiredAt(lib, r, spec, second)
      else ReadsClock(lib, r, spec) && ExpiredAt(lib, r, spec, first)
  {
    ShouldDeleteMeaning(lib, r, spec, first, second);
    hide AddSeconds, Nested;
  }

  /** A resource that one clock reading would delete is deleted by the readings made later. */
  lemma JudgeComplete(env: Environment, start: nat, n: nat, r: Resource, spec: TtlSpec)
    requires env.Lawful() && start <= n
    requires ShouldDelete(env.lib, r, spec, env.clock(start), env.clock(start)).delete
    ensures Judge(env, n, r, spec).verdict.delete
  {
    hide CalculateExpirationTime, ShouldDelete;
    var first := env.clock(n);
    var second := env.clock(n + if ReadsClock(env.lib, r, spec) then 1 else 0);
    ShouldDeleteIsMonotone(env.lib, r, spec, env.clock(start), env.clock(start), first, second);
  }

  // ----------------------------------------------------- every evaluation

  /** Meant by the policy, and expired by a reading of the clock. */
  ghost predicate Due(lib: Library, spec: Spec, r: Resource, now: int) {
    T.Meant(lib, r, spec) && ExpiredAt(lib, r, spec.ttl, now)
  }

  /** Queued for a reason: meant by the policy, and seen expired by the clock. */
  ghost predicate Justified(lib: Library, spec: Spec, ev: seq<Event>, r: Resource) {
    T.Meant(lib, r, spec) && SeenExpired(lib, ev, r, spec.ttl)
  }

  /**
   What holds after any part of an evaluation of the given resources: nothing is lost or counted
   twice, what is queued is justified and has its reason, and what was due at the start is queued;
   the evaluation stops exactly when it finds the context done.
   */
  ghost predicate Right(env: Environment, start: nat, spec: Spec, given: seq<Resource>, s: Evaluated) {
    && Quiet(s.ev)
    && (s.stopped <==> CheckedContext(true) in s.ev)
    && s.matched == s.pending + |s.queue|
    && (forall r :: r in s.queue ==> r in given && Justified(env.lib, spec, s.ev, r))
    && (forall r :: r in s.queue ==> r.uid in s.reasons && s.reasons[r.uid] == "ttl_expired")
    && multiset(s.queue) <= multiset(given)
    && (!s.stopped ==> s.matched == |Matching(env.lib, spec.target, given)|)
    && (!s.stopped ==> forall r :: r in given && Due(env.lib, spec, r, env.clock(start)) ==> r in s.queue)
  }

  lemma RightLook(env: Environment, start: nat, n: nat, spec: Spec, given: seq<Resource>, s: Evaluated, index: nat)
    requires Right(env, start, spec, given, s) && !s.stopped
    ensures Right(env, start, spec, given, Look(env, n, s, index))
  {
    hide T.Meant, Due, ExpiredAt;
    var done := CheckedContext(env.done(n + |s.ev|));
    forall r | r in s.queue
      ensures Justified(env.lib, spec, s.ev + [done], r)
    {
      SeenLonger(env.lib, s.ev, [done], r, spec.ttl);
    }
  }

  lemma RightSkip(env: Environment, start: nat, spec: Spec, given: seq<Resource>, s: Evaluated, r: Resource)
    requires Right(env, start, spec, given, s)
    requires !T.Meant(env.lib, r, spec)
    ensures
      var t := if T.Selected(env.lib, r, spec.target) then s.(matched := s.matched + 1, pending := s.pending + 1) else s;
      Right(env, start, spec, given + [r], t)
  {
    hide T.Meant, ShouldDelete, SeenExpired, MatchesSelectors, Matching, T.Selected, T.ConditionsHold;
    MatchingSnoc(env.lib, spec.target, given, r);
  }

  lemma RightEnter(env: Environment, start: nat, n: nat, spec: Spec, given: seq<Resource>, s: Evaluated, r: Resource)
    requires env.Lawful() && start <= n
    requires Right(env, start, spec, given, s)
    requires T.Meant(env.lib, r, spec)
    ensures Right(env, start, spec, given + [r], Enter(s, r, Judge(env, n, r, spec.ttl)))
  {
    hide ShouldDelete, ExpiredAt, Judge, SeenExpired, Matching, MatchesSelectors, MeetsConditions, T.Selected, T.ConditionsHold;
    MatchingSnoc(env.lib, spec.target, given, r);
    var j := Judge(env, n, r, spec.ttl);
    JudgeSound(env, n, r, spec.ttl);
    var t := Enter(s, r, j);
    forall q | q in t.queue
      ensures SeenExpired(env.lib, t.ev, q, spec.ttl)
    {
      SeenLonger(env.lib, s.ev, j.ev, q, spec.ttl);
    }
    ExpiredByOneReading(env.lib, r, spec.ttl, env.clock(start));
    if ExpiredAt(env.lib, r, spec.ttl, env.clock(start)) {
      JudgeComplete(env, start, n, r, spec.ttl);
    }
    assert Right(env, start, spec, given + [r], t);
  }

  lemma NothingRight(env: Environment, start: nat, spec: Spec)
    ensures Right(env, start, spec, [], UNEVALUATED)
    ensures Right(env, start, spec, [], UNEVALUATED.(ev := [CheckedContext(true)], stopped := true))
  {
  }

  lemma ServiceStepRight(env: Environment, start: nat, n: nat, p: Policy, given: seq<Resource>, s: Evaluated,
                         r: Resource)
    requires env.Lawful() && start <= n
    requires Right(env, start, p.spec, given, s)
    ensures Right(env, start, p.spec, given + [r], ServiceStep(env, n, p, s, r))
  {
    hide Right, Judge, MatchesSelectors, MeetsConditions, T.Selected, T.ConditionsHold;
    MeantExactly(env.lib, p.spec, r);
    if !T.Meant(env.lib, r, p.spec) {
      RightSkip(env, start, p.spec, given, s, r);
    } else {
      RightEnter(env, start, n + |s.ev|, p.spec, given, s, r);
    }
  }

  lemma DirectStepRight(env: Environment, start: nat, n: nat, p: Policy, given: seq<Resource>, s: Evaluated, item: Item)
    requires env.Lawful() && start <= n
    requires Right(env, start, p.spec, given, s)
    ensures
      Right(env, start, p.spec, given + if item.Object? then [item.resource] else [], DirectStep(env, n, p, s, item))
  {
    hide Right, Judge, MatchesSelectors, MeetsConditions, T.Selected, T.ConditionsHold;
    if item.Alien? {
      assert given + [] == given;
    } else {
      var r := item.resource;
      MeantExactly(env.lib, p.spec, r);
      if !T.Meant(env.lib, r, p.spec) {
        RightSkip(env, start, p.spec, given, s, r);
        assert s.ev + [] == s.ev;
      } else {
        RightEnter(env, start, n + |s.ev|, p.spec, given, s, r);
      }
    }
  }

  lemma MoreGiven(env: Environment, start: nat, spec: Spec, given: seq<Resource>, more: seq<Resource>, s: Evaluated)
    requires s.stopped && Right(env, start, spec, given, s)
    ensures Right(env, start, spec, given + more, s)
  {
    hide Justified;
    assert multiset(given + more) == multiset(given) + multiset(more);
  }

  lemma {:induction false} ServiceToRight(env: Environment, start: nat, n: nat, p: Policy, resources: seq<Resource>,
                                          k: nat)
    requires env.Lawful() && start <= n && k <= |resources|
    ensures Right(env, start, p.spec, resources[..k], ServiceTo(env, n, p, resources, k))
  {
    hide Right, ServiceStep, ServiceTo;
    if k == 0 {
      ServiceNone(env, n, p, resources);
      NothingRight(env, start, p.spec);
      assert resources[..0] == [];
    } else {
      ServiceToRight(env, start, n, p, resources, k - 1);
      var before := ServiceTo(env, n, p, resources, k - 1);
      assert resources[..k] == resources[..k - 1] + [resources[k - 1]];
      if before.stopped {
        ServiceStops(env, n, p, resources, k - 1, k);
        MoreGiven(env, start, p.spec, resources[..k - 1], [resources[k - 1]], before);
      } else {
        ServiceNext(env, n, p, resources, k - 1);
        RightLook(env, start, n, p.spec, resources[..k - 1], before, k - 1);
        var looked := Look(env, n, before, k - 1);
        if looked.stopped {
          MoreGiven(env, start, p.spec, resources[..k - 1], [resources[k - 1]], looked);
        } else {
          ServiceStepRight(env, start, n, p, resources[..k - 1], looked, resources[k - 1]);
        }
      }
    }
  }

  lemma {:induction false} DirectToRight(env: Environment, start: nat, n: nat, p: Policy, items: seq<Item>, k: nat)
    requires env.Lawful() && start <= n && k <= |items|
    ensures Right(env, start, p.spec, Objects(items[..k]), DirectTo(env, n, p, items, k))
  {
    hide Right, DirectStep, DirectTo, Objects;
    if k == 0 {
      DirectNone(env, n, p, items);
      NothingRight(env, start, p.spec);
      NoObjects(items);
    } else {
      DirectToRight(env, start, n, p, items, k - 1);
      var before := DirectTo(env, n, p, items, k - 1);
      var more := if items[k - 1].Object? then [items[k - 1].resource] else [];
      ObjectsSnoc(items, k - 1);
      if before.stopped {
        DirectStops(env, n, p, items, k - 1, k);
        MoreGiven(env, start, p.spec, Objects(items[..k - 1]), more, before);
      } else {
        DirectNext(env, n, p, items, k - 1);
        RightLook(env, start, n, p.spec, Objects(items[..k - 1]), before, k - 1);
        var looked := Look(env, n, before, k - 1);
        if looked.stopped {
          MoreGiven(env, start, p.spec, Objects(items[..k - 1]), more, looked);
        } else {
          DirectStepRight(env, start, n, p, Objects(items[..k - 1]), looked, items[k - 1]);
        }
      }
    }
  }

  lemma NoObjects(items: seq<Item>)
    ensures Objects(items[..0]) == []
  {
  }

  /**
   Every evaluation by the service, cancelled anywhere or not at all: matched is pending plus queued;
   each queued resource was given, is eligible, was seen expired, is queued no more often than it was
   given, and has its reason; and unless the context is found done, everything that matches is
   counted and what was due by the first reading is queued.
   */
  lemma ServiceRight(env: Environment, n: nat, p: Policy, resources: seq<Resource>)
    requires env.Lawful()
    ensures Right(env, n, p.spec, resources, Service(env, n, p, resources))
  {
    hide Right, ServiceTo;
    if env.done(n) {
      NothingRight(env, n, p.spec);
      MoreGiven(env, n, p.spec, [], resources, UNEVALUATED.(ev := [CheckedContext(true)], stopped := true));
      assert [] + resources == resources;
    } else {
      ServiceToRight(env, n, n + 1, p, resources, |resources|);
      assert resources[..|resources|] == resources;
      RightPrefixed(env, n, p.spec, resources, ServiceTo(env, n + 1, p, resources, |resources|));
    }
  }

  lemma RightPrefixed(env: Environment, start: nat, spec: Spec, given: seq<Resource>, s: Evaluated)
    requires Right(env, start, spec, given, s)
    ensures Right(env, start, spec, given, s.(ev := [CheckedContext(false)] + s.ev))
  {
    hide T.Meant, Due, SeenExpired;
    var e := CheckedContext(false);
    forall r | r in s.queue
      ensures SeenExpired(env.lib, [e] + s.ev, r, spec.ttl)
    {
      SeenLonger(env.lib, [e], s.ev, r, spec.ttl);
    }
  }

  /** The same for every evaluation by the direct path. */
  lemma DirectRight(env: Environment, n: nat, p: Policy, items: seq<Item>)
    requires env.Lawful()
    ensures Right(env, n, p.spec, Objects(items), Direct(env, n, p, items))
  {
    DirectToRight(env, n, n, p, items, |items|);
    assert items[..|items|] == items;
  }

  // ---------------------------------------------------------- cancellation

  /** Where the next look at the context is, in an evaluation from an index on: at the next multiple of 100. */
  function NextLook(j: nat): (look: nat)
    ensures j <= look < j + 100 && look % 100 == 0
    ensures forall i: nat :: j <= i < look ==> i % 100 != 0
  {
    if j % 100 == 0 then j else j + 100 - j % 100
  }

  /** The end of what is still evaluated, up to k, once the context is done at j. */
  function StillEvaluated(j: nat, k: nat): nat {
    if k < NextLook(j) then k else NextLook(j)
  }

  lemma ServiceStepMatches(env: Environment, n: nat, p: Policy, s: Evaluated, r: Resource)
    ensures
      var t := ServiceStep(env, n, p, s, r);
      && t.stopped == s.stopped && |s.ev| <= |t.ev|
      && t.matched == s.matched + |Matching(env.lib, p.spec.target, [r])|
  {
    hide Judge, MatchesSelectors, MeetsConditions, T.Selected, T.ConditionsHold;
    MatchingSnoc(env.lib, p.spec.target, [], r);
    MeantExactly(env.lib, p.spec, r);
    assert [] + [r] == [r];
  }

  lemma DirectStepMatches(env: Environment, n: nat, p: Policy, s: Evaluated, item: Item)
    ensures
      var t := DirectStep(env, n, p, s, item);
      && t.stopped == s.stopped && |s.ev| <= |t.ev|
      && t.matched == s.matched + |Matching(env.lib, p.spec.target, Objects([item]))|
  {
    hide JudgeChecked, MatchesSelectors, T.Selected, T.ConditionsHold;
    assert [item][..0] == [];
    if item.Object? {
      MatchingSnoc(env.lib, p.spec.target, [], item.resource);
      MeantExactly(env.lib, p.spec, item.resource);
      assert [] + [item.resource] == [item.resource];
    }
  }

  /**
   An evaluation by the service once the context is done, from a resource j on: it goes on to the next
   periodic look, where it stops, so that fewer than 100 more resources are evaluated.
   */
  lemma {:induction false} ServiceAfterDone(env: Environment, n: nat, p: Policy, resources: seq<Resource>, j: nat, k: nat)
    requires env.Lawful() && j <= k <= |resources|
    requires !ServiceTo(env, n, p, resources, j).stopped && env.done(n + |ServiceTo(env, n, p, resources, j).ev|)
    ensures
      var s, later := ServiceTo(env, n, p, resources, j), ServiceTo(env, n, p, resources, k);
      && |s.ev| <= |later.ev|
      && (later.stopped <==> NextLook(j) < k)
      && later.matched == s.matched + |Matching(env.lib, p.spec.target, resources[j..StillEvaluated(j, k)])|
    decreases k
  {
    hide ServiceTo, ServiceStep, Matching, NextLook;
    if j == k {
      assert resources[j..StillEvaluated(j, k)] == [];
      NoMatching(env.lib, p.spec.target);
    } else {
      ServiceAfterDone(env, n, p, resources, j, k - 1);
      var before := ServiceTo(env, n, p, resources, k - 1);
      if before.stopped {
        ServiceStops(env, n, p, resources, k - 1, k);
      } else {
        assert env.done(n + |before.ev|);
        ServiceNext(env, n, p, resources, k - 1);
        if (k - 1) % 100 != 0 {
          assert NextLook(j) != k - 1;
          ServiceStepMatches(env, n, p, before, resources[k - 1]);
          assert resources[j..k] == resources[j..k - 1] + [resources[k - 1]];
          MatchingAppend(env.lib, p.spec.target, resources[j..k - 1], [resources[k - 1]]);
        }
      }
    }
  }

  lemma {:induction false} MatchingAppend(lib: Library, t: Target, a: seq<Resource>, b: seq<Resource>)
    ensures Matching(lib, t, a + b) == Matching(lib, t, a) + Matching(lib, t, b)
  {
    hide Matching;
    NoMatching(lib, t);
    if b == [] {
      assert a + b == a;
    } else {
      var last := |b| - 1;
      MatchingAppend(lib, t, a, b[..last]);
      assert b == b[..last] + [b[last]] && a + b == (a + b[..last]) + [b[last]];
      MatchingSnoc(lib, t, a + b[..last], b[last]);
      MatchingSnoc(lib, t, b[..last], b[last]);
    }
  }

  lemma ObjectsMore(items: seq<Item>, item: Item)
    ensures Objects(items + [item]) == Objects(items) + Objects([item])
  {
    assert (items + [item])[..|items|] == items && [item][..0] == [];
  }

  /** The same for the direct path. */
  lemma {:induction false} DirectAfterDone(env: Environment, n: nat, p: Policy, items: seq<Item>, j: nat, k: nat)
    requires env.Lawful() && j <= k <= |items|
    requires !DirectTo(env, n, p, items, j).stopped && env.done(n + |DirectTo(env, n, p, items, j).ev|)
    ensures
      var s, later := DirectTo(env, n, p, items, j), DirectTo(env, n, p, items, k);
      && |s.ev| <= |later.ev|
      && (later.stopped <==> NextLook(j) < k)
      && later.matched == s.matched + |Matching(env.lib, p.spec.target, Objects(items[j..StillEvaluated(j, k)]))|
    decreases k
  {
    hide DirectTo, DirectStep, Matching, NextLook, Objects;
    if j == k {
      assert items[j..StillEvaluated(j, k)] == [];
      NoMatching(env.lib, p.spec.target);
    } else {
      DirectAfterDone(env, n, p, items, j, k - 1);
      var before := DirectTo(env, n, p, items, k - 1);
      if before.stopped {
        DirectStops(env, n, p, items, k - 1, k);
      } else {
        assert env.done(n + |before.ev|);
        DirectNext(env, n, p, items, k - 1);
        if (k - 1) % 100 != 0 {
          assert NextLook(j) != k - 1;
          DirectStepMatches(env, n, p, before, items[k - 1]);
          assert items[j..k] == items[j..k - 1] + [items[k - 1]];
          ObjectsMore(items[j..k - 1], items[k - 1]);
          MatchingAppend(env.lib, p.spec.target, Objects(items[j..k - 1]), Objects([items[k - 1]]));
        }
      }
    }
  }

  // -------------------------------------------------------------- listing

  lemma {:induction false} ObjectsAppend(a: seq<Item>, b: seq<Item>)
    ensures Objects(a + b) == Objects(a) + Objects(b)
  {
    if |b| == 0 {
      assert a + b == a && Objects(a) + [] == Objects(a);
    } else {
      var last := |b| - 1;
      assert (a + b)[..|a + b| - 1] == a + b[..last];
      ObjectsAppend(a, b[..last]);
    }
  }

  lemma {:induction false} ScopedAppend(a: seq<Resource>, b: seq<Resource>, namespace: string)
    ensures Scoped(a + b, namespace) == Scoped(a, namespace) + Scoped(b, namespace)
  {
    if |b| == 0 {
      assert a + b == a && Scoped(a, namespace) + [] == Scoped(a, namespace);
    } else {
      var last := |b| - 1;
      assert (a + b)[..|a + b| - 1] == a + b[..last];
      ScopedAppend(a, b[..last], namespace);
    }
  }

  /** Listing goes item by item: an object in the namespace is listed, anything else is not. */
  lemma ListedOneByOne(a: seq<Item>, item: Item, b: seq<Item>, namespace: string)
    ensures
      var listed := item.Object? && (namespace == "" || namespace == "*" || item.resource.namespace == namespace);
      Scoped(Objects(a + [item] + b), namespace)
      == Scoped(Objects(a), namespace) + (if listed then [item.resource] else []) + Scoped(Objects(b), namespace)
  {
    ObjectsAppend(a + [item], b);
    ObjectsAppend(a, [item]);
    ScopedAppend(Objects(a + [item]), Objects(b), namespace);
    ScopedAppend(Objects(a), Objects([item]), namespace);
    assert [item][..0] == [];
    if item.Object? {
      assert Objects([item]) == [item.resource] && [item.resource][..0] == [];
    }
  }

  // ------------------------------------------------------- the paths agree

  /** From a point on, the context is not done and the clock shows one instant. */
  ghost predicate Frozen(env: Environment, n: nat, now: int) {
    forall m: nat :: m >= n ==> !env.done(m) && env.clock(m) == now
  }

  /** The resources to delete at an instant, in order: the definition that both paths implement. */
  ghost function AllDue(lib: Library, spec: Spec, resources: seq<Resource>, now: int): seq<Resource> {
    if |resources| == 0 then []
    else
      var last := |resources| - 1;
      AllDue(lib, spec, resources[..last], now) + if Due(lib, spec, resources[last], now) then [resources[last]] else []
  }

  lemma AllDueSnoc(lib: Library, spec: Spec, resources: seq<Resource>, r: Resource, now: int)
    ensures AllDue(lib, spec, resources + [r], now) ==
      AllDue(lib, spec, resources, now) + if Due(lib, spec, r, now) then [r] else []
  {
    hide Due;
    assert (resources + [r])[..|resources|] == resources;
  }

  function ReasonsOf(queue: seq<Resource>): map<string, string> {
    if |queue| == 0 then map[] else ReasonsOf(queue[..|queue| - 1])[queue[|queue| - 1].uid := "ttl_expired"]
  }

  lemma ReasonsSnoc(queue: seq<Resource>, r: Resource)
    ensures ReasonsOf(queue + [r]) == ReasonsOf(queue)[r.uid := "ttl_expired"]
  {
    assert (queue + [r])[..|queue|] == queue;
  }

  /** An evaluation is the definition's, for the resources seen so far. */
  ghost predicate Exact(lib: Library, spec: Spec, given: seq<Resource>, now: int, s: Evaluated) {
    && !s.stopped
    && s.matched == |Matching(lib, spec.target, given)|
    && s.matched == s.pending + |s.queue|
    && s.queue == AllDue(lib, spec, given, now)
    && s.reasons == ReasonsOf(s.queue)
  }

  lemma FrozenJudge(env: Environment, n: nat, r: Resource, spec: TtlSpec, now: int)
    requires Frozen(env, n, now)
    ensures Judge(env, n, r, spec).verdict == ShouldDelete(env.lib, r, spec, now, now)
    ensures ShouldDelete(env.lib, r, spec, now, now).delete ==> ShouldDelete(env.lib, r, spec, now, now).reason == "ttl_expired"
  {
    hide CalculateExpirationTime;
  }

  /** One resource more, entered by its verdict or passed over. */
  lemma ExactEnter(env: Environment, n: nat, spec: Spec, given: seq<Resource>, s: Evaluated, r: Resource, now: int)
    requires Frozen(env, n, now) && Exact(env.lib, spec, given, now, s)
    requires T.Meant(env.lib, r, spec)
    ensures Exact(env.lib, spec, given + [r], now, Enter(s, r, Judge(env, n, r, spec.ttl)))
  {
    hide Judge, ShouldDelete, MatchesSelectors, MeetsConditions, Matching, AllDue, ReasonsOf, T.Selected, T.ConditionsHold;
    FrozenJudge(env, n, r, spec.ttl, now);
    ExpiredByOneReading(env.lib, r, spec.ttl, now);
    MatchingSnoc(env.lib, spec.target, given, r);
    AllDueSnoc(env.lib, spec, given, r, now);
    ReasonsSnoc(s.queue, r);
    assert s.queue + [] == s.queue;
  }

  lemma ExactSkip(lib: Library, spec: Spec, given: seq<Resource>, s: Evaluated, r: Resource, now: int)
    requires Exact(lib, spec, given, now, s)
    requires !T.Meant(lib, r, spec)
    ensures
      var t := if T.Selected(lib, r, spec.target) then s.(matched := s.matched + 1, pending := s.pending + 1) else s;
      Exact(lib, spec, given + [r], now, t)
  {
    hide T.Meant, MatchesSelectors, Matching, AllDue, ReasonsOf, T.Selected, T.ConditionsHold;
    MatchingSnoc(lib, spec.target, given, r);
    AllDueSnoc(lib, spec, given, r, now);
    assert s.queue + [] == s.queue;
  }

  lemma {:induction false} ServiceToExact(env: Environment, n: nat, p: Policy, resources: seq<Resource>, now: int,
                                          k: nat)
    requires Frozen(env, n, now) && k <= |resources|
    ensures Exact(env.lib, p.spec, resources[..k], now, ServiceTo(env, n, p, resources, k))
  {
    hide ServiceTo, Judge, MatchesSelectors, MeetsConditions, Matching, AllDue, ReasonsOf, T.Selected, T.ConditionsHold;
    if k == 0 {
      ServiceNone(env, n, p, resources);
      NothingExact(env.lib, p.spec, now);
      assert resources[..0] == [];
    } else {
      ServiceToExact(env, n, p, resources, now, k - 1);
      ServiceNext(env, n, p, resources, k - 1);
      var before := ServiceTo(env, n, p, resources, k - 1);
      var looked := Look(env, n, before, k - 1);
      var r := resources[k - 1];
      assert resources[..k] == resources[..k - 1] + [r];
      MeantExactly(env.lib, p.spec, r);
      if T.Meant(env.lib, r, p.spec) {
        ExactEnter(env, n + |looked.ev|, p.spec, resources[..k - 1], looked, r, now);
      } else {
        ExactSkip(env.lib, p.spec, resources[..k - 1], looked, r, now);
      }
    }
  }

  lemma NothingExact(lib: Library, spec: Spec, now: int)
    ensures Exact(lib, spec, [], now, UNEVALUATED)
  {
  }

  lemma {:induction false} DirectToExact(env: Environment, n: nat, p: Policy, items: seq<Item>, now: int, k: nat)
    requires Frozen(env, n, now) && k <= |items|
    ensures Exact(env.lib, p.spec, Objects(items[..k]), now, DirectTo(env, n, p, items, k))
  {
    hide DirectTo, Judge, MatchesSelectors, MeetsConditions, Matching, AllDue, ReasonsOf, Objects, T.Selected, T.ConditionsHold;
    if k == 0 {
      DirectNone(env, n, p, items);
      NothingExact(env.lib, p.spec, now);
      NoObjects(items);
    } else {
      DirectToExact(env, n, p, items, now, k - 1);
      DirectNext(env, n, p, items, k - 1);
      var before := DirectTo(env, n, p, items, k - 1);
      var looked := Look(env, n, before, k - 1);
      var given := Objects(items[..k - 1]);
      ObjectsSnoc(items, k - 1);
      if items[k - 1].Alien? {
        assert given + [] == given;
      } else {
        var r := items[k - 1].resource;
        MeantExactly(env.lib, p.spec, r);
        if T.Meant(env.lib, r, p.spec) {
          ExactEnter(env, n + |looked.ev|, p.spec, given, looked, r, now);
        } else {
          ExactSkip(env.lib, p.spec, given, looked, r, now);
          assert looked.ev + [] == looked.ev;
        }
      }
    }
  }

  /** The service's namespace filter drops only what the selectors would have rejected. */
  lemma {:induction false} ScopeIsImplied(lib: Library, spec: Spec, resources: seq<Resource>, now: int)
    ensures
      var scoped := Scoped(resources, NormalNamespace(spec.target.namespace));
      && Matching(lib, spec.target, scoped) == Matching(lib, spec.target, resources)
      && AllDue(lib, spec, scoped, now) == AllDue(lib, spec, resources, now)
  {
    hide ExpiredAt, T.ConditionsHold, T.StringAt, Matching, AllDue;
    var namespace := NormalNamespace(spec.target.namespace);
    if |resources| == 0 {
      assert resources == [];
    } else {
      var last := |resources| - 1;
      var earlier, r := resources[..last], resources[last];
      ScopeIsImplied(lib, spec, earlier, now);
      assert resources == earlier + [r];
      MatchingSnoc(lib, spec.target, earlier, r);
      AllDueSnoc(lib, spec, earlier, r, now);
      MatchingSnoc(lib, spec.target, Scoped(earlier, namespace), r);
      AllDueSnoc(lib, spec, Scoped(earlier, namespace), r, now);
      assert Scoped(earlier, namespace) + [] == Scoped(earlier, namespace);
      assert !InScope(r, namespace) ==> !T.Selected(lib, r, spec.target);
    }
  }

  /**
   The two paths agree. On the same store, at the same instant, without a cancellation, they give the
   same counts, the same queue in the same order, and the same reasons: those of the definition.
   */
  lemma PathsAgree(one: Environment, n: nat, other: Environment, m: nat, p: Policy, items: seq<Item>, now: int)
    requires one.lib == other.lib && Frozen(one, n, now) && Frozen(other, m, now)
    ensures
      var service := Service(one, n, p, Scoped(Objects(items), NormalNamespace(p.spec.target.namespace)));
      var direct := Direct(other, m, p, items);
      && service.matched == direct.matched == |Matching(one.lib, p.spec.target, Objects(items))|
      && service.pending == direct.pending
      && service.queue == direct.queue == AllDue(one.lib, p.spec, Objects(items), now)
      && service.reasons == direct.reasons == ReasonsOf(direct.queue)
  {
    hide ServiceTo, DirectTo, Matching, AllDue, ReasonsOf, Scoped, Objects;
    var scoped := Scoped(Objects(items), NormalNamespace(p.spec.target.namespace));
    ServiceToExact(one, n + 1, p, scoped, now, |scoped|);
    assert scoped[..|scoped|] == scoped;
    DirectToExact(other, m, p, items, now, |items|);
    assert items[..|items|] == items;
    ScopeIsImplied(one.lib, p.spec, Objects(items), now);
  }

  // ------------------------------------------------------------ conditions

  /** The field conditions that some resource meets. */
  predicate Meetable(c: FieldCondition) {
    && c.fieldPath != ""
    && (c.operator == "Equals" || c.operator == "NotEquals" || c.operator == "NotIn"
        || (c.operator == "In" && c.values != []))
  }

  /** An object with a value at a path, and nothing else. */
  function Holding(path: seq<string>, value: Json): (j: Json)
    ensures path != [] ==> j.Obj?
  {
    if path == [] then value else Obj(map[path[0] := Holding(path[1..], value)])
  }

  lemma {:induction false} HoldingHolds(path: seq<string>, value: Json)
    ensures Nested(Holding(path, value), path) == Value(value)
  {
    if path != [] {
      HoldingHolds(path[1..], value);
    }
  }

  /** A value that satisfies the condition's operator, where there is one. */
  lemma SomeValue(c: FieldCondition) returns (v: string)
    requires Meetable(c)
    ensures MatchesOperator(v, c)
  {
    if c.operator == "Equals" {
      v := c.value;
    } else if c.operator == "In" {
      v := c.values[0];
    } else if c.operator == "NotEquals" {
      v := c.value + "x";
    } else {
      v := LongerThanAll(set s | s in c.values);
    }
  }

  /**
   Which field conditions can be met at all: those with a path and one of four operators, "In" with a
   value to be in. "Exists", which the API documents as a fifth, is met by no resource.
   */
  lemma FieldConditionMeetable(c: FieldCondition)
    ensures (exists r: Resource :: MeetsField(r, c)) <==> Meetable(c)
  {
    hide Nested, FieldPath.Cut, Holding;
    if Meetable(c) {
      var v := SomeValue(c);
      var path := FieldPath.Split(c.fieldPath);
      HoldingHolds(path, Text(v));
      var r := Resource("", "", "", 0, map[], map[], Holding(path, Text(v)));
      assert MeetsField(r, c);
    } else {
      forall r: Resource
        ensures !MeetsField(r, c)
      {
        NothingAtTheRoot(r, c);
      }
    }
  }

  /** A field condition without a path looks at the object itself, which is no string. */
  lemma NothingAtTheRoot(r: Resource, c: FieldCondition)
    requires !Meetable(c)
    ensures !MeetsField(r, c)
  {
    if c.fieldPath == "" {
      assert Nested(r.content, []) == Value(r.content);
    }
  }

  /** "Exists", which the API documents for field conditions, is an operator that no value satisfies. */
  lemma FieldExistsNeverMet(r: Resource, conditions: Conditions, c: FieldCondition)
    requires c in conditions.and && c.operator == "Exists"
    ensures !MeetsConditions(r, conditions)
  {
    UnmeetableNeverMet(r, conditions, c);
  }

  lemma UnmeetableNeverMet(r: Resource, conditions: Conditions, c: FieldCondition)
    requires c in conditions.and && !Meetable(c)
    ensures !MeetsConditions(r, conditions)
  {
    var i :| 0 <= i < |conditions.and| && conditions.and[i] == c;
    NothingAtTheRoot(r, c);
    assert !MeetsField(r, conditions.and[i]);
  }

  /** So a policy with such a condition, or another that cannot be met, queues nothing, ever, on either path. */
  lemma UnmeetableConditionBlocks(env: Environment, n: nat, p: Policy, resources: seq<Resource>, items: seq<Item>,
                          c: FieldCondition)
    requires env.Lawful()
    requires p.spec.conditions.Some? && c in p.spec.conditions.value.and && !Meetable(c)
    ensures Service(env, n, p, resources).queue == [] && Direct(env, n, p, items).queue == []
  {
    hide Service, Direct;
    ServiceRight(env, n, p, resources);
    NothingQueued(env, n, p.spec, resources, Service(env, n, p, resources), c);
    DirectRight(env, n, p, items);
    NothingQueued(env, n, p.spec, Objects(items), Direct(env, n, p, items), c);
  }

  lemma NothingQueued(env: Environment, start: nat, spec: Spec, given: seq<Resource>, s: Evaluated, c: FieldCondition)
    requires Right(env, start, spec, given, s)
    requires spec.conditions.Some? && c in spec.conditions.value.and && !Meetable(c)
    ensures s.queue == []
  {
    hide SeenExpired, MatchesSelectors, MeetsConditions, Due, Matching, Meetable, T.Selected, T.ConditionsHold;
    if s.queue != [] {
      var r := s.queue[0];
      assert r in s.queue;
      UnmeetableNeverMet(r, spec.conditions.value, c);
      T.ConditionsExactly(r, spec.conditions.value);
      assert false;
    }
  }
}
