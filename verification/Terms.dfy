/**
 What a policy says, in its own terms: which resources it means, how fast and in which way they are to
 be deleted, where they are looked for. Nothing here is computed the way the controller computes it;
 the lemmas say that the controller's functions mean the same.
 */
module Terms {
  import opened Int64
  import opened Wrappers
  import opened Policies
  import opened Worlds
  import FieldPath

  // ----------------------------------------------------------------- paths

  /** A trail from a value through nested objects, one member for each segment, to another value. */
  ghost predicate Trail(trail: seq<Json>, j: Json, path: seq<string>, v: Json) {
    && |trail| == |path| + 1 && trail[0] == j && trail[|path|] == v
    && forall i :: 0 <= i < |path| ==>
         trail[i].Obj? && path[i] in trail[i].fields && trail[i].fields[path[i]] == trail[i + 1]
  }

  ghost predicate Reaches(j: Json, path: seq<string>, v: Json) {
    exists trail :: Trail(trail, j, path, v)
  }

  /** The walk along a path finds exactly the value at the end of a trail. */
  lemma {:induction false} NestedIsReached(j: Json, path: seq<string>, v: Json)
    ensures Nested(j, path) == Value(v) <==> Reaches(j, path, v)
  {
    if path == [] {
      if Nested(j, path) == Value(v) {
        assert Trail([v], j, path, v);
      }
    } else {
      if j.Obj? && path[0] in j.fields {
        NestedIsReached(j.fields[path[0]], path[1..], v);
      }
      if Nested(j, path) == Value(v) {
        var rest :| Trail(rest, j.fields[path[0]], path[1..], v);
        LongerTrail(rest, j, path, v);
      }
      if Reaches(j, path, v) {
        var trail :| Trail(trail, j, path, v);
        ShorterTrail(trail, j, path, v);
      }
    }
  }

  lemma LongerTrail(rest: seq<Json>, j: Json, path: seq<string>, v: Json)
    requires path != [] && j.Obj? && path[0] in j.fields && Trail(rest, j.fields[path[0]], path[1..], v)
    ensures Trail([j] + rest, j, path, v)
  {
    var trail := [j] + rest;
    forall i | 0 <= i < |path|
      ensures trail[i].Obj? && path[i] in trail[i].fields && trail[i].fields[path[i]] == trail[i + 1]
    {
      if i > 0 {
        assert path[i] == path[1..][i - 1] && trail[i] == rest[i - 1] && trail[i + 1] == rest[i];
      }
    }
  }

  lemma ShorterTrail(trail: seq<Json>, j: Json, path: seq<string>, v: Json)
    requires path != [] && Trail(trail, j, path, v)
    ensures j.Obj? && path[0] in j.fields && Trail(trail[1..], j.fields[path[0]], path[1..], v)
  {
    forall i | 0 <= i < |path| - 1
      ensures trail[1..][i].Obj? && path[1..][i] in trail[1..][i].fields
      ensures trail[1..][i].fields[path[1..][i]] == trail[1..][i + 1]
    {
      assert path[1..][i] == path[i + 1] && trail[1..][i] == trail[i + 1] && trail[1..][i + 1] == trail[i + 2];
    }
  }

  /** Segments without dots that make up a string when they are joined with dots; none make up the empty one. */
  predicate Dotted(path: string, segments: seq<string>) {
    && (path == "" <==> segments == [])
    && (path != "" ==> FieldPath.JoinDots(segments) == path && FieldPath.DotFree(segments))
  }

  /** There is a string s at a dotted path in a resource. */
  ghost predicate StringAt(r: Resource, path: string, s: string) {
    exists segments :: Dotted(path, segments) && Reaches(r.content, segments, Text(s))
  }

  lemma StringAtExactly(r: Resource, path: string, s: string)
    ensures NestedString(r.content, FieldPath.Split(path)) == Some(s) <==> StringAt(r, path, s)
  {
    hide Nested, Reaches, FieldPath.Cut, FieldPath.JoinDots, FieldPath.DotFree, FieldPath.Split, Dotted;
    var segments := FieldPath.Split(path);
    SplitIsDotted(path, segments);
    NestedIsReached(r.content, segments, Text(s));
    if StringAt(r, path, s) {
      var other :| Dotted(path, other) && Reaches(r.content, other, Text(s));
      SplitIsDotted(path, other);
    }
  }

  lemma SplitIsDotted(path: string, segments: seq<string>)
    ensures FieldPath.Split(path) == segments <==> Dotted(path, segments)
  {
    hide FieldPath.Cut, FieldPath.JoinDots, FieldPath.DotFree;
    if path != "" {
      FieldPath.CutIsExact(path, segments);
    }
  }

  // ------------------------------------------------------------- selection

  /** The resources a target means. */
  ghost predicate Selected(lib: Library, r: Resource, t: Target) {
    && (t.namespace == "" || t.namespace == "*" || r.namespace == t.namespace)
    && (t.labelSelector.Some? ==> lib.selects(t.labelSelector.value, r.labels))
    && (t.fieldSelector.Some? ==>
          forall path :: path in t.fieldSelector.value ==> StringAt(r, path, t.fieldSelector.value[path]))
  }

  lemma SelectedExactly(lib: Library, r: Resource, t: Target)
    ensures MatchesSelectors(lib, r, t) <==> Selected(lib, r, t)
  {
    hide StringAt, NestedString, FieldPath.Split;
    if t.fieldSelector.Some? {
      forall path | path in t.fieldSelector.value
        ensures MatchesField(r, path, t.fieldSelector.value[path])
                <==> StringAt(r, path, t.fieldSelector.value[path])
      {
        StringAtExactly(r, path, t.fieldSelector.value[path]);
      }
    }
  }

  // ------------------------------------------------------------ conditions

  /** A label is there, is there with a value, or is not there with that value. */
  predicate LabelHolds(r: Resource, c: LabelCondition) {
    var equal := c.key in r.labels && r.labels[c.key] == c.value;
    || (c.operator == "Exists" && c.key in r.labels)
    || ((c.operator == "Equals" || c.operator == "") && equal)
    || (c.operator == "In" && equal && c.value != "")
    || (c.operator == "NotIn" && !equal)
  }

  ghost predicate FieldHolds(r: Resource, c: FieldCondition) {
    exists s :: StringAt(r, c.fieldPath, s) &&
      (|| (c.operator == "Equals" && s == c.value)
       || (c.operator == "NotEquals" && s != c.value)
       || (c.operator == "In" && s in c.values)
       || (c.operator == "NotIn" && s !in c.values))
  }

  ghost predicate PhaseHolds(r: Resource, phases: seq<string>) {
    phases == [] || exists phase :: phase in phases && Reaches(r.content, ["status", "phase"], Text(phase))
  }

  /** All that a policy asks of a resource beyond its selectors. */
  ghost predicate ConditionsHold(r: Resource, c: Conditions) {
    && PhaseHolds(r, c.phase)
    && (forall l :: l in c.hasLabels ==> LabelHolds(r, l))
    && (forall a :: a in c.hasAnnotations ==> a.key in r.annotations && r.annotations[a.key] == a.value)
    && (forall f :: f in c.and ==> FieldHolds(r, f))
  }

  lemma PhaseExactly(r: Resource, phases: seq<string>)
    ensures MeetsPhase(r, phases) <==> PhaseHolds(r, phases)
  {
    hide Nested, Reaches;
    forall phase: string
      ensures Nested(r.content, ["status", "phase"]) == Value(Text(phase))
              <==> Reaches(r.content, ["status", "phase"], Text(phase))
    {
      NestedIsReached(r.content, ["status", "phase"], Text(phase));
    }
  }

  lemma LabelExactly(r: Resource, c: LabelCondition)
    ensures MeetsLabel(r, c) <==> LabelHolds(r, c)
  {
  }

  lemma FieldExactly(r: Resource, c: FieldCondition)
    ensures MeetsField(r, c) <==> FieldHolds(r, c)
  {
    hide StringAt, NestedString, FieldPath.Split;
    forall s: string
      ensures NestedString(r.content, FieldPath.Split(c.fieldPath)) == Some(s) <==> StringAt(r, c.fieldPath, s)
    {
      StringAtExactly(r, c.fieldPath, s);
    }
  }

  lemma ConditionsExactly(r: Resource, c: Conditions)
    ensures MeetsConditions(r, c) <==> ConditionsHold(r, c)
  {
    hide MeetsPhase, PhaseHolds, MeetsLabel, LabelHolds, MeetsField, FieldHolds;
    PhaseExactly(r, c.phase);
    forall i | 0 <= i < |c.hasLabels|
      ensures MeetsLabel(r, c.hasLabels[i]) <==> LabelHolds(r, c.hasLabels[i])
    {
      LabelExactly(r, c.hasLabels[i]);
    }
    forall i | 0 <= i < |c.and|
      ensures MeetsField(r, c.and[i]) <==> FieldHolds(r, c.and[i])
    {
      FieldExactly(r, c.and[i]);
    }
    AllIndexed(r, c);
  }

  /** Each of a sequence, by index or by membership. */
  lemma AllIndexed(r: Resource, c: Conditions)
    ensures (forall l :: l in c.hasLabels ==> LabelHolds(r, l))
       <==> (forall i :: 0 <= i < |c.hasLabels| ==> LabelHolds(r, c.hasLabels[i]))
    ensures (forall a :: a in c.hasAnnotations ==> a.key in r.annotations && r.annotations[a.key] == a.value)
       <==> (forall i :: 0 <= i < |c.hasAnnotations| ==> MeetsAnnotation(r, c.hasAnnotations[i]))
    ensures (forall f :: f in c.and ==> FieldHolds(r, f))
       <==> (forall i :: 0 <= i < |c.and| ==> FieldHolds(r, c.and[i]))
  {
    hide LabelHolds, FieldHolds;
  }

  /** Everything that a policy asks of a resource but its age. */
  ghost predicate Meant(lib: Library, r: Resource, spec: Spec) {
    Selected(lib, r, spec.target) && (spec.conditions.Some? ==> ConditionsHold(r, spec.conditions.value))
  }

  // -------------------------------------------------------------- behaviour

  /** The rate of a policy, ten a second when it gives none. */
  function Rate(b: Behavior): int64 {
    if b.maxDeletionsPerSecond > 0 then b.maxDeletionsPerSecond else 10
  }

  predicate IsRate(rate: int64, b: Behavior) {
    rate == Rate(b)
  }

  /** The propagation that the policy names, "Background" when it names none of the others; and its grace period. */
  predicate AsAsked(options: DeleteOptions, b: Behavior) {
    && (options.propagation == "Foreground" <==> b.propagationPolicy == "Foreground")
    && (options.propagation == "Orphan" <==> b.propagationPolicy == "Orphan")
    && options.propagation in {"Foreground", "Orphan", "Background"}
    && options.gracePeriodSeconds == b.gracePeriodSeconds
  }

  /** The batch size of a policy; when it gives none, the controller's own, or fifty without a configuration. */
  function BatchSize(b: Behavior, cfg: Option<ControllerConfig>): int64 {
    if b.batchSize > 0 then b.batchSize else if cfg.None? then 50 else cfg.value.batchSize
  }

  lemma BehaviorAsAsked(b: Behavior)
    ensures IsRate(RequestedRate(b), b) && AsAsked(BuildDeleteOptions(b), b)
    ensures forall cfg :: ResolveBatchSize(b, cfg) == BatchSize(b, cfg)
  {
  }

  /** An informer of the target's kind, in its namespace, or in all of them for "" and "*". */
  predicate WatchesFor(informer: Informer, t: Target) {
    && informer.apiVersion == t.apiVersion && informer.kind == t.kind
    && (informer.namespace == "" <==> t.namespace == "" || t.namespace == "*")
    && (informer.namespace != "" ==> informer.namespace == t.namespace)
  }
}
