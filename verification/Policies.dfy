/**
 Policies, resources, and the pure decisions about one resource: selectors, conditions,
 batch size, rate and delete options (pkg/controller/shared.go, pkg/controller/batch_config.go,
 pkg/controller/reconciler_helpers.go).
 */
module Policies {
  import opened Int64
  import opened Wrappers
  import FieldPath

  // ------------------------------------------------------------ JSON trees

  datatype Json =
    | Null
    | Boolean(truth: bool)
    | Number(number: int)
    | Text(text: string)
    | List(items: seq<Json>)
    | Obj(fields: map<string, Json>)

  /** The outcome of walking a path: a missing member, a step into something that is no object, or a value. */
  datatype Walk = Absent | Mismatch | Value(value: Json)

  /** unstructured.NestedFieldNoCopy */
  function Nested(j: Json, path: seq<string>): Walk {
    if path == [] then Value(j)
    else
      match j
      case Null => Absent
      case Obj(fields) => if path[0] in fields then Nested(fields[path[0]], path[1..]) else Absent
      case _ => Mismatch
  }

  /** unstructured.NestedString, its error and its absence both being None. */
  function NestedString(j: Json, path: seq<string>): Option<string> {
    match Nested(j, path)
    case Value(Text(s)) => Some(s)
    case _ => None
  }

  /** unstructured.NestedInt64, its error and its absence both being None. */
  function NestedInt64(j: Json, path: seq<string>): Option<int64> {
    match Nested(j, path)
    case Value(Number(i)) => if MIN <= i <= MAX then Some(i) else None
    case _ => None
  }

  // -------------------------------------------------------------- entities

  datatype Requirement = Requirement(key: string, operator: string, values: seq<string>)

  datatype LabelSelector = LabelSelector(matchLabels: map<string, string>, matchExpressions: seq<Requirement>)

  datatype Target = Target(
    apiVersion: string,
    kind: string,
    namespace: string,
    labelSelector: Option<LabelSelector>,
    fieldSelector: Option<map<string, string>>)

  datatype TtlSpec = TtlSpec(
    secondsAfterCreation: Option<int64>,
    fieldPath: string,
    mappings: map<string, int64>,
    default: Option<int64>,
    relativeTo: string,
    secondsAfter: Option<int64>)

  datatype LabelCondition = LabelCondition(key: string, value: string, operator: string)

  datatype AnnotationCondition = AnnotationCondition(key: string, value: string)

  datatype FieldCondition = FieldCondition(fieldPath: string, operator: string, value: string, values: seq<string>)

  datatype Conditions = Conditions(
    phase: seq<string>,
    hasLabels: seq<LabelCondition>,
    hasAnnotations: seq<AnnotationCondition>,
    and: seq<FieldCondition>)

  datatype Behavior = Behavior(
    maxDeletionsPerSecond: int64,
    batchSize: int64,
    dryRun: bool,
    finalizer: string,
    propagationPolicy: string,
    gracePeriodSeconds: Option<int64>)

  datatype Spec = Spec(
    target: Target,
    ttl: TtlSpec,
    conditions: Option<Conditions>,
    behavior: Behavior,
    evaluationInterval: Option<int64>,
    paused: bool)

  datatype Policy = Policy(uid: string, spec: Spec)

  type JsonObject = j: Json | j.Obj? witness Obj(map[])

  /** An unstructured object, with the parts of its metadata that the controller reads through accessors. */
  datatype Resource = Resource(
    uid: string,
    namespace: string,
    name: string,
    creation: int,
    labels: map<string, string>,
    annotations: map<string, string>,
    content: JsonObject)

  /** What the controller takes from libraries: label selection (false when the selector is invalid) and RFC 3339. */
  datatype Library = Library(
    selects: (LabelSelector, map<string, string>) -> bool,
    instant: string -> Option<int>)

  // ------------------------------------------------------------- selectors

  function NormalNamespace(namespace: string): string {
    if namespace == "" then "*" else namespace
  }

  predicate InNamespace(r: Resource, namespace: string) {
    namespace == "*" || r.namespace == namespace
  }

  predicate MatchesField(r: Resource, path: string, value: string) {
    NestedString(r.content, FieldPath.Split(path)) == Some(value)
  }

  predicate MatchesSelectors(lib: Library, r: Resource, t: Target) {
    && InNamespace(r, NormalNamespace(t.namespace))
    && (t.labelSelector.Some? ==> lib.selects(t.labelSelector.value, r.labels))
    && (t.fieldSelector.Some? ==>
          forall key :: key in t.fieldSelector.value ==> MatchesField(r, key, t.fieldSelector.value[key]))
  }

  // ------------------------------------------------------------ conditions

  predicate MeetsPhase(r: Resource, phases: seq<string>) {
    phases == [] ||
    var phase := NestedString(r.content, ["status", "phase"]);
    phase.Some? && phase.value in phases
  }

  predicate MeetsLabel(r: Resource, c: LabelCondition) {
    var present := c.key in r.labels;
    match c.operator
    case "Exists" => present
    case "Equals" => present && r.labels[c.key] == c.value
    case "" => present && r.labels[c.key] == c.value
    case "In" => present && c.value != "" && r.labels[c.key] == c.value
    case "NotIn" => !present || r.labels[c.key] != c.value
    case _ => false
  }

  predicate MeetsAnnotation(r: Resource, c: AnnotationCondition) {
    c.key in r.annotations && r.annotations[c.key] == c.value
  }

  predicate MatchesOperator(value: string, c: FieldCondition) {
    match c.operator
    case "Equals" => value == c.value
    case "NotEquals" => value != c.value
    case "In" => value in c.values
    case "NotIn" => value !in c.values
    case _ => false
  }

  predicate MeetsField(r: Resource, c: FieldCondition) {
    var value := NestedString(r.content, FieldPath.Split(c.fieldPath));
    value.Some? && MatchesOperator(value.value, c)
  }

  predicate MeetsConditions(r: Resource, c: Conditions) {
    && MeetsPhase(r, c.phase)
    && (forall i :: 0 <= i < |c.hasLabels| ==> MeetsLabel(r, c.hasLabels[i]))
    && (forall i :: 0 <= i < |c.hasAnnotations| ==> MeetsAnnotation(r, c.hasAnnotations[i]))
    && (forall i :: 0 <= i < |c.and| ==> MeetsField(r, c.and[i]))
  }

  // -------------------------------------------------------------- settings

  const DEFAULT_BATCH_SIZE: int64 := 50
  const DEFAULT_RATE: int64 := 10

  datatype ControllerConfig = ControllerConfig(gcInterval: int64, batchSize: int64)

  /** resolveBatchSize; the controller's config may be missing. */
  function ResolveBatchSize(b: Behavior, cfg: Option<ControllerConfig>): int64 {
    if b.batchSize > 0 then b.batchSize
    else if cfg.Some? then cfg.value.batchSize
    else DEFAULT_BATCH_SIZE
  }

  /** The rate that a policy asks of its limiter. */
  function RequestedRate(b: Behavior): (rate: int64)
    ensures rate > 0
  {
    if b.maxDeletionsPerSecond > 0 then b.maxDeletionsPerSecond else DEFAULT_RATE
  }

  datatype DeleteOptions = DeleteOptions(gracePeriodSeconds: Option<int64>, propagation: string)

  function Propagation(policy: string): string {
    if policy == "Foreground" || policy == "Orphan" then policy else "Background"
  }

  function BuildDeleteOptions(b: Behavior): DeleteOptions {
    DeleteOptions(b.gracePeriodSeconds, Propagation(b.propagationPolicy))
  }

  /** There is always another string. */
  lemma LongerThanAll(strings: set<string>) returns (t: string)
    ensures t != "" && forall s :: s in strings ==> |s| < |t|
  {
    if strings == {} {
      t := "x";
    } else {
      var s :| s in strings;
      t := LongerThanAll(strings - {s});
      if |s| >= |t| {
        t := s + "x";
      }
    }
  }
}
