/**
 The admission webhook's defaulting (mutatePolicy in pkg/webhook/webhook.go) on JSON trees,
 and the validation that follows it (pkg/validation/validator.go).

 The webhook looks at the decoded policy, where a missing member, a null and a zero value are
 the same, but its patches are applied to the raw document.
 */
module Admission {
  import opened Int64
  import opened Wrappers
  import opened Policies

  // --------------------------------------------------------------- patches

  /** An "add" operation; the path is split into reference tokens. */
  datatype Patch = Add(path: seq<string>, value: Json)

  /**
   "add" of section 4.1 of RFC 6902, for tokens that are names: a member is created or
   replaced, its parent has to be there, and a name is no index into an array.
   */
  function ApplyAdd(doc: Json, path: seq<string>, value: Json): Option<Json> {
    if path == [] then Some(value)
    else if !doc.Obj? then None
    else if |path| == 1 then Some(Obj(doc.fields[path[0] := value]))
    else if path[0] !in doc.fields then None
    else
      var inner := ApplyAdd(doc.fields[path[0]], path[1..], value);
      if inner.None? then None else Some(Obj(doc.fields[path[0] := inner.value]))
  }

  /** Section 5 of RFC 6902: in order, and a failing operation fails the whole patch. */
  function Apply(doc: Json, patches: seq<Patch>): Option<Json>
    decreases |patches|
  {
    if patches == [] then Some(doc)
    else
      var next := ApplyAdd(doc, patches[0].path, patches[0].value);
      if next.None? then None else Apply(next.value, patches[1..])
  }

  // -------------------------------------------------------------- decoding

  datatype Decoded<+T> = Ok(value: T) | Bad

  /** A member of a struct: null when it is missing, or when the struct is. */
  function Member(j: Json, name: string): Json {
    if j.Obj? && name in j.fields then j.fields[name] else Null
  }

  predicate IsStruct(j: Json) {
    j.Null? || j.Obj?
  }

  function Integer(j: Json): Decoded<int64> {
    match j
    case Null => Ok(0)
    case Number(n) => if MIN <= n <= MAX then Ok(n) else Bad
    case _ => Bad
  }

  function OptionalInteger(j: Json): Decoded<Option<int64>> {
    match j
    case Null => Ok(None)
    case Number(n) => if MIN <= n <= MAX then Ok(Some(n)) else Bad
    case _ => Bad
  }

  function Truth(j: Json): Decoded<bool> {
    match j
    case Null => Ok(false)
    case Boolean(b) => Ok(b)
    case _ => Bad
  }

  function Characters(j: Json): Decoded<string> {
    match j
    case Null => Ok("")
    case Text(s) => Ok(s)
    case _ => Bad
  }

  function DecodeBehavior(j: Json): Decoded<Behavior> {
    if !IsStruct(j) then Bad
    else
      match (Integer(Member(j, "maxDeletionsPerSecond")), Integer(Member(j, "batchSize")), Truth(Member(j, "dryRun")),
             Characters(Member(j, "finalizer")), Characters(Member(j, "propagationPolicy")),
             OptionalInteger(Member(j, "gracePeriodSeconds")))
      case (Ok(rate), Ok(batch), Ok(dry), Ok(finalizer), Ok(propagation), Ok(grace)) =>
        Ok(Behavior(rate, batch, dry, finalizer, propagation, grace))
      case _ => Bad
  }

  /** What the webhook and the validation look at in a policy; the selector and the TTL stay raw. */
  datatype Admitted = Admitted(
    apiVersion: string,
    kind: string,
    namespace: string,
    labelSelector: Json,
    ttl: Json,
    behavior: Behavior)

  function DecodeParts(doc: Json): Decoded<Admitted> {
    var spec := Member(doc, "spec");
    var target := Member(spec, "targetResource");
    if !IsStruct(doc) || !IsStruct(spec) || !IsStruct(target) then Bad
    else
      match (Characters(Member(target, "apiVersion")), Characters(Member(target, "kind")),
             Characters(Member(target, "namespace")), DecodeBehavior(Member(spec, "behavior")))
      case (Ok(apiVersion), Ok(kind), Ok(namespace), Ok(behavior)) =>
        Ok(Admitted(apiVersion, kind, namespace, Member(target, "labelSelector"), Member(spec, "ttl"), behavior))
      case _ => Bad
  }

  /** The document without the members that the webhook may write to. */
  function Rest(doc: Json): Json {
    if !Member(doc, "spec").Obj? then doc
    else
      var spec := doc.fields["spec"].fields - {"behavior"};
      var target := Member(doc.fields["spec"], "targetResource");
      Obj(doc.fields["spec" := Obj(
        if target.Obj? then spec["targetResource" := Obj(target.fields - {"namespace"})] else spec)])
  }

  /** The decoder; others says whether the rest of a document decodes. */
  function Decode(others: Json -> bool, doc: Json): Decoded<Admitted> {
    if others(Rest(doc)) then DecodeParts(doc) else Bad
  }

  /** A value that a document writes down, or leaves out when it is the zero one. */
  predicate Writes(j: Json, value: Json, isZero: bool) {
    j == value || (j == Null && isZero)
  }

  predicate WritesBehavior(j: Json, b: Behavior) {
    && (j == Null || j.Obj?)
    && Writes(Member(j, "maxDeletionsPerSecond"), Number(b.maxDeletionsPerSecond), b.maxDeletionsPerSecond == 0)
    && Writes(Member(j, "batchSize"), Number(b.batchSize), b.batchSize == 0)
    && Writes(Member(j, "dryRun"), Boolean(b.dryRun), !b.dryRun)
    && Writes(Member(j, "finalizer"), Text(b.finalizer), b.finalizer == "")
    && Writes(Member(j, "propagationPolicy"), Text(b.propagationPolicy), b.propagationPolicy == "")
    && (match b.gracePeriodSeconds
        case None => Member(j, "gracePeriodSeconds") == Null
        case Some(seconds) => Member(j, "gracePeriodSeconds") == Number(seconds))
  }

  /** A document that writes a policy down. */
  predicate WritesPolicy(doc: Json, p: Admitted) {
    var spec := Member(doc, "spec");
    var target := Member(spec, "targetResource");
    && (doc == Null || doc.Obj?) && (spec == Null || spec.Obj?) && (target == Null || target.Obj?)
    && Writes(Member(target, "apiVersion"), Text(p.apiVersion), p.apiVersion == "")
    && Writes(Member(target, "kind"), Text(p.kind), p.kind == "")
    && Writes(Member(target, "namespace"), Text(p.namespace), p.namespace == "")
    && Member(target, "labelSelector") == p.labelSelector
    && Member(spec, "ttl") == p.ttl
    && WritesBehavior(Member(spec, "behavior"), p.behavior)
  }

  lemma BehaviorDecodesExactly(j: Json, b: Behavior)
    ensures DecodeBehavior(j) == Ok(b) <==> WritesBehavior(j, b)
  {
    hide Member;
  }

  /** A document decodes to a policy exactly when it writes it down, member by member. */
  lemma DecodesExactly(doc: Json, p: Admitted)
    ensures DecodeParts(doc) == Ok(p) <==> WritesPolicy(doc, p)
  {
    hide Member, DecodeBehavior, WritesBehavior;
    BehaviorDecodesExactly(Member(Member(doc, "spec"), "behavior"), p.behavior);
  }

  lemma SameMember(a: map<string, Json>, b: map<string, Json>, path: seq<string>)
    requires path != [] && (path[0] in a <==> path[0] in b)
    requires path[0] in a ==> Nested(a[path[0]], path[1..]) == Nested(b[path[0]], path[1..])
    ensures Nested(Obj(a), path) == Nested(Obj(b), path)
  {
  }

  /** What is off the paths that the webhook may write to is all in the rest, where it was. */
  lemma RestIsElsewhere(doc: Json, path: seq<string>)
    requires !(BEHAVIOR <= path) && !(path <= BEHAVIOR) && !(NAMESPACE <= path) && !(path <= NAMESPACE)
    ensures Nested(Rest(doc), path) == Nested(doc, path)
  {
    hide Nested;
    if Member(doc, "spec").Obj? {
      var spec := doc.fields["spec"].fields;
      var rest := Rest(doc).fields["spec"].fields;
      if path[0] == "spec" {
        var inner := path[1..];
        assert path == ["spec"] + inner;
        if inner[0] == "targetResource" && Member(Obj(spec), "targetResource").Obj? {
          var last := inner[1..];
          assert path == ["spec", "targetResource"] + last;
          SameMember(rest["targetResource"].fields, spec["targetResource"].fields, last);
        }
        SameMember(rest, spec, inner);
      }
      SameMember(Rest(doc).fields, doc.fields, path);
    }
  }

  // -------------------------------------------------------------- mutation

  const BEHAVIOR := ["spec", "behavior"]
  const NAMESPACE := ["spec", "targetResource", "namespace"]

  const NO_BEHAVIOR := Behavior(0, 0, false, "", "", None)

  const DEFAULT_BEHAVIOR := Obj(map[
    "maxDeletionsPerSecond" := Number(10), "batchSize" := Number(50), "propagationPolicy" := Text("Background")])

  function BehaviorPatches(b: Behavior): seq<Patch> {
    if b == NO_BEHAVIOR then [Add(BEHAVIOR, DEFAULT_BEHAVIOR)]
    else
      (if b.maxDeletionsPerSecond == 0 then [Add(BEHAVIOR + ["maxDeletionsPerSecond"], Number(10))] else [])
      + (if b.batchSize == 0 then [Add(BEHAVIOR + ["batchSize"], Number(50))] else [])
      + (if b.propagationPolicy == "" then [Add(BEHAVIOR + ["propagationPolicy"], Text("Background"))] else [])
  }

  function Patches(p: Admitted): seq<Patch> {
    BehaviorPatches(p.behavior) + if p.namespace == "" then [Add(NAMESPACE, Text("*"))] else []
  }

  datatype Operation = Create | Update | Delete | Connect

  /** The webhook's answer: patches for what is created, nothing otherwise, an error for what does not decode. */
  method MutatePolicy(operation: Operation, others: Json -> bool, doc: Json) returns (answer: Decoded<seq<Patch>>)
    ensures !operation.Create? ==> answer == Ok([])
    ensures operation.Create? ==>
      answer == if Decode(others, doc).Ok? then Ok(Patches(Decode(others, doc).value)) else Bad
  {
    if operation != Create {
      return Ok([]);
    }
    var decoded := Decode(others, doc);
    if decoded.Bad? {
      return Bad;
    }
    var p := decoded.value;
    var patches: seq<Patch> := [];
    var hasBehavior :=
      p.behavior.maxDeletionsPerSecond != 0 || p.behavior.batchSize != 0 || p.behavior.dryRun
      || p.behavior.finalizer != "" || p.behavior.propagationPolicy != "" || p.behavior.gracePeriodSeconds.Some?;
    if !hasBehavior {
      patches := patches + [Add(BEHAVIOR, DEFAULT_BEHAVIOR)];
    } else {
      if p.behavior.maxDeletionsPerSecond == 0 {
        patches := patches + [Add(BEHAVIOR + ["maxDeletionsPerSecond"], Number(10))];
      }
      if p.behavior.batchSize == 0 {
        patches := patches + [Add(BEHAVIOR + ["batchSize"], Number(50))];
      }
      if p.behavior.propagationPolicy == "" {
        patches := patches + [Add(BEHAVIOR + ["propagationPolicy"], Text("Background"))];
      }
    }
    assert patches == BehaviorPatches(p.behavior);
    assert patches + [] == patches;
    if p.namespace == "" {
      patches := patches + [Add(NAMESPACE, Text("*"))];
    }
    return Ok(patches);
  }

  // ------------------------------------------------------------ validation

  datatype Refusal =
    | BadTarget | BadNamespace | BadSelector | BadTtl
    | NegativeRate | NegativeBatchSize | BadPropagation | NegativeGracePeriod

  /** The checks made by libraries, and those on parts that the webhook does not touch. */
  datatype Checks = Checks(
    target: (string, string) -> bool,
    isLabel: string -> bool,
    selector: Json -> bool,
    ttl: Json -> bool)

  predicate ValidNamespace(checks: Checks, namespace: string) {
    namespace == "" || namespace == "*" || (!('0' <= namespace[0] <= '9') && checks.isLabel(namespace))
  }

  function ValidateBehavior(b: Behavior): Option<Refusal> {
    if b.maxDeletionsPerSecond < 0 then Some(NegativeRate)
    else if b.batchSize < 0 then Some(NegativeBatchSize)
    else if b.propagationPolicy !in ["", "Foreground", "Background", "Orphan"] then Some(BadPropagation)
    else if b.gracePeriodSeconds.Some? && b.gracePeriodSeconds.value < 0 then Some(NegativeGracePeriod)
    else None
  }

  /** ValidatePolicy: the first refusal, or None. */
  function Validate(checks: Checks, p: Admitted): Option<Refusal> {
    if !checks.target(p.apiVersion, p.kind) then Some(BadTarget)
    else if !ValidNamespace(checks, p.namespace) then Some(BadNamespace)
    else if !p.labelSelector.Null? && !checks.selector(p.labelSelector) then Some(BadSelector)
    else if !checks.ttl(p.ttl) then Some(BadTtl)
    else ValidateBehavior(p.behavior)
  }

  // --------------------------------------------------------------- meaning

  /** The policy with its defaults written out. */
  function FilledBehavior(b: Behavior): Behavior {
    b.(maxDeletionsPerSecond := if b.maxDeletionsPerSecond == 0 then 10 else b.maxDeletionsPerSecond,
       batchSize := if b.batchSize == 0 then 50 else b.batchSize,
       propagationPolicy := if b.propagationPolicy == "" then "Background" else b.propagationPolicy)
  }

  function Filled(p: Admitted): Admitted {
    p.(behavior := FilledBehavior(p.behavior), namespace := if p.namespace == "" then "*" else p.namespace)
  }

  /** The raw document has an object to put a namespace into. */
  predicate HasTarget(doc: Json) {
    Member(Member(doc, "spec"), "targetResource").Obj?
  }

  lemma AddOne(doc: Json, a: string, value: Json)
    ensures ApplyAdd(doc, [a], value) == if doc.Obj? then Some(Obj(doc.fields[a := value])) else None
  {
  }

  lemma AddTwo(doc: Json, a: string, b: string, value: Json)
    ensures ApplyAdd(doc, [a, b], value) ==
      if Member(doc, a).Obj? then Some(Obj(doc.fields[a := Obj(Member(doc, a).fields[b := value])])) else None
  {
    assert [a, b][1..] == [b];
    if doc.Obj? && a in doc.fields {
      AddOne(doc.fields[a], b, value);
    }
  }

  lemma AddThree(doc: Json, a: string, b: string, c: string, value: Json)
    ensures
      var x := Member(doc, a);
      var y := Member(x, b);
      ApplyAdd(doc, [a, b, c], value) ==
        if y.Obj? then Some(Obj(doc.fields[a := Obj(x.fields[b := Obj(y.fields[c := value])])])) else None
  {
    assert [a, b, c][1..] == [b, c];
    if doc.Obj? && a in doc.fields {
      AddTwo(doc.fields[a], b, c, value);
    }
  }

  lemma {:induction false} ApplyAppend(doc: Json, first: seq<Patch>, second: seq<Patch>)
    ensures Apply(doc, first + second) ==
      if Apply(doc, first).None? then None else Apply(Apply(doc, first).value, second)
    decreases |first|
  {
    if first == [] {
      assert first + second == second;
    } else {
      var next := ApplyAdd(doc, first[0].path, first[0].value);
      assert (first + second)[0] == first[0] && (first + second)[1..] == first[1..] + second;
      if next.Some? {
        ApplyAppend(next.value, first[1..], second);
      }
    }
  }

  lemma ApplyOne(doc: Json, patch: Patch)
    ensures Apply(doc, [patch]) == ApplyAdd(doc, patch.path, patch.value)
  {
    assert [patch][1..] == [];
  }

  /** The document with another behavior. */
  function WithBehavior(doc: Json, behavior: Json): Json
    requires Member(doc, "spec").Obj?
  {
    Obj(doc.fields["spec" := Obj(doc.fields["spec"].fields["behavior" := behavior])])
  }

  function BehaviorOf(doc: Json): Json {
    Member(Member(doc, "spec"), "behavior")
  }

  function FillMember(fields: map<string, Json>, missing: bool, name: string, value: Json): map<string, Json> {
    if missing then fields[name := value] else fields
  }

  lemma MemberPatch(doc: Json, missing: bool, name: string, value: Json)
    requires BehaviorOf(doc).Obj?
    ensures
      Apply(doc, if missing then [Add(BEHAVIOR + [name], value)] else [])
      == Some(WithBehavior(doc, Obj(FillMember(BehaviorOf(doc).fields, missing, name, value))))
  {
    if missing {
      assert BEHAVIOR + [name] == ["spec", "behavior", name];
      AddThree(doc, "spec", "behavior", name, value);
      ApplyOne(doc, Add(BEHAVIOR + [name], value));
    } else {
      var spec := doc.fields["spec"];
      assert spec.fields["behavior" := spec.fields["behavior"]] == spec.fields;
      assert doc.fields["spec" := spec] == doc.fields;
    }
  }

  /** The behavior that the patches leave. */
  function FilledJson(behavior: Json, b: Behavior): Json {
    if b == NO_BEHAVIOR || !behavior.Obj? then DEFAULT_BEHAVIOR
    else
      var rate := FillMember(behavior.fields, b.maxDeletionsPerSecond == 0, "maxDeletionsPerSecond", Number(10));
      var batch := FillMember(rate, b.batchSize == 0, "batchSize", Number(50));
      Obj(FillMember(batch, b.propagationPolicy == "", "propagationPolicy", Text("Background")))
  }

  lemma FilledMembers(behavior: Json, b: Behavior)
    requires b != NO_BEHAVIOR && behavior.Obj?
    ensures
      var filled := FilledJson(behavior, b);
      && filled.Obj?
      && Member(filled, "maxDeletionsPerSecond")
         == (if b.maxDeletionsPerSecond == 0 then Number(10) else Member(behavior, "maxDeletionsPerSecond"))
      && Member(filled, "batchSize") == (if b.batchSize == 0 then Number(50) else Member(behavior, "batchSize"))
      && Member(filled, "propagationPolicy")
         == (if b.propagationPolicy == "" then Text("Background") else Member(behavior, "propagationPolicy"))
      && Member(filled, "dryRun") == Member(behavior, "dryRun")
      && Member(filled, "finalizer") == Member(behavior, "finalizer")
      && Member(filled, "gracePeriodSeconds") == Member(behavior, "gracePeriodSeconds")
  {
  }

  lemma FilledJsonDecodes(behavior: Json, b: Behavior)
    requires DecodeBehavior(behavior) == Ok(b)
    ensures DecodeBehavior(FilledJson(behavior, b)) == Ok(FilledBehavior(b))
  {
    if b == NO_BEHAVIOR {
      DefaultDecodes();
    } else {
      hide FilledJson, Member;
      NonZeroIsObject(behavior, b);
      FilledMembers(behavior, b);
    }
  }

  lemma DefaultDecodes()
    ensures DecodeBehavior(DEFAULT_BEHAVIOR) == Ok(FilledBehavior(NO_BEHAVIOR))
  {
    hide DecodeBehavior;
    var d := DEFAULT_BEHAVIOR;
    assert Member(d, "maxDeletionsPerSecond") == Number(10) && Member(d, "batchSize") == Number(50);
    assert Member(d, "propagationPolicy") == Text("Background");
    assert Member(d, "dryRun") == Member(d, "finalizer") == Member(d, "gracePeriodSeconds") == Null;
    DecodeByMembers(d);
  }

  lemma DecodeByMembers(j: Json)
    requires IsStruct(j)
    requires Member(j, "maxDeletionsPerSecond") == Number(10) && Member(j, "batchSize") == Number(50)
    requires Member(j, "propagationPolicy") == Text("Background")
    requires Member(j, "dryRun") == Member(j, "finalizer") == Member(j, "gracePeriodSeconds") == Null
    ensures DecodeBehavior(j) == Ok(FilledBehavior(NO_BEHAVIOR))
  {
    hide Member;
  }

  lemma WithBehaviorTwice(doc: Json, first: Json, second: Json)
    requires Member(doc, "spec").Obj?
    ensures BehaviorOf(WithBehavior(doc, first)) == first
    ensures WithBehavior(WithBehavior(doc, first), second) == WithBehavior(doc, second)
  {
    var spec := doc.fields["spec"].fields;
    assert spec["behavior" := first]["behavior" := second] == spec["behavior" := second];
    var inner := Obj(spec["behavior" := first]);
    var outer := Obj(spec["behavior" := second]);
    assert doc.fields["spec" := inner]["spec" := outer] == doc.fields["spec" := outer];
  }

  lemma BehaviorPatched(doc: Json, b: Behavior)
    requires DecodeBehavior(BehaviorOf(doc)) == Ok(b)
    ensures Apply(doc, BehaviorPatches(b)) ==
      if Member(doc, "spec").Obj? then Some(WithBehavior(doc, FilledJson(BehaviorOf(doc), b))) else None
  {
    hide DecodeBehavior, Apply;
    if b == NO_BEHAVIOR {
      AddTwo(doc, "spec", "behavior", DEFAULT_BEHAVIOR);
      ApplyOne(doc, Add(BEHAVIOR, DEFAULT_BEHAVIOR));
    } else {
      NonZeroIsObject(BehaviorOf(doc), b);
      var fields := BehaviorOf(doc).fields;
      var rate := FillMember(fields, b.maxDeletionsPerSecond == 0, "maxDeletionsPerSecond", Number(10));
      var batch := FillMember(rate, b.batchSize == 0, "batchSize", Number(50));
      var last := FillMember(batch, b.propagationPolicy == "", "propagationPolicy", Text("Background"));
      var first := if b.maxDeletionsPerSecond == 0 then [Add(BEHAVIOR + ["maxDeletionsPerSecond"], Number(10))] else [];
      var second := if b.batchSize == 0 then [Add(BEHAVIOR + ["batchSize"], Number(50))] else [];
      var third := if b.propagationPolicy == "" then [Add(BEHAVIOR + ["propagationPolicy"], Text("Background"))] else [];
      MemberPatch(doc, b.maxDeletionsPerSecond == 0, "maxDeletionsPerSecond", Number(10));
      WithBehaviorTwice(doc, Obj(rate), Obj(batch));
      MemberPatch(WithBehavior(doc, Obj(rate)), b.batchSize == 0, "batchSize", Number(50));
      WithBehaviorTwice(doc, Obj(batch), Obj(last));
      MemberPatch(WithBehavior(doc, Obj(batch)), b.propagationPolicy == "", "propagationPolicy", Text("Background"));
      ApplyAppend(doc, first, second);
      ApplyAppend(doc, first + second, third);
    }
  }

  lemma NonZeroIsObject(j: Json, b: Behavior)
    requires DecodeBehavior(j) == Ok(b) && b != NO_BEHAVIOR
    ensures j.Obj?
  {
  }

  /** An "add" changes nothing off its path. */
  lemma {:induction false} AddElsewhere(doc: Json, path: seq<string>, value: Json, other: seq<string>)
    requires ApplyAdd(doc, path, value).Some?
    requires !(path <= other) && !(other <= path)
    ensures Nested(ApplyAdd(doc, path, value).value, other) == Nested(doc, other)
  {
    if path[0] == other[0] {
      assert [path[0]] + path[1..] == path && [other[0]] + other[1..] == other;
      AddElsewhere(doc.fields[path[0]], path[1..], value, other[1..]);
    }
  }

  ghost predicate Elsewhere(patches: seq<Patch>, other: seq<string>) {
    forall i :: 0 <= i < |patches| ==> !(patches[i].path <= other) && !(other <= patches[i].path)
  }

  /** A patch changes nothing off the paths of its operations. */
  lemma {:induction false} PatchElsewhere(doc: Json, patches: seq<Patch>, other: seq<string>)
    requires Apply(doc, patches).Some? && Elsewhere(patches, other)
    ensures Nested(Apply(doc, patches).value, other) == Nested(doc, other)
    decreases |patches|
  {
    if patches != [] {
      AddElsewhere(doc, patches[0].path, patches[0].value, other);
      PatchElsewhere(ApplyAdd(doc, patches[0].path, patches[0].value).value, patches[1..], other);
    }
  }

  /** The namespace patch on a document whose behavior is already filled. */
  lemma NamespacePatched(doc: Json, p: Admitted)
    requires DecodeParts(doc) == Ok(p)
    ensures
      var patched := Apply(doc, if p.namespace == "" then [Add(NAMESPACE, Text("*"))] else []);
      if HasTarget(doc) then
        && patched.Some?
        && DecodeParts(patched.value) == Ok(p.(namespace := NormalNamespace(p.namespace)))
      else patched.None?
  {
    if p.namespace == "" {
      AddThree(doc, "spec", "targetResource", "namespace", Text("*"));
      ApplyOne(doc, Add(NAMESPACE, Text("*")));
    }
  }

  lemma WithBehaviorDecodes(doc: Json, p: Admitted, behavior: Json, b: Behavior)
    requires DecodeParts(doc) == Ok(p) && Member(doc, "spec").Obj?
    requires DecodeBehavior(behavior) == Ok(b)
    ensures DecodeParts(WithBehavior(doc, behavior)) == Ok(p.(behavior := b))
    ensures HasTarget(WithBehavior(doc, behavior)) == HasTarget(doc)
  {
    hide DecodeBehavior;
  }

  lemma PartsFilled(doc: Json)
    requires DecodeParts(doc).Ok?
    ensures
      var p := DecodeParts(doc).value;
      var patched := Apply(doc, Patches(p));
      && (patched.Some? <==> HasTarget(doc))
      && (patched.Some? ==> DecodeParts(patched.value) == Ok(Filled(p)))
      && (patched.Some? ==> forall other | Elsewhere(Patches(p), other) :: Nested(patched.value, other) == Nested(doc, other))
  {
    hide DecodeParts, DecodeBehavior, Apply, BehaviorPatches, FilledJson, Nested;
    var p := DecodeParts(doc).value;
    BehaviorDecodes(doc);
    BehaviorPatched(doc, p.behavior);
    var rest := if p.namespace == "" then [Add(NAMESPACE, Text("*"))] else [];
    ApplyAppend(doc, BehaviorPatches(p.behavior), rest);
    if Member(doc, "spec").Obj? {
      var filled := FilledJson(BehaviorOf(doc), p.behavior);
      FilledJsonDecodes(BehaviorOf(doc), p.behavior);
      WithBehaviorDecodes(doc, p, filled, FilledBehavior(p.behavior));
      NamespacePatched(WithBehavior(doc, filled), p.(behavior := FilledBehavior(p.behavior)));
      if Apply(doc, Patches(p)).Some? {
        forall other | Elsewhere(Patches(p), other)
          ensures Nested(Apply(doc, Patches(p)).value, other) == Nested(doc, other)
        {
          PatchElsewhere(doc, Patches(p), other);
        }
      }
    }
  }

  lemma BehaviorDecodes(doc: Json)
    requires DecodeParts(doc).Ok?
    ensures DecodeBehavior(BehaviorOf(doc)) == Ok(DecodeParts(doc).value.behavior)
  {
  }

  lemma RestOfBehavior(doc: Json, behavior: Json)
    requires Member(doc, "spec").Obj?
    ensures Rest(WithBehavior(doc, behavior)) == Rest(doc)
  {
    var spec := doc.fields["spec"].fields;
    assert spec["behavior" := behavior] - {"behavior"} == spec - {"behavior"};
    assert Member(Obj(spec["behavior" := behavior]), "targetResource") == Member(Obj(spec), "targetResource");
    var inner, rest := Obj(spec["behavior" := behavior]), Rest(doc).fields["spec"];
    assert doc.fields["spec" := inner]["spec" := rest] == doc.fields["spec" := rest];
  }

  lemma RestOfNamespace(doc: Json)
    requires HasTarget(doc)
    ensures
      var patched := ApplyAdd(doc, NAMESPACE, Text("*"));
      patched.Some? && Rest(patched.value) == Rest(doc)
  {
    AddThree(doc, "spec", "targetResource", "namespace", Text("*"));
    var spec := doc.fields["spec"].fields;
    var target := spec["targetResource"].fields;
    var inner := Obj(target["namespace" := Text("*")]);
    assert target["namespace" := Text("*")] - {"namespace"} == target - {"namespace"};
    var bare := Obj(target - {"namespace"});
    assert (spec["targetResource" := inner] - {"behavior"})["targetResource" := bare]
        == (spec - {"behavior"})["targetResource" := bare];
    var rest := Rest(doc).fields["spec"];
    assert doc.fields["spec" := Obj(spec["targetResource" := inner])]["spec" := rest] == doc.fields["spec" := rest];
  }

  /** The patches leave the rest of the document as it was. */
  lemma RestIsKept(doc: Json)
    requires DecodeParts(doc).Ok? && HasTarget(doc)
    ensures
      var patched := Apply(doc, Patches(DecodeParts(doc).value));
      patched.Some? && Rest(patched.value) == Rest(doc)
  {
    hide DecodeParts, DecodeBehavior, Apply, BehaviorPatches, FilledJson, Rest, ApplyAdd;
    var p := DecodeParts(doc).value;
    BehaviorDecodes(doc);
    BehaviorPatched(doc, p.behavior);
    var last := if p.namespace == "" then [Add(NAMESPACE, Text("*"))] else [];
    ApplyAppend(doc, BehaviorPatches(p.behavior), last);
    var filled := WithBehavior(doc, FilledJson(BehaviorOf(doc), p.behavior));
    RestOfBehavior(doc, FilledJson(BehaviorOf(doc), p.behavior));
    if p.namespace == "" {
      RestOfNamespace(filled);
      ApplyOne(filled, Add(NAMESPACE, Text("*")));
    } else {
      ApplyNone(filled);
    }
  }

  lemma ApplyNone(doc: Json)
    ensures Apply(doc, []) == Some(doc)
  {
  }

  /**
   The patches apply exactly when the document has a target to complete; then the document
   decodes to the policy with its defaults written out, and nothing else in it has changed.
   */
  lemma MutationFillsDefaults(others: Json -> bool, doc: Json)
    requires Decode(others, doc).Ok?
    ensures
      var p := Decode(others, doc).value;
      var patched := Apply(doc, Patches(p));
      && (patched.Some? <==> HasTarget(doc))
      && (patched.Some? ==> Decode(others, patched.value) == Ok(Filled(p)) && Rest(patched.value) == Rest(doc))
      && (patched.Some? ==>
            forall other | Elsewhere(Patches(p), other) :: Nested(patched.value, other) == Nested(doc, other))
  {
    hide DecodeParts, Apply, Rest, Patches, Nested;
    PartsFilled(doc);
    if HasTarget(doc) {
      RestIsKept(doc);
    }
  }

  /** Admitting the patched document again patches nothing. */
  lemma MutationIsIdempotent(others: Json -> bool, doc: Json)
    requires Decode(others, doc).Ok? && HasTarget(doc)
    ensures
      var patched := Apply(doc, Patches(Decode(others, doc).value));
      && patched.Some? && Decode(others, patched.value).Ok?
      && Patches(Decode(others, patched.value).value) == []
  {
    hide Decode, Apply;
    MutationFillsDefaults(others, doc);
  }

  /** What a policy must be to be admitted. */
  ghost predicate Acceptable(checks: Checks, p: Admitted) {
    && checks.target(p.apiVersion, p.kind)
    && (p.namespace in {"", "*"}
        || (checks.isLabel(p.namespace) && p.namespace[0] !in {'0', '1', '2', '3', '4', '5', '6', '7', '8', '9'}))
    && (p.labelSelector == Null || checks.selector(p.labelSelector))
    && checks.ttl(p.ttl)
    && p.behavior.maxDeletionsPerSecond >= 0 && p.behavior.batchSize >= 0
    && p.behavior.propagationPolicy in {"", "Foreground", "Background", "Orphan"}
    && (p.behavior.gracePeriodSeconds == None || p.behavior.gracePeriodSeconds.value >= 0)
  }

  /** Validation admits exactly the acceptable policies. */
  lemma ValidationAccepts(checks: Checks, p: Admitted)
    ensures Validate(checks, p) == None <==> Acceptable(checks, p)
  {
    if p.namespace !in {"", "*"} {
      DigitsAreTen(p.namespace[0]);
    }
  }

  lemma DigitsAreTen(c: char)
    ensures '0' <= c <= '9' <==> c in {'0', '1', '2', '3', '4', '5', '6', '7', '8', '9'}
  {
    if '0' <= c <= '9' {
      assert c as int - '0' as int in {0, 1, 2, 3, 4, 5, 6, 7, 8, 9};
    }
  }

  /** A refusal names something that is wrong. */
  lemma RefusalsAreTrue(checks: Checks, p: Admitted)
    requires Validate(checks, p).Some?
    ensures
      match Validate(checks, p).value
      case BadTarget => !checks.target(p.apiVersion, p.kind)
      case BadNamespace =>
        p.namespace !in {"", "*"} && (!checks.isLabel(p.namespace) || '0' <= p.namespace[0] <= '9')
      case BadSelector => p.labelSelector != Null && !checks.selector(p.labelSelector)
      case BadTtl => !checks.ttl(p.ttl)
      case NegativeRate => p.behavior.maxDeletionsPerSecond < 0
      case NegativeBatchSize => p.behavior.batchSize < 0
      case BadPropagation => p.behavior.propagationPolicy !in {"", "Foreground", "Background", "Orphan"}
      case NegativeGracePeriod => p.behavior.gracePeriodSeconds.Some? && p.behavior.gracePeriodSeconds.value < 0
  {
    ValidationAccepts(checks, p);
  }

  /** Validation gives the patched policy the answer, and the very refusal, that it gives the original. */
  lemma MutationKeepsValidity(checks: Checks, p: Admitted)
    ensures Validate(checks, Filled(p)) == Validate(checks, p)
  {
  }

  /** Fields that the user set are kept. */
  lemma MutationKeepsSettings(p: Admitted)
    ensures
      var b, f := p.behavior, Filled(p).behavior;
      && (b.maxDeletionsPerSecond != 0 ==> f.maxDeletionsPerSecond == b.maxDeletionsPerSecond)
      && (b.batchSize != 0 ==> f.batchSize == b.batchSize)
      && (b.propagationPolicy != "" ==> f.propagationPolicy == b.propagationPolicy)
      && f.dryRun == b.dryRun && f.finalizer == b.finalizer && f.gracePeriodSeconds == b.gracePeriodSeconds
      && (p.namespace != "" ==> Filled(p).namespace == p.namespace)
      && Filled(p) == p.(behavior := f, namespace := Filled(p).namespace)
  {
  }

  /** The policy selects the same resources and deletes them at the same rate, in the same way. */
  lemma MutationKeepsMeaning(lib: Library, r: Resource, t: Target, p: Admitted)
    requires t.namespace == p.namespace
    ensures MatchesSelectors(lib, r, t.(namespace := Filled(p).namespace)) == MatchesSelectors(lib, r, t)
    ensures RequestedRate(Filled(p).behavior) == RequestedRate(p.behavior)
    ensures BuildDeleteOptions(Filled(p).behavior) == BuildDeleteOptions(p.behavior)
  {
  }

  /**
   Writing the default batch size out is harmless exactly when the policy had set one or the
   controller's own is the default: otherwise it overrides the size the controller was configured with.
   */
  lemma MutationKeepsBatchSizeOnlyForDefaultConfig(p: Admitted, cfg: Option<ControllerConfig>)
    ensures ResolveBatchSize(Filled(p).behavior, cfg) == ResolveBatchSize(p.behavior, cfg)
      <==> p.behavior.batchSize != 0 || cfg.None? || cfg.value.batchSize == DEFAULT_BATCH_SIZE
  {
  }
}
