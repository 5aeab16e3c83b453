/**
 When a resource expires (internal/ttl/evaluator.go), and the verdict built on it
 (shouldDelete in pkg/controller/evaluate_policy_refactored.go).

 Instants count nanoseconds from Go's zero time, so that IsZero is equality with 0.
 */
module Ttl {
  import opened Int64
  import opened Wrappers
  import opened Policies
  import FieldPath

  const SECOND: int := 1_000_000_000

  datatype TtlError =
    | NoValidConfiguration
    | FieldPathNotFound
    | NoMappingForValue
    | TimestampNotFound
    | InvalidTimestamp
    | RelativeTtlExpired

  datatype Expiration = At(instant: int) | Failed(error: TtlError)

  /** base.Add(time.Duration(seconds) * time.Second) */
  function AddSeconds(base: int, seconds: int64): int {
    base + Wrap((seconds as int) * SECOND)
  }

  /** The modes that read a field: a number of seconds, or a string that is mapped to one. */
  function FromField(r: Resource, spec: TtlSpec): Expiration {
    var path := FieldPath.Parse(spec.fieldPath);
    var number := NestedInt64(r.content, path);
    var text := NestedString(r.content, path);
    if number.Some? then At(AddSeconds(r.creation, number.value))
    else if text.Some? && spec.mappings != map[] then
      if text.value in spec.mappings then At(AddSeconds(r.creation, spec.mappings[text.value]))
      else if spec.default.Some? then At(AddSeconds(r.creation, spec.default.value))
      else Failed(NoMappingForValue)
    else if text.None? && spec.default.Some? then At(AddSeconds(r.creation, spec.default.value))
    else Failed(FieldPathNotFound)
  }

  /** The timestamp that a relative TTL starts from. */
  function RelativeBase(lib: Library, r: Resource, spec: TtlSpec): Option<int> {
    var text := NestedString(r.content, FieldPath.Parse(spec.relativeTo));
    if text.Some? then lib.instant(text.value) else None
  }

  predicate IsRelative(spec: TtlSpec) {
    spec.secondsAfterCreation.None? && spec.fieldPath == "" && spec.relativeTo != "" && spec.secondsAfter.Some?
  }

  /** Whether CalculateExpirationTime gets as far as reading the clock. */
  predicate ReadsClock(lib: Library, r: Resource, spec: TtlSpec) {
    IsRelative(spec) && RelativeBase(lib, r, spec).Some?
  }

  /** now is the clock reading made when ReadsClock. */
  function CalculateExpirationTime(lib: Library, r: Resource, spec: TtlSpec, now: int): Expiration {
    if spec.secondsAfterCreation.Some? then At(AddSeconds(r.creation, spec.secondsAfterCreation.value))
    else if spec.fieldPath != "" then FromField(r, spec)
    else if spec.relativeTo != "" && spec.secondsAfter.Some? then
      var text := NestedString(r.content, FieldPath.Parse(spec.relativeTo));
      if text.None? then Failed(TimestampNotFound)
      else
        var timestamp := lib.instant(text.value);
        if timestamp.None? then Failed(InvalidTimestamp)
        else
          var expiration := AddSeconds(timestamp.value, spec.secondsAfter.value);
          if now > expiration then Failed(RelativeTtlExpired) else At(expiration)
    else Failed(NoValidConfiguration)
  }

  datatype Expired = Answer(expired: bool) | Error(error: TtlError)

  /** first is the reading made by CalculateExpirationTime, second the one made by IsExpired itself. */
  function IsExpired(lib: Library, r: Resource, spec: TtlSpec, first: int, second: int): Expired {
    match CalculateExpirationTime(lib, r, spec, first)
    case Failed(error) => Error(error)
    case At(instant) => Answer(instant != 0 && second > instant)
  }

  datatype Verdict = Verdict(delete: bool, reason: string)

  /** shouldDelete of the evaluation service: by TTL alone. */
  function ShouldDelete(lib: Library, r: Resource, spec: TtlSpec, first: int, second: int): Verdict {
    match CalculateExpirationTime(lib, r, spec, first)
    case Failed(error) =>
      if error == RelativeTtlExpired then Verdict(true, "ttl_expired") else Verdict(false, "no_ttl")
    case At(instant) =>
      if instant == 0 then Verdict(false, "no_ttl")
      else if second > instant then Verdict(true, "ttl_expired")
      else Verdict(false, "not_expired")
  }

  // ---------------------------------------------------------- the meaning

  /** The TTL that applies: so many seconds after an instant. */
  datatype Lifetime = Lifetime(base: int, seconds: int64) | NoLifetime

  /** The documented precedence: fixed, then by field (number, mapping, default), then relative. */
  function LifetimeOf(lib: Library, r: Resource, spec: TtlSpec): Lifetime {
    var path := FieldPath.Parse(spec.fieldPath);
    if spec.secondsAfterCreation.Some? then Lifetime(r.creation, spec.secondsAfterCreation.value)
    else if spec.fieldPath != "" then
      match Nested(r.content, path)
      case Value(Number(seconds)) =>
        if MIN <= seconds <= MAX then Lifetime(r.creation, seconds) else Default(r, spec)
      case Value(Text(text)) =>
        if text in spec.mappings then Lifetime(r.creation, spec.mappings[text])
        else if spec.mappings != map[] then Default(r, spec)
        else NoLifetime
      case _ => Default(r, spec)
    else if IsRelative(spec) && RelativeBase(lib, r, spec).Some? then
      Lifetime(RelativeBase(lib, r, spec).value, spec.secondsAfter.value)
    else NoLifetime
  }

  function Default(r: Resource, spec: TtlSpec): Lifetime {
    if spec.default.Some? then Lifetime(r.creation, spec.default.value) else NoLifetime
  }

  /** The durations in seconds whose nanoseconds fit in an int64. */
  predicate Representable(seconds: int) {
    -9_223_372_036 <= seconds <= 9_223_372_036
  }

  /** The nanosecond product is exact exactly for the representable durations; otherwise it wraps at 64 bits. */
  lemma AddSecondsExact(base: int, seconds: int64)
    ensures AddSeconds(base, seconds) == base + seconds * SECOND <==> Representable(seconds)
    ensures MIN <= AddSeconds(base, seconds) - base <= MAX
    ensures (base + seconds * SECOND - AddSeconds(base, seconds)) % 0x1_0000_0000_0000_0000 == 0
  {
  }

  /** A resource is expired at an instant: it has a lifetime, and the instant is after its end. */
  predicate ExpiredAt(lib: Library, r: Resource, spec: TtlSpec, now: int) {
    var l := LifetimeOf(lib, r, spec);
    && l.Lifetime?
    && now > AddSeconds(l.base, l.seconds)
    && (AddSeconds(l.base, l.seconds) != 0 || IsRelative(spec))
  }

  /**
   Both readings of the clock amount to the last one made, in every mode: a relative TTL that
   signals expiry as an error is deleted just when a single reading says so.
   */
  lemma ShouldDeleteMeaning(lib: Library, r: Resource, spec: TtlSpec, first: int, second: int)
    requires first <= second
    ensures
      var last := if ReadsClock(lib, r, spec) && ExpiredAt(lib, r, spec, first) then first else second;
      var l := LifetimeOf(lib, r, spec);
      var zero := l.Lifetime? && AddSeconds(l.base, l.seconds) == 0;
      && (!zero ==> ShouldDelete(lib, r, spec, first, second).delete == ExpiredAt(lib, r, spec, last))
      && (!zero ==> ShouldDelete(lib, r, spec, first, second).delete == ExpiredAt(lib, r, spec, second))
      && (zero ==> ShouldDelete(lib, r, spec, first, second).delete == (IsRelative(spec) && first > 0))
  {
    hide AddSeconds, Nested, FieldPath.Parse;
  }

  /** One reading of the clock deletes exactly what is expired by it. */
  lemma ExpiredByOneReading(lib: Library, r: Resource, spec: TtlSpec, now: int)
    ensures ShouldDelete(lib, r, spec, now, now).delete <==> ExpiredAt(lib, r, spec, now)
  {
    ShouldDeleteMeaning(lib, r, spec, now, now);
    hide AddSeconds, Nested, ShouldDelete;
  }

  /** Why: deleted because expired, or not expired yet, or without an expiry. */
  lemma VerdictsGiveTheirReason(lib: Library, r: Resource, spec: TtlSpec, first: int, second: int)
    requires first <= second
    ensures
      var v := ShouldDelete(lib, r, spec, first, second);
      var l := LifetimeOf(lib, r, spec);
      var never := l.NoLifetime? || AddSeconds(l.base, l.seconds) == 0;
      && v.reason in {"ttl_expired", "not_expired", "no_ttl"}
      && (v.delete <==> v.reason == "ttl_expired")
      && (!v.delete ==> (v.reason == "no_ttl" <==> never))
  {
    hide AddSeconds, Nested, FieldPath.Parse;
  }

  /** What is at a path is a string. */
  predicate HasText(r: Resource, path: string) {
    var walk := Nested(r.content, FieldPath.Parse(path));
    walk.Value? && walk.value.Text?
  }

  /** An expiry is given exactly for a lifetime that has not run out in relative mode; each error has its own cause. */
  lemma ErrorsSayWhy(lib: Library, r: Resource, spec: TtlSpec, now: int)
    ensures
      var c := CalculateExpirationTime(lib, r, spec, now);
      var l := LifetimeOf(lib, r, spec);
      var byField := spec.secondsAfterCreation.None? && spec.fieldPath != "";
      var unmapped := HasText(r, spec.fieldPath) && spec.mappings != map[];
      var over := IsRelative(spec) && l.Lifetime? && now > AddSeconds(l.base, l.seconds);
      && (c.At? <==> l.Lifetime? && !over)
      && (c.At? ==> c.instant == AddSeconds(l.base, l.seconds))
      && (c == Failed(RelativeTtlExpired) <==> over)
      && (c == Failed(NoMappingForValue) <==> byField && l.NoLifetime? && unmapped)
      && (c == Failed(FieldPathNotFound) <==> byField && l.NoLifetime? && !unmapped)
      && (c == Failed(TimestampNotFound) <==> IsRelative(spec) && !HasText(r, spec.relativeTo))
      && (c == Failed(InvalidTimestamp) <==> IsRelative(spec) && l.NoLifetime? && HasText(r, spec.relativeTo))
      && (c == Failed(NoValidConfiguration) <==>
            spec.secondsAfterCreation.None? && spec.fieldPath == "" && !IsRelative(spec))
  {
    hide AddSeconds, Nested, FieldPath.Parse;
  }

  /** Time only brings a resource closer to deletion. */
  lemma ShouldDeleteIsMonotone(lib: Library, r: Resource, spec: TtlSpec,
                               first: int, second: int, later: int, latest: int)
    requires first <= second && first <= later && second <= latest && later <= latest
    requires ShouldDelete(lib, r, spec, first, second).delete
    ensures ShouldDelete(lib, r, spec, later, latest).delete
  {
    hide AddSeconds, Nested, FieldPath.Parse;
    ShouldDeleteMeaning(lib, r, spec, first, second);
    ShouldDeleteMeaning(lib, r, spec, later, latest);
  }

  /** IsExpired and the verdict differ exactly when a relative TTL has run out: there IsExpired reports an error. */
  lemma IsExpiredAgrees(lib: Library, r: Resource, spec: TtlSpec, first: int, second: int)
    ensures
      IsExpired(lib, r, spec, first, second) == Error(RelativeTtlExpired)
      <==> ReadsClock(lib, r, spec) && first > AddSeconds(RelativeBase(lib, r, spec).value, spec.secondsAfter.value)
    ensures
      IsExpired(lib, r, spec, first, second) != Error(RelativeTtlExpired) ==>
        (IsExpired(lib, r, spec, first, second) == Answer(true) <==> ShouldDelete(lib, r, spec, first, second).delete)
    ensures
      IsExpired(lib, r, spec, first, second) == Error(RelativeTtlExpired) ==>
        ShouldDelete(lib, r, spec, first, second).delete
  {
    hide AddSeconds, Nested, FieldPath.Parse;
  }

  /**
   A fixed TTL is honoured, at every creation time and every clock reading, exactly when its
   nanoseconds fit: beyond that the product wraps, and a TTL of centuries deletes at once.
   */
  lemma FixedTtlHonouredWhenRepresentable(lib: Library, r: Resource, spec: TtlSpec)
    requires spec.secondsAfterCreation.Some?
    ensures
      (forall creation, now | AddSeconds(creation, spec.secondsAfterCreation.value) != 0 ::
        ShouldDelete(lib, r.(creation := creation), spec, now, now).delete
        == (now > creation + spec.secondsAfterCreation.value * SECOND))
      <==> Representable(spec.secondsAfterCreation.value)
  {
    var seconds := spec.secondsAfterCreation.value;
    AddSecondsExact(0, seconds);
    if !Representable(seconds) {
      var shift := AddSeconds(0, seconds);
      var creation := if shift == -1 then 2 else 1;
      assert AddSeconds(creation, seconds) == creation + shift != 0;
      var promised := creation + seconds * SECOND;
      var now := if creation + shift < promised then promised else creation + shift;
      assert ShouldDelete(lib, r.(creation := creation), spec, now, now).delete == (now > creation + shift);
    } else {
      forall creation, now | AddSeconds(creation, seconds) != 0
        ensures ShouldDelete(lib, r.(creation := creation), spec, now, now).delete == (now > creation + seconds * SECOND)
      {
        AddSecondsExact(creation, seconds);
      }
    }
  }
}
