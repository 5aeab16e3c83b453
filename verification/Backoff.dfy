/**
 Exponential backoff (internal/backoff/backoff.go).

 Factor and jitter are reals, and conversions to a duration truncate toward zero;
 the rounding of float64 and conversions out of the range of int64 are not modelled.
 */
module Backoff {
  import opened Arith

  datatype Config = Config(steps: int, duration: int, factor: real, jitter: real, cap: int)

  const MILLISECOND: int := 1_000_000

  const DEFAULT: Config := Config(5, 100 * MILLISECOND, 2.0, 0.1, 30_000 * MILLISECOND)

  /** time.Duration(x) */
  function Truncate(x: real): (r: int)
    ensures x >= 0.0 ==> r as real <= x < r as real + 1.0
  {
    if x >= 0.0 then x.Floor else -((-x).Floor)
  }

  function Scale(duration: int, factor: real): real {
    duration as real * factor
  }

  /** One turn of Next's loop: multiply, truncate, clamp. */
  function Grow(cfg: Config, duration: int): int {
    var grown := Truncate(Scale(duration, cfg.factor));
    if grown > cfg.cap then cfg.cap else grown
  }

  /** The duration of a step before jitter. */
  function Raw(cfg: Config, step: nat): int {
    if step == 0 then cfg.duration else Grow(cfg, Raw(cfg, step - 1))
  }

  /** Integer division by two, truncating toward zero. */
  function Half(x: int): int {
    if x >= 0 then x / 2 else -(-x / 2)
  }

  function Jittered(cfg: Config, duration: int): int {
    if cfg.jitter > 0.0 then duration + Half(Truncate(Scale(duration, cfg.jitter))) else duration
  }

  /** What Next returns at a step. */
  function Wait(cfg: Config, step: nat): int {
    if step >= cfg.steps then 0 else Jittered(cfg, Raw(cfg, step))
  }

  class Backoff {
    const cfg: Config
    var step: nat

    constructor (cfg: Config)
      ensures this.cfg == cfg && step == 0
    {
      this.cfg := cfg;
      step := 0;
    }

    method Next() returns (duration: int)
      modifies this
      ensures duration == Wait(cfg, old(step))
      ensures step == if old(step) < cfg.steps then old(step) + 1 else old(step)
    {
      hide Scale, Truncate;
      if step >= cfg.steps {
        return 0;
      }
      duration := cfg.duration;
      for i := 0 to step
        invariant duration == Raw(cfg, i)
      {
        duration := Truncate(Scale(duration, cfg.factor));
        if duration > cfg.cap {
          duration := cfg.cap;
        }
      }
      if cfg.jitter > 0.0 {
        var jitterAmount := Truncate(Scale(duration, cfg.jitter));
        duration := duration + Half(jitterAmount);
      }
      step := step + 1;
    }

    method Reset()
      modifies this
      ensures step == 0
    {
      step := 0;
    }

    predicate IsExhausted()
      reads this
    {
      step >= cfg.steps
    }
  }

  // ---------------------------------------------------------------- lemmas

  /** Growing configurations: a positive start, a positive cap, and a factor that does not shrink. */
  predicate Growing(cfg: Config) {
    cfg.duration > 0 && cfg.cap > 0 && cfg.factor >= 1.0
  }

  lemma ScaleUp(duration: int, factor: real)
    requires duration >= 0 && factor >= 1.0
    ensures Scale(duration, factor) >= duration as real
  {
    RealMulMonotone(1.0, factor, duration as real);
  }

  lemma ScaleBounds(duration: int, most: int, factor: real)
    requires 0 <= duration <= most && factor >= 0.0
    ensures 0.0 <= Scale(duration, factor) <= Scale(most, factor)
  {
    RealMulMonotone(0.0, duration as real, factor);
    RealMulMonotone(duration as real, most as real, factor);
  }

  lemma GrowAtLeast(cfg: Config, duration: int)
    requires duration >= 0 && cfg.factor >= 1.0
    ensures Grow(cfg, duration) >= if duration > cfg.cap then cfg.cap else duration
  {
    ScaleUp(duration, cfg.factor);
  }

  lemma {:induction false} RawBounds(cfg: Config, step: nat)
    requires Growing(cfg)
    ensures Raw(cfg, step) > 0
    ensures step > 0 ==> Raw(cfg, step) <= cfg.cap
    ensures cfg.duration <= cfg.cap ==> Raw(cfg, step) <= cfg.cap
  {
    if step > 0 {
      hide Grow;
      RawBounds(cfg, step - 1);
      GrowAtLeast(cfg, Raw(cfg, step - 1));
      GrowAtMost(cfg, Raw(cfg, step - 1));
    }
  }

  lemma GrowAtMost(cfg: Config, duration: int)
    ensures Grow(cfg, duration) <= cfg.cap
  {
  }

  lemma {:induction false} RawClimbs(cfg: Config, lo: nat, hi: nat)
    requires Growing(cfg) && cfg.duration <= cfg.cap && lo <= hi
    ensures Raw(cfg, lo) <= Raw(cfg, hi)
    decreases hi
  {
    if lo < hi {
      hide Grow;
      RawClimbs(cfg, lo, hi - 1);
      RawBounds(cfg, hi - 1);
      GrowAtLeast(cfg, Raw(cfg, hi - 1));
    }
  }

  /** Steps never wait less than earlier ones exactly when the first, which is not clamped, is within the cap. */
  lemma NonDecreasingWhenStartsWithinCap(cfg: Config)
    requires Growing(cfg)
    ensures (forall lo: nat, hi: nat | lo <= hi :: Raw(cfg, lo) <= Raw(cfg, hi)) <==> cfg.duration <= cfg.cap
  {
    if cfg.duration <= cfg.cap {
      forall lo: nat, hi: nat | lo <= hi
        ensures Raw(cfg, lo) <= Raw(cfg, hi)
      {
        RawClimbs(cfg, lo, hi);
      }
    } else {
      RawBounds(cfg, 1);
      assert Raw(cfg, 1) < Raw(cfg, 0);
    }
  }

  function Power(base: nat, exponent: nat): nat {
    if exponent == 0 then 1 else base * Power(base, exponent - 1)
  }

  function Min(a: int, b: int): int {
    if a <= b then a else b
  }

  lemma GrowInteger(cfg: Config, factor: nat, duration: int)
    requires duration >= 0 && cfg.factor == factor as real
    ensures Grow(cfg, duration) == Min(cfg.cap, duration * factor)
  {
    assert duration as real * factor as real == (duration * factor) as real;
  }

  lemma ClampOnce(cap: int, duration: int, power: nat, factor: nat)
    requires cap > 0 && factor >= 1
    ensures Min(cap, Min(cap, duration * power) * factor) == Min(cap, duration * (factor * power))
  {
    var reached := duration * power;
    assert duration * (factor * power) == reached * factor;
    if reached > cap {
      MulMonotone(cap, reached, factor);
      MulMonotone(1, factor, cap);
    }
  }

  /** With a whole factor, clamping inside the loop is clamping once at the end: for every start and every step. */
  lemma {:induction false} ClosedForm(cfg: Config, factor: nat, step: nat)
    requires Growing(cfg) && cfg.factor == factor as real
    ensures Raw(cfg, step) == if step == 0 then cfg.duration else Min(cfg.cap, cfg.duration * Power(factor, step))
  {
    if step == 1 {
      GrowInteger(cfg, factor, cfg.duration);
      assert Power(factor, 1) == factor * Power(factor, 0) == factor;
    } else if step > 1 {
      hide Grow;
      ClosedForm(cfg, factor, step - 1);
      RawBounds(cfg, step - 1);
      GrowInteger(cfg, factor, Raw(cfg, step - 1));
      ClampOnce(cfg.cap, cfg.duration, Power(factor, step - 1), factor);
    }
  }

  /** Next is zero exactly when the steps are used up, so the zero-duration exit of a retry loop is never the first. */
  lemma WaitZeroOnlyWhenExhausted(cfg: Config, step: nat)
    requires Growing(cfg)
    ensures Wait(cfg, step) == 0 <==> step >= cfg.steps
    ensures Wait(cfg, step) >= 0
  {
    hide Scale, Raw;
    RawBounds(cfg, step);
    if cfg.jitter > 0.0 {
      ScaleBounds(Raw(cfg, step), Raw(cfg, step), cfg.jitter);
    }
  }

  /** The cap and half its jitter. */
  function LongestWait(cfg: Config): real {
    cfg.cap as real + Scale(cfg.cap, cfg.jitter) / 2.0
  }

  /** A wait is at most the cap and half its jitter. */
  lemma WaitBound(cfg: Config, step: nat)
    requires Growing(cfg) && cfg.duration <= cfg.cap && cfg.jitter >= 0.0
    ensures 0.0 <= Wait(cfg, step) as real <= LongestWait(cfg)
  {
    hide Scale, Raw;
    RawBounds(cfg, step);
    ScaleBounds(Raw(cfg, step), cfg.cap, cfg.jitter);
  }

  /** The sum of the first n waits of a new Backoff. */
  function TotalWait(cfg: Config, n: nat): int {
    if n == 0 then 0 else TotalWait(cfg, n - 1) + Wait(cfg, n - 1)
  }

  lemma {:induction false} TotalWaitBound(cfg: Config, n: nat)
    requires Growing(cfg) && cfg.duration <= cfg.cap && cfg.jitter >= 0.0 && cfg.steps >= 0
    ensures TotalWait(cfg, n) as real <= Min(n, cfg.steps) as real * LongestWait(cfg)
  {
    hide Wait, LongestWait;
    if n > 0 {
      var bound := LongestWait(cfg);
      TotalWaitBound(cfg, n - 1);
      WaitBound(cfg, n - 1);
      WaitZeroOnlyWhenExhausted(cfg, n - 1);
      if n - 1 < cfg.steps {
        assert n as real * bound == (n - 1) as real * bound + bound;
      }
    }
  }

  /** The controller's own configuration: five waits, 3.255 seconds in all. */
  lemma DefaultWaits()
    ensures Growing(DEFAULT) && DEFAULT.duration <= DEFAULT.cap
    ensures Wait(DEFAULT, 0) == 105 * MILLISECOND
    ensures Wait(DEFAULT, 4) == 1680 * MILLISECOND
    ensures forall n: nat | n >= 5 :: TotalWait(DEFAULT, n) == 3255 * MILLISECOND
  {
    forall step: nat | step < 5
      ensures Wait(DEFAULT, step) == Power(2, step) * 105 * MILLISECOND
    {
      DefaultWait(step);
    }
    assert Power(2, 0) == 1 && Power(2, 1) == 2 && Power(2, 2) == 4;
    assert Power(2, 3) == 2 * Power(2, 2) && Power(2, 4) == 2 * Power(2, 3);
    forall n: nat | n >= 5
      ensures TotalWait(DEFAULT, n) == 3255 * MILLISECOND
    {
      TotalStops(n);
      TotalOfFive(DEFAULT);
    }
  }

  lemma DefaultWait(step: nat)
    requires step < 5
    ensures Wait(DEFAULT, step) == Power(2, step) * 105 * MILLISECOND
  {
    ClosedForm(DEFAULT, 2, step);
    assert Power(2, step) in {1, 2, 4, 8, 16} by {
      assert Power(2, 0) == 1 && Power(2, 1) == 2 && Power(2, 2) == 4;
      assert Power(2, 3) == 2 * Power(2, 2) && Power(2, 4) == 2 * Power(2, 3);
    }
  }

  lemma {:induction false} TotalStops(n: nat)
    requires n >= 5
    ensures TotalWait(DEFAULT, n) == TotalWait(DEFAULT, 5)
  {
    hide Wait;
    if n > 5 {
      TotalStops(n - 1);
      WaitZeroOnlyWhenExhausted(DEFAULT, n - 1);
    }
  }

  lemma TotalOfFive(cfg: Config)
    ensures TotalWait(cfg, 5) == Wait(cfg, 0) + Wait(cfg, 1) + Wait(cfg, 2) + Wait(cfg, 3) + Wait(cfg, 4)
  {
    hide Wait;
    assert TotalWait(cfg, 1) == Wait(cfg, 0);
    assert TotalWait(cfg, 2) == Wait(cfg, 0) + Wait(cfg, 1);
    assert TotalWait(cfg, 3) == Wait(cfg, 0) + Wait(cfg, 1) + Wait(cfg, 2);
  }
}
