/**
 Counter-based log sampling (Sampler in internal/logging/sampling.go).

 Rates are reals: the rounding of float64 is not modelled. Counters are uint64 and wrap.
 */
module Sampling {
  import opened Arith

  const COUNTERS: int := 0x1_0000_0000_0000_0000

  datatype Rates = Rates(info: real, debug: real, success: real, error: real, warn: real)

  datatype Level = Error | Warn | Info | Debug | Other

  /** One request to log; nanos is the clock's UnixNano, read only when errors or warnings are sampled. */
  datatype Entry = Entry(level: Level, isSuccess: bool, nanos: nat)

  datatype Counters = Counters(info: nat, debug: nat, success: nat)

  function Increment(counter: nat): nat {
    (counter + 1) % COUNTERS
  }

  /** uint64(1.0 / rate) */
  function Threshold(rate: real): (d: nat)
    requires 0.0 < rate < 1.0
    ensures d >= 1
  {
    assert 1.0 / rate >= 1.0;
    (1.0 / rate).Floor
  }

  /** shouldSample: sampling by the clock. */
  function SampleByClock(rate: real, nanos: nat): bool {
    if rate >= 1.0 then true
    else if rate <= 0.0 then false
    else nanos % 100 < (rate * 100.0).Floor
  }

  /** shouldSampleWithCounter, with the counter it leaves. */
  function SampleByCounter(rate: real, counter: nat): (nat, bool) {
    if rate >= 1.0 then (counter, true)
    else if rate <= 0.0 then (counter, false)
    else
      var c := Increment(counter);
      (c, c % Threshold(rate) == 0)
  }

  /** A sampled class: the counter is moved by the caller, and moved again by the sampling. */
  function Count(rate: real, counter: nat): (nat, bool) {
    var c := Increment(counter);
    if rate >= 1.0 then (c, true) else SampleByCounter(rate, c)
  }

  function Decide(rates: Rates, s: Counters, e: Entry): (Counters, bool) {
    match e.level
    case Error => (s, rates.error >= 1.0 || SampleByClock(rates.error, e.nanos))
    case Warn => (s, rates.warn >= 1.0 || SampleByClock(rates.warn, e.nanos))
    case Info =>
      if e.isSuccess then
        var (c, log) := Count(rates.success, s.success); (s.(success := c), log)
      else
        var (c, log) := Count(rates.info, s.info); (s.(info := c), log)
    case Debug => var (c, log) := Count(rates.debug, s.debug); (s.(debug := c), log)
    case Other => (s, true)
  }

  class Sampler {
    const rates: Rates
    var infoCounter: nat
    var debugCounter: nat
    var successCounter: nat

    function Abstract(): Counters
      reads this
    {
      Counters(infoCounter, debugCounter, successCounter)
    }

    constructor (rates: Rates)
      ensures this.rates == rates && Abstract() == Counters(0, 0, 0)
    {
      this.rates := rates;
      infoCounter, debugCounter, successCounter := 0, 0, 0;
    }

    method ShouldLog(e: Entry) returns (log: bool)
      modifies this
      ensures (Abstract(), log) == Decide(rates, old(Abstract()), e)
      ensures (e.level == Error && rates.error >= 1.0) || (e.level == Warn && rates.warn >= 1.0) ==> log
      ensures (e.level == Error && rates.error <= 0.0) || (e.level == Warn && rates.warn <= 0.0) ==> !log
    {
      match e.level {
        case Error => log := rates.error >= 1.0 || SampleByClock(rates.error, e.nanos);
        case Warn => log := rates.warn >= 1.0 || SampleByClock(rates.warn, e.nanos);
        case Info =>
          if e.isSuccess {
            successCounter := Increment(successCounter);
            log := rates.success >= 1.0;
            if !log {
              var (c, sampled) := SampleByCounter(rates.success, successCounter);
              successCounter, log := c, sampled;
            }
          } else {
            infoCounter := Increment(infoCounter);
            log := rates.info >= 1.0;
            if !log {
              var (c, sampled) := SampleByCounter(rates.info, infoCounter);
              infoCounter, log := c, sampled;
            }
          }
        case Debug =>
          debugCounter := Increment(debugCounter);
          log := rates.debug >= 1.0;
          if !log {
            var (c, sampled) := SampleByCounter(rates.debug, debugCounter);
            debugCounter, log := c, sampled;
          }
        case Other => log := true;
      }
    }
  }

  // ---------------------------------------------- levels sampled by the clock

  /** Errors go by the error rate alone and warnings by the warning rate alone, and what is no level is logged. */
  lemma SeverityDecides(rates: Rates, s: Counters, e: Entry)
    ensures e.level == Error && rates.error >= 1.0 ==> Decide(rates, s, e).1
    ensures e.level == Error && rates.error <= 0.0 ==> !Decide(rates, s, e).1
    ensures e.level == Warn && rates.warn >= 1.0 ==> Decide(rates, s, e).1
    ensures e.level == Warn && rates.warn <= 0.0 ==> !Decide(rates, s, e).1
    ensures e.level == Other ==> Decide(rates, s, e).1
    ensures e.level in {Error, Warn, Other} ==> Decide(rates, s, e).0 == s
  {
  }

  /** How many of n entries of a level, one at each instant from a start on, are logged. */
  function LoggedByClock(rates: Rates, level: Level, isSuccess: bool, start: nat, n: nat): nat {
    if n == 0 then 0
    else
      LoggedByClock(rates, level, isSuccess, start, n - 1)
      + if Decide(rates, Counters(0, 0, 0), Entry(level, isSuccess, start + n - 1)).1 then 1 else 0
  }

  /** How many of n instants have a remainder of less than k. */
  function Below(k: nat, start: nat, n: nat): nat {
    if n == 0 then 0 else Below(k, start, n - 1) + if (start + n - 1) % 100 < k then 1 else 0
  }

  lemma {:induction false} BelowFromFront(k: nat, start: nat, n: nat)
    ensures Below(k, start, n + 1) == (if start % 100 < k then 1 else 0) + Below(k, start + 1, n)
  {
    if n > 0 {
      BelowFromFront(k, start, n - 1);
      assert start + 1 + (n - 1) == start + n;
    } else {
      assert Below(k, start, 0) == Below(k, start + 1, 0) == 0;
    }
  }

  lemma {:induction false} BelowFromZero(k: nat, n: nat)
    requires n <= 100
    ensures Below(k, 0, n) == if n <= k then n else k
  {
    if n > 0 {
      BelowFromZero(k, n - 1);
    }
  }

  lemma BelowNext(k: nat, start: nat, n: nat)
    ensures Below(k, start, n + 1) == Below(k, start, n) + if (start + n) % 100 < k then 1 else 0
  {
  }

  lemma {:induction false} BelowInHundred(k: nat, start: nat)
    requires k <= 100
    ensures Below(k, start, 100) == k
  {
    hide Below;
    if start == 0 {
      BelowFromZero(k, 100);
    } else {
      BelowInHundred(k, start - 1);
      BelowFromFront(k, start - 1, 100);
      BelowNext(k, start - 1, 100);
      assert (start - 1 + 100) % 100 == (start - 1) % 100;
    }
  }

  lemma {:induction false} LoggedIsBelow(rates: Rates, level: Level, isSuccess: bool, start: nat, n: nat)
    requires (level == Error && 0.0 < rates.error < 1.0) || (level == Warn && 0.0 < rates.warn < 1.0)
    ensures
      var rate := if level == Error then rates.error else rates.warn;
      && 0 <= (100.0 * rate).Floor <= 100
      && LoggedByClock(rates, level, isSuccess, start, n) == Below((100.0 * rate).Floor, start, n)
  {
    if n > 0 {
      LoggedIsBelow(rates, level, isSuccess, start, n - 1);
    }
  }

  /** Of any hundred consecutive instants, as many log an entry of the level as its rate says, in whole hundredths. */
  lemma ClockSamplesItsShare(rates: Rates, level: Level, isSuccess: bool, start: nat)
    requires (level == Error && 0.0 < rates.error < 1.0) || (level == Warn && 0.0 < rates.warn < 1.0)
    ensures
      var rate := if level == Error then rates.error else rates.warn;
      LoggedByClock(rates, level, isSuccess, start, 100) == (100.0 * rate).Floor
  {
    hide LoggedByClock, Below;
    LoggedIsBelow(rates, level, isSuccess, start, 100);
    BelowInHundred((100.0 * if level == Error then rates.error else rates.warn).Floor, start);
  }

  // ------------------------------------------------------------ whole runs

  /** The classes of entries that are sampled by a counter. */
  datatype Class = SuccessClass | InfoClass | DebugClass

  predicate Belongs(e: Entry, class_: Class) {
    match class_
    case SuccessClass => e.level == Info && e.isSuccess
    case InfoClass => e.level == Info && !e.isSuccess
    case DebugClass => e.level == Debug
  }

  function RateOf(rates: Rates, class_: Class): real {
    match class_
    case SuccessClass => rates.success
    case InfoClass => rates.info
    case DebugClass => rates.debug
  }

  function CounterOf(s: Counters, class_: Class): nat {
    match class_
    case SuccessClass => s.success
    case InfoClass => s.info
    case DebugClass => s.debug
  }

  function After(rates: Rates, entries: seq<Entry>): Counters {
    if entries == [] then Counters(0, 0, 0)
    else
      var last := |entries| - 1;
      Decide(rates, After(rates, entries[..last]), entries[last]).0
  }

  /** How many entries of the class there are. */
  function Seen(entries: seq<Entry>, class_: Class): (n: nat)
    ensures n <= |entries|
  {
    if entries == [] then 0
    else
      var last := |entries| - 1;
      Seen(entries[..last], class_) + if Belongs(entries[last], class_) then 1 else 0
  }

  /** How many of them are logged. */
  function Logged(rates: Rates, entries: seq<Entry>, class_: Class): nat {
    if entries == [] then 0
    else
      var last := |entries| - 1;
      Logged(rates, entries[..last], class_)
      + if Belongs(entries[last], class_) && Decide(rates, After(rates, entries[..last]), entries[last]).1 then 1 else 0
  }

  /** d / gcd(d, 2): how many steps of two reach a multiple of d. */
  function Period(d: nat): (p: nat)
    requires d >= 1
    ensures p >= 1
  {
    if d % 2 == 0 then d / 2 else d
  }

  /** A double is a multiple of d exactly when the number is a multiple of the period. */
  lemma DoubleMultiple(m: nat, d: nat)
    requires d >= 1
    ensures (2 * m) % d == 0 <==> m % Period(d) == 0
  {
    var p := Period(d);
    var q, r := m / p, m % p;
    assert m == q * p + r;
    if d % 2 == 0 {
      assert q * d == 2 * (q * p);
      DivUnique(2 * m, d, q, 2 * r);
    } else if 2 * r < d {
      assert 2 * m == (2 * q) * d + 2 * r;
      DivUnique(2 * m, d, 2 * q, 2 * r);
    } else {
      assert 2 * m == (2 * q + 1) * d + (2 * r - d);
      DivUnique(2 * m, d, 2 * q + 1, 2 * r - d);
    }
  }

  lemma DivStep(m: nat, p: nat)
    requires p >= 1
    ensures (m + 1) / p == m / p + if (m + 1) % p == 0 then 1 else 0
  {
    var q, r := m / p, m % p;
    assert m == q * p + r;
    if r + 1 == p {
      assert m + 1 == (q + 1) * p + 0;
      DivUnique(m + 1, p, q + 1, 0);
    } else {
      DivUnique(m + 1, p, q, r + 1);
    }
  }

  /** The counter's next value and what it decides, when the counter does not wrap. */
  lemma CountStep(rate: real, m: nat)
    requires 0.0 < rate < 1.0 && 2 * m + 2 < COUNTERS
    ensures Count(rate, 2 * m) == (2 * (m + 1), (m + 1) % Period(Threshold(rate)) == 0)
  {
    hide Threshold, Period;
    assert Increment(2 * m) == 2 * m + 1 && Increment(2 * m + 1) == 2 * (m + 1);
    DoubleMultiple(m + 1, Threshold(rate));
  }

  lemma CountMoves(rate: real, counter: nat)
    requires counter < COUNTERS
    ensures Count(rate, counter).0 == (counter + if 0.0 < rate < 1.0 then 2 else 1) % COUNTERS
  {
    hide Threshold;
  }

  lemma ModAdd(x: nat, m: nat)
    requires m <= 2
    ensures (x % COUNTERS + m) % COUNTERS == (x + m) % COUNTERS
  {
  }

  /** A class's counter moves by two where it samples, by one where it does not have to, and wraps at 2^64. */
  lemma {:induction false} CountersMove(rates: Rates, entries: seq<Entry>, class_: Class)
    ensures
      var moves := if 0.0 < RateOf(rates, class_) < 1.0 then 2 else 1;
      CounterOf(After(rates, entries), class_) == (moves * Seen(entries, class_)) % 0x1_0000_0000_0000_0000
  {
    hide Count;
    if entries != [] {
      var last := |entries| - 1;
      CountersMove(rates, entries[..last], class_);
      var rate, seen := RateOf(rates, class_), Seen(entries[..last], class_);
      var moves := if 0.0 < rate < 1.0 then 2 else 1;
      if Belongs(entries[last], class_) {
        CountMoves(rate, CounterOf(After(rates, entries[..last]), class_));
        ModAdd(moves * seen, moves);
        assert moves * (seen + 1) == moves * seen + moves;
      }
    }
  }

  /**
   Whatever else is logged in between: of the first n entries of a class, exactly one in
   Period(Threshold(rate)) is logged, until the counter wraps.
   */
  lemma {:induction false} LoggedCount(rates: Rates, entries: seq<Entry>, class_: Class)
    requires 0.0 < RateOf(rates, class_) < 1.0
    requires 2 * Seen(entries, class_) < COUNTERS
    ensures CounterOf(After(rates, entries), class_) == 2 * Seen(entries, class_)
    ensures Logged(rates, entries, class_) == Seen(entries, class_) / Period(Threshold(RateOf(rates, class_)))
  {
    hide Threshold, Period, Count;
    var rate := RateOf(rates, class_);
    var p := Period(Threshold(rate));
    if entries == [] {
      DivUnique(0, p, 0, 0);
    } else {
      var last := |entries| - 1;
      LoggedCount(rates, entries[..last], class_);
      if Belongs(entries[last], class_) {
        var m := Seen(entries[..last], class_);
        CountStep(rate, m);
        DivStep(m, p);
      }
    }
  }

  function Repeat(class_: Class, n: nat): (entries: seq<Entry>)
    ensures |entries| == n
    ensures forall i :: 0 <= i < n ==> Belongs(entries[i], class_)
  {
    seq(n, _ => match class_
                case SuccessClass => Entry(Info, true, 0)
                case InfoClass => Entry(Info, false, 0)
                case DebugClass => Entry(Debug, false, 0))
  }

  lemma {:induction false} SeenAll(entries: seq<Entry>, class_: Class)
    requires forall i :: 0 <= i < |entries| ==> Belongs(entries[i], class_)
    ensures Seen(entries, class_) == |entries|
  {
    if entries != [] {
      SeenAll(entries[..|entries| - 1], class_);
    }
  }

  lemma {:induction false} LoggedNone(rates: Rates, entries: seq<Entry>, class_: Class)
    requires RateOf(rates, class_) == 0.0
    ensures Logged(rates, entries, class_) == 0
  {
    if entries != [] {
      LoggedNone(rates, entries[..|entries| - 1], class_);
    }
  }

  lemma {:induction false} LoggedAll(rates: Rates, entries: seq<Entry>, class_: Class)
    requires RateOf(rates, class_) == 1.0
    ensures Logged(rates, entries, class_) == Seen(entries, class_)
  {
    if entries != [] {
      LoggedAll(rates, entries[..|entries| - 1], class_);
    }
  }

  lemma ThresholdBound(rate: real)
    requires 0.0 < rate < 1.0
    ensures Threshold(rate) as real * rate <= 1.0
  {
    var d := Threshold(rate) as real;
    assert d <= 1.0 / rate;
    RealMulMonotone(d, 1.0 / rate, rate);
  }

  /** The documented share of so many entries: "0.1 means 10%". */
  function Share(n: nat, rate: real): int {
    (n as real * rate).Floor
  }

  /** Fewer entries than the threshold have a share of less than one. */
  lemma ShareBelowOne(n: nat, d: nat, rate: real)
    requires 0.0 < rate && n < d && d as real * rate <= 1.0
    ensures Share(n, rate) == 0
  {
    RealMulMonotone(0.0, n as real, rate);
    RealMulLess(n as real, d as real, rate);
    FloorOfFraction(n as real * rate);
  }

  lemma FloorOfFraction(x: real)
    requires 0.0 <= x < 1.0
    ensures x.Floor == 0
  {
  }

  lemma ShareOfFraction(n: nat, d: nat, rate: real)
    requires d >= 1 && rate > 0.0 && d as real * rate == 1.0
    ensures Share(n, rate) == n / d
  {
    var q, r := n / d, n % d;
    assert n == q * d + r;
    calc {
      n as real * rate;
      (q as real * d as real + r as real) * rate;
      q as real * (d as real * rate) + r as real * rate;
      q as real + r as real * rate;
    }
    RealMulMonotone(r as real, (d - 1) as real, rate);
    assert (d - 1) as real * rate == d as real * rate - rate;
  }

  /** The rates whose documented share is what is logged: an odd whole fraction, or so rare that the counter wraps first. */
  predicate Honoured(rate: real)
    requires 0.0 <= rate <= 1.0
  {
    rate == 0.0 || rate == 1.0 ||
    var d := Threshold(rate);
    2 * Period(d) >= COUNTERS || (d % 2 == 1 && d as real * rate == 1.0)
  }

  /** With a rate that is not honoured, the first entry logged comes too early. */
  lemma FirstTooEarly(rate: real) returns (n: nat)
    requires 0.0 <= rate <= 1.0 && !Honoured(rate)
    ensures 2 * n < COUNTERS && n == Period(Threshold(rate)) && Share(n, rate) == 0
  {
    hide Threshold;
    var d := Threshold(rate);
    n := Period(d);
    ThresholdBound(rate);
    if d % 2 == 0 {
      assert n as real * 2.0 == d as real;
      assert (n as real * rate) * 2.0 == d as real * rate;
    }
  }

  /**
   The documented share, n * rate of the first n entries, is what is logged exactly for the rates
   1/d with d odd (and for 0, 1, and rates at which nothing is logged before the counter wraps).
   0.1 logs one entry in five instead of in ten, and 0.7 logs all.
   */
  lemma DocumentedShareOnlyWhenOdd(rates: Rates, class_: Class)
    requires 0.0 <= RateOf(rates, class_) <= 1.0
    ensures
      (forall entries | 2 * Seen(entries, class_) < COUNTERS ::
        Logged(rates, entries, class_) == Share(Seen(entries, class_), RateOf(rates, class_)))
      <==> Honoured(RateOf(rates, class_))
  {
    hide Threshold, Logged, Seen, Share, Period;
    var rate := RateOf(rates, class_);
    if Honoured(rate) {
      forall entries | 2 * Seen(entries, class_) < COUNTERS
        ensures Logged(rates, entries, class_) == Share(Seen(entries, class_), rate)
      {
        HonouredShare(rates, entries, class_);
      }
    } else {
      var n := FirstTooEarly(rate);
      var entries := Repeat(class_, n);
      SeenAll(entries, class_);
      LoggedCount(rates, entries, class_);
      DivUnique(n, n, 1, 0);
      assert Logged(rates, entries, class_) != Share(Seen(entries, class_), rate);
    }
  }

  lemma HonouredShare(rates: Rates, entries: seq<Entry>, class_: Class)
    requires 0.0 <= RateOf(rates, class_) <= 1.0 && Honoured(RateOf(rates, class_))
    requires 2 * Seen(entries, class_) < COUNTERS
    ensures Logged(rates, entries, class_) == Share(Seen(entries, class_), RateOf(rates, class_))
  {
    hide Threshold, Logged, Seen;
    var rate, n := RateOf(rates, class_), Seen(entries, class_);
    if rate == 0.0 {
      LoggedNone(rates, entries, class_);
    } else if rate == 1.0 {
      LoggedAll(rates, entries, class_);
    } else {
      var d := Threshold(rate);
      var p := Period(d);
      LoggedCount(rates, entries, class_);
      if d % 2 == 1 && d as real * rate == 1.0 {
        ShareOfFraction(n, d, rate);
      } else {
        DivUnique(n, p, 0, n);
        RareShare(n, rate);
      }
    }
  }

  lemma RareShare(n: nat, rate: real)
    requires 0.0 < rate < 1.0 && n < Period(Threshold(rate))
    ensures Share(n, rate) == 0
  {
    hide Threshold, Share;
    ThresholdBound(rate);
    ShareBelowOne(n, Threshold(rate), rate);
  }
}
