/**
 The sliding-window limiter that keeps log lines from flooding
 (RateLimiter in internal/logging/sampling.go).

 Two levels: Naive is the definition of the service, counting the allowed calls of the last
 window; Allow and Run are the limiter on values, with its pruned lists and its periodic
 clean-up. The limiter as it is coded, compacting slices in place, is in LogLimiterArrays.

 Instants are integers counting nanoseconds; durations are int64 and wrap.
 */
module LogLimiter {
  import opened Int64

  datatype Config = Config(max: int64, window: int64, interval: int64)

  datatype State = State(entries: map<string, seq<int>>, lastCleanup: int)

  datatype Call = Call(key: string, now: int)

  // ---------------------------------------------------------------- values

  /** The instants strictly after the cutoff, in order. */
  function Newer(times: seq<int>, cutoff: int): (r: seq<int>)
    ensures |r| <= |times|
  {
    if times == [] then []
    else
      var last := |times| - 1;
      Newer(times[..last], cutoff) + if times[last] > cutoff then [times[last]] else []
  }

  /** now.Add(-windowSize) */
  function WindowStart(cfg: Config, now: int): int {
    now + Wrap(-(cfg.window as int))
  }

  /** now.Add(-windowSize * 2): negation and doubling each wrap. */
  function CleanupStart(cfg: Config, now: int): int {
    now + Wrap(2 * (Wrap(-(cfg.window as int)) as int))
  }

  function Pruned(entries: map<string, seq<int>>, cutoff: int): map<string, seq<int>> {
    map k | k in entries && Newer(entries[k], cutoff) != [] :: Newer(entries[k], cutoff)
  }

  function Stored(s: State, key: string): seq<int> {
    if key in s.entries then s.entries[key] else []
  }

  function Cleaned(cfg: Config, s: State, now: int): State {
    if SaturatedDifference(now, s.lastCleanup) > cfg.interval
    then State(Pruned(s.entries, CleanupStart(cfg, now)), now)
    else s
  }

  /** One call: the next state and the answer. */
  function Allow(cfg: Config, s: State, key: string, now: int): (State, bool) {
    if cfg.max <= 0 then (s, true)
    else
      var c := Cleaned(cfg, s, now);
      var kept := Newer(Stored(c, key), WindowStart(cfg, now));
      if |kept| >= cfg.max then (c, false)
      else (c.(entries := c.entries[key := kept + [now]]), true)
  }

  datatype Outcome = Outcome(state: State, answers: seq<bool>)

  /** A whole run of a limiter created at instant t0. */
  function Run(cfg: Config, t0: int, calls: seq<Call>): (o: Outcome)
    ensures |o.answers| == |calls|
  {
    if calls == [] then Outcome(State(map[], t0), [])
    else
      var last := |calls| - 1;
      var before := Run(cfg, t0, calls[..last]);
      var (s, answer) := Allow(cfg, before.state, calls[last].key, calls[last].now);
      Outcome(s, before.answers + [answer])
  }

  /** The clock never goes back. */
  ghost predicate Ordered(t0: int, calls: seq<Call>) {
    && (forall i :: 0 <= i < |calls| ==> t0 <= calls[i].now)
    && (forall i, j :: 0 <= i <= j < |calls| ==> calls[i].now <= calls[j].now)
  }

  // ------------------------------------------------------- the definition

  /** The instants of the allowed calls with this key. */
  function Allowed(calls: seq<Call>, answers: seq<bool>, key: string): (r: seq<int>)
    requires |answers| == |calls|
    ensures forall t :: t in r ==> exists i :: 0 <= i < |calls| && calls[i].now == t
  {
    if calls == [] then []
    else
      var last := |calls| - 1;
      Allowed(calls[..last], answers[..last], key)
      + if answers[last] && calls[last].key == key then [calls[last].now] else []
  }

  /** A call is allowed when fewer than max earlier allowed calls with its key are in its window. */
  function Naive(cfg: Config, calls: seq<Call>): (answers: seq<bool>)
    ensures |answers| == |calls|
  {
    if calls == [] then []
    else
      var last := |calls| - 1;
      var before := Naive(cfg, calls[..last]);
      var recent := Newer(Allowed(calls[..last], before, calls[last].key), calls[last].now - cfg.window);
      before + [cfg.max <= 0 || |recent| < cfg.max]
  }

  /**
   The durations for which the wrapped arithmetic does no harm: the doubled window
   does not overflow, unless clean-up can never run; and a window of MIN, whose
   negation is itself, only under a negative interval.
   */
  predicate Harmless(cfg: Config) {
    && (cfg.window > MAX / 2 + 1 ==> cfg.interval == MAX)
    && (cfg.window == MIN ==> cfg.interval < 0)
  }

  // ---------------------------------------------------------------- lemmas

  lemma {:induction false} NewerTwice(times: seq<int>, a: int, b: int)
    requires a <= b
    ensures Newer(Newer(times, a), b) == Newer(times, b)
  {
    if times != [] {
      var last := |times| - 1;
      NewerTwice(times[..last], a, b);
      var kept := Newer(times[..last], a);
      if times[last] > a {
        assert (kept + [times[last]])[..|kept|] == kept;
      } else {
        assert kept + [] == kept;
      }
    }
  }

  lemma {:induction false} NewerFrom(times: seq<int>, cutoff: int)
    ensures forall t :: t in Newer(times, cutoff) ==> t in times && t > cutoff
  {
    if times != [] {
      NewerFrom(times[..|times| - 1], cutoff);
    }
  }

  lemma {:induction false} NewerSnoc(times: seq<int>, t: int, cutoff: int)
    ensures Newer(times + [t], cutoff) == Newer(times, cutoff) + if t > cutoff then [t] else []
  {
    assert (times + [t])[..|times|] == times;
  }

  lemma {:induction false} NewerAll(times: seq<int>, cutoff: int)
    requires |Newer(times, cutoff)| == |times|
    ensures Newer(times, cutoff) == times
  {
    if times != [] {
      var last := |times| - 1;
      NewerAll(times[..last], cutoff);
      assert times == times[..last] + [times[last]];
    }
  }

  lemma {:induction false} NewerNone(times: seq<int>, cutoff: int)
    requires forall t :: t in times ==> t <= cutoff
    ensures Newer(times, cutoff) == []
  {
    if times != [] {
      var last := |times| - 1;
      assert forall t :: t in times[..last] ==> t in times;
      assert times[last] in times;
      NewerNone(times[..last], cutoff);
    }
  }

  /** A stored list stands for a history at an instant: short, not in the future, and equal to it on the window. */
  ghost predicate Stands(cfg: Config, stored: seq<int>, history: seq<int>, now: int) {
    && |stored| <= cfg.max
    && (forall t :: t in stored ==> t <= now)
    && (forall t :: t in history ==> t <= now)
    && Newer(stored, now - cfg.window) == Newer(history, now - cfg.window)
  }

  /** A later window sees a part of what an earlier window sees. */
  lemma {:induction false} StandsLater(cfg: Config, stored: seq<int>, history: seq<int>, now: int, later: int)
    requires now <= later && Stands(cfg, stored, history, now)
    ensures Stands(cfg, stored, history, later)
  {
    hide Newer;
    NewerTwice(stored, now - cfg.window, later - cfg.window);
    NewerTwice(history, now - cfg.window, later - cfg.window);
  }

  /** Pruning by an older cutoff forgets nothing that the window still counts. */
  lemma {:induction false} StandsPruned(cfg: Config, stored: seq<int>, history: seq<int>, now: int, cutoff: int)
    requires cfg.window >= 0 ==> cutoff <= now - cfg.window
    requires Stands(cfg, stored, history, now)
    ensures Stands(cfg, Newer(stored, cutoff), history, now)
  {
    hide Newer;
    var from := now - cfg.window;
    NewerFrom(stored, cutoff);
    if cfg.window < 0 {
      NewerNone(Newer(stored, cutoff), from);
      NewerNone(history, from);
    } else {
      NewerTwice(stored, cutoff, from);
    }
  }

  /** Compacting to the window and appending the call is what the history does. */
  lemma {:induction false} StandsAppended(cfg: Config, stored: seq<int>, history: seq<int>, now: int)
    requires Stands(cfg, stored, history, now)
    requires |Newer(stored, now - cfg.window)| < cfg.max
    ensures Stands(cfg, Newer(stored, now - cfg.window) + [now], history + [now], now)
  {
    hide Newer;
    var from := now - cfg.window;
    NewerFrom(stored, from);
    NewerSnoc(Newer(stored, from), now, from);
    NewerSnoc(history, now, from);
    NewerTwice(stored, from, from);
  }

  lemma WindowStartExact(cfg: Config, now: int)
    requires cfg.window != MIN
    ensures WindowStart(cfg, now) == now - cfg.window
  {
  }

  lemma CleanupStartOld(cfg: Config, now: int)
    requires 0 <= cfg.window <= MAX / 2 + 1
    ensures CleanupStart(cfg, now) == now - 2 * cfg.window
  {
  }

  /** The run's invariant: every key's stored list stands for the key's allowed calls. */
  ghost predicate Tracks(cfg: Config, s: State, calls: seq<Call>, answers: seq<bool>, now: int)
    requires |answers| == |calls|
  {
    && s.lastCleanup <= now
    && forall k :: Stands(cfg, Stored(s, k), Allowed(calls, answers, k), now)
  }

  lemma {:induction false} AllowedSnoc(calls: seq<Call>, answers: seq<bool>, call: Call, answer: bool, key: string)
    requires |answers| == |calls|
    ensures Allowed(calls + [call], answers + [answer], key)
         == Allowed(calls, answers, key) + if answer && call.key == key then [call.now] else []
  {
    assert (calls + [call])[..|calls|] == calls && (answers + [answer])[..|answers|] == answers;
  }

  /** Clean-up keeps the invariant. */
  lemma {:induction false} CleanedTracks(cfg: Config, s: State, calls: seq<Call>, answers: seq<bool>, now: int)
    requires |answers| == |calls|
    requires Harmless(cfg)
    requires Tracks(cfg, s, calls, answers, now)
    ensures Tracks(cfg, Cleaned(cfg, s, now), calls, answers, now)
  {
    hide Newer, Allowed, CleanupStart;
    var c := Cleaned(cfg, s, now);
    if SaturatedDifference(now, s.lastCleanup) > cfg.interval {
      forall k
        ensures Stands(cfg, Stored(c, k), Allowed(calls, answers, k), now)
      {
        assert Stored(c, k) == Newer(Stored(s, k), CleanupStart(cfg, now));
        if cfg.window >= 0 {
          CleanupStartOld(cfg, now);
        }
        StandsPruned(cfg, Stored(s, k), Allowed(calls, answers, k), now, CleanupStart(cfg, now));
      }
    }
  }

  /** After clean-up, the cutoff computed with wrap-around selects what the real one selects. */
  lemma {:induction false} CutoffIsReal(cfg: Config, s: State, calls: seq<Call>, answers: seq<bool>, now: int,
                                        key: string)
    requires |answers| == |calls|
    requires Harmless(cfg)
    requires Tracks(cfg, s, calls, answers, now)
    ensures
      var stored := Stored(Cleaned(cfg, s, now), key);
      Newer(stored, WindowStart(cfg, now)) == Newer(stored, now - cfg.window)
  {
    hide Newer, Allowed;
    if cfg.window == MIN {
      assert Stands(cfg, Stored(s, key), Allowed(calls, answers, key), now);
      assert CleanupStart(cfg, now) == now;
      NewerNone(Stored(s, key), now);
      NewerNone([], WindowStart(cfg, now));
      NewerNone([], now - cfg.window);
    } else {
      WindowStartExact(cfg, now);
    }
  }

  /** One call agrees with the definition and keeps the invariant. */
  lemma {:induction false} AllowTracks(cfg: Config, s: State, calls: seq<Call>, answers: seq<bool>, call: Call)
    requires |answers| == |calls| && cfg.max > 0
    requires Harmless(cfg)
    requires Tracks(cfg, s, calls, answers, call.now)
    ensures
      var (s', answer) := Allow(cfg, s, call.key, call.now);
      var recent := Newer(Allowed(calls, answers, call.key), call.now - cfg.window);
      && answer == (|recent| < cfg.max)
      && Tracks(cfg, s', calls + [call], answers + [answer], call.now)
  {
    hide Newer, Allowed, Cleaned, WindowStart, Harmless;
    var now := call.now;
    CleanedTracks(cfg, s, calls, answers, now);
    CutoffIsReal(cfg, s, calls, answers, now, call.key);
    var c := Cleaned(cfg, s, now);
    var (s', answer) := Allow(cfg, s, call.key, now);
    assert Stands(cfg, Stored(c, call.key), Allowed(calls, answers, call.key), now);
    forall k
      ensures Stands(cfg, Stored(s', k), Allowed(calls + [call], answers + [answer], k), now)
    {
      assert Stands(cfg, Stored(c, k), Allowed(calls, answers, k), now);
      AllowedSnoc(calls, answers, call, answer, k);
      if answer && k == call.key {
        StandsAppended(cfg, Stored(c, k), Allowed(calls, answers, k), now);
      } else {
        assert Stored(s', k) == Stored(c, k);
        assert Allowed(calls, answers, k) + [] == Allowed(calls, answers, k);
      }
    }
  }

  lemma RunSnoc(cfg: Config, t0: int, calls: seq<Call>, call: Call)
    ensures
      var before := Run(cfg, t0, calls);
      var (s, answer) := Allow(cfg, before.state, call.key, call.now);
      Run(cfg, t0, calls + [call]) == Outcome(s, before.answers + [answer])
  {
    hide Allow;
    assert (calls + [call])[..|calls|] == calls;
  }

  lemma NaiveSnoc(cfg: Config, calls: seq<Call>, call: Call)
    ensures
      var before := Naive(cfg, calls);
      var recent := Newer(Allowed(calls, before, call.key), call.now - cfg.window);
      Naive(cfg, calls + [call]) == before + [cfg.max <= 0 || |recent| < cfg.max]
  {
    hide Newer, Allowed;
    assert (calls + [call])[..|calls|] == calls;
  }

  lemma Empty(cfg: Config, t0: int, key: string, from: int, to: int)
    ensures Run(cfg, t0, []) == Outcome(State(map[], t0), [])
    ensures Naive(cfg, []) == [] && Allowed([], [], key) == [] && Only([], key) == [] && AnswersTo([], [], key) == []
    ensures Newer([], from) == [] && CountIn([], from, to) == 0
  {
  }

  lemma {:induction false} RunTracks(cfg: Config, t0: int, calls: seq<Call>)
    requires cfg.max > 0 && Harmless(cfg)
    requires Ordered(t0, calls)
    ensures Run(cfg, t0, calls).answers == Naive(cfg, calls)
    ensures
      var now := if calls == [] then t0 else calls[|calls| - 1].now;
      Tracks(cfg, Run(cfg, t0, calls).state, calls, Naive(cfg, calls), now)
  {
    hide Newer, Allow, Allowed, Harmless, Run, Naive;
    if calls == [] {
      forall k
        ensures Stands(cfg, Stored(Run(cfg, t0, calls).state, k), Allowed(calls, Naive(cfg, calls), k), t0)
      {
        Empty(cfg, t0, k, t0 - cfg.window, 0);
      }
      Empty(cfg, t0, "", 0, 0);
    } else {
      var last := |calls| - 1;
      var earlier, call := calls[..last], calls[last];
      RunTracks(cfg, t0, earlier);
      var now := if earlier == [] then t0 else earlier[last - 1].now;
      var s, answers := Run(cfg, t0, earlier).state, Naive(cfg, earlier);
      forall k
        ensures Stands(cfg, Stored(s, k), Allowed(earlier, answers, k), call.now)
      {
        StandsLater(cfg, Stored(s, k), Allowed(earlier, answers, k), now, call.now);
      }
      AllowTracks(cfg, s, earlier, answers, call);
      assert earlier + [call] == calls;
      RunSnoc(cfg, t0, earlier, call);
      NaiveSnoc(cfg, earlier, call);
    }
  }

  // ------------------------------------------------------------- theorems

  /** Every run of a harmless configuration gives the answers of the definition. */
  lemma {:induction false} RunIsNaive(cfg: Config, t0: int, calls: seq<Call>)
    requires cfg.max <= 0 || Harmless(cfg)
    requires Ordered(t0, calls)
    ensures Run(cfg, t0, calls).answers == Naive(cfg, calls)
  {
    if cfg.max > 0 {
      RunTracks(cfg, t0, calls);
    } else if calls != [] {
      RunIsNaive(cfg, t0, calls[..|calls| - 1]);
    }
  }

  function Same(n: nat, now: int): (calls: seq<Call>)
    ensures |calls| == n && forall i :: 0 <= i < n ==> calls[i] == Call("", now)
  {
    seq(n, _ => Call("", now))
  }

  /** n calls at one instant: the definition allows the first max of them when they stay in the window. */
  lemma {:induction false} NaiveSame(cfg: Config, n: nat, now: int)
    requires 0 < cfg.window && n <= cfg.max
    ensures forall a :: a in Naive(cfg, Same(n, now)) ==> a
    ensures |Allowed(Same(n, now), Naive(cfg, Same(n, now)), "")| == n
    ensures forall t :: t in Allowed(Same(n, now), Naive(cfg, Same(n, now)), "") ==> t == now
  {
    hide Newer, Naive, Allowed;
    if n == 0 {
      assert Same(n, now) == [];
      Empty(cfg, 0, "", 0, 0);
    } else {
      NaiveSame(cfg, n - 1, now);
      var earlier := Same(n - 1, now);
      var call := Call("", now);
      assert Same(n, now) == earlier + [call];
      NaiveSnoc(cfg, earlier, call);
      AllowedSnoc(earlier, Naive(cfg, earlier), call, true, "");
    }
  }

  lemma {:induction false} NewerKeepsAll(times: seq<int>, cutoff: int)
    requires forall t :: t in times ==> t > cutoff
    ensures Newer(times, cutoff) == times
  {
    if times != [] {
      var last := |times| - 1;
      assert forall t :: t in times[..last] ==> t in times;
      assert times[last] in times;
      NewerKeepsAll(times[..last], cutoff);
      assert times == times[..last] + [times[last]];
    }
  }

  /** What calls at one instant leave behind. */
  lemma {:induction false} RunSame(cfg: Config, n: nat, now: int)
    requires cfg.max > 0 && 0 <= now
    ensures
      var s := Run(cfg, 0, Same(n, now)).state;
      && s.lastCleanup <= now
      && (now <= cfg.interval ==> s.lastCleanup == 0)
      && forall t :: t in Stored(s, "") ==> t <= now
  {
    hide Newer, Run;
    if n == 0 {
      assert Same(n, now) == [];
      Empty(cfg, 0, "", 0, 0);
    } else {
      RunSame(cfg, n - 1, now);
      var earlier := Same(n - 1, now);
      assert Same(n, now) == earlier + [Call("", now)];
      RunSnoc(cfg, 0, earlier, Call("", now));
      var s := Run(cfg, 0, earlier).state;
      var c := Cleaned(cfg, s, now);
      NewerFrom(Stored(s, ""), CleanupStart(cfg, now));
      NewerFrom(Stored(c, ""), WindowStart(cfg, now));
    }
  }

  /** A window above half the range: its doubling wraps, and clean-up discards the whole window. */
  lemma {:induction false} OverflowingWindowForgets(cfg: Config) returns (calls: seq<Call>)
    requires cfg.max > 0 && cfg.window > MAX / 2 + 1 && cfg.interval != MAX
    ensures Ordered(0, calls)
    ensures Run(cfg, 0, calls).answers != Naive(cfg, calls)
  {
    hide Newer, Run, Naive, Allowed;
    var now := if cfg.interval >= 0 then cfg.interval else 0;
    var earlier, call := Same(cfg.max, now), Call("", now + 1);
    calls := earlier + [call];
    RunSame(cfg, cfg.max, now);
    RunSnoc(cfg, 0, earlier, call);
    var s := Run(cfg, 0, earlier).state;
    var c := Cleaned(cfg, s, now + 1);
    assert CleanupStart(cfg, now + 1) == now + 1 + SPAN - 2 * cfg.window;
    NewerNone(Stored(s, ""), CleanupStart(cfg, now + 1));
    assert Stored(c, "") == [];
    NewerNone([], WindowStart(cfg, now + 1));
    assert Allow(cfg, s, "", now + 1).1;

    NaiveSame(cfg, cfg.max, now);
    NaiveSnoc(cfg, earlier, call);
    var history := Allowed(earlier, Naive(cfg, earlier), "");
    NewerKeepsAll(history, now + 1 - cfg.window);
    assert !Naive(cfg, calls)[cfg.max];
    assert Run(cfg, 0, calls).answers[cfg.max];
  }

  lemma {:induction false} RunSameMin(cfg: Config, n: nat)
    requires cfg.window == MIN && cfg.interval >= 0 && n <= cfg.max
    ensures
      var s := Run(cfg, 0, Same(n, 0)).state;
      && s.lastCleanup == 0
      && |Stored(s, "")| == n
      && forall t :: t in Stored(s, "") ==> t == 0
  {
    hide Newer, Run;
    if n == 0 {
      assert Same(n, 0) == [];
      Empty(cfg, 0, "", 0, 0);
    } else {
      RunSameMin(cfg, n - 1);
      var earlier := Same(n - 1, 0);
      assert Same(n, 0) == earlier + [Call("", 0)];
      RunSnoc(cfg, 0, earlier, Call("", 0));
      assert WindowStart(cfg, 0) == MIN;
      NewerKeepsAll(Stored(Run(cfg, 0, earlier).state, ""), MIN);
    }
  }

  lemma NaiveLastMin(cfg: Config, n: nat)
    requires cfg.window == MIN && cfg.max > 0
    ensures Naive(cfg, Same(n + 1, 0))[n]
  {
    var earlier := Same(n, 0);
    assert Same(n + 1, 0) == earlier + [Call("", 0)];
    NaiveSnoc(cfg, earlier, Call("", 0));
    NewerNone(Allowed(earlier, Naive(cfg, earlier), ""), -MIN);
  }

  /** A window of MIN: its negation is itself, and a limiter that should count nothing counts everything. */
  lemma {:induction false} NegatedMinCounts(cfg: Config) returns (calls: seq<Call>)
    requires cfg.max > 0 && cfg.window == MIN && cfg.interval >= 0
    ensures Ordered(0, calls)
    ensures Run(cfg, 0, calls).answers != Naive(cfg, calls)
  {
    hide Newer, Run, Naive, Allowed;
    var earlier := Same(cfg.max, 0);
    calls := Same(cfg.max + 1, 0);
    assert calls == earlier + [Call("", 0)];
    RunSameMin(cfg, cfg.max);
    RunSnoc(cfg, 0, earlier, Call("", 0));
    assert WindowStart(cfg, 0) == MIN;
    NewerKeepsAll(Stored(Run(cfg, 0, earlier).state, ""), MIN);
    NaiveLastMin(cfg, cfg.max);
    assert !Run(cfg, 0, calls).answers[cfg.max];
  }

  /** The limiter is the sliding window it is meant to be exactly for the harmless configurations. */
  lemma ExactlyWhenHarmless(cfg: Config)
    ensures (forall t0, calls | Ordered(t0, calls) :: Run(cfg, t0, calls).answers == Naive(cfg, calls))
       <==> cfg.max <= 0 || Harmless(cfg)
  {
    if cfg.max <= 0 || Harmless(cfg) {
      forall t0, calls | Ordered(t0, calls)
        ensures Run(cfg, t0, calls).answers == Naive(cfg, calls)
      {
        RunIsNaive(cfg, t0, calls);
      }
    } else if cfg.window == MIN {
      var calls := NegatedMinCounts(cfg);
      assert Ordered(0, calls);
    } else {
      var calls := OverflowingWindowForgets(cfg);
      assert Ordered(0, calls);
    }
  }

  /** How many of the instants lie in (from, to]. */
  function CountIn(times: seq<int>, from: int, to: int): nat {
    if times == [] then 0
    else
      var last := |times| - 1;
      CountIn(times[..last], from, to) + if from < times[last] <= to then 1 else 0
  }

  lemma {:induction false} CountInAtMost(times: seq<int>, from: int, to: int, cutoff: int)
    requires cutoff <= from
    ensures CountIn(times, from, to) <= |Newer(times, cutoff)|
  {
    if times != [] {
      CountInAtMost(times[..|times| - 1], from, to, cutoff);
    }
  }

  lemma CountInSnoc(times: seq<int>, t: int, from: int, to: int)
    ensures CountIn(times + [t], from, to) == CountIn(times, from, to) + if from < t <= to then 1 else 0
  {
    assert (times + [t])[..|times|] == times;
  }

  /** No window of the configured size, ending at any instant, holds more than max allowed calls of one key. */
  lemma {:induction false} AtMostMaxInAnyWindow(cfg: Config, t0: int, calls: seq<Call>, key: string, end: int)
    requires cfg.max > 0 && Harmless(cfg)
    requires Ordered(t0, calls)
    ensures CountIn(Allowed(calls, Run(cfg, t0, calls).answers, key), end - cfg.window, end) <= cfg.max
  {
    hide Newer, Run, Naive, Allowed, Harmless, CountIn;
    RunIsNaive(cfg, t0, calls);
    if calls == [] {
      Empty(cfg, t0, key, end - cfg.window, end);
    } else {
      var last := |calls| - 1;
      var earlier, call := calls[..last], calls[last];
      AtMostMaxInAnyWindow(cfg, t0, earlier, key, end);
      RunIsNaive(cfg, t0, earlier);
      assert calls == earlier + [call];
      NaiveSnoc(cfg, earlier, call);
      var history := Allowed(earlier, Naive(cfg, earlier), key);
      AllowedSnoc(earlier, Naive(cfg, earlier), call, Naive(cfg, calls)[last], key);
      CountInSnoc(history, call.now, end - cfg.window, end);
      if end >= call.now {
        CountInAtMost(history, end - cfg.window, end, call.now - cfg.window);
      }
      assert history + [] == history;
    }
  }

  /** The calls with one key, and the answers given to them. */
  function Only(calls: seq<Call>, key: string): seq<Call> {
    if calls == [] then []
    else
      var last := |calls| - 1;
      Only(calls[..last], key) + if calls[last].key == key then [calls[last]] else []
  }

  function AnswersTo(calls: seq<Call>, answers: seq<bool>, key: string): (r: seq<bool>)
    requires |answers| == |calls|
    ensures |r| == |Only(calls, key)|
  {
    if calls == [] then []
    else
      var last := |calls| - 1;
      AnswersTo(calls[..last], answers[..last], key) + if calls[last].key == key then [answers[last]] else []
  }

  lemma OnlySnoc(calls: seq<Call>, answers: seq<bool>, call: Call, answer: bool, key: string)
    requires |answers| == |calls|
    ensures Only(calls + [call], key) == Only(calls, key) + if call.key == key then [call] else []
    ensures AnswersTo(calls + [call], answers + [answer], key)
         == AnswersTo(calls, answers, key) + if call.key == key then [answer] else []
  {
    assert (calls + [call])[..|calls|] == calls && (answers + [answer])[..|answers|] == answers;
  }

  lemma {:induction false} NaiveOnly(cfg: Config, calls: seq<Call>, key: string)
    ensures AnswersTo(calls, Naive(cfg, calls), key) == Naive(cfg, Only(calls, key))
    ensures Allowed(calls, Naive(cfg, calls), key) == Allowed(Only(calls, key), Naive(cfg, Only(calls, key)), key)
  {
    hide Newer, Naive, Allowed, Only, AnswersTo;
    if calls == [] {
      Empty(cfg, 0, key, 0, 0);
    } else {
      var last := |calls| - 1;
      var earlier, call := calls[..last], calls[last];
      NaiveOnly(cfg, earlier, key);
      assert calls == earlier + [call];
      NaiveSnoc(cfg, earlier, call);
      var answer := Naive(cfg, calls)[last];
      OnlySnoc(earlier, Naive(cfg, earlier), call, answer, key);
      AllowedSnoc(earlier, Naive(cfg, earlier), call, answer, key);
      NaiveSnoc(cfg, Only(earlier, key), call);
      AllowedSnoc(Only(earlier, key), Naive(cfg, Only(earlier, key)), call, answer, key);
      assert Only(earlier, key) + [] == Only(earlier, key);
      assert AnswersTo(earlier, Naive(cfg, earlier), key) + [] == AnswersTo(earlier, Naive(cfg, earlier), key);
      assert Allowed(earlier, Naive(cfg, earlier), key) + [] == Allowed(earlier, Naive(cfg, earlier), key);
    }
  }

  lemma OrderedSnoc(t0: int, calls: seq<Call>, call: Call)
    requires Ordered(t0, calls) && t0 <= call.now
    requires forall c :: c in calls ==> c.now <= call.now
    ensures Ordered(t0, calls + [call])
  {
    forall i | 0 <= i < |calls|
      ensures calls[i].now <= call.now
    {
      assert calls[i] in calls;
    }
  }

  lemma {:induction false} OnlyOrdered(t0: int, calls: seq<Call>, key: string)
    requires Ordered(t0, calls)
    ensures Ordered(t0, Only(calls, key))
    ensures forall c :: c in Only(calls, key) ==> c in calls
  {
    hide Only, AnswersTo;
    if calls == [] {
      Empty(Config(0, 0, 0), t0, key, 0, 0);
    } else {
      var last := |calls| - 1;
      var earlier, call := calls[..last], calls[last];
      assert calls == earlier + [call];
      OnlyOrdered(t0, earlier, key);
      OnlySnoc(earlier, seq(last, _ => true), call, true, key);
      OrderedSnoc(t0, Only(earlier, key), call);
      assert Only(earlier, key) + [] == Only(earlier, key);
    }
  }

  /** Keys do not interfere: a key gets the answers it would get from a limiter of its own. */
  lemma KeysAreIndependent(cfg: Config, t0: int, calls: seq<Call>, key: string)
    requires cfg.max <= 0 || Harmless(cfg)
    requires Ordered(t0, calls)
    ensures AnswersTo(calls, Run(cfg, t0, calls).answers, key) == Run(cfg, t0, Only(calls, key)).answers
  {
    RunIsNaive(cfg, t0, calls);
    OnlyOrdered(t0, calls, key);
    RunIsNaive(cfg, t0, Only(calls, key));
    NaiveOnly(cfg, calls, key);
  }
}
