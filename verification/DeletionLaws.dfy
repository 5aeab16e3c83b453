/** What the retry loop, the batches and the queue guarantee, in every environment. */
module DeletionLaws {
  import opened Int64
  import opened Wrappers
  import opened Policies
  import opened Worlds
  import opened Deletion
  import Backoff
  import T = Terms

  // -------------------------------------------------------- the retry loop

  /** The API server's answers, in order. */
  function Answers(ev: seq<Event>): seq<Answer> {
    if |ev| == 0 then []
    else (if ev[0].ApiDelete? then [ev[0].answer] else []) + Answers(ev[1..])
  }

  lemma {:induction false} AnswersAppend(a: seq<Event>, b: seq<Event>)
    ensures Answers(a + b) == Answers(a) + Answers(b)
  {
    if a == [] {
      assert a + b == b;
    } else {
      AnswersAppend(a[1..], b);
      assert (a + b)[1..] == a[1..] + b;
    }
  }

  predicate AllRetryable(answers: seq<Answer>) {
    forall i :: 0 <= i < |answers| ==> answers[i] == Retryable
  }

  lemma AnswersOfTurn(env: Environment, n: nat, p: Policy, r: Resource, step: nat)
    ensures
      var turn := Turn(env, n, p, r, step);
      var asked := !env.done(n) && env.Grants(n + 1) && !p.spec.behavior.dryRun;
      Answers(turn.ev) == if asked then [env.answers(n + 2)] else []
  {
    var once := DeleteOnce(env, n + 1, p, r);
    var ev := [CheckedContext(false)] + once.ev;
    if !env.done(n) {
      AnswersAppend([CheckedContext(false)], once.ev);
      assert Answers([CheckedContext(false)]) == [];
      if env.Grants(n + 1) && !p.spec.behavior.dryRun {
        assert once.ev[1..] == [once.ev[1]] && once.ev[1..][1..] == [];
        assert Answers(once.ev) == [env.answers(n + 2)];
      } else {
        assert once.ev[1..] == [];
        assert Answers(once.ev) == [];
      }
      var slept := Slept(Backoff.Wait(Backoff.DEFAULT, step), env.Interrupts(n + |ev|));
      AnswersAppend(ev, [slept]);
      assert Answers([slept]) == [];
      assert Answers(ev) + [] == Answers(ev);
    } else {
      assert Answers([CheckedContext(true)]) == [];
    }
  }

  /** What a result says about the answers it came from. */
  ghost predicate Explains(answers: seq<Answer>, dryRun: bool, result: Result) {
    var last := |answers| - 1;
    match result
    case Deleted =>
      if dryRun then answers == []
      else answers != [] && AllRetryable(answers[..last]) && (answers[last] == Accepted || answers[last] == NotFound)
    case Failed(ApiError(answer)) =>
      answers != [] && AllRetryable(answers[..last]) && answers[last] == Fatal == answer
    case Failed(RateLimited) => AllRetryable(answers)
    case Cancelled => AllRetryable(answers)
    case Exhausted => |answers| == Backoff.DEFAULT.steps && AllRetryable(answers)
  }

  lemma TurnGoesOn(env: Environment, n: nat, p: Policy, r: Resource, step: nat)
    ensures
      var turn := Turn(env, n, p, r, step);
      var answers := Answers(turn.ev);
      && (step < Backoff.DEFAULT.steps && turn.result.None? ==> answers == [Retryable])
      && (step < Backoff.DEFAULT.steps && turn.result.Some? ==>
            turn.result.value != Exhausted && Explains(answers, p.spec.behavior.dryRun, turn.result.value))
      && |answers| <= 1
      && (p.spec.behavior.dryRun ==> answers == [])
  {
    hide Answers, Backoff.Wait;
    AnswersOfTurn(env, n, p, r, step);
    assert Backoff.Growing(Backoff.DEFAULT);
    Backoff.WaitZeroOnlyWhenExhausted(Backoff.DEFAULT, step);
  }

  lemma {:induction false} TurnsExplained(env: Environment, n: nat, p: Policy, r: Resource, turns: nat)
    requires turns <= Backoff.DEFAULT.steps
    ensures
      var loop := Turns(env, n, p, r, turns);
      var answers := Answers(loop.ev);
      && |answers| <= turns
      && (p.spec.behavior.dryRun ==> answers == [])
      && (loop.result.None? ==> |answers| == turns && AllRetryable(answers))
      && (loop.result.Some? ==> loop.result.value != Exhausted && Explains(answers, p.spec.behavior.dryRun, loop.result.value))
  {
    hide Turn, Answers;
    if turns == 0 {
      AnswersNone();
    } else {
      TurnsExplained(env, n, p, r, turns - 1);
      var before := Turns(env, n, p, r, turns - 1);
      if before.result.None? {
        var turn := Turn(env, n + |before.ev|, p, r, turns - 1);
        TurnGoesOn(env, n + |before.ev|, p, r, turns - 1);
        AnswersAppend(before.ev, turn.ev);
        if turn.result.Some? {
          ExplainsAfter(Answers(before.ev), Answers(turn.ev), p.spec.behavior.dryRun, turn.result.value, turns - 1);
        }
      }
    }
  }

  lemma AnswersNone()
    ensures Answers([]) == []
  {
  }

  lemma ExplainsAfter(before: seq<Answer>, answers: seq<Answer>, dryRun: bool, result: Result, turns: nat)
    requires AllRetryable(before) && |before| == turns
    requires result != Exhausted && Explains(answers, dryRun, result)
    requires dryRun ==> before == []
    ensures Explains(before + answers, dryRun, result)
  {
    if answers != [] {
      var last := |before + answers| - 1;
      assert (before + answers)[..last] == before + answers[..|answers| - 1];
    } else {
      assert before + answers == before;
    }
  }

  /**
   Why a loop that began at n gave up, apart from the answers: cancelled means that the context was
   done by the end of its events, and rate-limited that its last event is a refused token, so that
   it asked less often than it had turns.
   */
  ghost predicate GaveUp(env: Environment, n: nat, ev: seq<Event>, turns: nat, result: Result) {
    && (result == Cancelled ==> ev != [] && (env.done(n + |ev| - 1) || env.done(n + |ev|)))
    && (result == Failed(RateLimited) ==>
          ev != [] && ev[|ev| - 1].Waited? && !ev[|ev| - 1].granted && |Answers(ev)| < turns)
  }

  lemma TurnGaveUp(env: Environment, n: nat, p: Policy, r: Resource, step: nat)
    ensures
      var turn := Turn(env, n, p, r, step);
      turn.result.Some? ==> GaveUp(env, n, turn.ev, 1, turn.result.value)
  {
    hide Answers, Backoff.Wait, BuildDeleteOptions, RequestedRate;
    AnswersOfTurn(env, n, p, r, step);
  }

  lemma GaveUpAfter(env: Environment, n: nat, before: seq<Event>, ev: seq<Event>, turns: nat, result: Result)
    requires |Answers(before)| <= turns && GaveUp(env, n + |before|, ev, 1, result)
    ensures GaveUp(env, n, before + ev, turns + 1, result)
  {
    hide Answers;
    AnswersAppend(before, ev);
    if |ev| > 0 {
      assert (before + ev)[|before + ev| - 1] == ev[|ev| - 1];
    }
  }

  lemma {:induction false} TurnsGaveUp(env: Environment, n: nat, p: Policy, r: Resource, turns: nat)
    requires turns <= Backoff.DEFAULT.steps
    ensures
      var loop := Turns(env, n, p, r, turns);
      loop.result.Some? ==> GaveUp(env, n, loop.ev, turns, loop.result.value)
  {
    hide Turn, Answers, GaveUp;
    if turns > 0 {
      TurnsGaveUp(env, n, p, r, turns - 1);
      var before := Turns(env, n, p, r, turns - 1);
      if before.result.Some? {
        GaveUpLater(env, n, before.ev, turns - 1, before.result.value);
      } else {
        var turn := Turn(env, n + |before.ev|, p, r, turns - 1);
        TurnsExplained(env, n, p, r, turns - 1);
        TurnGaveUp(env, n + |before.ev|, p, r, turns - 1);
        if turn.result.Some? {
          GaveUpAfter(env, n, before.ev, turn.ev, turns - 1, turn.result.value);
        }
      }
    }
  }

  lemma GaveUpLater(env: Environment, n: nat, ev: seq<Event>, turns: nat, result: Result)
    requires GaveUp(env, n, ev, turns, result)
    ensures GaveUp(env, n, ev, turns + 1, result)
  {
  }

  /**
   The contract of the retry loop. At most five answers are asked for, all but the last of them
   retryable; it succeeds exactly when the last is Accepted or NotFound (a dry run succeeds without
   asking); a fatal answer ends it at once. It is cancelled only on a context that is done, and
   rate-limited only by a token refused after fewer than five answers; so five retryable answers
   exhaust it, and nothing else does, unless the context is done when they are in.
   */
  lemma RetryContract(env: Environment, n: nat, p: Policy, r: Resource)
    ensures
      var a := DeleteWithBackoff(env, n, p, r);
      var answers := Answers(a.ev);
      && |answers| <= 5
      && Explains(answers, p.spec.behavior.dryRun, a.result)
      && (!p.spec.behavior.dryRun ==>
            (a.result == Deleted <==>
               answers != [] && (answers[|answers| - 1] == Accepted || answers[|answers| - 1] == NotFound)))
      && (Fatal in answers ==> a.result == Failed(ApiError(Fatal)))
      && GaveUp(env, n, a.ev, 5, a.result)
      && (a.result == Exhausted ==> |answers| == 5 && AllRetryable(answers))
      && (|answers| == 5 && AllRetryable(answers) ==>
            a.result == Exhausted
            || (a.result == Cancelled && (env.done(n + |a.ev| - 1) || env.done(n + |a.ev|))))
  {
    hide Turns, Answers;
    TurnsExplained(env, n, p, r, Backoff.DEFAULT.steps);
    TurnsGaveUp(env, n, p, r, Backoff.DEFAULT.steps);
    var answers := Answers(DeleteWithBackoff(env, n, p, r).ev);
    if answers != [] {
      var last := |answers| - 1;
      assert forall i :: 0 <= i < last ==> answers[i] == answers[..last][i];
    }
  }

  // ---------------------------------------------------------- event by event

  /** The events of the loop come round in fours: context, token, call, and a sleep twice as long each time. */
  ghost predicate InStep(env: Environment, n: nat, p: Policy, r: Resource, i: nat, e: Event) {
    match i % 4
    case 0 => e == CheckedContext(env.done(n + i))
    case 1 => e == Waited(T.Rate(p.spec.behavior), env.Grants(n + i))
    case 2 =>
      && e.ApiDelete? && e.policy == p && e.resource == r && e.answer == env.answers(n + i)
      && T.AsAsked(e.options, p.spec.behavior) && !p.spec.behavior.dryRun
    case _ => e == Slept(Backoff.Power(2, i / 4) * 105_000_000, env.Interrupts(n + i))
  }

  /** After which events there is a next one. */
  predicate GoesOn(e: Event, dryRun: bool) {
    || e == CheckedContext(false)
    || (e.Waited? && e.granted && !dryRun)
    || (e.ApiDelete? && e.answer == Retryable)
    || (e.Slept? && !e.interrupted)
  }

  /** What the last event makes of the loop. */
  function ResultOf(last: Event): Result {
    match last
    case Waited(_, granted) => if granted then Deleted else Failed(RateLimited)
    case ApiDelete(_, _, _, answer) => if answer == Accepted || answer == NotFound then Deleted else Failed(ApiError(answer))
    case Slept(_, false) => Exhausted
    case _ => Cancelled
  }

  /** Events from a position of the loop on. */
  ghost predicate AllInStep(env: Environment, n: nat, p: Policy, r: Resource, from: nat, ev: seq<Event>) {
    && (forall i: nat :: i < |ev| ==> InStep(env, n, p, r, from + i, ev[i]))
    && (forall i: nat :: i + 1 < |ev| ==> GoesOn(ev[i], p.spec.behavior.dryRun))
  }

  /** Whether the loop goes on after its events, or with which result it is left. */
  ghost predicate LeftRightly(ev: seq<Event>, dryRun: bool, result: Option<Result>) {
    if result.None? then ev == [] || GoesOn(ev[|ev| - 1], dryRun)
    else ev != [] && !GoesOn(ev[|ev| - 1], dryRun) && result.value == ResultOf(ev[|ev| - 1])
  }

  /** A round, were it to go all the way. */
  function Round(env: Environment, n: nat, p: Policy, r: Resource, step: nat): (whole: seq<Event>)
    ensures |whole| == 4
  {
    [CheckedContext(env.done(n)),
     Waited(RequestedRate(p.spec.behavior), env.Grants(n + 1)),
     ApiDelete(p, r, BuildDeleteOptions(p.spec.behavior), env.answers(n + 2)),
     Slept(Backoff.Wait(Backoff.DEFAULT, step), env.Interrupts(n + 3))]
  }

  lemma TurnEvents(env: Environment, n: nat, p: Policy, r: Resource, step: nat)
    requires Backoff.Wait(Backoff.DEFAULT, step) != 0
    ensures
      var turn, whole, dryRun := Turn(env, n, p, r, step), Round(env, n, p, r, step), p.spec.behavior.dryRun;
      var length :=
        if !GoesOn(whole[0], dryRun) then 1 else if !GoesOn(whole[1], dryRun) then 2
        else if !GoesOn(whole[2], dryRun) then 3 else 4;
      && turn.ev == whole[..length]
      && turn.result == if length == 4 && GoesOn(whole[3], dryRun) then None else Some(ResultOf(whole[length - 1]))
  {
    hide Backoff.Wait, BuildDeleteOptions, RequestedRate;
  }

  lemma RoundInStep(env: Environment, n: nat, p: Policy, r: Resource, k: nat, i: nat)
    requires k < 5 && i < 4
    requires i == 2 ==> !p.spec.behavior.dryRun
    ensures InStep(env, n, p, r, 4 * k + i, Round(env, n + 4 * k, p, r, k)[i])
  {
    hide BuildDeleteOptions, RequestedRate, T.AsAsked, Backoff.Wait, Backoff.Power;
    T.BehaviorAsAsked(p.spec.behavior);
    Backoff.DefaultWait(k);
    assert (4 * k + i) % 4 == i && (4 * k + i) / 4 == k;
  }

  lemma TurnInStep(env: Environment, n: nat, p: Policy, r: Resource, k: nat)
    requires k < 5
    ensures
      var turn := Turn(env, n + 4 * k, p, r, k);
      && AllInStep(env, n, p, r, 4 * k, turn.ev)
      && LeftRightly(turn.ev, p.spec.behavior.dryRun, turn.result)
      && 0 < |turn.ev| <= 4 && (turn.result.None? ==> |turn.ev| == 4)
  {
    hide Turn, Round, InStep, ResultOf, Backoff.Wait;
    Backoff.WaitZeroOnlyWhenExhausted(Backoff.DEFAULT, k);
    TurnEvents(env, n + 4 * k, p, r, k);
    WaitedInRound(env, n + 4 * k, p, r, k);
    var ev := Turn(env, n + 4 * k, p, r, k).ev;
    forall i: nat | i < |ev|
      ensures InStep(env, n, p, r, 4 * k + i, ev[i])
    {
      RoundInStep(env, n, p, r, k, i);
    }
  }

  lemma WaitedInRound(env: Environment, n: nat, p: Policy, r: Resource, step: nat)
    ensures Round(env, n, p, r, step)[1].Waited?
  {
  }

  lemma InStepAppend(env: Environment, n: nat, p: Policy, r: Resource, a: seq<Event>, b: seq<Event>)
    requires AllInStep(env, n, p, r, 0, a) && LeftRightly(a, p.spec.behavior.dryRun, None)
    requires AllInStep(env, n, p, r, |a|, b)
    ensures AllInStep(env, n, p, r, 0, a + b)
  {
    hide InStep, GoesOn;
    forall i: nat | i < |a + b|
      ensures InStep(env, n, p, r, i, (a + b)[i])
    {
      if i < |a| {
        assert InStep(env, n, p, r, 0 + i, a[i]);
      } else {
        assert InStep(env, n, p, r, |a| + (i - |a|), b[i - |a|]);
      }
    }
    forall i: nat | i + 1 < |a + b|
      ensures GoesOn((a + b)[i], p.spec.behavior.dryRun)
    {
      if i < |a| {
        assert (a + b)[i] == a[i];
      } else {
        assert (a + b)[i] == b[i - |a|];
      }
    }
  }

  lemma {:induction false} TurnsInStep(env: Environment, n: nat, p: Policy, r: Resource, turns: nat)
    requires turns <= 5
    ensures
      var loop := Turns(env, n, p, r, turns);
      && AllInStep(env, n, p, r, 0, loop.ev)
      && LeftRightly(loop.ev, p.spec.behavior.dryRun, loop.result)
      && |loop.ev| <= 4 * turns && (loop.result.None? ==> |loop.ev| == 4 * turns)
  {
    hide Turn, AllInStep, GoesOn, ResultOf;
    if turns == 0 {
      NoneInStep(env, n, p, r);
    } else {
      TurnsInStep(env, n, p, r, turns - 1);
      var before := Turns(env, n, p, r, turns - 1);
      if before.result.None? {
        TurnInStep(env, n, p, r, turns - 1);
        InStepAppend(env, n, p, r, before.ev, Turn(env, n + |before.ev|, p, r, turns - 1).ev);
      }
    }
  }

  lemma NoneInStep(env: Environment, n: nat, p: Policy, r: Resource)
    ensures AllInStep(env, n, p, r, 0, [])
  {
  }

  /**
   The retry loop event by event: in rounds of four it looks at the context, asks for a token at the
   policy's rate, calls the API in the policy's way, and sleeps, 105 ms and twice as long each time; what
   the outside does at an event decides whether there is a next one, up to five rounds; and the last
   event decides the result.
   */
  lemma RetryEventByEvent(env: Environment, n: nat, p: Policy, r: Resource)
    ensures
      var a := DeleteWithBackoff(env, n, p, r);
      && 0 < |a.ev| <= 20
      && (forall i: nat :: i < |a.ev| ==> InStep(env, n, p, r, i, a.ev[i]))
      && (forall i: nat :: i < |a.ev| ==> (i + 1 < |a.ev| <==> i < 19 && GoesOn(a.ev[i], p.spec.behavior.dryRun)))
      && a.result == ResultOf(a.ev[|a.ev| - 1])
  {
    hide Turns, InStep;
    TurnsInStep(env, n, p, r, 5);
    var loop := Turns(env, n, p, r, 5);
    assert forall i: nat :: i < |loop.ev| ==> InStep(env, n, p, r, 0 + i, loop.ev[i]);
    if loop.result.None? {
      LastIsSleep(env, n, p, r, loop.ev[19]);
    }
  }

  lemma LastIsSleep(env: Environment, n: nat, p: Policy, r: Resource, e: Event)
    requires InStep(env, n, p, r, 19, e)
    ensures e.Slept?
  {
  }

  // ------------------------------------------------------------ accounting

  /** How many tokens were granted and refused, API deletes made, and resources gone. */
  datatype Tally = Tally(granted: nat, refused: nat, calls: nat, gone: nat)

  function Plus(a: Tally, b: Tally): Tally {
    Tally(a.granted + b.granted, a.refused + b.refused, a.calls + b.calls, a.gone + b.gone)
  }

  const ZERO := Tally(0, 0, 0, 0)

  function TallyOfEvent(e: Event): Tally {
    match e
    case Waited(_, granted) => if granted then Tally(1, 0, 0, 0) else Tally(0, 1, 0, 0)
    case ApiDelete(_, _, _, answer) => Tally(0, 0, 1, if answer == Accepted || answer == NotFound then 1 else 0)
    case _ => ZERO
  }

  function TallyOf(ev: seq<Event>): Tally {
    if |ev| == 0 then ZERO else Plus(TallyOfEvent(ev[0]), TallyOf(ev[1..]))
  }

  lemma TallyFirst(ev: seq<Event>)
    requires |ev| > 0
    ensures TallyOf(ev) == Plus(TallyOfEvent(ev[0]), TallyOf(ev[1..]))
  {
  }

  lemma PlusAssociative(a: Tally, b: Tally, c: Tally)
    ensures Plus(a, Plus(b, c)) == Plus(Plus(a, b), c) && Plus(ZERO, c) == c
  {
  }

  lemma {:induction false} TallyAppend(a: seq<Event>, b: seq<Event>)
    ensures TallyOf(a + b) == Plus(TallyOf(a), TallyOf(b))
  {
    hide TallyOfEvent, TallyOf, Plus;
    if |a| == 0 {
      assert a + b == b && a == [];
      TallyNone();
      PlusAssociative(ZERO, ZERO, TallyOf(b));
    } else {
      var c := a + b;
      assert c[1..] == a[1..] + b && c[0] == a[0];
      TallyFirst(a);
      TallyFirst(c);
      TallyAppend(a[1..], b);
      PlusAssociative(TallyOfEvent(a[0]), TallyOf(a[1..]), TallyOf(b));
    }
  }

  lemma TallyOne(e: Event)
    ensures TallyOf([e]) == TallyOfEvent(e)
  {
    hide TallyOfEvent;
    assert [e][1..] == [];
  }

  lemma TallyTwo(e: Event, f: Event)
    ensures TallyOf([e, f]) == Plus(TallyOfEvent(e), TallyOfEvent(f))
  {
    hide TallyOfEvent;
    TallyOne(f);
    assert [e, f][1..] == [f];
  }

  /** What a policy spends per resource: a token for each API delete, or, in a dry run, for each success. */
  function Spent(t: Tally, dryRun: bool, deleted: nat): nat {
    if dryRun then deleted else t.calls
  }

  ghost predicate Balanced(t: Tally, dryRun: bool, deleted: nat, refused: nat) {
    && t.granted == Spent(t, dryRun, deleted)
    && t.refused == refused
    && (if dryRun then t.calls == 0 else t.gone == deleted)
  }

  lemma TallyOfWait(rate: int64, granted: bool)
    ensures TallyOf([Waited(rate, granted)]) == if granted then Tally(1, 0, 0, 0) else Tally(0, 1, 0, 0)
  {
    hide TallyOf;
    TallyOne(Waited(rate, granted));
  }

  lemma EventTallies(rate: int64, p: Policy, r: Resource, options: DeleteOptions, answer: Answer)
    ensures TallyOfEvent(Waited(rate, true)) == Tally(1, 0, 0, 0)
    ensures TallyOfEvent(ApiDelete(p, r, options, answer))
         == Tally(0, 0, 1, if answer == Accepted || answer == NotFound then 1 else 0)
  {
  }

  lemma TallyOfCall(rate: int64, p: Policy, r: Resource, options: DeleteOptions, answer: Answer)
    ensures TallyOf([Waited(rate, true), ApiDelete(p, r, options, answer)])
         == Tally(1, 0, 1, if answer == Accepted || answer == NotFound then 1 else 0)
  {
    hide TallyOf, TallyOfEvent;
    TallyTwo(Waited(rate, true), ApiDelete(p, r, options, answer));
    EventTallies(rate, p, r, options, answer);
  }

  lemma OnceBalanced(env: Environment, n: nat, p: Policy, r: Resource)
    ensures
      var once := DeleteOnce(env, n, p, r);
      Balanced(TallyOf(once.ev), p.spec.behavior.dryRun,
               if once.error.None? then 1 else 0, if once.error == Some(RateLimited) then 1 else 0)
    ensures DeleteOnce(env, n, p, r).error != Some(ApiError(NotFound))
  {
    hide TallyOf, TallyOfEvent, Plus, BuildDeleteOptions, RequestedRate;
    var rate, options := RequestedRate(p.spec.behavior), BuildDeleteOptions(p.spec.behavior);
    TallyOfWait(rate, env.Grants(n));
    TallyOfCall(rate, p, r, options, env.answers(n + 1));
  }

  /** A turn is a look at the context, a delete, and at most a sleep; only a delete without error makes it Deleted. */
  lemma TurnShape(env: Environment, n: nat, p: Policy, r: Resource, step: nat)
    requires !env.done(n)
    ensures
      var once, turn := DeleteOnce(env, n + 1, p, r), Turn(env, n, p, r, step);
      var wait := Backoff.Wait(Backoff.DEFAULT, step);
      && (turn.ev == [CheckedContext(false)] + once.ev
          || turn.ev == [CheckedContext(false)] + once.ev + [Slept(wait, true)]
          || turn.ev == [CheckedContext(false)] + once.ev + [Slept(wait, false)])
      && (turn.result == Some(Deleted) <==> once.error.None?)
      && (turn.result == Some(Failed(RateLimited)) <==> once.error == Some(RateLimited))
  {
    hide Backoff.Wait, BuildDeleteOptions, RequestedRate;
  }

  lemma TurnBalanced(env: Environment, n: nat, p: Policy, r: Resource, step: nat)
    ensures
      var turn := Turn(env, n, p, r, step);
      Balanced(TallyOf(turn.ev), p.spec.behavior.dryRun,
               if turn.result == Some(Deleted) then 1 else 0, if turn.result == Some(Failed(RateLimited)) then 1 else 0)
  {
    if env.done(n) {
      hide TallyOf;
      TallyOne(CheckedContext(true));
    } else {
      hide TallyOf, DeleteOnce, Backoff.Wait, Turn;
      OnceBalanced(env, n + 1, p, r);
      TurnShape(env, n, p, r, step);
      var once, wait := DeleteOnce(env, n + 1, p, r), Backoff.Wait(Backoff.DEFAULT, step);
      TallyWithin(CheckedContext(false), once.ev, Slept(wait, false));
      TallyWithin(CheckedContext(false), once.ev, Slept(wait, true));
    }
  }

  lemma TallyWithin(e: Event, ev: seq<Event>, f: Event)
    requires e.CheckedContext? && f.Slept?
    ensures TallyOf([e] + ev) == TallyOf([e] + ev + [f]) == TallyOf(ev)
  {
    hide TallyOf;
    TallyOne(e);
    TallyOne(f);
    TallyAppend([e], ev);
    TallyAppend([e] + ev, [f]);
  }

  lemma {:induction false} TurnsBalanced(env: Environment, n: nat, p: Policy, r: Resource, turns: nat)
    ensures
      var loop := Turns(env, n, p, r, turns);
      Balanced(TallyOf(loop.ev), p.spec.behavior.dryRun,
               if loop.result == Some(Deleted) then 1 else 0, if loop.result == Some(Failed(RateLimited)) then 1 else 0)
  {
    hide TallyOf, Turn;
    if turns == 0 {
      TallyNone();
    } else {
      TurnsBalanced(env, n, p, r, turns - 1);
      var before := Turns(env, n, p, r, turns - 1);
      if before.result.None? {
        TurnBalanced(env, n + |before.ev|, p, r, turns - 1);
        TallyAppend(before.ev, Turn(env, n + |before.ev|, p, r, turns - 1).ev);
      }
    }
  }

  lemma TallyNone()
    ensures TallyOf([]) == ZERO
  {
  }

  /** The errors of resources that had been given a token. */
  function Reached(errors: seq<Failure>): nat {
    if errors == [] then 0 else (if errors[0].reason.NotDeleted? then 1 else 0) + Reached(errors[1..])
  }

  /** The errors that a refused token is behind: the resource's own, or one of its retry loop. */
  function Refused(errors: seq<Failure>): nat {
    if errors == [] then 0
    else
      (if errors[0].reason == NoToken || errors[0].reason == NotDeleted(Failed(RateLimited)) then 1 else 0)
      + Refused(errors[1..])
  }

  lemma {:induction false} ReachedAppend(a: seq<Failure>, b: seq<Failure>)
    ensures Reached(a + b) == Reached(a) + Reached(b)
    ensures Refused(a + b) == Refused(a) + Refused(b)
  {
    if a == [] {
      assert a + b == b;
    } else {
      ReachedAppend(a[1..], b);
      assert (a + b)[1..] == a[1..] + b;
    }
  }

  /**
   The tokens of a batch, to the last one: one for every resource that got past its own wait, and
   one for every API delete (or dry-run success). Nothing is deleted without an answer that says so.
   */
  ghost predicate Accounted(b: Batch, dryRun: bool) {
    var t := TallyOf(b.ev);
    && t.granted == b.deleted + Reached(b.errors) + Spent(t, dryRun, b.deleted)
    && t.refused == Refused(b.errors)
    && (if dryRun then t.calls == 0 else t.gone == b.deleted)
  }

  lemma ThenAccounted(a: Batch, b: Batch, dryRun: bool)
    requires Accounted(a, dryRun) && Accounted(b, dryRun)
    ensures Accounted(Then(a, b), dryRun)
  {
    hide TallyOf, Reached, Refused;
    TallyAppend(a.ev, b.ev);
    ReachedAppend(a.errors, b.errors);
  }

  lemma NothingAccounted(dryRun: bool)
    ensures Accounted(NOTHING, dryRun)
  {
  }

  lemma LookAccounted(env: Environment, n: nat, dryRun: bool)
    ensures Accounted(Look(env, n), dryRun)
  {
    hide TallyOf;
    TallyOne(CheckedContext(env.done(n)));
  }

  lemma OneAccounted(env: Environment, n: nat, p: Policy, r: Resource)
    ensures Accounted(DeleteOne(env, n, p, r), p.spec.behavior.dryRun)
  {
    hide TallyOf, Turns, Reached, Refused;
    var rate := RequestedRate(p.spec.behavior);
    TallyOne(Waited(rate, env.Grants(n)));
    if env.Grants(n) {
      var a := DeleteWithBackoff(env, n + 1, p, r);
      TurnsBalanced(env, n + 1, p, r, Backoff.DEFAULT.steps);
      TallyAppend([Waited(rate, true)], a.ev);
      ReachedOne(Failure(r, NotDeleted(a.result)));
    } else {
      ReachedOne(Failure(r, NoToken));
    }
  }

  lemma ReachedOne(f: Failure)
    ensures Reached([f]) == if f.reason.NotDeleted? then 1 else 0
    ensures Refused([f]) == if f.reason == NoToken || f.reason == NotDeleted(Failed(RateLimited)) then 1 else 0
    ensures Reached([]) == 0 && Refused([]) == 0
  {
    assert [f][1..] == [];
  }

  lemma {:induction false} BatchAccounted(env: Environment, n: nat, p: Policy, batch: seq<Resource>, k: nat)
    requires k <= |batch|
    ensures Accounted(BatchTo(env, n, p, batch, k), p.spec.behavior.dryRun)
  {
    hide Accounted, DeleteOne, Look;
    var dryRun := p.spec.behavior.dryRun;
    if k == 0 {
      NothingAccounted(dryRun);
    } else {
      BatchAccounted(env, n, p, batch, k - 1);
      var before := BatchTo(env, n, p, batch, k - 1);
      var look := Look(env, n + |before.ev|);
      LookAccounted(env, n + |before.ev|, dryRun);
      ThenAccounted(before, look, dryRun);
      var looked := if (k - 1) % CONTEXT_CHECK_INTERVAL == 0 then Then(before, look) else before;
      OneAccounted(env, n + |looked.ev|, p, batch[k - 1]);
      ThenAccounted(looked, DeleteOne(env, n + |looked.ev|, p, batch[k - 1]), dryRun);
    }
  }

  lemma {:induction false} QueueAccounted(env: Environment, n: nat, p: Policy, queue: seq<Resource>, size: int64)
    requires size > 0
    ensures Accounted(DeleteQueue(env, n, p, queue, size), p.spec.behavior.dryRun)
    decreases |queue|
  {
    hide Accounted, BatchTo, DeleteQueue, Look;
    var dryRun := p.spec.behavior.dryRun;
    if queue == [] {
      QueueNone(env, n, p, queue, size);
      NothingAccounted(dryRun);
    } else {
      QueueNext(env, n, p, queue, size);
      LookAccounted(env, n, dryRun);
      var end: nat := if size < |queue| then size else |queue|;
      var batch := BatchTo(env, n + 1, p, queue[..end], end);
      BatchAccounted(env, n + 1, p, queue[..end], end);
      StoppedAccounted(batch, dryRun);
      var step := Then(Look(env, n), batch.(stopped := false));
      ThenAccounted(Look(env, n), batch.(stopped := false), dryRun);
      QueueAccounted(env, n + |step.ev|, p, queue[end..], size);
      ThenAccounted(step, DeleteQueue(env, n + |step.ev|, p, queue[end..], size), dryRun);
    }
  }

  lemma StoppedAccounted(b: Batch, dryRun: bool)
    requires Accounted(b, dryRun)
    ensures Accounted(b.(stopped := false), dryRun)
  {
  }

  /**
   Over a whole queue: what is reported deleted is exactly what the API server said is gone, each at
   the price of at least two tokens; a dry run reports deletions, spends tokens and deletes nothing.
   Tokens are asked for once by every resource that is deleted or in an error, and once by every
   attempt to delete: an API delete, a success of a dry run, or an attempt that is refused its token.
   */
  lemma TokenAccounting(env: Environment, n: nat, p: Policy, queue: seq<Resource>, size: int64)
    requires size > 0
    ensures
      var b := DeleteQueue(env, n, p, queue, size);
      var t := TallyOf(b.ev);
      && 2 * b.deleted <= t.granted
      && (p.spec.behavior.dryRun ==> t.calls == 0 && t.granted == 2 * b.deleted + Reached(b.errors))
      && (!p.spec.behavior.dryRun ==> t.gone == b.deleted && t.granted == t.calls + b.deleted + Reached(b.errors))
      && t.refused == Refused(b.errors)
      && t.granted + t.refused ==
           b.deleted + |b.errors| + Spent(t, p.spec.behavior.dryRun, b.deleted) + RefusedAttempts(b.errors)
  {
    hide DeleteQueue, TallyOf;
    QueueAccounted(env, n, p, queue, size);
    GoneWereCalled(DeleteQueue(env, n, p, queue, size).ev);
    RefusedEitherWay(DeleteQueue(env, n, p, queue, size).errors);
  }

  /** The errors of resources whose retry loop was refused a token. */
  function RefusedAttempts(errors: seq<Failure>): nat {
    if errors == [] then 0
    else (if errors[0].reason == NotDeleted(Failed(RateLimited)) then 1 else 0) + RefusedAttempts(errors[1..])
  }

  lemma {:induction false} RefusedEitherWay(errors: seq<Failure>)
    ensures Reached(errors) + Refused(errors) == |errors| + RefusedAttempts(errors)
  {
    if errors != [] {
      RefusedEitherWay(errors[1..]);
    }
  }

  lemma {:induction false} GoneWereCalled(ev: seq<Event>)
    ensures TallyOf(ev).gone <= TallyOf(ev).calls
  {
    if ev != [] {
      GoneWereCalled(ev[1..]);
    }
  }

  // ---------------------------------------------------------------- sleeping

  /** The time slept, when nothing cuts a sleep short. */
  function Sleeping(ev: seq<Event>): int {
    if |ev| == 0 then 0 else SleepingBy(ev[0]) + Sleeping(ev[1..])
  }

  function SleepingBy(e: Event): int {
    if e.Slept? then e.duration else 0
  }

  lemma SleepingFirst(ev: seq<Event>)
    requires |ev| > 0
    ensures Sleeping(ev) == SleepingBy(ev[0]) + Sleeping(ev[1..])
    ensures Sleeping([]) == 0
  {
  }

  lemma {:induction false} SleepingAppend(a: seq<Event>, b: seq<Event>)
    ensures Sleeping(a + b) == Sleeping(a) + Sleeping(b)
  {
    hide Sleeping, SleepingBy;
    if |a| == 0 {
      SleepingFirst([CheckedContext(true)]);
      assert a + b == b && a == [];
    } else {
      assert (a + b)[1..] == a[1..] + b && (a + b)[0] == a[0];
      SleepingFirst(a);
      SleepingFirst(a + b);
      SleepingAppend(a[1..], b);
    }
  }

  lemma SleepingOne(e: Event)
    ensures Sleeping([e]) == SleepingBy(e)
  {
    hide SleepingBy;
    assert [e][1..] == [];
  }

  lemma OnceSleepsNot(env: Environment, n: nat, p: Policy, r: Resource)
    ensures Sleeping(DeleteOnce(env, n, p, r).ev) == 0
  {
    hide Sleeping, BuildDeleteOptions, RequestedRate;
    var rate, options := RequestedRate(p.spec.behavior), BuildDeleteOptions(p.spec.behavior);
    var wait, call := Waited(rate, true), ApiDelete(p, r, options, env.answers(n + 1));
    SleepingOne(Waited(rate, false));
    SleepingOne(wait);
    SleepingOne(call);
    SleepingAppend([wait], [call]);
    assert [wait] + [call] == [wait, call];
  }

  lemma TurnSleeps(env: Environment, n: nat, p: Policy, r: Resource, step: nat)
    ensures 0 <= Sleeping(Turn(env, n, p, r, step).ev) <= Backoff.Wait(Backoff.DEFAULT, step)
  {
    hide Sleeping, DeleteOnce, Backoff.Wait, Turn;
    Backoff.WaitZeroOnlyWhenExhausted(Backoff.DEFAULT, step);
    if env.done(n) {
      DoneTurn(env, n, p, r, step);
      SleepingOne(CheckedContext(true));
    } else {
      TurnShape(env, n, p, r, step);
      OnceSleepsNot(env, n + 1, p, r);
      var once, wait := DeleteOnce(env, n + 1, p, r), Backoff.Wait(Backoff.DEFAULT, step);
      var ev := [CheckedContext(false)] + once.ev;
      SleepingOne(CheckedContext(false));
      SleepingAppend([CheckedContext(false)], once.ev);
      SleepingOne(Slept(wait, true));
      SleepingAppend(ev, [Slept(wait, true)]);
      SleepingOne(Slept(wait, false));
      SleepingAppend(ev, [Slept(wait, false)]);
    }
  }

  lemma DoneTurn(env: Environment, n: nat, p: Policy, r: Resource, step: nat)
    requires env.done(n)
    ensures Turn(env, n, p, r, step).ev == [CheckedContext(true)]
  {
  }

  lemma {:induction false} TurnsSleep(env: Environment, n: nat, p: Policy, r: Resource, turns: nat)
    ensures 0 <= Sleeping(Turns(env, n, p, r, turns).ev) <= Backoff.TotalWait(Backoff.DEFAULT, turns)
  {
    hide Turn, Sleeping, Backoff.Wait;
    if turns == 0 {
      SleepingFirst([CheckedContext(true)]);
    } else {
      TurnsSleep(env, n, p, r, turns - 1);
      var before := Turns(env, n, p, r, turns - 1);
      Backoff.WaitZeroOnlyWhenExhausted(Backoff.DEFAULT, turns - 1);
      TurnSleeps(env, n + |before.ev|, p, r, turns - 1);
      SleepingAppend(before.ev, Turn(env, n + |before.ev|, p, r, turns - 1).ev);
    }
  }

  /** The retry loop of one resource sleeps for at most 3.255 seconds in all. */
  lemma RetrySleepsAtMost(env: Environment, n: nat, p: Policy, r: Resource)
    ensures 0 <= Sleeping(DeleteWithBackoff(env, n, p, r).ev) <= 3255 * Backoff.MILLISECOND
  {
    hide Sleeping, Turns, Backoff.Wait, Backoff.TotalWait;
    TurnsSleep(env, n, p, r, 5);
    Backoff.DefaultWaits();
  }

  // ---------------------------------------------------------- conservation

  lemma OneConserves(env: Environment, n: nat, p: Policy, r: Resource)
    ensures
      var one := DeleteOne(env, n, p, r);
      one.deleted + |one.errors| == 1 && !one.stopped
  {
    hide DeleteWithBackoff, RequestedRate;
  }

  /** A look that found the context done, in events that begin at n. */
  ghost predicate SeesDone(env: Environment, n: nat, ev: seq<Event>) {
    exists i: nat :: i < |ev| && ev[i] == CheckedContext(true) && env.done(n + i)
  }

  lemma SeesDoneThen(env: Environment, n: nat, a: seq<Event>, b: seq<Event>)
    requires SeesDone(env, n, a) || SeesDone(env, n + |a|, b)
    ensures SeesDone(env, n, a + b)
  {
    if SeesDone(env, n, a) {
      var i: nat :| i < |a| && a[i] == CheckedContext(true) && env.done(n + i);
      assert (a + b)[i] == a[i];
    } else {
      var i: nat :| i < |b| && b[i] == CheckedContext(true) && env.done(n + |a| + i);
      assert (a + b)[|a| + i] == b[i];
    }
  }

  lemma LookSeesDone(env: Environment, n: nat)
    requires env.done(n)
    ensures SeesDone(env, n, Look(env, n).ev)
  {
    assert Look(env, n).ev[0] == CheckedContext(true) && env.done(n + 0);
  }

  /** One resource more. */
  lemma BatchOneMore(env: Environment, n: nat, p: Policy, batch: seq<Resource>, k: nat)
    requires k < |batch| && !BatchTo(env, n, p, batch, k).stopped
    ensures
      var before := BatchTo(env, n, p, batch, k);
      var looked := if k % CONTEXT_CHECK_INTERVAL == 0 then Then(before, Look(env, n + |before.ev|)) else before;
      var after := BatchTo(env, n, p, batch, k + 1);
      && after == (if looked.stopped then looked else Then(looked, DeleteOne(env, n + |looked.ev|, p, batch[k])))
      && (looked.stopped <==> k % CONTEXT_CHECK_INTERVAL == 0 && env.done(n + |before.ev|))
      && (!looked.stopped ==> !after.stopped)
  {
    hide DeleteWithBackoff;
  }

  /** A batch handles all its resources, or stops before one of them at a look that finds the context done. */
  lemma {:induction false} BatchConserves(env: Environment, n: nat, p: Policy, batch: seq<Resource>, k: nat)
    requires k <= |batch|
    ensures
      var b := BatchTo(env, n, p, batch, k);
      && b.deleted + |b.errors| <= k
      && (!b.stopped <==> b.deleted + |b.errors| == k)
      && (b.stopped ==> b.ev != [] && env.done(n + |b.ev| - 1) && SeesDone(env, n, b.ev))
  {
    hide DeleteOne, SeesDone, BatchTo;
    if k == 0 {
      BatchNone(env, n, p, batch);
    } else {
      BatchConserves(env, n, p, batch, k - 1);
      var before := BatchTo(env, n, p, batch, k - 1);
      if before.stopped {
        BatchStops(env, n, p, batch, k - 1, k);
      } else {
        BatchOneMore(env, n, p, batch, k - 1);
        var look := Look(env, n + |before.ev|);
        if env.done(n + |before.ev|) {
          LookSeesDone(env, n + |before.ev|);
          SeesDoneThen(env, n, before.ev, look.ev);
        }
        var looked := if (k - 1) % CONTEXT_CHECK_INTERVAL == 0 then Then(before, look) else before;
        OneConserves(env, n + |looked.ev|, p, batch[k - 1]);
      }
    }
  }

  /** The loop over the batches, or one of the batches, is left at a look before all resources had their turn. */
  predicate CutShort(env: Environment, n: nat, p: Policy, queue: seq<Resource>, size: int64)
    requires size > 0
    decreases |queue|
  {
    queue != [] &&
    (env.done(n) ||
     var end: nat := if size < |queue| then size else |queue|;
     var batch := BatchTo(env, n + 1, p, queue[..end], end);
     batch.stopped || CutShort(env, n + 1 + |batch.ev|, p, queue[end..], size))
  }

  lemma CutShortNext(env: Environment, n: nat, p: Policy, queue: seq<Resource>, size: int64)
    requires size > 0 && queue != [] && !env.done(n)
    ensures
      var end: nat := if size < |queue| then size else |queue|;
      var batch := BatchTo(env, n + 1, p, queue[..end], end);
      var step := Then(Look(env, n), batch.(stopped := false));
      CutShort(env, n, p, queue, size) == (batch.stopped || CutShort(env, n + |step.ev|, p, queue[end..], size))
  {
    hide BatchTo;
  }

  lemma NotCutShort(env: Environment, n: nat, p: Policy, queue: seq<Resource>, size: int64)
    requires size > 0
    ensures queue == [] ==> !CutShort(env, n, p, queue, size)
    ensures queue != [] && env.done(n) ==> CutShort(env, n, p, queue, size)
  {
    hide BatchTo;
  }

  /**
   Every queued resource ends up deleted or in an error, in a queue of any length cut into batches of
   any size, exactly when it is not cut short; and it is cut short only by a look that finds the
   context done. A context that is done and not looked at loses no resource.
   */
  lemma {:induction false} QueueConserves(env: Environment, n: nat, p: Policy, queue: seq<Resource>, size: int64)
    requires size > 0
    ensures
      var b := DeleteQueue(env, n, p, queue, size);
      && b.deleted + |b.errors| <= |queue|
      && (b.deleted + |b.errors| == |queue| <==> !CutShort(env, n, p, queue, size))
      && (CutShort(env, n, p, queue, size) ==> SeesDone(env, n, b.ev))
    decreases |queue|
  {
    hide BatchTo, DeleteQueue, CutShort, SeesDone;
    NotCutShort(env, n, p, queue, size);
    if queue == [] {
      QueueNone(env, n, p, queue, size);
    } else {
      QueueNext(env, n, p, queue, size);
      if env.done(n) {
        LookSeesDone(env, n);
      } else {
        CutShortNext(env, n, p, queue, size);
        var end: nat := if size < |queue| then size else |queue|;
        var batch := BatchTo(env, n + 1, p, queue[..end], end);
        BatchConserves(env, n + 1, p, queue[..end], end);
        var step := Then(Look(env, n), batch.(stopped := false));
        QueueConserves(env, n + |step.ev|, p, queue[end..], size);
        if batch.stopped {
          SeesDoneThen(env, n, Look(env, n).ev, batch.ev);
        }
        var rest := DeleteQueue(env, n + |step.ev|, p, queue[end..], size);
        if SeesDone(env, n, step.ev) || SeesDone(env, n + |step.ev|, rest.ev) {
          SeesDoneThen(env, n, step.ev, rest.ev);
        }
      }
    }
  }

  /** The resources that the API server said are gone. */
  function Gone(ev: seq<Event>): multiset<Resource> {
    if |ev| == 0 then multiset{}
    else
      Gone(ev[..|ev| - 1]) + GoneBy(ev[|ev| - 1])
  }

  function GoneBy(e: Event): multiset<Resource> {
    if e.ApiDelete? && (e.answer == Accepted || e.answer == NotFound) then multiset{e.resource} else multiset{}
  }

  function ResourcesOf(errors: seq<Failure>): multiset<Resource> {
    if |errors| == 0 then multiset{} else ResourcesOf(errors[..|errors| - 1]) + multiset{errors[|errors| - 1].resource}
  }

  lemma GoneNone()
    ensures Gone([]) == multiset{} && ResourcesOf([]) == multiset{}
  {
  }

  lemma GoneSnoc(ev: seq<Event>, e: Event)
    ensures Gone(ev + [e]) == Gone(ev) + GoneBy(e)
  {
    hide GoneBy;
    assert (ev + [e])[..|ev|] == ev;
  }

  lemma {:induction false} GoneAppend(a: seq<Event>, b: seq<Event>)
    ensures Gone(a + b) == Gone(a) + Gone(b)
  {
    hide Gone, GoneBy;
    GoneNone();
    if |b| == 0 {
      assert a + b == a && b == [];
    } else {
      var last := |b| - 1;
      GoneAppend(a, b[..last]);
      GoneSnoc(a + b[..last], b[last]);
      GoneSnoc(b[..last], b[last]);
      assert b[..last] + [b[last]] == b && a + b == (a + b[..last]) + [b[last]];
    }
  }

  lemma GoneOne(e: Event)
    ensures Gone([e]) == GoneBy(e)
  {
    hide GoneBy;
    GoneNone();
    assert [] + [e] == [e];
    GoneSnoc([], e);
  }

  lemma ResourcesSnoc(errors: seq<Failure>, f: Failure)
    ensures ResourcesOf(errors + [f]) == ResourcesOf(errors) + multiset{f.resource}
  {
    assert (errors + [f])[..|errors|] == errors;
  }

  lemma {:induction false} ResourcesAppend(a: seq<Failure>, b: seq<Failure>)
    ensures ResourcesOf(a + b) == ResourcesOf(a) + ResourcesOf(b)
  {
    hide ResourcesOf;
    GoneNone();
    if |b| == 0 {
      assert a + b == a && b == [];
    } else {
      var last := |b| - 1;
      ResourcesAppend(a, b[..last]);
      ResourcesSnoc(a + b[..last], b[last]);
      ResourcesSnoc(b[..last], b[last]);
      assert b[..last] + [b[last]] == b && a + b == (a + b[..last]) + [b[last]];
    }
  }

  lemma SplitAt<T>(s: seq<T>, k: nat)
    requires k <= |s|
    ensures s[..k] + s[k..] == s && s[..k][..k] == s[..k]
  {
  }

  lemma OnceGone(env: Environment, n: nat, p: Policy, r: Resource)
    requires !p.spec.behavior.dryRun
    ensures
      var once := DeleteOnce(env, n, p, r);
      Gone(once.ev) == if once.error.None? then multiset{r} else multiset{}
  {
    hide Gone, BuildDeleteOptions;
    var rate := RequestedRate(p.spec.behavior);
    GoneOne(Waited(rate, env.Grants(n)));
    var call := ApiDelete(p, r, BuildDeleteOptions(p.spec.behavior), env.answers(n + 1));
    GoneSnoc([Waited(rate, true)], call);
    assert [Waited(rate, true)] + [call] == [Waited(rate, true), call];
  }

  lemma GoneWithin(e: Event, ev: seq<Event>, f: Event)
    requires GoneBy(e) == GoneBy(f) == multiset{}
    ensures Gone([e] + ev) == Gone([e] + ev + [f]) == Gone(ev)
  {
    hide Gone, GoneBy;
    GoneOne(e);
    GoneAppend([e], ev);
    GoneSnoc([e] + ev, f);
  }

  lemma TurnGone(env: Environment, n: nat, p: Policy, r: Resource, step: nat)
    requires !p.spec.behavior.dryRun
    ensures
      var turn := Turn(env, n, p, r, step);
      Gone(turn.ev) == if turn.result == Some(Deleted) then multiset{r} else multiset{}
  {
    if env.done(n) {
      hide Gone;
      GoneOne(CheckedContext(true));
    } else {
      hide Gone, DeleteOnce, Backoff.Wait, Turn;
      OnceGone(env, n + 1, p, r);
      TurnShape(env, n, p, r, step);
      var once, wait := DeleteOnce(env, n + 1, p, r), Backoff.Wait(Backoff.DEFAULT, step);
      GoneWithin(CheckedContext(false), once.ev, Slept(wait, false));
      GoneWithin(CheckedContext(false), once.ev, Slept(wait, true));
    }
  }

  lemma {:induction false} TurnsGone(env: Environment, n: nat, p: Policy, r: Resource, turns: nat)
    requires !p.spec.behavior.dryRun
    ensures
      var loop := Turns(env, n, p, r, turns);
      Gone(loop.ev) == if loop.result == Some(Deleted) then multiset{r} else multiset{}
  {
    hide Gone, Turn;
    if turns == 0 {
      GoneNone();
    } else {
      TurnsGone(env, n, p, r, turns - 1);
      var before := Turns(env, n, p, r, turns - 1);
      if before.result.None? {
        TurnGone(env, n + |before.ev|, p, r, turns - 1);
        GoneAppend(before.ev, Turn(env, n + |before.ev|, p, r, turns - 1).ev);
      }
    }
  }

  /** What became of resources: gone, or in an error. */
  function Handled(b: Batch): multiset<Resource> {
    Gone(b.ev) + ResourcesOf(b.errors)
  }

  lemma ThenHandled(a: Batch, b: Batch)
    ensures Handled(Then(a, b)) == Handled(a) + Handled(b)
  {
    hide Gone, ResourcesOf;
    GoneAppend(a.ev, b.ev);
    ResourcesAppend(a.errors, b.errors);
  }

  lemma LookHandled(env: Environment, n: nat)
    ensures Handled(Look(env, n)) == multiset{} && Handled(NOTHING) == multiset{}
  {
    hide Gone, ResourcesOf;
    GoneOne(CheckedContext(env.done(n)));
    GoneNone();
  }

  lemma OneHandled(env: Environment, n: nat, p: Policy, r: Resource)
    requires !p.spec.behavior.dryRun
    ensures Handled(DeleteOne(env, n, p, r)) == multiset{r}
  {
    hide Gone, Turns, ResourcesOf;
    GoneNone();
    var rate := RequestedRate(p.spec.behavior);
    GoneOne(Waited(rate, env.Grants(n)));
    if env.Grants(n) {
      var a := DeleteWithBackoff(env, n + 1, p, r);
      TurnsGone(env, n + 1, p, r, Backoff.DEFAULT.steps);
      GoneAppend([Waited(rate, true)], a.ev);
      ResourcesOfOne(Failure(r, NotDeleted(a.result)));
    } else {
      ResourcesOfOne(Failure(r, NoToken));
    }
  }

  lemma ResourcesOfOne(f: Failure)
    ensures ResourcesOf([f]) == multiset{f.resource}
  {
    assert [f][..0] == [];
  }

  lemma {:induction false} BatchHandled(env: Environment, n: nat, p: Policy, batch: seq<Resource>, k: nat)
    requires k <= |batch| && !p.spec.behavior.dryRun
    ensures
      var b := BatchTo(env, n, p, batch, k);
      && Handled(b) <= multiset(batch[..k])
      && (if b.stopped then |Handled(b)| < k else Handled(b) == multiset(batch[..k]))
  {
    hide Handled, DeleteOne, Look, BatchTo, Then;
    if k == 0 {
      BatchNone(env, n, p, batch);
      LookHandled(env, n);
      assert batch[..0] == [];
    } else {
      BatchHandled(env, n, p, batch, k - 1);
      assert batch[..k] == batch[..k - 1] + [batch[k - 1]];
      var before := BatchTo(env, n, p, batch, k - 1);
      OneMore(Handled(before), batch[..k - 1], batch[k - 1]);
      if before.stopped {
        BatchStops(env, n, p, batch, k - 1, k);
      } else {
        BatchOneMore(env, n, p, batch, k - 1);
        var look := Look(env, n + |before.ev|);
        LookHandled(env, n + |before.ev|);
        ThenHandled(before, look);
        var looked := if (k - 1) % CONTEXT_CHECK_INTERVAL == 0 then Then(before, look) else before;
        OneHandled(env, n + |looked.ev|, p, batch[k - 1]);
        ThenHandled(looked, DeleteOne(env, n + |looked.ev|, p, batch[k - 1]));
      }
    }
  }

  lemma OneMore(handled: multiset<Resource>, front: seq<Resource>, r: Resource)
    requires handled <= multiset(front)
    ensures handled <= multiset(front + [r])
    ensures handled == multiset(front) ==> handled + multiset{r} == multiset(front + [r]) && |handled| == |front|
  {
  }

  /** Each of some resources is handled at most once, and exactly once unless there was a cut. */
  ghost predicate HandledOnce(b: Batch, resources: seq<Resource>, cut: bool) {
    && Handled(b) <= multiset(resources)
    && (if cut then |Handled(b)| < |resources| else Handled(b) == multiset(resources))
  }

  lemma ThenHandledOnce(a: Batch, b: Batch, first: seq<Resource>, second: seq<Resource>, cut: bool, later: bool)
    requires HandledOnce(a, first, cut) && HandledOnce(b, second, later)
    ensures HandledOnce(Then(a, b), first + second, cut || later)
  {
    hide Handled;
    ThenHandled(a, b);
    assert multiset(first + second) == multiset(first) + multiset(second);
    assert |multiset(first)| == |first| && |multiset(second)| == |second|;
  }

  /** The first batch of a queue, with the look before it. */
  lemma BatchOfQueue(env: Environment, n: nat, p: Policy, part: seq<Resource>)
    requires !p.spec.behavior.dryRun
    ensures
      var batch := BatchTo(env, n + 1, p, part, |part|);
      HandledOnce(Then(Look(env, n), batch.(stopped := false)), part, batch.stopped)
  {
    hide Handled, BatchTo, Look;
    var batch := BatchTo(env, n + 1, p, part, |part|);
    LookHandled(env, n);
    BatchHandled(env, n + 1, p, part, |part|);
    assert part[..|part|] == part;
    StoppedHandled(batch);
    ThenHandled(Look(env, n), batch.(stopped := false));
  }

  /**
   The batches cut the queue into consecutive pieces: every queued resource is handled at most once,
   and when the queue is not cut short exactly once, being gone or in one error.
   */
  lemma {:induction false} QueueHandled(env: Environment, n: nat, p: Policy, queue: seq<Resource>, size: int64)
    requires size > 0 && !p.spec.behavior.dryRun
    ensures HandledOnce(DeleteQueue(env, n, p, queue, size), queue, CutShort(env, n, p, queue, size))
    decreases |queue|
  {
    hide Handled, BatchTo, DeleteQueue, Look, HandledOnce, CutShort;
    NotCutShort(env, n, p, queue, size);
    if queue == [] {
      QueueNone(env, n, p, queue, size);
      NothingHandled(env, n);
    } else {
      QueueNext(env, n, p, queue, size);
      if env.done(n) {
        LookHandledOnce(env, n, queue);
      } else {
        CutShortNext(env, n, p, queue, size);
        var end: nat := if size < |queue| then size else |queue|;
        SplitAt(queue, end);
        BatchOfQueue(env, n, p, queue[..end]);
        var batch := BatchTo(env, n + 1, p, queue[..end], end);
        var step := Then(Look(env, n), batch.(stopped := false));
        QueueHandled(env, n + |step.ev|, p, queue[end..], size);
        ThenHandledOnce(step, DeleteQueue(env, n + |step.ev|, p, queue[end..], size), queue[..end], queue[end..],
                        batch.stopped, CutShort(env, n + |step.ev|, p, queue[end..], size));
      }
    }
  }

  /** So without a look that finds the context done nothing is lost, for dry runs too. */
  lemma UnseenCancellationLosesNothing(env: Environment, n: nat, p: Policy, queue: seq<Resource>, size: int64)
    requires size > 0
    requires CheckedContext(true) !in DeleteQueue(env, n, p, queue, size).ev
    ensures
      var b := DeleteQueue(env, n, p, queue, size);
      && b.deleted + |b.errors| == |queue|
      && (!p.spec.behavior.dryRun ==> Handled(b) == multiset(queue))
  {
    hide DeleteQueue, CutShort, Handled;
    QueueConserves(env, n, p, queue, size);
    if !p.spec.behavior.dryRun {
      QueueHandled(env, n, p, queue, size);
    }
  }

  lemma NothingHandled(env: Environment, n: nat)
    ensures HandledOnce(NOTHING, [], false)
  {
    LookHandled(env, n);
  }

  lemma LookHandledOnce(env: Environment, n: nat, queue: seq<Resource>)
    requires queue != []
    ensures HandledOnce(Look(env, n), queue, true)
  {
    hide Handled;
    LookHandled(env, n);
  }

  lemma StoppedHandled(b: Batch)
    ensures Handled(b.(stopped := false)) == Handled(b)
  {
  }

  // ---------------------------------------------------------- cancellation

  /** Where the next look at the context is, in a batch from an index on: at the next multiple of 50. */
  function NextLook(j: nat): (look: nat)
    ensures j <= look < j + 50 && look % 50 == 0
    ensures forall i: nat :: j <= i < look ==> i % 50 != 0
  {
    if j % 50 == 0 then j else j + 50 - j % 50
  }

  /** One failure for each resource, for want of a token. */
  function NoTokens(resources: seq<Resource>): (errors: seq<Failure>)
    ensures |errors| == |resources|
  {
    seq(|resources|, i requires 0 <= i < |resources| => Failure(resources[i], NoToken))
  }

  lemma {:induction false} BatchGrows(env: Environment, n: nat, p: Policy, batch: seq<Resource>, j: nat, k: nat)
    requires j <= k <= |batch|
    ensures |BatchTo(env, n, p, batch, j).ev| <= |BatchTo(env, n, p, batch, k).ev|
    decreases k
  {
    hide DeleteOne;
    if j < k {
      BatchGrows(env, n, p, batch, j, k - 1);
    }
  }

  lemma OneAfterDone(env: Environment, n: nat, p: Policy, r: Resource)
    requires env.done(n)
    ensures DeleteOne(env, n, p, r) == Batch([Waited(RequestedRate(p.spec.behavior), false)], 0, [Failure(r, NoToken)], false)
  {
  }

  /** The end of what is still refused, one by one, of a batch up to k once the context is done at j. */
  function Refusals(j: nat, k: nat): nat {
    if k < NextLook(j) then k else NextLook(j)
  }

  /**
   A batch once the context is done, from a resource j on: nothing more is deleted; each resource
   before the next periodic look becomes an error, for want of a token; and at that look the batch
   stops, skipping the rest.
   */
  lemma {:induction false} BatchAfterDone(env: Environment, n: nat, p: Policy, batch: seq<Resource>, j: nat, k: nat)
    requires env.Lawful() && j <= k <= |batch|
    requires !BatchTo(env, n, p, batch, j).stopped && env.done(n + |BatchTo(env, n, p, batch, j).ev|)
    ensures
      var b, later := BatchTo(env, n, p, batch, j), BatchTo(env, n, p, batch, k);
      && later.deleted == b.deleted
      && (later.stopped <==> NextLook(j) < k)
      && later.errors == b.errors + NoTokens(batch[j..Refusals(j, k)])
    decreases k
  {
    hide BatchTo, DeleteOne, NextLook;
    var b := BatchTo(env, n, p, batch, j);
    if j == k {
      assert batch[j..Refusals(j, k)] == [];
    } else {
      BatchAfterDone(env, n, p, batch, j, k - 1);
      BatchGrows(env, n, p, batch, j, k - 1);
      var before := BatchTo(env, n, p, batch, k - 1);
      if before.stopped {
        BatchStops(env, n, p, batch, k - 1, k);
      } else {
        assert env.done(n + |before.ev|);
        BatchOneMore(env, n, p, batch, k - 1);
        if (k - 1) % CONTEXT_CHECK_INTERVAL == 0 {
          assert before.errors + [] == before.errors;
        } else {
          assert NextLook(j) != k - 1;
          OneAfterDone(env, n + |before.ev|, p, batch[k - 1]);
          assert batch[j..k] == batch[j..k - 1] + [batch[k - 1]];
          assert NoTokens(batch[j..k]) == NoTokens(batch[j..k - 1]) + [Failure(batch[k - 1], NoToken)];
        }
      }
    }
  }

  /** A context done when a queue, or a part of it, is taken up: nothing of it is handled. */
  lemma QueueAfterDone(env: Environment, n: nat, p: Policy, queue: seq<Resource>, size: int64)
    requires size > 0 && env.done(n)
    ensures
      var b := DeleteQueue(env, n, p, queue, size);
      b.deleted == 0 && b.errors == []
  {
    hide DeleteQueue;
    if queue == [] {
      QueueNone(env, n, p, queue, size);
    } else {
      QueueNext(env, n, p, queue, size);
    }
  }

  /**
   A queue in which the context is done, from a resource j of some batch on: that batch ends as
   BatchAfterDone says, no further batch is handled, and fewer than 50 more resources become errors.
   */
  lemma CancelledQueue(env: Environment, n: nat, p: Policy, queue: seq<Resource>, size: int64, turns: nat, j: nat)
    requires env.Lawful() && size > 0
    requires
      var q := QueueTurns(env, n, p, queue, size, turns);
      && q.place.At? && q.place.index < |queue| && !env.done(n + |q.batch.ev|)
      && var i, m := q.place.index, n + |q.batch.ev| + 1;
         var end := if i + size > |queue| then |queue| else i + size;
         && i + j <= end
         && !BatchTo(env, m, p, queue[i..end], j).stopped
         && env.done(m + |BatchTo(env, m, p, queue[i..end], j).ev|)
    ensures
      var q := QueueTurns(env, n, p, queue, size, turns);
      var i, m := q.place.index, n + |q.batch.ev| + 1;
      var end := if i + size > |queue| then |queue| else i + size;
      var b, whole := BatchTo(env, m, p, queue[i..end], j), DeleteQueue(env, n, p, queue, size);
      var refused := NoTokens(queue[i + j..i + Refusals(j, end - i)]);
      && whole.deleted == q.batch.deleted + b.deleted
      && whole.errors == q.batch.errors + b.errors + refused
      && |refused| < 50
  {
    hide BatchTo, DeleteQueue, QueueTurns, NoTokens, Refusals;
    var q := QueueTurns(env, n, p, queue, size, turns);
    var i, m := q.place.index, n + |q.batch.ev| + 1;
    var end := if i + size > |queue| then |queue| else i + size;
    QueueTurnsAre(env, n, p, queue, size, turns);
    FewRefusals(j, end - i);
    SliceOfSlice(queue, i, end, j, Refusals(j, end - i));
    assert queue[i..][..end - i] == queue[i..end];
    CancelledRest(env, m - 1, p, queue[i..], size, j);
  }

  lemma SliceOfSlice<T>(s: seq<T>, i: nat, end: nat, a: nat, b: nat)
    requires i <= end <= |s| && a <= b <= end - i
    ensures s[i..end][a..b] == s[i + a..i + b]
  {
    forall k | 0 <= k < b - a
      ensures s[i..end][a..b][k] == s[i + a..i + b][k]
    {
      assert s[i..end][a..b][k] == s[i..end][a + k] == s[i + (a + k)];
    }
  }

  lemma FewRefusals(j: nat, k: nat)
    requires j <= k
    ensures j <= Refusals(j, k) <= k && Refusals(j, k) < j + 50
  {
  }

  /** The same for a queue from the beginning of a batch on. */
  lemma CancelledRest(env: Environment, n: nat, p: Policy, queue: seq<Resource>, size: int64, j: nat)
    requires env.Lawful() && size > 0 && queue != [] && !env.done(n)
    requires
      var end: nat := if size < |queue| then size else |queue|;
      && j <= end
      && !BatchTo(env, n + 1, p, queue[..end], j).stopped
      && env.done(n + 1 + |BatchTo(env, n + 1, p, queue[..end], j).ev|)
    ensures
      var end: nat := if size < |queue| then size else |queue|;
      var b, whole := BatchTo(env, n + 1, p, queue[..end], j), DeleteQueue(env, n, p, queue, size);
      && j <= Refusals(j, end) <= end
      && whole.deleted == b.deleted && whole.errors == b.errors + NoTokens(queue[..end][j..Refusals(j, end)])
  {
    hide BatchTo, DeleteQueue, NoTokens, Refusals;
    var end: nat := if size < |queue| then size else |queue|;
    var part := queue[..end];
    FewRefusals(j, end);
    QueueNext(env, n, p, queue, size);
    BatchAfterDone(env, n + 1, p, part, j, end);
    BatchGrows(env, n + 1, p, part, j, end);
    var batch := BatchTo(env, n + 1, p, part, end);
    QueueAfterDone(env, n + 1 + |batch.ev|, p, queue[end..], size);
    assert [] + batch.errors + [] == batch.errors;
  }

  // --------------------------------------------- the ends of the batch loop

  /** After k turns at a positive size the loop is at its end or at least at index k. */
  lemma {:induction false} PositiveMoves(env: Environment, n: nat, p: Policy, queue: seq<Resource>, size: int64, k: nat)
    requires size > 0
    ensures
      var place := QueueTurns(env, n, p, queue, size, k).place;
      place == Finished || (place.At? && place.index >= k)
  {
    hide BatchTo;
    if k > 0 {
      PositiveMoves(env, n, p, queue, size, k - 1);
    }
  }

  lemma PositiveFinishes(env: Environment, n: nat, p: Policy, queue: seq<Resource>, size: int64)
    requires size > 0
    ensures QueueTurns(env, n, p, queue, size, |queue| + 1).place == Finished
  {
    hide BatchTo;
    PositiveMoves(env, n, p, queue, size, |queue|);
  }

  /** Size zero: as long as the context is not done, every turn is a look at it, and the index stays 0. */
  lemma {:induction false} ZeroStays(env: Environment, n: nat, p: Policy, queue: seq<Resource>, turns: nat)
    requires queue != [] && forall m: nat :: n <= m < n + turns ==> !env.done(m)
    ensures
      var q := QueueTurns(env, n, p, queue, 0, turns);
      q.place == At(0) && |q.batch.ev| == turns && q.batch.deleted == 0 && q.batch.errors == []
  {
    if turns > 0 {
      ZeroStays(env, n, p, queue, turns - 1);
      assert queue[0..0] == [];
    }
  }

  lemma {:induction false} FirstDone(env: Environment, n: nat, m: nat) returns (first: nat)
    requires n <= m && env.done(m)
    ensures n <= first <= m && env.done(first) && forall i: nat :: n <= i < first ==> !env.done(i)
    decreases m - n
  {
    if env.done(n) {
      first := n;
    } else {
      first := FirstDone(env, n + 1, m);
    }
  }

  /** The turn that sees a done context is the last. */
  lemma ZeroEnds(env: Environment, n: nat, p: Policy, queue: seq<Resource>, m: nat) returns (turns: nat)
    requires queue != [] && n <= m && env.done(m)
    ensures QueueTurns(env, n, p, queue, 0, turns).place == Finished
  {
    hide QueueTurns;
    var first := FirstDone(env, n, m);
    ZeroStays(env, n, p, queue, first - n);
    ZeroLast(env, n, p, queue, first - n);
    turns := first - n + 1;
  }

  lemma ZeroLast(env: Environment, n: nat, p: Policy, queue: seq<Resource>, turns: nat)
    requires queue != []
    requires
      var q := QueueTurns(env, n, p, queue, 0, turns);
      q.place == At(0) && env.done(n + |q.batch.ev|)
    ensures QueueTurns(env, n, p, queue, 0, turns + 1).place == Finished
  {
    hide BatchTo;
  }

  /** A negative size panics in the first turn, or finds the context done there. */
  lemma {:induction false} NegativeAtOnce(env: Environment, n: nat, p: Policy, queue: seq<Resource>, size: int64, turns: nat)
    requires queue != [] && size < 0 && turns > 0
    ensures
      var q := QueueTurns(env, n, p, queue, size, turns);
      q.place == (if env.done(n) then Finished else Panicked) && q.batch.ev == [CheckedContext(env.done(n))]
  {
    if turns > 1 {
      NegativeAtOnce(env, n, p, queue, size, turns - 1);
    }
  }

  lemma {:induction false} EmptyAtOnce(env: Environment, n: nat, p: Policy, size: int64, turns: nat)
    requires turns > 0
    ensures QueueTurns(env, n, p, [], size, turns).place == Finished
  {
    if turns > 1 {
      EmptyAtOnce(env, n, p, size, turns - 1);
    }
  }

  ghost predicate Ends(env: Environment, n: nat, p: Policy, queue: seq<Resource>, size: int64, place: Place) {
    exists turns: nat :: QueueTurns(env, n, p, queue, size, turns).place == place
  }

  /**
   The batch loop, for every int64 size: it comes to its end exactly for an empty queue, a positive
   size, a context done at its start, or size zero and a context that is done at some time; and it
   panics exactly for a negative size otherwise. So with size zero and no cancellation it never ends.
   */
  lemma BatchLoopEnds(env: Environment, n: nat, p: Policy, queue: seq<Resource>, size: int64)
    ensures Ends(env, n, p, queue, size, Finished) <==>
      queue == [] || size > 0 || env.done(n) || (size == 0 && exists m: nat :: n <= m && env.done(m))
    ensures Ends(env, n, p, queue, size, Panicked) <==> queue != [] && size < 0 && !env.done(n)
  {
    hide QueueTurns, DeleteQueue;
    QueueTurnsZero(env, n, p, queue, size);
    forall turns: nat
      ensures size > 0 ==> QueueTurns(env, n, p, queue, size, turns).place != Panicked
    {
      QueueTurnsAre(env, n, p, queue, size, turns);
    }
    if queue == [] {
      forall turns: nat | turns > 0
        ensures QueueTurns(env, n, p, queue, size, turns).place == Finished
      {
        EmptyAtOnce(env, n, p, size, turns);
      }
      assert QueueTurns(env, n, p, queue, size, 1).place == Finished;
    } else if size > 0 {
      PositiveFinishes(env, n, p, queue, size);
    } else if size < 0 {
      forall turns: nat | turns > 0
        ensures QueueTurns(env, n, p, queue, size, turns).place == (if env.done(n) then Finished else Panicked)
      {
        NegativeAtOnce(env, n, p, queue, size, turns);
      }
      assert QueueTurns(env, n, p, queue, size, 1).place == (if env.done(n) then Finished else Panicked);
    } else {
      ZeroEndsOrNot(env, n, p, queue);
    }
  }

  lemma QueueTurnsZero(env: Environment, n: nat, p: Policy, queue: seq<Resource>, size: int64)
    ensures QueueTurns(env, n, p, queue, size, 0).place == At(0)
  {
  }

  lemma ZeroEndsOrNot(env: Environment, n: nat, p: Policy, queue: seq<Resource>)
    requires queue != []
    ensures Ends(env, n, p, queue, 0, Finished) <==> exists m: nat :: n <= m && env.done(m)
    ensures !Ends(env, n, p, queue, 0, Panicked)
  {
    hide QueueTurns;
    if m: nat :| n <= m && env.done(m) {
      var turns := ZeroEnds(env, n, p, queue, m);
    } else {
      forall turns: nat
        ensures QueueTurns(env, n, p, queue, 0, turns).place == At(0)
      {
        ZeroStays(env, n, p, queue, turns);
      }
    }
    forall turns: nat
      ensures QueueTurns(env, n, p, queue, 0, turns).place != Panicked
    {
      ZeroNeverPanics(env, n, p, queue, turns);
    }
  }

  lemma {:induction false} ZeroNeverPanics(env: Environment, n: nat, p: Policy, queue: seq<Resource>, turns: nat)
    ensures QueueTurns(env, n, p, queue, 0, turns).place in {At(0), Finished}
  {
    hide BatchTo;
    if turns > 0 {
      ZeroNeverPanics(env, n, p, queue, turns - 1);
    }
  }

  /**
   With a queue to delete and no cancellation, the loop comes to its end exactly when the policy or
   else the controller's configuration has a positive size, or there is no configuration; and every
   policy's loop does exactly when the configured size is positive.
   */
  lemma BatchSizeIsPositive(env: Environment, n: nat, p: Policy, queue: seq<Resource>, cfg: Option<ControllerConfig>)
    requires queue != [] && forall m: nat :: n <= m ==> !env.done(m)
    ensures Ends(env, n, p, queue, ResolveBatchSize(p.spec.behavior, cfg), Finished) <==>
      p.spec.behavior.batchSize > 0 || cfg.None? || cfg.value.batchSize > 0
    ensures cfg.Some? ==>
      ((forall b: Behavior ::
          Ends(env, n, p.(spec := p.spec.(behavior := b)), queue, ResolveBatchSize(b, cfg), Finished))
       <==> cfg.value.batchSize > 0)
  {
    hide Ends;
    BatchLoopEnds(env, n, p, queue, ResolveBatchSize(p.spec.behavior, cfg));
    forall b: Behavior
      ensures Ends(env, n, p.(spec := p.spec.(behavior := b)), queue, ResolveBatchSize(b, cfg), Finished)
              <==> ResolveBatchSize(b, cfg) > 0
    {
      BatchLoopEnds(env, n, p.(spec := p.spec.(behavior := b)), queue, ResolveBatchSize(b, cfg));
    }
    var open := p.spec.behavior.(batchSize := 0);
    assert Ends(env, n, p.(spec := p.spec.(behavior := open)), queue, ResolveBatchSize(open, cfg), Finished)
           <==> ResolveBatchSize(open, cfg) > 0;
  }

  // ---------------------------------------------------------------- safety

  /**
   What every API delete among the events of a policy's deletion satisfies: the policy is no dry run,
   the resource was queued, the options are the policy's, and a token at the policy's own rate was
   granted just before, on a context that was not done.
   */
  ghost predicate ProperDelete(env: Environment, n: nat, ev: seq<Event>, i: nat, p: Policy, queue: seq<Resource>)
    requires i < |ev| && ev[i].ApiDelete?
  {
    && ev[i].policy == p && !p.spec.behavior.dryRun
    && ev[i].resource in queue
    && T.AsAsked(ev[i].options, p.spec.behavior)
    && i > 0 && ev[i - 1].Waited? && ev[i - 1].granted && T.IsRate(ev[i - 1].rate, p.spec.behavior)
    && !env.done(n + i - 1)
  }

  ghost predicate Proper(env: Environment, n: nat, ev: seq<Event>, p: Policy, queue: seq<Resource>) {
    forall i: nat :: i < |ev| && ev[i].ApiDelete? ==> ProperDelete(env, n, ev, i, p, queue)
  }

  lemma ProperAppend(env: Environment, n: nat, a: seq<Event>, b: seq<Event>, p: Policy, queue: seq<Resource>)
    requires Proper(env, n, a, p, queue) && Proper(env, n + |a|, b, p, queue)
    ensures Proper(env, n, a + b, p, queue)
  {
    var ev := a + b;
    forall i: nat | i < |ev| && ev[i].ApiDelete?
      ensures ProperDelete(env, n, ev, i, p, queue)
    {
      if i < |a| {
        assert ProperDelete(env, n, a, i, p, queue);
      } else {
        assert ev[i] == b[i - |a|];
        assert ProperDelete(env, n + |a|, b, i - |a|, p, queue);
        assert ev[i - 1] == b[i - 1 - |a|];
      }
    }
  }

  lemma ProperWithin(env: Environment, n: nat, ev: seq<Event>, p: Policy, part: seq<Resource>, queue: seq<Resource>)
    requires Proper(env, n, ev, p, part)
    requires forall r :: r in part ==> r in queue
    ensures Proper(env, n, ev, p, queue)
  {
    forall i: nat | i < |ev| && ev[i].ApiDelete?
      ensures ProperDelete(env, n, ev, i, p, queue)
    {
      assert ProperDelete(env, n, ev, i, p, part);
    }
  }

  lemma TurnProper(env: Environment, n: nat, p: Policy, r: Resource, step: nat)
    ensures Proper(env, n, Turn(env, n, p, r, step).ev, p, [r])
  {
    hide Backoff.Wait, BuildDeleteOptions, RequestedRate, T.AsAsked, T.IsRate;
    T.BehaviorAsAsked(p.spec.behavior);
  }

  lemma {:induction false} TurnsProper(env: Environment, n: nat, p: Policy, r: Resource, turns: nat)
    ensures Proper(env, n, Turns(env, n, p, r, turns).ev, p, [r])
  {
    hide Proper, Turn;
    if turns == 0 {
      NoneProper(env, n, p, [r]);
    } else {
      TurnsProper(env, n, p, r, turns - 1);
      var before := Turns(env, n, p, r, turns - 1);
      if before.result.None? {
        TurnProper(env, n + |before.ev|, p, r, turns - 1);
        ProperAppend(env, n, before.ev, Turn(env, n + |before.ev|, p, r, turns - 1).ev, p, [r]);
      }
    }
  }

  lemma NoneProper(env: Environment, n: nat, p: Policy, queue: seq<Resource>)
    ensures Proper(env, n, [], p, queue)
  {
  }

  lemma OtherProper(env: Environment, n: nat, e: Event, p: Policy, queue: seq<Resource>)
    requires !e.ApiDelete?
    ensures Proper(env, n, [e], p, queue)
  {
  }

  lemma OneProper(env: Environment, n: nat, p: Policy, r: Resource)
    ensures Proper(env, n, DeleteOne(env, n, p, r).ev, p, [r])
  {
    hide Proper, Turns;
    OtherProper(env, n, Waited(RequestedRate(p.spec.behavior), env.Grants(n)), p, [r]);
    if env.Grants(n) {
      TurnsProper(env, n + 1, p, r, Backoff.DEFAULT.steps);
      ProperAppend(env, n, [Waited(RequestedRate(p.spec.behavior), true)], DeleteWithBackoff(env, n + 1, p, r).ev, p, [r]);
    }
  }

  lemma {:induction false} BatchProper(env: Environment, n: nat, p: Policy, batch: seq<Resource>, k: nat)
    requires k <= |batch|
    ensures Proper(env, n, BatchTo(env, n, p, batch, k).ev, p, batch)
  {
    hide Proper, DeleteOne;
    if k == 0 {
      NoneProper(env, n, p, batch);
    } else {
      BatchProper(env, n, p, batch, k - 1);
      var before := BatchTo(env, n, p, batch, k - 1);
      var look := Look(env, n + |before.ev|);
      OtherProper(env, n + |before.ev|, look.ev[0], p, batch);
      assert look.ev == [look.ev[0]];
      ProperAppend(env, n, before.ev, look.ev, p, batch);
      var looked := if (k - 1) % CONTEXT_CHECK_INTERVAL == 0 then Then(before, look) else before;
      var one := DeleteOne(env, n + |looked.ev|, p, batch[k - 1]);
      OneProper(env, n + |looked.ev|, p, batch[k - 1]);
      ProperWithin(env, n + |looked.ev|, one.ev, p, [batch[k - 1]], batch);
      ProperAppend(env, n, looked.ev, one.ev, p, batch);
    }
  }

  lemma {:induction false} QueueProper(env: Environment, n: nat, p: Policy, queue: seq<Resource>, size: int64)
    requires size > 0
    ensures Proper(env, n, DeleteQueue(env, n, p, queue, size).ev, p, queue)
    decreases |queue|
  {
    hide Proper, BatchTo, DeleteQueue;
    if queue == [] {
      QueueNone(env, n, p, queue, size);
      NoneProper(env, n, p, queue);
    } else {
      QueueNext(env, n, p, queue, size);
      var look := Look(env, n);
      assert look.ev == [look.ev[0]];
      OtherProper(env, n, look.ev[0], p, queue);
      var end: nat := if size < |queue| then size else |queue|;
      var batch := BatchTo(env, n + 1, p, queue[..end], end);
      BatchProper(env, n + 1, p, queue[..end], end);
      ProperWithin(env, n + 1, batch.ev, p, queue[..end], queue);
      ProperAppend(env, n, look.ev, batch.ev, p, queue);
      var step := Then(look, batch.(stopped := false));
      QueueProper(env, n + |step.ev|, p, queue[end..], size);
      var rest := DeleteQueue(env, n + |step.ev|, p, queue[end..], size);
      ProperWithin(env, n + |step.ev|, rest.ev, p, queue[end..], queue);
      ProperAppend(env, n, step.ev, rest.ev, p, queue);
    }
  }

  // ------------------------------------------------- what a deletion is not

  /** Events that fetch no policy, sync no informer, list no store, report nothing, and ask for tokens at the policy's rate. */
  ghost predicate Inside(ev: seq<Event>, b: Behavior) {
    forall i: nat :: i < |ev| ==>
      && !ev[i].Fetched? && !ev[i].StatusUpdated? && !ev[i].Listed? && !ev[i].Synced?
      && (ev[i].Waited? ==> T.IsRate(ev[i].rate, b))
  }

  lemma InsideAppend(first: seq<Event>, second: seq<Event>, b: Behavior)
    requires Inside(first, b) && Inside(second, b)
    ensures Inside(first + second, b)
  {
  }

  lemma LookInside(env: Environment, n: nat, b: Behavior)
    ensures Inside(Look(env, n).ev, b) && Inside(NOTHING.ev, b)
  {
  }

  lemma TurnInside(env: Environment, n: nat, p: Policy, r: Resource, step: nat)
    ensures Inside(Turn(env, n, p, r, step).ev, p.spec.behavior)
  {
    hide Backoff.Wait, BuildDeleteOptions, RequestedRate, T.IsRate;
    T.BehaviorAsAsked(p.spec.behavior);
    if !env.done(n) {
      TurnShape(env, n, p, r, step);
    }
  }

  lemma {:induction false} TurnsInside(env: Environment, n: nat, p: Policy, r: Resource, turns: nat)
    ensures Inside(Turns(env, n, p, r, turns).ev, p.spec.behavior)
  {
    hide Turn;
    if turns > 0 {
      TurnsInside(env, n, p, r, turns - 1);
      TurnInside(env, n + |Turns(env, n, p, r, turns - 1).ev|, p, r, turns - 1);
    }
  }

  lemma OneInside(env: Environment, n: nat, p: Policy, r: Resource)
    ensures Inside(DeleteOne(env, n, p, r).ev, p.spec.behavior)
  {
    hide Turns, RequestedRate, T.IsRate;
    T.BehaviorAsAsked(p.spec.behavior);
    TurnsInside(env, n + 1, p, r, Backoff.DEFAULT.steps);
  }

  lemma {:induction false} BatchInside(env: Environment, n: nat, p: Policy, batch: seq<Resource>, k: nat)
    requires k <= |batch|
    ensures Inside(BatchTo(env, n, p, batch, k).ev, p.spec.behavior)
  {
    hide DeleteOne, Inside, Look;
    if k == 0 {
      LookInside(env, n, p.spec.behavior);
    } else {
      BatchInside(env, n, p, batch, k - 1);
      var before := BatchTo(env, n, p, batch, k - 1);
      var look := Look(env, n + |before.ev|);
      LookInside(env, n + |before.ev|, p.spec.behavior);
      InsideAppend(before.ev, look.ev, p.spec.behavior);
      var looked := if (k - 1) % CONTEXT_CHECK_INTERVAL == 0 then Then(before, look) else before;
      OneInside(env, n + |looked.ev|, p, batch[k - 1]);
      InsideAppend(looked.ev, DeleteOne(env, n + |looked.ev|, p, batch[k - 1]).ev, p.spec.behavior);
    }
  }

  lemma {:induction false} QueueInside(env: Environment, n: nat, p: Policy, queue: seq<Resource>, size: int64)
    requires size > 0
    ensures Inside(DeleteQueue(env, n, p, queue, size).ev, p.spec.behavior)
    decreases |queue|
  {
    hide BatchTo, DeleteQueue;
    if queue == [] {
      QueueNone(env, n, p, queue, size);
    } else {
      QueueNext(env, n, p, queue, size);
      var end: nat := if size < |queue| then size else |queue|;
      BatchInside(env, n + 1, p, queue[..end], end);
      var step := Then(Look(env, n), BatchTo(env, n + 1, p, queue[..end], end).(stopped := false));
      QueueInside(env, n + |step.ev|, p, queue[end..], size);
    }
  }
}
