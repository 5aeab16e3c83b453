/**
 Deleting what an evaluation queued: one API delete, its retry loop, a batch, and the queue in
 batches (pkg/controller/shared.go, pkg/controller/reconciler.go,
 pkg/controller/evaluate_policy_refactored.go, pkg/controller/evaluate_policy_shared.go).

 Each function gives the events that the operation adds to a trace of length n, and its result;
 the class Deleter does the same things to a World.
 */
module Deletion {
  import opened Int64
  import opened Wrappers
  import opened Policies
  import opened Worlds
  import Backoff
  import T = Terms

  // ------------------------------------------------------- one API delete

  datatype DeleteError = RateLimited | ApiError(answer: Answer)

  datatype Once = Once(ev: seq<Event>, error: Option<DeleteError>)

  /** deleteResource: a token, the dry-run check, the API call; NotFound is no error. */
  function DeleteOnce(env: Environment, n: nat, p: Policy, r: Resource): Once {
    var rate := RequestedRate(p.spec.behavior);
    if !env.Grants(n) then Once([Waited(rate, false)], Some(RateLimited))
    else if p.spec.behavior.dryRun then Once([Waited(rate, true)], None)
    else
      var answer := env.answers(n + 1);
      Once([Waited(rate, true), ApiDelete(p, r, BuildDeleteOptions(p.spec.behavior), answer)],
           if answer == Accepted || answer == NotFound then None else Some(ApiError(answer)))
  }

  // ------------------------------------------------------- the retry loop

  datatype Result = Deleted | Cancelled | Failed(error: DeleteError) | Exhausted

  /** The events so far, and the result when the loop has been left. */
  datatype Retry = Retry(ev: seq<Event>, result: Option<Result>)

  /** One turn of the loop, at a step of the backoff. */
  function Turn(env: Environment, n: nat, p: Policy, r: Resource, step: nat): Retry {
    if env.done(n) then Retry([CheckedContext(true)], Some(Cancelled))
    else
      var once := DeleteOnce(env, n + 1, p, r);
      var ev := [CheckedContext(false)] + once.ev;
      match once.error
      case None => Retry(ev, Some(Deleted))
      case Some(ApiError(NotFound)) => Retry(ev, Some(Deleted))
      case Some(ApiError(Retryable)) =>
        var duration := Backoff.Wait(Backoff.DEFAULT, step);
        if duration == 0 then Retry(ev, Some(Exhausted))
        else
          var interrupted := env.Interrupts(n + |ev|);
          Retry(ev + [Slept(duration, interrupted)], if interrupted then Some(Cancelled) else None)
      case Some(error) => Retry(ev, Some(Failed(error)))
  }

  /** The loop after so many turns. */
  function Turns(env: Environment, n: nat, p: Policy, r: Resource, turns: nat): Retry {
    if turns == 0 then Retry([], None)
    else
      var before := Turns(env, n, p, r, turns - 1);
      if before.result.Some? then before
      else
        var turn := Turn(env, n + |before.ev|, p, r, turns - 1);
        Retry(before.ev + turn.ev, turn.result)
  }

  datatype Attempt = Attempt(ev: seq<Event>, result: Result)

  /** deleteResourceWithBackoff */
  function DeleteWithBackoff(env: Environment, n: nat, p: Policy, r: Resource): Attempt {
    var loop := Turns(env, n, p, r, Backoff.DEFAULT.steps);
    Attempt(loop.ev, if loop.result.Some? then loop.result.value else Exhausted)
  }

  // --------------------------------------------------------------- batches

  /** Why a resource of a batch was not deleted: no token for it, or what the retry loop came to. */
  datatype Reason = NoToken | NotDeleted(result: Result)

  datatype Failure = Failure(resource: Resource, reason: Reason)

  datatype Batch = Batch(ev: seq<Event>, deleted: nat, errors: seq<Failure>, stopped: bool)

  const CONTEXT_CHECK_INTERVAL: nat := 50

  /** What one resource of a batch adds, after the periodic look at the context. */
  function DeleteOne(env: Environment, n: nat, p: Policy, r: Resource): Batch {
    var rate := RequestedRate(p.spec.behavior);
    if !env.Grants(n) then Batch([Waited(rate, false)], 0, [Failure(r, NoToken)], false)
    else
      var a := DeleteWithBackoff(env, n + 1, p, r);
      var ev := [Waited(rate, true)] + a.ev;
      if a.result == Deleted then Batch(ev, 1, [], false) else Batch(ev, 0, [Failure(r, NotDeleted(a.result))], false)
  }

  function Then(a: Batch, b: Batch): Batch {
    Batch(a.ev + b.ev, a.deleted + b.deleted, a.errors + b.errors, b.stopped)
  }

  /** The periodic look at the context. */
  function Look(env: Environment, n: nat): Batch {
    Batch([CheckedContext(env.done(n))], 0, [], env.done(n))
  }

  const NOTHING := Batch([], 0, [], false)

  /** deleteBatch after the first k resources. */
  function BatchTo(env: Environment, n: nat, p: Policy, batch: seq<Resource>, k: nat): Batch
    requires k <= |batch|
  {
    if k == 0 then NOTHING
    else
      var before := BatchTo(env, n, p, batch, k - 1);
      if before.stopped then before
      else
        var looked := if (k - 1) % CONTEXT_CHECK_INTERVAL == 0 then Then(before, Look(env, n + |before.ev|)) else before;
        if looked.stopped then looked
        else Then(looked, DeleteOne(env, n + |looked.ev|, p, batch[k - 1]))
  }

  /** deleteResourcesInBatches, from a place in the queue on: a look at the context, a batch, the rest. */
  function DeleteQueue(env: Environment, n: nat, p: Policy, queue: seq<Resource>, size: int64): Batch
    requires size > 0
    decreases |queue|
  {
    if queue == [] then NOTHING
    else if env.done(n) then Look(env, n)
    else
      var end: nat := if size < |queue| then size else |queue|;
      var batch := BatchTo(env, n + 1, p, queue[..end], end).(stopped := false);
      var done := Then(Look(env, n), batch);
      Then(done, DeleteQueue(env, n + |done.ev|, p, queue[end..], size))
  }

  // ------------------------------------------- the batch loop, turn by turn

  /** Where the loop over the batches is: at an index of the queue, at its end, or stopped by an impossible slice. */
  datatype Place = At(index: nat) | Finished | Panicked

  datatype Progress = Progress(batch: Batch, place: Place)

  /** One turn, for any size: a negative one asks for a slice that ends before it begins. */
  function QueueTurn(env: Environment, n: nat, p: Policy, queue: seq<Resource>, size: int64, i: nat): Progress {
    if i >= |queue| then Progress(NOTHING, Finished)
    else if env.done(n) then Progress(Look(env, n), Finished)
    else
      var end := if i + size > |queue| then |queue| else i + size;
      if end < i then Progress(Look(env, n), Panicked)
      else
        var batch := BatchTo(env, n + 1, p, queue[i..end], end - i).(stopped := false);
        Progress(Then(Look(env, n), batch), At(i + size))
  }

  /** The loop after so many turns. */
  function QueueTurns(env: Environment, n: nat, p: Policy, queue: seq<Resource>, size: int64, turns: nat): Progress {
    if turns == 0 then Progress(NOTHING, At(0))
    else
      var before := QueueTurns(env, n, p, queue, size, turns - 1);
      if !before.place.At? then before
      else
        var turn := QueueTurn(env, n + |before.batch.ev|, p, queue, size, before.place.index);
        Progress(Then(before.batch, turn.batch), turn.place)
  }

  // ------------------------------------------------------ one step further

  /** After so many turns the loop is at an index, with a trace and counts. */
  ghost predicate AtTurn(env: Environment, start: seq<Event>, trace: seq<Event>, p: Policy, queue: seq<Resource>,
                         size: int64, turns: nat, i: nat, deleted: nat, errors: seq<Failure>)
  {
    var q := QueueTurns(env, |start|, p, queue, size, turns);
    q.place == At(i) && trace == start + q.batch.ev && deleted == q.batch.deleted && errors == q.batch.errors
  }

  lemma QueueTurnsNone(env: Environment, start: seq<Event>, p: Policy, queue: seq<Resource>, size: int64)
    ensures AtTurn(env, start, start, p, queue, size, 0, 0, 0, [])
  {
  }

  /** One turn more, in terms of the whole trace. */
  lemma QueueTurnsNext(env: Environment, start: seq<Event>, trace: seq<Event>, p: Policy, queue: seq<Resource>,
                       size: int64, turns: nat, i: nat, deleted: nat, errors: seq<Failure>)
    requires AtTurn(env, start, trace, p, queue, size, turns, i, deleted, errors)
    ensures
      var turn, after := QueueTurn(env, |trace|, p, queue, size, i), QueueTurns(env, |start|, p, queue, size, turns + 1);
      && after.place == turn.place
      && start + after.batch.ev == trace + turn.batch.ev
      && after.batch.deleted == deleted + turn.batch.deleted
      && after.batch.errors == errors + turn.batch.errors
  {
    hide QueueTurn;
  }

  /** For positive sizes the turns do what DeleteQueue says, and do not panic. */
  lemma {:induction false} QueueTurnsAre(env: Environment, n: nat, p: Policy, queue: seq<Resource>, size: int64, turns: nat)
    ensures
      var q := QueueTurns(env, n, p, queue, size, turns);
      size > 0 ==>
        var whole := DeleteQueue(env, n, p, queue, size);
        match q.place
        case At(i) =>
          var rest := if i < |queue| then queue[i..] else [];
          whole == Then(q.batch, DeleteQueue(env, n + |q.batch.ev|, p, rest, size))
        case Finished =>
          whole.ev == q.batch.ev && whole.deleted == q.batch.deleted && whole.errors == q.batch.errors
        case Panicked => false
  {
    hide QueueTurn, DeleteQueue;
    if size > 0 {
      if turns == 0 {
        ThenUnit(DeleteQueue(env, n, p, queue, size));
        assert |queue| > 0 ==> queue[0..] == queue;
      } else {
        QueueTurnsAre(env, n, p, queue, size, turns - 1);
        var before := QueueTurns(env, n, p, queue, size, turns - 1);
        if before.place.At? {
          var m := n + |before.batch.ev|;
          QueueTurnIs(env, m, p, queue, size, before.place.index);
          var turn := QueueTurn(env, m, p, queue, size, before.place.index);
          if turn.place.At? {
            var i := turn.place.index;
            var rest := if i < |queue| then queue[i..] else [];
            ThenAssociative(before.batch, turn.batch, DeleteQueue(env, m + |turn.batch.ev|, p, rest, size));
          }
        }
      }
    }
  }

  lemma QueueTurnIs(env: Environment, n: nat, p: Policy, queue: seq<Resource>, size: int64, i: nat)
    requires size > 0
    ensures
      var turn := QueueTurn(env, n, p, queue, size, i);
      var whole := DeleteQueue(env, n, p, if i < |queue| then queue[i..] else [], size);
      match turn.place
      case At(j) =>
        whole == Then(turn.batch, DeleteQueue(env, n + |turn.batch.ev|, p, if j < |queue| then queue[j..] else [], size))
      case Finished => whole == turn.batch
      case Panicked => false
  {
    hide BatchTo, DeleteQueue, Look;
    if i < |queue| {
      QueueNext(env, n, p, queue[i..], size);
      var end := if i + size > |queue| then |queue| else i + size;
      assert queue[i..][..end - i] == queue[i..end] && queue[i..][end - i..] == queue[end..];
    } else {
      QueueNone(env, n, p, [], size);
    }
  }

  lemma ThenUnit(b: Batch)
    ensures Then(NOTHING, b) == b
  {
    assert [] + b.ev == b.ev && [] + b.errors == b.errors;
  }

  lemma ThenAssociative(a: Batch, b: Batch, c: Batch)
    ensures Then(a, Then(b, c)) == Then(Then(a, b), c)
  {
    assert a.ev + (b.ev + c.ev) == (a.ev + b.ev) + c.ev;
    assert a.errors + (b.errors + c.errors) == (a.errors + b.errors) + c.errors;
  }

  lemma QueueNone(env: Environment, n: nat, p: Policy, queue: seq<Resource>, size: int64)
    requires size > 0 && queue == []
    ensures DeleteQueue(env, n, p, queue, size) == NOTHING
  {
  }

  lemma QueueNext(env: Environment, n: nat, p: Policy, queue: seq<Resource>, size: int64)
    requires size > 0 && queue != []
    ensures
      var end: nat := if size < |queue| then size else |queue|;
      var step := Then(Look(env, n), BatchTo(env, n + 1, p, queue[..end], end).(stopped := false));
      DeleteQueue(env, n, p, queue, size) ==
        if env.done(n) then Look(env, n) else Then(step, DeleteQueue(env, n + |step.ev|, p, queue[end..], size))
  {
    hide BatchTo;
  }

  lemma BatchNone(env: Environment, n: nat, p: Policy, batch: seq<Resource>)
    ensures BatchTo(env, n, p, batch, 0) == NOTHING
  {
  }

  /** One resource more, in terms of the whole trace. */
  lemma BatchNext(env: Environment, start: seq<Event>, p: Policy, batch: seq<Resource>, i: nat)
    requires i < |batch| && !BatchTo(env, |start|, p, batch, i).stopped
    ensures
      var b := BatchTo(env, |start|, p, batch, i);
      var look := i % CONTEXT_CHECK_INTERVAL == 0;
      var here := start + b.ev;
      var there := if look then here + [CheckedContext(env.done(|here|))] else here;
      var one := DeleteOne(env, |there|, p, batch[i]);
      var after := BatchTo(env, |start|, p, batch, i + 1);
      if look && env.done(|here|) then
        after.stopped && start + after.ev == there && after.deleted == b.deleted && after.errors == b.errors
      else
        && !after.stopped
        && start + after.ev == there + one.ev
        && after.deleted == b.deleted + one.deleted && after.errors == b.errors + one.errors
  {
    hide DeleteOne;
    var b := BatchTo(env, |start|, p, batch, i);
    var looked := if i % CONTEXT_CHECK_INTERVAL == 0 then Then(b, Look(env, |start| + |b.ev|)) else b;
    assert b.errors + [] == b.errors;
    assert start + looked.ev == if i % CONTEXT_CHECK_INTERVAL == 0
      then start + b.ev + [CheckedContext(env.done(|start + b.ev|))] else start + b.ev;
    OneGoesOn(env, |start| + |looked.ev|, p, batch[i]);
    if !looked.stopped {
      var one := DeleteOne(env, |start| + |looked.ev|, p, batch[i]);
      assert start + (looked.ev + one.ev) == (start + looked.ev) + one.ev;
    }
  }

  lemma OneGoesOn(env: Environment, n: nat, p: Policy, r: Resource)
    ensures !DeleteOne(env, n, p, r).stopped
  {
  }

  lemma {:induction false} BatchStops(env: Environment, n: nat, p: Policy, batch: seq<Resource>, stopped: nat, k: nat)
    requires stopped <= k <= |batch|
    requires BatchTo(env, n, p, batch, stopped).stopped
    ensures BatchTo(env, n, p, batch, k) == BatchTo(env, n, p, batch, stopped)
    decreases k
  {
    hide DeleteOne;
    if stopped < k {
      BatchStops(env, n, p, batch, stopped, k - 1);
    }
  }

  lemma TurnsNone(env: Environment, n: nat, p: Policy, r: Resource)
    ensures Turns(env, n, p, r, 0) == Retry([], None)
  {
  }

  lemma TurnsNext(env: Environment, start: seq<Event>, p: Policy, r: Resource, turns: nat)
    requires Turns(env, |start|, p, r, turns).result.None?
    ensures
      var here := start + Turns(env, |start|, p, r, turns).ev;
      var turn := Turn(env, |here|, p, r, turns);
      var after := Turns(env, |start|, p, r, turns + 1);
      after.result == turn.result && start + after.ev == here + turn.ev
  {
    hide Turn;
  }

  lemma {:induction false} TurnsStop(env: Environment, n: nat, p: Policy, r: Resource, stopped: nat, turns: nat)
    requires stopped <= turns
    requires Turns(env, n, p, r, stopped).result.Some?
    ensures Turns(env, n, p, r, turns) == Turns(env, n, p, r, stopped)
    decreases turns
  {
    hide Turn;
    if stopped < turns {
      TurnsStop(env, n, p, r, stopped, turns - 1);
    }
  }

  // -------------------------------------------------------------- the code

  class Deleter {
    const world: World

    constructor (world: World)
      ensures this.world == world
    {
      this.world := world;
    }

    method DeleteResource(p: Policy, r: Resource, rate: int64) returns (error: Option<DeleteError>)
      requires rate == RequestedRate(p.spec.behavior)
      modifies world
      ensures
        var once := DeleteOnce(world.env, |old(world.trace)|, p, r);
        world.trace == old(world.trace) + once.ev && error == once.error
      ensures forall i :: |old(world.trace)| <= i < |world.trace| ==>
        var e := world.trace[i];
        && (e.Waited? ==> T.IsRate(e.rate, p.spec.behavior))
        && (e.ApiDelete? ==> e.resource == r && !p.spec.behavior.dryRun && T.AsAsked(e.options, p.spec.behavior))
    {
      var granted := world.Wait(rate);
      if !granted {
        return Some(RateLimited);
      }
      if p.spec.behavior.dryRun {
        return None;
      }
      var options := BuildDeleteOptions(p.spec.behavior);
      var answer := world.DeleteResource(p, r, options);
      if answer != Accepted && answer != NotFound {
        return Some(ApiError(answer));
      }
      return None;
    }

    method DeleteResourceWithBackoff(p: Policy, r: Resource, rate: int64) returns (result: Result)
      requires rate == RequestedRate(p.spec.behavior)
      modifies world
      ensures
        var a := DeleteWithBackoff(world.env, |old(world.trace)|, p, r);
        world.trace == old(world.trace) + a.ev && result == a.result
    {
      hide DeleteOnce, Backoff.Wait, Turns;
      TurnsNone(world.env, |world.trace|, p, r);
      ghost var start := world.trace;
      ghost var turns := 0;
      var b := new Backoff.Backoff(Backoff.DEFAULT);
      while !b.IsExhausted()
        invariant b.cfg == Backoff.DEFAULT && b.step == turns <= b.cfg.steps
        invariant Turns(world.env, |start|, p, r, turns).result.None?
        invariant world.trace == start + Turns(world.env, |start|, p, r, turns).ev
        decreases b.cfg.steps - b.step
      {
        ghost var here := world.trace;
        ghost var turn := Turn(world.env, |here|, p, r, turns);
        TurnsNext(world.env, start, p, r, turns);
        turns := turns + 1;
        if turn.result.Some? {
          TurnsStop(world.env, |start|, p, r, turns, Backoff.DEFAULT.steps);
        }
        var done := world.CheckContext();
        if done {
          return Cancelled;
        }
        var error := DeleteResource(p, r, rate);
        assert world.trace == here + ([CheckedContext(false)] + DeleteOnce(world.env, |here| + 1, p, r).ev);
        if error.None? {
          return Deleted;
        }
        if error == Some(ApiError(Retryable)) {
          var duration := b.Next();
          if duration == 0 {
            break;
          }
          var interrupted := world.Sleep(duration);
          if interrupted {
            return Cancelled;
          }
          continue;
        }
        if error == Some(ApiError(NotFound)) {
          return Deleted;
        }
        return Failed(error.value);
      }
      return Exhausted;
    }

    method DeleteBatch(p: Policy, batch: seq<Resource>, rate: int64) returns (deleted: nat, errors: seq<Failure>)
      requires rate == RequestedRate(p.spec.behavior)
      modifies world
      ensures
        var b := BatchTo(world.env, |old(world.trace)|, p, batch, |batch|);
        world.trace == old(world.trace) + b.ev && deleted == b.deleted && errors == b.errors
    {
      hide DeleteWithBackoff, BatchTo;
      deleted, errors := 0, [];
      ghost var start := world.trace;
      BatchNone(world.env, |start|, p, batch);
      for i := 0 to |batch|
        invariant var b := BatchTo(world.env, |start|, p, batch, i);
          !b.stopped && world.trace == start + b.ev && deleted == b.deleted && errors == b.errors
      {
        BatchNext(world.env, start, p, batch, i);
        if i % CONTEXT_CHECK_INTERVAL == 0 {
          var done := world.CheckContext();
          if done {
            BatchStops(world.env, |start|, p, batch, i + 1, |batch|);
            return;
          }
        }
        ghost var here := world.trace;
        var granted := world.Wait(rate);
        if !granted {
          errors := errors + [Failure(batch[i], NoToken)];
          continue;
        }
        var result := DeleteResourceWithBackoff(p, batch[i], rate);
        assert world.trace == here + ([Waited(rate, true)] + DeleteWithBackoff(world.env, |here| + 1, p, batch[i]).ev);
        if result != Deleted {
          errors := errors + [Failure(batch[i], NotDeleted(result))];
          continue;
        }
        deleted := deleted + 1;
      }
    }

    /**
     The loop over batches; the errors are those handed to the event recorder. A panic is answered as
     such, and sizes for which the loop never ends are excluded: zero, unless the context gets done.
     */
    method DeleteQueueInBatches(p: Policy, queue: seq<Resource>, rate: int64, size: int64)
      returns (panicked: bool, deleted: nat, errors: seq<Failure>)
      requires rate == RequestedRate(p.spec.behavior)
      requires queue == [] || size != 0 || exists m: nat :: |world.trace| <= m && world.env.done(m)
      modifies world
      ensures exists turns: nat ::
        var q := QueueTurns(world.env, |old(world.trace)|, p, queue, size, turns);
        && q.place == (if panicked then Panicked else Finished)
        && world.trace == old(world.trace) + q.batch.ev && deleted == q.batch.deleted && errors == q.batch.errors
      ensures size > 0 ==>
        var b := DeleteQueue(world.env, |old(world.trace)|, p, queue, size);
        !panicked && world.trace == old(world.trace) + b.ev && deleted == b.deleted && errors == b.errors
    {
      hide BatchTo, QueueTurns, DeleteQueue;
      panicked, deleted, errors := false, 0, [];
      ghost var start, turns := world.trace, 0;
      ghost var bound: nat := 0;
      if queue != [] && size == 0 {
        bound :| |start| <= bound && world.env.done(bound);
      }
      QueueTurnsNone(world.env, start, p, queue, size);
      var i := 0;
      while i < |queue|
        invariant i >= 0
        invariant AtTurn(world.env, start, world.trace, p, queue, size, turns, i, deleted, errors)
        invariant size == 0 && queue != [] ==> |world.trace| <= bound
        decreases if size == 0 then bound - |world.trace| else |queue| - i
      {
        QueueTurnsNext(world.env, start, world.trace, p, queue, size, turns, i, deleted, errors);
        turns := turns + 1;
        ghost var here := world.trace;
        var done := world.CheckContext();
        if done {
          QueueTurnsAre(world.env, |start|, p, queue, size, turns);
          return;
        }
        var end := if i + size > |queue| then |queue| else i + size;
        if end < i {
          panicked := true;
          return;
        }
        BatchNone(world.env, |world.trace|, p, queue[i..end]);
        var batchDeleted, batchErrors := DeleteBatch(p, queue[i..end], rate);
        deleted := deleted + batchDeleted;
        errors := errors + batchErrors;
        i := i + size;
      }
      QueueTurnsNext(world.env, start, world.trace, p, queue, size, turns, i, deleted, errors);
      QueueTurnsAre(world.env, |start|, p, queue, size, turns + 1);
    }
  }
}
