/**
 Everything outside the controller: the context, the clock, the rate limiters' tokens, the API
 server, the informers' stores. A world is a trace of the events so far and an environment
 that says, for every position of the trace, what the outside answers there; a statement
 about all environments is a statement about everything the outside may do.
 */
module Worlds {
  import opened Int64
  import opened Policies

  /** The API server's answer to a delete. */
  datatype Answer = Accepted | NotFound | Retryable | Fatal

  /** What an informer watches; the empty namespace is all of them. */
  datatype Informer = Informer(apiVersion: string, kind: string, namespace: string)

  /** An item of an informer's store: an unstructured object, or something else. */
  datatype Item = Object(resource: Resource) | Alien

  datatype Name = Name(namespace: string, name: string)

  datatype Fetch = Missing | Unavailable | Found(policy: Policy)

  datatype Event =
    | Fetched(name: Name, fetch: Fetch)
    | Synced(informer: Informer, ok: bool)
    | Listed(source: Informer, items: seq<Item>)
    | CheckedContext(done: bool)
    | ReadClock(now: int)
    | Waited(rate: int64, granted: bool)
    | ApiDelete(policy: Policy, resource: Resource, options: DeleteOptions, answer: Answer)
    | Slept(duration: int, interrupted: bool)
    | StatusUpdated(matched: nat, deleted: nat, pending: nat)

  datatype Environment = Environment(
    lib: Library,
    done: nat -> bool,
    clock: nat -> int,
    grants: nat -> bool,
    wakes: nat -> bool,
    answers: nat -> Answer,
    fetches: (nat, Name) -> Fetch,
    syncs: nat -> bool,
    stores: (nat, Informer) -> seq<Item>,
    statusFails: nat -> bool)
  {
    /** Once done, the context stays done; the clock never goes back. */
    ghost predicate Lawful() {
      && (forall i: nat, j: nat :: i <= j && done(i) ==> done(j))
      && (forall i: nat, j: nat :: i <= j ==> clock(i) <= clock(j))
    }

    /** A rate limiter grants a token or fails, and fails on a done context. */
    function Grants(n: nat): bool {
      grants(n) && !done(n)
    }

    /** A sleep is cut short when the context is done at its start, and may be when it ends up done. */
    function Interrupts(n: nat): bool {
      done(n) || (done(n + 1) && wakes(n))
    }
  }

  class World {
    const env: Environment
    var trace: seq<Event>

    constructor (env: Environment)
      ensures this.env == env && trace == []
    {
      this.env := env;
      trace := [];
    }

    method FetchPolicy(name: Name) returns (fetch: Fetch)
      modifies this
      ensures fetch == env.fetches(|old(trace)|, name)
      ensures trace == old(trace) + [Fetched(name, fetch)]
    {
      fetch := env.fetches(|trace|, name);
      trace := trace + [Fetched(name, fetch)];
    }

    method WaitForSync(informer: Informer) returns (ok: bool)
      modifies this
      ensures ok == env.syncs(|old(trace)|)
      ensures trace == old(trace) + [Synced(informer, ok)]
    {
      ok := env.syncs(|trace|);
      trace := trace + [Synced(informer, ok)];
    }

    method ListStore(informer: Informer) returns (items: seq<Item>)
      modifies this
      ensures items == env.stores(|old(trace)|, informer)
      ensures trace == old(trace) + [Listed(informer, items)]
    {
      items := env.stores(|trace|, informer);
      trace := trace + [Listed(informer, items)];
    }

    method CheckContext() returns (done: bool)
      modifies this
      ensures done == env.done(|old(trace)|)
      ensures trace == old(trace) + [CheckedContext(done)]
    {
      done := env.done(|trace|);
      trace := trace + [CheckedContext(done)];
    }

    method Now() returns (now: int)
      modifies this
      ensures now == env.clock(|old(trace)|)
      ensures trace == old(trace) + [ReadClock(now)]
    {
      now := env.clock(|trace|);
      trace := trace + [ReadClock(now)];
    }

    method Wait(rate: int64) returns (granted: bool)
      modifies this
      ensures granted == env.Grants(|old(trace)|)
      ensures trace == old(trace) + [Waited(rate, granted)]
    {
      granted := env.Grants(|trace|);
      trace := trace + [Waited(rate, granted)];
    }

    method DeleteResource(policy: Policy, resource: Resource, options: DeleteOptions) returns (answer: Answer)
      modifies this
      ensures answer == env.answers(|old(trace)|)
      ensures trace == old(trace) + [ApiDelete(policy, resource, options, answer)]
    {
      answer := env.answers(|trace|);
      trace := trace + [ApiDelete(policy, resource, options, answer)];
    }

    method Sleep(duration: int) returns (interrupted: bool)
      modifies this
      ensures interrupted == env.Interrupts(|old(trace)|)
      ensures trace == old(trace) + [Slept(duration, interrupted)]
    {
      interrupted := env.Interrupts(|trace|);
      trace := trace + [Slept(duration, interrupted)];
    }

    method UpdateStatus(matched: nat, deleted: nat, pending: nat) returns (failed: bool)
      modifies this
      ensures failed == env.statusFails(|old(trace)|)
      ensures trace == old(trace) + [StatusUpdated(matched, deleted, pending)]
    {
      failed := env.statusFails(|trace|);
      trace := trace + [StatusUpdated(matched, deleted, pending)];
    }
  }
}
