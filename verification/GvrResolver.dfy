/**
 Resolving a kind to a resource, with a cache (pkg/controller/gvr_resolver.go).

 A call takes the lock to read the cache, lets go of it to ask the mapper, and takes it again
 to write the cache; calls interleave between these three steps. Discovery only adds kinds
 and never changes the answer for one.
 */
module GvrResolver {

  datatype Gvk = Gvk(group: string, version: string, kind: string)

  datatype Gvr = Gvr(group: string, version: string, resource: string)

  /** plural is PluralizeKind. A resolver made without a mapper always pluralises. */
  datatype Config = Config(hasMapper: bool, plural: string -> string)

  function Pluralised(cfg: Config, gvk: Gvk): Gvr {
    Gvr(gvk.group, gvk.version, cfg.plural(gvk.kind))
  }

  /** What a resolver without a cache would answer. */
  function Uncached(cfg: Config, known: map<Gvk, Gvr>, gvk: Gvk): Gvr {
    if cfg.hasMapper && gvk in known then known[gvk] else Pluralised(cfg, gvk)
  }

  // --------------------------------------------------------- interleavings

  datatype Progress =
    | Started                   // before the cache is read
    | Missed                    // the cache had no answer
    | Confirmed(answer: Gvr)    // the mapper answered; not cached yet
    | Returned(result: Gvr)

  datatype Call = Call(gvk: Gvk, invoked: nat, progress: Progress)

  datatype State = State(time: nat, known: map<Gvk, Gvr>, cache: map<Gvk, Gvr>, calls: map<nat, Call>)

  datatype Action =
    | Discover(gvk: Gvk, gvr: Gvr)
    | Invoke(id: nat, gvk: Gvk)
    | ReadCache(id: nat)
    | AskMapper(id: nat)
    | WriteCache(id: nat)

  const INITIAL := State(0, map[], map[], map[])

  function Advance(s: State, id: nat, progress: Progress): State
    requires id in s.calls
  {
    s.(calls := s.calls[id := s.calls[id].(progress := progress)])
  }

  /** The effect of an action; one that is not possible does nothing. */
  function Effect(cfg: Config, s: State, a: Action): State {
    match a
    case Discover(gvk, gvr) =>
      if gvk in s.known then s else s.(known := s.known[gvk := gvr])
    case Invoke(id, gvk) =>
      if id in s.calls then s else s.(calls := s.calls[id := Call(gvk, s.time, Started)])
    case ReadCache(id) =>
      if id !in s.calls || s.calls[id].progress != Started then s
      else if s.calls[id].gvk in s.cache then Advance(s, id, Returned(s.cache[s.calls[id].gvk]))
      else Advance(s, id, Missed)
    case AskMapper(id) =>
      if id !in s.calls || s.calls[id].progress != Missed then s
      else if cfg.hasMapper && s.calls[id].gvk in s.known then Advance(s, id, Confirmed(s.known[s.calls[id].gvk]))
      else Advance(s, id, Returned(Pluralised(cfg, s.calls[id].gvk)))
    case WriteCache(id) =>
      if id !in s.calls || !s.calls[id].progress.Confirmed? then s
      else
        var c := s.calls[id];
        Advance(s.(cache := s.cache[c.gvk := c.progress.answer]), id, Returned(c.progress.answer))
  }

  function Next(cfg: Config, s: State, a: Action): State {
    Effect(cfg, s, a).(time := s.time + 1)
  }

  /** The state after a sequence of actions, whatever calls they belong to. */
  function After(cfg: Config, actions: seq<Action>): (s: State)
    ensures s.time == |actions|
  {
    if actions == [] then INITIAL
    else
      var last := |actions| - 1;
      Next(cfg, After(cfg, actions[..last]), actions[last])
  }

  /** Only what the mapper confirmed is cached, or about to be. */
  ghost predicate Sound(cfg: Config, s: State) {
    && (forall gvk :: gvk in s.cache ==> cfg.hasMapper && gvk in s.known && s.cache[gvk] == s.known[gvk])
    && (forall id :: id in s.calls && s.calls[id].progress.Confirmed? ==>
          && cfg.hasMapper && s.calls[id].gvk in s.known
          && s.calls[id].progress.answer == s.known[s.calls[id].gvk])
  }

  lemma AfterNone(cfg: Config)
    ensures After(cfg, []) == INITIAL
  {
  }

  lemma AfterSnoc(cfg: Config, actions: seq<Action>, action: Action)
    ensures After(cfg, actions + [action]) == Next(cfg, After(cfg, actions), action)
  {
    assert (actions + [action])[..|actions|] == actions;
  }

  lemma NextSound(cfg: Config, s: State, a: Action)
    requires Sound(cfg, s)
    ensures Sound(cfg, Next(cfg, s, a))
  {
    match a {
      case Discover(gvk, gvr) =>
      case Invoke(id, gvk) =>
      case ReadCache(id) =>
      case AskMapper(id) =>
      case WriteCache(id) =>
    }
  }

  /**
   In every interleaving: each cached pair is the mapper's, so a pluralised guess is never
   cached, and a resolver without a mapper caches nothing.
   */
  lemma {:induction false} CacheIsConfirmed(cfg: Config, actions: seq<Action>)
    ensures Sound(cfg, After(cfg, actions))
  {
    hide After, Next;
    if actions == [] {
      AfterNone(cfg);
    } else {
      var earlier, action := actions[..|actions| - 1], actions[|actions| - 1];
      assert actions == earlier + [action];
      CacheIsConfirmed(cfg, earlier);
      NextSound(cfg, After(cfg, earlier), action);
      AfterSnoc(cfg, earlier, action);
    }
  }

  /** What is known stays known, with the same answer. */
  lemma {:induction false} KnownGrows(cfg: Config, actions: seq<Action>, earlier: nat, gvk: Gvk)
    requires earlier <= |actions|
    requires gvk in After(cfg, actions[..earlier]).known
    ensures gvk in After(cfg, actions).known
    ensures After(cfg, actions).known[gvk] == After(cfg, actions[..earlier]).known[gvk]
  {
    hide After;
    if earlier == |actions| {
      assert actions[..earlier] == actions;
    } else {
      var last := |actions| - 1;
      assert actions[..last][..earlier] == actions[..earlier];
      KnownGrows(cfg, actions[..last], earlier, gvk);
      assert actions == actions[..last] + [actions[last]];
      AfterSnoc(cfg, actions[..last], actions[last]);
    }
  }

  /** The answer is what the uncached resolver gives at some moment between two others. */
  ghost predicate AnsweredBetween(cfg: Config, actions: seq<Action>, gvk: Gvk, gvr: Gvr, invoked: nat, now: nat) {
    exists j: nat :: j <= |actions| && invoked <= j <= now && gvr == Uncached(cfg, After(cfg, actions[..j]).known, gvk)
  }

  lemma AnsweredLonger(cfg: Config, actions: seq<Action>, action: Action, gvk: Gvk, gvr: Gvr, invoked: nat)
    requires AnsweredBetween(cfg, actions, gvk, gvr, invoked, |actions|)
    ensures AnsweredBetween(cfg, actions + [action], gvk, gvr, invoked, |actions| + 1)
  {
    var j: nat :| j <= |actions| && invoked <= j <= |actions| && gvr == Uncached(cfg, After(cfg, actions[..j]).known, gvk);
    assert (actions + [action])[..j] == actions[..j];
  }

  /** Every call started no later than now, and every returned one had an uncached answer within its span. */
  ghost predicate Explained(cfg: Config, actions: seq<Action>, c: Call) {
    && c.invoked <= |actions|
    && (c.progress.Returned? ==> AnsweredBetween(cfg, actions, c.gvk, c.progress.result, c.invoked, |actions|))
  }

  /** A call that returns just now returns what the uncached resolver would. */
  lemma ReturnsUncached(cfg: Config, s: State, a: Action, id: nat)
    requires Sound(cfg, s)
    requires id in s.calls && !s.calls[id].progress.Returned?
    requires Next(cfg, s, a).calls[id].progress.Returned?
    ensures Next(cfg, s, a).calls[id].progress.result == Uncached(cfg, s.known, s.calls[id].gvk)
    ensures Next(cfg, s, a).calls[id].gvk == s.calls[id].gvk && Next(cfg, s, a).calls[id].invoked == s.calls[id].invoked
  {
  }

  lemma {:induction false} CallsExplained(cfg: Config, actions: seq<Action>, id: nat)
    requires id in After(cfg, actions).calls
    ensures Explained(cfg, actions, After(cfg, actions).calls[id])
  {
    hide After, Uncached;
    if actions == [] {
      AfterNone(cfg);
    } else {
      var earlier, action := actions[..|actions| - 1], actions[|actions| - 1];
      assert actions == earlier + [action];
      AfterSnoc(cfg, earlier, action);
      var before, after := After(cfg, earlier), After(cfg, actions);
      if id in before.calls {
        CallsExplained(cfg, earlier, id);
        var c, c' := before.calls[id], after.calls[id];
        if c.progress.Returned? {
          assert c' == c;
          AnsweredLonger(cfg, earlier, action, c.gvk, c.progress.result, c.invoked);
        } else if c'.progress.Returned? {
          CacheIsConfirmed(cfg, earlier);
          ReturnsUncached(cfg, before, action, id);
          assert actions[..|earlier|] == earlier;
          assert AnsweredBetween(cfg, actions, c.gvk, c'.progress.result, c.invoked, |actions|);
        }
      }
    }
  }

  /**
   The cache is transparent under every interleaving: a call's result is what a resolver without
   a cache would have answered at some moment between the call's start and its return.
   */
  lemma CacheIsTransparent(cfg: Config, actions: seq<Action>, id: nat)
    requires id in After(cfg, actions).calls && After(cfg, actions).calls[id].progress.Returned?
    ensures
      var c := After(cfg, actions).calls[id];
      exists j: nat :: c.invoked <= j <= |actions|
        && c.progress.result == Uncached(cfg, After(cfg, actions[..j]).known, c.gvk)
  {
    CallsExplained(cfg, actions, id);
  }

  /**
   A guess never sticks: a call that has not returned when its kind is discovered, having started or
   not, having missed the cache or not, gets the mapper's answer.
   */
  lemma {:induction false} DiscoveredKindIsResolved(cfg: Config, actions: seq<Action>, id: nat, k: nat)
    requires cfg.hasMapper && k <= |actions|
    requires id in After(cfg, actions).calls && After(cfg, actions).calls[id].progress.Returned?
    requires id in After(cfg, actions[..k]).calls ==> !After(cfg, actions[..k]).calls[id].progress.Returned?
    requires After(cfg, actions).calls[id].gvk in After(cfg, actions[..k]).known
    ensures
      var c := After(cfg, actions).calls[id];
      c.gvk in After(cfg, actions).known && c.progress.result == After(cfg, actions).known[c.gvk]
    decreases |actions|
  {
    hide After;
    var c := After(cfg, actions).calls[id];
    assert actions[..|actions|] == actions;
    KnownGrows(cfg, actions, k, c.gvk);
    var earlier, action := actions[..|actions| - 1], actions[|actions| - 1];
    assert actions == earlier + [action] && earlier[..k] == actions[..k];
    AfterSnoc(cfg, earlier, action);
    var before := After(cfg, earlier);
    KnownGrows(cfg, earlier, k, c.gvk);
    if before.calls[id].progress.Returned? {
      assert before.calls[id] == c;
      DiscoveredKindIsResolved(cfg, earlier, id, k);
      assert earlier[..|earlier|] == earlier;
      KnownGrows(cfg, actions, |earlier|, c.gvk);
    } else {
      CacheIsConfirmed(cfg, earlier);
      ReturnsUncached(cfg, before, action, id);
      assert actions[..|earlier|] == earlier;
      KnownGrows(cfg, actions, |earlier|, c.gvk);
    }
  }

  /**
   The only two answers there are: the mapper's, or the kind's own group and version with its plural;
   and the plural only without a mapper, or when the mapper did not know the kind at some moment of
   the call.
   */
  lemma AnswersAreOfTwoKinds(cfg: Config, actions: seq<Action>, id: nat)
    requires id in After(cfg, actions).calls && After(cfg, actions).calls[id].progress.Returned?
    ensures
      var c, known := After(cfg, actions).calls[id], After(cfg, actions).known;
      || (cfg.hasMapper && c.gvk in known && c.progress.result == known[c.gvk])
      || (&& c.progress.result == Gvr(c.gvk.group, c.gvk.version, cfg.plural(c.gvk.kind))
          && (cfg.hasMapper ==>
                exists j: nat :: c.invoked <= j <= |actions| && c.gvk !in After(cfg, actions[..j]).known))
  {
    hide After;
    var c := After(cfg, actions).calls[id];
    CacheIsTransparent(cfg, actions, id);
    var j: nat :| c.invoked <= j <= |actions| && c.progress.result == Uncached(cfg, After(cfg, actions[..j]).known, c.gvk);
    if cfg.hasMapper && c.gvk in After(cfg, actions[..j]).known {
      KnownGrows(cfg, actions, j, c.gvk);
    }
  }

  // ------------------------------------------------------- the cache is used

  lemma NextKeepsCached(cfg: Config, s: State, a: Action, gvk: Gvk)
    requires Sound(cfg, s) && gvk in s.cache
    ensures gvk in Next(cfg, s, a).cache && Next(cfg, s, a).cache[gvk] == s.cache[gvk]
  {
  }

  lemma {:induction false} CachedStays(cfg: Config, actions: seq<Action>, more: seq<Action>, gvk: Gvk)
    requires gvk in After(cfg, actions).cache
    ensures gvk in After(cfg, actions + more).cache
    ensures After(cfg, actions + more).cache[gvk] == After(cfg, actions).cache[gvk]
  {
    hide After, Next;
    if more == [] {
      assert actions + more == actions;
    } else {
      var earlier, action := more[..|more| - 1], more[|more| - 1];
      assert actions + more == (actions + earlier) + [action];
      CachedStays(cfg, actions, earlier, gvk);
      CacheIsConfirmed(cfg, actions + earlier);
      NextKeepsCached(cfg, After(cfg, actions + earlier), action, gvk);
      AfterSnoc(cfg, actions + earlier, action);
    }
  }

  lemma Writes(cfg: Config, s: State, id: nat)
    requires id in s.calls && s.calls[id].progress.Confirmed?
    ensures
      var c, t := s.calls[id], Next(cfg, s, WriteCache(id));
      && t.cache == s.cache[c.gvk := c.progress.answer]
      && t.calls == s.calls[id := c.(progress := Returned(c.progress.answer))]
  {
  }

  lemma Reads(cfg: Config, s: State, id: nat)
    requires id in s.calls && s.calls[id].progress == Started && s.calls[id].gvk in s.cache
    ensures Next(cfg, s, ReadCache(id)).calls[id].progress == Returned(s.cache[s.calls[id].gvk])
  {
  }

  /**
   Once a call has written what the mapper told it, every call for the kind that reads the cache
   afterwards, however much later, returns that at once.
   */
  lemma WrittenOnceReadEverAfter(cfg: Config, actions: seq<Action>, id: nat, more: seq<Action>, other: nat)
    requires id in After(cfg, actions).calls && After(cfg, actions).calls[id].progress.Confirmed?
    requires
      var c, later := After(cfg, actions).calls[id], After(cfg, actions + [WriteCache(id)] + more);
      other in later.calls && later.calls[other].gvk == c.gvk && later.calls[other].progress == Started
    ensures
      After(cfg, actions + [WriteCache(id)] + more + [ReadCache(other)]).calls[other].progress
      == Returned(After(cfg, actions).calls[id].progress.answer)
  {
    hide After, Next;
    var written := actions + [WriteCache(id)];
    AfterSnoc(cfg, actions, WriteCache(id));
    Writes(cfg, After(cfg, actions), id);
    CachedStays(cfg, written, more, After(cfg, actions).calls[id].gvk);
    AfterSnoc(cfg, written + more, ReadCache(other));
    Reads(cfg, After(cfg, written + more), other);
  }

  /** A new call that nothing interrupts, step by step. */
  function Uninterrupted(cfg: Config, s: State, id: nat, gvk: Gvk): State {
    Next(cfg, Next(cfg, Next(cfg, Next(cfg, s, Invoke(id, gvk)), ReadCache(id)), AskMapper(id)), WriteCache(id))
  }

  /** It returns the uncached answer and leaves just what the mapper confirmed in the cache: what ResolveGvr promises. */
  lemma UninterruptedCall(cfg: Config, s: State, id: nat, gvk: Gvk)
    requires Sound(cfg, s) && id !in s.calls
    ensures
      var t := Uninterrupted(cfg, s, id, gvk);
      && id in t.calls && t.calls[id].progress == Returned(Uncached(cfg, s.known, gvk))
      && t.cache == (if cfg.hasMapper && gvk in s.known then s.cache[gvk := s.known[gvk]] else s.cache)
      && t.known == s.known
  {
    hide Next;
    var invoked := Next(cfg, s, Invoke(id, gvk));
    var read := Next(cfg, invoked, ReadCache(id));
    var asked := Next(cfg, read, AskMapper(id));
    Invokes(cfg, s, id, gvk);
    LooksUp(cfg, invoked, id);
    Asks(cfg, read, id);
    if asked.calls[id].progress.Confirmed? {
      Writes(cfg, asked, id);
      WritesOnly(cfg, asked, id);
    } else {
      WritesNothing(cfg, asked, id);
    }
  }

  lemma Invokes(cfg: Config, s: State, id: nat, gvk: Gvk)
    requires id !in s.calls
    ensures
      var t := Next(cfg, s, Invoke(id, gvk));
      t.cache == s.cache && t.known == s.known && id in t.calls && t.calls[id].gvk == gvk && t.calls[id].progress == Started
  {
  }

  lemma LooksUp(cfg: Config, s: State, id: nat)
    requires id in s.calls && s.calls[id].progress == Started
    ensures
      var t, gvk := Next(cfg, s, ReadCache(id)), s.calls[id].gvk;
      && t.cache == s.cache && t.known == s.known && id in t.calls && t.calls[id].gvk == gvk
      && t.calls[id].progress == if gvk in s.cache then Returned(s.cache[gvk]) else Missed
  {
  }

  lemma Asks(cfg: Config, s: State, id: nat)
    requires id in s.calls && s.calls[id].progress != Started
    ensures
      var t, c := Next(cfg, s, AskMapper(id)), s.calls[id];
      && t.cache == s.cache && t.known == s.known && id in t.calls && t.calls[id].gvk == c.gvk
      && t.calls[id].progress ==
           if c.progress != Missed then c.progress
           else if cfg.hasMapper && c.gvk in s.known then Confirmed(s.known[c.gvk])
           else Returned(Pluralised(cfg, c.gvk))
  {
  }

  lemma WritesOnly(cfg: Config, s: State, id: nat)
    ensures Next(cfg, s, WriteCache(id)).known == s.known
  {
  }

  lemma WritesNothing(cfg: Config, s: State, id: nat)
    requires id in s.calls && !s.calls[id].progress.Confirmed?
    ensures Next(cfg, s, WriteCache(id)) == s.(time := s.time + 1)
  {
  }

  // ------------------------------------------------------------- the object

  class Resolver {
    const cfg: Config
    var cache: map<Gvk, Gvr>

    /** Relative to what the mapper knows. */
    ghost predicate Valid(known: map<Gvk, Gvr>)
      reads this
    {
      Sound(cfg, State(0, known, cache, map[]))
    }

    constructor (cfg: Config)
      ensures this.cfg == cfg && cache == map[]
      ensures forall known :: Valid(known)
    {
      this.cfg := cfg;
      cache := map[];
    }

    /** One call that nothing interrupts; known is what the mapper can answer during it. */
    method ResolveGvr(gvk: Gvk, known: map<Gvk, Gvr>) returns (gvr: Gvr)
      requires Valid(known)
      modifies this
      ensures Valid(known)
      ensures gvr == Uncached(cfg, known, gvk)
      ensures gvr == if cfg.hasMapper && gvk in known then known[gvk] else Gvr(gvk.group, gvk.version, cfg.plural(gvk.kind))
      ensures cache == if cfg.hasMapper && gvk in known then old(cache)[gvk := known[gvk]] else old(cache)
    {
      if gvk in cache {
        gvr := cache[gvk];
        assert cache == cache[gvk := gvr];
        return;
      }
      if !cfg.hasMapper {
        return Pluralised(cfg, gvk);
      }
      if gvk !in known {
        return Pluralised(cfg, gvk);
      }
      gvr := known[gvk];
      cache := cache[gvk := gvr];
    }
  }
}
