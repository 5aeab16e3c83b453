/**
 The limiter as it is coded: one backing array per key, compacted in place, and a map
 of (array, length) pairs that the rejecting path does not write back.
 */
module LogLimiterArrays {
  import opened Int64
  import opened LogLimiter

  /** A Go slice that starts at the beginning of its backing array. */
  datatype Slice = Slice(arr: array<int>, len: nat)

  ghost predicate Holds(s: Slice, list: seq<int>)
    reads s.arr
  {
    s.len <= s.arr.Length && s.arr[..s.len] == list
  }

  /** Keeps the instants after the cutoff, in order, at the front; the rest of the array stays as it was. */
  method Compact(arr: array<int>, len: nat, cutoff: int) returns (kept: nat)
    requires len <= arr.Length
    modifies arr
    ensures kept <= len
    ensures arr[..kept] == Newer(old(arr[..len]), cutoff)
    ensures forall i :: kept <= i < arr.Length ==> arr[i] == old(arr[i])
  {
    kept := 0;
    ghost var was := arr[..len];
    assert was[..0] == [];
    for i := 0 to len
      invariant kept <= i <= len
      invariant arr[..kept] == Newer(was[..i], cutoff)
      invariant forall j :: kept <= j < arr.Length ==> arr[j] == old(arr[j])
    {
      assert was[..i + 1][..i] == was[..i];
      if arr[i] > cutoff {
        ghost var front := arr[..kept];
        arr[kept] := arr[i];
        kept := kept + 1;
        assert arr[..kept] == front + [was[i]];
      }
    }
    assert was[..len] == was;
  }

  /** The lists when the keys of todo are still to be pruned. */
  ghost function PrunedBut(lists: map<string, seq<int>>, cutoff: int, todo: set<string>): map<string, seq<int>> {
    map k | k in lists && (k in todo || Newer(lists[k], cutoff) != [])
      :: if k in todo then lists[k] else Newer(lists[k], cutoff)
  }

  lemma PrunedNext(lists: map<string, seq<int>>, cutoff: int, todo: set<string>, k: string)
    requires k in todo && todo <= lists.Keys
    ensures
      var before, kept := PrunedBut(lists, cutoff, todo), Newer(lists[k], cutoff);
      && before[k] == lists[k]
      && PrunedBut(lists, cutoff, todo - {k}) == if kept == [] then before - {k} else before[k := kept]
  {
    hide Newer;
  }

  lemma PrunedEnds(lists: map<string, seq<int>>, cutoff: int)
    ensures PrunedBut(lists, cutoff, lists.Keys) == lists
    ensures PrunedBut(lists, cutoff, {}) == Pruned(lists, cutoff)
  {
    hide Newer;
  }

  class RateLimiter {
    const cfg: Config
    var entries: map<string, Slice>
    var lastCleanup: int

    ghost var Repr: set<object>
    ghost var lists: map<string, seq<int>>  // what the slices hold
    ghost var owner: map<array<int>, string>  // whose array it is: no two keys share one

    /** A key owns its array, of the capacity that was asked for when it was made. */
    ghost predicate Owned(k: string)
      requires k in entries && k in lists
      reads this, Repr
    {
      && entries[k].arr in Repr
      && entries[k].arr.Length == cfg.max
      && entries[k].arr in owner && owner[entries[k].arr] == k
      && Holds(entries[k], lists[k])
    }

    ghost predicate ValidExcept(k: string)
      reads this, Repr
    {
      && this in Repr
      && cfg.max > 0
      && entries.Keys == lists.Keys
      && forall j :: j in entries && j != k ==> Owned(j)
    }

    ghost predicate Valid()
      reads this, Repr
    {
      && this in Repr
      && (cfg.max <= 0 ==> entries == map[])
      && entries.Keys == lists.Keys
      && forall k :: k in entries ==> Owned(k)
    }

    ghost function Abstract(): State
      reads this
    {
      State(lists, lastCleanup)
    }

    constructor (cfg: Config, now: int)
      ensures Valid() && fresh(Repr) && this.cfg == cfg
      ensures Abstract() == Run(cfg, now, []).state
    {
      this.cfg := cfg;
      entries, lists, owner := map[], map[], map[];
      lastCleanup := now;
      Repr := {this};
    }

    /** delete(rl.entries, key) */
    method Drop(k: string)
      requires ValidExcept(k)
      modifies this`entries, this`lists
      ensures Valid()
      ensures lists == old(lists) - {k}
    {
      entries, lists := entries - {k}, lists - {k};
    }

    /** rl.entries[key] = timestamps */
    method Store(k: string, slice: Slice, ghost list: seq<int>)
      requires ValidExcept(k)
      requires slice.arr.Length == cfg.max && Holds(slice, list)
      requires slice.arr in owner ==> owner[slice.arr] == k
      modifies this`entries, this`lists, this`owner, this`Repr
      ensures Valid() && Repr == old(Repr) + {slice.arr}
      ensures lists == old(lists)[k := list]
    {
      forall j | j in entries && j != k
        ensures Owned(j) && entries[j].arr != slice.arr
      {
      }
      entries, lists := entries[k := slice], lists[k := list];
      owner, Repr := owner[slice.arr := k], Repr + {slice.arr};
    }

    /** Compacts one key's list in place, and drops the key when nothing is left. */
    method PruneKey(k: string, cutoff: int)
      requires Valid() && k in entries
      modifies this`entries, this`lists, this`owner, this`Repr, entries[k].arr
      ensures Valid() && Repr == old(Repr)
      ensures
        var kept := Newer(old(lists)[k], cutoff);
        lists == if kept == [] then old(lists) - {k} else old(lists)[k := kept]
    {
      hide Newer;
      assert Owned(k);
      var slice := entries[k];
      var kept := Compact(slice.arr, slice.len, cutoff);
      assert ValidExcept(k);
      if kept == 0 {
        Drop(k);
      } else {
        Store(k, Slice(slice.arr, kept), slice.arr[..kept]);
      }
    }

    /** Prunes every key's list in place. */
    method Cleanup(now: int)
      requires Valid() && cfg.max > 0
      modifies Repr
      ensures Valid() && Repr == old(Repr) && lastCleanup == old(lastCleanup)
      ensures lists == Pruned(old(lists), CleanupStart(cfg, now))
    {
      hide Newer, CleanupStart, Pruned, PrunedBut;
      var windowStart := CleanupStart(cfg, now);
      var todo := entries.Keys;
      PrunedEnds(lists, windowStart);
      while todo != {}
        invariant Valid() && Repr == old(Repr) && lastCleanup == old(lastCleanup)
        invariant todo <= entries.Keys && todo <= old(lists).Keys
        invariant lists == PrunedBut(old(lists), windowStart, todo)
      {
        var k :| k in todo;
        PrunedNext(old(lists), windowStart, todo, k);
        PruneKey(k, windowStart);
        todo := todo - {k};
      }
    }

    /** The list of a key, or a new empty one that is not in the map yet. */
    method Lookup(key: string) returns (timestamps: Slice)
      requires Valid() && cfg.max > 0
      ensures timestamps.len <= timestamps.arr.Length == cfg.max
      ensures if key in entries then timestamps == entries[key] else fresh(timestamps.arr)
      ensures timestamps.arr in owner ==> owner[timestamps.arr] == key
      ensures timestamps.arr[..timestamps.len] == Stored(Abstract(), key)
    {
      if key in entries {
        timestamps := entries[key];
      } else {
        var arr := new int[cfg.max];
        timestamps := Slice(arr, 0);
      }
    }

    /** The part of Allow after clean-up. */
    method Admit(key: string, now: int) returns (allowed: bool)
      requires Valid() && cfg.max > 0
      modifies Repr
      ensures Valid() && fresh(Repr - old(Repr)) && lastCleanup == old(lastCleanup)
      ensures
        var kept := Newer(Stored(old(Abstract()), key), WindowStart(cfg, now));
        && allowed == (|kept| < cfg.max)
        && lists == if allowed then old(lists)[key := kept + [now]] else old(lists)
    {
      hide Newer, WindowStart;
      var timestamps := Lookup(key);
      var windowStart := WindowStart(cfg, now);
      var kept := Compact(timestamps.arr, timestamps.len, windowStart);
      assert ValidExcept(key);
      if kept >= cfg.max {
        // Not written back. The stored length never exceeds max, so nothing was dropped.
        NewerAll(Stored(old(Abstract()), key), windowStart);
        assert Owned(key);
        return false;
      }
      ghost var list := timestamps.arr[..kept];
      timestamps.arr[kept] := now;
      assert timestamps.arr[..kept + 1] == list + [now];
      Store(key, Slice(timestamps.arr, kept + 1), list + [now]);
      return true;
    }

    method Allow(key: string, now: int) returns (allowed: bool)
      requires Valid()
      modifies Repr
      ensures Valid() && fresh(Repr - old(Repr))
      ensures (Abstract(), allowed) == LogLimiter.Allow(cfg, old(Abstract()), key, now)
    {
      hide Newer, CleanupStart, WindowStart, Pruned;
      if cfg.max <= 0 {
        return true;
      }
      if SaturatedDifference(now, lastCleanup) > cfg.interval {
        Cleanup(now);
        lastCleanup := now;
      }
      assert Abstract() == Cleaned(cfg, old(Abstract()), now);
      allowed := Admit(key, now);
    }
  }
}
