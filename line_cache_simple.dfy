/**
  The simple line cache: a map from line number to byte offset, filled by
  callers, emptied by line, from a line on, by an inclusive range or all at
  once, with hit and miss counters.
 */
module SimpleCaches {
  import opened Options

  /** A lookup in the map, as `HashMap::get` answers it. */
  function Lookup(m: map<nat, nat>, line: nat): (r: Option<nat>)
    ensures r.Some? <==> line in m
    ensures r.Some? ==> r.value == m[line]
  {
    if line in m then Some(m[line]) else None
  }

  /** `HashMap::insert`: `line` now maps to `offset`. */
  function Stored(m: map<nat, nat>, line: nat, offset: nat): map<nat, nat>
  {
    m[line := offset]
  }

  /** `HashMap::remove`: `line` no longer has an entry. */
  function Removed(m: map<nat, nat>, line: nat): map<nat, nat>
  {
    map l | l in m && l != line :: m[l]
  }

  /** What `retain(|line, _| line < start)` keeps. */
  function KeptBelow(m: map<nat, nat>, start: nat): map<nat, nat>
  {
    map l | l in m && l < start :: m[l]
  }

  /** The map with the lines `start..stop` removed. */
  function RemovedSpan(m: map<nat, nat>, start: nat, stop: nat): map<nat, nat>
  {
    map l | l in m && !(start <= l < stop) :: m[l]
  }

  /** The map with the lines `start..=end` removed. */
  function RemovedRange(m: map<nat, nat>, start: nat, end: nat): map<nat, nat>
  {
    RemovedSpan(m, start, end + 1)
  }

  /** A lookup gives the last offset stored for the line, and storing touches no other line. */
  lemma LookupAfterStore(m: map<nat, nat>, line: nat, offset: nat, other: nat)
    ensures Lookup(Stored(m, line, offset), line) == Some(offset)
    ensures other != line ==> Lookup(Stored(m, line, offset), other) == Lookup(m, other)
  {
  }

  /** Removing a line empties its entry and touches no other line. */
  lemma LookupAfterRemove(m: map<nat, nat>, line: nat, other: nat)
    ensures Lookup(Removed(m, line), line) == None
    ensures other != line ==> Lookup(Removed(m, line), other) == Lookup(m, other)
  {
  }

  /** `invalidate_from(s)` keeps exactly the entries for lines below `s`. */
  lemma LookupAfterKeptBelow(m: map<nat, nat>, start: nat, line: nat)
    ensures Lookup(KeptBelow(m, start), line) == if line < start then Lookup(m, line) else None
  {
  }

  /** `invalidate_range(s, e)` empties exactly the lines `s` to `e`, both included. */
  lemma LookupAfterRemovedRange(m: map<nat, nat>, start: nat, end: nat, line: nat)
    ensures Lookup(RemovedRange(m, start, end), line) == if start <= line <= end then None else Lookup(m, line)
  {
  }

  /** Removing a range up to a line past every key is `invalidate_from` at its start. */
  lemma RemovedRangeToEndIsKeptBelow(m: map<nat, nat>, start: nat, end: nat)
    requires forall l :: l in m ==> l <= end
    ensures RemovedRange(m, start, end) == KeptBelow(m, start)
  {
  }

  /** Removing one more line extends the removed span by that line. */
  lemma RemovedSpanStep(m: map<nat, nat>, start: nat, line: nat)
    requires start <= line
    ensures Removed(RemovedSpan(m, start, line), line) == RemovedSpan(m, start, line + 1)
  {
  }

  class LineCache {
    var cache: map<nat, nat>
    var hits: nat
    var misses: nat

    /** `LineCache::new`: nothing cached and nothing counted. */
    constructor ()
      ensures cache == map[] && hits == 0 && misses == 0
    {
      cache, hits, misses := map[], 0, 0;
    }

    /** `get`: the cached offset, counting a hit when there is one and a miss otherwise. */
    method Get(line: nat) returns (r: Option<nat>)
      modifies this
      ensures r == Lookup(old(cache), line) && cache == old(cache)
      ensures r.Some? ==> hits == old(hits) + 1 && misses == old(misses)
      ensures r.None? ==> hits == old(hits) && misses == old(misses) + 1
    {
      if line in cache {
        hits := hits + 1;
        r := Some(cache[line]);
      } else {
        misses := misses + 1;
        r := None;
      }
    }

    /** `insert`. */
    method Insert(line: nat, offset: nat)
      modifies this
      ensures cache == Stored(old(cache), line, offset)
      ensures hits == old(hits) && misses == old(misses)
    {
      cache := cache[line := offset];
    }

    /** `invalidate_line`. */
    method InvalidateLine(line: nat)
      modifies this
      ensures cache == Removed(old(cache), line)
      ensures hits == old(hits) && misses == old(misses)
    {
      cache := Removed(cache, line);
    }

    /** `invalidate_from`: entries for lines from `start` on are dropped. */
    method InvalidateFrom(start: nat)
      modifies this
      ensures cache == KeptBelow(old(cache), start)
      ensures hits == old(hits) && misses == old(misses)
    {
      cache := KeptBelow(cache, start);
    }

    /** `invalidate_range`: the lines `start..=end` are removed one by one. */
    method InvalidateRange(start: nat, end: nat)
      modifies this
      ensures cache == RemovedRange(old(cache), start, end)
      ensures hits == old(hits) && misses == old(misses)
    {
      if start > end {
        assert RemovedRange(cache, start, end) == cache;
        return;
      }
      var line := start;
      assert RemovedSpan(cache, start, start) == cache;
      while line <= end
        invariant start <= line <= end + 1
        invariant cache == RemovedSpan(old(cache), start, line)
        invariant hits == old(hits) && misses == old(misses)
      {
        RemovedSpanStep(old(cache), start, line);
        InvalidateLine(line);
        line := line + 1;
      }
    }

    /** `clear`. */
    method Clear()
      modifies this
      ensures cache == map[] && hits == old(hits) && misses == old(misses)
    {
      cache := map[];
    }

    /** `size`: the number of cached lines. */
    function Size(): (n: nat)
      reads this
      ensures n == |cache.Keys|
    {
      |cache|
    }

    /** `limit_size`: more than `max` entries empties the cache; otherwise nothing changes. */
    method LimitSize(max: nat)
      modifies this
      ensures old(Size()) > max ==> cache == map[]
      ensures old(Size()) <= max ==> cache == old(cache)
      ensures Size() <= max || Size() == old(Size())
      ensures hits == old(hits) && misses == old(misses)
    {
      if |cache| > max {
        cache := map[];
      }
    }
  }
}
