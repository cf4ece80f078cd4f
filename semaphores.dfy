/**
 * The semaphore cache (`get_semaphore`): a module-level dict from a parallelism value to
 * the one semaphore created for it. Only the cache is modelled, not permits or scheduling.
 */
module Semaphores {

  /** An `asyncio.Semaphore`, reduced to the permit count it was created with. */
  class Semaphore {
    const permits: int

    constructor (permits: int)
      ensures this.permits == permits
    {
      this.permits := permits;
    }
  }

  /** The module-level `_semaphore_cache` dict. */
  class SemaphoreCache {
    var cache: map<int, Semaphore>

    /** Every cached semaphore was created for the key it is cached under. */
    ghost predicate Valid()
      reads this, cache.Values
    {
      forall n :: n in cache ==> cache[n].permits == n
    }

    constructor ()
      ensures Valid() && cache == map[]
    {
      cache := map[];
    }

    /** Get-or-insert: the cached semaphore for `numParallelTasks`, created on first request. */
    method GetSemaphore(numParallelTasks: int) returns (s: Semaphore)
      requires Valid()
      modifies this
      ensures Valid()
      ensures numParallelTasks in cache && s == cache[numParallelTasks]
      ensures s.permits == numParallelTasks
      ensures numParallelTasks in old(cache) ==> cache == old(cache)
      ensures numParallelTasks !in old(cache) ==> fresh(s) && cache == old(cache)[numParallelTasks := s]
    {
      if numParallelTasks !in cache {
        var created := new Semaphore(numParallelTasks);
        cache := cache[numParallelTasks := created];
      }
      s := cache[numParallelTasks];
    }
  }

  /** Asking twice for the same parallelism gives the identical semaphore, and the second
      request leaves the cache as the first one left it; no other key's entry changes. */
  method SameLimitSameSemaphore(c: SemaphoreCache, n: int) returns (first: Semaphore, second: Semaphore)
    requires c.Valid()
    modifies c
    ensures c.Valid()
    ensures first == second && first.permits == n
    ensures forall k :: k in old(c.cache) && k != n ==> k in c.cache && c.cache[k] == old(c.cache)[k]
    ensures c.cache.Keys == old(c.cache).Keys + {n}
  {
    first := c.GetSemaphore(n);
    ghost var afterFirst := c.cache;
    second := c.GetSemaphore(n);
    assert c.cache == afterFirst;
  }
}
