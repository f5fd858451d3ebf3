/** The in-process limiter itself: one map that its methods update in place. */
module Limiter {
  import opened Prelude
  import opened SlidingWindow
  import opened Clients

  class RateLimiter {
    var order: seq<Key>
    var hits: map<Key, seq<Time>>
    const capacity: nat

    ghost function State(): Table
      reads this
    {
      Table(order, hits)
    }

    constructor ()
      ensures State() == NO_CLIENTS && Valid(State()) && capacity == MAX_TRACKED_CLIENTS
    {
      order, hits := [], map[];
      capacity := MAX_TRACKED_CLIENTS;
    }

    /**
     Seconds the caller must wait, or None. The answer is about the whole deque
     as it was before the call; what the call leaves is the pruned deque.
     */
    method Check(k: Key, now: Time, limits: seq<RateLimit>) returns (retry: Option<nat>)
      requires Valid(State()) && Usable(limits)
      modifies this
      ensures Valid(State()) && State() == Checked(old(State()), k, now, limits)
      ensures retry == Verdict(Deque(old(State()), k), now, limits)
      ensures IsVerdict(Deque(old(State()), k), now, limits, retry)
    {
      hide Recent, Retry, Longest, IsVerdict;
      VerdictIsFirstFull(Deque(State(), k), now, limits);
      ghost var before := Deque(State(), k);
      if k !in hits {
        order, hits := order + [k], hits[k := []];
      }
      var longest := Longest(limits);
      while |hits[k]| > 0 && now - hits[k][0] > longest as Time
        invariant k in hits && State() == Put(old(State()), k, hits[k])
        invariant Prune(hits[k], now, longest) == Prune(before, now, longest)
        decreases |hits[k]|
      {
        hits := hits[k := hits[k][1..]];
      }
      PruneUnseen(before, now, limits);
      for i := 0 to |limits|
        invariant Verdict(hits[k], now, limits) == Verdict(hits[k], now, limits[i..])
      {
        assert limits[i..][1..] == limits[i + 1..];
        if Recent(hits[k], now, limits[i]) >= limits[i].maxEvents {
          return Some(Retry(hits[k], now, limits[i]));
        }
      }
      retry := None;
    }

    /** Drops the least recently seen keys once the map is over its capacity. */
    method EvictIfOversized()
      requires Valid(State())
      modifies this
      ensures State() == Evicted(old(State()), capacity)
    {
      hide Sorted, LastSeen, Insert;
      if |order| <= capacity {
        return;
      }
      var oldest := Sorted(Table(order, hits), |order|);
      var excess := |order| - capacity;
      for i := 0 to excess
        invariant State() == DeleteFirst(old(State()), oldest, i)
      {
        order, hits := Without(order, oldest[i]), hits - {oldest[i]};
      }
    }

    method Record(k: Key, now: Time)
      requires Valid(State())
      modifies this
      ensures Valid(State()) && State() == Recorded(old(State()), k, now, capacity)
      ensures |order| <= capacity
    {
      if k !in hits {
        order, hits := order + [k], hits[k := []];
      }
      hits := hits[k := hits[k] + [now]];
      assert State() == Put(old(State()), k, Deque(old(State()), k) + [now]);
      EvictionDropsExcess(State(), capacity);
      EvictIfOversized();
    }
  }
}
