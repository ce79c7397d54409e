/**
 The in-memory cache service and the guard in front of every request, with the counters updated in place.
 The clock is a parameter that never goes back.
 */
module CacheService {
  import opened Wrappers
  import opened RateLimiter

  datatype Consumed = Consumed(count: nat, ttlSeconds: nat)

  /** Headers of a response: limit, remaining, reset and, on a rejection, the seconds to wait. */
  datatype Verdict = Verdict(allowed: bool, limit: nat, remaining: nat, reset: int, retryAfter: Option<nat>)

  class Cache {
    var counters: map<string, Counter>
    /** Every call so far, for the specification. */
    ghost var calls: seq<Call>
    const windowSeconds: nat

    ghost predicate Valid()
      reads this
    {
      && counters == Counters(calls, windowSeconds * 1000)
      && forall i, k | 0 <= i < k < |calls| :: calls[i].at <= calls[k].at
    }

    ghost predicate NotBefore(now: int)
      reads this
    {
      forall i | 0 <= i < |calls| :: calls[i].at <= now
    }

    constructor (windowSeconds: nat)
      ensures Valid() && counters == map[] && calls == [] && this.windowSeconds == windowSeconds
    {
      this.windowSeconds := windowSeconds;
      counters, calls := map[], [];
    }

    /** `consumeFixedWindow`, in memory */
    method ConsumeFixedWindow(key: string, now: int) returns (r: Consumed)
      requires Valid() && NotBefore(now)
      modifies this
      ensures Valid() && calls == old(calls) + [Call(key, now)]
      ensures counters == ConsumeIn(old(counters), Call(key, now), windowSeconds * 1000) && key in counters
      ensures r.count == counters[key].count
      ensures r.ttlSeconds == SecondsLeft(counters[key].expiresAt - now)
    {
      ghost var call := Call(key, now);
      calls := calls + [call];
      assert calls[..|calls| - 1] == old(calls);
      if key !in counters || counters[key].expiresAt <= now {
        counters := counters[key := Counter(1, now + windowSeconds * 1000)];
        return Consumed(1, windowSeconds);
      }
      var existing := counters[key];
      counters := counters[key := existing.(count := existing.count + 1)];
      r := Consumed(counters[key].count, SecondsLeft(existing.expiresAt - now));
    }

    /** `canActivate`, from the counter on; `clock` is read again for the response. */
    method CanActivate(key: string, limit: nat, now: int, clock: int) returns (v: Verdict)
      requires Valid() && NotBefore(now)
      modifies this
      ensures Valid() && calls == old(calls) + [Call(key, now)]
      ensures var times := TimesOf(calls, key);
              && times == TimesOf(old(calls), key) + [now]
              && (v.allowed <==> Admitted(times, windowSeconds * 1000, limit, |times| - 1))
              && v.remaining == (if v.allowed then limit - CounterAt(times, windowSeconds * 1000, |times| - 1).count else 0)
              && v.retryAfter == (if v.allowed then None
                                  else Some(SecondsLeft(CounterAt(times, windowSeconds * 1000, |times| - 1).expiresAt - now)))
              && v.reset == ResetAt(clock, SecondsLeft(CounterAt(times, windowSeconds * 1000, |times| - 1).expiresAt - now))
      ensures v.limit == limit
    {
      hide SecondsLeft, ResetAt, Consume, ConsumeIn, Counters, CounterAt;
      var result := ConsumeFixedWindow(key, now);
      assert calls[..|calls| - 1] == old(calls);
      ghost var times := TimesOf(calls, key);
      assert times == TimesOf(old(calls), key) + [now];
      KeysDoNotInterfere(calls, windowSeconds * 1000, key);
      assert counters[key] == CounterAt(times, windowSeconds * 1000, |times| - 1);
      var remaining := if limit - result.count > 0 then limit - result.count else 0;
      var reset := ResetAt(clock, result.ttlSeconds);
      if result.count > limit {
        return Verdict(false, limit, remaining, reset, Some(result.ttlSeconds));
      }
      v := Verdict(true, limit, remaining, reset, None);
    }
  }
}
