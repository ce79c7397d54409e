/**
 The fixed-window counter and the admission test on it. Times are milliseconds of a clock that never
 goes back; a rejected call is counted like any other.
 */
module RateLimiter {
  import opened Wrappers

  datatype Counter = Counter(count: nat, expiresAt: int)

  datatype Call = Call(key: string, at: int)

  /** `consumeFixedWindow` on the counter of one key; the window is in milliseconds. */
  function Consume(c: Option<Counter>, now: int, window: nat): Counter {
    if c.None? || c.value.expiresAt <= now then Counter(1, now + window)
    else Counter(c.value.count + 1, c.value.expiresAt)
  }

  /** The counter of a key after its i-th call. */
  function CounterAt(times: seq<int>, window: nat, i: nat): Counter
    requires i < |times|
  {
    Consume(if i == 0 then None else Some(CounterAt(times, window, i - 1)), times[i], window)
  }

  predicate Admitted(times: seq<int>, window: nat, limit: nat, i: nat)
    requires i < |times|
  {
    CounterAt(times, window, i).count <= limit
  }

  predicate Monotone(times: seq<int>) {
    forall i, k | 0 <= i < k < |times| :: times[i] <= times[k]
  }

  // ---------------------------------------------------------------------------
  // Windows
  // ---------------------------------------------------------------------------

  /** The call that opened the window of call i. */
  function Opener(times: seq<int>, window: nat, i: nat): (first: nat)
    requires i < |times|
    ensures first <= i
  {
    if i == 0 || CounterAt(times, window, i - 1).expiresAt <= times[i] then i else Opener(times, window, i - 1)
  }

  /** A window opens with a call and takes in every call of the next `window` milliseconds, in order. */
  lemma {:induction false} WindowOf(times: seq<int>, window: nat, i: nat)
    requires Monotone(times) && i < |times|
    ensures var first := Opener(times, window, i);
            && CounterAt(times, window, i) == Counter(i - first + 1, times[first] + window)
            && (i == first || times[i] < times[first] + window)
            && (forall k | first <= k <= i :: Opener(times, window, k) == first)
  {
    if i > 0 && times[i] < CounterAt(times, window, i - 1).expiresAt {
      WindowOf(times, window, i - 1);
    }
  }

  /** Calls of one window have one opener; a later window opens at least `window` milliseconds later. */
  lemma {:induction false} WindowsAreApart(times: seq<int>, window: nat, i: nat, k: nat)
    requires Monotone(times) && i <= k < |times|
    ensures var a, b := Opener(times, window, i), Opener(times, window, k);
            a <= b && (a < b ==> i < b && times[b] >= times[a] + window)
  {
    WindowOf(times, window, i);
    WindowOf(times, window, k);
    if i < k {
      WindowsAreApart(times, window, i, k - 1);
      WindowOf(times, window, k - 1);
    }
  }

  /** Each window admits exactly its first `limit` calls. */
  lemma FirstCallsAreAdmitted(times: seq<int>, window: nat, limit: nat, i: nat)
    requires Monotone(times) && i < |times|
    ensures Admitted(times, window, limit, i) <==> i - Opener(times, window, i) < limit
  {
    WindowOf(times, window, i);
  }

  // ---------------------------------------------------------------------------
  // Any interval as long as the window
  // ---------------------------------------------------------------------------

  predicate Within(t: int, from: int, window: nat) {
    from <= t < from + window
  }

  /** How many calls with index in [lo, hi) are admitted at a time within the interval. */
  function AdmittedIn(times: seq<int>, window: nat, limit: nat, from: int, lo: nat, hi: nat): nat
    requires lo <= hi <= |times|
    decreases hi
  {
    if lo == hi then 0
    else
      AdmittedIn(times, window, limit, from, lo, hi - 1)
      + if Admitted(times, window, limit, hi - 1) && Within(times[hi - 1], from, window) then 1 else 0
  }

  /** The calls of one window contribute at most the part of the budget their positions leave. */
  lemma {:induction false} OneWindowAdmits(times: seq<int>, window: nat, limit: nat, from: int, lo: nat, hi: nat)
    requires Monotone(times) && lo <= hi <= |times|
    requires lo < hi ==> Opener(times, window, lo) == Opener(times, window, hi - 1)
    ensures lo < hi ==> AdmittedIn(times, window, limit, from, lo, hi)
                        <= var used := lo - Opener(times, window, lo); if used <= limit then limit - used else 0
    ensures lo < hi ==> AdmittedIn(times, window, limit, from, lo, hi) <= hi - lo
    decreases hi
  {
    if lo < hi {
      WindowOf(times, window, hi - 1);
      FirstCallsAreAdmitted(times, window, limit, hi - 1);
      if lo < hi - 1 {
        OneWindowAdmits(times, window, limit, from, lo, hi - 1);
      }
    }
  }

  lemma {:induction false} SplitRange(times: seq<int>, window: nat, limit: nat, from: int, lo: nat, mid: nat, hi: nat)
    requires lo <= mid <= hi <= |times|
    ensures AdmittedIn(times, window, limit, from, lo, hi)
         == AdmittedIn(times, window, limit, from, lo, mid) + AdmittedIn(times, window, limit, from, mid, hi)
    decreases hi
  {
    if mid < hi {
      SplitRange(times, window, limit, from, lo, mid, hi - 1);
    }
  }

  lemma EarlierIndex(times: seq<int>, a: nat, b: nat)
    requires Monotone(times) && a < |times| && b < |times| && times[a] < times[b]
    ensures a < b
  {
  }

  /** Calls inside the interval come from at most two windows, and the first of these opened before it. */
  lemma TwoWindowsAdmit(times: seq<int>, window: nat, limit: nat, from: int, lo: nat, hi: nat)
    requires Monotone(times) && lo < hi <= |times| && limit >= 1
    requires Within(times[lo], from, window) && Within(times[hi - 1], from, window)
    ensures AdmittedIn(times, window, limit, from, lo, hi) <= 2 * limit - 1
  {
    hide Admitted;
    var b := Opener(times, window, hi - 1);
    WindowOf(times, window, hi - 1);
    if b <= lo {
      OneWindowAdmits(times, window, limit, from, lo, hi);
    } else {
      var a := Opener(times, window, b - 1);
      WindowsAreApart(times, window, b - 1, hi - 1);
      assert times[b] <= times[hi - 1] && times[a] < from;
      EarlierIndex(times, a, lo);
      WindowOf(times, window, b - 1);
      SplitRange(times, window, limit, from, lo, b, hi);
      OneWindowAdmits(times, window, limit, from, lo, b);
      OneWindowAdmits(times, window, limit, from, b, hi);
    }
  }

  lemma {:induction false} RangeAdmits(times: seq<int>, window: nat, limit: nat, from: int, lo: nat, hi: nat)
    requires Monotone(times) && lo <= hi <= |times| && limit >= 1
    ensures AdmittedIn(times, window, limit, from, lo, hi) <= 2 * limit - 1
    decreases hi - lo
  {
    if lo < hi {
      if !Within(times[hi - 1], from, window) {
        RangeAdmits(times, window, limit, from, lo, hi - 1);
      } else if !Within(times[lo], from, window) {
        SplitRange(times, window, limit, from, lo, lo + 1, hi);
        assert AdmittedIn(times, window, limit, from, lo, lo) == 0;
        RangeAdmits(times, window, limit, from, lo + 1, hi);
      } else {
        TwoWindowsAdmit(times, window, limit, from, lo, hi);
      }
    }
  }

  /** No half-open interval as long as the window ever sees more than 2 * limit - 1 admitted calls of a key. */
  lemma SlidingBound(times: seq<int>, window: nat, limit: nat, from: int)
    requires Monotone(times) && limit >= 1
    ensures AdmittedIn(times, window, limit, from, 0, |times|) <= 2 * limit - 1
  {
    RangeAdmits(times, window, limit, from, 0, |times|);
  }

  // ---------------------------------------------------------------------------
  // The bound is reached
  // ---------------------------------------------------------------------------

  /** One early call, the rest of its budget just before the window closes, a full budget just after. */
  function Burst(window: nat, limit: nat): (times: seq<int>)
    requires limit >= 1
    ensures |times| == 2 * limit
  {
    [0] + seq(limit - 1, i => window - 1) + seq(limit, i => window)
  }

  lemma {:induction false} BurstCounts(window: nat, limit: nat, i: nat)
    requires window >= 2 && limit >= 1 && i < 2 * limit
    ensures CounterAt(Burst(window, limit), window, i)
         == if i < limit then Counter(i + 1, window) else Counter(i - limit + 1, 2 * window)
  {
    if i > 0 {
      BurstCounts(window, limit, i - 1);
    }
  }

  lemma {:induction false} BurstAdmits(window: nat, limit: nat, hi: nat)
    requires window >= 2 && limit >= 1 && 1 <= hi <= 2 * limit
    ensures AdmittedIn(Burst(window, limit), window, limit, window - 1, 0, hi) == hi - 1
  {
    BurstCounts(window, limit, hi - 1);
    if hi > 1 {
      BurstAdmits(window, limit, hi - 1);
    }
  }

  lemma SlidingBoundIsTight(window: nat, limit: nat)
    requires window >= 2 && limit >= 1
    ensures Monotone(Burst(window, limit))
    ensures AdmittedIn(Burst(window, limit), window, limit, window - 1, 0, 2 * limit) == 2 * limit - 1
  {
    BurstAdmits(window, limit, 2 * limit);
  }

  // ---------------------------------------------------------------------------
  // Many keys
  // ---------------------------------------------------------------------------

  function CounterOf(counters: map<string, Counter>, key: string): Option<Counter> {
    if key in counters then Some(counters[key]) else None
  }

  function ConsumeIn(counters: map<string, Counter>, call: Call, window: nat): map<string, Counter> {
    counters[call.key := Consume(CounterOf(counters, call.key), call.at, window)]
  }

  function Counters(calls: seq<Call>, window: nat): map<string, Counter> {
    if calls == [] then map[] else ConsumeIn(Counters(calls[..|calls| - 1], window), calls[|calls| - 1], window)
  }

  function TimesOf(calls: seq<Call>, key: string): seq<int> {
    if calls == [] then []
    else
      TimesOf(calls[..|calls| - 1], key) + if calls[|calls| - 1].key == key then [calls[|calls| - 1].at] else []
  }

  lemma {:induction false} CounterOfPrefix(times: seq<int>, t: int, window: nat, i: nat)
    requires i < |times|
    ensures CounterAt(times + [t], window, i) == CounterAt(times, window, i)
  {
    if i > 0 {
      CounterOfPrefix(times, t, window, i - 1);
    }
  }

  /** However calls of many keys interleave, the counter of a key is what its own calls make it. */
  lemma {:induction false} KeysDoNotInterfere(calls: seq<Call>, window: nat, key: string)
    ensures CounterOf(Counters(calls, window), key)
         == if TimesOf(calls, key) == [] then None
            else Some(CounterAt(TimesOf(calls, key), window, |TimesOf(calls, key)| - 1))
  {
    if calls != [] {
      var n := |calls| - 1;
      KeysDoNotInterfere(calls[..n], window, key);
      var before := TimesOf(calls[..n], key);
      var times := TimesOf(calls, key);
      if calls[n].key == key {
        assert times == before + [calls[n].at];
        if before != [] {
          CounterOfPrefix(before, calls[n].at, window, |before| - 1);
        }
      } else {
        assert times == before;
      }
    }
  }

  // ---------------------------------------------------------------------------
  // The headers
  // ---------------------------------------------------------------------------

  /** `Math.ceil(ms / 1000)` for the remaining time, never negative */
  function SecondsLeft(ms: int): nat {
    if ms <= 0 then 0 else (ms + 999) / 1000
  }

  /** A caller that waits the announced seconds finds its window closed, and one second less is not enough. */
  lemma RetryAfterIsExact(times: seq<int>, seconds: nat, i: nat)
    requires Monotone(times) && i < |times| && seconds >= 1
    ensures var c := CounterAt(times, seconds * 1000, i);
            var wait := SecondsLeft(c.expiresAt - times[i]);
            && 1 <= wait <= seconds
            && Consume(Some(c), times[i] + wait * 1000, seconds * 1000).count == 1
            && Consume(Some(c), times[i] + (wait - 1) * 1000, seconds * 1000).count == c.count + 1
  {
    WindowOf(times, seconds * 1000, i);
    assert times[Opener(times, seconds * 1000, i)] <= times[i];
  }

  /** The reset header, from the clock of the response */
  function ResetAt(clock: int, left: nat): int {
    (clock + 999) / 1000 + left
  }

  /**
   The announced reset is never before the end of the window, and less than two seconds plus the delay of the
   response after it: both roundings are up, and each costs less than a second.
   */
  lemma ResetIsNeverEarly(times: seq<int>, seconds: nat, i: nat, clock: int)
    requires Monotone(times) && i < |times| && seconds >= 1 && clock >= times[i]
    ensures var c := CounterAt(times, seconds * 1000, i);
            var reset := ResetAt(clock, SecondsLeft(c.expiresAt - times[i]));
            c.expiresAt <= reset * 1000 <= c.expiresAt + (clock - times[i]) + 2 * 999
  {
    RetryAfterIsExact(times, seconds, i);
  }
}
