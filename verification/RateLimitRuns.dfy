/** What the limiter guarantees over whole runs: any number of callers, keys,
    instances and store faults, from an empty store. */
module RateLimitRuns {
  import opened Basics
  import opened RateLimit

  /** One call as the store sees it; `faulted` marks a call the store rejected. */
  datatype Call = Call(key: string, limit: int, windowMs: int, now: int, faulted: bool)

  datatype Outcome = Counted(count: int) | FailedOpen

  function StoreStep(buckets: Buckets, c: Call): Buckets {
    if c.faulted then buckets else buckets[c.key := Hit(buckets, c.key, c.windowMs, c.now)]
  }

  function OutcomeOf(buckets: Buckets, c: Call): Outcome {
    if c.faulted then FailedOpen else Counted(Hit(buckets, c.key, c.windowMs, c.now).count)
  }

  predicate Allowed(c: Call, o: Outcome) {
    o.FailedOpen? || o.count <= c.limit
  }

  /** The store after a run. */
  function After(calls: seq<Call>): Buckets {
    if calls == [] then map[] else StoreStep(After(Front(calls)), Last(calls))
  }

  function Front<T>(s: seq<T>): seq<T> requires s != [] { s[..|s| - 1] }
  function Last<T>(s: seq<T>): T requires s != [] { s[|s| - 1] }

  /** The outcome of the i-th call of a run. */
  function OutcomeAt(calls: seq<Call>, i: nat): Outcome
    requires i < |calls|
  {
    OutcomeOf(After(calls[..i]), calls[i])
  }

  /** The call reached the store and concerns this key. */
  predicate Hits(c: Call, key: string) {
    c.key == key && !c.faulted
  }

  /** Calls on `key` inside [lo, hi) that the store itself let through. */
  function AllowedIn(calls: seq<Call>, key: string, lo: int, hi: int): nat {
    if calls == [] then 0
    else
      var c := Last(calls);
      AllowedIn(Front(calls), key, lo, hi) +
      (if Hits(c, key) && lo <= c.now < hi && Allowed(c, OutcomeAt(calls, |calls| - 1)) then 1 else 0)
  }

  /** Calls on `key` inside [lo, hi) let through for any reason. */
  function AdmittedIn(calls: seq<Call>, key: string, lo: int, hi: int): nat {
    if calls == [] then 0
    else
      var c := Last(calls);
      AdmittedIn(Front(calls), key, lo, hi) +
      (if c.key == key && lo <= c.now < hi && Allowed(c, OutcomeAt(calls, |calls| - 1)) then 1 else 0)
  }

  /** Calls on `key` inside [lo, hi) whose store faulted. */
  function FaultedIn(calls: seq<Call>, key: string, lo: int, hi: int): nat {
    if calls == [] then 0
    else
      var c := Last(calls);
      FaultedIn(Front(calls), key, lo, hi) + (if c.key == key && c.faulted && lo <= c.now < hi then 1 else 0)
  }

  /** Every counted call on `key` uses one limit and one window. */
  ghost predicate Steady(calls: seq<Call>, key: string, limit: int, windowMs: int) {
    forall i | 0 <= i < |calls| && Hits(calls[i], key) ::
      calls[i].limit == limit && calls[i].windowMs == windowMs
  }

  /** Clock readings of the counted calls on `key` fall at most `skew` behind the latest
      one so far. */
  ghost predicate Skewed(calls: seq<Call>, key: string, skew: int) {
    forall i, j | 0 <= i < j < |calls| && Hits(calls[i], key) && Hits(calls[j], key) ::
      calls[i].now - skew <= calls[j].now
  }

  /** Clock readings of the counted calls on `key` never go back. */
  ghost predicate Chronological(calls: seq<Call>, key: string) {
    Skewed(calls, key, 0)
  }

  lemma FrontKeeps(calls: seq<Call>, key: string, limit: int, windowMs: int)
    requires calls != [] && Steady(calls, key, limit, windowMs)
    ensures Steady(Front(calls), key, limit, windowMs)
    ensures forall skew | Skewed(calls, key, skew) :: Skewed(Front(calls), key, skew)
  {
  }

  // ---------------------------------------------------------------- sliding windows

  /** How many windows set back to back end with one that starts at `start` and begin no
      earlier than `from`. */
  function Starts(start: int, from: int, windowMs: int): (n: nat)
    requires windowMs > 0
    decreases start - from
  {
    if start < from then 0 else 1 + Starts(start - windowMs, from, windowMs)
  }

  lemma {:induction false} StartsMonotone(start: int, next: int, from: int, windowMs: int)
    requires windowMs > 0 && start <= next
    ensures Starts(start, from, windowMs) <= Starts(next, from, windowMs)
    decreases next - from
  {
    if start >= from {
      StartsMonotone(start - windowMs, next - windowMs, from, windowMs);
    }
  }

  lemma {:induction false} StartsExact(from: int, windowMs: int, k: nat, rest: int)
    requires windowMs > 0 && 0 <= rest < windowMs
    ensures Starts(from + k * windowMs + rest, from, windowMs) == k + 1
  {
    if k > 0 {
      Distribute(k, windowMs);
      StartsExact(from, windowMs, k - 1, rest);
    }
  }

  lemma {:induction false} StartsAtMost(start: int, from: int, windowMs: int, m: nat)
    requires windowMs > 0
    ensures Starts(start, from, windowMs) <= m <==> start < from + m * windowMs
    decreases m
  {
    if start >= from {
      MulMonotone(windowMs, 0, m);
      if m > 0 {
        Distribute(m, windowMs);
        StartsAtMost(start - windowMs, from, windowMs, m - 1);
      }
    } else {
      MulMonotone(windowMs, 0, m);
    }
  }

  lemma Distribute(m: int, k: int)
    ensures m * k == (m - 1) * k + k && (m + 1) * k == m * k + k
  {
  }

  /** An interval of m windows, from `lo` on. */
  datatype Interval = Interval(lo: int, m: nat, windowMs: int, limit: int) {
    ghost predicate Valid() {
      windowMs > 0 && limit >= 1 && m >= 1
    }

    function Hi(): int { lo + m * windowMs }

    /** How many calls inside the interval a window that starts at `start` can allow: its
        first call reads `start`, which may lie outside. */
    function Quota(start: int): int {
      if start <= lo - windowMs then 0 else if lo <= start < Hi() then limit else limit - 1
    }

    /** The same for that window and all before it. */
    function Capacity(start: int): int
      requires windowMs > 0
    {
      (limit - 1) * Starts(start, lo - windowMs + 1, windowMs) + Min(m, Starts(start, lo, windowMs))
    }
  }

  lemma CapacityMonotone(v: Interval, start: int, next: int)
    requires v.Valid() && start <= next
    ensures 0 <= v.Capacity(start) <= v.Capacity(next)
  {
    StartsMonotone(start, next, v.lo - v.windowMs + 1, v.windowMs);
    StartsMonotone(start, next, v.lo, v.windowMs);
    MulMonotone(v.limit - 1, 0, Starts(start, v.lo - v.windowMs + 1, v.windowMs));
    MulMonotone(v.limit - 1, Starts(start, v.lo - v.windowMs + 1, v.windowMs),
                Starts(next, v.lo - v.windowMs + 1, v.windowMs));
  }

  /** One more window, back to back, adds its quota. */
  lemma CapacityStep(v: Interval, start: int)
    requires v.Valid() && start > v.lo - v.windowMs
    ensures v.Capacity(start) == v.Capacity(start - v.windowMs) + v.Quota(start)
  {
    var from := v.lo - v.windowMs + 1;
    var n := Starts(start, from, v.windowMs);
    assert n == Starts(start - v.windowMs, from, v.windowMs) + 1;
    Distribute(n, v.limit - 1);
    WholeWindowsStep(v, start);
  }

  /** Only a window that starts inside the interval adds to those that do. */
  lemma WholeWindowsStep(v: Interval, start: int)
    requires v.Valid()
    ensures Min(v.m, Starts(start, v.lo, v.windowMs)) ==
      Min(v.m, Starts(start - v.windowMs, v.lo, v.windowMs)) + if v.lo <= start < v.Hi() then 1 else 0
  {
    StartsAtMost(start, v.lo, v.windowMs, v.m);
    if start >= v.Hi() {
      Distribute(v.m, v.windowMs);
      StartsAtMost(start - v.windowMs, v.lo, v.windowMs, v.m - 1);
    }
  }

  lemma NoCapacity(v: Interval, start: int)
    requires v.Valid() && start <= v.lo - v.windowMs
    ensures v.Capacity(start) == 0
  {
  }

  /** What the windows up to the current one can have allowed so far. */
  function Budget(v: Interval, bucket: Bucket): int
    requires v.windowMs > 0
  {
    var start := bucket.resetAt - v.windowMs;
    if start <= v.lo - v.windowMs then 0
    else v.Capacity(start - v.windowMs) + v.Quota(start) - v.limit + Min(bucket.count, v.limit)
  }

  /** The current window was started by some call of the run. */
  lemma {:induction false} WindowStarter(calls: seq<Call>, key: string, windowMs: int) returns (i: nat)
    requires key in After(calls)
    requires forall j | 0 <= j < |calls| && Hits(calls[j], key) :: calls[j].windowMs == windowMs
    ensures i < |calls| && Hits(calls[i], key) && calls[i].now == After(calls)[key].resetAt - windowMs
  {
    var front, c := Front(calls), Last(calls);
    if Hits(c, key) && Opens(After(front), key, c.now) {
      i := |calls| - 1;
    } else {
      i := WindowStarter(front, key, windowMs);
    }
  }

  /** A window's budget is within the capacity of all windows up to it. */
  lemma BudgetWithin(v: Interval, bucket: Bucket)
    requires v.Valid()
    ensures Budget(v, bucket) <= v.Capacity(bucket.resetAt - v.windowMs)
  {
    var start := bucket.resetAt - v.windowMs;
    CapacityMonotone(v, start, start);
    if start > v.lo - v.windowMs {
      CapacityStep(v, start);
    }
  }

  /** One call keeps the calls allowed so far within the budget. */
  lemma BudgetStep(v: Interval, before: Buckets, c: Call, allowed: int)
    requires v.Valid() && !c.faulted && c.limit == v.limit && c.windowMs == v.windowMs
    requires c.key in before ==> before[c.key].count >= 1 && allowed <= Budget(v, before[c.key])
    requires c.key !in before ==> allowed == 0
    ensures var bucket := StoreStep(before, c)[c.key];
            && bucket.count >= 1
            && allowed + (if v.lo <= c.now < v.Hi() && Allowed(c, OutcomeOf(before, c)) then 1 else 0)
               <= Budget(v, bucket)
  {
    if Opens(before, c.key, c.now) {
      var reach := c.now - v.windowMs;
      CapacityMonotone(v, reach, reach);
      if c.key in before {
        BudgetWithin(v, before[c.key]);
        CapacityMonotone(v, before[c.key].resetAt - v.windowMs, reach);
      }
      if c.now <= v.lo - v.windowMs && c.key in before {
        NoCapacity(v, before[c.key].resetAt - v.windowMs);
      }
    }
  }

  /** After every run, under any clocks, the allowed calls fit the budget. */
  lemma {:induction false} WithinBudget(calls: seq<Call>, key: string, v: Interval)
    requires v.Valid() && Steady(calls, key, v.limit, v.windowMs)
    ensures key !in After(calls) ==> AllowedIn(calls, key, v.lo, v.Hi()) == 0
    ensures key in After(calls) ==>
      && After(calls)[key].count >= 1
      && AllowedIn(calls, key, v.lo, v.Hi()) <= Budget(v, After(calls)[key])
  {
    hide Budget;
    if calls != [] {
      var front, c := Front(calls), Last(calls);
      FrontKeeps(calls, key, v.limit, v.windowMs);
      WithinBudget(front, key, v);
      assert calls[..|calls| - 1] == front && calls[|calls| - 1] == c;
      if Hits(c, key) {
        BudgetStep(v, After(front), c, AllowedIn(front, key, v.lo, v.Hi()));
      }
    }
  }

  /** The most calls that clocks up to `skew` apart let into an interval: a full limit
      for each of its m windows, and all but the first call for each window that only
      reaches into it. */
  function MostAllowed(v: Interval, skew: nat): int
    requires v.windowMs > 0
  {
    v.m * v.limit + (2 + (skew - 2) / v.windowMs) * (v.limit - 1)
  }

  lemma CapacityIs(v: Interval, skew: nat)
    requires v.Valid()
    ensures v.Capacity(v.Hi() - 1 + skew) == MostAllowed(v, skew)
  {
    var start, from := v.Hi() - 1 + skew, v.lo - v.windowMs + 1;
    var q := (skew - 2) / v.windowMs;
    assert Starts(start, from, v.windowMs) == v.m + 2 + q by {
      StartsReaching(v, skew);
    }
    assert Starts(start, v.lo, v.windowMs) >= v.m by {
      Distribute(v.m, v.windowMs);
      StartsAtMost(start, v.lo, v.windowMs, v.m - 1);
    }
    SumTimes(v.m, 2 + q, v.limit - 1);
    Distribute(v.limit, v.m);
  }

  lemma StartsReaching(v: Interval, skew: nat)
    requires v.Valid()
    ensures Starts(v.Hi() - 1 + skew, v.lo - v.windowMs + 1, v.windowMs) == v.m + 2 + (skew - 2) / v.windowMs
  {
    hide Starts;
    QuotientAtLeast(skew - 2, v.windowMs);
    StartsAfter(v, skew, (skew - 2) / v.windowMs, (skew - 2) % v.windowMs);
  }

  lemma StartsAfter(v: Interval, skew: nat, q: int, rest: int)
    requires v.Valid() && skew - 2 == q * v.windowMs + rest && 0 <= rest < v.windowMs && q >= -2
    ensures Starts(v.Hi() - 1 + skew, v.lo - v.windowMs + 1, v.windowMs) == v.m + 2 + q
  {
    hide Starts;
    var k := v.m + 1 + q;
    assert k * v.windowMs == v.m * v.windowMs + v.windowMs + q * v.windowMs by {
      SumTimes(v.m, 1 + q, v.windowMs);
      SumTimes(1, q, v.windowMs);
    }
    StartsExact(v.lo - v.windowMs + 1, v.windowMs, k, rest);
  }

  lemma SumTimes(a: int, b: int, k: int)
    ensures (a + b) * k == a * k + b * k
  {
  }

  lemma QuotientAtLeast(n: int, d: int)
    requires d > 0 && n >= -2
    ensures n / d >= -2
  {
    var q := n / d;
    if q < -2 {
      MulMonotone(d, q, -3);
    }
  }

  /** Whatever other keys, limits and faults are interleaved, clocks up to `skew` apart
      let no more than this into any half-open interval of m windows. */
  lemma {:induction false} SkewedBound(calls: seq<Call>, key: string, v: Interval, skew: nat)
    requires v.Valid() && Steady(calls, key, v.limit, v.windowMs) && Skewed(calls, key, skew)
    ensures AllowedIn(calls, key, v.lo, v.Hi()) <= MostAllowed(v, skew)
  {
    hide Budget, MostAllowed;
    CapacityIs(v, skew);
    CapacityMonotone(v, v.Hi() - 1 + skew, v.Hi() - 1 + skew);
    if calls != [] {
      var front, c := Front(calls), Last(calls);
      FrontKeeps(calls, key, v.limit, v.windowMs);
      if Hits(c, key) && c.now < v.Hi() {
        WithinBudget(calls, key, v);
        var i := WindowStarter(calls, key, v.windowMs);
        assert calls[|calls| - 1] == c;
        BudgetWithin(v, After(calls)[key]);
        CapacityMonotone(v, calls[i].now, v.Hi() - 1 + skew);
      } else {
        SkewedBound(front, key, v, skew);
      }
    }
  }

  /** With one clock that never goes back: at most (m + 1) * limit - 1 calls in m
      windows. */
  lemma SlidingWindowBound(calls: seq<Call>, key: string, limit: int, windowMs: int, lo: int, m: nat)
    requires limit >= 1 && windowMs > 0 && m >= 1
    requires Steady(calls, key, limit, windowMs) && Chronological(calls, key)
    ensures AllowedIn(calls, key, lo, lo + m * windowMs) <= (m + 1) * limit - 1
  {
    var v := Interval(lo, m, windowMs, limit);
    SkewedBound(calls, key, v, 0);
    MostChronological(v);
  }

  lemma MostChronological(v: Interval)
    requires v.Valid()
    ensures MostAllowed(v, 0) == if v.windowMs >= 2 then (v.m + 1) * v.limit - 1 else v.m * v.limit
  {
    Distribute(v.m, v.limit);
    if v.windowMs >= 2 {
      MinusTwo(v.windowMs);
    }
  }

  lemma MinusTwo(d: int)
    requires d >= 2
    ensures -2 / d == -1
  {
    var q := -2 / d;
    if q < -1 {
      MulMonotone(d, q, -2);
    } else if q > -1 {
      MulMonotone(d, 0, q);
    }
  }

  /** Failing open adds at most one admitted call per faulted call of the interval. */
  lemma FailOpenBound(calls: seq<Call>, key: string, v: Interval, skew: nat)
    requires v.Valid() && Steady(calls, key, v.limit, v.windowMs) && Skewed(calls, key, skew)
    ensures AdmittedIn(calls, key, v.lo, v.Hi()) <= MostAllowed(v, skew) + FaultedIn(calls, key, v.lo, v.Hi())
  {
    SkewedBound(calls, key, v, skew);
    AdmittedSplits(calls, key, v.lo, v.Hi());
  }

  lemma {:induction false} AdmittedSplits(calls: seq<Call>, key: string, lo: int, hi: int)
    ensures AdmittedIn(calls, key, lo, hi) == AllowedIn(calls, key, lo, hi) + FaultedIn(calls, key, lo, hi)
  {
    if calls != [] {
      AdmittedSplits(Front(calls), key, lo, hi);
    }
  }

  // ---------------------------------------------------------------- the bound is met

  /** One more call at the end of a run. */
  lemma OneMoreCall(calls: seq<Call>, c: Call, key: string, lo: int, hi: int)
    ensures var all := calls + [c];
            && After(all) == StoreStep(After(calls), c)
            && AllowedIn(all, key, lo, hi) == AllowedIn(calls, key, lo, hi) +
                 (if Hits(c, key) && lo <= c.now < hi && Allowed(c, OutcomeOf(After(calls), c)) then 1 else 0)
  {
    var all := calls + [c];
    assert Front(all) == calls == all[..|all| - 1] && Last(all) == c;
  }

  function Burst(key: string, v: Interval, now: int, n: nat): seq<Call> {
    seq(n, _ => Call(key, v.limit, v.windowMs, now, false))
  }

  /** The reading inside the interval that is nearest to an instant. */
  function Inside(v: Interval, now: int): int {
    Max(v.lo, Min(now, v.Hi() - 1))
  }

  /** Where the k-th of windows set back to back from zero starts. */
  function StartOf(v: Interval, k: int): int { k * v.windowMs }

  /** Windows back to back from zero: each is started by a call that reads its start, and
      the rest of the limit comes from calls that read an instant of the interval. */
  function WorstTrace(key: string, v: Interval, windows: nat): seq<Call>
    requires v.limit >= 1
  {
    if windows == 0 then []
    else
      var start := StartOf(v, windows - 1);
      WorstTrace(key, v, windows - 1) + Burst(key, v, start, 1) + Burst(key, v, Inside(v, start), v.limit - 1)
  }

  lemma StartsApart(v: Interval, k: int)
    requires v.Valid() && k >= 0
    ensures StartOf(v, 0) == 0 <= StartOf(v, k) && StartOf(v, k + 1) == StartOf(v, k) + v.windowMs
    ensures StartOf(v, k - 1) == StartOf(v, k) - v.windowMs
    ensures k > 0 ==> v.windowMs <= StartOf(v, k)
    ensures v.lo + v.windowMs <= v.Hi()
  {
    Distribute(k, v.windowMs);
    MulMonotone(v.windowMs, 0, k);
    MulMonotone(v.windowMs, 1, v.m);
    if k > 0 {
      MulMonotone(v.windowMs, 1, k);
    }
  }

  /** A burst in a live window is let through up to the limit. */
  lemma {:induction false} BurstAllowed(calls: seq<Call>, key: string, v: Interval, now: int, n: nat)
    requires v.Valid() && key in After(calls) && now < After(calls)[key].resetAt
    requires After(calls)[key].count + n <= v.limit
    ensures var all := calls + Burst(key, v, now, n);
            && AllowedIn(all, key, v.lo, v.Hi()) ==
                 AllowedIn(calls, key, v.lo, v.Hi()) + (if v.lo <= now < v.Hi() then n else 0)
            && key in After(all)
            && After(all)[key] == Bucket(After(calls)[key].count + n, After(calls)[key].resetAt)
  {
    hide AllowedIn, After;
    var all := calls + Burst(key, v, now, n);
    if n == 0 {
      assert all == calls;
    } else {
      var shorter := calls + Burst(key, v, now, n - 1);
      BurstAllowed(calls, key, v, now, n - 1);
      assert all == shorter + [Call(key, v.limit, v.windowMs, now, false)];
      OneMoreCall(shorter, Call(key, v.limit, v.windowMs, now, false), key, v.lo, v.Hi());
    }
  }

  /** A window's worth of calls, once the one before is over, uses up its quota. */
  lemma WindowAllowed(calls: seq<Call>, key: string, v: Interval, start: int)
    requires v.Valid() && Opens(After(calls), key, start)
    requires v.lo - v.windowMs < start && Inside(v, start) < start + v.windowMs
    ensures var all := calls + Burst(key, v, start, 1) + Burst(key, v, Inside(v, start), v.limit - 1);
            && AllowedIn(all, key, v.lo, v.Hi()) == AllowedIn(calls, key, v.lo, v.Hi()) + v.Quota(start)
            && key in After(all) && After(all)[key].resetAt == start + v.windowMs
  {
    hide AllowedIn, After;
    var c := Call(key, v.limit, v.windowMs, start, false);
    assert Burst(key, v, start, 1) == [c];
    OneMoreCall(calls, c, key, v.lo, v.Hi());
    MulMonotone(v.windowMs, 1, v.m);
    BurstAllowed(calls + [c], key, v, Inside(v, start), v.limit - 1);
  }

  lemma {:induction false} WorstTraceAllowed(key: string, v: Interval, windows: nat)
    requires v.Valid() && v.lo == v.windowMs - 1
    ensures var calls := WorstTrace(key, v, windows);
            && AllowedIn(calls, key, v.lo, v.Hi()) == v.Capacity(StartOf(v, windows - 1))
            && Opens(After(calls), key, StartOf(v, windows))
  {
    hide AllowedIn, StartOf, Interval.Capacity, Interval.Quota, Interval.Hi, After;
    if windows == 0 {
      StartsApart(v, 0);
      NoCapacity(v, -v.windowMs);
      NothingAllowed(key, v.lo, v.Hi());
    } else {
      var start := StartOf(v, windows - 1);
      StartsApart(v, windows - 1);
      WorstTraceAllowed(key, v, windows - 1);
      WindowAllowed(WorstTrace(key, v, windows - 1), key, v, start);
      CapacityStep(v, start);
    }
  }

  lemma NothingAllowed(key: string, lo: int, hi: int)
    ensures AllowedIn([], key, lo, hi) == 0 && key !in After([])
  {
  }

  /** As long as the last window starts no more than `skew` past the interval's last
      instant, the clocks of the trace keep within `skew` of each other. */
  lemma {:induction false} WorstTraceSkewed(key: string, v: Interval, windows: nat, skew: nat)
    requires v.Valid() && v.lo == v.windowMs - 1 && StartOf(v, windows - 1) <= v.Hi() - 1 + skew
    ensures var calls := WorstTrace(key, v, windows);
            && Steady(calls, key, v.limit, v.windowMs) && Skewed(calls, key, skew)
            && forall i | 0 <= i < |calls| :: calls[i].now <= Max(StartOf(v, windows - 1), v.lo)
  {
    hide StartOf, Interval.Hi;
    if windows > 0 {
      var start := StartOf(v, windows - 1);
      StartsApart(v, windows - 1);
      WorstTraceSkewed(key, v, windows - 1, skew);
    }
  }

  /** A run whose clocks keep within `skew` and that allows this many calls. */
  ghost predicate Reaches(calls: seq<Call>, key: string, v: Interval, skew: nat, n: int) {
    && Steady(calls, key, v.limit, v.windowMs) && Skewed(calls, key, skew)
    && AllowedIn(calls, key, v.lo, v.Hi()) == n
  }

  /** The bound is exact: for every limit, window, m and skew some run meets it. */
  lemma SkewedBoundIsMet(key: string, limit: int, windowMs: int, m: nat, skew: nat)
    requires limit >= 1 && windowMs > 0 && m >= 1
    ensures var v := Interval(windowMs - 1, m, windowMs, limit);
            exists calls :: Reaches(calls, key, v, skew, MostAllowed(v, skew))
  {
    hide StartOf, MostAllowed, Interval.Capacity, AllowedIn, Steady, Skewed, Interval.Hi;
    var v := Interval(windowMs - 1, m, windowMs, limit);
    var windows := LastReaching(v, skew);
    WorstTraceSkewed(key, v, windows, skew);
    WorstTraceAllowed(key, v, windows);
    CapacityIs(v, skew);
    SameCapacity(v, windows, v.Hi() - 1 + skew);
    assert Reaches(WorstTrace(key, v, windows), key, v, skew, MostAllowed(v, skew));
  }

  /** How many windows start in time for a clock `skew` behind to read an instant of the
      interval. */
  lemma LastReaching(v: Interval, skew: nat) returns (windows: nat)
    requires v.Valid() && v.lo == v.windowMs - 1
    ensures windows > 0
    ensures StartOf(v, windows - 1) <= v.Hi() - 1 + skew < StartOf(v, windows - 1) + v.windowMs
  {
    var q := (skew - 2) / v.windowMs;
    QuotientAtLeast(skew - 2, v.windowMs);
    windows := v.m + 2 + q;
    SumTimes(v.m, 1 + q, v.windowMs);
    SumTimes(1, q, v.windowMs);
    assert q * v.windowMs <= skew - 2 < q * v.windowMs + v.windowMs;
  }

  /** Instants of one window have room for the same windows before them. */
  lemma SameCapacity(v: Interval, windows: nat, next: int)
    requires v.Valid() && v.lo == v.windowMs - 1 && windows > 0
    requires StartOf(v, windows - 1) <= next < StartOf(v, windows - 1) + v.windowMs && v.Hi() - 1 <= next
    ensures v.Capacity(StartOf(v, windows - 1)) == v.Capacity(next)
  {
    var start := StartOf(v, windows - 1);
    StartsExact(0, v.windowMs, windows - 1, 0);
    StartsExact(0, v.windowMs, windows - 1, next - start);
    Distribute(v.m, v.windowMs);
    StartsAtMost(start, v.lo, v.windowMs, v.m - 1);
    StartsAtMost(next, v.lo, v.windowMs, v.m - 1);
  }

  /** A chronological run whose allowed calls in m windows from `lo` meet the bound. */
  ghost predicate MeetsBound(calls: seq<Call>, key: string, limit: int, windowMs: int, lo: int, m: nat) {
    && Steady(calls, key, limit, windowMs) && Chronological(calls, key)
    && AllowedIn(calls, key, lo, lo + m * windowMs) == (m + 1) * limit - 1
  }

  /** With one clock the bound is met, by some run for every m, exactly when a window has
      more than one instant or the limit is one call. */
  lemma SlidingWindowBoundIsMet(key: string, limit: nat, windowMs: int, m: nat)
    requires limit >= 1 && windowMs > 0 && m >= 1
    ensures (exists calls, lo :: MeetsBound(calls, key, limit, windowMs, lo, m)) <==> windowMs >= 2 || limit == 1
  {
    hide MostAllowed, AllowedIn, Steady;
    Distribute(m, limit);
    if windowMs >= 2 || limit == 1 {
      var v := Interval(windowMs - 1, m, windowMs, limit);
      SkewedBoundIsMet(key, limit, windowMs, m, 0);
      MostChronological(v);
      var calls :| Reaches(calls, key, v, 0, MostAllowed(v, 0));
      assert MeetsBound(calls, key, limit, windowMs, v.lo, m);
    } else {
      forall calls, lo ensures !MeetsBound(calls, key, limit, windowMs, lo, m) {
        var v := Interval(lo, m, windowMs, limit);
        MostChronological(v);
        if MeetsBound(calls, key, limit, windowMs, lo, m) {
          SkewedBound(calls, key, v, 0);
        }
      }
    }
  }

  // ---------------------------------------------------------------- windows and counts

  /** The i-th call on `key` started a window. */
  ghost predicate OpensAt(calls: seq<Call>, key: string, i: nat)
    requires i < |calls|
  {
    Hits(calls[i], key) && Opens(After(calls[..i]), key, calls[i].now)
  }

  /** Counted calls on `key` among calls[p..q]. */
  function HitsBetween(calls: seq<Call>, key: string, p: nat, q: nat): nat
    requires p <= q <= |calls|
  {
    if p == q then 0
    else HitsBetween(calls, key, p, q - 1) + if Hits(calls[q - 1], key) then 1 else 0
  }

  /** Among calls[p..q] on `key`, those the store itself let through. */
  function AllowedBetween(calls: seq<Call>, key: string, p: nat, q: nat): nat
    requires p <= q <= |calls|
  {
    if p == q then 0
    else AllowedBetween(calls, key, p, q - 1) +
         if Hits(calls[q - 1], key) && Allowed(calls[q - 1], OutcomeAt(calls, q - 1)) then 1 else 0
  }

  /** From a window's first call on, the calls landing in it receive the counts
      1, 2, 3, ... in order, under whatever interleaving and clocks produced the run. */
  lemma {:induction false} CountsFrom(calls: seq<Call>, key: string, p: nat, q: nat)
    requires p < q <= |calls| && OpensAt(calls, key, p)
    requires forall i | p < i < q :: !OpensAt(calls, key, i)
    ensures key in After(calls[..q])
    ensures After(calls[..q])[key] == Bucket(HitsBetween(calls, key, p, q), calls[p].now + calls[p].windowMs)
    ensures forall i | p <= i < q && Hits(calls[i], key) ::
              OutcomeAt(calls, i) == Counted(HitsBetween(calls, key, p, i + 1))
  {
    assert Front(calls[..q]) == calls[..q - 1];
    assert Last(calls[..q]) == calls[q - 1];
    if q == p + 1 {
      assert HitsBetween(calls, key, p, p) == 0;
    } else {
      CountsFrom(calls, key, p, q - 1);
      assert !OpensAt(calls, key, q - 1);
    }
  }

  /** So with one limit exactly min(n, limit) of a window's n calls are allowed. */
  lemma {:induction false} WindowCounts(calls: seq<Call>, key: string, limit: int, p: nat, q: nat)
    requires p < q <= |calls| && OpensAt(calls, key, p) && limit >= 0
    requires forall i | p < i < q :: !OpensAt(calls, key, i)
    requires forall i | p <= i < q && Hits(calls[i], key) :: calls[i].limit == limit
    ensures key in After(calls[..q])
    ensures After(calls[..q])[key] == Bucket(HitsBetween(calls, key, p, q), calls[p].now + calls[p].windowMs)
    ensures forall i | p <= i < q && Hits(calls[i], key) ::
              OutcomeAt(calls, i) == Counted(HitsBetween(calls, key, p, i + 1))
    ensures AllowedBetween(calls, key, p, q) == Min(HitsBetween(calls, key, p, q), limit)
  {
    hide After, OutcomeAt;
    CountsFrom(calls, key, p, q);
    if q == p + 1 {
      assert HitsBetween(calls, key, p, p) == 0 && AllowedBetween(calls, key, p, p) == 0;
    } else {
      WindowCounts(calls, key, limit, p, q - 1);
    }
  }

  /** Whatever the clocks do and however long the windows, the next window of a key
      starts no earlier than the one before it ends. */
  lemma NextWindowStarts(calls: seq<Call>, key: string, p: nat, q: nat)
    requires p < q < |calls| && OpensAt(calls, key, p) && OpensAt(calls, key, q)
    requires forall i | p < i < q :: !OpensAt(calls, key, i)
    ensures calls[p].now + calls[p].windowMs <= calls[q].now
  {
    WindowBucket(calls, key, p, q);
  }

  /** So windows of one length start at least that far apart. */
  lemma {:induction false} WindowStartsApart(calls: seq<Call>, key: string, windowMs: int, p: nat, q: nat)
    requires p < q < |calls| && OpensAt(calls, key, p) && OpensAt(calls, key, q)
    requires windowMs > 0
    requires forall i | p <= i < q && Hits(calls[i], key) :: calls[i].windowMs == windowMs
    ensures calls[p].now + windowMs <= calls[q].now
  {
    var last := LastOpening(calls, key, p, q);
    NextWindowStarts(calls, key, last, q);
    if last > p {
      WindowStartsApart(calls, key, windowMs, p, last);
    }
  }

  /** The latest window opening on `key` strictly before `q`. */
  ghost function LastOpening(calls: seq<Call>, key: string, p: nat, q: nat): (last: nat)
    requires p < q <= |calls| && OpensAt(calls, key, p)
    ensures p <= last < q && OpensAt(calls, key, last)
    ensures forall i | last < i < q :: !OpensAt(calls, key, i)
  {
    if OpensAt(calls, key, q - 1) then q - 1 else LastOpening(calls, key, p, q - 1)
  }

  lemma {:induction false} WindowBucket(calls: seq<Call>, key: string, p: nat, q: nat)
    requires p < q <= |calls| && OpensAt(calls, key, p)
    requires forall i | p < i < q :: !OpensAt(calls, key, i)
    ensures key in After(calls[..q])
    ensures After(calls[..q])[key].resetAt == calls[p].now + calls[p].windowMs
  {
    assert Front(calls[..q]) == calls[..q - 1];
    assert Last(calls[..q]) == calls[q - 1];
    if q > p + 1 {
      WindowBucket(calls, key, p, q - 1);
      assert !OpensAt(calls, key, q - 1);
    }
  }

  // ---------------------------------------------------------------- many instances

  /** A step of the shared database: which instance's statement ran, and its call. */
  datatype Statement = Statement(instance: nat, call: Call)

  /** The calls one instance contributed, in its own order. */
  function Program(schedule: seq<Statement>, instance: nat): seq<Call> {
    if schedule == [] then []
    else Program(Front(schedule), instance) +
         if Last(schedule).instance == instance then [Last(schedule).call] else []
  }

  /** The run the database executes: one atomic statement after another. */
  function Serial(schedule: seq<Statement>): seq<Call> {
    seq(|schedule|, i requires 0 <= i < |schedule| => schedule[i].call)
  }

  function HitCount(calls: seq<Call>, key: string): nat {
    HitsBetween(calls, key, 0, |calls|)
  }

  /** Counted calls on `key` issued by instances 0..n-1. */
  function IssuedBy(schedule: seq<Statement>, key: string, n: nat): nat {
    if n == 0 then 0 else IssuedBy(schedule, key, n - 1) + HitCount(Program(schedule, n - 1), key)
  }

  lemma {:induction false} HitCountSnoc(calls: seq<Call>, c: Call, key: string)
    ensures HitCount(calls + [c], key) == HitCount(calls, key) + if Hits(c, key) then 1 else 0
  {
    HitsBetweenPrefix(calls, [c], key, |calls|);
  }

  lemma {:induction false} HitsBetweenPrefix(calls: seq<Call>, more: seq<Call>, key: string, q: nat)
    requires q <= |calls|
    ensures HitsBetween(calls + more, key, 0, q) == HitsBetween(calls, key, 0, q)
  {
    if q > 0 {
      HitsBetweenPrefix(calls, more, key, q - 1);
    }
  }

  lemma {:induction false} IssuedBySnoc(schedule: seq<Statement>, key: string, n: nat)
    requires schedule != []
    ensures IssuedBy(schedule, key, n) == IssuedBy(Front(schedule), key, n) +
              if Last(schedule).instance < n && Hits(Last(schedule).call, key) then 1 else 0
  {
    if n > 0 {
      IssuedBySnoc(schedule, key, n - 1);
      var before := Program(Front(schedule), n - 1);
      if Last(schedule).instance == n - 1 {
        HitCountSnoc(before, Last(schedule).call, key);
      } else {
        assert before + [] == before;
      }
    }
  }

  lemma {:induction false} SerialHits(schedule: seq<Statement>, key: string, n: nat)
    requires forall s | s in schedule :: s.instance < n
    ensures HitCount(Serial(schedule), key) == IssuedBy(schedule, key, n)
  {
    if schedule == [] {
      NoneIssued(key, n);
    } else {
      SerialHits(Front(schedule), key, n);
      IssuedBySnoc(schedule, key, n);
      HitCountSnoc(Serial(Front(schedule)), Last(schedule).call, key);
      assert Serial(schedule) == Serial(Front(schedule)) + [Last(schedule).call];
    }
  }

  lemma {:induction false} NoneIssued(key: string, n: nat)
    ensures IssuedBy([], key, n) == 0
  {
    if n > 0 {
      NoneIssued(key, n - 1);
    }
  }

  /** Any interleaving of any number of instances whose clocks all read within one
      window of each other: of the calls they issue on a key, exactly
      min(total, limit) are allowed, so no schedule gains or loses a call. */
  lemma AnyInterleavingAllowsLimit(schedule: seq<Statement>, n: nat, key: string, limit: int, windowMs: int, lo: int)
    requires limit >= 0 && windowMs > 0
    requires forall s | s in schedule :: s.instance < n
    requires forall s | s in schedule && Hits(s.call, key) ::
      s.call.limit == limit && s.call.windowMs == windowMs && lo <= s.call.now < lo + windowMs
    ensures AllowedBetween(Serial(schedule), key, 0, |schedule|) == Min(IssuedBy(schedule, key, n), limit)
  {
    var calls := Serial(schedule);
    SerialHits(schedule, key, n);
    forall i | 0 <= i < |calls| ensures calls[i] == schedule[i].call && schedule[i] in schedule {}
    OneWindowAllowsLimit(calls, key, limit, windowMs, lo);
  }

  /** Calls on a key that all read clocks within one window share that window. */
  lemma OneWindowAllowsLimit(calls: seq<Call>, key: string, limit: int, windowMs: int, lo: int)
    requires limit >= 0 && windowMs > 0
    requires forall i | 0 <= i < |calls| && Hits(calls[i], key) ::
      calls[i].limit == limit && calls[i].windowMs == windowMs && lo <= calls[i].now < lo + windowMs
    ensures AllowedBetween(calls, key, 0, |calls|) == Min(HitCount(calls, key), limit)
  {
    if i: nat :| i < |calls| && Hits(calls[i], key) {
      var p := FirstHit(calls, key, i);
      QuietBetween(calls, key, 0, p);
      forall j | p < j < |calls| ensures !OpensAt(calls, key, j) {
        StaysLive(calls, key, windowMs, lo, p, j);
      }
      WindowCounts(calls, key, limit, p, |calls|);
      SplitBetween(calls, key, p, |calls|);
    } else {
      QuietBetween(calls, key, 0, |calls|);
    }
  }

  lemma {:induction false} QuietBetween(calls: seq<Call>, key: string, p: nat, q: nat)
    requires p <= q <= |calls|
    requires forall i | p <= i < q :: !Hits(calls[i], key)
    ensures HitsBetween(calls, key, p, q) == 0 && AllowedBetween(calls, key, p, q) == 0
  {
    if p < q {
      QuietBetween(calls, key, p, q - 1);
    }
  }

  lemma {:induction false} SplitBetween(calls: seq<Call>, key: string, p: nat, q: nat)
    requires p <= q <= |calls|
    ensures HitsBetween(calls, key, 0, q) == HitsBetween(calls, key, 0, p) + HitsBetween(calls, key, p, q)
    ensures AllowedBetween(calls, key, 0, q) == AllowedBetween(calls, key, 0, p) + AllowedBetween(calls, key, p, q)
  {
    if p < q {
      SplitBetween(calls, key, p, q - 1);
    }
  }

  lemma {:induction false} Untouched(calls: seq<Call>, key: string)
    requires forall i | 0 <= i < |calls| :: !Hits(calls[i], key)
    ensures key !in After(calls)
  {
    if calls != [] {
      Untouched(Front(calls), key);
    }
  }

  lemma {:induction false} StaysLive(calls: seq<Call>, key: string, windowMs: int, lo: int, p: nat, i: nat)
    requires p < i < |calls| && OpensAt(calls, key, p) && windowMs > 0
    requires forall j | 0 <= j < |calls| && Hits(calls[j], key) ::
      calls[j].windowMs == windowMs && lo <= calls[j].now < lo + windowMs
    ensures !OpensAt(calls, key, i)
  {
    if OpensAt(calls, key, i) {
      WindowStartsApart(calls, key, windowMs, p, i);
    }
  }

  /** Calls on a key that all read clocks within one window get the counts 1, 2, 3, ...
      in order. */
  lemma OneWindowCounts(calls: seq<Call>, key: string, windowMs: int, lo: int, i: nat)
    requires windowMs > 0 && i < |calls| && Hits(calls[i], key)
    requires forall j | 0 <= j < |calls| && Hits(calls[j], key) ::
      calls[j].windowMs == windowMs && lo <= calls[j].now < lo + windowMs
    ensures OutcomeAt(calls, i) == Counted(HitsBetween(calls, key, 0, i + 1))
  {
    var p := FirstHit(calls, key, i);
    QuietBetween(calls, key, 0, p);
    forall j | p < j < |calls| ensures !OpensAt(calls, key, j) {
      StaysLive(calls, key, windowMs, lo, p, j);
    }
    CountsFrom(calls, key, p, i + 1);
    SplitBetween(calls, key, p, i + 1);
  }

  /** The first call on a key starts a window. */
  lemma {:induction false} FirstHit(calls: seq<Call>, key: string, i: nat) returns (p: nat)
    requires i < |calls| && Hits(calls[i], key)
    ensures p <= i && OpensAt(calls, key, p) && forall j | 0 <= j < p :: !Hits(calls[j], key)
  {
    if j: nat :| j < i && Hits(calls[j], key) {
      p := FirstHit(calls, key, j);
    } else {
      p := i;
      Untouched(calls[..i], key);
    }
  }

  // ---------------------------------------------------------------- keys and faults

  /** The run with every call on another key removed. */
  function OnKey(calls: seq<Call>, key: string): seq<Call> {
    if calls == [] then []
    else OnKey(Front(calls), key) + if Last(calls).key == key then [Last(calls)] else []
  }

  /** The outcomes of the calls on `key`, in order. */
  function Outcomes(calls: seq<Call>, key: string): seq<Outcome> {
    if calls == [] then []
    else Outcomes(Front(calls), key) +
         if Last(calls).key == key then [OutcomeOf(After(Front(calls)), Last(calls))] else []
  }

  /** Keys never influence one another: the outcomes on a key are those of the run
      with all other keys deleted. */
  lemma {:induction false} KeysIndependent(calls: seq<Call>, key: string)
    ensures Outcomes(calls, key) == Outcomes(OnKey(calls, key), key)
    ensures key in After(calls) <==> key in After(OnKey(calls, key))
    ensures key in After(calls) ==> After(calls)[key] == After(OnKey(calls, key))[key]
  {
    if calls != [] {
      KeysIndependent(Front(calls), key);
      var kept := OnKey(Front(calls), key);
      if Last(calls).key == key {
        assert Front(kept + [Last(calls)]) == kept;
      } else {
        assert kept + [] == kept;
        assert Outcomes(Front(calls), key) + [] == Outcomes(Front(calls), key);
      }
    }
  }

  /** The run with every faulted call removed. */
  function WithoutFaults(calls: seq<Call>): seq<Call> {
    if calls == [] then []
    else WithoutFaults(Front(calls)) + if Last(calls).faulted then [] else [Last(calls)]
  }

  /** The outcomes the store itself decided, in order. */
  function Decided(calls: seq<Call>): seq<Outcome> {
    if calls == [] then []
    else Decided(Front(calls)) +
         if Last(calls).faulted then [] else [OutcomeOf(After(Front(calls)), Last(calls))]
  }

  /** A fault leaves every bucket as it was, so deleting the faulted calls changes no
      other outcome. */
  lemma {:induction false} FaultsLeaveNoTrace(calls: seq<Call>)
    ensures After(calls) == After(WithoutFaults(calls))
    ensures Decided(calls) == Decided(WithoutFaults(calls))
  {
    if calls != [] {
      FaultsLeaveNoTrace(Front(calls));
      var kept := WithoutFaults(Front(calls));
      if Last(calls).faulted {
        assert kept + [] == kept;
        assert Decided(Front(calls)) + [] == Decided(Front(calls));
      } else {
        assert Front(kept + [Last(calls)]) == kept;
      }
    }
  }

  // ---------------------------------------------------------------- database refinement

  /** One statement per call against the database table; a rejected one leaves it alone. */
  function TableAfter(calls: seq<Call>): Table {
    if calls == [] then map[]
    else
      var before := TableAfter(Front(calls));
      var c := Last(calls);
      if c.faulted then before
      else
        var r := Upsert(before, c.key, c.windowMs, c.now);
        if r.Success? then r.value else before
  }

  /** The instants a call hands the database are representable dates. */
  predicate Dated(c: Call) {
    IsTimeValue(c.now) && IsTimeValue(c.now + c.windowMs)
  }

  /** The i-th call reaches the database, and its statement is rejected. */
  predicate RejectedAt(calls: seq<Call>, i: nat)
    requires i < |calls|
  {
    !calls[i].faulted && Upsert(TableAfter(calls[..i]), calls[i].key, calls[i].windowMs, calls[i].now).Failure?
  }

  /** The run as its callers see it: a rejected statement is one more faulted call. */
  function AsSeen(calls: seq<Call>): seq<Call> {
    if calls == [] then []
    else
      var c := Last(calls);
      AsSeen(Front(calls)) + [c.(faulted := c.faulted || RejectedAt(calls, |calls| - 1))]
  }

  /** Over every run whatever, the table holds what the in-memory store holds after the
      run its callers see. */
  lemma {:induction false} TableIsStore(calls: seq<Call>)
    ensures Abstract(TableAfter(calls)) == After(AsSeen(calls))
  {
    if calls != [] {
      var front, c := Front(calls), Last(calls);
      TableIsStore(front);
      var seen := AsSeen(calls);
      assert Front(seen) == AsSeen(front);
      UpsertRefinesInMemory(TableAfter(front), c.key, c.windowMs, c.now);
    }
  }

  /** The statement of a call that reaches the database is rejected exactly when an
      instant is no date, or the count it would write is over the column's limit. */
  lemma RejectedIff(calls: seq<Call>, i: nat)
    requires i < |calls| && !calls[i].faulted
    ensures var c := calls[i];
            RejectedAt(calls, i) <==>
            !Dated(c) || Hit(After(AsSeen(calls[..i])), c.key, c.windowMs, c.now).count > MAX_INT4
  {
    var c := calls[i];
    TableIsStore(calls[..i]);
    UpsertRefinesInMemory(TableAfter(calls[..i]), c.key, c.windowMs, c.now);
  }

  /** The i-th call is faulted, or its instants are dates and the count it gets from the
      in-memory store fits the column. */
  predicate FitsAt(calls: seq<Call>, i: nat)
    requires i < |calls|
  {
    var c := calls[i];
    c.faulted || (Dated(c) && Hit(After(calls[..i]), c.key, c.windowMs, c.now).count <= MAX_INT4)
  }

  predicate NoneRejected(calls: seq<Call>) {
    forall i: nat | i < |calls| :: !RejectedAt(calls, i)
  }

  predicate AllFit(calls: seq<Call>) {
    forall i: nat | i < |calls| :: FitsAt(calls, i)
  }

  lemma PrefixAlike(calls: seq<Call>, n: nat)
    requires n <= |calls|
    ensures NoneRejected(calls) ==> NoneRejected(calls[..n])
    ensures AllFit(calls) ==> AllFit(calls[..n])
  {
    forall i: nat | i < n
      ensures RejectedAt(calls[..n], i) == RejectedAt(calls, i) && FitsAt(calls[..n], i) == FitsAt(calls, i)
    {
      assert calls[..n][..i] == calls[..i];
    }
  }

  lemma FitsUnlessRejected(calls: seq<Call>, i: nat)
    requires i < |calls| && AsSeen(calls[..i]) == calls[..i]
    ensures RejectedAt(calls, i) <==> !FitsAt(calls, i)
  {
    if !calls[i].faulted {
      RejectedIff(calls, i);
    }
  }

  /** Callers see the run as it is when nothing is rejected, and when all calls fit. */
  lemma {:induction false} SeenAsIs(calls: seq<Call>)
    requires NoneRejected(calls) || AllFit(calls)
    ensures AsSeen(calls) == calls
  {
    hide FitsAt, RejectedAt, AsSeen;
    if calls != [] {
      var n := |calls| - 1;
      PrefixAlike(calls, n);
      SeenAsIs(calls[..n]);
      FitsUnlessRejected(calls, n);
      SeenSnoc(calls);
    } else {
      NothingSeen();
    }
  }

  lemma NothingSeen()
    ensures AsSeen([]) == []
  {
  }

  lemma SeenSnoc(calls: seq<Call>)
    requires calls != [] && AsSeen(Front(calls)) == Front(calls) && !RejectedAt(calls, |calls| - 1)
    ensures AsSeen(calls) == calls
  {
    hide RejectedAt;
    var c := Last(calls);
    assert AsSeen(calls) == Front(calls) + [c.(faulted := c.faulted)];
  }

  /** The table and the in-memory store hold the same buckets throughout a run in which
      no statement is rejected, which are exactly the runs whose calls all fit. */
  lemma SameBuckets(calls: seq<Call>)
    ensures NoneRejected(calls) <==> AllFit(calls)
    ensures AllFit(calls) ==> Abstract(TableAfter(calls)) == After(calls)
  {
    hide RejectedAt, FitsAt;
    if NoneRejected(calls) || AllFit(calls) {
      SeenAsIs(calls);
      TableIsStore(calls);
      forall i: nat | i < |calls| ensures RejectedAt(calls, i) <==> !FitsAt(calls, i) {
        PrefixAlike(calls, i);
        SeenAsIs(calls[..i]);
        FitsUnlessRejected(calls, i);
      }
    }
  }

  /** The i-th call's statement goes through and returns the in-memory store's count. */
  ghost predicate AgreesAt(calls: seq<Call>, i: nat)
    requires i < |calls|
  {
    var c := calls[i];
    var r := Upsert(TableAfter(calls[..i]), c.key, c.windowMs, c.now);
    r.Success? && c.key in r.value && OutcomeAt(calls, i) == Counted(r.value[c.key].count)
  }

  /** Every call that reaches the database gets the in-memory store's count from it
      exactly when all calls fit. */
  lemma DatabaseRefinesInMemory(calls: seq<Call>)
    ensures (forall i: nat | i < |calls| && !calls[i].faulted :: AgreesAt(calls, i)) <==> AllFit(calls)
  {
    SameBuckets(calls);
    if AllFit(calls) {
      forall i: nat | i < |calls| && !calls[i].faulted ensures AgreesAt(calls, i) {
        PrefixAlike(calls, i);
        SameBuckets(calls[..i]);
        assert !RejectedAt(calls, i);
        UpsertRefinesInMemory(TableAfter(calls[..i]), calls[i].key, calls[i].windowMs, calls[i].now);
      }
    } else {
      var i: nat :| i < |calls| && RejectedAt(calls, i);
      assert !AgreesAt(calls, i);
    }
  }

  lemma {:induction false} CountsBelowLength(calls: seq<Call>, key: string)
    requires key in After(calls)
    ensures After(calls)[key].count <= |calls|
  {
    if key in After(Front(calls)) {
      CountsBelowLength(Front(calls), key);
    }
  }

  /** In numbers: in a run of fewer than 2^31 calls whose instants lie from the epoch to
      8.64e15 milliseconds after it, no statement is rejected. */
  lemma OrdinaryRunsGoThrough(calls: seq<Call>)
    requires |calls| < 2147483648
    requires forall i | 0 <= i < |calls| ::
      0 <= calls[i].now <= 8640000000000000 && 0 <= calls[i].now + calls[i].windowMs <= 8640000000000000
    ensures forall i: nat | i < |calls| && !calls[i].faulted ::
      Upsert(TableAfter(calls[..i]), calls[i].key, calls[i].windowMs, calls[i].now).Success?
    ensures NoneRejected(calls)
  {
    forall i: nat | i < |calls| ensures FitsAt(calls, i) {
      var c := calls[i];
      if c.key in After(calls[..i]) {
        CountsBelowLength(calls[..i], c.key);
      }
    }
    SameBuckets(calls);
    forall i: nat | i < |calls| && !calls[i].faulted
      ensures Upsert(TableAfter(calls[..i]), calls[i].key, calls[i].windowMs, calls[i].now).Success?
    {
      assert !RejectedAt(calls, i);
    }
  }

  /** And the calls on a key within one window get the counts 1, 2, 3, ... from the
      table. */
  lemma OrdinaryRunsCount(calls: seq<Call>, key: string, windowMs: int, lo: int, i: nat)
    requires |calls| < 2147483648 && windowMs > 0 && i < |calls| && Hits(calls[i], key)
    requires forall j | 0 <= j < |calls| ::
      0 <= calls[j].now <= 8640000000000000 && 0 <= calls[j].now + calls[j].windowMs <= 8640000000000000
    requires forall j | 0 <= j < |calls| && Hits(calls[j], key) ::
      calls[j].windowMs == windowMs && lo <= calls[j].now < lo + windowMs
    ensures var r := Upsert(TableAfter(calls[..i]), key, windowMs, calls[i].now);
            r.Success? && key in r.value && r.value[key].count == HitsBetween(calls, key, 0, i + 1)
  {
    hide Upsert, After, TableAfter, OutcomeAt;
    OrdinaryRunsGoThrough(calls);
    SameBuckets(calls);
    DatabaseRefinesInMemory(calls);
    assert AgreesAt(calls, i);
    OneWindowCounts(calls, key, windowMs, lo, i);
  }

  // ---------------------------------------------------------------- the older limiter

  function LegacyAfter(calls: seq<Call>): Buckets {
    if calls == [] then map[]
    else
      var before := LegacyAfter(Front(calls));
      var c := Last(calls);
      before[c.key := LegacyHit(before, c.key, c.limit, c.windowMs, c.now)]
  }

  function LegacyVerdicts(calls: seq<Call>): seq<bool> {
    if calls == [] then []
    else LegacyVerdicts(Front(calls)) +
         [LegacyAdmits(LegacyAfter(Front(calls)), Last(calls).key, Last(calls).limit, Last(calls).now)]
  }

  function Verdicts(calls: seq<Call>): seq<bool> {
    if calls == [] then []
    else Verdicts(Front(calls)) + [Allowed(Last(calls), OutcomeOf(After(Front(calls)), Last(calls)))]
  }

  /** No faults, and one fixed limit per key. */
  ghost predicate FixedLimits(calls: seq<Call>, limits: map<string, int>) {
    forall i | 0 <= i < |calls| ::
      !calls[i].faulted && calls[i].key in limits && calls[i].limit == limits[calls[i].key]
  }

  /** The simulation: equal reset times, and the older count is the newer one cut
      off at the limit. */
  ghost predicate Saturated(older: Buckets, newer: Buckets, limits: map<string, int>) {
    older.Keys == newer.Keys <= limits.Keys &&
    forall key | key in newer ::
      && newer[key].count >= 1
      && older[key] == Bucket(Min(newer[key].count, limits[key]), newer[key].resetAt)
  }

  lemma {:induction false} LegacySimulation(calls: seq<Call>, limits: map<string, int>)
    requires FixedLimits(calls, limits)
    requires forall key | key in limits :: limits[key] >= 1
    ensures Saturated(LegacyAfter(calls), After(calls), limits)
    ensures LegacyVerdicts(calls) == Verdicts(calls)
  {
    if calls != [] {
      assert FixedLimits(Front(calls), limits);
      LegacySimulation(Front(calls), limits);
      var c := Last(calls);
      assert c == calls[|calls| - 1];
      SimulationStep(LegacyAfter(Front(calls)), After(Front(calls)), limits, c);
    }
  }

  /** One call keeps the simulation, and both limiters give it the same verdict. */
  lemma SimulationStep(older: Buckets, newer: Buckets, limits: map<string, int>, c: Call)
    requires Saturated(older, newer, limits)
    requires !c.faulted && c.key in limits && c.limit == limits[c.key] && c.limit >= 1
    ensures Saturated(older[c.key := LegacyHit(older, c.key, c.limit, c.windowMs, c.now)], StoreStep(newer, c), limits)
    ensures LegacyAdmits(older, c.key, c.limit, c.now) <==> Allowed(c, OutcomeOf(newer, c))
  {
  }

  /** A lone call with no limit left: the older limiter admits it, the newer does not. */
  lemma FirstCallAtZero(c: Call)
    requires !c.faulted && c.limit < 1
    ensures LegacyVerdicts([c]) != Verdicts([c])
  {
    assert Front([c]) == [];
    assert LegacyVerdicts([]) == [] && Verdicts([]) == [];
    assert LegacyVerdicts([c])[0] == true;
    assert Verdicts([c])[0] == false;
  }

  /** Old and new limiter agree on every fault-free run with these limits exactly when
      every limit is at least 1: with limit 0 the older one lets the first call in. */
  lemma LegacyAgreesIffPositive(limits: map<string, int>)
    ensures (forall calls | FixedLimits(calls, limits) :: LegacyVerdicts(calls) == Verdicts(calls))
       <==> (forall key | key in limits :: limits[key] >= 1)
  {
    if forall key | key in limits :: limits[key] >= 1 {
      forall calls | FixedLimits(calls, limits) ensures LegacyVerdicts(calls) == Verdicts(calls) {
        LegacySimulation(calls, limits);
      }
    } else {
      var key :| key in limits && limits[key] < 1;
      var first := [Call(key, limits[key], 1, 0, false)];
      FirstCallAtZero(first[0]);
      assert FixedLimits(first, limits);
    }
  }
}
