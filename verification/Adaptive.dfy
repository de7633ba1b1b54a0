/** The shrinking concurrency ceiling: AdaptiveLimiter (internal/runner/adaptive.go),
    ThrottleTracker (internal/runner/throttle.go) and the callback that joins them
    (internal/runner/batch.go). Each mutex section is one method here; AdaptiveRuns.dfy
    interleaves them. */
module Adaptive {

  // ---------- the limiter ----------

  /** One recorded cut. The reason's text is determined by the streak it quotes. */
  datatype ThrottleEvent = ThrottleEvent(from: int, to: int, streak: int)

  datatype Limiter = Limiter(limit: int, active: int, events: seq<ThrottleEvent>)

  predicate Admits(l: Limiter) { l.active < l.limit }

  predicate Accepts(l: Limiter, newLimit: int) { 1 <= newLimit < l.limit }

  function Cut(l: Limiter, streak: int, newLimit: int): Limiter {
    if Accepts(l, newLimit)
    then l.(limit := newLimit, events := l.events + [ThrottleEvent(l.limit, newLimit, streak)])
    else l
  }

  function InitialLimit(initial: int): int { if initial <= 0 then 1 else initial }

  class AdaptiveLimiter {
    var limit: int
    var active: int
    var events: seq<ThrottleEvent>

    function View(): Limiter
      reads this
    { Limiter(limit, active, events) }

    constructor (initial: int)
      ensures View() == Limiter(InitialLimit(initial), 0, [])
      ensures limit == if initial >= 1 then initial else 1
    {
      limit := if initial <= 0 then 1 else initial;
      active, events := 0, [];
    }

    /** One pass of Acquire's wait loop: admitted, or left to sleep on the condition. */
    method TryAcquire() returns (admitted: bool)
      modifies this`active
      ensures admitted <==> Admits(old(View()))
      ensures View() == if admitted then old(View()).(active := old(active) + 1) else old(View())
    {
      if active >= limit { return false; }
      active := active + 1;
      return true;
    }

    method Release()
      modifies this`active
      ensures View() == old(View()).(active := old(active) - 1)
    {
      active := active - 1;
    }

    method Throttle(streak: int, newLimit: int) returns (changed: bool)
      modifies this`limit, this`events
      ensures View() == Cut(old(View()), streak, newLimit)
      ensures changed <==> 1 <= newLimit < old(limit)
      ensures changed ==> limit == newLimit && events == old(events) + [ThrottleEvent(old(limit), newLimit, streak)]
      ensures !changed ==> limit == old(limit) && events == old(events)
    {
      if newLimit >= limit || newLimit < 1 { return false; }
      events := events + [ThrottleEvent(limit, newLimit, streak)];
      limit := newLimit;
      return true;
    }

    method CurrentLimit() returns (r: int)
      ensures r == limit
    { r := limit; }

    method Events() returns (r: seq<ThrottleEvent>)
      ensures r == events
    { r := events; }
  }

  // ---------- the tracker ----------

  const TOO_MANY_REQUESTS := 429
  const SUSTAINED_STREAK := 3

  /** Length of the run of 429s a response history ends in. */
  function TrailingRun(statuses: seq<int>): nat {
    if statuses == [] || statuses[|statuses| - 1] != TOO_MANY_REQUESTS then 0
    else TrailingRun(statuses[..|statuses| - 1]) + 1
  }

  datatype RateLimitEvent = RateLimitEvent(at: int, retryAfter: int, url: string)

  class ThrottleTracker {
    var consecutive: nat
    var events: seq<RateLimitEvent>
    ghost var statuses: seq<int>

    ghost predicate Valid()
      reads this
    { consecutive == TrailingRun(statuses) && |events| == Count429(statuses) }

    constructor ()
      ensures Valid() && statuses == []
    {
      consecutive, events, statuses := 0, [], [];
    }

    /** Returns the streak this response leaves, and whether the callback is to run. `now`
        is the clock. */
    method Observe(statusCode: int, retryAfter: int, url: string, now: int) returns (streak: nat, notify: bool)
      requires Valid()
      modifies this
      ensures Valid() && statuses == old(statuses) + [statusCode]
      ensures streak == TrailingRun(statuses) && notify == (statusCode == TOO_MANY_REQUESTS)
      ensures events == old(events) + if notify then [RateLimitEvent(now, retryAfter, url)] else []
    {
      statuses := statuses + [statusCode];
      assert statuses[..|statuses| - 1] == old(statuses);
      if statusCode == TOO_MANY_REQUESTS {
        consecutive := consecutive + 1;
        events := events + [RateLimitEvent(now, retryAfter, url)];
      } else {
        consecutive := 0;
      }
      return consecutive, statusCode == TOO_MANY_REQUESTS;
    }
  }

  function Count429(statuses: seq<int>): nat {
    if statuses == [] then 0
    else Count429(statuses[..|statuses| - 1]) + (if statuses[|statuses| - 1] == TOO_MANY_REQUESTS then 1 else 0)
  }

  /** The streak is n exactly when the last n responses, and no more, were 429s. */
  lemma {:induction false} TrailingRunMeans(statuses: seq<int>, n: nat)
    ensures TrailingRun(statuses) == n <==>
      && n <= |statuses|
      && (forall i :: |statuses| - n <= i < |statuses| ==> statuses[i] == TOO_MANY_REQUESTS)
      && (n < |statuses| ==> statuses[|statuses| - n - 1] != TOO_MANY_REQUESTS)
  {
    var last := |statuses| - 1;
    if statuses == [] || statuses[last] != TOO_MANY_REQUESTS {
      assert 0 < n <= |statuses| ==> |statuses| - n <= last < |statuses|;
    } else if n == 0 {
    } else {
      var before := statuses[..last];
      TrailingRunMeans(before, n - 1);
      assert forall i :: 0 <= i < last ==> before[i] == statuses[i];
    }
  }

  /** A run of at least three means the last three responses were all 429s. */
  lemma SustainedMeansThree(statuses: seq<int>)
    ensures TrailingRun(statuses) >= SUSTAINED_STREAK <==>
      |statuses| >= 3 && forall i :: |statuses| - 3 <= i < |statuses| ==> statuses[i] == TOO_MANY_REQUESTS
  {
    var n := |statuses|;
    if n >= 1 {
      var a := statuses[..n - 1];
      if n >= 2 {
        var b := a[..n - 2];
        assert a[n - 2] == statuses[n - 2];
        if n >= 3 {
          assert b[n - 3] == statuses[n - 3];
        }
      }
    }
  }

  // ---------- the callback ----------

  /** What a handler that read `cur` will ask for. */
  function HalvedCeiling(cur: int): int { if cur / 2 < 1 then 1 else cur / 2 }

  /** adaptiveThrottleHandler with no other handler running in between. */
  method HandleThrottle(limiter: AdaptiveLimiter, streak: int)
    requires limiter.limit >= 1
    modifies limiter
    ensures limiter.View() ==
      if streak < SUSTAINED_STREAK then old(limiter.View())
      else Cut(old(limiter.View()), streak, HalvedCeiling(old(limiter.limit)))
    ensures streak >= 3 && old(limiter.limit) >= 2 ==>
      && limiter.limit == old(limiter.limit) / 2
      && limiter.events == old(limiter.events) + [ThrottleEvent(old(limiter.limit), limiter.limit, streak)]
    ensures streak < 3 || old(limiter.limit) == 1 ==>
      limiter.limit == old(limiter.limit) && limiter.events == old(limiter.events)
  {
    if streak < SUSTAINED_STREAK { return; }
    var cur := limiter.CurrentLimit();
    var next := cur / 2;
    if next < 1 { next := 1; }
    var _ := limiter.Throttle(streak, next);
  }
}
