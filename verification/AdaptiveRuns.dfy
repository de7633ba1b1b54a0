/** Every interleaving of a batch run: workers acquiring and releasing, responses being
    observed, and throttle handlers whose read and write of the ceiling are two separate
    critical sections. */
module AdaptiveRuns {
  import opened Adaptive

  /** A worker goroutine: about to check the limiter, asleep on its condition, running
      its target, holding its finished result, or gone. */
  datatype Worker = Ready | Asleep | Running | Stored | Finished

  /** A callback in flight: notified by Observe number `cause`, then holding the ceiling
      it read. */
  datatype Handler = Notified(streak: nat, cause: nat) | Armed(streak: nat, cause: nat, cur: int)

  datatype System<R> = System(
    initial: int,
    limiter: Limiter,
    causes: seq<nat>,
    workers: seq<Worker>,
    results: seq<R>,
    statuses: seq<int>,
    handlers: seq<Handler>)

  datatype Step =
    | CheckLimit(w: nat)
    | StoreResult(w: nat)
    | ReleaseSlot(w: nat)
    | Respond(status: int)
    | ReadLimit(h: nat)
    | WriteLimit(h: nat)

  predicate IsActive(w: Worker) { w == Running || w == Stored }

  function WakeAll(ws: seq<Worker>): (r: seq<Worker>)
    ensures |r| == |ws|
    ensures forall i :: 0 <= i < |ws| ==> r[i] == if ws[i] == Asleep then Ready else ws[i]
  { seq(|ws|, i requires 0 <= i < |ws| => if ws[i] == Asleep then Ready else ws[i]) }

  predicate Enabled<R>(s: System<R>, step: Step) {
    match step
    case CheckLimit(w) => w < |s.workers| && s.workers[w] == Ready
    case StoreResult(w) => w < |s.workers| && s.workers[w] == Running && w < |s.results|
    case ReleaseSlot(w) => w < |s.workers| && s.workers[w] == Stored
    case Respond(_) => true
    case ReadLimit(h) => h < |s.handlers| && s.handlers[h].Notified?
    case WriteLimit(h) => h < |s.handlers| && s.handlers[h].Armed?
  }

  function Without<T>(xs: seq<T>, i: nat): seq<T>
    requires i < |xs|
  { xs[..i] + xs[i+1..] }

  function Next<R>(s: System<R>, step: Step, run: nat -> R): System<R>
    requires Enabled(s, step)
  {
    match step
    case CheckLimit(w) =>
      if Admits(s.limiter) then
        s.(workers := s.workers[w := Running], limiter := s.limiter.(active := s.limiter.active + 1))
      else s.(workers := s.workers[w := Asleep])
    case StoreResult(w) => s.(workers := s.workers[w := Stored], results := s.results[w := run(w)])
    case ReleaseSlot(w) =>
      s.(workers := WakeAll(s.workers[w := Finished]), limiter := s.limiter.(active := s.limiter.active - 1))
    case Respond(status) =>
      var seen := s.statuses + [status];
      s.(statuses := seen,
         handlers := if status == TOO_MANY_REQUESTS then s.handlers + [Notified(TrailingRun(seen), |seen|)]
           else s.handlers)
    case ReadLimit(h) =>
      var n := s.handlers[h];
      if n.streak < SUSTAINED_STREAK then s.(handlers := Without(s.handlers, h))
      else s.(handlers := s.handlers[h := Armed(n.streak, n.cause, s.limiter.limit)])
    case WriteLimit(h) =>
      var a := s.handlers[h];
      var asked := HalvedCeiling(a.cur);
      var rest := s.(handlers := Without(s.handlers, h));
      if Accepts(s.limiter, asked) then
        rest.(limiter := Cut(s.limiter, a.streak, asked), causes := s.causes + [a.cause], workers := WakeAll(s.workers))
      else rest
  }

  /** The shared tracker may already hold responses, a streak among them. */
  predicate Starts<R>(s: System<R>, parallel: int) {
    && s.initial == InitialLimit(parallel)
    && s.limiter == Limiter(s.initial, 0, [])
    && s.causes == [] && s.handlers == []
    && |s.results| == |s.workers|
    && forall w :: 0 <= w < |s.workers| ==> s.workers[w] == Ready
  }

  // ---------- the invariant ----------

  /** The ceiling after k effective cuts. */
  function Halved(initial: int, k: nat): int { if k == 0 then initial else Halved(initial, k - 1) / 2 }

  lemma {:induction false} HalvedDecreases(initial: int, j: nat, k: nat)
    requires initial >= 0 && j <= k
    ensures 0 <= Halved(initial, k) <= Halved(initial, j)
    decreases k - j
  {
    if j < k {
      HalvedNonNegative(initial, j);
      HalvedDecreases(initial, j + 1, k);
    } else {
      HalvedNonNegative(initial, k);
    }
  }

  lemma {:induction false} HalvedNonNegative(initial: int, k: nat)
    requires initial >= 0
    ensures Halved(initial, k) >= 0
  {
    if k == 0 {
    } else {
      HalvedNonNegative(initial, k - 1);
    }
  }

  function CountActive(ws: seq<Worker>): nat {
    if ws == [] then 0 else (if IsActive(ws[0]) then 1 else 0) + CountActive(ws[1..])
  }

  lemma {:induction false} CountUpdate(ws: seq<Worker>, i: nat, w: Worker)
    requires i < |ws|
    ensures CountActive(ws[i := w])
      == CountActive(ws) - (if IsActive(ws[i]) then 1 else 0) + (if IsActive(w) then 1 else 0)
  {
    if i == 0 {
      assert ws[0 := w][1..] == ws[1..];
    } else {
      assert ws[i := w][1..] == ws[1..][i - 1 := w];
      CountUpdate(ws[1..], i - 1, w);
    }
  }

  lemma {:induction false} CountWake(ws: seq<Worker>)
    ensures CountActive(WakeAll(ws)) == CountActive(ws)
  {
    if ws == [] {
    } else {
      assert WakeAll(ws)[1..] == WakeAll(ws[1..]);
      CountWake(ws[1..]);
    }
  }

  lemma {:induction false} SomeoneIsActive(ws: seq<Worker>)
    requires CountActive(ws) > 0
    ensures exists w :: 0 <= w < |ws| && IsActive(ws[w])
  {
    if !IsActive(ws[0]) {
      SomeoneIsActive(ws[1..]);
      var w :| 0 <= w < |ws[1..]| && IsActive(ws[1..][w]);
      assert IsActive(ws[w + 1]);
    }
  }

  ghost predicate EventsChain(l: Limiter, initial: int) {
    && initial >= 1
    && l.limit == Halved(initial, |l.events|) && l.limit >= 1
    && forall j :: 0 <= j < |l.events| ==>
         l.events[j].from == Halved(initial, j) && l.events[j].to == Halved(initial, j + 1) && l.events[j].to >= 1
  }

  ghost predicate TracesBack(streak: int, cause: nat, statuses: seq<int>) {
    cause <= |statuses| && streak == TrailingRun(statuses[..cause])
  }

  ghost predicate Inv<R>(s: System<R>, run: nat -> R) {
    && EventsChain(s.limiter, s.initial)
    && s.limiter.active == CountActive(s.workers) <= s.initial
    && (forall w :: 0 <= w < |s.workers| && s.workers[w] == Asleep ==> s.limiter.active >= s.limiter.limit)
    && |s.causes| == |s.limiter.events|
    && (forall j :: 0 <= j < |s.causes| ==>
          TracesBack(s.limiter.events[j].streak, s.causes[j], s.statuses)
            && s.limiter.events[j].streak >= SUSTAINED_STREAK)
    && (forall h :: 0 <= h < |s.handlers| ==> TracesBack(s.handlers[h].streak, s.handlers[h].cause, s.statuses))
    && (forall h :: 0 <= h < |s.handlers| && s.handlers[h].Armed? ==>
          s.handlers[h].streak >= SUSTAINED_STREAK && WasCeiling(s, s.handlers[h].cur))
    && |s.results| == |s.workers|
    && (forall w :: 0 <= w < |s.workers| && (s.workers[w] == Stored || s.workers[w] == Finished) ==>
         s.results[w] == run(w))
  }

  /** cur was the ceiling at some earlier point of this run. */
  ghost predicate WasCeiling<R>(s: System<R>, cur: int) {
    exists j: nat :: j <= |s.limiter.events| && cur == Halved(s.initial, j)
  }

  /** A stale handler's request is refused; an up-to-date one exactly halves. */
  lemma OnlyFreshReadsCut<R>(s: System<R>, cur: int)
    requires EventsChain(s.limiter, s.initial) && WasCeiling(s, cur)
    ensures Accepts(s.limiter, HalvedCeiling(cur)) ==> cur == s.limiter.limit
    ensures Accepts(s.limiter, HalvedCeiling(cur)) ==> HalvedCeiling(cur) == s.limiter.limit / 2 >= 1
  {
    var k := |s.limiter.events|;
    var j: nat :| j <= k && cur == Halved(s.initial, j);
    if j < k { HalvedDecreases(s.initial, j + 1, k); }
  }

  lemma InitHolds<R>(s: System<R>, parallel: int, run: nat -> R)
    requires Starts(s, parallel)
    ensures Inv(s, run)
  {
    NobodyActive(s.workers);
  }

  lemma {:induction false} NobodyActive(ws: seq<Worker>)
    requires forall w :: 0 <= w < |ws| ==> !IsActive(ws[w])
    ensures CountActive(ws) == 0
  {
    if ws == [] {
    } else {
      NobodyActive(ws[1..]);
    }
  }

  /** A past ceiling stays a past ceiling. */
  lemma CeilingsStay<R>(s: System<R>, t: System<R>)
    requires t.initial == s.initial && |s.limiter.events| <= |t.limiter.events|
    ensures forall cur :: WasCeiling(s, cur) ==> WasCeiling(t, cur)
  {
    forall cur | WasCeiling(s, cur) ensures WasCeiling(t, cur) {
      var j: nat :| j <= |s.limiter.events| && cur == Halved(s.initial, j);
      assert j <= |t.limiter.events|;
    }
  }

  lemma CheckKeeps<R>(s: System<R>, w: nat, run: nat -> R)
    requires Inv(s, run) && Enabled(s, CheckLimit(w))
    ensures Inv(Next(s, CheckLimit(w), run), run)
  {
    CountUpdate(s.workers, w, Running);
    CountUpdate(s.workers, w, Asleep);
    HalvedDecreases(s.initial, 0, |s.limiter.events|);
    CeilingsStay(s, Next(s, CheckLimit(w), run));
  }

  lemma StoreKeeps<R>(s: System<R>, w: nat, run: nat -> R)
    requires Inv(s, run) && Enabled(s, StoreResult(w))
    ensures Inv(Next(s, StoreResult(w), run), run)
  {
    CountUpdate(s.workers, w, Stored);
    CeilingsStay(s, Next(s, StoreResult(w), run));
  }

  lemma ReleaseKeeps<R>(s: System<R>, w: nat, run: nat -> R)
    requires Inv(s, run) && Enabled(s, ReleaseSlot(w))
    ensures Inv(Next(s, ReleaseSlot(w), run), run)
  {
    CountUpdate(s.workers, w, Finished);
    CountWake(s.workers[w := Finished]);
    CeilingsStay(s, Next(s, ReleaseSlot(w), run));
  }

  lemma ResponseKeeps<R>(s: System<R>, step: Step, run: nat -> R)
    requires Inv(s, run) && step.Respond?
    ensures Inv(Next(s, step, run), run)
  {
    var t := Next(s, step, run);
    forall cause: nat | cause <= |s.statuses| ensures t.statuses[..cause] == s.statuses[..cause] { }
    assert t.statuses[..|t.statuses|] == t.statuses;
    CeilingsStay(s, t);
  }

  lemma ReadKeeps<R>(s: System<R>, h: nat, run: nat -> R)
    requires Inv(s, run) && Enabled(s, ReadLimit(h))
    ensures Inv(Next(s, ReadLimit(h), run), run)
  {
    assert WasCeiling(s, s.limiter.limit) by { assert s.limiter.limit == Halved(s.initial, |s.limiter.events|); }
    CeilingsStay(s, Next(s, ReadLimit(h), run));
  }

  /** A cut extends the chain of halvings by one link. */
  lemma CutExtendsChain(l: Limiter, initial: int, streak: int)
    requires EventsChain(l, initial) && Accepts(l, l.limit / 2)
    ensures EventsChain(Cut(l, streak, l.limit / 2), initial)
  {
    var k := |l.events|;
    assert Halved(initial, k + 1) == Halved(initial, k) / 2;
  }

  lemma RefusedWriteKeeps<R>(s: System<R>, h: nat, run: nat -> R)
    requires Inv(s, run) && h < |s.handlers|
    ensures Inv(s.(handlers := Without(s.handlers, h)), run)
  {
    CeilingsStay(s, s.(handlers := Without(s.handlers, h)));
  }

  lemma WriteKeeps<R>(s: System<R>, h: nat, run: nat -> R)
    requires Inv(s, run) && Enabled(s, WriteLimit(h))
    ensures Inv(Next(s, WriteLimit(h), run), run)
  {
    var a := s.handlers[h];
    var mid := s.(handlers := Without(s.handlers, h));
    RefusedWriteKeeps(s, h, run);
    OnlyFreshReadsCut(s, a.cur);
    if Accepts(s.limiter, HalvedCeiling(a.cur)) { AcceptedCutKeeps(mid, a.streak, a.cause, run); }
  }

  function AfterCut<R>(s: System<R>, streak: nat, cause: nat): System<R> {
    s.(limiter := Cut(s.limiter, streak, s.limiter.limit / 2), causes := s.causes + [cause],
      workers := WakeAll(s.workers))
  }

  lemma AcceptedCutKeeps<R>(s: System<R>, streak: nat, cause: nat, run: nat -> R)
    requires Inv(s, run) && Accepts(s.limiter, s.limiter.limit / 2)
    requires TracesBack(streak, cause, s.statuses) && streak >= SUSTAINED_STREAK
    ensures Inv(AfterCut(s, streak, cause), run)
  {
    CutExtendsChain(s.limiter, s.initial, streak);
    CountWake(s.workers);
    CeilingsStay(s, AfterCut(s, streak, cause));
  }

  // ---------- all runs ----------

  /** State i+1 follows from state i by step i, which was enabled. */
  ghost predicate Moves<R>(states: seq<System<R>>, steps: seq<Step>, run: nat -> R, i: nat) {
    && i < |steps| && i + 1 < |states|
    && Enabled(states[i], steps[i]) && states[i + 1] == Next(states[i], steps[i], run)
  }

  /** One state after another by enabled steps. */
  ghost predicate Steps<R>(states: seq<System<R>>, steps: seq<Step>, run: nat -> R) {
    |states| == |steps| + 1 && forall i :: 0 <= i < |steps| ==> Moves(states, steps, run, i)
  }

  /** An execution: steps from a starting state. */
  ghost predicate Execution<R>(states: seq<System<R>>, steps: seq<Step>, parallel: int, run: nat -> R) {
    Steps(states, steps, run) && Starts(states[0], parallel)
  }

  lemma {:induction false} EveryStateIsSafe<R>(states: seq<System<R>>, steps: seq<Step>, parallel: int, run: nat -> R,
                                               i: nat)
    requires Execution(states, steps, parallel, run) && i < |states|
    ensures Inv(states[i], run)
    ensures states[i].initial == InitialLimit(parallel)
  {
    if i == 0 {
      InitHolds(states[0], parallel, run);
    } else {
      EveryStateIsSafe(states, steps, parallel, run, i - 1);
      var s, step := states[i - 1], steps[i - 1];
      assert Moves(states, steps, run, i - 1);
      match step
      case CheckLimit(w) => CheckKeeps(s, w, run);
      case StoreResult(w) => StoreKeeps(s, w, run);
      case ReleaseSlot(w) => ReleaseKeeps(s, w, run);
      case Respond(_) => ResponseKeeps(s, step, run);
      case ReadLimit(h) => ReadKeeps(s, h, run);
      case WriteLimit(h) => WriteKeeps(s, h, run);
    }
  }

  /** Some response so far ended a run of exactly `streak` 429s, three or more. */
  ghost predicate EndsStreak(statuses: seq<int>, streak: int) {
    streak >= SUSTAINED_STREAK && exists c: nat :: c <= |statuses| && TrailingRun(statuses[..c]) == streak
  }

  /** The ceiling is the initial one halved once per recorded cut and never below one;
      cuts chain, each halving exactly; nothing ever runs above the initial ceiling; and
      every cut traces to an observation ending three or more consecutive 429s. */
  lemma CeilingIsHonest<R>(states: seq<System<R>>, steps: seq<Step>, parallel: int, run: nat -> R, i: nat)
    requires Execution(states, steps, parallel, run) && i < |states|
    ensures var s, n := states[i], InitialLimit(parallel);
      && s.limiter.limit == Halved(n, |s.limiter.events|) && 1 <= s.limiter.limit <= n
      && 0 <= s.limiter.active <= n
      && (forall j :: 0 <= j < |s.limiter.events| ==>
            s.limiter.events[j].to == s.limiter.events[j].from / 2
              && 1 <= s.limiter.events[j].to < s.limiter.events[j].from)
      && (forall j :: 0 <= j < |s.limiter.events| ==>
            s.limiter.events[j].from == (if j == 0 then n else s.limiter.events[j - 1].to))
      && (forall j :: 0 <= j < |s.limiter.events| ==> EndsStreak(s.statuses, s.limiter.events[j].streak))
  {
    EveryStateIsSafe(states, steps, parallel, run, i);
    var s := states[i];
    HalvedDecreases(s.initial, 0, |s.limiter.events|);
    forall j | 0 <= j < |s.limiter.events|
      ensures EndsStreak(s.statuses, s.limiter.events[j].streak)
      ensures s.limiter.events[j].to == s.limiter.events[j].from / 2
        && 1 <= s.limiter.events[j].to < s.limiter.events[j].from
    {
      assert Halved(s.initial, j + 1) == Halved(s.initial, j) / 2;
      assert TracesBack(s.limiter.events[j].streak, s.causes[j], s.statuses);
    }
  }

  // ---------- sustained streaks are heeded ----------

  /** From any reachable state, a third 429 in a row notifies a handler that, left alone,
      lowers a ceiling of two or more to its half and records the one cut. */
  lemma ThirdRefusalHalves<R>(s: System<R>, run: nat -> R)
    requires Inv(s, run) && s.limiter.limit >= 2
    requires |s.statuses| >= 2 && s.statuses[|s.statuses| - 1] == 429 && s.statuses[|s.statuses| - 2] == 429
    ensures Enabled(s, Respond(429))
    ensures var h := |s.handlers|;
      var notified := Next(s, Respond(429), run);
      Enabled(notified, ReadLimit(h)) &&
      var armed := Next(notified, ReadLimit(h), run);
      Enabled(armed, WriteLimit(h)) &&
      var cut := Next(armed, WriteLimit(h), run);
      && cut.limiter.limit == s.limiter.limit / 2
      && cut.handlers == s.handlers
      && exists streak :: streak >= 3
           && cut.limiter.events == s.limiter.events + [ThrottleEvent(s.limiter.limit, s.limiter.limit / 2, streak)]
  {
    var seen := s.statuses + [429];
    SustainedMeansThree(seen);
    var h := |s.handlers|;
    var notified := Next(s, Respond(429), run);
    var armed := Next(notified, ReadLimit(h), run);
    var cut := Next(armed, WriteLimit(h), run);
    assert cut.handlers == s.handlers;
    assert cut.limiter.events ==
           s.limiter.events + [ThrottleEvent(s.limiter.limit, s.limiter.limit / 2, TrailingRun(seen))];
  }

  /** Handlers are told apart by the response that notified them. */
  ghost predicate OwnCauses(hs: seq<Handler>) {
    forall g, h :: 0 <= g < h < |hs| ==> hs[g].cause != hs[h].cause
  }

  lemma OwnCausesKept<R>(s: System<R>, step: Step, run: nat -> R)
    requires Inv(s, run) && OwnCauses(s.handlers) && Enabled(s, step)
    ensures OwnCauses(Next(s, step, run).handlers)
  {
    forall h | 0 <= h < |s.handlers| ensures s.handlers[h].cause <= |s.statuses| {
      assert TracesBack(s.handlers[h].streak, s.handlers[h].cause, s.statuses);
    }
  }

  lemma {:induction false} CausesDiffer<R>(states: seq<System<R>>, steps: seq<Step>, parallel: int, run: nat -> R,
                                           i: nat)
    requires Execution(states, steps, parallel, run) && i < |states|
    ensures OwnCauses(states[i].handlers)
  {
    if i == 0 {
    } else {
      CausesDiffer(states, steps, parallel, run, i - 1);
      EveryStateIsSafe(states, steps, parallel, run, i - 1);
      assert Moves(states, steps, run, i - 1);
      OwnCausesKept(states[i - 1], steps[i - 1], run);
    }
  }

  /** Every handler in flight for this cause has read this ceiling. */
  ghost predicate AllArmedWith(hs: seq<Handler>, streak: nat, cause: nat, cur: int) {
    forall h :: 0 <= h < |hs| && hs[h].cause == cause ==> hs[h] == Handler.Armed(streak, cause, cur)
  }

  lemma ArmedKept<R>(s: System<R>, step: Step, run: nat -> R, streak: nat, cause: nat, cur: int)
    requires Enabled(s, step) && cause <= |s.statuses| && AllArmedWith(s.handlers, streak, cause, cur)
    ensures cause <= |Next(s, step, run).statuses|
    ensures AllArmedWith(Next(s, step, run).handlers, streak, cause, cur)
  { }

  lemma {:induction false} StaysArmed<R>(states: seq<System<R>>, steps: seq<Step>, run: nat -> R, i: nat, j: nat,
                                         streak: nat, cause: nat, cur: int)
    requires Steps(states, steps, run) && i <= j < |states|
    requires cause <= |states[i].statuses| && AllArmedWith(states[i].handlers, streak, cause, cur)
    ensures cause <= |states[j].statuses| && AllArmedWith(states[j].handlers, streak, cause, cur)
    decreases j
  {
    if i < j {
      StaysArmed(states, steps, run, i, j - 1, streak, cause, cur);
      assert Moves(states, steps, run, j - 1);
      ArmedKept(states[j - 1], steps[j - 1], run, streak, cause, cur);
    }
  }

  /** A handler notified by a streak of three or more reads the ceiling at step i and writes
      at step j. However much happens in between, if no cut did and the ceiling was two or
      more, that write halves it and records the one cut with the handler's own streak. */
  lemma SustainedStreakCuts<R>(states: seq<System<R>>, steps: seq<Step>, parallel: int, run: nat -> R,
                               i: nat, h: nat, j: nat, g: nat)
    requires Execution(states, steps, parallel, run) && i < j < |steps|
    requires steps[i] == ReadLimit(h) && h < |states[i].handlers| && states[i].handlers[h].streak >= 3
    requires steps[j] == WriteLimit(g) && g < |states[j].handlers|
      && states[j].handlers[g].cause == states[i].handlers[h].cause
    requires states[j].limiter.events == states[i].limiter.events && states[i].limiter.limit >= 2
    ensures var before, after := states[i].limiter, states[j + 1].limiter;
      && after.limit == before.limit / 2
      && after.events == before.events + [ThrottleEvent(before.limit, before.limit / 2, states[i].handlers[h].streak)]
  {
    var n, cur := states[i].handlers[h], states[i].limiter.limit;
    EveryStateIsSafe(states, steps, parallel, run, i);
    EveryStateIsSafe(states, steps, parallel, run, j);
    CausesDiffer(states, steps, parallel, run, i);
    assert Moves(states, steps, run, i) && Moves(states, steps, run, j);
    assert TracesBack(n.streak, n.cause, states[i].statuses);
    assert AllArmedWith(states[i + 1].handlers, n.streak, n.cause, cur);
    StaysArmed(states, steps, run, i + 1, j, n.streak, n.cause, cur);
    assert states[j].handlers[g] == Handler.Armed(n.streak, n.cause, cur);
    assert states[j].limiter.limit == cur;
  }

  /** Some handler is still in flight for the streak this response ended. */
  ghost predicate InFlight(hs: seq<Handler>, cause: nat) {
    exists h :: 0 <= h < |hs| && hs[h].cause == cause
  }

  /** Three 429s in a row, the last of them this batch's response number c. */
  predicate Sustained(statuses: seq<int>, c: nat) {
    3 <= c <= |statuses| && statuses[c - 1] == 429 && statuses[c - 2] == 429 && statuses[c - 3] == 429
  }

  /** Every sustained streak since the start has its handler in flight, or the ceiling has
      been cut, or there was nothing to cut. */
  ghost predicate Heeded<R>(s: System<R>, start: nat) {
    forall c: nat | start < c && Sustained(s.statuses, c) ::
      InFlight(s.handlers, c) || s.limiter.limit < s.initial || s.initial == 1
  }

  lemma {:induction false} EveryStreakIsHeeded<R>(states: seq<System<R>>, steps: seq<Step>, parallel: int,
                                                  run: nat -> R, i: nat)
    requires Execution(states, steps, parallel, run) && i < |states|
    ensures |states[0].statuses| <= |states[i].statuses| && Heeded(states[i], |states[0].statuses|)
  {
    if i == 0 {
    } else {
      EveryStreakIsHeeded(states, steps, parallel, run, i - 1);
      EveryStateIsSafe(states, steps, parallel, run, i - 1);
      assert Moves(states, steps, run, i - 1);
      HeededKept(states[i - 1], steps[i - 1], run, |states[0].statuses|);
    }
  }

  lemma StillInFlight(before: seq<Handler>, after: seq<Handler>, cause: nat, gone: nat)
    requires InFlight(before, cause) && gone < |before| && after == Without(before, gone) && before[gone].cause != cause
    ensures InFlight(after, cause)
  {
    var h :| 0 <= h < |before| && before[h].cause == cause;
    assert after[if h < gone then h else h - 1].cause == cause;
  }

  lemma HeededKept<R>(s: System<R>, step: Step, run: nat -> R, start: nat)
    requires Inv(s, run) && Enabled(s, step) && Heeded(s, start)
    ensures Heeded(Next(s, step, run), start)
  {
    var t := Next(s, step, run);
    HalvedDecreases(s.initial, 0, |s.limiter.events|);
    forall c: nat | start < c && Sustained(t.statuses, c)
      ensures InFlight(t.handlers, c) || t.limiter.limit < t.initial || t.initial == 1
    {
      if c > |s.statuses| {
        assert t.handlers[|t.handlers| - 1].cause == c;
      } else {
        assert Sustained(s.statuses, c);
        StreakHeededAfter(s, step, run, c);
      }
    }
  }

  lemma StreakHeededAfter<R>(s: System<R>, step: Step, run: nat -> R, c: nat)
    requires Inv(s, run) && Enabled(s, step) && Sustained(s.statuses, c)
    requires InFlight(s.handlers, c) || s.limiter.limit < s.initial || s.initial == 1
    ensures var t := Next(s, step, run); InFlight(t.handlers, c) || t.limiter.limit < t.initial || t.initial == 1
  {
    var t := Next(s, step, run);
    HalvedDecreases(s.initial, 0, |s.limiter.events|);
    if InFlight(s.handlers, c) {
      var h :| 0 <= h < |s.handlers| && s.handlers[h].cause == c;
      var gone := if step.ReadLimit? then step.h else if step.WriteLimit? then step.h else |s.handlers|;
      if gone == |s.handlers| || |t.handlers| == |s.handlers| {
        assert t.handlers[h].cause == c;
      } else if s.handlers[gone].cause != c {
        StillInFlight(s.handlers, t.handlers, c, gone);
      } else {
        SustainedStreak(s, gone, c);
        if step.WriteLimit? && s.limiter.limit == s.initial { UncutIsFresh(s, s.handlers[gone].cur); }
      }
    }
  }

  lemma SustainedStreak<R>(s: System<R>, h: nat, c: nat)
    requires h < |s.handlers| && s.handlers[h].cause == c && Sustained(s.statuses, c)
    requires TracesBack(s.handlers[h].streak, c, s.statuses)
    ensures s.handlers[h].streak >= SUSTAINED_STREAK
  {
    SustainedMeansThree(s.statuses[..c]);
  }

  /** While nothing has been cut, every ceiling read so far is the one in force. */
  lemma UncutIsFresh<R>(s: System<R>, cur: int)
    requires EventsChain(s.limiter, s.initial) && WasCeiling(s, cur) && s.limiter.limit == s.initial
    ensures cur == s.initial
  {
    var k := |s.limiter.events|;
    var j: nat :| j <= k && cur == Halved(s.initial, j);
    HalvedDecreases(s.initial, 0, j);
    HalvedDecreases(s.initial, j, k);
  }

  /** So no streak is ever ignored: once no handler is in flight, three 429s in a row during
      the batch have lowered the ceiling, unless it was one to begin with. */
  lemma NoStreakIsIgnored<R>(states: seq<System<R>>, steps: seq<Step>, parallel: int, run: nat -> R, i: nat, c: nat)
    requires Execution(states, steps, parallel, run) && i < |states| && states[i].handlers == []
    requires |states[0].statuses| < c && Sustained(states[i].statuses, c)
    ensures states[i].limiter.limit < InitialLimit(parallel) || InitialLimit(parallel) == 1
  {
    EveryStreakIsHeeded(states, steps, parallel, run, i);
    EveryStateIsSafe(states, steps, parallel, run, i);
  }

  /** No admission at or above the ceiling in force at that moment. */
  lemma AdmissionRespectsCeiling<R>(s: System<R>, w: nat, run: nat -> R)
    requires Inv(s, run) && Enabled(s, CheckLimit(w))
    ensures Next(s, CheckLimit(w), run).workers[w] == Running <==> s.limiter.active < s.limiter.limit
    ensures Next(s, CheckLimit(w), run).limiter.active <= s.initial
  {
    CheckKeeps(s, w, run);
  }

  /** No wakeup is ever lost: while anybody is unfinished some worker can move, and when
      nobody is active every waiter is awake and its next check admits it. */
  lemma NeverStuck<R>(states: seq<System<R>>, steps: seq<Step>, parallel: int, run: nat -> R, i: nat, w: nat)
    requires Execution(states, steps, parallel, run) && i < |states|
    requires w < |states[i].workers| && states[i].workers[w] != Finished
    ensures exists step: Step ::
      (step.CheckLimit? || step.StoreResult? || step.ReleaseSlot?) && Enabled(states[i], step)
    ensures states[i].limiter.active == 0 ==> states[i].workers[w] == Ready && Admits(states[i].limiter)
  {
    EveryStateIsSafe(states, steps, parallel, run, i);
    var s := states[i];
    if s.workers[w] == Asleep {
      SomeoneIsActive(s.workers);
      var v :| 0 <= v < |s.workers| && IsActive(s.workers[v]);
      assert Enabled(s, StoreResult(v)) || Enabled(s, ReleaseSlot(v));
    } else {
      assert Enabled(s, CheckLimit(w)) || Enabled(s, StoreResult(w)) || Enabled(s, ReleaseSlot(w));
      if IsActive(s.workers[w]) { ActiveIsCounted(s.workers, w); }
    }
  }

  lemma {:induction false} ActiveIsCounted(ws: seq<Worker>, w: nat)
    requires w < |ws| && IsActive(ws[w])
    ensures CountActive(ws) > 0
  {
    if w == 0 {
    } else {
      ActiveIsCounted(ws[1..], w - 1);
    }
  }

  // ---------- finishing ----------

  function Rank(w: Worker): nat {
    match w case Ready => 3 case Asleep => 3 case Running => 2 case Stored => 1 case Finished => 0
  }

  /** How many steps the workers have left when every admission succeeds. */
  function Remaining(ws: seq<Worker>): nat { if ws == [] then 0 else Rank(ws[0]) + Remaining(ws[1..]) }

  lemma {:induction false} RemainingUpdate(ws: seq<Worker>, i: nat, w: Worker)
    requires i < |ws|
    ensures Remaining(ws[i := w]) == Remaining(ws) - Rank(ws[i]) + Rank(w)
  {
    if i == 0 {
      assert ws[0 := w][1..] == ws[1..];
    } else {
      assert ws[i := w][1..] == ws[1..][i - 1 := w];
      RemainingUpdate(ws[1..], i - 1, w);
    }
  }

  lemma {:induction false} RemainingWake(ws: seq<Worker>)
    ensures Remaining(WakeAll(ws)) == Remaining(ws)
  {
    if ws == [] {
    } else {
      assert WakeAll(ws)[1..] == WakeAll(ws[1..]);
      RemainingWake(ws[1..]);
    }
  }

  predicate AllFinished(ws: seq<Worker>) { forall w :: 0 <= w < |ws| ==> ws[w] == Finished }

  /** Some step brings the workers closer to the end: an active one moves on, or with
      nobody active an unfinished one is awake and admitted. */
  lemma ProgressStep<R>(s: System<R>, run: nat -> R) returns (step: Step)
    requires Inv(s, run) && !AllFinished(s.workers)
    ensures Enabled(s, step) && Inv(Next(s, step, run), run)
    ensures Remaining(Next(s, step, run).workers) < Remaining(s.workers)
  {
    var ws := s.workers;
    if v :| 0 <= v < |ws| && IsActive(ws[v]) {
      if ws[v] == Running {
        step := StoreResult(v);
        StoreKeeps(s, v, run);
        RemainingUpdate(ws, v, Stored);
      } else {
        step := ReleaseSlot(v);
        ReleaseKeeps(s, v, run);
        RemainingUpdate(ws, v, Finished);
        RemainingWake(ws[v := Finished]);
      }
    } else {
      NobodyActive(ws);
      var w :| 0 <= w < |ws| && ws[w] != Finished;
      step := CheckLimit(w);
      CheckKeeps(s, w, run);
      RemainingUpdate(ws, w, Running);
    }
  }

  lemma {:induction false} CanFinish<R>(s: System<R>, run: nat -> R) returns (states: seq<System<R>>, steps: seq<Step>)
    requires Inv(s, run)
    ensures Steps(states, steps, run) && states[0] == s && AllFinished(states[|steps|].workers)
    decreases Remaining(s.workers)
  {
    if AllFinished(s.workers) {
      states, steps := [s], [];
    } else {
      var step := ProgressStep(s, run);
      var later, rest := CanFinish(Next(s, step, run), run);
      states, steps := [s] + later, [step] + rest;
      StepsCons(s, step, later, rest, run);
    }
  }

  lemma StepsCons<R>(s: System<R>, step: Step, later: seq<System<R>>, rest: seq<Step>, run: nat -> R)
    requires Enabled(s, step) && Steps(later, rest, run) && later[0] == Next(s, step, run)
    ensures Steps([s] + later, [step] + rest, run) && ([s] + later)[|rest| + 1] == later[|rest|]
  {
    var states, steps := [s] + later, [step] + rest;
    forall i | 0 <= i < |steps| ensures Moves(states, steps, run, i) {
      if i > 0 { assert Moves(later, rest, run, i - 1); }
    }
  }

  lemma StepsJoin<R>(states: seq<System<R>>, steps: seq<Step>, later: seq<System<R>>, rest: seq<Step>, run: nat -> R)
    requires Steps(states, steps, run) && Steps(later, rest, run) && states[|steps|] == later[0]
    ensures Steps(states + later[1..], steps + rest, run)
    ensures (states + later[1..])[|steps| + |rest|] == later[|rest|]
  {
    var n, all, moves := |steps|, states + later[1..], steps + rest;
    forall i | n <= i < |all| ensures all[i] == later[i - n] {
      if i > n { assert all[i] == later[1..][i - n - 1]; }
    }
    forall i | 0 <= i < |moves| ensures Moves(all, moves, run, i) {
      if i < n {
        assert Moves(states, steps, run, i) && all[i + 1] == states[i + 1];
      } else {
        assert Moves(later, rest, run, i - n) && all[i] == later[i - n] && all[i + 1] == later[i + 1 - n];
      }
    }
  }

  /** Wherever an execution stands, some continuation of it finishes every worker, with
      each target's result at its own index. */
  lemma EveryRunCanFinish<R>(states: seq<System<R>>, steps: seq<Step>, parallel: int, run: nat -> R)
      returns (states': seq<System<R>>, steps': seq<Step>)
    requires Execution(states, steps, parallel, run)
    ensures Execution(states', steps', parallel, run) && states <= states' && steps <= steps'
    ensures var last := states'[|steps'|];
      AllFinished(last.workers) && last.results == seq(|last.workers|, w requires 0 <= w < |last.workers| => run(w))
  {
    var n := |steps|;
    EveryStateIsSafe(states, steps, parallel, run, n);
    var later, rest := CanFinish(states[n], run);
    states', steps' := states + later[1..], steps + rest;
    StepsJoin(states, steps, later, rest, run);
    ResultsAreIndexed(states', steps', parallel, run, |steps'|);
  }

  /** When every worker is done, each target's result stands at its own input index,
      in whatever order they finished. */
  lemma ResultsAreIndexed<R>(states: seq<System<R>>, steps: seq<Step>, parallel: int, run: nat -> R, i: nat)
    requires Execution(states, steps, parallel, run) && i < |states|
    requires forall w :: 0 <= w < |states[i].workers| ==> states[i].workers[w] == Finished
    ensures states[i].results == seq(|states[i].workers|, w requires 0 <= w < |states[i].workers| => run(w))
  {
    EveryStateIsSafe(states, steps, parallel, run, i);
  }
}
