/** RunTests (internal/runner/runner.go) as a state machine over an arbitrary cluster:
    event counts that may be unreadable, resets that may fail, field tests with any
    outcome and snapshots with any contents. */
module RunLoop {
  import opened Json
  import opened Text
  import opened Manifest
  import opened ClearCredit
  import opened ClearTrigger

  // ---------- the cluster ----------

  /** What runFieldTest and the snapshot after it report. `read` is readSnapshotField's
      value for a path, None when reading fails. */
  datatype Outcome = Outcome(noOp: bool, passed: bool, notEvidenced: bool, failed: bool, read: string -> Option<string>)

  /** The cluster's answers around one field test: the event count just before it, whether
      a reset then would succeed, and the test itself. */
  datatype Beat = Beat(count: Option<int>, resetOk: bool, outcome: Outcome)

  datatype TestResult = TestResult(
    field: string, skipped: bool, noOp: bool, passed: bool, notEvidenced: bool, failed: bool, untrusted: bool)

  datatype ClearAssertion = ClearAssertion(item: Pending, triggerField: string, observed: string)

  datatype UnprovenReason = LenderSkipped | LenderNoOp | NoTrigger

  datatype Unproven = Unproven(item: Pending, triggerField: string, reason: UnprovenReason)

  const DEFAULT_CEILING := 20

  /** Any unset, zero or negative override falls back to the default. */
  function EventBurstCeiling(burstCeiling: int): (r: int)
    ensures r > 0 && (burstCeiling > 0 ==> r == burstCeiling) && (burstCeiling <= 0 ==> r == 20)
  { if burstCeiling > 0 then burstCeiling else DEFAULT_CEILING }

  // ---------- the loop's state ----------

  datatype Loop = Loop(
    attempts: nat,
    baseline: Option<int>,
    resetFailed: bool,
    results: seq<TestResult>,
    violations: seq<ClearAssertion>,
    consumed: set<string>)

  datatype Run = Run(
    tests: seq<UpdateTest>, pending: map<string, seq<Pending>>, unresolved: seq<Pending>, ceiling: int,
    preCount: Option<int>, preResetOk: bool, beats: seq<Beat>)
  {
    predicate Valid() { ceiling > 0 && |beats| == |tests| }
  }

  function Start(run: Run): Loop {
    var failed := run.preCount.Some? && run.preCount.value >= run.ceiling && !run.preResetOk;
    Loop(0, run.preCount, failed, [], [], {})
  }

  predicate GrowthSpent(l: Loop, beat: Beat, ceiling: int) {
    beat.count.Some? && l.baseline.Some? && beat.count.value - l.baseline.value >= ceiling
  }

  predicate MustReset(l: Loop, beat: Beat, ceiling: int) { l.attempts >= ceiling || GrowthSpent(l, beat, ceiling) }

  /** The burst check in front of a field test. */
  function Prepare(l: Loop, beat: Beat, ceiling: int): Loop {
    if MustReset(l, beat, ceiling) then
      l.(attempts := 0,
         resetFailed := l.resetFailed || !beat.resetOk,
         baseline := if beat.count.Some? then beat.count else l.baseline)
    else l
  }

  predicate Cleared(s: string) { s == "" || s == "[]" || s == "{}" }

  /** checkClearAssertions' violations, in order; an unreadable item yields none. */
  function Violations(items: seq<Pending>, field: string, read: string -> Option<string>): seq<ClearAssertion> {
    if items == [] then []
    else
      var n, item := |items| - 1, items[|items| - 1];
      var v := read(item.representative);
      Violations(items[..n], field, read) +
        (if v.Some? && !Cleared(v.value) then [ClearAssertion(item, field, v.value)] else [])
  }

  predicate SomeUnreadable(items: seq<Pending>, read: string -> Option<string>) {
    exists item | item in items :: read(item.representative).None?
  }

  function Conclude(l: Loop, t: UpdateTest, o: Outcome, pending: map<string, seq<Pending>>): Loop {
    var items := Items(pending, t.field);
    if o.noOp then
      l.(results := l.results + [TestResult(t.field, false, true, o.passed, o.notEvidenced, o.failed, false)])
    else
      var failed := o.failed || SomeUnreadable(items, o.read);
      l.(attempts := l.attempts + 1,
         results := l.results + [TestResult(t.field, false, false, o.passed, o.notEvidenced, failed, l.resetFailed)],
         violations := l.violations + Violations(items, t.field, o.read),
         consumed := l.consumed + {t.field})
  }

  function Iterate(l: Loop, t: UpdateTest, beat: Beat, run: Run): Loop {
    if t.skip.Present() then l.(results := l.results + [TestResult(t.field, true, false, false, false, false, false)])
    else Conclude(Prepare(l, beat, run.ceiling), t, beat.outcome, run.pending)
  }

  /** The state in front of entry i. */
  function Before(run: Run, i: nat): (l: Loop)
    requires run.Valid() && i <= |run.tests|
    ensures |l.results| == i
  {
    if i == 0 then Start(run) else Iterate(Before(run, i - 1), run.tests[i - 1], run.beats[i - 1], run)
  }

  // ---------- the code ----------

  method CheckClearAssertions(read: string -> Option<string>, pending: map<string, seq<Pending>>, afterField: string)
    returns (out: seq<ClearAssertion>, err: bool)
    ensures out == Violations(Items(pending, afterField), afterField, read)
    ensures err == SomeUnreadable(Items(pending, afterField), read)
  {
    var items := Items(pending, afterField);
    out, err := [], false;
    for i := 0 to |items|
      invariant out == Violations(items[..i], afterField, read)
      invariant err == SomeUnreadable(items[..i], read)
    {
      assert items[..i+1] == items[..i] + [items[i]] && items[..i+1][..i] == items[..i];
      var cur := read(items[i].representative);
      if cur.None? {
        err := true;
        continue;
      }
      if !Cleared(cur.value) { out := out + [ClearAssertion(items[i], afterField, cur.value)]; }
    }
    assert items[..|items|] == items;
  }

  function ReasonFor(field: string, results: seq<TestResult>): UnprovenReason {
    if results == [] then LenderNoOp
    else if results[0].field == field then (if results[0].skipped then LenderSkipped else LenderNoOp)
    else ReasonFor(field, results[1..])
  }

  method UnprovenReasonForField(field: string, results: seq<TestResult>) returns (r: UnprovenReason)
    ensures r == ReasonFor(field, results)
  {
    for i := 0 to |results|
      invariant ReasonFor(field, results[i..]) == ReasonFor(field, results)
    {
      assert results[i..][1..] == results[i+1..];
      if results[i].field != field { continue; }
      if results[i].skipped { return LenderSkipped; }
      return LenderNoOp;
    }
    return LenderNoOp;
  }

  /** The credits unobservedClearCredits could key to no entry, reported from the start. */
  function WithoutTrigger(items: seq<Pending>): (r: seq<Unproven>)
    ensures |r| == |items|
    ensures forall i :: 0 <= i < |items| ==> r[i].item == items[i]
    ensures forall u | u in r :: u.reason == NoTrigger && u.triggerField == ""
  { seq(|items|, i requires 0 <= i < |items| => Unproven(items[i], "", NoTrigger)) }

  /** How often a credit is reported unproven when `settled` fields are left out. */
  function UnprovenCount(u: Unproven, pending: map<string, seq<Pending>>, settled: set<string>,
                         results: seq<TestResult>): nat {
    if u.triggerField in pending && u.triggerField !in settled && u.reason == ReasonFor(u.triggerField, results)
    then multiset(pending[u.triggerField])[u.item] else 0
  }

  /** The settled credits are left out, every other pending one is there as often as it is
      pending, and so are those without a trigger. */
  predicate ReportsOnce(u: Unproven, unproven: seq<Unproven>, run: Run, settled: set<string>,
                        results: seq<TestResult>)
  {
    multiset(unproven)[u] == UnprovenCount(u, run.pending, settled, results) +
      multiset(WithoutTrigger(run.unresolved))[u]
  }

  ghost predicate ReportsExactly(unproven: seq<Unproven>, run: Run, settled: set<string>, results: seq<TestResult>) {
    forall u :: ReportsOnce(u, unproven, run, settled, results)
  }

  /** The burst check: reset when this run's own attempts or the growth in events since
      the last baseline have used the ceiling up. */
  method ResetIfSpent(beat: Beat, ceiling: int, attemptsSinceReset: nat, eventBaseline: Option<int>,
                      resetFailed: bool, ghost l: Loop)
    returns (attempts: nat, baseline: Option<int>, failed: bool)
    requires l.attempts == attemptsSinceReset && l.baseline == eventBaseline && l.resetFailed == resetFailed
    ensures Prepare(l, beat, ceiling) == l.(attempts := attempts, baseline := baseline, resetFailed := failed)
  {
    attempts, baseline, failed := attemptsSinceReset, eventBaseline, resetFailed;
    var shouldReset := attempts >= ceiling;
    if beat.count.Some? && baseline.Some? && beat.count.value - baseline.value >= ceiling { shouldReset := true; }
    if shouldReset {
      if !beat.resetOk { failed := true; }
      attempts := 0;
      if beat.count.Some? { baseline := beat.count; }
    }
  }

  method RunTests(run: Run) returns (results: seq<TestResult>, violations: seq<ClearAssertion>, unproven: seq<Unproven>)
    requires run.Valid()
    ensures var end := Before(run, |run.tests|);
      && results == end.results && violations == end.violations
      && ReportsExactly(unproven, run, end.consumed, end.results)
  {
    results, violations := [], [];
    var consumedClear: set<string> := {};
    var attemptsSinceReset: nat, eventBaseline, resetFailed := 0, run.preCount, false;
    if run.preCount.Some? {
      if run.preCount.value >= run.ceiling {
        if !run.preResetOk { resetFailed := true; }
      }
    }
    for i := 0 to |run.tests|
      invariant Before(run, i) ==
        Loop(attemptsSinceReset, eventBaseline, resetFailed, results, violations, consumedClear)
    {
      var t, beat := run.tests[i], run.beats[i];
      if t.skip.Present() {
        results := results + [TestResult(t.field, true, false, false, false, false, false)];
        continue;
      }
      attemptsSinceReset, eventBaseline, resetFailed :=
        ResetIfSpent(beat, run.ceiling, attemptsSinceReset, eventBaseline, resetFailed, Before(run, i));
      var o := beat.outcome;
      var result := TestResult(t.field, false, o.noOp, o.passed, o.notEvidenced, o.failed, false);
      if resetFailed && !result.noOp { result := result.(untrusted := true); }
      if !result.noOp {
        attemptsSinceReset := attemptsSinceReset + 1;
        var found, err := CheckClearAssertions(o.read, run.pending, t.field);
        if err && !result.failed { result := result.(failed := true); }
        violations := violations + found;
        consumedClear := consumedClear + {t.field};
      }
      results := results + [result];
    }
    unproven := CollectUnproven(run, results, consumedClear);
  }

  method CollectUnproven(run: Run, results: seq<TestResult>, consumed: set<string>) returns (unproven: seq<Unproven>)
    ensures ReportsExactly(unproven, run, consumed, results)
  {
    unproven := WithoutTrigger(run.unresolved);
    var rest := run.pending.Keys;
    while rest != {}
      invariant rest <= run.pending.Keys
      invariant ReportsExactly(unproven, run, consumed + rest, results)
    {
      var field :| field in rest;
      ghost var earlier := rest;
      rest := rest - {field};
      if field in consumed {
        assert consumed + rest == consumed + earlier;
        continue;
      }
      var reason := UnprovenReasonForField(field, results);
      var items := run.pending[field];
      ghost var before := unproven;
      for i := 0 to |items|
        invariant forall u :: multiset(unproven)[u] == multiset(before)[u] + Added(u, field, reason, items[..i])
      {
        assert items[..i+1] == items[..i] + [items[i]];
        unproven := unproven + [Unproven(items[i], field, reason)];
      }
      assert items[..|items|] == items;
      forall u ensures ReportsOnce(u, unproven, run, consumed + rest, results) {
        assert ReportsOnce(u, before, run, consumed + earlier, results);
      }
    }
    assert consumed + rest == consumed;
  }

  function Added(u: Unproven, field: string, reason: UnprovenReason, items: seq<Pending>): nat {
    if u.triggerField == field && u.reason == reason then multiset(items)[u.item] else 0
  }
}
