/** What every run of RunTests guarantees, whatever the cluster answers: the event burst
    is never overspent unnoticed, trust once lost stays lost, and no clear credit is
    dropped or settled twice. */
module RunSafety {
  import opened Json
  import opened Text
  import opened Manifest
  import opened ClearCredit
  import opened ClearCoverage
  import opened ClearGate
  import opened ClearTrigger
  import opened RunLoop
  import Compare
  import opened Patching

  predicate Tested(run: Run, i: nat)
    requires run.Valid() && i < |run.tests|
  { !run.tests[i].skip.Present() }

  /** Entry i's field test really patches. */
  predicate Patches(run: Run, i: nat)
    requires run.Valid() && i < |run.tests|
  { Tested(run, i) && !run.beats[i].outcome.noOp }

  /** A reset is attempted right before entry i. */
  predicate ResetsBefore(run: Run, i: nat)
    requires run.Valid() && i < |run.tests|
  { Tested(run, i) && MustReset(Before(run, i), run.beats[i], run.ceiling) }

  // ---------- the event burst ----------

  function PatchCount(run: Run, i: nat, j: nat): nat
    requires run.Valid() && i <= j <= |run.tests|
    decreases j
  { if i == j then 0 else PatchCount(run, i, j - 1) + (if Patches(run, j - 1) then 1 else 0) }

  lemma {:induction false} AttemptsBounded(run: Run, i: nat)
    requires run.Valid() && i <= |run.tests|
    ensures Before(run, i).attempts <= run.ceiling
  {
    if i == 0 {
    } else {
      AttemptsBounded(run, i - 1);
    }
  }

  lemma {:induction false} AttemptsCount(run: Run, i: nat, j: nat)
    requires run.Valid() && i <= j <= |run.tests|
    requires forall k :: i < k < j ==> !ResetsBefore(run, k)
    ensures PatchCount(run, i, j) <= Before(run, j).attempts
    decreases j
  {
    if i < j {
      AttemptsCount(run, i, j - 1);
      if i < j - 1 { assert !ResetsBefore(run, j - 1); }
    }
  }

  /** Over any stretch of entries with no reset attempt inside it, at most `ceiling`
      field tests patch. */
  lemma BurstIsBounded(run: Run, i: nat, j: nat)
    requires run.Valid() && i <= j <= |run.tests|
    requires forall k :: i < k < j ==> !ResetsBefore(run, k)
    ensures PatchCount(run, i, j) <= run.ceiling
  {
    AttemptsCount(run, i, j);
    AttemptsBounded(run, j);
  }

  /** Entry k's is the last reset attempt before entry i at which the events could be read. */
  ghost predicate LastReadableReset(run: Run, i: nat, k: nat)
    requires run.Valid() && i <= |run.tests|
  {
    && k < i && ResetsBefore(run, k) && run.beats[k].count.Some?
    && forall j: nat :: k < j < i ==> !(ResetsBefore(run, j) && run.beats[j].count.Some?)
  }

  ghost predicate NoReadableReset(run: Run, i: nat)
    requires run.Valid() && i <= |run.tests|
  { forall j: nat :: j < i ==> !(ResetsBefore(run, j) && run.beats[j].count.Some?) }

  lemma BaselineStep(run: Run, i: nat)
    requires run.Valid() && i < |run.tests|
    ensures Before(run, i + 1).baseline ==
            if ResetsBefore(run, i) && run.beats[i].count.Some? then run.beats[i].count else Before(run, i).baseline
  { }

  /** The baseline in force is the count read at the last readable reset attempt ... */
  lemma {:induction false} BaselineAfterReset(run: Run, i: nat, k: nat)
    requires run.Valid() && i <= |run.tests| && LastReadableReset(run, i, k)
    ensures Before(run, i).baseline == run.beats[k].count
    decreases i
  {
    BaselineStep(run, i - 1);
    if k < i - 1 { BaselineAfterReset(run, i - 1, k); }
  }

  /** ... or the one read before the run when there was none. */
  lemma {:induction false} BaselineFromStart(run: Run, i: nat)
    requires run.Valid() && i <= |run.tests| && NoReadableReset(run, i)
    ensures Before(run, i).baseline == run.preCount
  {
    if i == 0 {
    } else {
      BaselineStep(run, i - 1);
      BaselineFromStart(run, i - 1);
    }
  }

  /** Entry i's readable event count has grown by less than the ceiling since `since`. */
  predicate GrewLittle(run: Run, i: nat, since: Option<int>)
    requires run.Valid() && i < |run.tests|
  { run.beats[i].count.Some? && since.Some? ==> run.beats[i].count.value - since.value < run.ceiling }

  /** A field test that starts without a reset attempt right before it starts with less
      than the ceiling's growth since the last readable reset attempt, or since the run
      began when there was none; and none ever starts spent. */
  lemma NoTestStartsSpent(run: Run, i: nat)
    requires run.Valid() && i < |run.tests| && Tested(run, i)
    ensures !GrowthSpent(Prepare(Before(run, i), run.beats[i], run.ceiling), run.beats[i], run.ceiling)
    ensures !ResetsBefore(run, i) ==>
      && (forall k: nat | LastReadableReset(run, i, k) :: GrewLittle(run, i, run.beats[k].count))
      && (NoReadableReset(run, i) ==> GrewLittle(run, i, run.preCount))
  {
    forall k: nat | LastReadableReset(run, i, k) ensures Before(run, i).baseline == run.beats[k].count {
      BaselineAfterReset(run, i, k);
    }
    if NoReadableReset(run, i) { BaselineFromStart(run, i); }
  }

  // ---------- and never reset without cause ----------

  /** After a reset attempt, and from the start, the counter is exactly the number of field
      tests that patched since. */
  lemma {:induction false} AttemptsExact(run: Run, s: nat, i: nat)
    requires run.Valid() && s <= i <= |run.tests| && LastReset(run, s, i)
    ensures Before(run, i).attempts == PatchCount(run, s, i)
    decreases i
  {
    if s == i {
    } else if s + 1 == i {
      assert PatchCount(run, s, s) == 0;
      if s == 0 { assert Before(run, 0).attempts == 0; }
    } else {
      assert !ResetsBefore(run, i - 1);
      AttemptsExact(run, s, i - 1);
    }
  }

  /** Entry s's is the last reset attempt before entry i, or s is the start and there was
      none after it. */
  ghost predicate LastReset(run: Run, s: nat, i: nat)
    requires run.Valid() && s <= i <= |run.tests|
  {
    (s == 0 || (s < i && ResetsBefore(run, s))) && forall k :: s < k < i ==> !ResetsBefore(run, k)
  }

  lemma {:induction false} SomeReadableReset(run: Run, i: nat)
    requires run.Valid() && i <= |run.tests|
    ensures NoReadableReset(run, i) || exists k: nat :: LastReadableReset(run, i, k)
  {
    if i == 0 {
    } else {
      SomeReadableReset(run, i - 1);
      if ResetsBefore(run, i - 1) && run.beats[i - 1].count.Some? {
        assert LastReadableReset(run, i, i - 1);
      } else if !NoReadableReset(run, i - 1) {
        var k: nat :| LastReadableReset(run, i - 1, k);
        assert LastReadableReset(run, i, k);
      }
    }
  }

  /** The events have grown by the ceiling since the last readable reset attempt, or since
      the run began when there was none. */
  ghost predicate GrewEnough(run: Run, i: nat)
    requires run.Valid() && i < |run.tests|
  {
    || (exists k: nat :: LastReadableReset(run, i, k) && !GrewLittle(run, i, run.beats[k].count))
    || (NoReadableReset(run, i) && !GrewLittle(run, i, run.preCount))
  }

  /** A reset is attempted right before a tested entry exactly when the field tests that
      patched since the last attempt, or the growth in events, have used the ceiling up. */
  lemma ResetsExactlyWhenSpent(run: Run, s: nat, i: nat)
    requires run.Valid() && s <= i < |run.tests| && Tested(run, i) && LastReset(run, s, i)
    ensures ResetsBefore(run, i) <==> PatchCount(run, s, i) >= run.ceiling || GrewEnough(run, i)
  {
    AttemptsExact(run, s, i);
    SomeReadableReset(run, i);
    forall k: nat | LastReadableReset(run, i, k) ensures Before(run, i).baseline == run.beats[k].count {
      BaselineAfterReset(run, i, k);
    }
    if NoReadableReset(run, i) { BaselineFromStart(run, i); }
  }

  // ---------- trust ----------

  /** A reset was attempted and failed: before the loop, or right before entry i. */
  predicate PreResetFails(run: Run) { run.preCount.Some? && run.preCount.value >= run.ceiling && !run.preResetOk }

  predicate ResetFailsBefore(run: Run, i: nat)
    requires run.Valid() && i < |run.tests|
  { ResetsBefore(run, i) && !run.beats[i].resetOk }

  ghost predicate TrustLostBy(run: Run, i: nat)
    requires run.Valid() && i <= |run.tests|
  { PreResetFails(run) || exists k: nat :: k < i && ResetFailsBefore(run, k) }

  lemma {:induction false} FailureIsSticky(run: Run, i: nat)
    requires run.Valid() && i <= |run.tests|
    ensures Before(run, i).resetFailed <==> TrustLostBy(run, i)
  {
    if i == 0 {
    } else {
      FailureIsSticky(run, i - 1);
      if Before(run, i).resetFailed && !Before(run, i - 1).resetFailed { assert ResetFailsBefore(run, i - 1); }
    }
  }

  /** main.go's printResults: the one case it counts as passed. */
  predicate CountsAsPassed(r: TestResult) {
    !r.skipped && !r.noOp && !r.untrusted && !r.notEvidenced && !r.failed && r.passed
  }

  predicate CountsAsNoOp(r: TestResult) { !r.skipped && r.noOp }
  predicate CountsAsUntrusted(r: TestResult) { !r.skipped && !r.noOp && r.untrusted }
  predicate CountsAsUnevidenced(r: TestResult) { !r.skipped && !r.noOp && !r.untrusted && r.notEvidenced }

  datatype Summary = Summary(passed: nat, failed: nat, noop: nat, notEvidenced: nat, untrusted: nat)

  method PrintResults(results: seq<TestResult>) returns (s: Summary)
    ensures s.passed == |Select(results, CountsAsPassed)|
    ensures s.passed + s.failed == |Select(results, (r: TestResult) => !r.skipped)|
    ensures s.noop == |Select(results, CountsAsNoOp)|
    ensures s.untrusted == |Select(results, CountsAsUntrusted)|
    ensures s.notEvidenced == |Select(results, CountsAsUnevidenced)|
    ensures s.noop + s.notEvidenced + s.untrusted <= s.failed
  {
    var ran := (r: TestResult) => !r.skipped;
    s := Summary(0, 0, 0, 0, 0);
    for i := 0 to |results|
      invariant s.passed == |Select(results[..i], CountsAsPassed)|
      invariant s.passed + s.failed == |Select(results[..i], ran)|
      invariant s.noop + s.notEvidenced + s.untrusted <= s.failed
      invariant s.noop == |Select(results[..i], CountsAsNoOp)|
      invariant s.untrusted == |Select(results[..i], CountsAsUntrusted)|
      invariant s.notEvidenced == |Select(results[..i], CountsAsUnevidenced)|
    {
      var r := results[i];
      assert results[..i+1] == results[..i] + [r];
      SelectAppend(results[..i], r, CountsAsPassed);
      SelectAppend(results[..i], r, ran);
      SelectAppend(results[..i], r, CountsAsNoOp);
      SelectAppend(results[..i], r, CountsAsUntrusted);
      SelectAppend(results[..i], r, CountsAsUnevidenced);
      if r.skipped { continue; }
      if r.noOp {
        s := s.(failed := s.failed + 1, noop := s.noop + 1);
      } else if r.untrusted {
        s := s.(failed := s.failed + 1, untrusted := s.untrusted + 1);
      } else if r.notEvidenced {
        s := s.(failed := s.failed + 1, notEvidenced := s.notEvidenced + 1);
      } else if r.failed {
        s := s.(failed := s.failed + 1);
      } else if r.passed {
        s := s.(passed := s.passed + 1);
      } else {
        s := s.(failed := s.failed + 1);
      }
    }
    assert results[..|results|] == results;
  }

  lemma IterateAppends(l: Loop, t: UpdateTest, beat: Beat, run: Run)
    ensures |Iterate(l, t, beat, run).results| == |l.results| + 1
    ensures Iterate(l, t, beat, run).results[..|l.results|] == l.results
  { }

  /** Entry i's result is final as soon as the loop has passed it. */
  lemma {:induction false} ResultOf(run: Run, i: nat, j: nat)
    requires run.Valid() && i < j <= |run.tests|
    ensures Before(run, j).results[i] == Before(run, i + 1).results[i]
    decreases j
  {
    if i + 1 < j {
      ResultOf(run, i, j - 1);
      var l := Before(run, j - 1);
      IterateAppends(l, run.tests[j - 1], run.beats[j - 1], run);
      assert l.results[i] == Before(run, j).results[..j - 1][i];
    }
  }

  /** Once a reset has failed, before the loop or before any entry up to and including
      this one, a patched field is untrusted and can never be counted as passed. */
  lemma NothingPassesUntrusted(run: Run, i: nat)
    requires run.Valid() && i < |run.tests| && Patches(run, i)
    ensures var r := Before(run, |run.tests|).results[i];
      && (r.untrusted <==> TrustLostBy(run, i + 1))
      && (TrustLostBy(run, i + 1) ==> !CountsAsPassed(r))
  {
    ResultOf(run, i, |run.tests|);
    FailureIsSticky(run, i + 1);
  }

  /** The snapshot after entry i answered for every credit checked against it. */
  predicate AllRead(run: Run, i: nat)
    requires run.Valid() && i < |run.tests|
  { forall item | item in CheckedAt(run, i) :: run.beats[i].outcome.read(item.representative).Some? }

  /** What becomes of each entry, in terms of its own field test and of the resets before
      it. In particular it is counted as passed exactly when no reset has failed by then,
      its own outcome is a clean pass, and every credit checked after it could be read. */
  lemma ResultMeans(run: Run, i: nat)
    requires run.Valid() && i < |run.tests|
    ensures var r, o := Before(run, |run.tests|).results[i], run.beats[i].outcome;
      && r.field == run.tests[i].field
      && (r.skipped <==> !Tested(run, i))
      && (CountsAsNoOp(r) <==> Tested(run, i) && o.noOp)
      && (CountsAsUntrusted(r) <==> Patches(run, i) && TrustLostBy(run, i + 1))
      && (CountsAsUnevidenced(r) <==> Patches(run, i) && !TrustLostBy(run, i + 1) && o.notEvidenced)
      && (CountsAsPassed(r) <==>
            && Patches(run, i) && !TrustLostBy(run, i + 1)
            && o.passed && !o.failed && !o.notEvidenced && AllRead(run, i))
  {
    ResultOf(run, i, |run.tests|);
    FailureIsSticky(run, i + 1);
  }

  // ---------- clear credits ----------

  ghost predicate DistinctFields(tests: seq<UpdateTest>) {
    forall i, j :: 0 <= i < j < |tests| ==> tests[i].field != tests[j].field
  }

  /** The credits read against the snapshot taken right after entry i. */
  function CheckedAt(run: Run, i: nat): seq<Pending>
    requires run.Valid() && i < |run.tests|
  { if Patches(run, i) then Items(run.pending, run.tests[i].field) else [] }

  function AllViolations(run: Run, n: nat): seq<ClearAssertion>
    requires run.Valid() && n <= |run.tests|
  {
    if n == 0 then []
    else
      var i := n - 1;
      AllViolations(run, i) + Violations(CheckedAt(run, i), run.tests[i].field, run.beats[i].outcome.read)
  }

  lemma {:induction false} ViolationsAreTheChecks(run: Run, n: nat)
    requires run.Valid() && n <= |run.tests|
    ensures Before(run, n).violations == AllViolations(run, n)
  {
    if n == 0 {
    } else {
      ViolationsAreTheChecks(run, n - 1);
    }
  }

  /** Right after entry i the credit's representative still held this. */
  predicate StillHeld(run: Run, i: nat, v: ClearAssertion)
    requires run.Valid() && i < |run.tests|
  {
    && Patches(run, i) && run.tests[i].field == v.triggerField && v.item in Items(run.pending, v.triggerField)
    && run.beats[i].outcome.read(v.item.representative) == Some(v.observed)
    && v.observed != "" && v.observed != "[]" && v.observed != "{}"
  }

  lemma {:induction false} ViolationIn(items: seq<Pending>, field: string, read: string -> Option<string>,
                                       v: ClearAssertion)
    ensures v in Violations(items, field, read) <==>
      && v.triggerField == field && v.item in items && read(v.item.representative) == Some(v.observed)
      && v.observed != "" && v.observed != "[]" && v.observed != "{}"
  {
    if items == [] {
    } else {
      var n := |items| - 1;
      assert items == items[..n] + [items[n]];
      ViolationIn(items[..n], field, read, v);
    }
  }

  /** A violation is reported exactly when, right after some patched entry a credit is keyed
      to, its representative was read back as something that is not empty. */
  lemma {:induction false} ViolationMeans(run: Run, n: nat, v: ClearAssertion)
    requires run.Valid() && n <= |run.tests|
    ensures v in Before(run, n).violations <==> exists i: nat :: i < n && StillHeld(run, i, v)
  {
    if n == 0 {
    } else {
      ViolationMeans(run, n - 1, v);
      ViolationNext(run, n - 1, v);
    }
  }

  lemma ViolationNext(run: Run, i: nat, v: ClearAssertion)
    requires run.Valid() && i < |run.tests|
    ensures v in Before(run, i + 1).violations <==> v in Before(run, i).violations || StillHeld(run, i, v)
  {
    ViolationIn(Items(run.pending, run.tests[i].field), run.tests[i].field, run.beats[i].outcome.read, v);
  }

  /** readSnapshotField over a mirror. */
  function ReadBack(c: Compare.Codec, mirror: Json, path: string): Option<string> {
    match Compare.Navigate(mirror, Segments(path))
    case Broken => None
    case Missing => Some("")
    case Found(v) => Some(Compare.Stringify(c, v))
  }

  /** A backend whose mirror reports what the merge left is never accused: a credit keyed to
      an entry that empties its representative reads back as empty after it. */
  lemma HonestMirrorIsCleared(run: Run, c: Compare.Codec, i: nat, item: Pending, live: Json)
    requires run.Valid() && i < |run.tests| && EmptiesEverywhere(run.tests[i], item.representative)
    requires c.marshal(EMPTY_LIST) == "[]"
    requires var mirror := ForProviderOf(MergePatch(live, PatchOf(run.tests[i])));
      run.beats[i].outcome.read(item.representative) == ReadBack(c, mirror, item.representative)
    ensures forall v: ClearAssertion | v.item == item :: !StillHeld(run, i, v)
  {
    var merged := MergePatch(live, PatchOf(run.tests[i]));
    GetAppend(merged, FOR_PROVIDER, Segments(item.representative));
    Compare.NavigateIsGet(ForProviderOf(merged), Segments(item.representative));
  }

  lemma {:induction false} ConsumedAre(run: Run, n: nat, field: string)
    requires run.Valid() && n <= |run.tests|
    ensures field in Before(run, n).consumed <==>
      exists i: nat :: i < n && Patches(run, i) && run.tests[i].field == field
  {
    if n == 0 {
    } else {
      ConsumedAre(run, n - 1, field);
      if field in Before(run, n).consumed && field !in Before(run, n - 1).consumed { assert Patches(run, n - 1); }
    }
  }

  lemma {:induction false} ReasonIsFirst(field: string, results: seq<TestResult>, i: nat)
    requires i < |results| && results[i].field == field && forall j :: 0 <= j < i ==> results[j].field != field
    ensures ReasonFor(field, results) == if results[i].skipped then LenderSkipped else LenderNoOp
  {
    if i == 0 {
    } else {
      ReasonIsFirst(field, results[1..], i - 1);
    }
  }

  lemma ResultFields(run: Run, i: nat)
    requires run.Valid() && i < |run.tests|
    ensures var r := Before(run, |run.tests|).results[i];
      r.field == run.tests[i].field && (r.skipped <==> !Tested(run, i))
        && (r.noOp <==> Tested(run, i) && !Patches(run, i))
  {
    ResultOf(run, i, |run.tests|);
  }

  /** How often this credit is reported unproven for this reason at the end of the run. */
  function Reported(run: Run, item: Pending, field: string, reason: UnprovenReason): nat
    requires run.Valid()
  {
    var end := Before(run, |run.tests|);
    var u := Unproven(item, field, reason);
    UnprovenCount(u, run.pending, end.consumed, end.results) + multiset(WithoutTrigger(run.unresolved))[u]
  }

  /** A credit that has a trigger is never among those without one. */
  lemma TriggeredIsApart(run: Run, u: Unproven)
    requires u.reason != NoTrigger
    ensures multiset(WithoutTrigger(run.unresolved))[u] == 0
  {
    assert u !in WithoutTrigger(run.unresolved);
  }

  /** Conservation: a credit keyed to entry i is checked right after that entry's own
      test, and nowhere else, exactly when that test patched; otherwise it is reported as
      often as it is pending, with the reason matching the lender. Never both. */
  lemma CreditIsSettledOnce(run: Run, i: nat, item: Pending)
    requires run.Valid() && DistinctFields(run.tests) && i < |run.tests|
    requires run.tests[i].field in run.pending && item in run.pending[run.tests[i].field]
    ensures var field := run.tests[i].field;
      && (Patches(run, i) ==> CheckedAt(run, i) == run.pending[field])
      && (!Patches(run, i) ==> CheckedAt(run, i) == [])
      && Reported(run, item, field, LenderNoOp) ==
           (if Tested(run, i) && !Patches(run, i) then multiset(run.pending[field])[item] else 0)
      && Reported(run, item, field, LenderSkipped) ==
           (if !Tested(run, i) then multiset(run.pending[field])[item] else 0)
      && (forall j: nat :: j < |run.tests| && j != i ==> run.tests[j].field != field)
  {
    var field, end := run.tests[i].field, Before(run, |run.tests|);
    ConsumedAre(run, |run.tests|, field);
    forall j: nat | j < |run.tests| ensures end.results[j].field == run.tests[j].field { ResultFields(run, j); }
    ResultFields(run, i);
    ReasonIsFirst(field, end.results, i);
    TriggeredIsApart(run, Unproven(item, field, LenderNoOp));
    TriggeredIsApart(run, Unproven(item, field, LenderSkipped));
    if Patches(run, i) { assert field in end.consumed; }
  }

  // ---------- end to end, from the manifest's own reports ----------

  /** The credit is checked right after entry i's own test, or that test was a no-op and
      the credit is reported for that very reason. */
  ghost predicate SettledBy(run: Run, i: nat, item: Pending)
    requires run.Valid() && i < |run.tests|
  {
    var field := run.tests[i].field;
    && Tested(run, i)
    && (if Patches(run, i) then item in CheckedAt(run, i) && Reported(run, item, field, LenderNoOp) == 0
        else Reported(run, item, field, LenderNoOp) == 1)
    && Reported(run, item, field, LenderSkipped) == 0
  }

  /** Entry i's own comparison is the credit's proof: it tests the very leaf, and lends it
      the credit by the route named. */
  predicate TestsItself(run: Run, i: nat, leaf: ContainerLeaf, route: ClearRoute)
    requires run.Valid() && i < |run.tests|
  { Tested(run, i) && run.tests[i].field == leaf.path && Lends(run.tests[i], route, leaf) }

  ghost predicate SettledLive(run: Run, item: Pending)
    requires run.Valid()
  {
    exists i: nat ::
      i < |run.tests| && SettledBy(run, i, item) && EmptiesEverywhere(run.tests[i], item.representative)
  }

  ghost predicate TestedDirectly(run: Run, leaf: ContainerLeaf, route: ClearRoute)
    requires run.Valid()
  { exists i: nat :: i < |run.tests| && TestsItself(run, i, leaf, route) }

  /** For an accepted manifest with one entry per field and whatever the cluster does: every
      covered representative is a leaf whose lender tests that very leaf, or else its credit
      is checked right after a tested entry whose patch empties it, or reported unproven,
      once, because that entry was a no-op. A skipped lender is impossible. */
  lemma EveryCreditIsSettled(ctx: Input, run: Run, r: ClearCellReport)
    requires Accepted(ctx.tests) && ctx.Valid() && run.Valid() && run.tests == ctx.tests && DistinctFields(ctx.tests)
    requires forall field :: Items(run.pending, field) == PendingFor(Reports(Findings(ctx)), ctx.tests, field)
    requires r in Reports(Findings(ctx)) && r.covered
    ensures exists leaf ::
      && leaf in ctx.leaves && r.representative == Some(leaf.path) && r.route.Some?
      && (TestedDirectly(run, leaf, r.route.value) || SettledLive(run, Pending(leaf.path, r.route.value)))
  {
    var leaf := RepresentativeIsCredited(ctx, r);
    var route := r.route.value;
    var t := LenderExists(ctx.tests, leaf);
    assert EntryAccepted(t);
    UnassertedMeansElsewhere(t, route, leaf);
    if t.field == leaf.path {
      var i :| 0 <= i < |ctx.tests| && ctx.tests[i] == t;
      LenderIsTested(ctx.tests, t, route, leaf);
      assert TestsItself(run, i, leaf, route);
    } else {
      CreditIsSettledLive(ctx, run, r);
    }
  }

  /** A credit filed once under a tested entry's field is settled by that entry. */
  lemma FiledIsSettled(run: Run, i: nat, item: Pending)
    requires run.Valid() && DistinctFields(run.tests) && i < |run.tests| && Tested(run, i)
    requires multiset(Items(run.pending, run.tests[i].field))[item] == 1
    ensures SettledBy(run, i, item)
  {
    assert item in Items(run.pending, run.tests[i].field);
    CreditIsSettledOnce(run, i, item);
  }

  lemma CreditIsSettledLive(ctx: Input, run: Run, r: ClearCellReport)
    requires Accepted(ctx.tests) && ctx.Valid() && run.Valid() && run.tests == ctx.tests && DistinctFields(ctx.tests)
    requires forall field :: Items(run.pending, field) == PendingFor(Reports(Findings(ctx)), ctx.tests, field)
    requires r in Reports(Findings(ctx)) && r.covered && r.route.Some? && UnassertedRoute(r.route.value)
    ensures Awaits(r) && SettledLive(run, PendingOf(r))
  {
    var t := CreditIsFiledOnce(ctx, r);
    var i :| 0 <= i < |ctx.tests| && ctx.tests[i] == t;
    assert Items(run.pending, t.field) == PendingFor(Reports(Findings(ctx)), ctx.tests, t.field);
    FiledIsSettled(run, i, PendingOf(r));
  }
}
