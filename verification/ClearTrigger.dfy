/** Which field test each offline credit is checked after
    (internal/runner/clear_assert.go), and the proof that the attribution is total and
    names an entry whose own patch does the clearing. */
module ClearTrigger {
  import opened Json
  import opened Text
  import opened Manifest
  import opened Patching
  import opened ClearCredit
  import opened ClearCoverage
  import opened ClearGate

  datatype Pending = Pending(representative: string, route: ClearRoute)

  predicate UnassertedRoute(route: ClearRoute) {
    route == RouteSiblingClear || route == RouteSiblingWithValues || route == RouteAncestorTombstone
  }

  /** Entry t's lists account for a credit of this route on the representative. */
  predicate Matches(t: UpdateTest, representative: string, route: ClearRoute) {
    match route
    case RouteSiblingClear | RouteAncestorTombstone =>
      exists c | c in t.clear :: c == representative || IsAncestorOf(c, representative)
    case RouteSiblingWithValues => representative in t.withValues && t.withValues[representative] == EMPTY_LIST
    case RoutePerKeyNull | RouteSelfTombstone => false
  }

  /** Index of the first matching entry in manifest order. */
  function FirstMatch(representative: string, route: ClearRoute, tests: seq<UpdateTest>): (r: Option<nat>)
    ensures r.Some? ==> r.value < |tests| && Matches(tests[r.value], representative, route)
    ensures r.Some? ==> forall j :: 0 <= j < r.value ==> !Matches(tests[j], representative, route)
    ensures r.None? ==> forall t | t in tests :: !Matches(t, representative, route)
  {
    if tests == [] then None
    else if Matches(tests[0], representative, route) then Some(0)
    else
      var rest := FirstMatch(representative, route, tests[1..]);
      if rest.Some? then Some(rest.value + 1) else None
  }

  function TriggerOf(representative: string, route: ClearRoute, tests: seq<UpdateTest>): Option<string> {
    var i := FirstMatch(representative, route, tests);
    if i.Some? then Some(tests[i.value].field) else None
  }

  method TriggerFieldFor(representative: string, route: ClearRoute, tests: seq<UpdateTest>) returns (r: Option<string>)
    ensures r == TriggerOf(representative, route, tests)
  {
    for i := 0 to |tests|
      invariant TriggerOf(representative, route, tests[i..]) == TriggerOf(representative, route, tests)
    {
      var t := tests[i];
      assert tests[i..][1..] == tests[i+1..];
      if route == RouteSiblingClear || route == RouteAncestorTombstone {
        for j := 0 to |t.clear|
          invariant forall c | c in t.clear[..j] :: c != representative && !IsAncestorOf(c, representative)
        {
          if t.clear[j] == representative || IsAncestorOf(t.clear[j], representative) {
            assert t.clear[j] in t.clear;
            return Some(t.field);
          }
          assert t.clear[..j+1] == t.clear[..j] + [t.clear[j]];
        }
        assert t.clear[..|t.clear|] == t.clear;
      } else if route == RouteSiblingWithValues {
        if representative in t.withValues && t.withValues[representative] == EMPTY_LIST { return Some(t.field); }
      }
    }
    assert tests[|tests|..] == [];
    return None;
  }

  // ---------- unobservedClearCredits ----------

  predicate Awaits(r: ClearCellReport) {
    r.covered && r.representative.Some? && r.route.Some? && UnassertedRoute(r.route.value)
  }

  function PendingOf(r: ClearCellReport): Pending
    requires Awaits(r)
  { Pending(r.representative.value, r.route.value) }

  function ReportTrigger(r: ClearCellReport, tests: seq<UpdateTest>): Option<string>
    requires Awaits(r)
  { TriggerOf(r.representative.value, r.route.value, tests) }

  /** The credits to be checked after one field's test. */
  function PendingFor(reports: seq<ClearCellReport>, tests: seq<UpdateTest>, field: string): seq<Pending> {
    if reports == [] then []
    else
      var n, r := |reports| - 1, reports[|reports| - 1];
      PendingFor(reports[..n], tests, field) +
        (if Awaits(r) && ReportTrigger(r, tests) == Some(field) then [PendingOf(r)] else [])
  }

  /** The credits no entry could be matched to. */
  function Unresolved(reports: seq<ClearCellReport>, tests: seq<UpdateTest>): seq<Pending> {
    if reports == [] then []
    else
      var n, r := |reports| - 1, reports[|reports| - 1];
      Unresolved(reports[..n], tests) + (if Awaits(r) && ReportTrigger(r, tests).None? then [PendingOf(r)] else [])
  }

  function Items(pending: map<string, seq<Pending>>, field: string): seq<Pending> {
    if field in pending then pending[field] else []
  }

  lemma ItemsAfter(pending: map<string, seq<Pending>>, trigger: string, item: Pending)
    ensures var after := pending[trigger := Items(pending, trigger) + [item]];
      forall field :: Items(after, field) == Items(pending, field) + (if field == trigger then [item] else [])
  {
    forall field ensures Items(pending, field) + [] == Items(pending, field) { }
  }

  lemma PendingForNext(reports: seq<ClearCellReport>, tests: seq<UpdateTest>, i: nat, field: string)
    requires i < |reports|
    ensures var r := reports[i];
      PendingFor(reports[..i + 1], tests, field) == PendingFor(reports[..i], tests, field) +
        (if Awaits(r) && ReportTrigger(r, tests) == Some(field) then [PendingOf(r)] else [])
  {
    assert reports[..i + 1][..i] == reports[..i];
  }

  /** A report without a trigger adds to no field's credits. */
  lemma PendingUnchanged(pending: map<string, seq<Pending>>, reports: seq<ClearCellReport>, tests: seq<UpdateTest>,
                         i: nat)
    requires i < |reports| && FiledItems(pending, reports[..i], tests)
    requires Awaits(reports[i]) ==> ReportTrigger(reports[i], tests).None?
    ensures FiledItems(pending, reports[..i + 1], tests)
  {
    forall field ensures Items(pending, field) == PendingFor(reports[..i + 1], tests, field) {
      PendingForNext(reports, tests, i, field);
    }
  }

  ghost predicate IsField(tests: seq<UpdateTest>, field: string) { exists t | t in tests :: t.field == field }

  ghost predicate FiledItems(pending: map<string, seq<Pending>>, reports: seq<ClearCellReport>,
                             tests: seq<UpdateTest>)
  {
    forall field :: Items(pending, field) == PendingFor(reports, tests, field)
  }

  ghost predicate FiledFields(pending: map<string, seq<Pending>>, tests: seq<UpdateTest>) {
    forall field | field in pending :: pending[field] != [] && IsField(tests, field)
  }

  /** What the reports seen so far have been filed as. */
  ghost predicate Filed(pending: map<string, seq<Pending>>, unresolved: seq<Pending>, reports: seq<ClearCellReport>,
                        tests: seq<UpdateTest>)
  {
    FiledItems(pending, reports, tests) && FiledFields(pending, tests) && unresolved == Unresolved(reports, tests)
  }

  /** One report's own share of what is filed: nothing ... */
  lemma FiledNothing(pending: map<string, seq<Pending>>, unresolved: seq<Pending>, reports: seq<ClearCellReport>,
                     tests: seq<UpdateTest>, i: nat)
    requires i < |reports| && Filed(pending, unresolved, reports[..i], tests) && !Awaits(reports[i])
    ensures Filed(pending, unresolved, reports[..i + 1], tests)
  {
    PendingUnchanged(pending, reports, tests, i);
    UnresolvedNext(reports, tests, i);
  }

  /** ... an unresolved credit ... */
  lemma FiledUnresolved(pending: map<string, seq<Pending>>, unresolved: seq<Pending>, reports: seq<ClearCellReport>,
                        tests: seq<UpdateTest>, i: nat)
    requires i < |reports| && Filed(pending, unresolved, reports[..i], tests)
    requires Awaits(reports[i]) && ReportTrigger(reports[i], tests).None?
    ensures Filed(pending, unresolved + [PendingOf(reports[i])], reports[..i + 1], tests)
  {
    PendingUnchanged(pending, reports, tests, i);
    assert reports[..i + 1][..i] == reports[..i];
  }

  /** ... or one keyed to its trigger's field. */
  lemma FiledUnder(pending: map<string, seq<Pending>>, unresolved: seq<Pending>, reports: seq<ClearCellReport>,
                   tests: seq<UpdateTest>, i: nat, f0: string)
    requires i < |reports| && Filed(pending, unresolved, reports[..i], tests)
    requires Awaits(reports[i]) && ReportTrigger(reports[i], tests) == Some(f0)
    ensures Filed(pending[f0 := Items(pending, f0) + [PendingOf(reports[i])]], unresolved, reports[..i + 1], tests)
  {
    UnresolvedNext(reports, tests, i);
    ItemsUnder(pending, reports, tests, i, f0);
    FieldsUnder(pending, reports[i], tests, f0);
  }

  lemma UnresolvedNext(reports: seq<ClearCellReport>, tests: seq<UpdateTest>, i: nat)
    requires i < |reports| && !(Awaits(reports[i]) && ReportTrigger(reports[i], tests).None?)
    ensures Unresolved(reports[..i + 1], tests) == Unresolved(reports[..i], tests)
  {
    assert reports[..i + 1][..i] == reports[..i];
  }

  lemma ItemsUnder(pending: map<string, seq<Pending>>, reports: seq<ClearCellReport>, tests: seq<UpdateTest>,
                   i: nat, f0: string)
    requires i < |reports| && FiledItems(pending, reports[..i], tests)
    requires Awaits(reports[i]) && ReportTrigger(reports[i], tests) == Some(f0)
    ensures FiledItems(pending[f0 := Items(pending, f0) + [PendingOf(reports[i])]], reports[..i + 1], tests)
  {
    var item := PendingOf(reports[i]);
    ItemsAfter(pending, f0, item);
    forall field
      ensures PendingFor(reports[..i + 1], tests, field) == Items(pending, field) + (if field == f0 then [item] else [])
    {
      PendingForNext(reports, tests, i, field);
    }
  }

  lemma FieldsUnder(pending: map<string, seq<Pending>>, r: ClearCellReport, tests: seq<UpdateTest>, f0: string)
    requires FiledFields(pending, tests) && Awaits(r) && ReportTrigger(r, tests) == Some(f0)
    ensures FiledFields(pending[f0 := Items(pending, f0) + [PendingOf(r)]], tests)
  {
    var t := tests[FirstMatch(r.representative.value, r.route.value, tests).value];
    assert t in tests && t.field == f0;
  }

  method UnobservedClearCredits(reports: seq<ClearCellReport>, tests: seq<UpdateTest>)
    returns (pending: map<string, seq<Pending>>, unresolved: seq<Pending>)
    ensures forall field :: Items(pending, field) == PendingFor(reports, tests, field)
    ensures forall field | field in pending :: pending[field] != [] && exists t | t in tests :: t.field == field
    ensures unresolved == Unresolved(reports, tests)
  {
    pending, unresolved := map[], [];
    for i := 0 to |reports|
      invariant Filed(pending, unresolved, reports[..i], tests)
    {
      var r := reports[i];
      if !Awaits(r) { FiledNothing(pending, unresolved, reports, tests, i); }
      if r.covered && r.representative.Some? && r.route.Some? && UnassertedRoute(r.route.value) {
        var trigger := TriggerFieldFor(r.representative.value, r.route.value, tests);
        var item := Pending(r.representative.value, r.route.value);
        if trigger.None? {
          FiledUnresolved(pending, unresolved, reports, tests, i);
          unresolved := unresolved + [item];
        } else {
          FiledUnder(pending, unresolved, reports, tests, i, trigger.value);
          pending := pending[trigger.value := Items(pending, trigger.value) + [item]];
        }
      }
    }
    assert reports[..|reports|] == reports;
  }

  // ---------- attribution is total and right ----------

  /** Merged into any object, the entry's patch leaves the path absent or an empty list. */
  ghost predicate EmptiesEverywhere(t: UpdateTest, path: string) {
    forall target ::
      var after := Get(MergePatch(target, PatchOf(t)), FOR_PROVIDER + Segments(path));
      after.None? || after == Some(EMPTY_LIST)
  }

  lemma MatchEmpties(t: UpdateTest, representative: string, route: ClearRoute)
    requires EntryAccepted(t) && Matches(t, representative, route)
    ensures EmptiesEverywhere(t, representative)
  {
    forall target
      ensures var after := Get(MergePatch(target, PatchOf(t)), FOR_PROVIDER + Segments(representative));
        after.None? || after == Some(EMPTY_LIST)
    {
      var path := Segments(representative);
      PatchEffect(t, target, path);
      if route == RouteSiblingWithValues {
        UndottedSegment(representative);
      } else {
        var c :| c in t.clear && (c == representative || IsAncestorOf(c, representative));
        UndottedSegment(c);
        if c != representative { AncestorTestsAgree(c, representative); }
      }
    }
  }

  /** The routes no field test asserts by itself are exactly those whose lender tests
      another field than the leaf: a credit goes unchecked only when its lender's own
      comparison already covers it. */
  lemma UnassertedMeansElsewhere(t: UpdateTest, route: ClearRoute, leaf: ContainerLeaf)
    requires EntryAccepted(t) && Lends(t, route, leaf)
    ensures UnassertedRoute(route) <==> t.field != leaf.path
  {
    if route == RouteAncestorTombstone {
      var c :| c in t.clear && IsAncestorOf(c, leaf.path);
      DescendantsAreDotted(c, leaf.path);
    }
  }

  /** Every leaf credited on a route the runner does not assert itself has a matching
      entry, and the first one found is a tested entry that empties the leaf. */
  lemma CreditHasTrigger(tests: seq<UpdateTest>, leaf: ContainerLeaf)
    requires Accepted(tests)
    requires CoverageFor(leaf, IndexOf(tests)).Some? && UnassertedRoute(CoverageFor(leaf, IndexOf(tests)).value)
    ensures var i := FirstMatch(leaf.path, CoverageFor(leaf, IndexOf(tests)).value, tests);
      i.Some? && !tests[i.value].skip.Present() && EmptiesEverywhere(tests[i.value], leaf.path)
  {
    var route := CoverageFor(leaf, IndexOf(tests)).value;
    var lender := LenderExists(tests, leaf);
    assert Matches(lender, leaf.path, route);
    var t := tests[FirstMatch(leaf.path, route, tests).value];
    MatchEmpties(t, leaf.path, route);
    assert t in tests && t.CarriesTestedContent();
  }

  ghost function Findings(ctx: Input): (fs: seq<Finding>)
    ensures |fs| == |ctx.leaves|
    ensures forall i :: 0 <= i < |fs| ==> fs[i].path == ctx.leaves[i].path
  {
    seq(|ctx.leaves|, i requires 0 <= i < |ctx.leaves| => FindingFor(ctx, ctx.leaves[i]))
  }

  /** A covered report's representative is a leaf credited by the route it names. */
  lemma RepresentativeIsCredited(ctx: Input, r: ClearCellReport) returns (leaf: ContainerLeaf)
    requires r in Reports(Findings(ctx)) && r.covered
    ensures leaf in ctx.leaves && r.representative == Some(leaf.path) && r.route.Some? && Credit(ctx, leaf) == r.route
  {
    var fs := Findings(ctx);
    var f := RepresentativeFinding(fs, r);
    var j :| 0 <= j < |fs| && fs[j] == f;
    leaf := ctx.leaves[j];
  }

  /** For the reports of the manifest's own tests: every covered representative on an
      unasserted route is keyed to a tested entry whose patch itself empties it. */
  lemma AttributionIsTotalAndRight(ctx: Input, r: ClearCellReport)
    requires Accepted(ctx.tests) && r in Reports(Findings(ctx))
    requires r.covered && r.route.Some? && UnassertedRoute(r.route.value)
    ensures Awaits(r)
    ensures exists t :: t in ctx.tests && !t.skip.Present() && ReportTrigger(r, ctx.tests) == Some(t.field)
              && EmptiesEverywhere(t, r.representative.value)
  {
    var leaf := RepresentativeIsCredited(ctx, r);
    CreditHasTrigger(ctx.tests, leaf);
    var t := ctx.tests[FirstMatch(leaf.path, r.route.value, ctx.tests).value];
    assert t in ctx.tests;
  }

  lemma FindingsIdentified(ctx: Input)
    requires ctx.Valid()
    ensures KeysIdentify(Findings(ctx), PathOf)
  {
    PathsIdentify(Findings(ctx));
  }

  lemma PathsIdentify(fs: seq<Finding>)
    requires forall i, j :: 0 <= i < j < |fs| ==> fs[i].path != fs[j].path
    ensures KeysIdentify(fs, PathOf)
  {
    forall f, g | f in fs && g in fs && PathOf(f) == PathOf(g) ensures f == g {
      var m :| 0 <= m < |fs| && fs[m] == f;
      var n :| 0 <= n < |fs| && fs[n] == g;
    }
  }

  lemma {:induction false} FiledNever(reports: seq<ClearCellReport>, tests: seq<UpdateTest>, field: string,
                                      item: Pending)
    requires forall r | r in reports && r.covered :: r.representative != Some(item.representative)
    ensures item !in PendingFor(reports, tests, field)
  {
    if reports == [] {
    } else {
      var n := |reports| - 1;
      assert reports == reports[..n] + [reports[n]];
      FiledNever(reports[..n], tests, field, item);
    }
  }

  lemma {:induction false} FiledOnce(reports: seq<ClearCellReport>, tests: seq<UpdateTest>, field: string, i: nat)
    requires i < |reports| && Awaits(reports[i]) && ReportTrigger(reports[i], tests) == Some(field)
    requires forall j | 0 <= j < |reports| && j != i && reports[j].covered ::
      reports[j].representative != reports[i].representative
    ensures multiset(PendingFor(reports, tests, field))[PendingOf(reports[i])] == 1
  {
    var n, item := |reports| - 1, PendingOf(reports[i]);
    assert reports == reports[..n] + [reports[n]];
    if i == n {
      FiledNever(reports[..n], tests, field, item);
    } else {
      FiledOnce(reports[..n], tests, field, i);
      assert reports[n].covered ==> reports[n].representative != reports[i].representative;
    }
  }

  /** A covered report's credit is filed exactly once, under the field of a tested entry
      that empties its representative. */
  lemma CreditIsFiledOnce(ctx: Input, r: ClearCellReport) returns (t: UpdateTest)
    requires Accepted(ctx.tests) && ctx.Valid() && r in Reports(Findings(ctx))
    requires r.covered && r.route.Some? && UnassertedRoute(r.route.value)
    ensures Awaits(r) && t in ctx.tests && !t.skip.Present() && EmptiesEverywhere(t, r.representative.value)
    ensures multiset(PendingFor(Reports(Findings(ctx)), ctx.tests, t.field))[PendingOf(r)] == 1
  {
    AttributionIsTotalAndRight(ctx, r);
    t :|
      && t in ctx.tests && !t.skip.Present()
      && ReportTrigger(r, ctx.tests) == Some(t.field) && EmptiesEverywhere(t, r.representative.value);
    FindingsIdentified(ctx);
    FiledOnceAmong(Findings(ctx), ctx.tests, r, t.field);
  }

  lemma FiledOnceAmong(fs: seq<Finding>, tests: seq<UpdateTest>, r: ClearCellReport, field: string)
    requires KeysIdentify(fs, PathOf) && r in Reports(fs) && Awaits(r) && ReportTrigger(r, tests) == Some(field)
    ensures multiset(PendingFor(Reports(fs), tests, field))[PendingOf(r)] == 1
  {
    var reports := Reports(fs);
    var i :| 0 <= i < |reports| && reports[i] == r;
    forall j | 0 <= j < |reports| && j != i && reports[j].covered
      ensures reports[j].representative != reports[i].representative
    {
      RepresentativesDiffer(fs, i, j);
    }
    FiledOnce(reports, tests, field, i);
  }

  /** So no credit is ever reported as having no resolvable trigger. */
  lemma NothingUnresolved(ctx: Input)
    requires Accepted(ctx.tests)
    ensures Unresolved(Reports(Findings(ctx)), ctx.tests) == []
  {
    var reports := Reports(Findings(ctx));
    forall r | r in reports && Awaits(r) ensures ReportTrigger(r, ctx.tests).Some? {
      AttributionIsTotalAndRight(ctx, r);
    }
    UnresolvedIsUntriggered(reports, ctx.tests);
  }

  lemma {:induction false} UnresolvedIsUntriggered(reports: seq<ClearCellReport>, tests: seq<UpdateTest>)
    requires forall r | r in reports && Awaits(r) :: ReportTrigger(r, tests).Some?
    ensures Unresolved(reports, tests) == []
  {
    if reports == [] {
    } else {
      assert reports == reports[..|reports| - 1] + [reports[|reports| - 1]];
      UnresolvedIsUntriggered(reports[..|reports| - 1], tests);
    }
  }
}
