/** ContainerClearCoverage (internal/roundtrip/containerclear.go) over the
    ineligibility verdicts of internal/roundtrip/ineligible.go: each declared container
    leaf becomes covered, uncovered or ineligible, or the whole run is refused. */
module ClearCoverage {
  import opened Json
  import opened Text
  import opened Manifest
  import opened Cells
  import opened ClearCredit
  import Presence

  datatype EmptyRoute = RouteOpen | RouteClosed | RouteConditionallyClosed

  /** What the schema walks say about one leaf, in classifyIneligibility's terms. */
  datatype SchemaFacts = SchemaFacts(
    referenceShape: bool, immutable: bool, requiredByCEL: bool, emptyRoute: EmptyRoute)

  datatype Reason =
    | ReferenceResolution | RequiredByCELMap | CELImmutable | ListRequiredByCEL
    | ListNeverEmpty | ListConditionallyEmpty | AbsentFromManifest

  datatype Finding = Finding(
    path: string, shape: Shape, covered: bool, ineligible: bool, reason: Option<Reason>,
    disposition: Disposition, route: Option<ClearRoute>, contradiction: bool)

  /** One call's inputs, the schema walks having succeeded. */
  datatype Input = Input(
    leaves: seq<ContainerLeaf>, facts: ContainerLeaf -> SchemaFacts, tests: seq<UpdateTest>, forProvider: Json)
  {
    /** Each path names one leaf (SchemaWalks.DeclaredLeavesAreDistinctLeaves). */
    ghost predicate Valid() {
      forall i, j :: 0 <= i < j < |leaves| ==> leaves[i].path != leaves[j].path
    }
  }

  function DepthOf(path: string): Depth { if '.' in path then DepthNested else DepthTop }

  function ClearCell(shape: Shape, path: string): CellKey {
    CellKey(NotApplicable, shape, DirectionClear, DepthOf(path))
  }

  // ---------- classifyIneligibility ----------

  /** The hard reasons: some admission rule rejects every clear of the leaf. */
  function StructuralReason(leaf: ContainerLeaf, f: SchemaFacts): Option<Reason> {
    if f.referenceShape then Some(ReferenceResolution)
    else if f.immutable then Some(CELImmutable)
    else if f.requiredByCEL && leaf.shape == ShapeMap then Some(RequiredByCELMap)
    else if f.requiredByCEL && leaf.shape == ShapeList && f.emptyRoute != RouteOpen then Some(ListRequiredByCEL)
    else None
  }

  /** The soft reasons: only a list's empty-list route is closed. */
  function MarkerReason(leaf: ContainerLeaf, f: SchemaFacts): Option<Reason> {
    if StructuralReason(leaf, f).Some? || leaf.shape != ShapeList then None
    else match f.emptyRoute
      case RouteOpen => None
      case RouteConditionallyClosed => Some(ListConditionallyEmpty)
      case RouteClosed => Some(ListNeverEmpty)
  }

  ghost predicate Tabulates(m: map<string, Reason>, leaves: seq<ContainerLeaf>,
                            reason: ContainerLeaf -> Option<Reason>) {
    && (forall p | p in m :: exists leaf :: leaf in leaves && leaf.path == p && reason(leaf) == Some(m[p]))
    && (forall leaf | leaf in leaves && reason(leaf).Some? :: leaf.path in m)
  }

  method ClassifyIneligibility(ctx: Input) returns (structural: map<string, Reason>, markerOnly: map<string, Reason>)
    requires ctx.Valid()
    ensures Tabulates(structural, ctx.leaves, l => StructuralReason(l, ctx.facts(l)))
    ensures Tabulates(markerOnly, ctx.leaves, l => MarkerReason(l, ctx.facts(l)))
  {
    structural, markerOnly := map[], map[];
    var leaves := ctx.leaves;
    for i := 0 to |leaves|
      invariant forall p | p in structural ::
        exists j :: 0 <= j < i && leaves[j].path == p
          && StructuralReason(leaves[j], ctx.facts(leaves[j])) == Some(structural[p])
      invariant forall p | p in markerOnly ::
        exists j :: 0 <= j < i && leaves[j].path == p
          && MarkerReason(leaves[j], ctx.facts(leaves[j])) == Some(markerOnly[p])
      invariant forall j :: 0 <= j < i && StructuralReason(leaves[j], ctx.facts(leaves[j])).Some? ==>
        leaves[j].path in structural
      invariant forall j :: 0 <= j < i && MarkerReason(leaves[j], ctx.facts(leaves[j])).Some? ==>
        leaves[j].path in markerOnly
    {
      var leaf := leaves[i];
      var f := ctx.facts(leaf);
      if f.referenceShape {
        structural := structural[leaf.path := ReferenceResolution];
      } else if f.immutable {
        structural := structural[leaf.path := CELImmutable];
      } else if f.requiredByCEL && leaf.shape == ShapeMap {
        structural := structural[leaf.path := RequiredByCELMap];
      } else if leaf.shape == ShapeList && f.emptyRoute != RouteOpen {
        if f.requiredByCEL {
          structural := structural[leaf.path := ListRequiredByCEL];
        } else if f.emptyRoute == RouteConditionallyClosed {
          markerOnly := markerOnly[leaf.path := ListConditionallyEmpty];
        } else {
          markerOnly := markerOnly[leaf.path := ListNeverEmpty];
        }
      }
    }
  }

  // ---------- the verdict, leaf by leaf ----------

  function Structural(ctx: Input, leaf: ContainerLeaf): Option<Reason> { StructuralReason(leaf, ctx.facts(leaf)) }

  function Credit(ctx: Input, leaf: ContainerLeaf): Option<ClearRoute> { CoverageFor(leaf, IndexOf(ctx.tests)) }

  /** Cells with a credited member that is not structurally ineligible. */
  function CoveredCells(ctx: Input): set<CellKey> {
    set leaf | leaf in ctx.leaves && Structural(ctx, leaf).None? && Credit(ctx, leaf).Some? ::
      ClearCell(leaf.shape, leaf.path)
  }

  /** No value for the leaf in the manifest nor in any tested entry. */
  predicate Absent(ctx: Input, leaf: ContainerLeaf) {
    && !Presence.PresentAt(ctx.forProvider, Segments(leaf.path))
    && !Presence.PresentAt(Presence.TestDataTree(ctx.tests), Segments(leaf.path))
  }

  function Ineligibility(ctx: Input, leaf: ContainerLeaf): Option<Reason> {
    if Structural(ctx, leaf).Some? then Structural(ctx, leaf)
    else if ClearCell(leaf.shape, leaf.path) in CoveredCells(ctx) then None
    else if MarkerReason(leaf, ctx.facts(leaf)).Some? then MarkerReason(leaf, ctx.facts(leaf))
    else if Absent(ctx, leaf) then Some(AbsentFromManifest)
    else None
  }

  function DispositionFor(ctx: Input, leaf: ContainerLeaf): Disposition {
    var self := LastByField(ctx.tests);
    if leaf.path in self then self[leaf.path].EffectiveDisposition() else NoDisposition
  }

  function FindingFor(ctx: Input, leaf: ContainerLeaf): Finding {
    var reason, credit, disp := Ineligibility(ctx, leaf), Credit(ctx, leaf), DispositionFor(ctx, leaf);
    if reason.Some? then Finding(leaf.path, leaf.shape, false, true, reason, NoDisposition, None, false)
    else if credit.Some? && disp == BackendDiscards then
      Finding(leaf.path, leaf.shape, false, false, None, NoDisposition, None, true)
    else if credit.Some? then Finding(leaf.path, leaf.shape, true, false, None, NoDisposition, credit, false)
    else Finding(leaf.path, leaf.shape, false, false, None, disp, None, false)
  }

  /** A leaf an admission rule guards, yet credited: the predicate and the manifest
      disagree. Reference resolution carries no rule, so it never counts. */
  predicate HardConflict(ctx: Input, leaf: ContainerLeaf) {
    var s := Structural(ctx, leaf);
    s.Some? && s.value != ReferenceResolution && Credit(ctx, leaf).Some?
  }

  /** A credited leaf that is not structurally ineligible covers its own cell, so no
      reason that yields to coverage can ever attach to it. */
  lemma CreditedStaysEligible(ctx: Input, leaf: ContainerLeaf)
    requires leaf in ctx.leaves && Structural(ctx, leaf).None? && Credit(ctx, leaf).Some?
    ensures Ineligibility(ctx, leaf).None?
  {
    assert ClearCell(leaf.shape, leaf.path) in CoveredCells(ctx);
  }

  /** Coverage is never withdrawn by a soft reason: one credited, not structurally
      ineligible leaf keeps every structurally clean leaf of its cell eligible. */
  lemma CellmatesStayEligible(ctx: Input, credited: ContainerLeaf, mate: ContainerLeaf)
    requires credited in ctx.leaves && Structural(ctx, credited).None? && Credit(ctx, credited).Some?
    requires mate.shape == credited.shape && DepthOf(mate.path) == DepthOf(credited.path)
    ensures Ineligibility(ctx, mate).None? <==> Structural(ctx, mate).None?
  {
    CreditedStaysEligible(ctx, credited);
    assert ClearCell(mate.shape, mate.path) in CoveredCells(ctx);
  }

  /** The code's own refusal test (credited, and ineligible for any reason but the two
      exempt ones) is a disagreement with a hard schema reason and nothing else. */
  lemma RefusalIsHardConflict(ctx: Input, leaf: ContainerLeaf)
    requires leaf in ctx.leaves
    ensures (Ineligibility(ctx, leaf).Some? && Ineligibility(ctx, leaf).value != ReferenceResolution
             && Ineligibility(ctx, leaf).value != AbsentFromManifest && Credit(ctx, leaf).Some?)
            <==> HardConflict(ctx, leaf)
  {
    if Structural(ctx, leaf).None? && Credit(ctx, leaf).Some? { CreditedStaysEligible(ctx, leaf); }
  }

  // ---------- the loop ----------

  lemma PathIdentifiesLeaf(ctx: Input, a: ContainerLeaf, b: ContainerLeaf)
    requires ctx.Valid() && a in ctx.leaves && b in ctx.leaves && a.path == b.path
    ensures a == b
  {
    var i :| 0 <= i < |ctx.leaves| && ctx.leaves[i] == a;
    var j :| 0 <= j < |ctx.leaves| && ctx.leaves[j] == b;
  }

  lemma TabulatedReason(ctx: Input, m: map<string, Reason>, reason: ContainerLeaf -> Option<Reason>,
                        leaf: ContainerLeaf)
    requires ctx.Valid() && leaf in ctx.leaves && Tabulates(m, ctx.leaves, reason)
    ensures leaf.path in m <==> reason(leaf).Some?
    ensures leaf.path in m ==> reason(leaf) == Some(m[leaf.path])
  {
    if leaf.path in m {
      var l :| l in ctx.leaves && l.path == leaf.path && reason(l) == Some(m[leaf.path]);
      PathIdentifiesLeaf(ctx, l, leaf);
    }
  }

  function Lookup(m: map<string, Reason>, p: string): Option<Reason> { if p in m then Some(m[p]) else None }

  method CoverCells(ctx: Input, structural: map<string, Reason>, ix: ClearIndex) returns (cellCovered: set<CellKey>)
    requires ix == IndexOf(ctx.tests)
    requires forall leaf | leaf in ctx.leaves :: leaf.path in structural <==> Structural(ctx, leaf).Some?
    ensures cellCovered == CoveredCells(ctx)
  {
    var leaves := ctx.leaves;
    cellCovered := {};
    for i := 0 to |leaves|
      invariant cellCovered == CoveredCells(ctx.(leaves := leaves[..i]))
    {
      var leaf := leaves[i];
      assert leaves[..i+1] == leaves[..i] + [leaf];
      assert leaf in leaves;
      if leaf.path !in structural && CoverageFor(leaf, ix).Some? {
        cellCovered := cellCovered + {ClearCell(leaf.shape, leaf.path)};
      }
    }
    assert leaves[..|leaves|] == leaves && ctx.(leaves := leaves) == ctx;
  }

  function WithMarker(structural: map<string, Reason>, markerOnly: map<string, Reason>, cellCovered: set<CellKey>,
                      p: string): Option<Reason> {
    if p in markerOnly && ClearCell(ShapeList, p) !in cellCovered then Some(markerOnly[p]) else Lookup(structural, p)
  }

  function WithAbsent(ctx: Input, settled: map<string, Reason>, cellCovered: set<CellKey>,
                      leaf: ContainerLeaf): Option<Reason> {
    if leaf.path !in settled && ClearCell(leaf.shape, leaf.path) !in cellCovered && Absent(ctx, leaf)
    then Some(AbsentFromManifest) else Lookup(settled, leaf.path)
  }

  /** markerOnly reasons survive only where their list cell is uncovered. */
  method AddMarkers(structural: map<string, Reason>, markerOnly: map<string, Reason>, cellCovered: set<CellKey>)
    returns (ineligible: map<string, Reason>)
    ensures forall p :: Lookup(ineligible, p) == WithMarker(structural, markerOnly, cellCovered, p)
  {
    ineligible := structural;
    var rest := markerOnly.Keys;
    ghost var done: map<string, Reason> := map[];
    while rest != {}
      invariant rest <= markerOnly.Keys && done.Keys == markerOnly.Keys - rest
      invariant forall p | p in done :: done[p] == markerOnly[p]
      invariant forall p :: Lookup(ineligible, p) == WithMarker(structural, done, cellCovered, p)
    {
      var p :| p in rest;
      ghost var before := ineligible;
      if ClearCell(ShapeList, p) !in cellCovered { ineligible := ineligible[p := markerOnly[p]]; }
      forall q ensures Lookup(ineligible, q) == WithMarker(structural, done[p := markerOnly[p]], cellCovered, q) {
        assert Lookup(before, q) == WithMarker(structural, done, cellCovered, q);
      }
      rest := rest - {p};
      done := done[p := markerOnly[p]];
    }
    assert done == markerOnly;
  }

  /** classifyAbsentFromManifest, folded into the reasons settled so far. */
  method AddAbsent(ctx: Input, settled: map<string, Reason>, cellCovered: set<CellKey>)
    returns (ineligible: map<string, Reason>)
    requires ctx.Valid()
    ensures forall leaf | leaf in ctx.leaves ::
      Lookup(ineligible, leaf.path) == WithAbsent(ctx, settled, cellCovered, leaf)
  {
    var leaves := ctx.leaves;
    ineligible := settled;
    var testData := Presence.TestDataTree(ctx.tests);
    for i := 0 to |leaves|
      invariant forall j :: 0 <= j < i ==>
        Lookup(ineligible, leaves[j].path) == WithAbsent(ctx, settled, cellCovered, leaves[j])
      invariant forall j :: i <= j < |leaves| ==> Lookup(ineligible, leaves[j].path) == Lookup(settled, leaves[j].path)
    {
      var leaf := leaves[i];
      if leaf.path !in settled && ClearCell(leaf.shape, leaf.path) !in cellCovered
         && !Presence.PresentAt(ctx.forProvider, Segments(leaf.path))
              && !Presence.PresentAt(testData, Segments(leaf.path))
      {
        ineligible := ineligible[leaf.path := AbsentFromManifest];
      }
    }
  }

  method Reconcile(ctx: Input, ix: ClearIndex) returns (ineligible: map<string, Reason>)
    requires ctx.Valid() && ix == IndexOf(ctx.tests)
    ensures forall leaf | leaf in ctx.leaves :: Lookup(ineligible, leaf.path) == Ineligibility(ctx, leaf)
  {
    var structural, markerOnly := ClassifyIneligibility(ctx);
    forall leaf | leaf in ctx.leaves
      ensures Lookup(structural, leaf.path) == Structural(ctx, leaf)
      ensures Lookup(markerOnly, leaf.path) == MarkerReason(leaf, ctx.facts(leaf))
    {
      TabulatedReason(ctx, structural, l => StructuralReason(l, ctx.facts(l)), leaf);
      TabulatedReason(ctx, markerOnly, l => MarkerReason(l, ctx.facts(l)), leaf);
    }
    var cellCovered := CoverCells(ctx, structural, ix);
    var settled := AddMarkers(structural, markerOnly, cellCovered);
    ineligible := AddAbsent(ctx, settled, cellCovered);
    forall leaf | leaf in ctx.leaves ensures Lookup(ineligible, leaf.path) == Ineligibility(ctx, leaf) {
      assert Lookup(settled, leaf.path) == WithMarker(structural, markerOnly, cellCovered, leaf.path);
      assert MarkerReason(leaf, ctx.facts(leaf)).Some? ==> leaf.shape == ShapeList;
    }
  }

  /** Every structurally clean leaf sharing a (shape, depth) cell with a credited,
      structurally clean one comes out eligible. */
  ghost predicate KeepsCellmates(ctx: Input, fs: seq<Finding>)
    requires |fs| == |ctx.leaves|
  {
    forall i, k | 0 <= i < |fs| && 0 <= k < |fs| && SharesCell(ctx, ctx.leaves[k], ctx.leaves[i]) :: !fs[i].ineligible
  }

  predicate SharesCell(ctx: Input, credited: ContainerLeaf, mate: ContainerLeaf) {
    && Structural(ctx, credited).None? && Credit(ctx, credited).Some?
    && Structural(ctx, mate).None? && ClearCell(mate.shape, mate.path) == ClearCell(credited.shape, credited.path)
  }

  lemma CellmatesAreKept(ctx: Input, fs: seq<Finding>)
    requires fs == seq(|ctx.leaves|, i requires 0 <= i < |ctx.leaves| => FindingFor(ctx, ctx.leaves[i]))
    ensures KeepsCellmates(ctx, fs)
  {
    forall i, k | 0 <= i < |fs| && 0 <= k < |fs| && SharesCell(ctx, ctx.leaves[k], ctx.leaves[i])
      ensures !fs[i].ineligible
    {
      CellmatesStayEligible(ctx, ctx.leaves[k], ctx.leaves[i]);
    }
  }

  /** ContainerClearCoverage: refused exactly when some leaf is in hard conflict,
      otherwise one finding per leaf in order. */
  method ContainerClearCoverage(ctx: Input) returns (r: Result<seq<Finding>, string>)
    requires ctx.Valid()
    ensures r.Err? <==> exists leaf :: leaf in ctx.leaves && HardConflict(ctx, leaf)
    ensures r.Ok? ==> r.value == seq(|ctx.leaves|, i requires 0 <= i < |ctx.leaves| => FindingFor(ctx, ctx.leaves[i]))
    ensures r.Ok? ==> KeepsCellmates(ctx, r.value)
  {
    var ix := BuildIndex(ctx.tests);
    var ineligible := Reconcile(ctx, ix);
    var findings: seq<Finding> := [];
    for i := 0 to |ctx.leaves|
      invariant findings == seq(i, j requires 0 <= j < i => FindingFor(ctx, ctx.leaves[j]))
      invariant forall j :: 0 <= j < i ==> !HardConflict(ctx, ctx.leaves[j])
    {
      var leaf := ctx.leaves[i];
      assert leaf in ctx.leaves && Lookup(ineligible, leaf.path) == Ineligibility(ctx, leaf);
      RefusalIsHardConflict(ctx, leaf);
      var credit := CoverageFor(leaf, ix);
      if leaf.path !in ineligible {
        var disp :=
          if leaf.path in ix.selfByField then ix.selfByField[leaf.path].EffectiveDisposition() else NoDisposition;
        var finding := Finding(leaf.path, leaf.shape, credit.Some?, false, None, NoDisposition, credit, false);
        if credit.Some? && disp == BackendDiscards {
          finding := finding.(covered := false, route := None, contradiction := true);
        } else if credit.None? {
          finding := finding.(disposition := disp);
        }
        findings := findings + [finding];
      } else {
        var reason := ineligible[leaf.path];
        if reason != ReferenceResolution && reason != AbsentFromManifest && credit.Some? {
          return Err(leaf.path);
        }
        findings := findings + [Finding(leaf.path, leaf.shape, false, true, Some(reason), NoDisposition, None, false)];
      }
    }
    CellmatesAreKept(ctx, findings);
    return Ok(findings);
  }
}
