/** From the manifest to the gate in one piece: the coverage, the cell reports and the
    printed verdict of internal/roundtrip/containerclear.go one after the other, and what
    the verdict says of the manifest's own leaves and entries. */
module ClearVerdict {
  import opened Json
  import opened Text
  import opened Manifest
  import opened Cells
  import opened ClearCredit
  import opened ClearCoverage
  import opened ClearGate
  import opened ClearTrigger
  import Presence

  // ---------- one leaf, in the manifest's and the schema's own terms ----------

  predicate CreditedLeaf(ctx: Input, leaf: ContainerLeaf) { CoverageFor(leaf, IndexOf(ctx.tests)).Some? }

  /** An admission rule, or the resolution of references, leaves no way to clear the leaf. */
  predicate HardReason(ctx: Input, leaf: ContainerLeaf) {
    var f := ctx.facts(leaf);
    || f.referenceShape || f.immutable
    || (f.requiredByCEL && (leaf.shape == ShapeMap || (leaf.shape == ShapeList && f.emptyRoute != RouteOpen)))
  }

  /** The same shape and, both top-level or both nested, the same depth. */
  predicate SameCell(a: ContainerLeaf, b: ContainerLeaf) {
    a.shape == b.shape && ('.' in a.path <==> '.' in b.path)
  }

  /** Some leaf of the cell is credited and clean. */
  ghost predicate Shielded(ctx: Input, leaf: ContainerLeaf) {
    exists c :: c in ctx.leaves && SameCell(c, leaf) && !HardReason(ctx, c) && CreditedLeaf(ctx, c)
  }

  /** A list whose empty-list route is closed, or a leaf no value of the manifest reaches. */
  predicate SoftReason(ctx: Input, leaf: ContainerLeaf) {
    || (leaf.shape == ShapeList && ctx.facts(leaf).emptyRoute != RouteOpen)
    || (Get(ctx.forProvider, Segments(leaf.path)).None?
        && Get(Presence.TestDataTree(ctx.tests), Segments(leaf.path)).None?)
  }

  ghost predicate OutOfCount(ctx: Input, leaf: ContainerLeaf) {
    HardReason(ctx, leaf) || (!Shielded(ctx, leaf) && SoftReason(ctx, leaf))
  }

  /** The entry's own disposition or, when it is skipped without one, the skip's. */
  predicate Declares(t: UpdateTest, d: Disposition) {
    if t.disposition != NoDisposition then t.disposition == d else t.skip.Present() && t.skip.disposition == d
  }

  /** The last entry for the leaf's own field declares this disposition. */
  ghost predicate LastDeclares(ctx: Input, leaf: ContainerLeaf, d: Disposition) {
    exists i: nat :: LastEntryAt(ctx.tests, leaf.path, i) && Declares(ctx.tests[i], d)
  }

  ghost predicate Dispositioned(ctx: Input, leaf: ContainerLeaf) {
    exists d :: d != NoDisposition && LastDeclares(ctx, leaf, d)
  }

  /** Credited although its own entry says no route can ever show it. */
  ghost predicate Contradicts(ctx: Input, leaf: ContainerLeaf) {
    !HardReason(ctx, leaf) && CreditedLeaf(ctx, leaf) && LastDeclares(ctx, leaf, BackendDiscards)
  }

  ghost predicate GenuinelyCovered(ctx: Input, leaf: ContainerLeaf) {
    !HardReason(ctx, leaf) && CreditedLeaf(ctx, leaf) && !LastDeclares(ctx, leaf, BackendDiscards)
  }

  // ---------- what its finding says ----------

  lemma HardExactly(ctx: Input, leaf: ContainerLeaf)
    ensures Structural(ctx, leaf).Some? <==> HardReason(ctx, leaf)
  { }

  lemma CellExactly(a: ContainerLeaf, b: ContainerLeaf)
    ensures ClearCell(a.shape, a.path) == ClearCell(b.shape, b.path) <==> SameCell(a, b)
  { }

  lemma ShieldExactly(ctx: Input, leaf: ContainerLeaf)
    ensures ClearCell(leaf.shape, leaf.path) in CoveredCells(ctx) <==> Shielded(ctx, leaf)
  {
    forall c: ContainerLeaf
      ensures ClearCell(c.shape, c.path) == ClearCell(leaf.shape, leaf.path) <==> SameCell(c, leaf)
    {
      CellExactly(c, leaf);
    }
    forall c ensures Structural(ctx, c).Some? <==> HardReason(ctx, c) { HardExactly(ctx, c); }
  }

  lemma IneligibleExactly(ctx: Input, leaf: ContainerLeaf)
    ensures Ineligibility(ctx, leaf).Some? <==> OutOfCount(ctx, leaf)
  {
    HardExactly(ctx, leaf);
    ShieldExactly(ctx, leaf);
  }

  lemma DispositionExactly(ctx: Input, leaf: ContainerLeaf, d: Disposition)
    requires d != NoDisposition
    ensures DispositionFor(ctx, leaf) == d <==> LastDeclares(ctx, leaf, d)
  {
    LastByFieldMeans(ctx.tests, leaf.path);
  }

  lemma DispositionedExactly(ctx: Input, leaf: ContainerLeaf)
    ensures DispositionFor(ctx, leaf) != NoDisposition <==> Dispositioned(ctx, leaf)
  {
    forall d | d != NoDisposition ensures DispositionFor(ctx, leaf) == d <==> LastDeclares(ctx, leaf, d) {
      DispositionExactly(ctx, leaf, d);
    }
    var own := DispositionFor(ctx, leaf);
    assert own != NoDisposition ==> LastDeclares(ctx, leaf, own);
  }

  /** One finding in the terms of its leaf, without the functions that computed it. */
  ghost predicate Speaks(ctx: Input, f: Finding, leaf: ContainerLeaf) {
    && f.path == leaf.path && f.shape == leaf.shape
    && (f.ineligible <==> OutOfCount(ctx, leaf))
    && (Contradictory(f) <==> Contradicts(ctx, leaf))
    && (Credited(f) <==> GenuinelyCovered(ctx, leaf))
    && (!f.ineligible && !Contradictory(f) && !Credited(f) ==>
          (f.disposition != NoDisposition <==> Dispositioned(ctx, leaf)))
  }

  /** Each leaf's finding: out of the count, contradictory, covered or left open exactly as
      the leaf is, and a leaf left open carries its entry's disposition. */
  lemma FindingMeans(ctx: Input, i: nat)
    requires i < |ctx.leaves|
    ensures Speaks(ctx, Findings(ctx)[i], ctx.leaves[i])
  {
    var leaf := ctx.leaves[i];
    IneligibleExactly(ctx, leaf);
    HardExactly(ctx, leaf);
    DispositionExactly(ctx, leaf, BackendDiscards);
    DispositionedExactly(ctx, leaf);
    if Structural(ctx, leaf).None? && Credit(ctx, leaf).Some? { CreditedStaysEligible(ctx, leaf); }
  }

  /** Why a leaf is out of the count: the first hard reason its schema gives, else how its
      list route is closed, else that no value of the manifest reaches it. */
  lemma ReasonMeans(ctx: Input, i: nat)
    requires i < |ctx.leaves| && Findings(ctx)[i].ineligible
    ensures var leaf, reason := ctx.leaves[i], Findings(ctx)[i].reason;
      var f := ctx.facts(leaf);
      var list := leaf.shape == ShapeList;
      && (f.referenceShape <==> reason == Some(ReferenceResolution))
      && (!f.referenceShape && f.immutable <==> reason == Some(CELImmutable))
      && (HardReason(ctx, leaf) && !f.referenceShape && !f.immutable ==>
            reason == Some(if list then ListRequiredByCEL else RequiredByCELMap))
      && (reason == Some(ListNeverEmpty) <==> !HardReason(ctx, leaf) && list && f.emptyRoute == RouteClosed)
      && (reason == Some(ListConditionallyEmpty) <==>
            !HardReason(ctx, leaf) && list && f.emptyRoute == RouteConditionallyClosed)
      && (reason == Some(AbsentFromManifest) <==> !HardReason(ctx, leaf) && !(list && f.emptyRoute != RouteOpen))
  {
    HardExactly(ctx, ctx.leaves[i]);
  }

  // ---------- the gate, leaf by leaf ----------

  /** The leaf's cell needs nothing more: nothing in it can be cleared, or something in it
      really is, or every member still in the count is dispositioned. */
  ghost predicate Accounted(ctx: Input, leaf: ContainerLeaf) {
    || (forall m | m in ctx.leaves && SameCell(m, leaf) :: OutOfCount(ctx, m))
    || (exists m :: m in ctx.leaves && SameCell(m, leaf) && GenuinelyCovered(ctx, m))
    || (forall m | m in ctx.leaves && SameCell(m, leaf) && !OutOfCount(ctx, m) :: Dispositioned(ctx, m))
  }

  ghost predicate EveryLeafAccounted(ctx: Input) { forall leaf | leaf in ctx.leaves :: Accounted(ctx, leaf) }

  /** What the gate asks of a manifest. */
  ghost predicate GateHolds(ctx: Input) {
    (forall leaf | leaf in ctx.leaves :: !Contradicts(ctx, leaf)) && EveryLeafAccounted(ctx)
  }

  ghost predicate SpeakInOrder(ctx: Input, fs: seq<Finding>) {
    |fs| == |ctx.leaves| && forall i :: 0 <= i < |fs| ==> Speaks(ctx, fs[i], ctx.leaves[i])
  }

  lemma FindingsSpeak(ctx: Input)
    ensures SpeakInOrder(ctx, Findings(ctx))
  {
    var fs := Findings(ctx);
    forall i | 0 <= i < |fs| ensures Speaks(ctx, fs[i], ctx.leaves[i]) { FindingMeans(ctx, i); }
  }

  /** The findings of a cell are those of its leaves. */
  lemma CellMembers(ctx: Input, fs: seq<Finding>, i: nat)
    requires SpeakInOrder(ctx, fs) && i < |fs|
    ensures forall f | f in InCell(fs, CellOf(fs[i])) ::
      exists m :: m in ctx.leaves && SameCell(m, ctx.leaves[i]) && Speaks(ctx, f, m)
    ensures forall m | m in ctx.leaves && SameCell(m, ctx.leaves[i]) ::
      exists f :: f in InCell(fs, CellOf(fs[i])) && Speaks(ctx, f, m)
  {
    var key := CellOf(fs[i]);
    forall f ensures f in InCell(fs, key) <==> f in fs && CellOf(f) == key {
      SelectMembers(fs, g => CellOf(g) == key, f);
    }
    forall f | f in InCell(fs, key)
      ensures exists m :: m in ctx.leaves && SameCell(m, ctx.leaves[i]) && Speaks(ctx, f, m)
    {
      var j :| 0 <= j < |fs| && fs[j] == f;
      CellExactly(ctx.leaves[j], ctx.leaves[i]);
      assert ctx.leaves[j] in ctx.leaves && Speaks(ctx, f, ctx.leaves[j]);
    }
    forall m | m in ctx.leaves && SameCell(m, ctx.leaves[i])
      ensures exists f :: f in InCell(fs, key) && Speaks(ctx, f, m)
    {
      var j :| 0 <= j < |fs| && ctx.leaves[j] == m;
      CellExactly(m, ctx.leaves[i]);
      assert fs[j] in fs && Speaks(ctx, fs[j], m);
    }
  }

  lemma CellPassesExactly(ctx: Input, fs: seq<Finding>, i: nat)
    requires SpeakInOrder(ctx, fs) && i < |fs| && forall f | f in InCell(fs, CellOf(fs[i])) :: !Contradictory(f)
    ensures CellPasses(InCell(fs, CellOf(fs[i]))) <==> Accounted(ctx, ctx.leaves[i])
  {
    CellMembers(ctx, fs, i);
  }

  lemma NoneContradicts(ctx: Input, fs: seq<Finding>)
    requires SpeakInOrder(ctx, fs)
    ensures (forall f | f in fs :: !Contradictory(f)) <==> (forall leaf | leaf in ctx.leaves :: !Contradicts(ctx, leaf))
  {
    forall i | 0 <= i < |fs| ensures fs[i] in fs && ctx.leaves[i] in ctx.leaves { }
    forall leaf | leaf in ctx.leaves ensures Contradicts(ctx, leaf) ==> exists f :: f in fs && Contradictory(f) {
      var i :| 0 <= i < |fs| && ctx.leaves[i] == leaf;
      assert Speaks(ctx, fs[i], leaf);
    }
    forall f | f in fs
      ensures Contradictory(f) ==> exists leaf :: leaf in ctx.leaves && Contradicts(ctx, leaf)
    {
      var i :| 0 <= i < |fs| && fs[i] == f;
      assert Speaks(ctx, fs[i], ctx.leaves[i]);
    }
  }

  lemma CellPassesAt(ctx: Input, fs: seq<Finding>, i: nat)
    requires SpeakInOrder(ctx, fs) && i < |fs| && forall f | f in fs :: !Contradictory(f)
    ensures CellPasses(InCell(fs, CellOf(fs[i]))) <==> Accounted(ctx, ctx.leaves[i])
  {
    var key := CellOf(fs[i]);
    forall f ensures f in InCell(fs, key) ==> f in fs { SelectMembers(fs, g => CellOf(g) == key, f); }
    CellPassesExactly(ctx, fs, i);
  }

  ghost predicate EveryCellPasses(fs: seq<Finding>) { forall key | key in CellsOf(fs) :: CellPasses(InCell(fs, key)) }

  lemma AllCellsPass(ctx: Input, fs: seq<Finding>)
    requires SpeakInOrder(ctx, fs) && forall f | f in fs :: !Contradictory(f)
    ensures EveryCellPasses(fs) <==> EveryLeafAccounted(ctx)
  {
    if EveryCellPasses(fs) {
      forall leaf | leaf in ctx.leaves ensures Accounted(ctx, leaf) {
        var i :| 0 <= i < |fs| && ctx.leaves[i] == leaf;
        assert fs[i] in fs && CellOf(fs[i]) in CellsOf(fs);
        CellPassesAt(ctx, fs, i);
      }
    }
    if EveryLeafAccounted(ctx) {
      forall key | key in CellsOf(fs) ensures CellPasses(InCell(fs, key)) {
        var i :| 0 <= i < |fs| && CellOf(fs[i]) == key;
        assert ctx.leaves[i] in ctx.leaves;
        CellPassesAt(ctx, fs, i);
      }
    }
  }

  /** The gate passes exactly when no clean credited leaf's own entry declares
      backend-discards and every leaf's cell is accounted for. */
  lemma GateOnManifest(ctx: Input)
    ensures TallyOf(Reports(Findings(ctx))).blockingCells == 0 <==> GateHolds(ctx)
  {
    var fs := Findings(ctx);
    FindingsSpeak(ctx);
    GateMeaning(fs);
    NoneContradicts(ctx, fs);
    if forall f | f in fs :: !Contradictory(f) { AllCellsPass(ctx, fs); }
  }

  /** printContainerClearCells: the coverage, the cells and the verdict. A refused coverage
      is printed, and never blocks. */
  method PrintContainerClearCells(ctx: Input) returns (blocking: nat)
    requires ctx.Valid()
    ensures blocking == 0 <==>
      || GateHolds(ctx)
      || exists leaf ::
           && leaf in ctx.leaves && HardReason(ctx, leaf) && !ctx.facts(leaf).referenceShape && CreditedLeaf(ctx, leaf)
  {
    var findings := ContainerClearCoverage(ctx);
    forall leaf
      ensures HardConflict(ctx, leaf) <==>
        HardReason(ctx, leaf) && !ctx.facts(leaf).referenceShape && CreditedLeaf(ctx, leaf)
    { }
    if findings.Err? { return 0; }
    assert findings.value == Findings(ctx);
    GateOnManifest(ctx);
    var reports := BuildClearCellReport(findings.value);
    var tally := PrintClearCellReport(reports);
    return tally.blockingCells;
  }
}
