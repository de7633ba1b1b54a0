/** The offline clear-credit engine (internal/roundtrip/containerclear.go): which
    container leaves the manifest's own text is said to clear, by which route, and the
    proof that the patch behind every credit really removes what it claims to. */
module ClearCredit {
  import opened Json
  import opened Text
  import opened Manifest
  import opened Patching
  import opened Cells

  datatype ContainerLeaf = ContainerLeaf(path: string, shape: Shape)

  datatype ClearRoute =
    RouteSiblingClear | RouteSiblingWithValues | RouteAncestorTombstone | RoutePerKeyNull | RouteSelfTombstone

  /** The four lookups built from m.Tests before any leaf is looked at. */
  datatype ClearIndex = ClearIndex(
    clearedSiblings: set<string>,
    withValuesEmptyList: set<string>,
    perKeyNulled: set<string>,
    selfByField: map<string, UpdateTest>)

  const EMPTY_LIST: Json := List([])

  predicate HasNestedNullMember(v: Json) { v.Object? && exists k | k in v.members :: v.members[k].Null? }

  /** The last entry for each field: later entries overwrite earlier ones. */
  function LastByField(tests: seq<UpdateTest>): map<string, UpdateTest> {
    if tests == [] then map[]
    else LastByField(tests[..|tests| - 1])[tests[|tests| - 1].field := tests[|tests| - 1]]
  }

  function IndexOf(tests: seq<UpdateTest>): ClearIndex {
    ClearIndex(
      set t, c | t in tests && c in t.clear :: c,
      set t, k | t in tests && k in t.withValues && t.withValues[k] == EMPTY_LIST :: k,
      set t | t in tests && HasNestedNullMember(t.value) :: t.field,
      LastByField(tests))
  }

  method BuildIndex(tests: seq<UpdateTest>) returns (ix: ClearIndex)
    ensures ix == IndexOf(tests)
  {
    var cleared: set<string>, emptied: set<string>, nulled: set<string> := {}, {}, {};
    var self: map<string, UpdateTest> := map[];
    for i := 0 to |tests|
      invariant ClearIndex(cleared, emptied, nulled, self) == IndexOf(tests[..i])
    {
      var t := tests[i];
      assert tests[..i+1] == tests[..i] + [t] && tests[..i+1][..i] == tests[..i];
      cleared := cleared + set c | c in t.clear;
      emptied := emptied + set k | k in t.withValues && t.withValues[k] == EMPTY_LIST;
      if HasNestedNullMember(t.value) { nulled := nulled + {t.field}; }
      self := self[t.field := t];
    }
    assert tests[..|tests|] == tests;
    return ClearIndex(cleared, emptied, nulled, self);
  }

  /** clearedAncestor's walk, from the immediate parent up to the top-level segment. */
  function DeepestCleared(segments: Path, i: nat, cleared: set<string>): Option<string>
    requires i <= |segments|
  {
    if i == 0 then None
    else if Join(segments[..i], '.') in cleared then Some(Join(segments[..i], '.'))
    else DeepestCleared(segments, i - 1, cleared)
  }

  function ClearedAncestorOf(leafPath: string, cleared: set<string>): Option<string> {
    DeepestCleared(Segments(leafPath), |Segments(leafPath)| - 1, cleared)
  }

  method ClearedAncestor(leafPath: string, cleared: set<string>) returns (r: Option<string>)
    ensures r == ClearedAncestorOf(leafPath, cleared)
  {
    var segments := Segments(leafPath);
    var i := |segments| - 1;
    while i > 0
      invariant 0 <= i < |segments|
      invariant DeepestCleared(segments, i, cleared) == ClearedAncestorOf(leafPath, cleared)
    {
      var candidate := Join(segments[..i], '.');
      if candidate in cleared { return Some(candidate); }
      i := i - 1;
    }
    return None;
  }

  /** The segment walk finds an ancestor exactly when the textual test of
      clear_assert.go accepts one, and it finds the deepest. */
  lemma ClearedAncestorMeaning(leafPath: string, cleared: set<string>)
    ensures var r := ClearedAncestorOf(leafPath, cleared);
      && (r.Some? ==> r.value in cleared && IsAncestorOf(r.value, leafPath))
      && (forall c | c in cleared && IsAncestorOf(c, leafPath) :: r.Some? && |Segments(c)| <= |Segments(r.value)|)
  {
    var segments := Segments(leafPath);
    DeepestClearedMeaning(segments, |segments| - 1, cleared);
    var r := ClearedAncestorOf(leafPath, cleared);
    JoinSplit(leafPath, '.');
    forall i | 0 < i < |segments|
      ensures Segments(Join(segments[..i], '.')) == segments[..i]
    {
      SplitJoin(segments[..i], '.');
    }
    if r.Some? { AncestorTestsAgree(r.value, leafPath); }
    forall c | c in cleared && IsAncestorOf(c, leafPath)
      ensures r.Some? && |Segments(c)| <= |Segments(r.value)|
    {
      AncestorTestsAgree(c, leafPath);
      JoinSplit(c, '.');
      assert Join(segments[..|Segments(c)|], '.') == c;
    }
  }

  lemma {:induction false} DeepestClearedMeaning(segments: Path, i: nat, cleared: set<string>)
    requires i < |segments|
    ensures var r := DeepestCleared(segments, i, cleared);
      && (r.Some? ==> r.value in cleared && exists j | 0 < j <= i ::
            (r.value == Join(segments[..j], '.') && forall j' | j < j' <= i :: Join(segments[..j'], '.') !in cleared))
      && (r.None? ==> forall j | 0 < j <= i :: Join(segments[..j], '.') !in cleared)
  {
    if i > 0 && Join(segments[..i], '.') !in cleared { DeepestClearedMeaning(segments, i - 1, cleared); }
  }

  predicate SelfTombstoned(t: UpdateTest, shape: Shape) {
    if t.value.Null? then t.valueExplicit else shape == ShapeList && t.value == EMPTY_LIST
  }

  /** coverageFor: the crediting route, None when the leaf is not covered. */
  function CoverageFor(leaf: ContainerLeaf, ix: ClearIndex): Option<ClearRoute> {
    if leaf.path in ix.clearedSiblings then Some(RouteSiblingClear)
    else if leaf.shape == ShapeList && leaf.path in ix.withValuesEmptyList then Some(RouteSiblingWithValues)
    else if ClearedAncestorOf(leaf.path, ix.clearedSiblings).Some? then Some(RouteAncestorTombstone)
    else if leaf.path in ix.perKeyNulled then Some(RoutePerKeyNull)
    else if leaf.path in ix.selfByField && SelfTombstoned(ix.selfByField[leaf.path], leaf.shape)
      then Some(RouteSelfTombstone)
    else None
  }

  // ---------- what a credit means ----------

  /** Entry t's text is grounds for crediting the leaf by this route. */
  predicate Lends(t: UpdateTest, route: ClearRoute, leaf: ContainerLeaf) {
    match route
    case RouteSiblingClear => leaf.path in t.clear
    case RouteSiblingWithValues => leaf.shape == ShapeList && leaf.path in t.withValues
      && t.withValues[leaf.path] == EMPTY_LIST
    case RouteAncestorTombstone => exists c | c in t.clear :: IsAncestorOf(c, leaf.path)
    case RoutePerKeyNull => t.field == leaf.path && HasNestedNullMember(t.value)
    case RouteSelfTombstone => t.field == leaf.path && SelfTombstoned(t, leaf.shape)
  }

  /** After merging t's patch the leaf is gone, is an empty list, or has lost the member
      its value nulls, as the route promises. */
  ghost predicate Removes(t: UpdateTest, route: ClearRoute, leaf: ContainerLeaf, target: Json) {
    var after := Get(MergePatch(target, PatchOf(t)), FOR_PROVIDER + Segments(leaf.path));
    match route
    case RouteSiblingClear => after.None?
    case RouteSiblingWithValues => after == Some(EMPTY_LIST)
    case RouteAncestorTombstone => after.None?
    case RoutePerKeyNull =>
      && after.Some? && after.value.Object?
      && (exists k :: k in Members(t.value) && t.value.members[k].Null?)
      && (forall k :: k in Members(t.value) && t.value.members[k].Null? ==> k !in after.value.members)
    case RouteSelfTombstone => after.None? || after == Some(EMPTY_LIST)
  }

  lemma {:induction false} LastByFieldIn(tests: seq<UpdateTest>, f: string)
    requires f in LastByField(tests)
    ensures LastByField(tests)[f] in tests && LastByField(tests)[f].field == f
  {
    if f != tests[|tests| - 1].field { LastByFieldIn(tests[..|tests| - 1], f); }
  }

  lemma LenderExists(tests: seq<UpdateTest>, leaf: ContainerLeaf) returns (t: UpdateTest)
    requires CoverageFor(leaf, IndexOf(tests)).Some?
    ensures t in tests && Lends(t, CoverageFor(leaf, IndexOf(tests)).value, leaf)
  {
    var ix := IndexOf(tests);
    match CoverageFor(leaf, ix).value
    case RouteSiblingClear => t :| t in tests && leaf.path in t.clear;
    case RouteSiblingWithValues =>
      t :| t in tests && leaf.path in t.withValues && t.withValues[leaf.path] == EMPTY_LIST;
    case RouteAncestorTombstone =>
      ClearedAncestorMeaning(leaf.path, ix.clearedSiblings);
      var c := ClearedAncestorOf(leaf.path, ix.clearedSiblings).value;
      t :| t in tests && c in t.clear;
    case RoutePerKeyNull => t :| t in tests && t.field == leaf.path && HasNestedNullMember(t.value);
    case RouteSelfTombstone =>
      LastByFieldIn(tests, leaf.path);
      t := ix.selfByField[leaf.path];
  }

  /** A lender is never a skipped entry, so the runner does send its patch. */
  lemma LenderIsTested(tests: seq<UpdateTest>, t: UpdateTest, route: ClearRoute, leaf: ContainerLeaf)
    requires Accepted(tests) && t in tests && Lends(t, route, leaf)
    ensures !t.skip.Present()
  { }

  lemma LenderRemoves(t: UpdateTest, route: ClearRoute, leaf: ContainerLeaf, target: Json)
    requires EntryAccepted(t) && Lends(t, route, leaf)
    ensures Removes(t, route, leaf, target)
  {
    var path := Segments(leaf.path);
    match route
    case RouteSiblingClear | RouteSiblingWithValues =>
      UndottedSegment(leaf.path);
      PatchEffect(t, target, path);
    case RouteAncestorTombstone =>
      var c :| c in t.clear && IsAncestorOf(c, leaf.path);
      UndottedSegment(c);
      AncestorTestsAgree(c, leaf.path);
      PatchEffect(t, target, path);
    case RoutePerKeyNull | RouteSelfTombstone =>
      OwnFieldEffect(t, target);
  }

  /** Every credit is sound: some entry the runner really tests sends a patch that,
      merged into any object whatever, removes what the credit says it removes. */
  lemma CreditIsSound(tests: seq<UpdateTest>, leaf: ContainerLeaf)
    requires Accepted(tests) && CoverageFor(leaf, IndexOf(tests)).Some?
    ensures exists t :: t in tests && !t.skip.Present() && Patchable(t) &&
              forall target :: Removes(t, CoverageFor(leaf, IndexOf(tests)).value, leaf, target)
  {
    var route := CoverageFor(leaf, IndexOf(tests)).value;
    var t := LenderExists(tests, leaf);
    LenderIsTested(tests, t, route, leaf);
    forall target ensures Removes(t, route, leaf, target) { LenderRemoves(t, route, leaf, target); }
  }

  /** Entry i is the last one for this field. */
  ghost predicate LastEntryAt(tests: seq<UpdateTest>, f: string, i: nat) {
    i < |tests| && tests[i].field == f && forall j :: i < j < |tests| ==> tests[j].field != f
  }

  lemma {:induction false} LastByFieldMeans(tests: seq<UpdateTest>, f: string)
    ensures f in LastByField(tests) <==> exists i: nat :: LastEntryAt(tests, f, i)
    ensures forall i: nat | LastEntryAt(tests, f, i) :: f in LastByField(tests) && LastByField(tests)[f] == tests[i]
  {
    if tests == [] {
    } else {
      var n := |tests| - 1;
      if tests[n].field == f {
        assert LastEntryAt(tests, f, n);
      } else {
        LastByFieldMeans(tests[..n], f);
        forall i: nat ensures LastEntryAt(tests, f, i) <==> LastEntryAt(tests[..n], f, i) {
          assert LastEntryAt(tests[..n], f, i) ==> forall j | i < j < n :: tests[j].field == tests[..n][j].field;
        }
      }
    }
  }

  /** What the manifest must say for a leaf to be credited by this route. */
  ghost predicate LentBy(tests: seq<UpdateTest>, route: ClearRoute, leaf: ContainerLeaf) {
    match route
    case RouteSiblingClear => exists t :: t in tests && leaf.path in t.clear
    case RouteSiblingWithValues =>
      leaf.shape == ShapeList
      && exists t :: t in tests && leaf.path in t.withValues && t.withValues[leaf.path] == List([])
    case RouteAncestorTombstone => exists t, c :: t in tests && c in t.clear && HasPrefix(leaf.path, c + ".")
    case RoutePerKeyNull =>
      exists t, k :: t in tests && t.field == leaf.path && k in Members(t.value) && Members(t.value)[k] == Null
    case RouteSelfTombstone =>
      exists i: nat :: LastEntryAt(tests, leaf.path, i) && Tombstone(tests[i], leaf.shape)
  }

  predicate Tombstone(t: UpdateTest, shape: Shape) {
    (t.value == Null && t.valueExplicit) || (shape == ShapeList && t.value == List([]))
  }

  /** The order in which the routes are tried. */
  function Turn(route: ClearRoute): nat {
    match route
    case RouteSiblingClear => 0
    case RouteSiblingWithValues => 1
    case RouteAncestorTombstone => 2
    case RoutePerKeyNull => 3
    case RouteSelfTombstone => 4
  }

  lemma AncestorLent(tests: seq<UpdateTest>, leaf: ContainerLeaf)
    ensures ClearedAncestorOf(leaf.path, IndexOf(tests).clearedSiblings).Some? <==>
      LentBy(tests, RouteAncestorTombstone, leaf)
  {
    var ix := IndexOf(tests);
    ClearedAncestorMeaning(leaf.path, ix.clearedSiblings);
    if LentBy(tests, RouteAncestorTombstone, leaf) {
      var t, c :| t in tests && c in t.clear && HasPrefix(leaf.path, c + ".");
      assert c in ix.clearedSiblings && IsAncestorOf(c, leaf.path);
    }
  }

  lemma SelfLent(tests: seq<UpdateTest>, leaf: ContainerLeaf)
    ensures LentBy(tests, RouteSelfTombstone, leaf) <==>
      leaf.path in LastByField(tests) && SelfTombstoned(LastByField(tests)[leaf.path], leaf.shape)
  {
    LastByFieldMeans(tests, leaf.path);
  }

  lemma NullLent(tests: seq<UpdateTest>, leaf: ContainerLeaf)
    ensures leaf.path in IndexOf(tests).perKeyNulled <==> LentBy(tests, RoutePerKeyNull, leaf)
  {
    forall t | t in tests && t.field == leaf.path && HasNestedNullMember(t.value)
      ensures LentBy(tests, RoutePerKeyNull, leaf)
    {
      var k :| k in t.value.members && t.value.members[k].Null?;
      assert k in Members(t.value) && Members(t.value)[k] == Null;
    }
  }

  /** Exactly which manifests earn a leaf a credit, and by which route: the first, in the
      order tried, by which some entry's text clears the leaf. */
  lemma CreditMeaning(tests: seq<UpdateTest>, leaf: ContainerLeaf)
    ensures CoverageFor(leaf, IndexOf(tests)).Some? <==> exists route :: LentBy(tests, route, leaf)
    ensures forall route :: CoverageFor(leaf, IndexOf(tests)) == Some(route) ==>
      LentBy(tests, route, leaf) && forall r | LentBy(tests, r, leaf) :: Turn(route) <= Turn(r)
  {
    AncestorLent(tests, leaf);
    SelfLent(tests, leaf);
    NullLent(tests, leaf);
    assert leaf.path in IndexOf(tests).clearedSiblings <==> LentBy(tests, RouteSiblingClear, leaf);
    assert leaf.shape == ShapeList && leaf.path in IndexOf(tests).withValuesEmptyList <==>
      LentBy(tests, RouteSiblingWithValues, leaf);
  }

  /** An empty map value lends nothing, and rightly: merged into any object it leaves
      every member the leaf already had exactly as it was. */
  lemma EmptyMapClearsNothing(t: UpdateTest, leaf: ContainerLeaf, target: Json)
    requires EntryAccepted(t) && t.field == leaf.path && t.value == Object(map[])
    ensures forall route :: !Lends(t, route, leaf)
    ensures var before := Get(ForProviderOf(target), Segments(leaf.path));
      Get(MergePatch(target, PatchOf(t)), FOR_PROVIDER + Segments(leaf.path)) ==
      Some(Object(if before.Some? then Members(before.value) else map[]))
  {
    OwnFieldEffect(t, target);
    forall c | c in t.clear ensures !IsAncestorOf(c, leaf.path) {
      DescendantsAreDotted(c, leaf.path);
    }
    var before := Get(ForProviderOf(target), Segments(leaf.path));
    var m := Members(if before.Some? then before.value else Null);
    assert MergePatch(if before.Some? then before.value else Null, t.value).members == m;
  }
}
