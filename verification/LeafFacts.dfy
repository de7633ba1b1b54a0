/** What classifyIneligibility (internal/roundtrip/ineligible.go) reads off the schema for
    each container leaf, and the clear coverage that rests on it: the immutable paths, the
    list routes closed by minItems or by a size rule on any node of the leaf's route. */
module LeafFacts {
  import opened Json
  import opened Text
  import opened Manifest
  import opened Cells
  import opened ClearCredit
  import opened ClearCoverage
  import opened Guards
  import opened SchemaWalks
  import opened Patching

  /** The parts of the check that are text matching: the clause a rule carries for a wanted
      path, a disjunct's shape, and the two leaf properties read from rule texts and
      reference shapes. */
  datatype Lexicon = Lexicon(
    clauseFor: string -> string -> string, classify: string -> Option<Guard>,
    referenceShape: ContainerLeaf -> bool, requiredByCEL: ContainerLeaf -> bool)

  /** The served schema as these checks see it: the rules at its root and on its spec node,
      and the forProvider node. */
  datatype Served = Served(rootRules: seq<string>, specRules: seq<string>, fp: Schema)

  // ---------- schemaAtPath ----------

  /** schemaAtPath: down declared properties, every node met a mapping. */
  function SchemaAt(s: Schema, path: Path): Option<Schema> {
    if path == [] then Some(s)
    else if s.Node? && path[0] in s.props && s.props[path[0]].Node? then SchemaAt(s.props[path[0]], path[1..])
    else None
  }

  /** On the route to a leaf schemaAtPath resolves every node as the walks do. */
  lemma {:induction false} SchemaAtOnRoute(s: Schema, q: Path, i: nat)
    requires NodeAt(s, q).Some? && NodeAt(s, q).value.Node? && i <= |q|
    ensures SchemaAt(s, q[..i]) == NodeAt(s, q[..i]) && SchemaAt(s, q[..i]).Some?
  {
    if i == 0 {
      assert q[..0] == [];
    } else {
      assert q[..i][1..] == q[1..][..i - 1] && q[..i][0] == q[0];
      RouteNodesAreMappings(s.props[q[0]], q[1..]);
      SchemaAtOnRoute(s.props[q[0]], q[1..], i - 1);
    }
  }

  lemma RouteNodesAreMappings(s: Schema, q: Path)
    requires NodeAt(s, q).Some? && NodeAt(s, q).value.Node?
    ensures s.Node?
  { }

  // ---------- sizeNonEmptyGuard ----------

  /** The anchors below forProvider: one for each strict ancestor of the leaf, up to the
      first that does not resolve. */
  function InnerAnchors(fp: Schema, segments: Path, i: nat): seq<Anchor>
    decreases |segments| - i
  {
    if i >= |segments| || SchemaAt(fp, segments[..i]).None? || !SchemaAt(fp, segments[..i]).value.Node? then []
    else
      [Anchor(SchemaAt(fp, segments[..i]).value.rules, "self.", Join(segments[..i], '.') + ".")]
      + InnerAnchors(fp, segments, i + 1)
  }

  function RulesOf(s: Schema): seq<string> { if s.Node? then s.rules else [] }

  function AnchorsOf(served: Served, leafPath: string): seq<Anchor> {
    [Anchor(served.rootRules, "self.spec.forProvider.", ""), Anchor(served.specRules, "self.forProvider.", ""),
     Anchor(RulesOf(served.fp), "self.", "")] + InnerAnchors(served.fp, Segments(leafPath), 1)
  }

  function TrimPrefix(s: string, p: string): string { if HasPrefix(s, p) then s[|p|..] else s }

  function ReadingAt(lex: Lexicon, a: Anchor, leafPath: string, forProvider: Json): Reading {
    Reading(lex.clauseFor(a.celSelf + TrimPrefix(leafPath, a.fpPrefix)), lex.classify, a, forProvider)
  }

  /** No rule of the anchor that carries the clause stands: all are passed over. */
  ghost predicate Silent(r: Reading) { forall rule | rule in r.anchor.rules && r.Carries(rule) :: r.PassedOver(rule) }

  /** The hit is the first one of the first anchor that is not silent. */
  ghost predicate FirstHit(readings: seq<Reading>, m: nat, hit: Hit) {
    && m < |readings| && (exists n :: readings[m].Reported(n, hit))
    && forall i | 0 <= i < m :: Silent(readings[i])
  }

  function ReadingsOf(lex: Lexicon, served: Served, leafPath: string, forProvider: Json): (r: seq<Reading>)
    ensures |r| == |AnchorsOf(served, leafPath)|
  {
    var anchors := AnchorsOf(served, leafPath);
    seq(|anchors|, i requires 0 <= i < |anchors| => ReadingAt(lex, anchors[i], leafPath, forProvider))
  }

  method CollectInner(fp: Schema, segments: Path) returns (anchors: seq<Anchor>)
    ensures anchors == InnerAnchors(fp, segments, 1)
  {
    anchors := [];
    var i := 1;
    while i < |segments|
      invariant i >= 1 && anchors + InnerAnchors(fp, segments, i) == InnerAnchors(fp, segments, 1)
    {
      var node := SchemaAt(fp, segments[..i]);
      if node.None? || !node.value.Node? { break; }
      anchors := anchors + [Anchor(node.value.rules, "self.", Join(segments[..i], '.') + ".")];
      i := i + 1;
    }
  }

  method CollectAnchors(served: Served, leafPath: string) returns (anchors: seq<Anchor>)
    ensures anchors == AnchorsOf(served, leafPath)
  {
    anchors := [Anchor(served.rootRules, "self.spec.forProvider.", ""),
                Anchor(served.specRules, "self.forProvider.", ""),
                Anchor(RulesOf(served.fp), "self.", "")];
    var inner := CollectInner(served.fp, Segments(leafPath));
    anchors := anchors + inner;
  }

  method ScanAnchors(readings: seq<Reading>) returns (hit: Option<Hit>)
    ensures hit.None? ==> forall r | r in readings :: Silent(r)
    ensures hit.Some? ==> exists m :: FirstHit(readings, m, hit.value)
  {
    for m := 0 to |readings|
      invariant forall i | 0 <= i < m :: Silent(readings[i])
    {
      hit := SizeGuardRule(readings[m]);
      if hit.Some? {
        assert FirstHit(readings, m, hit.value);
        return;
      }
    }
    return None;
  }

  method SizeNonEmptyGuard(lex: Lexicon, served: Served, leafPath: string, forProvider: Json) returns (hit: Option<Hit>)
    ensures hit.None? ==> forall r | r in ReadingsOf(lex, served, leafPath, forProvider) :: Silent(r)
    ensures hit.Some? ==> exists m :: FirstHit(ReadingsOf(lex, served, leafPath, forProvider), m, hit.value)
  {
    var anchors := CollectAnchors(served, leafPath);
    var readings := seq(|anchors|, i requires 0 <= i < |anchors| => ReadingAt(lex, anchors[i], leafPath, forProvider));
    assert readings == ReadingsOf(lex, served, leafPath, forProvider);
    hit := ScanAnchors(readings);
  }

  function MinItemsAt(fp: Schema, leafPath: string): int {
    var node := SchemaAt(fp, Segments(leafPath));
    if node.Some? && node.value.Node? then node.value.minItems else 0
  }

  // ---------- the walks agree on a declared leaf's route ----------

  /** schemaAtPath finds a declared container leaf's own node again, so the minItems read is
      the leaf's, and every strict ancestor of it is an anchor: the scan never stops early. */
  lemma LeafRouteResolves(fp: Schema, l: ContainerLeaf)
    requires ProperNames(fp) && l in ContainersOf(fp, "")
    ensures var segments := Segments(l.path);
      && SchemaAt(fp, segments).Some? && IsContainer(SchemaAt(fp, segments).value, l.shape)
      && NodeAt(fp, segments).Some? && NodeAt(fp, segments).value.Node?
      && MinItemsAt(fp, l.path) == NodeAt(fp, segments).value.minItems
      && |InnerAnchors(fp, segments, 1)| == |segments| - 1
  {
    ContainersExactly(fp, l);
    var q :| q != [] && LeafAt(fp, q) && l.path == Dotted(q) && IsContainer(NodeAt(fp, q).value, l.shape);
    LeafPathIsProper(fp, q);
    SplitJoin(q, '.');
    SchemaAtOnRoute(fp, q, |q|);
    assert q[..|q|] == q;
    AllAnchored(fp, q, 1);
  }

  lemma {:induction false} AllAnchored(fp: Schema, q: Path, i: nat)
    requires NodeAt(fp, q).Some? && NodeAt(fp, q).value.Node? && 1 <= i <= |q|
    ensures |InnerAnchors(fp, q, i)| == |q| - i
    decreases |q| - i
  {
    if i == |q| {
    } else {
      SchemaAtOnRoute(fp, q, i);
      SchemaAtIsMapping(fp, q[..i]);
      AllAnchored(fp, q, i + 1);
    }
  }

  lemma {:induction false} SchemaAtIsMapping(s: Schema, path: Path)
    requires SchemaAt(s, path).Some? && path != []
    ensures SchemaAt(s, path).value.Node?
  {
    if |path| == 1 {
      assert path[1..] == [];
    } else {
      SchemaAtIsMapping(s.props[path[0]], path[1..]);
    }
  }

  lemma {:induction false} InnerAnchorAt(fp: Schema, q: Path, i: nat, n: nat)
    requires i >= 1 && n < |InnerAnchors(fp, q, i)|
    ensures i + n < |q| && SchemaAt(fp, q[..i + n]).Some? && SchemaAt(fp, q[..i + n]).value.Node?
    ensures InnerAnchors(fp, q, i)[n] ==
      Anchor(SchemaAt(fp, q[..i + n]).value.rules, "self.", Join(q[..i + n], '.') + ".")
    decreases n
  {
    if n > 0 { InnerAnchorAt(fp, q, i + 1, n - 1); }
  }

  /** Where the node of the n-th anchor stands in the served object. */
  function Position(leafPath: string, n: nat): Path
    requires n < 2 + |Segments(leafPath)|
  {
    if n == 0 then [] else if n == 1 then ["spec"] else FOR_PROVIDER + Segments(leafPath)[..n - 2]
  }

  lemma SpecRoute(leafPath: string)
    ensures Segments("forProvider." + leafPath) == ["forProvider"] + Segments(leafPath)
    ensures ("self.forProvider." + leafPath)[5..] == "forProvider." + leafPath
    ensures ("self." + leafPath)[5..] == leafPath
  {
    Spelled("forProvider");
    assert "forProvider." + leafPath == "forProvider" + "." + leafPath;
    SplitPiece("forProvider", leafPath, '.');
  }

  lemma RootRoute(leafPath: string)
    ensures Segments("spec.forProvider." + leafPath) == ["spec"] + Segments("forProvider." + leafPath)
    ensures ("self.spec.forProvider." + leafPath)[5..] == "spec.forProvider." + leafPath
  {
    Spelled("spec");
    assert "spec.forProvider." + leafPath == "spec" + "." + ("forProvider." + leafPath);
    SplitPiece("spec", "forProvider." + leafPath, '.');
  }

  lemma Spelled(name: string)
    requires name in {"spec", "forProvider"}
    ensures '.' !in name
  {
    assert forall i :: 0 <= i < 4 ==> "spec"[i] != '.';
    assert forall i :: 0 <= i < 11 ==> "forProvider"[i] != '.';
  }

  lemma InnerRoute(leafPath: string, i: nat)
    requires 0 < i < |Segments(leafPath)| && Proper(Segments(leafPath))
    ensures var q, prefix := Segments(leafPath), Join(Segments(leafPath)[..i], '.') + ".";
      HasPrefix(leafPath, prefix) && Segments(("self." + leafPath[|prefix|..])[5..]) == q[i..]
  {
    var q := Segments(leafPath);
    PrefixOfDotted(leafPath, i);
    JoinSplit(leafPath, '.');
    assert q == q[..i] + q[i..];
    JoinAppend(q[..i], q[i..], '.');
    var prefix, rest := Join(q[..i], '.') + ".", Join(q[i..], '.');
    assert leafPath == prefix + rest && leafPath[|prefix|..] == rest && ("self." + rest)[5..] == rest;
    SplitJoin(q[i..], '.');
  }

  lemma PrefixOfDotted(path: string, i: nat)
    requires 0 < i < |Segments(path)| && Proper(Segments(path))
    ensures HasPrefix(path, Join(Segments(path)[..i], '.') + ".") && |Join(Segments(path)[..i], '.')| + 1 < |path|
  {
    var q := Segments(path);
    JoinSplit(path, '.');
    assert q == q[..i] + q[i..];
    JoinAppend(q[..i], q[i..], '.');
    assert q[i..][0] in q && q[i..][0] != "";
    JoinNotEmpty(q[i..]);
  }

  lemma JoinNotEmpty(q: Path)
    requires q != [] && q[0] != ""
    ensures Join(q, '.') != ""
  { }

  /** What the anchor's rules are searched for is `self.` followed by the route from its node
      to the leaf, and read back as a guard path there it is the leaf again. */
  predicate SeesTheLeaf(a: Anchor, position: Path, leafPath: string) {
    var wanted := a.celSelf + TrimPrefix(leafPath, a.fpPrefix);
    && GuardFPPath(wanted, a) == Some(leafPath)
    && HasPrefix(wanted, "self.") && position + Segments(wanted[5..]) == FOR_PROVIDER + Segments(leafPath)
  }

  lemma SeenFrom(a: Anchor, position: Path, leafPath: string, rest: string)
    requires rest != "" && leafPath == a.fpPrefix + rest
    requires HasPrefix(a.celSelf, "self.") && a.celSelf[|a.celSelf| - 1] == '.'
    requires position + Segments((a.celSelf + rest)[5..]) == FOR_PROVIDER + Segments(leafPath)
    ensures SeesTheLeaf(a, position, leafPath)
  {
    assert TrimPrefix(leafPath, a.fpPrefix) == rest;
    GuardPathResolves(a.celSelf + rest, a, leafPath);
    assert (a.celSelf + rest)[..5] == a.celSelf[..5];
  }

  lemma OuterSees(rules: seq<string>, leafPath: string)
    requires leafPath != ""
    ensures SeesTheLeaf(Anchor(rules, "self.spec.forProvider.", ""), [], leafPath)
    ensures SeesTheLeaf(Anchor(rules, "self.forProvider.", ""), ["spec"], leafPath)
    ensures SeesTheLeaf(Anchor(rules, "self.", ""), FOR_PROVIDER, leafPath)
  {
    SpecRoute(leafPath);
    RootRoute(leafPath);
    assert leafPath == "" + leafPath;
    assert ["spec"] + (["forProvider"] + Segments(leafPath)) == FOR_PROVIDER + Segments(leafPath);
    assert [] + (["spec"] + (["forProvider"] + Segments(leafPath))) == FOR_PROVIDER + Segments(leafPath);
    SeenFrom(Anchor(rules, "self.spec.forProvider.", ""), [], leafPath, leafPath);
    SeenFrom(Anchor(rules, "self.forProvider.", ""), ["spec"], leafPath, leafPath);
    SeenFrom(Anchor(rules, "self.", ""), FOR_PROVIDER, leafPath, leafPath);
  }

  lemma InnerSees(rules: seq<string>, leafPath: string, i: nat)
    requires 0 < i < |Segments(leafPath)| && Proper(Segments(leafPath))
    ensures var q := Segments(leafPath);
      SeesTheLeaf(Anchor(rules, "self.", Join(q[..i], '.') + "."), FOR_PROVIDER + q[..i], leafPath)
  {
    var q := Segments(leafPath);
    var prefix := Join(q[..i], '.') + ".";
    PrefixOfDotted(leafPath, i);
    InnerRoute(leafPath, i);
    assert FOR_PROVIDER + q[..i] + q[i..] == FOR_PROVIDER + q;
    SeenFrom(Anchor(rules, "self.", prefix), FOR_PROVIDER + q[..i], leafPath, leafPath[|prefix|..]);
  }

  /** Every anchor sees the leaf from where its node stands. */
  lemma AnchorsSeeTheLeaf(served: Served, leafPath: string, n: nat)
    requires leafPath != "" && Proper(Segments(leafPath)) && n < |AnchorsOf(served, leafPath)|
    ensures n < 2 + |Segments(leafPath)|
    ensures SeesTheLeaf(AnchorsOf(served, leafPath)[n], Position(leafPath, n), leafPath)
  {
    if n < 3 {
      OuterSees(AnchorsOf(served, leafPath)[n].rules, leafPath);
      assert FOR_PROVIDER + Segments(leafPath)[..0] == FOR_PROVIDER;
    } else {
      InnerAnchorAt(served.fp, Segments(leafPath), 1, n - 3);
      InnerSees(AnchorsOf(served, leafPath)[n].rules, leafPath, n - 2);
    }
  }

  // ---------- listEmptyRouteBlocked ----------

  /** The list's `value: []` route is open: no positive minItems, and every rule carrying a
      non-empty clause for it is passed over on this manifest. */
  ghost predicate RouteIsOpen(lex: Lexicon, served: Served, leafPath: string, forProvider: Json) {
    MinItemsAt(served.fp, leafPath) <= 0 && forall r | r in ReadingsOf(lex, served, leafPath, forProvider) :: Silent(r)
  }

  /** Closed only while the manifest meets the condition of the first standing rule. */
  ghost predicate ClosedConditionally(lex: Lexicon, served: Served, leafPath: string, forProvider: Json) {
    && MinItemsAt(served.fp, leafPath) <= 0
    && exists m, hit :: FirstHit(ReadingsOf(lex, served, leafPath, forProvider), m, hit) && hit.condition != []
  }

  lemma StandingIsNotSilent(r: Reading, n: nat, hit: Hit)
    requires r.Reported(n, hit)
    ensures !Silent(r)
  {
    assert r.anchor.rules[n] in r.anchor.rules;
  }

  /** An anchor reports at most one hit: its first standing rule's. */
  lemma ReportedOnce(r: Reading, n: nat, hit: Hit, n': nat, hit': Hit)
    requires r.Reported(n, hit) && r.Reported(n', hit')
    ensures hit == hit'
  {
    assert r.Carries(r.anchor.rules[n]) && r.Carries(r.anchor.rules[n']);
    assert n == n';
  }

  lemma FirstHitIsUnique(readings: seq<Reading>, m: nat, hit: Hit, m': nat, hit': Hit)
    requires FirstHit(readings, m, hit) && FirstHit(readings, m', hit')
    ensures hit == hit'
  {
    var n :| readings[m].Reported(n, hit);
    var n' :| readings[m'].Reported(n', hit');
    StandingIsNotSilent(readings[m], n, hit);
    StandingIsNotSilent(readings[m'], n', hit');
    assert m == m';
    ReportedOnce(readings[m], n, hit, n', hit');
  }

  lemma SilenceHasNoHit(readings: seq<Reading>)
    requires forall r | r in readings :: Silent(r)
    ensures forall m: nat, hit :: !FirstHit(readings, m, hit)
  {
    forall m: nat, hit ensures !FirstHit(readings, m, hit) {
      if m < |readings| { assert readings[m] in readings; }
      if FirstHit(readings, m, hit) {
        var n :| readings[m].Reported(n, hit);
        StandingIsNotSilent(readings[m], n, hit);
      }
    }
  }

  lemma HitDecides(readings: seq<Reading>, m: nat, hit: Hit)
    requires FirstHit(readings, m, hit)
    ensures exists r :: r in readings && !Silent(r)
    ensures forall m': nat, hit' :: FirstHit(readings, m', hit') ==> hit' == hit
  {
    var n :| readings[m].Reported(n, hit);
    StandingIsNotSilent(readings[m], n, hit);
    assert readings[m] in readings;
    forall m': nat, hit' | FirstHit(readings, m', hit') ensures hit' == hit {
      FirstHitIsUnique(readings, m, hit, m', hit');
    }
  }

  method ListEmptyRouteBlocked(lex: Lexicon, served: Served, leafPath: string, forProvider: Json)
    returns (route: EmptyRoute)
    ensures route == RouteOpen <==> RouteIsOpen(lex, served, leafPath, forProvider)
    ensures route == RouteConditionallyClosed <==> ClosedConditionally(lex, served, leafPath, forProvider)
  {
    if MinItemsAt(served.fp, leafPath) > 0 { return RouteClosed; }
    var hit := SizeNonEmptyGuard(lex, served, leafPath, forProvider);
    ghost var readings := ReadingsOf(lex, served, leafPath, forProvider);
    if hit.None? {
      SilenceHasNoHit(readings);
      return RouteOpen;
    }
    ghost var m :| FirstHit(readings, m, hit.value);
    HitDecides(readings, m, hit.value);
    return if hit.value.condition != [] then RouteConditionallyClosed else RouteClosed;
  }

  // ---------- the coverage, read off the schema ----------

  /** A hard reason: an admission rule rejects every way of clearing the leaf. */
  ghost predicate CannotBeCleared(lex: Lexicon, served: Served, leaf: ContainerLeaf, forProvider: Json) {
    || leaf.path in ImmutableOf(served.fp, "", false)
    || (lex.requiredByCEL(leaf) && leaf.shape == ShapeMap)
    || (lex.requiredByCEL(leaf) && leaf.shape == ShapeList && !RouteIsOpen(lex, served, leaf.path, forProvider))
  }

  /** The manifest's text claims to clear a leaf that admission never lets be cleared. */
  ghost predicate Disagrees(lex: Lexicon, served: Served, tests: seq<UpdateTest>, forProvider: Json,
                            leaf: ContainerLeaf)
  {
    && CannotBeCleared(lex, served, leaf, forProvider) && !lex.referenceShape(leaf)
    && CoverageFor(leaf, IndexOf(tests)).Some?
  }

  ghost predicate FactsRead(lex: Lexicon, served: Served, forProvider: Json, leaf: ContainerLeaf, f: SchemaFacts) {
    && f.referenceShape == lex.referenceShape(leaf)
    && f.immutable == (leaf.path in ImmutableOf(served.fp, "", false))
    && f.requiredByCEL == lex.requiredByCEL(leaf)
    && (f.emptyRoute == RouteOpen <==> RouteIsOpen(lex, served, leaf.path, forProvider))
    && (f.emptyRoute == RouteConditionallyClosed <==> ClosedConditionally(lex, served, leaf.path, forProvider))
  }

  const NO_FACTS := SchemaFacts(false, false, false, RouteOpen)

  method ReadFacts(lex: Lexicon, served: Served, forProvider: Json, leaves: seq<ContainerLeaf>)
    returns (facts: map<string, SchemaFacts>)
    requires forall i, j :: 0 <= i < j < |leaves| ==> leaves[i].path != leaves[j].path
    ensures forall l | l in leaves :: l.path in facts && FactsRead(lex, served, forProvider, l, facts[l.path])
  {
    facts := map[];
    var immutable := new PathSet();
    CollectImmutablePaths(served.fp, "", false, immutable);
    var marked := immutable.paths;
    assert marked == ImmutableOf(served.fp, "", false);
    for i := 0 to |leaves|
      invariant forall j | 0 <= j < i ::
        leaves[j].path in facts && FactsRead(lex, served, forProvider, leaves[j], facts[leaves[j].path])
    {
      var l := leaves[i];
      var route := ListEmptyRouteBlocked(lex, served, l.path, forProvider);
      facts := facts[l.path := SchemaFacts(lex.referenceShape(l), l.path in marked, lex.requiredByCEL(l), route)];
    }
  }

  /** From the schema itself: refused exactly when some declared container leaf is credited
      although it cannot be cleared and is no reference plumbing, otherwise one finding per
      declared leaf. */
  method CoverageFromSchema(lex: Lexicon, served: Served, tests: seq<UpdateTest>, forProvider: Json)
    returns (r: Result<seq<Finding>, string>, ghost ctx: Input)
    requires ProperNames(served.fp)
    ensures ctx.leaves == SortBy(ContainersOf(served.fp, ""), LeafPath) && ctx.tests == tests
      && ctx.forProvider == forProvider
    ensures forall l | l in ctx.leaves :: FactsRead(lex, served, forProvider, l, ctx.facts(l))
    ensures r.Ok? ==> r.value == seq(|ctx.leaves|, i requires 0 <= i < |ctx.leaves| => FindingFor(ctx, ctx.leaves[i]))
    ensures r.Err? <==> exists l :: l in ContainersOf(served.fp, "") && Disagrees(lex, served, tests, forProvider, l)
  {
    var leaves := DeclaredContainerLeaves(served.fp);
    DeclaredLeavesAreDistinctLeaves(served.fp);
    SortIsPermutation(ContainersOf(served.fp, ""), LeafPath);
    var none := Input(leaves, l => NO_FACTS, tests, forProvider);
    assert none.Valid();
    var facts := ReadFacts(lex, served, forProvider, leaves);
    var read := (l: ContainerLeaf) => if l.path in facts then facts[l.path] else NO_FACTS;
    var input := Input(leaves, read, tests, forProvider);
    ctx := input;
    r := ContainerClearCoverage(input);
    forall l | l in leaves
      ensures HardConflict(input, l) <==> Disagrees(lex, served, tests, forProvider, l)
    {
      ReadConflict(lex, served, input, l);
    }
  }

  lemma ReadConflict(lex: Lexicon, served: Served, ctx: Input, l: ContainerLeaf)
    requires FactsRead(lex, served, ctx.forProvider, l, ctx.facts(l))
    ensures HardConflict(ctx, l) <==> Disagrees(lex, served, ctx.tests, ctx.forProvider, l)
  { }
}
