/** The three traversals of a served OpenAPI schema that must agree on what a leaf is:
    leafPaths (internal/roundtrip/roundtrip.go), collectImmutablePaths
    (internal/roundtrip/immutable.go) and collectContainerLeaves
    (internal/roundtrip/containerclear.go). */
module SchemaWalks {
  import opened Json
  import opened Text
  import opened Cells
  import opened ClearCredit
  import ClearCoverage

  /** A schema node: anything that is not a mapping, or the keys read from one (`props`
      empty when the node declares none, `minItems` 0 and `rules` empty likewise). */
  datatype Schema =
    | NotObject
    | Node(typ: string, props: map<string, Schema>, hasAdditional: bool, preservesUnknown: bool, immutableMarker: bool,
           minItems: int, rules: seq<string>)

  /** An explicit object with declared properties; every walk descends only here. */
  predicate Descends(s: Schema) { s.Node? && s.typ == "object" && s.props != map[] }

  function Child(prefix: string, name: string): string { if prefix == "" then name else prefix + "." + name }

  function Marked(s: Schema): bool { s.Node? && s.immutableMarker }

  predicate Names(s: Schema, names: seq<string>) { Descends(s) && forall n | n in names :: n in s.props }

  // ---------- what each walk produces ----------

  ghost function LeafPathsOf(s: Schema, prefix: string): seq<string>
    decreases s, 1, 0
  {
    if !Descends(s) then (if prefix != "" then [prefix] else [])
    else
      SortedKeysMembers(s.props.Keys);
      LeafPathsUnder(s, SortedKeys(s.props.Keys), prefix)
  }

  ghost function LeafPathsUnder(s: Schema, names: seq<string>, prefix: string): seq<string>
    requires Names(s, names)
    decreases s, 0, |names|
  {
    if names == [] then []
    else
      var n := names[|names| - 1];
      LeafPathsUnder(s, names[..|names| - 1], prefix) + LeafPathsOf(s.props[n], Child(prefix, n))
  }

  /** A childless node's own contribution to the container leaves. */
  function OwnContainer(s: Schema, prefix: string): seq<ContainerLeaf> {
    if prefix == "" || !s.Node? then []
    else if s.typ == "array" then [ContainerLeaf(prefix, ShapeList)]
    else if s.typ == "object" && (s.hasAdditional || s.preservesUnknown) then [ContainerLeaf(prefix, ShapeMap)]
    else []
  }

  ghost function ContainersOf(s: Schema, prefix: string): seq<ContainerLeaf>
    decreases s, 1, 0
  {
    if !Descends(s) then OwnContainer(s, prefix)
    else
      SortedKeysMembers(s.props.Keys);
      ContainersUnder(s, SortedKeys(s.props.Keys), prefix)
  }

  ghost function ContainersUnder(s: Schema, names: seq<string>, prefix: string): seq<ContainerLeaf>
    requires Names(s, names)
    decreases s, 0, |names|
  {
    if names == [] then []
    else
      var n := names[|names| - 1];
      ContainersUnder(s, names[..|names| - 1], prefix) + ContainersOf(s.props[n], Child(prefix, n))
  }

  function ImmutableOf(s: Schema, prefix: string, inherited: bool): set<string>
    decreases s, 1
  {
    var immutable := inherited || Marked(s);
    if Descends(s) then ImmutableUnder(s, s.props.Keys, prefix, immutable)
    else if prefix != "" && immutable then {prefix} else {}
  }

  function ImmutableUnder(s: Schema, names: set<string>, prefix: string, immutable: bool): set<string>
    requires s.Node? && names <= s.props.Keys
    decreases s, 0
  {
    set n, p | n in names && p in ImmutableOf(s.props[n], Child(prefix, n), immutable) :: p
  }

  // ---------- the walks ----------

  method SortedNames(props: map<string, Schema>) returns (names: seq<string>)
    ensures names == SortedKeys(props.Keys)
    ensures forall n :: n in names <==> n in props
  {
    names := [];
    var rest := props.Keys;
    while rest != {}
      invariant rest <= props.Keys && NoDuplicates(names)
      invariant forall n :: n in names <==> n in props && n !in rest
    {
      var n :| n in rest;
      OneMoreIsFree(names, n);
      names, rest := names + [n], rest - {n};
    }
    GatheredKeysSort(names, props.Keys);
    SortedKeysMembers(props.Keys);
    names := SortStrings(names);
  }

  lemma LeafPathsNext(s: Schema, names: seq<string>, i: nat, prefix: string)
    requires Names(s, names) && i < |names|
    ensures LeafPathsUnder(s, names[..i + 1], prefix)
         == LeafPathsUnder(s, names[..i], prefix) + LeafPathsOf(s.props[names[i]], Child(prefix, names[i]))
  {
    assert names[..i + 1][..i] == names[..i] && names[..i + 1][i] == names[i];
  }

  method LeafPaths(s: Schema, prefix: string) returns (out: seq<string>)
    ensures out == LeafPathsOf(s, prefix)
    decreases s
  {
    if !Descends(s) {
      if prefix != "" { return [prefix]; }
      return [];
    }
    var names := SortedNames(s.props);
    out := [];
    for i := 0 to |names|
      invariant out == LeafPathsUnder(s, names[..i], prefix)
    {
      LeafPathsNext(s, names, i, prefix);
      var sub := LeafPaths(s.props[names[i]], Child(prefix, names[i]));
      out := out + sub;
    }
    assert names[..|names|] == names;
  }

  /** The slice collectContainerLeaves appends to through its out parameter. */
  class LeafSink {
    var leaves: seq<ContainerLeaf>
    constructor ()
      ensures leaves == []
    { leaves := []; }
  }

  method CollectContainerLeaves(s: Schema, prefix: string, out: LeafSink)
    modifies out
    ensures out.leaves == old(out.leaves) + ContainersOf(s, prefix)
    decreases s, 1
  {
    if Descends(s) {
      CollectFromProperties(s, prefix, out);
      return;
    }
    if prefix == "" || !s.Node? { return; }
    if s.typ == "array" {
      out.leaves := out.leaves + [ContainerLeaf(prefix, ShapeList)];
    } else if s.typ == "object" {
      if s.hasAdditional || s.preservesUnknown { out.leaves := out.leaves + [ContainerLeaf(prefix, ShapeMap)]; }
    }
  }

  lemma ContainersNext(s: Schema, names: seq<string>, i: nat, prefix: string, before: seq<ContainerLeaf>)
    requires Names(s, names) && i < |names|
    ensures before + ContainersUnder(s, names[..i + 1], prefix)
         == before + ContainersUnder(s, names[..i], prefix) + ContainersOf(s.props[names[i]], Child(prefix, names[i]))
  {
    assert names[..i + 1][..i] == names[..i] && names[..i + 1][i] == names[i];
  }

  method CollectFromProperties(s: Schema, prefix: string, out: LeafSink)
    requires Descends(s)
    modifies out
    ensures out.leaves == old(out.leaves) + ContainersOf(s, prefix)
    decreases s, 0
  {
    var names := SortedNames(s.props);
    ghost var before := out.leaves;
    for i := 0 to |names|
      invariant out.leaves == before + ContainersUnder(s, names[..i], prefix)
    {
      ContainersNext(s, names, i, prefix, before);
      CollectContainerLeaves(s.props[names[i]], Child(prefix, names[i]), out);
    }
    assert names[..|names|] == names;
  }

  /** The shared map collectImmutablePaths writes into. */
  class PathSet {
    var paths: set<string>
    constructor ()
      ensures paths == {}
    { paths := {}; }
  }

  method CollectImmutablePaths(s: Schema, prefix: string, inherited: bool, out: PathSet)
    modifies out
    ensures out.paths == old(out.paths) + ImmutableOf(s, prefix, inherited)
    decreases s
  {
    if !s.Node? {
      if prefix != "" && inherited { out.paths := out.paths + {prefix}; }
      return;
    }
    var immutable := inherited || s.immutableMarker;
    if Descends(s) {
      var rest := s.props.Keys;
      ghost var done := {};
      while rest != {}
        invariant done == s.props.Keys - rest
        invariant out.paths == old(out.paths) + ImmutableUnder(s, done, prefix, immutable)
      {
        var name :| name in rest;
        CollectImmutablePaths(s.props[name], Child(prefix, name), immutable, out);
        UnderGrows(s, done, name, prefix, immutable);
        rest := rest - {name};
        done := done + {name};
      }
      assert done == s.props.Keys;
      return;
    }
    if prefix != "" && immutable { out.paths := out.paths + {prefix}; }
  }

  lemma UnderGrows(s: Schema, done: set<string>, name: string, prefix: string, immutable: bool)
    requires s.Node? && done <= s.props.Keys && name in s.props
    ensures ImmutableUnder(s, done + {name}, prefix, immutable)
         == ImmutableUnder(s, done, prefix, immutable) + ImmutableOf(s.props[name], Child(prefix, name), immutable)
  { }

  function LeafPath(l: ContainerLeaf): string { l.path }

  method DeclaredContainerLeaves(fpSchema: Schema) returns (leaves: seq<ContainerLeaf>)
    ensures leaves == SortBy(ContainersOf(fpSchema, ""), LeafPath)
  {
    var out := new LeafSink();
    CollectContainerLeaves(fpSchema, "", out);
    assert [] + ContainersOf(fpSchema, "") == ContainersOf(fpSchema, "");
    leaves := SortBy(out.leaves, LeafPath);
  }

  // ---------- an independent definition of a leaf ----------

  /** The node reached by descending through declared properties. */
  function NodeAt(s: Schema, path: Path): Option<Schema> {
    if path == [] then Some(s)
    else if s.Node? && s.typ == "object" && path[0] in s.props then NodeAt(s.props[path[0]], path[1..])
    else None
  }

  /** The node there has no declared properties to descend into. */
  predicate LeafAt(s: Schema, path: Path) {
    NodeAt(s, path).Some? &&
    var n := NodeAt(s, path).value;
    n.NotObject? || n.typ != "object" || n.props == map[]
  }

  predicate MarkedAt(s: Schema, path: Path) {
    NodeAt(s, path).Some? && NodeAt(s, path).value.Node? && NodeAt(s, path).value.immutableMarker
  }

  /** Some node from the root down to and including the one at `path` is marked. */
  ghost predicate MarkedOnRoute(s: Schema, path: Path) {
    exists i :: 0 <= i <= |path| && MarkedAt(s, path[..i])
  }

  predicate ProperName(n: string) { n != "" && Undotted(n) }

  predicate ProperNames(s: Schema) {
    s.Node? ==> forall n | n in s.props :: ProperName(n) && ProperNames(s.props[n])
  }

  /** Non-empty, dot-free segments: dotted joining loses nothing on these. */
  predicate Proper(path: Path) { forall n | n in path :: ProperName(n) }

  function Dotted(path: Path): string { Join(path, '.') }

  lemma DottedChild(at: Path, n: string)
    requires Proper(at) && ProperName(n)
    ensures Child(Dotted(at), n) == Dotted(at + [n]) && Proper(at + [n])
    ensures Dotted(at) == "" <==> at == []
  {
    DottedEmpty(at);
    if at == [] {
      assert at + [n] == [n];
    } else {
      JoinAppend(at, [n], '.');
    }
  }

  lemma DottedEmpty(at: Path)
    requires Proper(at)
    ensures Dotted(at) == "" <==> at == []
  {
    if |at| == 1 { assert at[0] in at; }
  }

  lemma DottedInjective(p: Path, q: Path)
    requires Proper(p) && Proper(q) && Dotted(p) == Dotted(q)
    ensures p == q
  {
    DottedEmpty(p); DottedEmpty(q);
    if p != [] && q != [] { SplitJoin(p, '.'); SplitJoin(q, '.'); }
  }

  lemma DottedApart(p: Path, q: Path)
    requires Proper(p) && Proper(q) && p != q
    ensures Dotted(p) != Dotted(q)
  {
    if Dotted(p) == Dotted(q) { DottedInjective(p, q); }
  }

  lemma {:induction false} LeafPathIsProper(s: Schema, path: Path)
    requires ProperNames(s) && NodeAt(s, path).Some?
    ensures Proper(path)
  {
    if path == [] {
    } else {
      LeafPathIsProper(s.props[path[0]], path[1..]);
      assert path == [path[0]] + path[1..];
    }
  }

  // ---------- the walks find exactly the leaves ----------

  lemma {:induction false} RouteIsListed(s: Schema, at: Path, q: Path)
    requires ProperNames(s) && Proper(at) && LeafAt(s, q) && at + q != []
    ensures Dotted(at + q) in LeafPathsOf(s, Dotted(at))
    decreases s, 1, 0
  {
    DottedEmpty(at);
    if q == [] {
      assert at + q == at;
    } else {
      SortedKeysMembers(s.props.Keys);
      RouteIsListedUnder(s, SortedKeys(s.props.Keys), at, q);
    }
  }

  lemma {:induction false} RouteIsListedUnder(s: Schema, names: seq<string>, at: Path, q: Path)
    requires ProperNames(s) && Proper(at) && Names(s, names) && q != [] && q[0] in names && LeafAt(s, q)
    ensures Dotted(at + q) in LeafPathsUnder(s, names, Dotted(at))
    decreases s, 0, |names|
  {
    var n, rest := names[|names| - 1], names[..|names| - 1];
    assert names == rest + [n];
    assert n in names;
    DottedChild(at, n);
    if q[0] == n {
      assert at + [n] + q[1..] == at + q;
      RouteIsListed(s.props[n], at + [n], q[1..]);
    } else {
      RouteIsListedUnder(s, rest, at, q);
    }
  }

  lemma ChildRoute(s: Schema, at: Path, n: string, r: Path)
    requires Descends(s) && n in s.props && LeafAt(s.props[n], r)
    ensures LeafAt(s, [n] + r) && at + [n] + r == at + ([n] + r)
  {
    assert ([n] + r)[1..] == r;
  }

  lemma {:induction false} ListedHasRoute(s: Schema, at: Path, p: string) returns (q: Path)
    requires ProperNames(s) && Proper(at) && p in LeafPathsOf(s, Dotted(at))
    ensures LeafAt(s, q) && at + q != [] && p == Dotted(at + q)
    decreases s, 1, 0
  {
    DottedEmpty(at);
    if Descends(s) {
      SortedKeysMembers(s.props.Keys);
      q := ListedUnderHasRoute(s, SortedKeys(s.props.Keys), at, p);
    } else {
      q := [];
      assert at + q == at;
    }
  }

  lemma {:induction false} ListedUnderHasRoute(s: Schema, names: seq<string>, at: Path, p: string) returns (q: Path)
    requires ProperNames(s) && Proper(at) && Names(s, names) && p in LeafPathsUnder(s, names, Dotted(at))
    ensures q != [] && q[0] in names && LeafAt(s, q) && p == Dotted(at + q)
    decreases s, 0, |names|
  {
    var n, rest := names[|names| - 1], names[..|names| - 1];
    assert names == rest + [n];
    assert n in names;
    DottedChild(at, n);
    if p in LeafPathsOf(s.props[n], Dotted(at + [n])) {
      var r := ListedHasRoute(s.props[n], at + [n], p);
      ChildRoute(s, at, n, r);
      q := [n] + r;
    } else {
      assert p in LeafPathsUnder(s, rest, Dotted(at));
      q := ListedUnderHasRoute(s, rest, at, p);
    }
  }

  /** leafPaths lists a dotted path exactly when it is the joining of a route to a
      childless node below the root. */
  lemma LeafPathsAreLeaves(s: Schema, p: string)
    requires ProperNames(s)
    ensures p in LeafPathsOf(s, "") <==> exists q :: q != [] && LeafAt(s, q) && p == Dotted(q)
  {
    if p in LeafPathsOf(s, "") {
      var q := ListedHasRoute(s, [], p);
      assert [] + q == q;
    }
    forall q | q != [] && LeafAt(s, q) && p == Dotted(q) ensures p in LeafPathsOf(s, "") {
      assert [] + q == q;
      RouteIsListed(s, [], q);
    }
  }

  lemma {:induction false} NoLeafTwice(s: Schema, at: Path)
    requires ProperNames(s) && Proper(at)
    ensures NoDuplicates(LeafPathsOf(s, Dotted(at)))
    decreases s, 1, 0
  {
    if Descends(s) {
      SortedKeysMembers(s.props.Keys);
      KeysHaveNoDuplicates(s.props.Keys);
      NoLeafTwiceUnder(s, SortedKeys(s.props.Keys), at);
    }
  }

  lemma {:induction false} NoLeafTwiceUnder(s: Schema, names: seq<string>, at: Path)
    requires ProperNames(s) && Proper(at) && Names(s, names) && NoDuplicates(names)
    ensures NoDuplicates(LeafPathsUnder(s, names, Dotted(at)))
    decreases s, 0, |names|
  {
    if names == [] {
    } else {
      var n, rest := names[|names| - 1], names[..|names| - 1];
      assert names == rest + [n];
      assert n in names && ProperName(n);
      DottedChild(at, n);
      NoLeafTwice(s.props[n], at + [n]);
      InitNoDuplicates(names);
      NoLeafTwiceUnder(s, rest, at);
      var a, b := LeafPathsOf(s.props[n], Dotted(at + [n])), LeafPathsUnder(s, rest, Dotted(at));
      forall p, p' | p in a && p' in b ensures p != p' {
        var r := ListedHasRoute(s.props[n], at + [n], p);
        var q := ListedUnderHasRoute(s, rest, at, p');
        LeafPathIsProper(s.props[n], r);
        LeafPathIsProper(s, q);
        assert (at + [n] + r)[|at|] == n && (at + q)[|at|] == q[0];
        DottedApart(at + [n] + r, at + q);
      }
      DisjointNoDuplicates(b, a);
    }
  }

  lemma {:induction false} DisjointNoDuplicates<T>(a: seq<T>, b: seq<T>)
    requires NoDuplicates(a) && NoDuplicates(b) && forall x | x in a :: x !in b
    ensures NoDuplicates(a + b)
  {
    if a == [] {
      assert a + b == b;
    } else {
      assert (a + b)[1..] == a[1..] + b;
      DisjointNoDuplicates(a[1..], b);
    }
  }

  lemma KeysHaveNoDuplicates(s: set<string>)
    ensures NoDuplicates(SortedKeys(s))
  {
    DuplicateFreeIsSet(Enumerate(s));
    SortIsPermutation(Enumerate(s), Same);
    FreeHasNoDuplicates(SortedKeys(s));
  }

  /** No leaf path is a dotted ancestor of another. */
  lemma LeavesAreNotAncestors(s: Schema, a: string, b: string)
    requires ProperNames(s) && a in LeafPathsOf(s, "") && b in LeafPathsOf(s, "")
    ensures !IsAncestorOf(a, b)
  {
    LeafPathsAreLeaves(s, a); LeafPathsAreLeaves(s, b);
    var p :| p != [] && LeafAt(s, p) && a == Dotted(p);
    var q :| q != [] && LeafAt(s, q) && b == Dotted(q);
    LeafPathIsProper(s, p); LeafPathIsProper(s, q);
    SplitJoin(p, '.'); SplitJoin(q, '.');
    AncestorTestsAgree(a, b);
    if |p| < |q| && p == q[..|p|] { BelowALeaf(s, p, q); }
  }

  lemma {:induction false} BelowALeaf(s: Schema, p: Path, q: Path)
    requires LeafAt(s, p) && |p| < |q| && p == q[..|p|]
    ensures !LeafAt(s, q)
  {
    if p != [] && NodeAt(s, q).Some? {
      assert p[1..] == q[1..][..|p| - 1] && p[0] == q[0];
      BelowALeaf(s.props[p[0]], p[1..], q[1..]);
    }
  }

  // ---------- container leaves and immutable paths are leaves ----------

  lemma {:induction false} ContainersAreLeaves(s: Schema, prefix: string)
    ensures forall c | c in ContainersOf(s, prefix) :: c.path in LeafPathsOf(s, prefix)
    ensures NoDuplicates(LeafPathsOf(s, prefix)) ==> NoDuplicates(KeysOf(ContainersOf(s, prefix), LeafPath))
    decreases s, 1, 0
  {
    if Descends(s) {
      SortedKeysMembers(s.props.Keys);
      ContainersUnderAreLeaves(s, SortedKeys(s.props.Keys), prefix);
    }
  }

  lemma PathsWithin(c: seq<ContainerLeaf>, a: seq<string>)
    requires forall l | l in c :: l.path in a
    ensures forall p | p in KeysOf(c, LeafPath) :: p in a
  {
    forall p | p in KeysOf(c, LeafPath) ensures p in a {
      var i :| 0 <= i < |c| && KeysOf(c, LeafPath)[i] == p;
      assert c[i] in c;
    }
  }

  lemma PathsStayApart(c: seq<ContainerLeaf>, d: seq<ContainerLeaf>, a: seq<string>, b: seq<string>)
    requires NoDuplicates(a + b)
    requires (forall l | l in c :: l.path in a) && (forall l | l in d :: l.path in b)
    requires NoDuplicates(a) ==> NoDuplicates(KeysOf(c, LeafPath))
    requires NoDuplicates(b) ==> NoDuplicates(KeysOf(d, LeafPath))
    ensures NoDuplicates(KeysOf(c + d, LeafPath))
  {
    SplitNoDuplicates(a, b);
    KeysAppend(c, d, LeafPath);
    PathsWithin(c, a);
    PathsWithin(d, b);
    DisjointNoDuplicates(KeysOf(c, LeafPath), KeysOf(d, LeafPath));
  }

  lemma {:induction false} ContainersUnderAreLeaves(s: Schema, names: seq<string>, prefix: string)
    requires Names(s, names)
    ensures forall c | c in ContainersUnder(s, names, prefix) :: c.path in LeafPathsUnder(s, names, prefix)
    ensures NoDuplicates(LeafPathsUnder(s, names, prefix)) ==>
      NoDuplicates(KeysOf(ContainersUnder(s, names, prefix), LeafPath))
    decreases s, 0, |names|
  {
    if names == [] {
    } else {
      var n, rest := names[|names| - 1], names[..|names| - 1];
      assert names == rest + [n];
      ContainersAreLeaves(s.props[n], Child(prefix, n));
      ContainersUnderAreLeaves(s, rest, prefix);
      var a, b := LeafPathsOf(s.props[n], Child(prefix, n)), LeafPathsUnder(s, rest, prefix);
      var c, d := ContainersOf(s.props[n], Child(prefix, n)), ContainersUnder(s, rest, prefix);
      if NoDuplicates(b + a) { PathsStayApart(d, c, b, a); }
    }
  }

  lemma {:induction false} SplitNoDuplicates<T>(a: seq<T>, b: seq<T>)
    requires NoDuplicates(a + b)
    ensures NoDuplicates(a) && NoDuplicates(b) && forall x | x in a :: x !in b
  {
    if a == [] {
      assert a + b == b;
    } else {
      assert (a + b)[1..] == a[1..] + b;
      SplitNoDuplicates(a[1..], b);
      assert a == [a[0]] + a[1..];
    }
  }

  /** Every declared container leaf is a leaf path, and each path names one leaf, which
      is what ClearCoverage asks of its input. */
  lemma DeclaredLeavesAreDistinctLeaves(fpSchema: Schema)
    requires ProperNames(fpSchema)
    ensures var leaves := SortBy(ContainersOf(fpSchema, ""), LeafPath);
      && (forall l | l in leaves :: l.path in LeafPathsOf(fpSchema, ""))
      && (forall facts, tests, fp :: ClearCoverage.Input(leaves, facts, tests, fp).Valid())
  {
    var cs := ContainersOf(fpSchema, "");
    var leaves := SortBy(cs, LeafPath);
    NoLeafTwice(fpSchema, []);
    ContainersAreLeaves(fpSchema, "");
    SortIsPermutation(cs, LeafPath);
    SortedStayDistinct(cs, LeafPath);
    forall i, j | 0 <= i < j < |leaves| ensures leaves[i].path != leaves[j].path {
      assert KeysOf(leaves, LeafPath)[i] != KeysOf(leaves, LeafPath)[j];
    }
  }

  /** The container shapes a childless node can have. */
  predicate IsContainer(s: Schema, shape: Shape) {
    s.Node? &&
    match shape
    case ShapeList => s.typ == "array"
    case ShapeMap => s.typ == "object" && (s.hasAdditional || s.preservesUnknown)
    case ShapeScalar => false
  }

  ghost predicate ContainerOn(s: Schema, at: Path, q: Path, c: ContainerLeaf) {
    LeafAt(s, q) && at + q != [] && c.path == Dotted(at + q) && IsContainer(NodeAt(s, q).value, c.shape)
  }

  lemma {:induction false} ContainerHasRoute(s: Schema, at: Path, c: ContainerLeaf) returns (q: Path)
    requires ProperNames(s) && Proper(at) && c in ContainersOf(s, Dotted(at))
    ensures ContainerOn(s, at, q, c)
    decreases s, 1, 0
  {
    DottedEmpty(at);
    if Descends(s) {
      SortedKeysMembers(s.props.Keys);
      q := ContainerUnderHasRoute(s, SortedKeys(s.props.Keys), at, c);
    } else {
      q := [];
      assert at + q == at;
    }
  }

  lemma {:induction false} ContainerUnderHasRoute(s: Schema, names: seq<string>, at: Path, c: ContainerLeaf)
    returns (q: Path)
    requires ProperNames(s) && Proper(at) && Names(s, names) && c in ContainersUnder(s, names, Dotted(at))
    ensures ContainerOn(s, at, q, c)
    decreases s, 0, |names|
  {
    var n, rest := names[|names| - 1], names[..|names| - 1];
    assert names == rest + [n];
    assert n in names;
    DottedChild(at, n);
    if c in ContainersOf(s.props[n], Dotted(at + [n])) {
      var r := ContainerHasRoute(s.props[n], at + [n], c);
      ChildRoute(s, at, n, r);
      q := [n] + r;
      assert q[1..] == r;
    } else {
      assert c in ContainersUnder(s, rest, Dotted(at));
      q := ContainerUnderHasRoute(s, rest, at, c);
    }
  }

  lemma {:induction false} ContainerIsListed(s: Schema, at: Path, q: Path, c: ContainerLeaf)
    requires ProperNames(s) && Proper(at) && ContainerOn(s, at, q, c)
    ensures c in ContainersOf(s, Dotted(at))
    decreases s, 1, 0
  {
    DottedEmpty(at);
    if q == [] {
      assert at + q == at;
      assert c == ContainerLeaf(Dotted(at), c.shape);
    } else {
      SortedKeysMembers(s.props.Keys);
      ContainerIsListedUnder(s, SortedKeys(s.props.Keys), at, q, c);
    }
  }

  lemma {:induction false} ContainerIsListedUnder(s: Schema, names: seq<string>, at: Path, q: Path, c: ContainerLeaf)
    requires ProperNames(s) && Proper(at) && Names(s, names) && q != [] && q[0] in names && ContainerOn(s, at, q, c)
    ensures c in ContainersUnder(s, names, Dotted(at))
    decreases s, 0, |names|
  {
    var n, rest := names[|names| - 1], names[..|names| - 1];
    assert names == rest + [n];
    assert n in names;
    DottedChild(at, n);
    if q[0] == n {
      assert at + [n] + q[1..] == at + q;
      ContainerIsListed(s.props[n], at + [n], q[1..], c);
    } else {
      ContainerIsListedUnder(s, rest, at, q, c);
    }
  }

  /** The container leaves are exactly the list-shaped and open-map-shaped childless nodes
      below the root. */
  lemma ContainersExactly(s: Schema, c: ContainerLeaf)
    requires ProperNames(s)
    ensures c in ContainersOf(s, "") <==>
      exists q :: q != [] && LeafAt(s, q) && c.path == Dotted(q) && IsContainer(NodeAt(s, q).value, c.shape)
  {
    if c in ContainersOf(s, "") {
      var q := ContainerHasRoute(s, [], c);
      assert [] + q == q;
    }
    forall q | q != [] && LeafAt(s, q) && c.path == Dotted(q) && IsContainer(NodeAt(s, q).value, c.shape)
      ensures c in ContainersOf(s, "")
    {
      assert [] + q == q;
      ContainerIsListed(s, [], q, c);
    }
  }

  lemma {:induction false} MarkedRouteIsImmutable(s: Schema, at: Path, inherited: bool, q: Path)
    requires ProperNames(s) && Proper(at) && LeafAt(s, q) && at + q != []
    requires inherited || MarkedOnRoute(s, q)
    ensures Dotted(at + q) in ImmutableOf(s, Dotted(at), inherited)
    decreases s
  {
    DottedEmpty(at);
    if q == [] {
      assert at + q == at;
      MarkedAtRoot(s);
    } else {
      var n, r := q[0], q[1..];
      assert q == [n] + r && at + [n] + r == at + q;
      RouteStep(s, n, r);
      DottedChild(at, n);
      MarkedRouteIsImmutable(s.props[n], at + [n], inherited || Marked(s), r);
    }
  }

  lemma {:induction false} ImmutableHasMarkedRoute(s: Schema, at: Path, inherited: bool, p: string) returns (q: Path)
    requires ProperNames(s) && Proper(at) && p in ImmutableOf(s, Dotted(at), inherited)
    ensures LeafAt(s, q) && at + q != [] && p == Dotted(at + q) && (inherited || MarkedOnRoute(s, q))
    decreases s
  {
    DottedEmpty(at);
    if Descends(s) {
      var immutable := inherited || Marked(s);
      var n :| n in s.props && p in ImmutableOf(s.props[n], Child(Dotted(at), n), immutable);
      DottedChild(at, n);
      var r := ImmutableHasMarkedRoute(s.props[n], at + [n], immutable, p);
      ChildRoute(s, at, n, r);
      q := [n] + r;
      RouteStep(s, n, r);
    } else {
      q := [];
      assert at + q == at;
      MarkedAtRoot(s);
    }
  }

  lemma MarkedAtRoot(s: Schema)
    ensures MarkedOnRoute(s, []) <==> Marked(s)
  {
    var none: Path := [];
    assert none[..0] == [] && NodeAt(s, none[..0]) == Some(s);
  }

  lemma RouteStep(s: Schema, n: string, r: Path)
    requires Descends(s) && n in s.props
    ensures MarkedOnRoute(s, [n] + r) <==> Marked(s) || MarkedOnRoute(s.props[n], r)
  {
    var q := [n] + r;
    forall i | 0 <= i <= |r| ensures NodeAt(s, q[..i + 1]) == NodeAt(s.props[n], r[..i]) {
      assert q[..i + 1][1..] == r[..i] && q[..i + 1][0] == n;
    }
    assert q[..0] == [] && NodeAt(s, q[..0]) == Some(s);
    if MarkedOnRoute(s, q) {
      var i :| 0 <= i <= |q| && MarkedAt(s, q[..i]);
      if i > 0 { assert NodeAt(s, q[..i - 1 + 1]) == NodeAt(s.props[n], r[..i - 1]); }
    }
    if MarkedOnRoute(s.props[n], r) {
      var i :| 0 <= i <= |r| && MarkedAt(s.props[n], r[..i]);
      assert MarkedAt(s, q[..i + 1]);
    }
  }

  /** immutablePaths holds exactly the leaf paths with a marked node somewhere on their
      route from the root down. */
  lemma ImmutableMeansMarked(s: Schema, p: string)
    requires ProperNames(s)
    ensures p in ImmutableOf(s, "", false) <==>
      exists q :: q != [] && LeafAt(s, q) && p == Dotted(q) && MarkedOnRoute(s, q)
    ensures p in ImmutableOf(s, "", false) ==> p in LeafPathsOf(s, "")
  {
    if p in ImmutableOf(s, "", false) {
      var q := ImmutableHasMarkedRoute(s, [], false, p);
      assert [] + q == q;
    }
    forall q | q != [] && LeafAt(s, q) && p == Dotted(q) && MarkedOnRoute(s, q) ensures p in ImmutableOf(s, "", false) {
      assert [] + q == q;
      MarkedRouteIsImmutable(s, [], false, q);
    }
    LeafPathsAreLeaves(s, p);
  }
}
