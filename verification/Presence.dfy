/** The synthetic presence tree of internal/roundtrip/ineligible.go as a JSON value:
    what testEntryDataTree has written once every tested entry is in, and exactly which
    paths presentAtPath then finds. PresenceHeap.dfy proves the in-place construction
    against this. */
module Presence {
  import opened Json
  import opened Text
  import opened Manifest

  /** presentAtPath: every segment an explicit member, whatever value it holds. */
  predicate PresentAt(root: Json, path: Path) { Get(root, path).Some? }

  /** setAtPath: descend, replacing anything that is not an object by a fresh one. */
  function SetAt(tree: Json, path: Path, value: Json): (r: Json)
    ensures path != [] ==> r.Object?
    decreases path
  {
    if path == [] then value
    else
      var m := Members(tree);
      Object(m[path[0] := SetAt(MemberOr(m, path[0]), path[1..], value)])
  }

  datatype Write = Write(path: Path, value: Json)

  function Apply(tree: Json, writes: seq<Write>): Json {
    if writes == [] then tree
    else
      var w := writes[|writes| - 1];
      SetAt(Apply(tree, writes[..|writes| - 1]), w.path, w.value)
  }

  /** An entry's writes: its own field, then its withValues siblings in some order. */
  ghost function WritesOf(t: UpdateTest): seq<Write> {
    OwnWrite(t) + SiblingWrites(Enumerate(t.withValues.Keys), t.withValues)
  }

  function OwnWrite(t: UpdateTest): seq<Write> { if t.field == "" then [] else [Write(Segments(t.field), t.value)] }

  function SiblingWrites(keys: seq<string>, values: map<string, Json>): (r: seq<Write>)
    requires forall k | k in keys :: k in values
    ensures |r| == |keys|
  {
    if keys == [] then [] else [Write(Segments(keys[0]), values[keys[0]])] + SiblingWrites(keys[1..], values)
  }

  /** Every write testEntryDataTree performs: tested entries only, in manifest order. */
  ghost function AllWrites(tests: seq<UpdateTest>): seq<Write> {
    if tests == [] then []
    else
      var t := tests[|tests| - 1];
      AllWrites(tests[..|tests| - 1]) + (if t.skip.Present() then [] else WritesOf(t))
  }

  const EMPTY: Json := Object(map[])

  /** One tested entry's effect on the tree. A withValues key is a top-level name other
      than the entry's own field, so the order Go ranges over them cannot matter. */
  function EntryTree(tree: Json, t: UpdateTest): (r: Json)
    requires tree.Object?
    ensures r.Object?
  {
    Object(OwnTree(tree, t).members + t.withValues)
  }

  function OwnTree(tree: Json, t: UpdateTest): (r: Json)
    requires tree.Object?
    ensures r.Object?
  {
    if t.field == "" then tree else SetAt(tree, Segments(t.field), t.value)
  }

  function TestDataTree(tests: seq<UpdateTest>): (r: Json)
    ensures r.Object?
  {
    if tests == [] then EMPTY
    else
      var t, before := tests[|tests| - 1], TestDataTree(tests[..|tests| - 1]);
      if t.skip.Present() then before else EntryTree(before, t)
  }

  lemma {:induction false} ApplyAppend(tree: Json, a: seq<Write>, b: seq<Write>)
    ensures Apply(tree, a + b) == Apply(Apply(tree, a), b)
  {
    if b == [] {
      assert a + b == a;
    } else {
      var all := a + b;
      assert all[..|all| - 1] == a + b[..|b| - 1] && all[|all| - 1] == b[|b| - 1];
      ApplyAppend(tree, a, b[..|b| - 1]);
    }
  }

  function Restrict(values: map<string, Json>, keys: seq<string>): map<string, Json> {
    map k | k in values && k in keys :: values[k]
  }

  lemma OneSibling(tree: Json, k: string, value: Json)
    requires tree.Object? && Undotted(k)
    ensures Apply(tree, [Write(Segments(k), value)]) == Object(tree.members[k := value])
  {
    var w := Write(Segments(k), value);
    UndottedSegment(k);
    assert [w][..0] == [] && Apply(tree, [w][..0]) == tree;
    assert w.path[1..] == [] && SetAt(MemberOr(tree.members, k), [], value) == value;
  }

  lemma {:induction false} SiblingsAreUnion(tree: Json, keys: seq<string>, values: map<string, Json>)
    requires tree.Object? && NoDuplicates(keys)
    requires forall k | k in keys :: k in values && Undotted(k)
    ensures Apply(tree, SiblingWrites(keys, values)) == Object(tree.members + Restrict(values, keys))
    decreases |keys|
  {
    if keys == [] {
      assert Restrict(values, []) == map[];
    } else {
      var k0, rest := keys[0], keys[1..];
      var w := Write(Segments(k0), values[k0]);
      ApplyAppend(tree, [w], SiblingWrites(rest, values));
      OneSibling(tree, k0, values[k0]);
      SiblingsAreUnion(Object(tree.members[k0 := values[k0]]), rest, values);
      RestrictStep(tree.members, keys, values);
    }
  }

  lemma RestrictStep(m: map<string, Json>, keys: seq<string>, values: map<string, Json>)
    requires keys != [] && NoDuplicates(keys) && keys[0] in values
    ensures m[keys[0] := values[keys[0]]] + Restrict(values, keys[1..]) == m + Restrict(values, keys)
  {
    assert keys == [keys[0]] + keys[1..];
  }

  lemma EntryIsItsWrites(tree: Json, t: UpdateTest)
    requires tree.Object? && WithValuesAllowed(t.field, t.withValues, t.clear)
    ensures Apply(tree, WritesOf(t)) == EntryTree(tree, t)
  {
    var own, keys := OwnWrite(t), Enumerate(t.withValues.Keys);
    assert forall k :: k in keys <==> k in (set x | x in keys);
    ApplyAppend(tree, own, SiblingWrites(keys, t.withValues));
    if own != [] { assert own[..0] == []; assert Apply(tree, own[..0]) == tree; }
    assert Apply(tree, own) == OwnTree(tree, t);
    SiblingsAreUnion(OwnTree(tree, t), keys, t.withValues);
    assert Restrict(t.withValues, keys) == t.withValues;
  }

  /** The tree is the left-to-right application of every tested entry's writes. */
  lemma {:induction false} TreeIsItsWrites(tests: seq<UpdateTest>)
    requires forall t | t in tests :: WithValuesAllowed(t.field, t.withValues, t.clear)
    ensures TestDataTree(tests) == Apply(EMPTY, AllWrites(tests))
  {
    if tests == [] {
    } else {
      var before, t := tests[..|tests| - 1], tests[|tests| - 1];
      TreeIsItsWrites(before);
      if t.skip.Present() {
        assert AllWrites(tests) == AllWrites(before);
      } else {
        ApplyAppend(EMPTY, AllWrites(before), WritesOf(t));
        EntryIsItsWrites(TestDataTree(before), t);
      }
    }
  }

  // ---------- which paths are found ----------

  predicate Prefix(p: Path, q: Path) { |p| <= |q| && q[..|p|] == p }
  predicate ProperPrefix(p: Path, q: Path) { Prefix(p, q) && |p| < |q| }

  /** One write and one later lookup. */
  lemma {:induction false} LookupAfterSet(tree: Json, w: Write, path: Path)
    requires w.path != [] && path != []
    ensures PresentAt(SetAt(tree, w.path, w.value), path) <==>
      if Prefix(w.path, path) then PresentAt(w.value, path[|w.path|..])
      else Prefix(path, w.path) || PresentAt(tree, path)
    decreases path
  {
    var p, q := w.path, path;
    assert p == [p[0]] + p[1..] && q == [q[0]] + q[1..];
    if p[0] != q[0] {
      assert !Prefix(p, q) && !Prefix(q, p);
    } else {
      PrefixTails(p, q);
      PrefixTails(q, p);
      var sub := MemberOr(Members(tree), p[0]);
      assert Get(SetAt(tree, p, w.value), q) == Get(SetAt(sub, p[1..], w.value), q[1..]);
      if |p| > 1 && |q| > 1 {
        LookupAfterSet(sub, Write(p[1..], w.value), q[1..]);
        if Prefix(p, q) { assert q[1..][|p| - 1..] == q[|p|..]; }
      } else if |p| == 1 {
        assert q[1..] == q[|p|..] && p[1..] == [];
      } else {
        assert q[1..] == [] && Prefix(q, p);
      }
    }
  }

  lemma PrefixTails(p: Path, q: Path)
    requires p != [] && q != [] && p[0] == q[0]
    ensures Prefix(p, q) <==> Prefix(p[1..], q[1..])
  {
    assert p == [p[0]] + p[1..] && q == [q[0]] + q[1..];
    if |p| <= |q| { assert q[..|p|] == [q[0]] + q[1..][..|p| - 1]; }
  }

  /** Index of the last write at the path itself or at an ancestor of it. */
  function LastCovering(writes: seq<Write>, path: Path): (r: Option<nat>)
    ensures r.Some? ==> r.value < |writes| && Prefix(writes[r.value].path, path)
    ensures r.Some? ==> forall j :: r.value < j < |writes| ==> !Prefix(writes[j].path, path)
    ensures r.None? ==> forall j :: 0 <= j < |writes| ==> !Prefix(writes[j].path, path)
  {
    if writes == [] then None
    else if Prefix(writes[|writes| - 1].path, path) then Some(|writes| - 1)
    else LastCovering(writes[..|writes| - 1], path)
  }

  /** Exactly which paths the finished tree holds: the last write at or above a path
      decides it by the value it wrote, unless a later write went below the path and so
      created it anew. */
  lemma {:induction false} FoundExactly(writes: seq<Write>, path: Path)
    requires path != [] && forall w | w in writes :: w.path != []
    ensures var c := LastCovering(writes, path);
      PresentAt(Apply(EMPTY, writes), path) <==>
        || (c.Some? && PresentAt(writes[c.value].value, path[|writes[c.value].path|..]))
        || (exists j :: 0 <= j < |writes| && ProperPrefix(path, writes[j].path) && (c.Some? ==> c.value < j))
  {
    if writes == [] {
      assert path[0] !in EMPTY.members;
    } else {
      var before, w := writes[..|writes| - 1], writes[|writes| - 1];
      FoundExactly(before, path);
      LookupAfterSet(Apply(EMPTY, before), w, path);
      var c := LastCovering(writes, path);
      if Prefix(w.path, path) {
        assert c == Some(|writes| - 1);
      } else {
        assert c == LastCovering(before, path);
        assert forall j :: 0 <= j < |before| ==> writes[j] == before[j];
        if Prefix(path, w.path) {
          assert |path| == |w.path| ==> w.path == path;
          assert ProperPrefix(path, writes[|writes| - 1].path);
        }
      }
    }
  }

  /** The promise setAtPath's own comment makes: a written path is found again, unless a
      later tested entry wrote a strict ancestor of it. */
  lemma WrittenIsFound(writes: seq<Write>, i: nat)
    requires i < |writes| && forall w | w in writes :: w.path != []
    requires forall j :: i < j < |writes| ==> !ProperPrefix(writes[j].path, writes[i].path)
    ensures PresentAt(Apply(EMPTY, writes), writes[i].path)
  {
    var path := writes[i].path;
    assert path != [] by { assert writes[i] in writes; }
    assert Prefix(writes[i].path, path);
    var c := LastCovering(writes, path).value;
    assert i <= c;
    assert writes[c].path == path by {
      if c > i { assert !ProperPrefix(writes[c].path, path); }
    }
    assert PresentAt(writes[c].value, path[|path|..]);
    FoundExactly(writes, path);
  }

  // ---------- the same promise, entry by entry ----------

  /** A tested entry writes its own field and each of its withValues keys. */
  predicate WritesPath(t: UpdateTest, path: Path) {
    && !t.skip.Present()
    && ((t.field != "" && path == Segments(t.field)) || exists k | k in t.withValues :: path == Segments(k))
  }

  lemma {:induction false} SiblingPaths(keys: seq<string>, values: map<string, Json>, path: Path)
    requires forall k | k in keys :: k in values
    ensures (exists w :: w in SiblingWrites(keys, values) && w.path == path) <==>
      exists k :: k in keys && path == Segments(k)
  {
    if keys == [] {
    } else {
      var own := Write(Segments(keys[0]), values[keys[0]]);
      SiblingPaths(keys[1..], values, path);
      assert SiblingWrites(keys, values) == [own] + SiblingWrites(keys[1..], values) && keys == [keys[0]] + keys[1..];
      assert own in SiblingWrites(keys, values);
      assert forall w :: w in SiblingWrites(keys, values) <==> w == own || w in SiblingWrites(keys[1..], values);
    }
  }

  lemma EntryPaths(t: UpdateTest, path: Path)
    requires !t.skip.Present()
    ensures (exists w :: w in WritesOf(t) && w.path == path) <==> WritesPath(t, path)
  {
    var keys := Enumerate(t.withValues.Keys);
    assert forall k :: k in keys <==> k in (set x | x in keys);
    SiblingPaths(keys, t.withValues, path);
    if t.field != "" { assert OwnWrite(t)[0] in WritesOf(t); }
    assert forall w :: w in WritesOf(t) <==> w in OwnWrite(t) || w in SiblingWrites(keys, t.withValues);
  }

  /** Writes none of which lands strictly above a path keep it, or bring it. */
  lemma {:induction false} ApplyKeeps(tree: Json, writes: seq<Write>, path: Path)
    requires path != [] && forall w | w in writes :: w.path != [] && !ProperPrefix(w.path, path)
    requires PresentAt(tree, path) || exists w :: w in writes && w.path == path
    ensures PresentAt(Apply(tree, writes), path)
  {
    if writes == [] {
    } else {
      var before, w := writes[..|writes| - 1], writes[|writes| - 1];
      assert writes == before + [w];
      LookupAfterSet(Apply(tree, before), w, path);
      if w.path == path {
        assert path[|path|..] == [];
      } else {
        ApplyKeeps(tree, before, path);
      }
    }
  }

  lemma EntryKeeps(tree: Json, t: UpdateTest, path: Path)
    requires tree.Object? && !t.skip.Present() && WithValuesAllowed(t.field, t.withValues, t.clear) && path != []
    requires WritesPath(t, path) || (PresentAt(tree, path) && forall p | WritesPath(t, p) :: !ProperPrefix(p, path))
    ensures PresentAt(EntryTree(tree, t), path)
  {
    EntryIsItsWrites(tree, t);
    EntryPaths(t, path);
    forall w | w in WritesOf(t) ensures w.path != [] && !ProperPrefix(w.path, path) {
      EntryPaths(t, w.path);
      assert WritesPath(t, w.path);
      if WritesPath(t, path) { OwnPathsApart(t, w.path, path); }
    }
    ApplyKeeps(tree, WritesOf(t), path);
  }

  /** One accepted entry never writes above another of its own paths. */
  lemma OwnPathsApart(t: UpdateTest, p: Path, q: Path)
    requires WithValuesAllowed(t.field, t.withValues, t.clear) && WritesPath(t, p) && WritesPath(t, q)
    ensures p != [] && !ProperPrefix(p, q)
  {
    forall k | k in t.withValues ensures |Segments(k)| == 1 { UndottedSegment(k); }
    if t.withValues != map[] { UndottedSegment(t.field); }
  }

  /** Every path a tested entry writes is found in the finished tree, unless a later
      tested entry wrote one of its strict ancestors. */
  lemma {:induction false} TestedPathIsFound(tests: seq<UpdateTest>, i: nat, path: Path)
    requires forall t | t in tests :: WithValuesAllowed(t.field, t.withValues, t.clear)
    requires i < |tests| && WritesPath(tests[i], path)
    requires forall j, p | i < j < |tests| && WritesPath(tests[j], p) :: !ProperPrefix(p, path)
    ensures PresentAt(TestDataTree(tests), path)
  {
    var n := |tests| - 1;
    var before, t := tests[..n], tests[n];
    assert path != [];
    if i < n {
      assert before[i] == tests[i];
      TestedPathIsFound(before, i, path);
    }
    if !t.skip.Present() { EntryKeeps(TestDataTree(before), t, path); }
  }

  // ---------- exactly the tested entries' paths ----------

  /** A tested entry writes value `v` at `q`. */
  ghost predicate WritesTo(t: UpdateTest, q: Path, v: Json) {
    && !t.skip.Present()
    && ((t.field != "" && q == Segments(t.field) && v == t.value)
        || exists k :: k in t.withValues && q == Segments(k) && v == t.withValues[k])
  }

  /** One of its writes makes the path present: at or above it with a value that reaches it,
      or below it. */
  ghost predicate Brings(t: UpdateTest, path: Path) {
    exists q, v :: WritesTo(t, q, v) &&
      ((Prefix(q, path) && Get(v, path[|q|..]).Some?) || ProperPrefix(path, q))
  }

  /** One of its writes decides the path by the value written. */
  ghost predicate Covers(t: UpdateTest, path: Path) { exists q, v :: WritesTo(t, q, v) && Prefix(q, path) }

  lemma SiblingSegments(t: UpdateTest)
    requires WithValuesAllowed(t.field, t.withValues, t.clear)
    ensures forall k | k in t.withValues :: Segments(k) == [k] && k != t.field
    ensures t.withValues != map[] ==> Segments(t.field) == [t.field]
  {
    forall k | k in t.withValues ensures Segments(k) == [k] { UndottedSegment(k); }
    if t.withValues != map[] { UndottedSegment(t.field); }
  }

  lemma SiblingLookup(tree: Json, t: UpdateTest, path: Path)
    requires tree.Object? && !t.skip.Present() && WithValuesAllowed(t.field, t.withValues, t.clear)
    requires path != [] && path[0] in t.withValues
    ensures Covers(t, path) && (PresentAt(EntryTree(tree, t), path) <==> Brings(t, path))
  {
    var k := path[0];
    SiblingSegments(t);
    assert WritesTo(t, [k], t.withValues[k]) && Prefix([k], path) && path[|[k]|..] == path[1..];
    forall q, v | WritesTo(t, q, v) && (Prefix(q, path) || ProperPrefix(path, q))
      ensures q == [k] && v == t.withValues[k]
    {
      assert |q| == 1 && q[0] == k;
    }
  }

  lemma OwnLookup(tree: Json, t: UpdateTest, path: Path)
    requires tree.Object? && !t.skip.Present() && WithValuesAllowed(t.field, t.withValues, t.clear)
    requires path != [] && path[0] !in t.withValues
    ensures PresentAt(EntryTree(tree, t), path) <==> Brings(t, path) || (PresentAt(tree, path) && !Covers(t, path))
  {
    var own := Segments(t.field);
    SiblingSegments(t);
    assert PresentAt(EntryTree(tree, t), path) <==> PresentAt(OwnTree(tree, t), path);
    forall q, v | WritesTo(t, q, v) && (Prefix(q, path) || ProperPrefix(path, q))
      ensures t.field != "" && q == own && v == t.value
    { }
    if t.field != "" {
      LookupAfterSet(tree, Write(own, t.value), path);
      assert WritesTo(t, own, t.value);
      assert Prefix(path, own) && !Prefix(own, path) ==> ProperPrefix(path, own);
      assert ProperPrefix(path, own) ==> !Prefix(own, path);
    }
  }

  lemma EntryLookup(tree: Json, t: UpdateTest, path: Path)
    requires tree.Object? && !t.skip.Present() && WithValuesAllowed(t.field, t.withValues, t.clear) && path != []
    ensures PresentAt(EntryTree(tree, t), path) <==> Brings(t, path) || (PresentAt(tree, path) && !Covers(t, path))
  {
    if path[0] in t.withValues { SiblingLookup(tree, t, path); } else { OwnLookup(tree, t, path); }
  }

  /** Entry i brings the path, and no later entry writes at it or above it. */
  ghost predicate Decides(tests: seq<UpdateTest>, i: nat, path: Path) {
    i < |tests| && Brings(tests[i], path) && forall j :: i < j < |tests| ==> !Covers(tests[j], path)
  }

  /** Exactly the paths of the finished tree, entry by entry: those some tested entry brings
      and no later tested entry writes at or above. A skipped entry brings nothing and hides
      nothing. */
  lemma {:induction false} TestedPathsExactly(tests: seq<UpdateTest>, path: Path)
    requires path != [] && forall t | t in tests :: WithValuesAllowed(t.field, t.withValues, t.clear)
    ensures PresentAt(TestDataTree(tests), path) <==> exists i: nat :: Decides(tests, i, path)
  {
    if tests == [] {
      assert path[0] !in EMPTY.members;
    } else {
      var n := |tests| - 1;
      var before, t := tests[..n], tests[n];
      TestedPathsExactly(before, path);
      if t.skip.Present() {
        assert !Brings(t, path) && !Covers(t, path);
      } else {
        EntryLookup(TestDataTree(before), t, path);
      }
      LastDecides(tests, path);
    }
  }

  lemma LastDecides(tests: seq<UpdateTest>, path: Path)
    requires tests != []
    ensures var n := |tests| - 1;
      (exists i: nat :: Decides(tests, i, path)) <==>
      Brings(tests[n], path) || (!Covers(tests[n], path) && exists i: nat :: Decides(tests[..n], i, path))
  {
    var n := |tests| - 1;
    if Brings(tests[n], path) { assert Decides(tests, n, path); }
    forall i: nat | i < n ensures Decides(tests, i, path) <==> !Covers(tests[n], path) && Decides(tests[..n], i, path) {
      assert forall j :: i < j < n ==> tests[..n][j] == tests[j];
    }
  }
}
