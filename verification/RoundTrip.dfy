/** Classifying every declared field of a live object and crediting the fields that share
    a cell with a tested one: DiffReport (internal/roundtrip/roundtrip.go), GroupCells
    (internal/roundtrip/cell.go) and CreditCells (internal/roundtrip/credit.go). */
module RoundTrip {
  import opened Json
  import opened Text
  import opened Cells
  import opened Rotation
  import opened SchemaWalks

  datatype Row = Row(
    path: string, classification: Classification, specValue: Json, specFound: bool,
    mirrorValue: Json, mirrorFound: bool, immutable: bool)

  function RowPath(r: Row): string { r.path }

  // ---------- DiffReport ----------

  function Classify(spec: Option<Json>, mirror: Option<Json>): Option<Classification> {
    match (spec, mirror)
    case (Some(s), Some(m)) => Some(if s == m then Equal else ValueChanged)
    case (Some(_), None) => Some(PresentInSpecAbsentFromMirror)
    case (None, Some(_)) => Some(DefaultedByServer)
    case (None, None) => None
  }

  function ValueOr(v: Option<Json>): Json { if v.Some? then v.value else Null }

  /** The row of a declared spec field, none when neither side holds a value. */
  function SpecRow(path: string, spec: Json, mirror: Json, immutable: set<string>): Option<Row> {
    var s, m := Get(spec, Segments(path)), Get(mirror, Segments(path));
    var cls := Classify(s, m);
    if cls.None? then None
    else Some(Row(path, cls.value, ValueOr(s), s.Some?, ValueOr(m), m.Some?, path in immutable))
  }

  /** The row of a field only the mirror's schema declares. */
  function MirrorRow(path: string, mirror: Json): Option<Row> {
    var m := Get(mirror, Segments(path));
    if m.None? then None else Some(Row(path, PresentInMirrorAbsentFromSpec, Null, false, m.value, true, false))
  }

  ghost predicate IsRow(r: Row, fp: Schema, ap: Schema, spec: Json, mirror: Json) {
    if r.path in LeafPathsOf(fp, "") then SpecRow(r.path, spec, mirror, ImmutableOf(fp, "", false)) == Some(r)
    else r.path in LeafPathsOf(ap, "") && MirrorRow(r.path, mirror) == Some(r)
  }

  /** A row's class in terms of what the two sides hold, and the values it records. */
  lemma ClassificationMeans(r: Row, fp: Schema, ap: Schema, spec: Json, mirror: Json)
    requires IsRow(r, fp, ap, spec, mirror)
    ensures var declared, path := r.path in LeafPathsOf(fp, ""), Segments(r.path);
      var s, m := Get(spec, path), Get(mirror, path);
      && (r.classification == Equal <==> declared && s.Some? && s == m)
      && (r.classification == ValueChanged <==> declared && s.Some? && m.Some? && s != m)
      && (r.classification == PresentInSpecAbsentFromMirror <==> declared && s.Some? && m.None?)
      && (r.classification == DefaultedByServer <==> declared && s.None? && m.Some?)
      && (r.classification == PresentInMirrorAbsentFromSpec <==> !declared)
      && r.mirrorFound == m.Some? && (m.Some? ==> r.mirrorValue == m.value)
      && r.specFound == (declared && s.Some?) && (r.specFound ==> r.specValue == s.value)
      && (r.immutable <==> r.path in ImmutableOf(fp, "", false) && declared)
  { }

  /** Which paths have a row: a declared field when either side holds a value, a field only
      the mirror's schema declares when the mirror does, and no other. */
  lemma RowExistsExactly(path: string, fp: Schema, ap: Schema, spec: Json, mirror: Json)
    ensures (exists r: Row :: r.path == path && IsRow(r, fp, ap, spec, mirror)) <==>
      || (path in LeafPathsOf(fp, "") && (Get(spec, Segments(path)).Some? || Get(mirror, Segments(path)).Some?))
      || (path !in LeafPathsOf(fp, "") && path in LeafPathsOf(ap, "") && Get(mirror, Segments(path)).Some?)
  {
    var own := if path in LeafPathsOf(fp, "") then SpecRow(path, spec, mirror, ImmutableOf(fp, "", false))
               else MirrorRow(path, mirror);
    if own.Some? && (path in LeafPathsOf(fp, "") || path in LeafPathsOf(ap, "")) {
      assert own.value.path == path && IsRow(own.value, fp, ap, spec, mirror);
    }
  }

  /** Rows of distinct, already visited paths. */
  ghost predicate RowsOver(rows: seq<Row>, paths: seq<string>) {
    (NoDuplicates(paths) ==> NoDuplicates(KeysOf(rows, RowPath))) && forall r | r in rows :: r.path in paths
  }

  lemma RowsOverNone(rows: seq<Row>, paths: seq<string>, p: string)
    requires RowsOver(rows, paths)
    ensures RowsOver(rows, paths + [p])
  {
    if NoDuplicates(paths + [p]) { assert paths == (paths + [p])[..|paths|]; InitNoDuplicates(paths + [p]); }
  }

  lemma RowsOverOne(rows: seq<Row>, paths: seq<string>, r: Row)
    requires RowsOver(rows, paths)
    ensures RowsOver(rows + [r], paths + [r.path])
  {
    var all := paths + [r.path];
    if NoDuplicates(all) {
      InitNoDuplicates(all);
      assert all[..|paths|] == paths;
      assert r.path !in KeysOf(rows, RowPath) by {
        forall i | 0 <= i < |rows| ensures KeysOf(rows, RowPath)[i] != r.path { assert rows[i] in rows; }
      }
      OneMoreIsFree(KeysOf(rows, RowPath), r.path);
      assert KeysOf(rows + [r], RowPath) == KeysOf(rows, RowPath) + [r.path];
    }
  }

  method SpecRows(paths: seq<string>, spec: Json, mirror: Json, immutable: set<string>) returns (rows: seq<Row>)
    ensures RowsOver(rows, paths)
    ensures forall r :: r in rows <==> r.path in paths && SpecRow(r.path, spec, mirror, immutable) == Some(r)
  {
    rows := [];
    for i := 0 to |paths|
      invariant RowsOver(rows, paths[..i])
      invariant forall r :: r in rows <==> r.path in paths[..i] && SpecRow(r.path, spec, mirror, immutable) == Some(r)
    {
      assert paths[..i + 1] == paths[..i] + [paths[i]];
      var row := SpecRow(paths[i], spec, mirror, immutable);
      if row.None? {
        RowsOverNone(rows, paths[..i], paths[i]);
        continue;
      }
      RowsOverOne(rows, paths[..i], row.value);
      rows := rows + [row.value];
    }
    assert paths[..|paths|] == paths;
  }

  method MirrorRows(paths: seq<string>, mirror: Json) returns (rows: seq<Row>)
    ensures RowsOver(rows, paths)
    ensures forall r :: r in rows <==> r.path in paths && MirrorRow(r.path, mirror) == Some(r)
  {
    rows := [];
    for i := 0 to |paths|
      invariant RowsOver(rows, paths[..i])
      invariant forall r :: r in rows <==> r.path in paths[..i] && MirrorRow(r.path, mirror) == Some(r)
    {
      assert paths[..i + 1] == paths[..i] + [paths[i]];
      var row := MirrorRow(paths[i], mirror);
      if row.None? {
        RowsOverNone(rows, paths[..i], paths[i]);
        continue;
      }
      RowsOverOne(rows, paths[..i], row.value);
      rows := rows + [row.value];
    }
    assert paths[..|paths|] == paths;
  }

  /** The atProvider leaves the forProvider schema does not declare, sorted. */
  method MirrorOnly(apPaths: seq<string>, fpPaths: seq<string>) returns (out: seq<string>)
    ensures NoDuplicates(apPaths) ==> NoDuplicates(out)
    ensures forall p :: p in out <==> p in apPaths && p !in fpPaths
  {
    out := [];
    for i := 0 to |apPaths|
      invariant NoDuplicates(apPaths[..i]) ==> NoDuplicates(out)
      invariant forall p :: p in out <==> p in apPaths[..i] && p !in fpPaths
    {
      assert apPaths[..i + 1] == apPaths[..i] + [apPaths[i]];
      if NoDuplicates(apPaths[..i + 1]) {
        InitNoDuplicates(apPaths[..i + 1]);
        assert apPaths[..i + 1][..i] == apPaths[..i];
        if apPaths[i] !in fpPaths { OneMoreIsFree(out, apPaths[i]); }
      }
      if apPaths[i] !in fpPaths { out := out + [apPaths[i]]; }
    }
    assert apPaths[..|apPaths|] == apPaths;
    SortedStringsKeep(out);
    out := SortStrings(out);
  }

  lemma SortedStringsKeep(xs: seq<string>)
    ensures forall p :: p in SortStrings(xs) <==> p in xs
    ensures NoDuplicates(xs) ==> NoDuplicates(SortStrings(xs))
  {
    SortIsPermutation(xs, Same);
    if NoDuplicates(xs) {
      DuplicateFreeIsSet(xs);
      FreeHasNoDuplicates(SortStrings(xs));
    }
  }

  lemma JoinedRows(a: seq<Row>, b: seq<Row>, p: seq<string>, q: seq<string>)
    requires RowsOver(a, p) && RowsOver(b, q) && NoDuplicates(p) && NoDuplicates(q) && forall x | x in p :: x !in q
    ensures NoDuplicates(KeysOf(a + b, RowPath))
  {
    forall x | x in KeysOf(a, RowPath) ensures x in p {
      var i :| 0 <= i < |a| && KeysOf(a, RowPath)[i] == x;
      assert a[i] in a;
    }
    forall x | x in KeysOf(b, RowPath) ensures x in q {
      var i :| 0 <= i < |b| && KeysOf(b, RowPath)[i] == x;
      assert b[i] in b;
    }
    DisjointNoDuplicates(KeysOf(a, RowPath), KeysOf(b, RowPath));
    KeysAppend(a, b, RowPath);
  }

  method SortedLeaves(s: Schema) returns (paths: seq<string>)
    ensures forall p :: p in paths <==> p in LeafPathsOf(s, "")
    ensures ProperNames(s) ==> NoDuplicates(paths)
  {
    paths := LeafPaths(s, "");
    if ProperNames(s) { NoLeafTwice(s, []); }
    SortedStringsKeep(paths);
    paths := SortStrings(paths);
  }

  method ImmutablePaths(s: Schema) returns (paths: set<string>)
    ensures paths == ImmutableOf(s, "", false)
  {
    var out := new PathSet();
    CollectImmutablePaths(s, "", false, out);
    return out.paths;
  }

  lemma RowsSplit(rows: seq<Row>, fp: Schema, ap: Schema, spec: Json, mirror: Json, fpPaths: seq<string>,
                  mirrorOnly: seq<string>)
    requires forall p :: p in fpPaths <==> p in LeafPathsOf(fp, "")
    requires forall p :: p in mirrorOnly <==> p in LeafPathsOf(ap, "") && p !in fpPaths
    requires forall r :: r in rows <==>
      || (r.path in fpPaths && SpecRow(r.path, spec, mirror, ImmutableOf(fp, "", false)) == Some(r))
      || (r.path in mirrorOnly && MirrorRow(r.path, mirror) == Some(r))
    ensures forall r :: r in rows <==> IsRow(r, fp, ap, spec, mirror)
  {
    forall r ensures r in rows <==> IsRow(r, fp, ap, spec, mirror) {
      assert r.path in fpPaths <==> r.path in LeafPathsOf(fp, "");
    }
  }

  method CollectRows(fp: Schema, ap: Schema, spec: Json, mirror: Json) returns (rows: seq<Row>)
    ensures forall r :: r in rows <==> IsRow(r, fp, ap, spec, mirror)
    ensures ProperNames(fp) && ProperNames(ap) ==> NoDuplicates(KeysOf(rows, RowPath))
  {
    var fpPaths := SortedLeaves(fp);
    var apPaths := SortedLeaves(ap);
    var immutable := ImmutablePaths(fp);
    var declared := SpecRows(fpPaths, spec, mirror, immutable);
    var mirrorOnly := MirrorOnly(apPaths, fpPaths);
    var extra := MirrorRows(mirrorOnly, mirror);
    if NoDuplicates(fpPaths) && NoDuplicates(mirrorOnly) { JoinedRows(declared, extra, fpPaths, mirrorOnly); }
    rows := declared + extra;
    assert forall r :: r in rows <==> r in declared || r in extra;
    RowsSplit(rows, fp, ap, spec, mirror, fpPaths, mirrorOnly);
  }

  /** One row for each declared field some side holds a value for, sorted, and with proper
      property names never two for one path. A side that is no object counts as empty. */
  method DiffReport(fp: Schema, ap: Schema, specForProvider: Json, atProvider: Json) returns (rows: seq<Row>)
    ensures var spec, mirror := Object(Members(specForProvider)), Object(Members(atProvider));
      forall r :: r in rows <==> IsRow(r, fp, ap, spec, mirror)
    ensures SortedBy(rows, RowPath)
    ensures ProperNames(fp) && ProperNames(ap) ==> NoDuplicates(KeysOf(rows, RowPath))
  {
    var gathered := CollectRows(fp, ap, Object(Members(specForProvider)), Object(Members(atProvider)));
    SortIsPermutation(gathered, RowPath);
    SortSorts(gathered, RowPath);
    if NoDuplicates(KeysOf(gathered, RowPath)) { SortedStayDistinct(gathered, RowPath); }
    rows := SortBy(gathered, RowPath);
  }

  // ---------- GroupCells ----------

  function ShapeOf(r: Row): Shape {
    if !r.specFound && !r.mirrorFound then ShapeScalar
    else
      var v := if r.specFound then r.specValue else r.mirrorValue;
      if v.List? then ShapeList else if v.Object? then ShapeMap else ShapeScalar
  }

  function CellKeyOf(r: Row): CellKey { CellKey(r.classification, ShapeOf(r), DirectionSet, DepthNone) }

  predicate Grouped(r: Row) { r.classification != PresentInMirrorAbsentFromSpec }

  function RowsIn(rows: seq<Row>, key: CellKey): seq<Row> { Select(rows, r => Grouped(r) && CellKeyOf(r) == key) }

  function SetCells(rows: seq<Row>): set<CellKey> { set r | r in rows && Grouped(r) :: CellKeyOf(r) }

  ghost predicate GroupedAs(cells: map<CellKey, seq<Row>>, rows: seq<Row>) {
    cells.Keys == SetCells(rows) && forall key | key in cells :: cells[key] == RowsIn(rows, key)
  }

  function AddRow(cells: map<CellKey, seq<Row>>, r: Row): map<CellKey, seq<Row>> {
    var key := CellKeyOf(r);
    if Grouped(r) then cells[key := (if key in cells then cells[key] else []) + [r]] else cells
  }

  lemma GroupsOne(cells: map<CellKey, seq<Row>>, rows: seq<Row>, i: nat)
    requires i < |rows| && GroupedAs(cells, rows[..i])
    ensures GroupedAs(AddRow(cells, rows[i]), rows[..i + 1])
  {
    var r, key, after := rows[i], CellKeyOf(rows[i]), AddRow(cells, rows[i]);
    RowsNext(rows, i);
    if key !in cells { NoRowsIn(rows[..i], key); }
    forall k | k in after ensures after[k] == RowsIn(rows[..i + 1], k) {
      assert RowsIn(rows[..i + 1], k) == RowsIn(rows[..i], k) + OwnRow(r, k);
    }
  }

  method GroupCells(rows: seq<Row>) returns (cells: map<CellKey, seq<Row>>)
    ensures cells.Keys == SetCells(rows)
    ensures forall key | key in cells :: cells[key] == RowsIn(rows, key)
  {
    cells := map[];
    for i := 0 to |rows|
      invariant GroupedAs(cells, rows[..i])
    {
      GroupsOne(cells, rows, i);
      var r := rows[i];
      if r.classification == PresentInMirrorAbsentFromSpec { continue; }
      var key := CellKeyOf(r);
      cells := cells[key := (if key in cells then cells[key] else []) + [r]];
    }
    assert rows[..|rows|] == rows;
  }

  /** A cell's rows: those of its class that are not mirror-only and whose value, the spec's
      when there is one and else the mirror's, has its shape. */
  lemma CellHolds(rows: seq<Row>, key: CellKey, r: Row)
    ensures r in RowsIn(rows, key) <==>
      && r in rows && r.classification == key.classification && r.classification != PresentInMirrorAbsentFromSpec
      && key.direction == DirectionSet && key.depth == DepthNone
      && var shown := if r.specFound then Some(r.specValue) else if r.mirrorFound then Some(r.mirrorValue) else None;
      && (key.shape == ShapeList <==> shown.Some? && shown.value.List?)
      && (key.shape == ShapeMap <==> shown.Some? && shown.value.Object?)
  {
    SelectMembers(rows, x => Grouped(x) && CellKeyOf(x) == key, r);
  }

  function OwnRow(r: Row, key: CellKey): seq<Row> { if Grouped(r) && CellKeyOf(r) == key then [r] else [] }

  lemma RowsNext(rows: seq<Row>, i: nat)
    requires i < |rows|
    ensures var r := rows[i];
      && SetCells(rows[..i + 1]) == SetCells(rows[..i]) + (if Grouped(r) then {CellKeyOf(r)} else {})
      && forall key :: RowsIn(rows[..i + 1], key) == RowsIn(rows[..i], key) + OwnRow(r, key)
  {
    assert rows[..i + 1] == rows[..i] + [rows[i]];
    forall key ensures RowsIn(rows[..i + 1], key) == RowsIn(rows[..i], key) + OwnRow(rows[i], key) {
      SelectAppend(rows[..i], rows[i], r => Grouped(r) && CellKeyOf(r) == key);
    }
  }

  lemma NoRowsIn(rows: seq<Row>, key: CellKey)
    requires key !in SetCells(rows)
    ensures RowsIn(rows, key) == []
  {
    var p := r => Grouped(r) && CellKeyOf(r) == key;
    assert forall r | r in rows :: !p(r);
    NothingSelects(rows, p);
  }

  lemma {:induction false} NothingSelects<T>(xs: seq<T>, p: T -> bool)
    requires forall x | x in xs :: !p(x)
    ensures Select(xs, p) == []
  {
    if xs == [] {
    } else {
      NothingSelects(xs[1..], p);
    }
  }

  // ---------- CreditCells ----------

  datatype CellCredit = CellCredit(
    key: CellKey, members: seq<string>, representatives: seq<string>, credited: seq<string>, stuck: seq<string>)

  function PathsOfRows(rows: seq<Row>): seq<string> { SortStrings(KeysOf(rows, RowPath)) }

  /** One equal cell's outcome, from the rotation state as it stood before the run. */
  ghost function CreditFor(sch: Schedule, s: State, scope: string, key: CellKey, rows: seq<Row>): CellCredit {
    var members, skey := PathsOfRows(rows), StateKey(scope, key);
    var reps := Returned(sch, s, skey, key, members);
    CellCredit(key, members, reps, Select(members, m => m !in reps), if members == [] then [] else StickyAt(s, skey))
  }

  predicate Collapses(key: CellKey) { key.classification == Equal }

  function EqualCells(keys: set<CellKey>): set<CellKey> { set key | key in keys && Collapses(key) }

  /** What crediting some cells has done to the rotation state: their own cursors, and
      nothing else, have moved on once. */
  ghost predicate Advanced(before: State, after: State, scope: string, done: set<CellKey>,
                           cells: map<CellKey, seq<Row>>)
    requires done <= cells.Keys
  {
    && after.sticky == before.sticky
    && (forall key {:trigger MovedOn(before, after, scope, key, cells)} | key in done ::
         MovedOn(before, after, scope, key, cells))
    && (forall skey {:trigger CursorAt(after, skey)} | !KeyOfSome(skey, scope, done) ::
          CursorAt(after, skey) == CursorAt(before, skey))
  }

  predicate MovedOn(before: State, after: State, scope: string, key: CellKey, cells: map<CellKey, seq<Row>>)
    requires key in cells
  {
    var skey := StateKey(scope, key);
    CursorAt(after, skey) == CursorAt(AfterSelect(before, skey, PathsOfRows(cells[key])), skey)
  }

  /** One of these cells keeps its cursor under this key. */
  ghost predicate KeyOfSome(skey: string, scope: string, keys: set<CellKey>) {
    exists key :: key in keys && StateKey(scope, key) == skey
  }

  /** The credits are those of exactly the cells done, one each. */
  ghost predicate CreditsOf(credits: seq<CellCredit>, sch: Schedule, before: State, scope: string,
                            done: set<CellKey>, cells: map<CellKey, seq<Row>>)
    requires done <= cells.Keys
  {
    && (forall c {:trigger c in credits} :: c in credits <==>
         c.key in done && c == CreditFor(sch, before, scope, c.key, cells[c.key]))
    && forall i, j | 0 <= i < j < |credits| :: credits[i].key != credits[j].key
  }

  lemma OneMoreCredit(credits: seq<CellCredit>, sch: Schedule, before: State, scope: string,
                      done: set<CellKey>, cells: map<CellKey, seq<Row>>, key: CellKey)
    requires done <= cells.Keys && key in cells && key !in done && CreditsOf(credits, sch, before, scope, done, cells)
    ensures var credit := CreditFor(sch, before, scope, key, cells[key]);
      CreditsOf(credits + [credit], sch, before, scope, done + {key}, cells)
  {
    var credit := CreditFor(sch, before, scope, key, cells[key]);
    var after := credits + [credit];
    assert credit.key == key;
    forall c ensures c in after <==> c.key in done + {key} && c == CreditFor(sch, before, scope, c.key, cells[c.key]) {
      assert c in after <==> c in credits || c == credit;
    }
    forall i, j | 0 <= i < j < |after| ensures after[i].key != after[j].key {
      assert credits[i] in credits;
    }
  }

  /** Every equal cell gets one credit, computed from the state the run began with however
      the map is ranged over; every other cell comes back whole. */
  method CreditCells(cells: map<CellKey, seq<Row>>, state: RotationState, scope: string)
    returns (credits: seq<CellCredit>, nonEqual: map<CellKey, seq<Row>>)
    modifies state`cursors
    ensures nonEqual == map key | key in cells && key.classification != Equal :: cells[key]
    ensures CreditsOf(credits, state.schedule, old(state.View()), scope, EqualCells(cells.Keys), cells)
    ensures Advanced(old(state.View()), state.View(), scope, EqualCells(cells.Keys), cells)
  {
    credits, nonEqual := [], map[];
    var rest := cells.Keys;
    ghost var before, done := state.View(), {};
    while rest != {}
      invariant rest <= cells.Keys
      invariant done == EqualCells(cells.Keys - rest)
      invariant nonEqual == Whole(cells, rest)
      invariant CreditsOf(credits, state.schedule, before, scope, done, cells)
      invariant Advanced(before, state.View(), scope, done, cells)
    {
      var key :| key in rest;
      rest := rest - {key};
      if key.classification != Equal {
        nonEqual := nonEqual[key := cells[key]];
        continue;
      }
      OneMoreCredit(credits, state.schedule, before, scope, done, cells, key);
      var credit := CreditOne(cells[key], state, scope, key, before, done, cells);
      credits := credits + [credit];
      done := done + {key};
    }
  }

  /** The cells that do not collapse, those still to come left out. */
  function Whole(cells: map<CellKey, seq<Row>>, rest: set<CellKey>): map<CellKey, seq<Row>> {
    map key | key in cells && !Collapses(key) && key !in rest :: cells[key]
  }

  method CreditOne(rows: seq<Row>, state: RotationState, scope: string, key: CellKey,
                   ghost before: State, ghost done: set<CellKey>, ghost cells: map<CellKey, seq<Row>>)
    returns (credit: CellCredit)
    requires done <= cells.Keys && key in cells && key !in done && rows == cells[key]
    requires Advanced(before, state.View(), scope, done, cells)
    modifies state`cursors
    ensures credit == CreditFor(state.schedule, before, scope, key, rows)
    ensures Advanced(before, state.View(), scope, done + {key}, cells)
  {
    var members := PathsOfRows(rows);
    ghost var now := state.View();
    OwnCursorWaits(before, now, scope, done, cells, key);
    AdvancesOne(before, now, scope, done, cells, key);
    var reps, stuck := state.Select(scope, key, members);
    var credited := NotChosen(members, reps);
    return CellCredit(key, members, reps, credited, stuck);
  }

  method NotChosen(members: seq<string>, reps: seq<string>) returns (credited: seq<string>)
    ensures credited == Select(members, m => m !in reps)
  {
    credited := [];
    for i := 0 to |members|
      invariant credited == Select(members[..i], m => m !in reps)
    {
      assert members[..i + 1] == members[..i] + [members[i]];
      SelectAppend(members[..i], members[i], m => m !in reps);
      if members[i] !in reps { credited := credited + [members[i]]; }
    }
    assert members[..|members|] == members;
  }

  lemma OtherKeys(scope: string, keys: set<CellKey>, key: CellKey)
    requires key !in keys
    ensures !KeyOfSome(StateKey(scope, key), scope, keys)
  {
    forall k | k in keys ensures StateKey(scope, k) != StateKey(scope, key) {
      if StateKey(scope, k) == StateKey(scope, key) { StateKeyInjective(scope, k, scope, key); }
    }
  }

  /** A cell not yet credited still selects from the state the run began with. */
  lemma OwnCursorWaits(before: State, now: State, scope: string, done: set<CellKey>, cells: map<CellKey, seq<Row>>,
                       key: CellKey)
    requires done <= cells.Keys && key !in done && Advanced(before, now, scope, done, cells)
    ensures CursorAt(now, StateKey(scope, key)) == CursorAt(before, StateKey(scope, key))
    ensures StickyAt(now, StateKey(scope, key)) == StickyAt(before, StateKey(scope, key))
  {
    OtherKeys(scope, done, key);
  }

  lemma AdvancesOne(before: State, now: State, scope: string, done: set<CellKey>, cells: map<CellKey, seq<Row>>,
                    key: CellKey)
    requires done <= cells.Keys && key in cells && key !in done && Advanced(before, now, scope, done, cells)
    ensures var after := AfterSelect(now, StateKey(scope, key), PathsOfRows(cells[key]));
      Advanced(before, after, scope, done + {key}, cells)
  {
    var skey := StateKey(scope, key);
    var after := AfterSelect(now, skey, PathsOfRows(cells[key]));
    OwnCursorWaits(before, now, scope, done, cells, key);
    forall k | k in done + {key} ensures MovedOn(before, after, scope, k, cells) {
      if k != key {
        assert MovedOn(before, now, scope, k, cells);
        OtherKeys(scope, {k}, key);
        assert StateKey(scope, k) != skey;
      }
    }
    forall other | !KeyOfSome(other, scope, done + {key}) ensures CursorAt(after, other) == CursorAt(before, other) {
      assert key in done + {key};
      assert other != skey && !KeyOfSome(other, scope, done);
      assert CursorAt(now, other) == CursorAt(before, other);
    }
  }

  // ---------- what crediting may hide ----------

  lemma MemberHasRow(rows: seq<Row>, key: CellKey, p: string) returns (r: Row)
    requires p in PathsOfRows(RowsIn(rows, key))
    ensures r in rows && r.path == p && Grouped(r) && CellKeyOf(r) == key
  {
    var cell := RowsIn(rows, key);
    SortedStringsKeep(KeysOf(cell, RowPath));
    var i :| 0 <= i < |cell| && KeysOf(cell, RowPath)[i] == p;
    r := cell[i];
    assert r in cell;
    SelectMembers(rows, x => Grouped(x) && CellKeyOf(x) == key, r);
  }

  /** A member of an equal cell is either one of this run's representatives or credited,
      never both, and credited paths are all members. */
  lemma TestedOrCredited(sch: Schedule, s: State, scope: string, key: CellKey, rows: seq<Row>, p: string)
    ensures var c := CreditFor(sch, s, scope, key, rows);
      && (p in c.credited <==> p in c.members && p !in c.representatives)
      && (p in c.representatives ==> p in c.members || p in c.stuck)
  {
    var c := CreditFor(sch, s, scope, key, rows);
    SelectMembers(c.members, m => m !in c.representatives, p);
    SortedKeysMembers(Selection(sch, s, StateKey(scope, key), key, c.members));
    if c.members != [] { PicksAreMembers(sch, s, scope, key, c.members); }
  }

  lemma PicksAreMembers(sch: Schedule, s: State, scope: string, key: CellKey, members: seq<string>)
    requires members != []
    ensures forall m | m in RotatedPicks(sch, CursorAt(s, StateKey(scope, key)), key, members) :: m in members
  {
    OrderIsPermutation(sch.draws, sch.seed, key, |members|);
  }

  /** A path credited without a test holds the very same value on both sides. */
  lemma CreditedNeverDeviates(fp: Schema, ap: Schema, spec: Json, mirror: Json, rows: seq<Row>, sch: Schedule, s: State,
                              scope: string, key: CellKey, p: string)
    requires forall r | r in rows :: IsRow(r, fp, ap, spec, mirror)
    requires Collapses(key) && p in CreditFor(sch, s, scope, key, RowsIn(rows, key)).credited
    ensures Get(spec, Segments(p)).Some? && Get(spec, Segments(p)) == Get(mirror, Segments(p))
  {
    TestedOrCredited(sch, s, scope, key, RowsIn(rows, key), p);
    EqualMemberAgrees(fp, ap, spec, mirror, rows, key, p);
  }

  lemma EqualMemberAgrees(fp: Schema, ap: Schema, spec: Json, mirror: Json, rows: seq<Row>, key: CellKey, p: string)
    requires forall r | r in rows :: IsRow(r, fp, ap, spec, mirror)
    requires Collapses(key) && p in PathsOfRows(RowsIn(rows, key))
    ensures Get(spec, Segments(p)).Some? && Get(spec, Segments(p)) == Get(mirror, Segments(p))
  {
    var r := MemberHasRow(rows, key, p);
    ClassificationMeans(r, fp, ap, spec, mirror);
  }

  /** A field that deviates, with one row per path, is in no collapsing cell: it can only
      be reported on its own. */
  lemma DeviationIsNeverCredited(rows: seq<Row>, r: Row, sch: Schedule, s: State, scope: string, key: CellKey)
    requires NoDuplicates(KeysOf(rows, RowPath)) && r in rows && r.classification != Equal && Collapses(key)
    ensures r.path !in CreditFor(sch, s, scope, key, RowsIn(rows, key)).members
  {
    var cell := RowsIn(rows, key);
    SortedStringsKeep(KeysOf(cell, RowPath));
    DistinctIndices(KeysOf(rows, RowPath));
    var n :| 0 <= n < |rows| && rows[n] == r;
    forall i | 0 <= i < |cell| ensures KeysOf(cell, RowPath)[i] != r.path {
      assert cell[i] in cell;
      SelectMembers(rows, x => Grouped(x) && CellKeyOf(x) == key, cell[i]);
      var m :| 0 <= m < |rows| && rows[m] == cell[i];
      assert KeysOf(rows, RowPath)[m] != KeysOf(rows, RowPath)[n];
    }
  }
}
