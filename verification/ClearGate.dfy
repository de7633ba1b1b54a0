/** The pass/fail gate of internal/roundtrip/containerclear.go: findings grouped into
    (shape, depth) cells, one report per cell, and the count of blocking cells that
    becomes the exit code. */
module ClearGate {
  import opened Json
  import opened Text
  import opened Manifest
  import opened Cells
  import opened ClearCredit
  import opened ClearCoverage

  function Paths(fs: seq<Finding>): (r: seq<string>)
    ensures |r| == |fs| && forall i :: 0 <= i < |fs| ==> r[i] == fs[i].path
  {
    seq(|fs|, i requires 0 <= i < |fs| => fs[i].path)
  }

  // ---------- the states of one finding ----------

  function PathOf(f: Finding): string { f.path }
  function CellOf(f: Finding): CellKey { ClearCell(f.shape, f.path) }
  predicate Ineligible(f: Finding) { f.ineligible }
  predicate Eligible(f: Finding) { !f.ineligible }
  predicate Contradictory(f: Finding) { !f.ineligible && f.contradiction }
  predicate Credited(f: Finding) { !f.ineligible && !f.contradiction && f.covered }
  predicate Undispositioned(f: Finding) {
    !f.ineligible && !f.covered && !f.contradiction && f.disposition == NoDisposition
  }

  // ---------- cells and reports ----------

  function InCell(fs: seq<Finding>, key: CellKey): seq<Finding> { Select(fs, f => CellOf(f) == key) }

  function CellsOf(fs: seq<Finding>): set<CellKey> { set f | f in fs :: CellOf(f) }

  datatype ClearCellReport = ClearCellReport(
    key: CellKey, members: seq<string>, ineligibleMembers: seq<string>, covered: bool, vacuous: bool,
    representative: Option<string>, route: Option<ClearRoute>,
    undispositionedMembers: seq<string>, contradictory: seq<string>)

  function ReportFor(key: CellKey, members: seq<Finding>): ClearCellReport {
    var sorted := SortBy(members, PathOf);
    var credited := Select(sorted, Credited);
    var covered, vacuous := credited != [], Select(sorted, Eligible) == [];
    ClearCellReport(
      key, Paths(sorted), Paths(Select(sorted, Ineligible)), covered, vacuous,
      if covered then Some(credited[0].path) else None,
      if covered then credited[0].route else None,
      if covered || vacuous then [] else Paths(Select(sorted, Undispositioned)),
      Paths(Select(sorted, Contradictory)))
  }

  function KeyText(key: CellKey): string { key.Text() }

  ghost function SortedCells(fs: seq<Finding>): seq<CellKey> { SortBy(Enumerate(CellsOf(fs)), KeyText) }

  ghost function ReportsOn(fs: seq<Finding>, keys: seq<CellKey>): (r: seq<ClearCellReport>)
    ensures |r| == |keys|
  {
    seq(|keys|, i requires 0 <= i < |keys| => ReportFor(keys[i], InCell(fs, keys[i])))
  }

  ghost function Reports(fs: seq<Finding>): seq<ClearCellReport> { ReportsOn(fs, SortedCells(fs)) }

  method GroupClearCells(fs: seq<Finding>) returns (cells: map<CellKey, seq<Finding>>)
    ensures cells.Keys == CellsOf(fs)
    ensures forall key | key in cells :: cells[key] == InCell(fs, key)
  {
    cells := map[];
    for i := 0 to |fs|
      invariant cells.Keys == CellsOf(fs[..i])
      invariant forall key | key in cells :: cells[key] == InCell(fs[..i], key)
    {
      var f, key := fs[i], CellOf(fs[i]);
      assert fs[..i+1] == fs[..i] + [f];
      forall k ensures InCell(fs[..i+1], k) == InCell(fs[..i], k) + (if k == key then [f] else []) {
        SelectAppend(fs[..i], f, g => CellOf(g) == k);
      }
      if key !in cells { NothingInCell(fs[..i], key); }
      cells := cells[key := (if key in cells then cells[key] else []) + [f]];
    }
    assert fs[..|fs|] == fs;
  }

  lemma NothingInCell(fs: seq<Finding>, key: CellKey)
    requires key !in CellsOf(fs)
    ensures InCell(fs, key) == []
  {
    if InCell(fs, key) != [] {
      var f := InCell(fs, key)[0];
      SelectMembers(fs, g => CellOf(g) == key, f);
      assert false;
    }
  }

  /** One more element of a sorted cell, as seen by a filter. */
  lemma SelectNext(xs: seq<Finding>, i: nat, p: Finding -> bool)
    requires i < |xs|
    ensures Select(xs[..i+1], p) == Select(xs[..i], p) + (if p(xs[i]) then [xs[i]] else [])
    ensures Paths(Select(xs[..i+1], p)) == Paths(Select(xs[..i], p)) + (if p(xs[i]) then [xs[i].path] else [])
  {
    assert xs[..i+1] == xs[..i] + [xs[i]];
    SelectAppend(xs[..i], xs[i], p);
  }

  method Partition(sorted: seq<Finding>)
    returns (out: seq<string>, contradictory: seq<string>, coveredEligible: seq<Finding>, eligibleCount: nat)
    ensures out == Paths(Select(sorted, Ineligible))
    ensures contradictory == Paths(Select(sorted, Contradictory))
    ensures coveredEligible == Select(sorted, Credited)
    ensures eligibleCount == |Select(sorted, Eligible)|
  {
    out, contradictory, coveredEligible, eligibleCount := [], [], [], 0;
    for i := 0 to |sorted|
      invariant out == Paths(Select(sorted[..i], Ineligible))
      invariant contradictory == Paths(Select(sorted[..i], Contradictory))
      invariant coveredEligible == Select(sorted[..i], Credited)
      invariant eligibleCount == |Select(sorted[..i], Eligible)|
    {
      var m := sorted[i];
      SelectNext(sorted, i, Ineligible);
      SelectNext(sorted, i, Contradictory);
      SelectNext(sorted, i, Credited);
      SelectNext(sorted, i, Eligible);
      if m.ineligible {
        out := out + [m.path];
        continue;
      }
      eligibleCount := eligibleCount + 1;
      if m.contradiction {
        contradictory := contradictory + [m.path];
        continue;
      }
      if m.covered { coveredEligible := coveredEligible + [m]; }
    }
    assert sorted[..|sorted|] == sorted;
  }

  method CollectUndispositioned(sorted: seq<Finding>) returns (paths: seq<string>)
    ensures paths == Paths(Select(sorted, Undispositioned))
  {
    paths := [];
    for i := 0 to |sorted|
      invariant paths == Paths(Select(sorted[..i], Undispositioned))
    {
      var m := sorted[i];
      SelectNext(sorted, i, Undispositioned);
      if m.ineligible || m.covered || m.contradiction { continue; }
      if m.disposition == NoDisposition { paths := paths + [m.path]; }
    }
    assert sorted[..|sorted|] == sorted;
  }

  method BuildOne(key: CellKey, members: seq<Finding>) returns (report: ClearCellReport)
    ensures report == ReportFor(key, members)
  {
    var sorted := SortBy(members, PathOf);
    var out, contradictory, coveredEligible, eligibleCount := Partition(sorted);
    var vacuous := eligibleCount == 0;
    if |coveredEligible| > 0 {
      var rep := coveredEligible[0];
      return ClearCellReport(key, Paths(sorted), out, true, vacuous, Some(rep.path), rep.route, [], contradictory);
    }
    var undispositioned: seq<string> := [];
    if !vacuous { undispositioned := CollectUndispositioned(sorted); }
    return ClearCellReport(key, Paths(sorted), out, false, vacuous, None, None, undispositioned, contradictory);
  }

  lemma CellTextsIdentify(keys: seq<CellKey>)
    ensures KeysIdentify(keys, KeyText)
  {
    forall a, b | a in keys && b in keys && KeyText(a) == KeyText(b) ensures a == b { KeyTextIdentifies(a, b); }
  }

  method SortCells(cells: set<CellKey>) returns (keys: seq<CellKey>)
    ensures keys == SortBy(Enumerate(cells), KeyText)
    ensures forall k :: k in keys ==> k in cells
  {
    var gathered: seq<CellKey>, rest := [], cells;
    while rest != {}
      invariant rest <= cells && NoDuplicates(gathered)
      invariant forall k :: k in gathered <==> k in cells && k !in rest
    {
      var k :| k in rest;
      OneMoreIsFree(gathered, k);
      gathered, rest := gathered + [k], rest - {k};
    }
    DuplicateFreeIsSet(gathered);
    DuplicateFreeIsSet(Enumerate(cells));
    assert (set k | k in gathered) == cells == (set k | k in Enumerate(cells));
    CellTextsIdentify(gathered);
    SortIgnoresOrder(gathered, Enumerate(cells), KeyText);
    SortIsPermutation(gathered, KeyText);
    keys := SortBy(gathered, KeyText);
  }

  lemma ReportsNext(fs: seq<Finding>, keys: seq<CellKey>, i: nat)
    requires i < |keys|
    ensures ReportsOn(fs, keys[..i+1]) == ReportsOn(fs, keys[..i]) + [ReportFor(keys[i], InCell(fs, keys[i]))]
  { }

  method BuildClearCellReport(fs: seq<Finding>) returns (reports: seq<ClearCellReport>)
    ensures reports == Reports(fs)
  {
    var cells := GroupClearCells(fs);
    var keys := SortCells(cells.Keys);
    reports := [];
    for i := 0 to |keys|
      invariant reports == ReportsOn(fs, keys[..i])
    {
      assert keys[i] in keys;
      var report := BuildOne(keys[i], cells[keys[i]]);
      ReportsNext(fs, keys, i);
      reports := reports + [report];
    }
    assert keys[..|keys|] == keys;
  }

  // ---------- the verdict ----------

  datatype Tally = Tally(
    totalCells: nat, coveredCells: nat, vacuousCells: nat, blockingCells: nat, totalLeaves: int, coveredLeaves: int)

  function EligibleCount(r: ClearCellReport): int { |r.members| - |r.ineligibleMembers| }

  predicate Blocks(r: ClearCellReport) {
    r.contradictory != [] || (!r.vacuous && !r.covered && r.undispositionedMembers != [])
  }

  /** PrintClearCellReport's counters and returned number of blocking cells. */
  method PrintClearCellReport(reports: seq<ClearCellReport>) returns (t: Tally)
    ensures t == TallyOf(reports)
  {
    t := Tally(0, 0, 0, 0, 0, 0);
    for i := 0 to |reports|
      invariant t == TallyOf(reports[..i])
    {
      var r := reports[i];
      assert reports[..i+1][..i] == reports[..i];
      var eligible := |r.members| - |r.ineligibleMembers|;
      t := t.(totalCells := t.totalCells + 1);
      if |r.contradictory| > 0 {
        t := t.(blockingCells := t.blockingCells + 1, totalLeaves := t.totalLeaves + eligible);
      } else if r.vacuous {
        t := t.(vacuousCells := t.vacuousCells + 1);
      } else if r.covered {
        t := t.(coveredCells := t.coveredCells + 1,
                coveredLeaves := t.coveredLeaves + eligible,
                totalLeaves := t.totalLeaves + eligible);
      } else if |r.undispositionedMembers| == 0 {
        t := t.(totalLeaves := t.totalLeaves + eligible);
      } else {
        t := t.(blockingCells := t.blockingCells + 1, totalLeaves := t.totalLeaves + eligible);
      }
    }
    assert reports[..|reports|] == reports;
  }

  /** One more report counted. */
  function Counted(t: Tally, r: ClearCellReport): Tally {
    var clean := r.contradictory == [];
    var vacuous, covered := clean && r.vacuous, clean && !r.vacuous && r.covered;
    Tally(
      t.totalCells + 1,
      t.coveredCells + (if covered then 1 else 0),
      t.vacuousCells + (if vacuous then 1 else 0),
      t.blockingCells + (if Blocks(r) then 1 else 0),
      t.totalLeaves + (if vacuous then 0 else EligibleCount(r)),
      t.coveredLeaves + (if covered then EligibleCount(r) else 0))
  }

  function TallyOf(reports: seq<ClearCellReport>): Tally {
    if reports == [] then Tally(0, 0, 0, 0, 0, 0)
    else Counted(TallyOf(reports[..|reports| - 1]), reports[|reports| - 1])
  }

  // ---------- what the gate means ----------

  /** A cell passes: nothing eligible to test, or one genuine credit, or every eligible
      member dispositioned. */
  ghost predicate CellPasses(members: seq<Finding>) {
    || (forall f | f in members :: Ineligible(f))
    || (exists f | f in members :: Credited(f))
    || (forall f | f in members && Eligible(f) :: f.disposition != NoDisposition)
  }

  lemma SelectEmpty<T>(xs: seq<T>, ys: seq<T>, p: T -> bool)
    requires multiset(xs) == multiset(ys)
    ensures Select(xs, p) == [] <==> forall x | x in ys :: !p(x)
  {
    forall x | x in ys ensures p(x) ==> Select(xs, p) != [] { SameMembers(xs, ys, x); SelectMembers(xs, p, x); }
    if Select(xs, p) != [] {
      var x := Select(xs, p)[0];
      SelectMembers(xs, p, x);
      SameMembers(xs, ys, x);
    }
  }

  lemma ReportBlocks(key: CellKey, members: seq<Finding>)
    ensures Blocks(ReportFor(key, members)) <==>
      (exists f :: f in members && Contradictory(f)) || !CellPasses(members)
  {
    var sorted := SortBy(members, PathOf);
    SortIsPermutation(members, PathOf);
    SelectEmpty(sorted, members, Credited);
    SelectEmpty(sorted, members, Eligible);
    SelectEmpty(sorted, members, Undispositioned);
    SelectEmpty(sorted, members, Contradictory);
  }

  lemma {:induction false} BlockingCount(reports: seq<ClearCellReport>)
    ensures TallyOf(reports).blockingCells == 0 <==> forall r | r in reports :: !Blocks(r)
  {
    if reports == [] {
    } else {
      var n := |reports| - 1;
      BlockingCount(reports[..n]);
      assert reports == reports[..n] + [reports[n]];
    }
  }

  lemma SortedCellsAreCells(fs: seq<Finding>)
    ensures forall key :: key in SortedCells(fs) <==> key in CellsOf(fs)
  {
    SortIsPermutation(Enumerate(CellsOf(fs)), KeyText);
    assert forall k :: k in Enumerate(CellsOf(fs)) <==> k in (set x | x in Enumerate(CellsOf(fs)));
  }

  lemma SortedCellsDistinct(fs: seq<Finding>)
    ensures NoDuplicates(SortedCells(fs))
    ensures forall i, j :: 0 <= i < j < |SortedCells(fs)| ==> SortedCells(fs)[i] != SortedCells(fs)[j]
  {
    DuplicateFreeIsSet(Enumerate(CellsOf(fs)));
    SortIsPermutation(Enumerate(CellsOf(fs)), KeyText);
    FreeHasNoDuplicates(SortedCells(fs));
    DistinctIndices(SortedCells(fs));
  }

  /** The gate passes exactly when no eligible leaf is contradictory and every cell passes. */
  lemma GateMeaning(fs: seq<Finding>)
    ensures TallyOf(Reports(fs)).blockingCells == 0 <==>
      && (forall f | f in fs :: !Contradictory(f))
      && (forall key | key in CellsOf(fs) :: CellPasses(InCell(fs, key)))
  {
    BlockingCount(Reports(fs));
    ReportsAreCells(fs);
    forall key ensures Blocks(ReportFor(key, InCell(fs, key))) <==>
      (exists f :: f in InCell(fs, key) && Contradictory(f)) || !CellPasses(InCell(fs, key))
    {
      ReportBlocks(key, InCell(fs, key));
    }
    if f :| f in fs && Contradictory(f) {
      SelectMembers(fs, g => CellOf(g) == CellOf(f), f);
      assert Blocks(ReportFor(CellOf(f), InCell(fs, CellOf(f))));
    } else {
      forall f, key ensures f in InCell(fs, key) ==> f in fs { SelectMembers(fs, g => CellOf(g) == key, f); }
    }
  }

  lemma ReportsAreCells(fs: seq<Finding>)
    ensures (forall r | r in Reports(fs) :: !Blocks(r)) <==>
            (forall key | key in CellsOf(fs) :: !Blocks(ReportFor(key, InCell(fs, key))))
  {
    var keys := SortedCells(fs);
    SortedCellsAreCells(fs);
    forall key | key in CellsOf(fs) ensures ReportFor(key, InCell(fs, key)) in Reports(fs) {
      var i :| 0 <= i < |keys| && keys[i] == key;
      assert Reports(fs)[i] == ReportFor(key, InCell(fs, key));
    }
    forall r | r in Reports(fs) && Blocks(r)
      ensures exists key :: key in CellsOf(fs) && Blocks(ReportFor(key, InCell(fs, key)))
    {
      var i :| 0 <= i < |Reports(fs)| && Reports(fs)[i] == r;
      assert keys[i] in keys;
    }
  }

  // ---------- the two denominators ----------

  function EligibleWithin(fs: seq<Finding>, keys: set<CellKey>): nat {
    if fs == [] then 0
    else (if Eligible(fs[0]) && CellOf(fs[0]) in keys then 1 else 0) + EligibleWithin(fs[1..], keys)
  }

  lemma {:induction false} EligibleSplits(fs: seq<Finding>, key: CellKey, keys: set<CellKey>)
    requires key !in keys
    ensures EligibleWithin(fs, keys + {key}) == EligibleWithin(fs, keys) + EligibleWithin(fs, {key})
  {
    if fs == [] {
    } else {
      EligibleSplits(fs[1..], key, keys);
    }
  }

  lemma SelectTail(fs: seq<Finding>, key: CellKey)
    requires fs != []
    ensures InCell(fs, key) == (if CellOf(fs[0]) == key then [fs[0]] else []) + InCell(fs[1..], key)
  { }

  lemma {:induction false} EligibleOfCell(fs: seq<Finding>, key: CellKey)
    ensures var m := InCell(fs, key); |m| - |Select(m, Ineligible)| == EligibleWithin(fs, {key})
  {
    if fs == [] {
    } else {
      EligibleOfCell(fs[1..], key);
      var f, m := fs[0], InCell(fs[1..], key);
      SelectTail(fs, key);
      assert ([f] + m)[1..] == m;
      assert Select([f] + m, Ineligible) == (if Ineligible(f) then [f] else []) + Select(m, Ineligible);
      assert EligibleWithin(fs, {key})
        == (if Eligible(f) && CellOf(f) == key then 1 else 0) + EligibleWithin(fs[1..], {key});
      if CellOf(f) != key { assert InCell(fs, key) == m; }
    }
  }

  lemma {:induction false} EligibleOverall(fs: seq<Finding>, keys: set<CellKey>)
    requires forall f | f in fs :: CellOf(f) in keys
    ensures EligibleWithin(fs, keys) == |Select(fs, Eligible)|
  {
    if fs == [] {
    } else {
      EligibleOverall(fs[1..], keys);
    }
  }

  lemma ReportEligible(fs: seq<Finding>, key: CellKey)
    ensures var r := ReportFor(key, InCell(fs, key));
      EligibleCount(r) == EligibleWithin(fs, {key}) && (r.vacuous ==> EligibleCount(r) == 0)
  {
    var members := InCell(fs, key);
    var sorted := SortBy(members, PathOf);
    SortIsPermutation(members, PathOf);
    SelectPermutes(sorted, members, Ineligible);
    EligibleOfCell(fs, key);
    if Select(sorted, Eligible) == [] {
      SelectEmpty(sorted, sorted, Eligible);
      AllSelected(sorted, Ineligible);
    }
  }

  lemma {:induction false} AllSelected<T>(xs: seq<T>, p: T -> bool)
    requires forall x | x in xs :: p(x)
    ensures Select(xs, p) == xs
  {
    if xs == [] {
    } else {
      AllSelected(xs[1..], p);
      assert xs == [xs[0]] + xs[1..];
    }
  }

  lemma TallyNext(fs: seq<Finding>, keys: seq<CellKey>)
    requires keys != []
    ensures var n := |keys| - 1;
      TallyOf(ReportsOn(fs, keys))
        == Counted(TallyOf(ReportsOn(fs, keys[..n])), ReportFor(keys[n], InCell(fs, keys[n])))
  {
    var n, all := |keys| - 1, ReportsOn(fs, keys);
    assert all[..n] == ReportsOn(fs, keys[..n]);
  }

  lemma EligibleNext(fs: seq<Finding>, keys: seq<CellKey>)
    requires keys != [] && NoDuplicates(keys)
    ensures var n := |keys| - 1;
      EligibleWithin(fs, set k | k in keys)
        == EligibleWithin(fs, set k | k in keys[..n]) + EligibleWithin(fs, {keys[n]})
  {
    var n := |keys| - 1;
    InitNoDuplicates(keys);
    var before := set k | k in keys[..n];
    assert keys == keys[..n] + [keys[n]];
    assert (set k | k in keys) == before + {keys[n]};
    EligibleSplits(fs, keys[n], before);
  }

  /** One credited member, and no member that takes its own credit back. */
  ghost predicate CellCovered(members: seq<Finding>) {
    (exists f | f in members :: Credited(f)) && forall f | f in members :: !Contradictory(f)
  }

  ghost predicate CellVacuous(members: seq<Finding>) { forall f | f in members :: f.ineligible }

  ghost predicate CellBlocks(members: seq<Finding>) {
    (exists f | f in members :: Contradictory(f)) || !CellPasses(members)
  }

  /** The three counters' cells among these keys. */
  ghost function CoveredAmong(fs: seq<Finding>, keys: seq<CellKey>): set<CellKey> {
    set k | k in keys && CellCovered(InCell(fs, k))
  }

  ghost function VacuousAmong(fs: seq<Finding>, keys: seq<CellKey>): set<CellKey> {
    set k | k in keys && CellVacuous(InCell(fs, k))
  }

  ghost function BlockingAmong(fs: seq<Finding>, keys: seq<CellKey>): set<CellKey> {
    set k | k in keys && CellBlocks(InCell(fs, k))
  }

  lemma ReportStates(key: CellKey, members: seq<Finding>)
    ensures var r := ReportFor(key, members);
      && (r.contradictory == [] && r.vacuous <==> CellVacuous(members))
      && (r.contradictory == [] && !r.vacuous && r.covered <==> CellCovered(members))
      && (Blocks(r) <==> CellBlocks(members))
  {
    var sorted := SortBy(members, PathOf);
    SortIsPermutation(members, PathOf);
    SelectEmpty(sorted, members, Credited);
    SelectEmpty(sorted, members, Eligible);
    SelectEmpty(sorted, members, Contradictory);
    ReportBlocks(key, members);
  }

  /** What one cell adds to the counters. */
  datatype CellState = CellState(covered: bool, vacuous: bool, blocks: bool, eligible: nat)

  ghost function StateOf(fs: seq<Finding>, key: CellKey): CellState {
    var members := InCell(fs, key);
    CellState(CellCovered(members), CellVacuous(members), CellBlocks(members), EligibleWithin(fs, {key}))
  }

  function Adds(t: Tally, c: CellState): Tally {
    Tally(t.totalCells + 1,
          t.coveredCells + (if c.covered then 1 else 0),
          t.vacuousCells + (if c.vacuous then 1 else 0),
          t.blockingCells + (if c.blocks then 1 else 0),
          t.totalLeaves + c.eligible,
          t.coveredLeaves + (if c.covered then c.eligible else 0))
  }

  function Summed(keys: seq<CellKey>, state: CellKey -> CellState): Tally {
    if keys == [] then Tally(0, 0, 0, 0, 0, 0) else Adds(Summed(keys[..|keys| - 1], state), state(keys[|keys| - 1]))
  }

  lemma CountedAdds(t: Tally, fs: seq<Finding>, key: CellKey)
    ensures Counted(t, ReportFor(key, InCell(fs, key))) == Adds(t, StateOf(fs, key))
  {
    ReportStates(key, InCell(fs, key));
    ReportEligible(fs, key);
  }

  lemma {:induction false} TallyIsSummed(fs: seq<Finding>, keys: seq<CellKey>, state: CellKey -> CellState)
    requires forall k :: state(k) == StateOf(fs, k)
    ensures TallyOf(ReportsOn(fs, keys)) == Summed(keys, state)
  {
    if keys == [] {
    } else {
      var n := |keys| - 1;
      TallyIsSummed(fs, keys[..n], state);
      TallyNext(fs, keys);
      CountedAdds(TallyOf(ReportsOn(fs, keys[..n])), fs, keys[n]);
    }
  }

  lemma {:induction false} SummedCounts(keys: seq<CellKey>, state: CellKey -> CellState)
    requires NoDuplicates(keys)
    ensures var t := Summed(keys, state);
      && t.totalCells == |keys|
      && t.coveredCells == |set k | k in keys && state(k).covered|
      && t.vacuousCells == |set k | k in keys && state(k).vacuous|
      && t.blockingCells == |set k | k in keys && state(k).blocks|
  {
    if keys == [] {
      assert Summed(keys, state) == Tally(0, 0, 0, 0, 0, 0);
    } else {
      var n := |keys| - 1;
      InitNoDuplicates(keys);
      SummedCounts(keys[..n], state);
      OneMoreKey(keys, k => state(k).covered);
      OneMoreKey(keys, k => state(k).vacuous);
      OneMoreKey(keys, k => state(k).blocks);
      SameSets(keys, state);
      SameSets(keys[..n], state);
    }
  }

  lemma SameSets(keys: seq<CellKey>, state: CellKey -> CellState)
    ensures KeysWith(keys, k => state(k).covered) == set k | k in keys && state(k).covered
    ensures KeysWith(keys, k => state(k).vacuous) == set k | k in keys && state(k).vacuous
    ensures KeysWith(keys, k => state(k).blocks) == set k | k in keys && state(k).blocks
  { }

  function KeysWith(keys: seq<CellKey>, p: CellKey -> bool): set<CellKey> { set k | k in keys && p(k) }

  lemma OneMoreKey(keys: seq<CellKey>, p: CellKey -> bool)
    requires keys != [] && keys[|keys| - 1] !in keys[..|keys| - 1]
    ensures |KeysWith(keys, p)| == |KeysWith(keys[..|keys| - 1], p)| + (if p(keys[|keys| - 1]) then 1 else 0)
  {
    var n := |keys| - 1;
    assert keys == keys[..n] + [keys[n]];
    assert KeysWith(keys, p) == KeysWith(keys[..n], p) + (if p(keys[n]) then {keys[n]} else {});
  }

  lemma {:induction false} SummedLeaves(fs: seq<Finding>, keys: seq<CellKey>, state: CellKey -> CellState)
    requires NoDuplicates(keys) && forall k :: state(k).eligible == EligibleWithin(fs, {k})
    ensures Summed(keys, state).totalLeaves == EligibleWithin(fs, set k | k in keys)
    ensures Summed(keys, state).coveredLeaves == EligibleWithin(fs, set k | k in keys && state(k).covered)
  {
    if keys == [] {
      NoneWithin(fs);
      assert (set k | k in keys) == {} && (set k | k in keys && state(k).covered) == {};
    } else {
      var n := |keys| - 1;
      var before, some := keys[..n], set k | k in keys[..n] && state(k).covered;
      InitNoDuplicates(keys);
      SummedLeaves(fs, before, state);
      EligibleNext(fs, keys);
      EligibleSplits(fs, keys[n], some);
      assert keys == before + [keys[n]];
      assert (set k | k in keys && state(k).covered) == if state(keys[n]).covered then some + {keys[n]} else some;
    }
  }

  lemma {:induction false} NoneWithin(fs: seq<Finding>)
    ensures EligibleWithin(fs, {}) == 0
  {
    if fs == [] {
    } else {
      NoneWithin(fs[1..]);
    }
  }

  lemma {:induction false} WithinGrows(fs: seq<Finding>, keys: set<CellKey>, more: set<CellKey>)
    requires keys <= more
    ensures EligibleWithin(fs, keys) <= EligibleWithin(fs, more)
  {
    if fs == [] {
    } else {
      WithinGrows(fs[1..], keys, more);
    }
  }

  lemma AmongAreSets(fs: seq<Finding>, keys: seq<CellKey>, state: CellKey -> CellState)
    requires forall k :: state(k) == StateOf(fs, k)
    ensures CoveredAmong(fs, keys) == set k | k in keys && state(k).covered
    ensures VacuousAmong(fs, keys) == set k | k in keys && state(k).vacuous
    ensures BlockingAmong(fs, keys) == set k | k in keys && state(k).blocks
  { }

  /** What each printed counter counts: the cells of each state and, for the leaves, the
      eligible ones overall and those in covered cells. */
  lemma TotalsMeaning(fs: seq<Finding>)
    ensures var t, keys := TallyOf(Reports(fs)), SortedCells(fs);
      && (forall k :: k in keys <==> k in CellsOf(fs)) && t.totalCells == |CellsOf(fs)|
      && t.coveredCells == |CoveredAmong(fs, keys)|
      && t.vacuousCells == |VacuousAmong(fs, keys)|
      && t.blockingCells == |BlockingAmong(fs, keys)|
      && t.totalLeaves == |Select(fs, Eligible)|
      && t.coveredLeaves == EligibleWithin(fs, CoveredAmong(fs, keys)) <= t.totalLeaves
  {
    var sorted := SortedCells(fs);
    SortedCellsDistinct(fs);
    SortedCellsAreCells(fs);
    DuplicateFreeIsSet(sorted);
    assert (set k | k in sorted) == CellsOf(fs);
    var state := k => StateOf(fs, k);
    TallyIsSummed(fs, sorted, state);
    SummedCounts(sorted, state);
    SummedLeaves(fs, sorted, state);
    AmongAreSets(fs, sorted, state);
    EligibleOverall(fs, CellsOf(fs));
    WithinGrows(fs, CoveredAmong(fs, sorted), CellsOf(fs));
  }

  // ---------- the lists of a report ----------

  lemma PathsSelected(members: seq<Finding>, p: Finding -> bool, path: string)
    ensures path in Paths(Select(SortBy(members, PathOf), p)) <==>
      exists f :: f in members && p(f) && f.path == path
  {
    var sorted := SortBy(members, PathOf);
    SortIsPermutation(members, PathOf);
    forall f ensures f in Select(sorted, p) <==> f in members && p(f) { SelectMembers(sorted, p, f); }
    var chosen := Select(sorted, p);
    if path in Paths(chosen) {
      var i :| 0 <= i < |chosen| && Paths(chosen)[i] == path;
      assert chosen[i] in chosen;
    }
    if f :| f in members && p(f) && f.path == path {
      var i :| 0 <= i < |chosen| && chosen[i] == f;
      assert Paths(chosen)[i] == path;
    }
  }

  /** A report lists every member's path once for each finding, in order, and names exactly
      the ineligible ones, the contradictory ones and, when the cell is neither covered nor
      vacuous, the eligible ones that nothing accounts for. */
  lemma ReportListsMean(key: CellKey, members: seq<Finding>, path: string)
    ensures var r := ReportFor(key, members);
      && r.key == key
      && SortedBy(r.members, Same) && multiset(r.members) == multiset(Paths(members))
      && (path in r.ineligibleMembers <==> exists f :: f in members && f.path == path && f.ineligible)
      && (path in r.contradictory <==>
            exists f :: f in members && f.path == path && !f.ineligible && f.contradiction)
      && (path in r.undispositionedMembers <==>
            && !CellVacuous(members) && (forall f | f in members :: !Credited(f))
            && exists f :: f in members && f.path == path && !f.ineligible && !f.covered && !f.contradiction
                        && f.disposition == NoDisposition)
  {
    var sorted := SortBy(members, PathOf);
    PathsSelected(members, Ineligible, path);
    PathsSelected(members, Contradictory, path);
    PathsSelected(members, Undispositioned, path);
    SortIsPermutation(members, PathOf);
    SelectEmpty(sorted, members, Credited);
    SelectEmpty(sorted, members, Eligible);
    KeysSort(members, PathOf);
    assert Paths(sorted) == KeysOf(sorted, PathOf) && Paths(members) == KeysOf(members, PathOf);
    SortSorts(Paths(members), Same);
    SortIsPermutation(Paths(members), Same);
  }

  // ---------- order and representatives ----------

  lemma SelectSorted<T>(xs: seq<T>, p: T -> bool, key: T -> string)
    requires SortedBy(xs, key) && Select(xs, p) != []
    ensures forall y | y in xs && p(y) :: LexLeq(key(Select(xs, p)[0]), key(y))
  {
    if !p(xs[0]) {
      SelectSorted(xs[1..], p, key);
      assert xs == [xs[0]] + xs[1..];
    }
  }

  /** The representative is the least credited path of its cell, with its own route. */
  lemma RepresentativeIsLeast(key: CellKey, members: seq<Finding>)
    ensures var r := ReportFor(key, members);
      && (r.covered <==> exists f :: f in members && Credited(f))
      && (r.covered ==>
            && (exists f :: f in members && Credited(f) && r.representative == Some(f.path) && r.route == f.route)
            && (forall f | f in members && Credited(f) :: LexLeq(r.representative.value, f.path)))
  {
    var sorted := SortBy(members, PathOf);
    SortIsPermutation(members, PathOf);
    SortSorts(members, PathOf);
    SelectEmpty(sorted, members, Credited);
    if Select(sorted, Credited) != [] {
      var rep := Select(sorted, Credited)[0];
      SelectMembers(sorted, Credited, rep);
      SelectSorted(sorted, Credited, PathOf);
    }
  }

  /** The i-th report, when covered, speaks for one of its own cell's findings and repeats
      that finding's route. */
  lemma RepresentativeAt(fs: seq<Finding>, i: nat) returns (f: Finding)
    requires i < |Reports(fs)| && Reports(fs)[i].covered
    ensures f in fs && Credited(f) && CellOf(f) == SortedCells(fs)[i]
    ensures Reports(fs)[i].representative == Some(f.path) && Reports(fs)[i].route == f.route
  {
    var key, r := SortedCells(fs)[i], Reports(fs)[i];
    var members := InCell(fs, key);
    RepresentativeIsLeast(key, members);
    f :| f in members && Credited(f) && r.representative == Some(f.path) && r.route == f.route;
    SelectMembers(fs, g => CellOf(g) == key, f);
  }

  /** A covered report speaks for one of the findings, and repeats its route. */
  lemma RepresentativeFinding(fs: seq<Finding>, r: ClearCellReport) returns (f: Finding)
    requires r in Reports(fs) && r.covered
    ensures f in fs && Credited(f) && r.representative == Some(f.path) && r.route == f.route
  {
    var i :| 0 <= i < |Reports(fs)| && Reports(fs)[i] == r;
    f := RepresentativeAt(fs, i);
  }

  /** Two reports never speak for the same path. */
  lemma RepresentativesDiffer(fs: seq<Finding>, i: nat, j: nat)
    requires KeysIdentify(fs, PathOf) && i < |Reports(fs)| && j < |Reports(fs)| && i != j
    requires Reports(fs)[i].covered && Reports(fs)[j].covered
    ensures Reports(fs)[i].representative != Reports(fs)[j].representative
  {
    SortedCellsDistinct(fs);
    var f := RepresentativeAt(fs, i);
    var g := RepresentativeAt(fs, j);
    assert PathOf(f) == PathOf(g) ==> f == g;
  }

  /** Every report, and so the gate, is a function of which findings there are, not of
      the order they came in. */
  lemma OrderDoesNotMatter(fs: seq<Finding>, gs: seq<Finding>)
    requires multiset(fs) == multiset(gs) && KeysIdentify(fs, PathOf)
    ensures Reports(fs) == Reports(gs)
  {
    forall f ensures f in fs <==> f in gs { SameMembers(fs, gs, f); }
    assert CellsOf(fs) == CellsOf(gs);
    var keys := SortedCells(fs);
    forall key ensures ReportFor(key, InCell(fs, key)) == ReportFor(key, InCell(gs, key)) {
      var p := (f: Finding) => CellOf(f) == key;
      SelectPermutes(fs, gs, p);
      forall f ensures f in InCell(fs, key) ==> f in fs { SelectMembers(fs, p, f); }
      SortIgnoresOrder(InCell(fs, key), InCell(gs, key), PathOf);
    }
    assert forall i :: 0 <= i < |keys| ==> Reports(fs)[i] == Reports(gs)[i];
  }
}
