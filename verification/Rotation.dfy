/** The size-scaled rotation of cell representatives
    (internal/roundtrip/rotation.go): the per-run budget, the persisted cursors and
    sticky registry, and what a whole history of runs selects. */
module Rotation {
  import opened Text
  import opened Cells
  import opened Modular

  // ---------- the budget ----------

  function Max(a: nat, b: nat): nat { if a < b then b else a }

  /** Runs the budget is built to converge within. */
  function TargetRuns(size: nat): (t: nat)
    ensures t >= 2
  { Max(2, CeilDiv(size, 8)) }

  function Budget(size: int): nat { if size <= 0 then 0 else CeilDiv(size, TargetRuns(size)) }

  method RepresentativesPerRun(size: int) returns (reps: nat)
    ensures reps == Budget(size)
  {
    if size <= 0 { return 0; }
    CeilDivSpelled(size, 8);
    CeilDivSpelled(size, TargetRuns(size));
    var target := size / 8;
    if size % 8 != 0 { target := target + 1; }
    if target < 2 { target := 2; }
    reps := size / target;
    if size % target != 0 { reps := reps + 1; }
    if reps > size { reps := size; }
    BudgetBounds(size);
  }

  /** Between one and eight members a run, and the fewest with which the runs needed to
      meet everyone never exceed max(2, ceil(n/8)). */
  lemma BudgetBounds(n: nat)
    requires n > 0
    ensures 1 <= Budget(n) <= 8 && Budget(n) <= n
    ensures CeilDiv(n, Budget(n)) <= Max(2, CeilDiv(n, 8))
    ensures CeilDiv(n, Budget(n)) * Budget(n) >= n
    ensures forall b: nat | 1 <= b < Budget(n) :: CeilDiv(n, b) > Max(2, CeilDiv(n, 8))
  {
    var target := TargetRuns(n);
    CeilDivBounds(n, 8);
    MulMonotone(8, CeilDiv(n, 8), target);
    assert target * 8 == 8 * target;
    CeilDivLeast(n, target, 8);
    MulMonotone(n, 1, target);
    assert target * n == n * target;
    CeilDivLeast(n, target, n);
    CeilDivBounds(n, target);
    assert Budget(n) * target == target * Budget(n);
    CeilDivLeast(n, Budget(n), target);
    CeilDivBounds(n, Budget(n));
    forall b: nat | 1 <= b < Budget(n) ensures CeilDiv(n, b) > target { FewerIsSlower(n, b, target); }
  }

  lemma FewerIsSlower(n: nat, b: nat, target: nat)
    requires target > 0 && 1 <= b < CeilDiv(n, target)
    ensures CeilDiv(n, b) > target
  {
    if CeilDiv(n, b) <= target {
      CeilDivBounds(n, b);
      MulMonotone(b, CeilDiv(n, b), target);
      assert target * b == b * target;
      CeilDivLeast(n, target, b);
    }
  }

  // ---------- the shuffled order ----------

  /** The seeded generator: an arbitrary but fixed draw for each step of each shuffle. */
  type Draws = (int, string, nat, nat) -> nat

  ghost predicate IsPermutation(order: seq<nat>, n: nat) {
    && |order| == n
    && (forall i :: 0 <= i < n ==> order[i] < n)
    && (forall i, j :: 0 <= i < j < n ==> order[i] != order[j])
  }

  function Swap(s: seq<nat>, i: nat, j: nat): seq<nat>
    requires i < |s| && j < |s|
  { s[i := s[j]][j := s[i]] }

  /** The draw reduced to [0, i]. */
  function Below(draw: nat -> nat, i: nat): (j: nat)
    ensures j <= i
  { draw(i) % (i + 1) }

  /** rand.Shuffle's remaining swaps from position i down. */
  function ShuffleFrom(order: seq<nat>, i: nat, draw: nat -> nat): seq<nat>
    requires i < |order| || order == []
    decreases i
  {
    if i == 0 || order == [] then order else ShuffleFrom(Swap(order, i, Below(draw, i)), i - 1, draw)
  }

  function Identity(n: nat): seq<nat> { seq(n, i requires 0 <= i < n => i) }

  function StepDraw(draws: Draws, seed: int, key: CellKey, n: nat): nat -> nat { i => draws(seed, key.Text(), n, i) }

  function OrderOf(draws: Draws, seed: int, key: CellKey, n: nat): seq<nat> {
    ShuffleFrom(Identity(n), if n == 0 then 0 else n - 1, StepDraw(draws, seed, key, n))
  }

  method SwapCells(a: array<nat>, i: nat, j: nat)
    requires i < a.Length && j < a.Length
    modifies a
    ensures a[..] == Swap(old(a[..]), i, j)
  {
    a[i], a[j] := a[j], a[i];
  }

  method IdentityOrder(n: nat) returns (order: array<nat>)
    ensures fresh(order) && order[..] == Identity(n)
  {
    order := new nat[n](i => i);
  }

  method ShuffledOrder(draws: Draws, seed: int, key: CellKey, n: nat) returns (order: array<nat>)
    ensures fresh(order) && order[..] == OrderOf(draws, seed, key, n)
  {
    order := IdentityOrder(n);
    if n == 0 { return; }
    var draw := StepDraw(draws, seed, key, n);
    var i := n - 1;
    while i > 0
      invariant 0 <= i < n
      invariant ShuffleFrom(order[..], i, draw) == OrderOf(draws, seed, key, n)
    {
      SwapCells(order, i, Below(draw, i));
      i := i - 1;
    }
  }

  lemma SwapKeepsPermutation(s: seq<nat>, n: nat, i: nat, j: nat)
    requires IsPermutation(s, n) && i < n && j < n
    ensures IsPermutation(Swap(s, i, j), n)
  { }

  /** Whatever the generator draws, the order is a permutation of the positions. */
  lemma {:induction false} ShuffleIsPermutation(s: seq<nat>, n: nat, i: nat, draw: nat -> nat)
    requires IsPermutation(s, n) && (i < n || n == 0)
    ensures IsPermutation(ShuffleFrom(s, i, draw), n)
    decreases i
  {
    if i > 0 && s != [] {
      SwapKeepsPermutation(s, n, i, Below(draw, i));
      ShuffleIsPermutation(Swap(s, i, Below(draw, i)), n, i - 1, draw);
    }
  }

  lemma OrderIsPermutation(draws: Draws, seed: int, key: CellKey, n: nat)
    ensures IsPermutation(OrderOf(draws, seed, key, n), n)
  {
    ShuffleIsPermutation(Identity(n), n, if n == 0 then 0 else n - 1, StepDraw(draws, seed, key, n));
  }

  /** And any permutation can be drawn: no position is out of a swap's reach. */
  lemma EveryOrderCanBeDrawn(target: seq<nat>, n: nat) returns (draw: nat -> nat)
    requires IsPermutation(target, n)
    ensures ShuffleFrom(Identity(n), if n == 0 then 0 else n - 1, draw) == target
  {
    if n == 0 {
      draw := _ => 0;
    } else {
      draw := DrawFor(Identity(n), target, n, n - 1);
    }
  }

  /** Above position i the two already agree; below it they hold the same values. */
  ghost predicate AgreeAbove(s: seq<nat>, target: seq<nat>, n: nat, i: nat) {
    && IsPermutation(s, n) && IsPermutation(target, n)
    && forall k :: i < k < n ==> s[k] == target[k]
  }

  lemma {:induction false} DrawFor(s: seq<nat>, target: seq<nat>, n: nat, i: nat) returns (draw: nat -> nat)
    requires AgreeAbove(s, target, n, i) && i < n
    ensures ShuffleFrom(s, i, draw) == target
    decreases i
  {
    var j := WhereItIs(s, target, n, i);
    if i == 0 {
      draw := _ => 0;
      assert s == target;
    } else {
      SwapAgrees(s, target, n, i, j);
      var rest := DrawFor(Swap(s, i, j), target, n, i - 1);
      draw := DrawFirst(i, j, rest);
      DivModUnique(j, i + 1, 0, j);
      assert Below(draw, i) == j;
      ShuffleReadsBelow(Swap(s, i, j), i - 1, draw, rest);
    }
  }

  function DrawFirst(i: nat, j: nat, rest: nat -> nat): nat -> nat { k => if k == i then j else rest(k) }

  /** The value wanted at position i still stands at or below it. */
  lemma WhereItIs(s: seq<nat>, target: seq<nat>, n: nat, i: nat) returns (j: nat)
    requires AgreeAbove(s, target, n, i) && i < n
    ensures j <= i && s[j] == target[i]
  {
    PermutationReaches(s, n, target[i]);
    j :| j < n && s[j] == target[i];
  }

  lemma SwapAgrees(s: seq<nat>, target: seq<nat>, n: nat, i: nat, j: nat)
    requires AgreeAbove(s, target, n, i) && 0 < i < n && j <= i && s[j] == target[i]
    ensures AgreeAbove(Swap(s, i, j), target, n, i - 1)
  {
    SwapKeepsPermutation(s, n, i, j);
    var t := Swap(s, i, j);
    assert t[i] == target[i];
    forall k | i < k < n ensures t[k] == target[k] { assert t[k] == s[k]; }
  }

  lemma {:induction false} ShuffleReadsBelow(s: seq<nat>, i: nat, a: nat -> nat, b: nat -> nat)
    requires i < |s| && forall k: nat | k <= i :: a(k) == b(k)
    ensures ShuffleFrom(s, i, a) == ShuffleFrom(s, i, b)
    decreases i
  {
    if i == 0 {
    } else {
      assert Below(a, i) == Below(b, i);
      ShuffleReadsBelow(Swap(s, i, Below(a, i)), i - 1, a, b);
    }
  }

  /** An injection of [0,n) into itself reaches every value. */
  lemma {:induction false} PermutationReaches(order: seq<nat>, n: nat, v: nat)
    requires IsPermutation(order, n) && v < n
    ensures exists p: nat :: p < n && order[p] == v
  {
    var image := set i | 0 <= i < n :: order[i];
    ImageSize(order, n);
    var all := Range(n);
    assert image <= all;
    SubsetOfSameSize(image, all);
    assert v in image;
  }

  lemma {:induction false} ImageSize(order: seq<nat>, m: nat)
    requires m <= |order| && forall i, j :: 0 <= i < j < m ==> order[i] != order[j]
    ensures |set i | 0 <= i < m :: order[i]| == m
  {
    if m == 0 {
    } else {
      ImageSize(order, m - 1);
      var before := set i | 0 <= i < m - 1 :: order[i];
      assert (set i | 0 <= i < m :: order[i]) == before + {order[m - 1]};
      assert order[m - 1] !in before;
    }
  }

  function Range(n: nat): (r: set<nat>)
    ensures |r| == n && forall i: nat :: i in r <==> i < n
  {
    if n == 0 then {} else Range(n - 1) + {n - 1}
  }

  lemma SubsetOfSameSize<T>(a: set<T>, b: set<T>)
    requires a <= b && |a| == |b|
    ensures a == b
  {
    assert |b - a| == |b| - |a|;
  }

  // ---------- one run's selection ----------

  datatype State = State(cursors: map<string, nat>, sticky: map<string, seq<string>>)

  function CursorAt(s: State, skey: string): nat { if skey in s.cursors then s.cursors[skey] else 0 }
  function StickyAt(s: State, skey: string): seq<string> { if skey in s.sticky then s.sticky[skey] else [] }

  /** The generator and seed a provider's state file was created with. */
  datatype Schedule = Schedule(draws: Draws, seed: int) {
    function Order(key: CellKey, n: nat): seq<nat> { OrderOf(draws, seed, key, n) }
  }

  /** The i-th position of a run's window. */
  function PickAt(order: seq<nat>, members: seq<string>, cursor: nat, i: nat): string
    requires members != [] && IsPermutation(order, |members|)
  { members[order[(cursor + i) % |members|]] }

  /** The members the round robin itself lands on, before any sticky additions. */
  function RotatedPicks(sch: Schedule, cursor: nat, key: CellKey, members: seq<string>): set<string> {
    if members == [] then {} else Window(sch, key, members, cursor, Budget(|members|))
  }

  function Window(sch: Schedule, key: CellKey, members: seq<string>, cursor: nat, budget: nat): set<string>
    requires members != []
  {
    OrderIsPermutation(sch.draws, sch.seed, key, |members|);
    WindowOf(sch.Order(key, |members|), members, cursor, budget)
  }

  function WindowOf(order: seq<nat>, members: seq<string>, cursor: nat, budget: nat): set<string>
    requires members != [] && IsPermutation(order, |members|)
  { set i: nat | i < budget :: PickAt(order, members, cursor, i) }

  /** Everything one selection returns, given the state stored under the cell's key. */
  function Selection(sch: Schedule, s: State, skey: string, key: CellKey, members: seq<string>): set<string> {
    if members == [] then {}
    else RotatedPicks(sch, CursorAt(s, skey), key, members) + set m | m in StickyAt(s, skey)
  }

  /** What one selection returns. */
  ghost function Returned(sch: Schedule, s: State, skey: string, key: CellKey, members: seq<string>): seq<string> {
    SortedKeys(Selection(sch, s, skey, key, members))
  }

  /** A path is returned exactly when it is sticky or stands in this run's window of the
      shuffled order; nothing is returned for an empty member list. */
  lemma ReturnedExactly(sch: Schedule, s: State, skey: string, key: CellKey, members: seq<string>, m: string)
    ensures members == [] ==> Returned(sch, s, skey, key, members) == []
    ensures IsPermutation(sch.Order(key, |members|), |members|)
    ensures members != [] ==>
      (m in Returned(sch, s, skey, key, members) <==>
         || m in StickyAt(s, skey)
         || exists i: nat ::
              i < Budget(|members|) && m == PickAt(sch.Order(key, |members|), members, CursorAt(s, skey), i))
  {
    OrderIsPermutation(sch.draws, sch.seed, key, |members|);
    SortedKeysMembers(Selection(sch, s, skey, key, members));
    NothingSelected();
  }

  /** What one selection returns is sorted and without repeats. */
  lemma ReturnedIsTidy(sch: Schedule, s: State, skey: string, key: CellKey, members: seq<string>)
    ensures SortedBy(Returned(sch, s, skey, key, members), Same)
    ensures NoDuplicates(Returned(sch, s, skey, key, members))
  {
    KeysAreTidy(Selection(sch, s, skey, key, members));
  }

  lemma KeysAreTidy(s: set<string>)
    ensures SortedBy(SortedKeys(s), Same) && NoDuplicates(SortedKeys(s))
  {
    SortSorts(Enumerate(s), Same);
    SortIsPermutation(Enumerate(s), Same);
    DuplicateFreeIsSet(Enumerate(s));
    FreeHasNoDuplicates(SortedKeys(s));
  }

  ghost predicate Distinct(members: seq<string>) { forall i, j :: 0 <= i < j < |members| ==> members[i] != members[j] }

  lemma {:induction false} WindowSize(order: seq<nat>, members: seq<string>, cursor: nat, budget: nat)
    requires members != [] && Distinct(members) && IsPermutation(order, |members|) && budget <= |members|
    ensures |WindowOf(order, members, cursor, budget)| == budget
  {
    if budget == 0 {
      assert WindowOf(order, members, cursor, 0) == {};
    } else {
      WindowSize(order, members, cursor, budget - 1);
      WindowGrows(order, members, cursor, budget - 1);
    }
  }

  lemma WindowGrows(order: seq<nat>, members: seq<string>, cursor: nat, b: nat)
    requires members != [] && Distinct(members) && IsPermutation(order, |members|) && b < |members|
    ensures var last := PickAt(order, members, cursor, b);
      && WindowOf(order, members, cursor, b + 1) == WindowOf(order, members, cursor, b) + {last}
      && last !in WindowOf(order, members, cursor, b)
  {
    forall i: nat | i < b ensures PickAt(order, members, cursor, i) != PickAt(order, members, cursor, b) {
      PicksDiffer(order, members, cursor, i, b);
    }
  }

  lemma PicksDiffer(order: seq<nat>, members: seq<string>, cursor: nat, i: nat, j: nat)
    requires members != [] && Distinct(members) && IsPermutation(order, |members|) && i < j < |members|
    ensures PickAt(order, members, cursor, i) != PickAt(order, members, cursor, j)
  {
    var p, q := (cursor + i) % |members|, (cursor + j) % |members|;
    NeverTwiceInALap(cursor, i, j, |members|);
    assert order[p] != order[q];
  }

  lemma NeverTwiceInALap(c: nat, i: nat, j: nat, n: nat)
    requires i < j < n
    ensures (c + i) % n != (c + j) % n
  {
    var p := (c + j) % n;
    LandsOn(c, i, p, n);
    LandsOn(c, j, p, n);
    DivModUnique(i, n, 0, i);
    DivModUnique(j, n, 0, j);
  }

  /** One run tests the budget's number of members, and beyond it only sticky fields. */
  lemma SelectionSize(sch: Schedule, s: State, skey: string, key: CellKey, members: seq<string>)
    requires members != [] && Distinct(members)
    ensures var size := |Returned(sch, s, skey, key, members)|;
      Budget(|members|) <= size <= Budget(|members|) + |StickyAt(s, skey)|
  {
    var picks, stuck := RotatedPicks(sch, CursorAt(s, skey), key, members), set m | m in StickyAt(s, skey);
    OrderIsPermutation(sch.draws, sch.seed, key, |members|);
    BudgetBounds(|members|);
    WindowSize(sch.Order(key, |members|), members, CursorAt(s, skey), Budget(|members|));
    SortedKeysSize(picks + stuck);
    SetOfSize(StickyAt(s, skey));
    assert picks + stuck == picks + (stuck - picks);
    assert |stuck| == |stuck - picks| + |stuck * picks| by { assert stuck == (stuck - picks) + (stuck * picks); }
  }

  lemma {:induction false} SetOfSize(xs: seq<string>)
    ensures |set m | m in xs| <= |xs|
  {
    if xs == [] {
    } else {
      SetOfSize(xs[1..]);
      assert xs == [xs[0]] + xs[1..];
      assert (set m | m in xs) == {xs[0]} + (set m | m in xs[1..]);
    }
  }

  lemma SortedKeysSize(s: set<string>)
    ensures |SortedKeys(s)| == |s|
  {
    DuplicateFreeIsSet(Enumerate(s));
    SortIsPermutation(Enumerate(s), Same);
  }

  function AfterSelect(s: State, skey: string, members: seq<string>): State {
    if members == [] then s
    else s.(cursors := s.cursors[skey := (CursorAt(s, skey) + Budget(|members|)) % |members|])
  }

  function AfterPromote(s: State, skey: string, field: string): State {
    if field in StickyAt(s, skey) then s
    else s.(sticky := s.sticky[skey := SortStrings(StickyAt(s, skey) + [field])])
  }

  class RotationState {
    const schedule: Schedule
    var cursors: map<string, nat>
    var sticky: map<string, seq<string>>

    function View(): State
      reads this
    { State(cursors, sticky) }

    constructor (schedule: Schedule)
      ensures this.schedule == schedule && View() == State(map[], map[])
    {
      this.schedule := schedule;
      cursors, sticky := map[], map[];
    }

    /** This run's representatives, sorted and without repeats, and the cursor moved on. */
    method Select(scope: string, key: CellKey, members: seq<string>)
      returns (representatives: seq<string>, stuck: seq<string>)
      modifies this`cursors
      ensures View() == AfterSelect(old(View()), StateKey(scope, key), members)
      ensures representatives == Returned(schedule, old(View()), StateKey(scope, key), key, members)
      ensures stuck == if members == [] then [] else StickyAt(old(View()), StateKey(scope, key))
    {
      representatives, stuck := SelectUnder(StateKey(scope, key), key, members);
    }

    method SelectUnder(skey: string, key: CellKey, members: seq<string>)
      returns (representatives: seq<string>, stuck: seq<string>)
      modifies this`cursors
      ensures View() == AfterSelect(old(View()), skey, members)
      ensures representatives == SortedKeys(Selection(schedule, old(View()), skey, key, members))
      ensures stuck == if members == [] then [] else StickyAt(old(View()), skey)
    {
      var n := |members|;
      if n == 0 {
        NothingSelected();
        return [], [];
      }
      var cursor := CursorAt(View(), skey);
      stuck := StickyAt(View(), skey);
      var budget := RepresentativesPerRun(n);
      representatives := Choose(schedule, key, members, cursor, budget, stuck);
      cursors := cursors[skey := (cursor + budget) % n];
    }

    /** Idempotent: an already sticky field changes nothing. */
    method PromoteFailure(scope: string, key: CellKey, field: string)
      modifies this`sticky
      ensures View() == AfterPromote(old(View()), StateKey(scope, key), field)
    {
      var skey := StateKey(scope, key);
      var current := StickyAt(View(), skey);
      for i := 0 to |current|
        invariant field !in current[..i]
      {
        if current[i] == field { return; }
        assert current[..i+1] == current[..i] + [current[i]];
      }
      assert current[..|current|] == current;
      sticky := sticky[skey := SortStrings(current + [field])];
    }
  }

  /** result = append(result, m), kept free of repeats. */
  method Add(result: seq<string>, picked: set<string>, m: string) returns (r: seq<string>)
    requires NoDuplicates(result) && (set x | x in result) == picked && m !in picked
    ensures NoDuplicates(r) && (set x | x in r) == picked + {m}
  {
    assert m !in result by { assert forall x | x in result :: x in (set y | y in result); }
    r := result + [m];
    OneMoreIsFree(result, m);
    assert forall x :: x in r <==> x == m || x in result;
    assert forall x :: x in result <==> x in (set y | y in result);
  }

  method TakeRotated(order: array<nat>, members: seq<string>, cursor: nat, budget: nat)
    returns (result: seq<string>, picked: set<string>)
    requires members != [] && IsPermutation(order[..], |members|)
    ensures picked == WindowOf(order[..], members, cursor, budget)
    ensures NoDuplicates(result) && (set m | m in result) == picked
  {
    result, picked := [], {};
    for i := 0 to budget
      invariant picked == WindowOf(order[..], members, cursor, i)
      invariant NoDuplicates(result) && (set m | m in result) == picked
    {
      var m := members[order[..][(cursor + i) % |members|]];
      assert m == PickAt(order[..], members, cursor, i);
      if m !in picked { result := Add(result, picked, m); }
      picked := picked + {m};
    }
  }

  method AddMissing(chosen: seq<string>, ghost picked: set<string>, extra: seq<string>) returns (result: seq<string>)
    requires NoDuplicates(chosen) && (set m | m in chosen) == picked
    ensures NoDuplicates(result) && (set m | m in result) == picked + set m | m in extra
  {
    result := chosen;
    var seen := set m | m in chosen;
    for i := 0 to |extra|
      invariant seen == picked + set m | m in extra[..i]
      invariant NoDuplicates(result) && (set m | m in result) == seen
    {
      assert extra[..i+1] == extra[..i] + [extra[i]];
      if extra[i] !in seen { result := Add(result, seen, extra[i]); }
      seen := seen + {extra[i]};
    }
    assert extra[..|extra|] == extra;
  }

  method Choose(sch: Schedule, key: CellKey, members: seq<string>, cursor: nat, budget: nat, stuck: seq<string>)
    returns (representatives: seq<string>)
    requires members != []
    ensures representatives == SortedKeys(Window(sch, key, members, cursor, budget) + set m | m in stuck)
  {
    OrderIsPermutation(sch.draws, sch.seed, key, |members|);
    var order := ShuffledOrder(sch.draws, sch.seed, key, |members|);
    var result, picked := TakeRotated(order, members, cursor, budget);
    result := AddMissing(result, picked, stuck);
    GatheredSort(result, picked + set m | m in stuck);
    representatives := SortStrings(result);
  }

  lemma GatheredSort(result: seq<string>, picked: set<string>)
    requires NoDuplicates(result) && (set x | x in result) == picked
    ensures SortStrings(result) == SortedKeys(picked)
  {
    assert forall x :: x in result <==> x in (set y | y in result);
    GatheredKeysSort(result, picked);
  }

  lemma NothingSelected()
    ensures SortedKeys({}) == []
  {
    var none: set<string> := {};
    assert Enumerate(none) == [];
  }
}
