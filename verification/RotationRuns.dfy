/** Whole histories of rotation state: any interleaving of selections and promotions,
    for any scopes and cells, replayed from any starting state. */
module RotationRuns {
  import opened Text
  import opened Cells
  import opened Modular
  import opened Rotation

  /** A call on the rotation state, as CreditCells and the verify command make them. */
  datatype Call =
    | SelectCall(scope: string, key: CellKey, members: seq<string>)
    | PromoteCall(scope: string, key: CellKey, field: string)

  /** The same call as the persisted maps see it: under a state key. */
  datatype Op = DoSelect(skey: string, key: CellKey, members: seq<string>) | DoPromote(skey: string, field: string)

  function Keyed(call: Call): Op {
    match call
    case SelectCall(scope, key, members) => DoSelect(StateKey(scope, key), key, members)
    case PromoteCall(scope, key, field) => DoPromote(StateKey(scope, key), field)
  }

  function KeyedAll(calls: seq<Call>): (ops: seq<Op>)
    ensures |ops| == |calls| && forall i :: 0 <= i < |calls| ==> ops[i] == Keyed(calls[i])
  { seq(|calls|, i requires 0 <= i < |calls| => Keyed(calls[i])) }

  function Step(s: State, op: Op): State {
    match op
    case DoSelect(skey, key, members) => AfterSelect(s, skey, members)
    case DoPromote(skey, field) => AfterPromote(s, skey, field)
  }

  function Run(s: State, ops: seq<Op>): State {
    if ops == [] then s else Step(Run(s, ops[..|ops| - 1]), ops[|ops| - 1])
  }

  predicate Selects(op: Op, skey: string) { op.DoSelect? && op.skey == skey }

  function SelectCount(ops: seq<Op>, skey: string): nat {
    if ops == [] then 0 else SelectCount(ops[..|ops| - 1], skey) + (if Selects(ops[|ops| - 1], skey) then 1 else 0)
  }

  /** In how many of the key's selections the round robin lands on m. */
  function PickCount(sch: Schedule, s: State, ops: seq<Op>, skey: string, m: string): nat {
    if ops == [] then 0
    else
      var before, op := ops[..|ops| - 1], ops[|ops| - 1];
      PickCount(sch, s, before, skey, m) +
        (if Selects(op, skey) && m in RotatedPicks(sch, CursorAt(Run(s, before), skey), op.key, op.members)
         then 1 else 0)
  }

  /** How many of the key's selections return m. */
  ghost function ReturnCount(sch: Schedule, s: State, ops: seq<Op>, skey: string, m: string): nat {
    if ops == [] then 0
    else
      var before, op := ops[..|ops| - 1], ops[|ops| - 1];
      ReturnCount(sch, s, before, skey, m) +
        (if Selects(op, skey) && m in Returned(sch, Run(s, before), skey, op.key, op.members) then 1 else 0)
  }

  /** Every selection under the key is of this cell with this member list. */
  ghost predicate Steady(ops: seq<Op>, skey: string, key: CellKey, members: seq<string>) {
    forall op | op in ops && Selects(op, skey) :: op.key == key && op.members == members
  }

  // ---------- one cell's cursor on its own ----------

  /** The cursor after k selections of an n-member cell. */
  function CursorTurn(c0: nat, k: nat, b: nat, n: nat): nat
    requires n > 0
  { if k == 0 then c0 else (CursorTurn(c0, k - 1, b, n) + b) % n }

  /** How many of the first k windows contain m. */
  function TurnCount(order: seq<nat>, members: seq<string>, c0: nat, k: nat, b: nat, m: string): nat
    requires members != [] && IsPermutation(order, |members|)
  {
    if k == 0 then 0
    else
      var hit := m in WindowOf(order, members, CursorTurn(c0, k - 1, b, |members|), b);
      TurnCount(order, members, c0, k - 1, b, m) + (if hit then 1 else 0)
  }

  lemma {:induction false} CursorTurnModulo(c0: nat, k: nat, b: nat, n: nat)
    requires n > 0
    ensures CursorTurn(c0, k, b, n) % n == (c0 + k * b) % n
  {
    if k == 0 {
    } else {
      CursorTurnModulo(c0, k - 1, b, n);
      var before := CursorTurn(c0, k - 1, b, n);
      assert c0 + k * b == (c0 + (k - 1) * b) + b by { assert (k - 1 + 1) * b == (k - 1) * b + b; }
      ModAdd(before, b, n);
      ModAdd(c0 + (k - 1) * b, b, n);
      var r := (before + b) % n;
      DivModUnique(r, n, 0, r);
    }
  }

  /** The round robin lands on a member exactly when its window meets the member's
      position in the shuffled order. */
  lemma PickedIsHit(order: seq<nat>, members: seq<string>, cursor: nat, budget: nat, p: nat)
    requires members != [] && Distinct(members) && IsPermutation(order, |members|) && p < |members|
      && budget <= |members|
    ensures members[order[p]] in WindowOf(order, members, cursor, budget) <==> Hits(cursor, budget, p, |members|) == 1
  {
    var n := |members|;
    HitsWindow(cursor, budget, p, n);
    forall i: nat | i < budget
      ensures PickAt(order, members, cursor, i) == members[order[p]] <==> Lands(cursor, i, p, n)
    {
      var q := (cursor + i) % n;
      if q != p { assert order[q] != order[p]; }
    }
  }

  /** The windows tile one unbroken run of consecutive positions. */
  lemma {:induction false} TurnsAreHits(order: seq<nat>, members: seq<string>, c0: nat, k: nat, b: nat, p: nat)
    requires members != [] && Distinct(members) && IsPermutation(order, |members|) && p < |members| && b <= |members|
    ensures TurnCount(order, members, c0, k, b, members[order[p]]) == Hits(c0, k * b, p, |members|)
  {
    if k == 0 {
    } else {
      var n, cursor, moved := |members|, CursorTurn(c0, k - 1, b, |members|), (k - 1) * b;
      TurnsAreHits(order, members, c0, k - 1, b, p);
      assert k * b == moved + b by { assert (k - 1 + 1) * b == (k - 1) * b + b; }
      HitsAppend(c0, moved, b, p, n);
      CursorTurnModulo(c0, k - 1, b, n);
      HitsModular(c0 + moved, cursor, b, p, n);
      PickedIsHit(order, members, cursor, b, p);
      HitsWindow(cursor, b, p, n);
    }
  }

  // ---------- the key inside any history ----------

  lemma CursorNext(s: State, op: Op, skey: string, members: seq<string>)
    requires members != [] && (Selects(op, skey) ==> op.members == members)
    ensures CursorAt(Step(s, op), skey) ==
            if Selects(op, skey) then (CursorAt(s, skey) + Budget(|members|)) % |members| else CursorAt(s, skey)
  { }

  lemma {:induction false} CursorInHistory(s: State, ops: seq<Op>, skey: string, key: CellKey, members: seq<string>)
    requires members != [] && Steady(ops, skey, key, members)
    ensures CursorAt(Run(s, ops), skey)
      == CursorTurn(CursorAt(s, skey), SelectCount(ops, skey), Budget(|members|), |members|)
  {
    if ops == [] {
    } else {
      var before, op := ops[..|ops| - 1], ops[|ops| - 1];
      assert ops == before + [op] && op in ops;
      CursorInHistory(s, before, skey, key, members);
      CursorNext(Run(s, before), op, skey, members);
    }
  }

  lemma PickNext(sch: Schedule, s: State, before: seq<Op>, op: Op, skey: string, key: CellKey, members: seq<string>,
                 m: string)
    requires members != [] && Steady(before, skey, key, members)
      && (Selects(op, skey) ==> op.key == key && op.members == members)
    requires IsPermutation(sch.Order(key, |members|), |members|)
    ensures var cursor := CursorTurn(CursorAt(s, skey), SelectCount(before, skey), Budget(|members|), |members|);
      PickCount(sch, s, before + [op], skey, m) == PickCount(sch, s, before, skey, m) +
        (if Selects(op, skey) && m in WindowOf(sch.Order(key, |members|), members, cursor, Budget(|members|))
         then 1 else 0)
  {
    var ops := before + [op];
    assert ops[..|ops| - 1] == before && ops[|ops| - 1] == op;
    CursorInHistory(s, before, skey, key, members);
  }

  lemma {:induction false} PicksInHistory(sch: Schedule, s: State, ops: seq<Op>, skey: string, key: CellKey,
                                          members: seq<string>, m: string)
    requires members != [] && Steady(ops, skey, key, members)
    requires IsPermutation(sch.Order(key, |members|), |members|)
    ensures PickCount(sch, s, ops, skey, m) ==
            TurnCount(sch.Order(key, |members|), members,
                      CursorAt(s, skey), SelectCount(ops, skey), Budget(|members|), m)
  {
    if ops == [] {
    } else {
      var before, op := ops[..|ops| - 1], ops[|ops| - 1];
      assert ops == before + [op] && op in ops;
      PicksInHistory(sch, s, before, skey, key, members, m);
      PickNext(sch, s, before, op, skey, key, members, m);
    }
  }

  /** A member's tally after k selections is the number of whole laps made, plus at most
      one for the lap in progress. */
  lemma PicksPerMember(sch: Schedule, s: State, ops: seq<Op>, skey: string, key: CellKey, members: seq<string>, v: nat)
    requires members != [] && Distinct(members) && Steady(ops, skey, key, members) && v < |members|
    ensures var laps := SelectCount(ops, skey) * Budget(|members|) / |members|;
      laps <= PickCount(sch, s, ops, skey, members[v]) <= laps + 1
  {
    var n, b, c0, k := |members|, Budget(|members|), CursorAt(s, skey), SelectCount(ops, skey);
    OrderIsPermutation(sch.draws, sch.seed, key, n);
    PicksInHistory(sch, s, ops, skey, key, members, members[v]);
    assert b <= n by { BudgetBounds(n); }
    TurnsPerMember(sch.Order(key, n), members, c0, k, b, v);
  }

  lemma TurnsPerMember(order: seq<nat>, members: seq<string>, c0: nat, k: nat, b: nat, v: nat)
    requires members != [] && Distinct(members) && IsPermutation(order, |members|) && v < |members| && b <= |members|
    ensures var laps := k * b / |members|; laps <= TurnCount(order, members, c0, k, b, members[v]) <= laps + 1
  {
    PermutationReaches(order, |members|, v);
    var p: nat :| p < |members| && order[p] == v;
    TurnsAreHits(order, members, c0, k, b, p);
    HitsExact(c0, k * b, p, |members|);
  }

  // ---------- from picks to what is returned ----------

  lemma ReturnedIsPickedOrSticky(sch: Schedule, s: State, skey: string, key: CellKey, members: seq<string>, m: string)
    ensures m in RotatedPicks(sch, CursorAt(s, skey), key, members) ==> m in Returned(sch, s, skey, key, members)
    ensures m in Returned(sch, s, skey, key, members) ==>
      m in RotatedPicks(sch, CursorAt(s, skey), key, members) || m in StickyAt(s, skey)
  {
    SortedKeysMembers(Selection(sch, s, skey, key, members));
  }

  /** Everything the round robin lands on is returned, and nothing else is that is not
      sticky by then. */
  lemma {:induction false} PicksAreReturned(sch: Schedule, s: State, ops: seq<Op>, skey: string, m: string)
    ensures PickCount(sch, s, ops, skey, m) <= ReturnCount(sch, s, ops, skey, m)
    ensures m !in StickyAt(Run(s, ops), skey) ==>
      PickCount(sch, s, ops, skey, m) == ReturnCount(sch, s, ops, skey, m)
  {
    if ops == [] {
    } else {
      var before, op := ops[..|ops| - 1], ops[|ops| - 1];
      PicksAreReturned(sch, s, before, skey, m);
      if m in StickyAt(Run(s, before), skey) { StickyStays(Run(s, before), op, skey, m); }
      if Selects(op, skey) { ReturnedIsPickedOrSticky(sch, Run(s, before), skey, op.key, op.members, m); }
    }
  }

  lemma StickyStays(s: State, op: Op, skey: string, field: string)
    requires field in StickyAt(s, skey)
    ensures field in StickyAt(Step(s, op), skey)
  {
    if op.DoPromote? { SortIsPermutation(StickyAt(s, skey) + [op.field], Same); }
  }

  // ---------- what any history of calls guarantees ----------

  /** The cell's own member list never changes; every other call is arbitrary. */
  ghost predicate SteadyCalls(calls: seq<Call>, scope: string, key: CellKey, members: seq<string>) {
    forall c | c in calls && c.SelectCall? && c.scope == scope && c.key == key :: c.members == members
  }

  /** Distinct (scope, cell) pairs have distinct state keys, so whatever is called for
      the others, this cell's persisted history is its own. */
  lemma CallsDoNotInterfere(calls: seq<Call>, scope: string, key: CellKey, members: seq<string>)
    requires SteadyCalls(calls, scope, key, members)
    ensures Steady(KeyedAll(calls), StateKey(scope, key), key, members)
  {
    var ops := KeyedAll(calls);
    forall op | op in ops && Selects(op, StateKey(scope, key)) ensures op.key == key && op.members == members {
      var i :| 0 <= i < |ops| && ops[i] == op;
      assert calls[i] in calls;
      StateKeyInjective(calls[i].scope, calls[i].key, scope, key);
    }
  }

  /** Fairness and isolation: however other scopes, cells and promotions interleave, no two
      members are ever more than one rotated pick apart, and no member that is not sticky
      is ever returned two times more than another. */
  lemma RotationIsFair(sch: Schedule, s: State, calls: seq<Call>, scope: string, key: CellKey, members: seq<string>,
                       a: nat, b: nat)
    requires Distinct(members) && SteadyCalls(calls, scope, key, members) && a < |members| && b < |members|
    ensures var ops, skey := KeyedAll(calls), StateKey(scope, key);
      && PickCount(sch, s, ops, skey, members[a]) <= PickCount(sch, s, ops, skey, members[b]) + 1
      && (members[a] !in StickyAt(Run(s, ops), skey) ==>
            ReturnCount(sch, s, ops, skey, members[a]) <= ReturnCount(sch, s, ops, skey, members[b]) + 1)
  {
    PicksAreReturned(sch, s, KeyedAll(calls), StateKey(scope, key), members[a]);
    PicksAreReturned(sch, s, KeyedAll(calls), StateKey(scope, key), members[b]);
    CallsDoNotInterfere(calls, scope, key, members);
    PicksPerMember(sch, s, KeyedAll(calls), StateKey(scope, key), key, members, a);
    PicksPerMember(sch, s, KeyedAll(calls), StateKey(scope, key), key, members, b);
  }

  /** Convergence: from any cursor and any shuffle, some of the first ceil(n/budget)
      selections returns each member, and that is never more than max(2, ceil(n/8)). */
  lemma RotationCovers(sch: Schedule, s: State, calls: seq<Call>, scope: string, key: CellKey, members: seq<string>,
                       v: nat)
    requires Distinct(members) && SteadyCalls(calls, scope, key, members) && v < |members|
    ensures Budget(|members|) >= 1 && CeilDiv(|members|, Budget(|members|)) <= Max(2, CeilDiv(|members|, 8))
    ensures SelectCount(KeyedAll(calls), StateKey(scope, key)) >= CeilDiv(|members|, Budget(|members|)) ==>
      ReturnCount(sch, s, KeyedAll(calls), StateKey(scope, key), members[v]) >= 1
  {
    var n := |members|;
    BudgetBounds(n);
    CallsDoNotInterfere(calls, scope, key, members);
    PicksPerMember(sch, s, KeyedAll(calls), StateKey(scope, key), key, members, v);
    PicksAreReturned(sch, s, KeyedAll(calls), StateKey(scope, key), members[v]);
    var k := SelectCount(KeyedAll(calls), StateKey(scope, key));
    if k >= CeilDiv(n, Budget(n)) { AtLeastOneLap(k, Budget(n), CeilDiv(n, Budget(n)), n); }
  }

  lemma AtLeastOneLap(k: nat, b: nat, turns: nat, n: nat)
    requires n > 0 && k >= turns && turns * b >= n
    ensures k * b / n >= 1
  {
    MulMonotone(b, turns, k);
    assert k * b == b * k && turns * b == b * turns;
    var a := k * b;
    assert a == n * (a / n) + a % n;
  }

  lemma {:induction false} StickyIsKept(s: State, ops: seq<Op>, skey: string, field: string)
    requires field in StickyAt(s, skey)
    ensures field in StickyAt(Run(s, ops), skey)
  {
    if ops == [] {
    } else {
      var before, op := ops[..|ops| - 1], ops[|ops| - 1];
      StickyIsKept(s, before, skey, field);
      StickyStays(Run(s, before), op, skey, field);
    }
  }

  /** Sorted and without repeats, as the persisted sticky lists are kept. */
  ghost predicate Tidy(list: seq<string>) { SortedBy(list, Same) && NoDuplicates(list) }

  lemma {:induction false} StickyStaysTidy(s: State, ops: seq<Op>, skey: string)
    requires Tidy(StickyAt(s, skey))
    ensures Tidy(StickyAt(Run(s, ops), skey))
  {
    if ops == [] {
    } else {
      var before, op := ops[..|ops| - 1], ops[|ops| - 1];
      StickyStaysTidy(s, before, skey);
      var list := StickyAt(Run(s, before), skey);
      if op.DoPromote? && op.field !in list { AddedTidy(list, op.field); }
    }
  }

  lemma AddedTidy(list: seq<string>, field: string)
    requires Tidy(list) && field !in list
    ensures Tidy(SortStrings(list + [field]))
  {
    OneMoreIsFree(list, field);
    SortSorts(list + [field], Same);
    DuplicateFreeIsSet(list + [field]);
    SortIsPermutation(list + [field], Same);
    FreeHasNoDuplicates(SortStrings(list + [field]));
  }

  /** A promoted field is in every later selection of its cell that has any member at
      all; over an empty member list nothing is selected, sticky or not. */
  lemma PromotedIsAlwaysSelected(sch: Schedule, s: State, calls: seq<Call>, scope: string, key: CellKey,
                                 field: string, members: seq<string>)
    ensures var skey := StateKey(scope, key);
      var now := Run(AfterPromote(s, skey, field), KeyedAll(calls));
      field in Returned(sch, now, skey, key, members) <==> members != []
  {
    var skey := StateKey(scope, key);
    var promoted := AfterPromote(s, skey, field);
    SortIsPermutation(StickyAt(s, skey) + [field], Same);
    assert field in StickyAt(promoted, skey);
    StickyIsKept(promoted, KeyedAll(calls), skey, field);
    ReturnedExactly(sch, Run(promoted, KeyedAll(calls)), skey, key, members, field);
  }
}
