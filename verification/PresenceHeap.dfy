/** The presence tree as internal/roundtrip/ineligible.go builds it: Go maps and slices
    on the heap, copied by copyTreeValue and written into by setAtPath. No method here
    that takes a manifest value may modify it, so the absence of a `modifies` clause on
    TestEntryDataTree is the proof that the construction shares no storage with the
    manifest. */
module PresenceHeap {
  import opened Json
  import opened Text
  import opened Manifest
  import opened Presence

  /** A Go interface value: maps and slices are references. */
  datatype Value = Scalar(scalar: Json) | MapRef(node: MapNode) | ListRef(list: ListNode)

  class MapNode {
    var members: map<string, Value>
    constructor ()
      ensures members == map[]
    { members := map[]; }
  }

  class ListNode {
    var items: seq<Value>
    constructor (items: seq<Value>)
      ensures this.items == items
    { this.items := items; }
  }

  /** `v` stands for the JSON value `j`, using storage in `storage` only. */
  ghost predicate Denotes(v: Value, j: Json, storage: set<object>)
    reads storage
    decreases j
  {
    if j.Object? then
      && v.MapRef? && v.node in storage && v.node.members.Keys == j.members.Keys
      && forall k | k in j.members :: Denotes(v.node.members[k], j.members[k], storage)
    else if j.List? then
      && v.ListRef? && v.list in storage && |v.list.items| == |j.items|
      && forall i | 0 <= i < |j.items| :: Denotes(v.list.items[i], j.items[i], storage)
    else v == Scalar(j)
  }

  lemma {:induction false} MoreStorage(v: Value, j: Json, storage: set<object>, more: set<object>)
    requires Denotes(v, j, storage) && storage <= more
    ensures Denotes(v, j, more)
    decreases j
  {
    if j.Object? {
      forall k | k in j.members ensures Denotes(v.node.members[k], j.members[k], more) {
        MoreStorage(v.node.members[k], j.members[k], storage, more);
      }
    } else if j.List? {
      forall i | 0 <= i < |j.items| ensures Denotes(v.list.items[i], j.items[i], more) {
        MoreStorage(v.list.items[i], j.items[i], storage, more);
      }
    }
  }

  // ---------- unshared trees ----------

  type Nodes = map<Path, MapNode>

  /** The value held for a JSON value at `at`: its own map node, or a leaf. */
  ghost predicate ChildHolds(nodes: Nodes, lists: set<object>, v: Value, at: Path, j: Json)
    reads lists
  {
    if j.Object? then at in nodes && v == MapRef(nodes[at]) else Denotes(v, j, lists)
  }

  ghost predicate NodeHolds(nodes: Nodes, lists: set<object>, tree: Json, at: Path)
    requires at in nodes
    reads nodes[at], lists
  {
    && Get(tree, at).Some? && Get(tree, at).value.Object?
    && var ms := Get(tree, at).value.members;
    && nodes[at].members.Keys == ms.Keys
    && forall k | k in ms :: ChildHolds(nodes, lists, nodes[at].members[k], at + [k], ms[k])
  }

  ghost predicate SameNode(nodes: Nodes, p: Path, q: Path) { p in nodes && q in nodes && nodes[p] == nodes[q] }

  ghost predicate Unshared(nodes: Nodes, lists: set<object>) {
    && (forall p, q {:trigger SameNode(nodes, p, q)} | SameNode(nodes, p, q) :: p == q)
    && (forall n | n in nodes.Values :: n !in lists)
  }

  /** One map node per object of the tree and no two objects sharing a node; list storage
      is apart from all of them. */
  ghost predicate Holds(nodes: Nodes, lists: set<object>, tree: Json)
    reads nodes.Values, lists
  {
    && [] in nodes
    && Unshared(nodes, lists)
    && (forall p {:trigger NodeHolds(nodes, lists, tree, p)} | p in nodes :: NodeHolds(nodes, lists, tree, p))
  }

  /** An unshared tree denotes its JSON value. */
  lemma {:induction false} HoldsDenotes(nodes: Nodes, lists: set<object>, tree: Json, at: Path, j: Json)
    requires Holds(nodes, lists, tree) && at in nodes && Get(tree, at) == Some(j)
    ensures Denotes(MapRef(nodes[at]), j, nodes.Values + lists)
    decreases j
  {
    assert NodeHolds(nodes, lists, tree, at);
    forall k | k in j.members
      ensures Denotes(nodes[at].members[k], j.members[k], nodes.Values + lists)
    {
      if j.members[k].Object? {
        GetAppend(tree, at, [k]);
        assert [k][1..] == [];
        HoldsDenotes(nodes, lists, tree, at + [k], j.members[k]);
      } else {
        MoreStorage(nodes[at].members[k], j.members[k], lists, nodes.Values + lists);
      }
    }
  }

  // ---------- what one write does to the JSON tree ----------

  lemma {:induction false} GetAfterSet(tree: Json, w: Path, v: Json, q: Path)
    ensures Prefix(w, q) ==> Get(SetAt(tree, w, v), q) == Get(v, q[|w|..])
    ensures !Prefix(w, q) && !Prefix(q, w) ==> Get(SetAt(tree, w, v), q) == Get(tree, q)
    decreases w
  {
    if w == [] {
      assert q[0..] == q;
    } else if q != [] && w[0] == q[0] {
      PrefixTails(w, q);
      PrefixTails(q, w);
      GetAfterSet(MemberOr(Members(tree), w[0]), w[1..], v, q[1..]);
      if Prefix(w, q) { assert q[1..][|w| - 1..] == q[|w|..]; }
      assert Get(MemberOr(Members(tree), w[0]), q[1..]) == Get(tree, q) || !(tree.Object? && q[0] in tree.members);
    } else if q != [] {
      assert w == [w[0]] + w[1..] && q == [q[0]] + q[1..];
    }
  }

  /** An ancestor of the written path keeps every other member. */
  lemma {:induction false} GetAboveSet(tree: Json, q: Path, k: string, rest: Path, v: Json)
    requires Get(tree, q).Some? && Get(tree, q).value.Object?
    ensures var ms := Get(tree, q).value.members;
      Get(SetAt(tree, q + [k] + rest, v), q) == Some(Object(ms[k := SetAt(MemberOr(ms, k), rest, v)]))
  {
    var w := q + [k] + rest;
    if q == [] {
      assert w[1..] == rest;
    } else {
      assert w[1..] == q[1..] + [k] + rest;
      GetAboveSet(tree.members[q[0]], q[1..], k, rest, v);
    }
  }

  // ---------- grafting a subtree in at `w` ----------

  ghost function Graft(nodes: Nodes, w: Path, sub: Nodes): (r: Nodes)
    ensures forall q :: q in r <==> if Prefix(w, q) then q[|w|..] in sub else q in nodes
    ensures forall q | q in r :: r[q] == if Prefix(w, q) then sub[q[|w|..]] else nodes[q]
  {
    var moved := set q | q in sub :: w + q;
    assert forall q | q in sub :: Prefix(w, w + q) && (w + q)[|w|..] == q;
    assert forall q | q in moved :: Prefix(w, q) && q[|w|..] in sub;
    assert forall q :: Prefix(w, q) && q[|w|..] in sub ==> w + q[|w|..] == q && q in moved;
    map q | q in nodes.Keys + moved && (Prefix(w, q) ==> q in moved) ::
      if Prefix(w, q) then sub[q[|w|..]] else nodes[q]
  }

  lemma ChildKept(nodes: Nodes, lists: set<object>, v: Value, at: Path, j: Json, nodes': Nodes, lists': set<object>,
                  at': Path)
    requires ChildHolds(nodes, lists, v, at, j) && lists <= lists'
    requires at in nodes ==> at' in nodes' && nodes'[at'] == nodes[at]
    ensures ChildHolds(nodes', lists', v, at', j)
  {
    if !j.Object? { MoreStorage(v, j, lists, lists'); }
  }

  lemma GraftBeside(nodes: Nodes, lists: set<object>, tree: Json, w: Path, j: Json, sub: Nodes, lists': set<object>,
                    q: Path)
    requires q in nodes && NodeHolds(nodes, lists, tree, q) && lists <= lists'
    requires !Prefix(w, q) && !Prefix(q, w)
    ensures NodeHolds(Graft(nodes, w, sub), lists', SetAt(tree, w, j), q)
  {
    var nodes' := Graft(nodes, w, sub);
    GetAfterSet(tree, w, j, q);
    var ms := Get(tree, q).value.members;
    forall k | k in ms ensures ChildHolds(nodes', lists', nodes[q].members[k], q + [k], ms[k]) {
      ApartBelow(w, q, k);
      ChildKept(nodes, lists, nodes[q].members[k], q + [k], ms[k], nodes', lists', q + [k]);
    }
  }

  lemma ApartBelow(w: Path, q: Path, k: string)
    ensures Prefix(w, q + [k]) ==> Prefix(w, q) || Prefix(q, w)
  {
    if Prefix(w, q + [k]) {
      if |w| <= |q| { assert w == (q + [k])[..|w|] == q[..|w|]; } else { assert w == q + [k] && w[..|q|] == q; }
    }
  }

  lemma GraftBelow(nodes: Nodes, tree: Json, w: Path, j: Json, sub: Nodes, subLists: set<object>, lists': set<object>,
                   q: Path)
    requires Prefix(w, q) && q[|w|..] in sub && NodeHolds(sub, subLists, j, q[|w|..]) && subLists <= lists'
    ensures NodeHolds(Graft(nodes, w, sub), lists', SetAt(tree, w, j), q)
  {
    var nodes', r := Graft(nodes, w, sub), q[|w|..];
    GetAfterSet(tree, w, j, q);
    var ms := Get(j, r).value.members;
    forall k | k in ms ensures ChildHolds(nodes', lists', sub[r].members[k], q + [k], ms[k]) {
      assert Prefix(w, q + [k]) && (q + [k])[|w|..] == r + [k];
      ChildKept(sub, subLists, sub[r].members[k], r + [k], ms[k], nodes', lists', q + [k]);
    }
  }

  /** A node on the way down to `w`, other than the one written into. */
  lemma GraftAbove(nodes: Nodes, lists: set<object>, tree: Json, w: Path, j: Json, sub: Nodes, lists': set<object>,
                   q: Path)
    requires q in nodes && NodeHolds(nodes, lists, tree, q) && lists <= lists'
    requires Prefix(q, w) && |q| + 1 < |w| && w[..|q| + 1] in nodes
    requires Get(tree, w[..|q| + 1]).Some? && Get(tree, w[..|q| + 1]).value.Object?
    ensures NodeHolds(Graft(nodes, w, sub), lists', SetAt(tree, w, j), q)
  {
    var nodes', k0, rest := Graft(nodes, w, sub), w[|q|], w[|q| + 1..];
    assert w == q + [k0] + rest && w[..|q| + 1] == q + [k0];
    GetAboveSet(tree, q, k0, rest, j);
    var ms := Get(tree, q).value.members;
    GetAppend(tree, q, [k0]);
    assert [k0][1..] == [];
    assert k0 in ms && ms[k0].Object?;
    var ms' := ms[k0 := SetAt(MemberOr(ms, k0), rest, j)];
    forall k | k in ms' ensures ChildHolds(nodes', lists', nodes[q].members[k], q + [k], ms'[k]) {
      assert !Prefix(w, q + [k]);
      if k == k0 {
        assert ms'[k].Object? && q + [k] in nodes;
      } else {
        ChildKept(nodes, lists, nodes[q].members[k], q + [k], ms[k], nodes', lists', q + [k]);
      }
    }
  }

  /** A value ready to be placed: an unshared subtree, or a leaf. */
  ghost predicate SubHolds(v: Value, j: Json, sub: Nodes, subLists: set<object>)
    reads sub.Values, subLists
  {
    if j.Object? then Holds(sub, subLists, j) && v == MapRef(sub[[]]) else sub == map[] && Denotes(v, j, subLists)
  }

  ghost predicate Apart(nodes: Nodes, lists: set<object>, sub: Nodes, subLists: set<object>) {
    && nodes.Values !! sub.Values
    && (forall n | n in nodes.Values :: n !in subLists)
    && (forall n | n in sub.Values :: n !in lists)
  }

  /** The node written into, once it has been written. */
  lemma GraftAt(nodes: Nodes, lists: set<object>, tree: Json, at: Path, k: string, j: Json, v: Value,
                sub: Nodes, subLists: set<object>, before: map<string, Value>)
    requires at in nodes && Get(tree, at).Some? && Get(tree, at).value.Object?
    requires before.Keys == Get(tree, at).value.members.Keys
    requires forall x | x in before ::
      ChildHolds(nodes, lists, before[x], at + [x], Get(tree, at).value.members[x])
    requires nodes[at].members == before[k := v] && SubHolds(v, j, sub, subLists)
    ensures NodeHolds(Graft(nodes, at + [k], sub), lists + subLists, SetAt(tree, at + [k], j), at)
  {
    var w, ms, lists' := at + [k], Get(tree, at).value.members, lists + subLists;
    var nodes' := Graft(nodes, w, sub);
    assert at + [k] + [] == w;
    GetAboveSet(tree, at, k, [], j);
    var ms' := ms[k := j];
    assert SetAt(MemberOr(ms, k), [], j) == j;
    forall x | x in ms' ensures ChildHolds(nodes', lists', nodes[at].members[x], at + [x], ms'[x]) {
      if x == k {
        assert w[|w|..] == [] && Prefix(w, w);
        if !j.Object? { MoreStorage(v, j, subLists, lists'); }
      } else {
        assert (at + [x])[|at|] == x && (at + [k])[|at|] == k;
        assert !Prefix(w, at + [x]);
        ChildKept(nodes, lists, before[x], at + [x], ms[x], nodes', lists', at + [x]);
      }
    }
  }

  /** Everything else, once that node has been written. */
  lemma GraftRest(nodes: Nodes, lists: set<object>, tree: Json, at: Path, k: string, j: Json,
                  sub: Nodes, subLists: set<object>, q: Path)
    requires at in nodes && q in Graft(nodes, at + [k], sub) && q != at
    requires forall p | p in nodes && p != at :: NodeHolds(nodes, lists, tree, p)
    requires forall p | p in sub :: NodeHolds(sub, subLists, j, p)
    requires forall i | 0 <= i <= |at| :: OnRoute(nodes, tree, at[..i])
    ensures NodeHolds(Graft(nodes, at + [k], sub), lists + subLists, SetAt(tree, at + [k], j), q)
  {
    var w, lists' := at + [k], lists + subLists;
    if Prefix(w, q) {
      GraftBelow(nodes, tree, w, j, sub, subLists, lists', q);
    } else if Prefix(q, w) {
      assert |q| < |at| by { assert |q| <= |at| ==> q == at[..|q|]; assert w[..|w|] == w; }
      assert w[..|q| + 1] == at[..|q| + 1] && OnRoute(nodes, tree, at[..|q| + 1]);
      GraftAbove(nodes, lists, tree, w, j, sub, lists', q);
    } else {
      GraftBeside(nodes, lists, tree, w, j, sub, lists', q);
    }
  }

  ghost predicate OnRoute(nodes: Nodes, tree: Json, p: Path) {
    p in nodes && Get(tree, p).Some? && Get(tree, p).value.Object?
  }

  /** Every node above one of the tree's nodes is one too. */
  lemma {:induction false} RouteIsNodes(nodes: Nodes, lists: set<object>, tree: Json, at: Path, i: nat)
    requires Holds(nodes, lists, tree) && at in nodes && i <= |at|
    ensures OnRoute(nodes, tree, at[..i])
  {
    assert NodeHolds(nodes, lists, tree, at);
    if i > 0 {
      RouteIsNodes(nodes, lists, tree, at, i - 1);
      var up, k := at[..i - 1], at[i - 1];
      assert at[..i] == up + [k] && at == at[..i] + at[i..];
      assert NodeHolds(nodes, lists, tree, up);
      GetAppend(tree, at[..i], at[i..]);
      GetAppend(tree, up, [k]);
      assert [k][1..] == [];
      var ms := Get(tree, up).value.members;
      assert k in ms && Get(tree, at[..i]) == Some(ms[k]);
      RouteIsObject(ms[k], at[i..]);
      assert ChildHolds(nodes, lists, nodes[up].members[k], up + [k], ms[k]);
    } else {
      assert at[..0] == [];
      assert NodeHolds(nodes, lists, tree, []);
    }
  }

  lemma RouteIsObject(j: Json, rest: Path)
    requires Get(j, rest).Some? && Get(j, rest).value.Object?
    ensures j.Object?
  { }

  ghost predicate Written(nodes: Nodes, lists: set<object>, tree: Json, at: Path, k: string, v: Value,
                          before: map<string, Value>)
    reads nodes.Values, lists
  {
    && OnRoute(nodes, tree, at)
    && (forall p {:trigger NodeHolds(nodes, lists, tree, p)} | p in nodes && p != at ::
         NodeHolds(nodes, lists, tree, p))
    && nodes[at].members == before[k := v] && before.Keys == Get(tree, at).value.members.Keys
    && forall x | x in before :: ChildHolds(nodes, lists, before[x], at + [x], Get(tree, at).value.members[x])
  }

  lemma GraftUnshared(nodes: Nodes, lists: set<object>, w: Path, sub: Nodes, subLists: set<object>)
    requires Unshared(nodes, lists) && Unshared(sub, subLists) && Apart(nodes, lists, sub, subLists)
    ensures Unshared(Graft(nodes, w, sub), lists + subLists)
  {
    var nodes' := Graft(nodes, w, sub);
    forall p, q | p in nodes' && q in nodes' && Prefix(w, p) && !Prefix(w, q) ensures nodes'[p] != nodes'[q] {
      assert nodes'[p] in sub.Values && nodes'[q] in nodes.Values;
    }
    forall p, q | SameNode(nodes', p, q) ensures p == q {
      if Prefix(w, p) && Prefix(w, q) {
        assert p == w + p[|w|..] && q == w + q[|w|..];
        assert SameNode(sub, p[|w|..], q[|w|..]);
      } else if !Prefix(w, p) && !Prefix(w, q) {
        assert SameNode(nodes, p, q);
      }
    }
  }

  lemma GraftHolds(nodes: Nodes, lists: set<object>, tree: Json, at: Path, k: string, j: Json, v: Value,
                   sub: Nodes, subLists: set<object>, before: map<string, Value>)
    requires Written(nodes, lists, tree, at, k, v, before) && SubHolds(v, j, sub, subLists)
    requires Apart(nodes, lists, sub, subLists) && [] in nodes
    requires Unshared(nodes, lists)
    requires forall i | 0 <= i <= |at| :: OnRoute(nodes, tree, at[..i])
    ensures Holds(Graft(nodes, at + [k], sub), lists + subLists, SetAt(tree, at + [k], j))
  {
    var nodes', w := Graft(nodes, at + [k], sub), at + [k];
    GraftAt(nodes, lists, tree, at, k, j, v, sub, subLists, before);
    forall q | q in nodes' ensures NodeHolds(nodes', lists + subLists, SetAt(tree, w, j), q) {
      if q != at { GraftRest(nodes, lists, tree, at, k, j, sub, subLists, q); }
    }
    GraftUnshared(nodes, lists, w, sub, subLists);
  }

  /** `cur[seg] = value` on one map of the tree. */
  method Put(node: MapNode, k: string, v: Value, ghost nodes: Nodes, ghost lists: set<object>, ghost tree: Json,
             ghost at: Path, ghost j: Json, ghost sub: Nodes, ghost subLists: set<object>)
    returns (ghost nodes': Nodes)
    requires Holds(nodes, lists, tree) && at in nodes && node == nodes[at]
    requires SubHolds(v, j, sub, subLists) && Apart(nodes, lists, sub, subLists)
    modifies node
    ensures Holds(nodes', lists + subLists, SetAt(tree, at + [k], j))
    ensures nodes'[[]] == nodes[[]] && nodes'.Values <= nodes.Values + sub.Values
    ensures j.Object? ==> at + [k] in nodes' && MapRef(nodes'[at + [k]]) == v
  {
    ghost var before := node.members;
    forall i | 0 <= i <= |at| ensures OnRoute(nodes, tree, at[..i]) { RouteIsNodes(nodes, lists, tree, at, i); }
    assert at[..|at|] == at;
    assert NodeHolds(nodes, lists, tree, at);
    node.members := node.members[k := v];
    forall p | p in nodes && p != at ensures NodeHolds(nodes, lists, tree, p) {
      assert old(NodeHolds(nodes, lists, tree, p)) && !SameNode(nodes, p, at);
    }
    assert node in nodes.Values;
    assert Written(nodes, lists, tree, at, k, v, before);
    GraftHolds(nodes, lists, tree, at, k, j, v, sub, subLists, before);
    nodes' := Graft(nodes, at + [k], sub);
    GraftKeys(nodes, at, k, sub);
  }

  lemma GraftKeys(nodes: Nodes, at: Path, k: string, sub: Nodes)
    requires [] in nodes
    ensures var r := Graft(nodes, at + [k], sub);
      && [] in r && r[[]] == nodes[[]] && r.Values <= nodes.Values + sub.Values
      && ([] in sub ==> at + [k] in r && r[at + [k]] == sub[[]])
  {
    var w := at + [k];
    assert !Prefix(w, []);
    assert Prefix(w, w) && w[|w|..] == [];
  }

  // ---------- copyTreeValue ----------

  /** A deep copy: the same JSON value in storage nobody else holds. */
  method CopyTreeValue(v: Value, ghost j: Json, ghost storage: set<object>)
    returns (c: Value, ghost sub: Nodes, ghost subLists: set<object>)
    requires Denotes(v, j, storage)
    ensures SubHolds(c, j, sub, subLists)
    ensures fresh(sub.Values) && fresh(subLists)
    decreases j, 1
  {
    match v {
      case MapRef(x) =>
        c, sub, subLists := CopyMap(x, j, storage);
      case ListRef(x) =>
        c, subLists := CopyList(x, j, storage);
        sub := map[];
      case Scalar(_) =>
        c, sub, subLists := v, map[], {};
    }
  }

  method CopyMap(x: MapNode, ghost j: Json, ghost storage: set<object>)
    returns (c: Value, ghost sub: Nodes, ghost subLists: set<object>)
    requires j.Object? && Denotes(MapRef(x), j, storage)
    ensures SubHolds(c, j, sub, subLists)
    ensures fresh(sub.Values) && fresh(subLists)
    decreases j, 0, 1
  {
    var out := new MapNode();
    c, sub, subLists := MapRef(out), map[[] := out], {};
    var rest := x.members.Keys;
    assert j.members - rest == map[];
    while rest != {}
      invariant rest <= x.members.Keys == j.members.Keys
      invariant Denotes(MapRef(x), j, storage)
      invariant Holds(sub, subLists, Object(j.members - rest)) && sub[[]] == out
      invariant fresh(sub.Values) && fresh(subLists)
    {
      var k :| k in rest;
      sub, subLists := CopyMember(x, k, out, sub, subLists, j, rest, storage);
      rest := rest - {k};
    }
    assert j.members - {} == j.members;
  }

  method CopyMember(x: MapNode, k: string, out: MapNode, ghost nodes: Nodes, ghost lists: set<object>, ghost j: Json,
                    ghost rest: set<string>, ghost storage: set<object>)
    returns (ghost nodes': Nodes, ghost lists': set<object>)
    requires j.Object? && k in rest && k in j.members && k in x.members && Denotes(x.members[k], j.members[k], storage)
    requires Holds(nodes, lists, Object(j.members - rest)) && nodes[[]] == out
    modifies out
    ensures Holds(nodes', lists', Object(j.members - (rest - {k}))) && nodes'[[]] == out
    ensures fresh(nodes'.Values - nodes.Values) && fresh(lists' - lists)
    decreases j, 0, 0
  {
    var e, es, el := CopyTreeValue(x.members[k], j.members[k], storage);
    nodes' := PutMember(out, k, e, nodes, lists, j, rest, es, el);
    lists' := lists + el;
  }

  method PutMember(out: MapNode, k: string, e: Value, ghost nodes: Nodes, ghost lists: set<object>, ghost j: Json,
                   ghost rest: set<string>, ghost es: Nodes, ghost el: set<object>)
    returns (ghost nodes': Nodes)
    requires j.Object? && k in rest && k in j.members
    requires Holds(nodes, lists, Object(j.members - rest)) && nodes[[]] == out
    requires SubHolds(e, j.members[k], es, el) && Apart(nodes, lists, es, el)
    modifies out
    ensures Holds(nodes', lists + el, Object(j.members - (rest - {k}))) && nodes'[[]] == out
    ensures nodes'.Values <= nodes.Values + es.Values
  {
    ghost var before := Object(j.members - rest);
    nodes' := Put(out, k, e, nodes, lists, before, [], j.members[k], es, el);
    PutAtRoot(before, k, j.members[k]);
    assert before.members[k := j.members[k]] == j.members - (rest - {k});
  }

  lemma PutAtRoot(tree: Json, k: string, v: Json)
    requires tree.Object?
    ensures SetAt(tree, [] + [k], v) == Object(tree.members[k := v])
  {
    assert ([] + [k])[1..] == [] && SetAt(MemberOr(tree.members, k), [], v) == v;
  }

  method CopyList(x: ListNode, ghost j: Json, ghost storage: set<object>)
    returns (c: Value, ghost subLists: set<object>)
    requires j.List? && Denotes(ListRef(x), j, storage)
    ensures Denotes(c, j, subLists) && fresh(subLists)
    decreases j, 0
  {
    var items: seq<Value> := [];
    subLists := {};
    for i := 0 to |x.items|
      invariant Denotes(ListRef(x), j, storage)
      invariant |items| == i && fresh(subLists)
      invariant forall n | 0 <= n < i :: Denotes(items[n], j.items[n], subLists)
    {
      var e, es, el := CopyTreeValue(x.items[i], j.items[i], storage);
      ghost var more := subLists + (es.Values + el);
      if j.items[i].Object? {
        assert NodeHolds(es, el, j.items[i], []);
        HoldsDenotes(es, el, j.items[i], [], j.items[i]);
        MoreStorage(e, j.items[i], es.Values + el, more);
      } else {
        MoreStorage(e, j.items[i], el, more);
      }
      forall n | 0 <= n < i ensures Denotes(items[n], j.items[n], more) {
        MoreStorage(items[n], j.items[n], subLists, more);
      }
      items, subLists := items + [e], more;
    }
    var out := new ListNode(items);
    forall n | 0 <= n < |items| ensures Denotes(items[n], j.items[n], subLists + {out}) {
      MoreStorage(items[n], j.items[n], subLists, subLists + {out});
    }
    c, subLists := ListRef(out), subLists + {out};
  }

  // ---------- setAtPath and presentAtPath ----------

  lemma SetStep(tree: Json, k: string, rest: Path, v: Json)
    ensures SetAt(tree, [k] + rest, v) == Object(Members(tree)[k := SetAt(MemberOr(Members(tree), k), rest, v)])
  {
    assert ([k] + rest)[1..] == rest;
  }

  lemma SetThroughChild(tree: Json, k: string, rest: Path, v: Json)
    requires rest != [] && !MemberOr(Members(tree), k).Object?
    ensures SetAt(SetAt(tree, [k] + [], EMPTY), [k] + rest, v) == SetAt(tree, [k] + rest, v)
  {
    SetStep(tree, k, [], EMPTY);
    SetStep(tree, k, rest, v);
    SetStep(SetAt(tree, [k] + [], EMPTY), k, rest, v);
    assert SetAt(MemberOr(Members(tree), k), rest, v) == SetAt(EMPTY, rest, v);
  }

  lemma SetThroughStep(tree: Json, k: string, below: Path, w: Path, v: Json)
    requires SetAt(SetAt(MemberOr(Members(tree), k), below, EMPTY), w, v) == SetAt(MemberOr(Members(tree), k), w, v)
    ensures SetAt(SetAt(tree, [k] + below, EMPTY), [k] + w, v) == SetAt(tree, [k] + w, v)
  {
    SetStep(tree, k, below, EMPTY);
    SetStep(tree, k, w, v);
    SetStep(SetAt(tree, [k] + below, EMPTY), k, w, v);
  }

  /** Creating the intermediate map first does not change where the value ends up. */
  lemma {:induction false} SetThrough(tree: Json, p: Path, k: string, rest: Path, v: Json)
    requires rest != [] && !(Get(tree, p + [k]).Some? && Get(tree, p + [k]).value.Object?)
    ensures SetAt(SetAt(tree, p + [k], EMPTY), p + [k] + rest, v) == SetAt(tree, p + [k] + rest, v)
    decreases p
  {
    if p == [] {
      assert p + [k] == [k] + [] && p + [k] + rest == [k] + rest;
      assert ([k] + [])[1..] == [];
      SetThroughChild(tree, k, rest, v);
    } else {
      var below, w := p[1..] + [k], p[1..] + [k] + rest;
      assert p + [k] == [p[0]] + below && p + [k] + rest == [p[0]] + w;
      assert ([p[0]] + below)[1..] == below;
      SetThrough(MemberOr(Members(tree), p[0]), p[1..], k, rest, v);
      SetThroughStep(tree, p[0], below, w, v);
    }
  }

  /** One segment of setAtPath's walk: into the map already there, or a new one. */
  method Descend(cur: MapNode, seg: string, ghost nodes: Nodes, ghost lists: set<object>, ghost tree: Json,
                 ghost at: Path)
    returns (next: MapNode, ghost nodes': Nodes, ghost tree': Json)
    requires Holds(nodes, lists, tree) && at in nodes && cur == nodes[at]
    modifies cur
    ensures Holds(nodes', lists, tree') && at + [seg] in nodes' && next == nodes'[at + [seg]]
    ensures forall rest: Path, v | rest != [] :: SetAt(tree', at + [seg] + rest, v) == SetAt(tree, at + [seg] + rest, v)
    ensures nodes'[[]] == nodes[[]] && fresh(nodes'.Values - nodes.Values)
  {
    if seg in cur.members && cur.members[seg].MapRef? {
      assert NodeHolds(nodes, lists, tree, at);
      next, nodes', tree' := cur.members[seg].node, nodes, tree;
    } else {
      next := new MapNode();
      IntermediateNeeded(nodes, lists, tree, at, seg);
      forall rest: Path, v | rest != []
        ensures SetAt(SetAt(tree, at + [seg], EMPTY), at + [seg] + rest, v) == SetAt(tree, at + [seg] + rest, v)
      {
        SetThrough(tree, at, seg, rest, v);
      }
      nodes' := Put(cur, seg, MapRef(next), nodes, lists, tree, at, EMPTY, map[[] := next], {});
      tree' := SetAt(tree, at + [seg], EMPTY);
      assert lists + {} == lists;
    }
  }

  /** The map the last segment is written into, every intermediate map now in place. */
  method WalkTo(root: MapNode, segments: Path, ghost nodes: Nodes, ghost lists: set<object>, ghost tree: Json,
                ghost j: Json)
    returns (cur: MapNode, ghost nodes': Nodes, ghost tree': Json)
    requires Holds(nodes, lists, tree) && root == nodes[[]] && segments != []
    modifies nodes.Values
    ensures Holds(nodes', lists, tree') && nodes'[[]] == root
    ensures segments[..|segments| - 1] in nodes' && cur == nodes'[segments[..|segments| - 1]]
    ensures SetAt(tree', segments, j) == SetAt(tree, segments, j)
    ensures fresh(nodes'.Values - nodes.Values)
  {
    cur, nodes', tree' := root, nodes, tree;
    for i := 0 to |segments| - 1
      invariant Holds(nodes', lists, tree') && nodes'[[]] == root
      invariant segments[..i] in nodes' && cur == nodes'[segments[..i]]
      invariant SetAt(tree', segments, j) == SetAt(tree, segments, j)
      invariant fresh(nodes'.Values - nodes.Values)
    {
      assert segments[..i + 1] == segments[..i] + [segments[i]];
      assert segments == segments[..i] + [segments[i]] + segments[i + 1..];
      cur, nodes', tree' := Descend(cur, segments[i], nodes', lists, tree', segments[..i]);
    }
  }

  method SetAtPath(root: MapNode, dotted: string, v: Value, ghost nodes: Nodes, ghost lists: set<object>,
                   ghost tree: Json,
                   ghost j: Json, ghost sub: Nodes, ghost subLists: set<object>)
    returns (ghost nodes': Nodes)
    requires Holds(nodes, lists, tree) && root == nodes[[]]
    requires SubHolds(v, j, sub, subLists) && Apart(nodes, lists, sub, subLists)
    modifies nodes.Values
    ensures Holds(nodes', lists + subLists, SetAt(tree, Segments(dotted), j)) && nodes'[[]] == root
    ensures fresh(nodes'.Values - nodes.Values - sub.Values)
  {
    var segments := Segments(dotted);
    ghost var walked, now;
    var cur;
    cur, walked, now := WalkTo(root, segments, nodes, lists, tree, j);
    ghost var above := segments[..|segments| - 1];
    var seg := segments[|segments| - 1];
    assert segments == above + [seg];
    nodes' := Put(cur, seg, v, walked, lists, now, above, j, sub, subLists);
  }

  lemma IntermediateNeeded(nodes: Nodes, lists: set<object>, tree: Json, at: Path, seg: string)
    requires Holds(nodes, lists, tree) && at in nodes
    requires !(seg in nodes[at].members && nodes[at].members[seg].MapRef?)
    ensures !(Get(tree, at + [seg]).Some? && Get(tree, at + [seg]).value.Object?)
  {
    assert NodeHolds(nodes, lists, tree, at);
    GetAppend(tree, at, [seg]);
    assert [seg][1..] == [];
  }

  /** presentAtPath over the maps themselves. */
  method PresentAtPath(root: MapNode, dotted: string, ghost nodes: Nodes, ghost lists: set<object>, ghost tree: Json)
    returns (present: bool)
    requires Holds(nodes, lists, tree) && root == nodes[[]]
    ensures present <==> PresentAt(tree, Segments(dotted))
  {
    var segments, cur := Segments(dotted), root;
    for i := 0 to |segments|
      invariant i < |segments| && segments[..i] in nodes && cur == nodes[segments[..i]]
    {
      ghost var at := segments[..i];
      assert NodeHolds(nodes, lists, tree, at);
      assert segments == at + segments[i..] && segments[i..] == [segments[i]] + segments[i + 1..];
      GetAppend(tree, at, segments[i..]);
      if segments[i] !in cur.members { return false; }
      if i == |segments| - 1 { return true; }
      var v := cur.members[segments[i]];
      if !v.MapRef? { return false; }
      assert segments[..i + 1] == at + [segments[i]];
      cur := v.node;
    }
  }

  // ---------- testEntryDataTree ----------

  /** What testEntryDataTree reads of an entry: its literals are live Go values. */
  datatype LiveTest = LiveTest(field: string, skip: SkipInfo, value: Value, withValues: map<string, Value>)

  ghost predicate Stands(l: LiveTest, t: UpdateTest, storage: set<object>)
    reads storage
  {
    && l.field == t.field && l.skip == t.skip && Denotes(l.value, t.value, storage)
    && l.withValues.Keys == t.withValues.Keys
    && forall k | k in t.withValues :: Denotes(l.withValues[k], t.withValues[k], storage)
  }

  ghost predicate AllStand(live: seq<LiveTest>, tests: seq<UpdateTest>, storage: set<object>)
    reads storage
  {
    |live| == |tests| && forall i | 0 <= i < |tests| :: Stands(live[i], tests[i], storage)
  }

  /** The tree holds what Presence.TestDataTree says, in storage allocated here alone: with
      no modifies clause, nothing reachable from the manifest's literals has changed. */
  method TestEntryDataTree(live: seq<LiveTest>, ghost tests: seq<UpdateTest>, ghost storage: set<object>)
    returns (root: MapNode, ghost nodes: Nodes, ghost lists: set<object>)
    requires AllStand(live, tests, storage)
    requires forall t | t in tests :: WithValuesAllowed(t.field, t.withValues, t.clear)
    ensures Holds(nodes, lists, TestDataTree(tests)) && root == nodes[[]]
    ensures fresh(nodes.Values) && fresh(lists)
    ensures AllStand(live, tests, storage)
  {
    root := new MapNode();
    nodes, lists := map[[] := root], {};
    for i := 0 to |live|
      invariant AllStand(live, tests, storage)
      invariant Holds(nodes, lists, TestDataTree(tests[..i])) && root == nodes[[]]
      invariant fresh(nodes.Values) && fresh(lists)
    {
      assert tests[..i + 1][..i] == tests[..i] && tests[..i + 1][i] == tests[i];
      if live[i].skip.Present() { continue; }
      nodes, lists := WriteEntry(root, live[i], tests[i], storage, nodes, lists, TestDataTree(tests[..i]));
    }
    assert tests[..|live|] == tests;
  }

  method WriteEntry(root: MapNode, l: LiveTest, ghost t: UpdateTest, ghost storage: set<object>,
                    ghost nodes: Nodes, ghost lists: set<object>, ghost tree: Json)
    returns (ghost nodes': Nodes, ghost lists': set<object>)
    requires Stands(l, t, storage) && WithValuesAllowed(t.field, t.withValues, t.clear)
    requires Holds(nodes, lists, tree) && root == nodes[[]] && nodes.Values !! storage && tree.Object?
    modifies nodes.Values
    ensures Holds(nodes', lists', EntryTree(tree, t)) && root == nodes'[[]]
    ensures fresh(nodes'.Values - nodes.Values) && fresh(lists' - lists)
  {
    nodes', lists' := nodes, lists;
    if l.field != "" {
      nodes', lists' := WriteOne(root, l.field, l.value, t.value, storage, nodes, lists, tree);
    }
    ghost var own := OwnTree(tree, t);
    var rest := l.withValues.Keys;
    assert t.withValues - rest == map[] && own.members + map[] == own.members;
    while rest != {}
      invariant rest <= l.withValues.Keys
      invariant Stands(l, t, storage)
      invariant Holds(nodes', lists', Object(own.members + (t.withValues - rest))) && root == nodes'[[]]
      invariant fresh(nodes'.Values - nodes.Values) && fresh(lists' - lists)
    {
      var k :| k in rest;
      nodes', lists' := WriteSibling(root, k, l.withValues[k], t, own, rest, storage, nodes', lists');
      rest := rest - {k};
    }
    assert t.withValues - {} == t.withValues;
  }

  /** setAtPath(tree, path, copyTreeValue(value)). */
  method WriteOne(root: MapNode, dotted: string, v: Value, ghost j: Json, ghost storage: set<object>,
                  ghost nodes: Nodes, ghost lists: set<object>, ghost tree: Json)
    returns (ghost nodes': Nodes, ghost lists': set<object>)
    requires Denotes(v, j, storage) && Holds(nodes, lists, tree) && root == nodes[[]]
    modifies nodes.Values
    ensures Holds(nodes', lists', SetAt(tree, Segments(dotted), j)) && root == nodes'[[]]
    ensures fresh(nodes'.Values - nodes.Values) && fresh(lists' - lists)
  {
    var c, sub, subLists := CopyTreeValue(v, j, storage);
    nodes' := SetAtPath(root, dotted, c, nodes, lists, tree, j, sub, subLists);
    lists' := lists + subLists;
  }

  method WriteSibling(root: MapNode, k: string, v: Value, ghost t: UpdateTest, ghost own: Json, ghost rest: set<string>,
                      ghost storage: set<object>, ghost nodes: Nodes, ghost lists: set<object>)
    returns (ghost nodes': Nodes, ghost lists': set<object>)
    requires own.Object? && k in rest && k in t.withValues && Undotted(k) && Denotes(v, t.withValues[k], storage)
    requires Holds(nodes, lists, Object(own.members + (t.withValues - rest))) && root == nodes[[]]
    modifies nodes.Values
    ensures Holds(nodes', lists', Object(own.members + (t.withValues - (rest - {k})))) && root == nodes'[[]]
    ensures fresh(nodes'.Values - nodes.Values) && fresh(lists' - lists)
  {
    ghost var tree := Object(own.members + (t.withValues - rest));
    nodes', lists' := WriteOne(root, k, v, t.withValues[k], storage, nodes, lists, tree);
    UndottedSegment(k);
    assert [k] == [] + [k];
    PutAtRoot(tree, k, t.withValues[k]);
    assert tree.members[k := t.withValues[k]] == own.members + (t.withValues - (rest - {k}));
  }
}
