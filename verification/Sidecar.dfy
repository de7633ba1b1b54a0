/** Matching a sidecar's documents to the objects of the manifest it sits beside
    (sidecar/sidecar.go). */
module Sidecar {
  import opened Json
  import opened Text

  datatype Doc = Doc(forValue: string, apiVersion: string, kind: string, name: string, namespace: string,
                     annotations: map<string, string>)

  datatype ObjectID = ObjectID(apiVersion: string, kind: string, name: string, namespace: string)

  /** A kind with optional narrowing directives; "" leaves a directive out. */
  datatype Selector = Selector(apiVersion: string, kind: string, name: string, namespace: string) {
    predicate Picks(t: ObjectID) {
      && t.apiVersion == apiVersion && t.kind == kind
      && (name != "" ==> t.name == name) && (namespace != "" ==> t.namespace == namespace)
    }

    /** The same selector without some of its narrowing directives. */
    predicate LacksSomeOf(full: Selector) {
      && apiVersion == full.apiVersion && kind == full.kind
      && name in {"", full.name} && namespace in {"", full.namespace} && this != full
    }
  }

  function SelectorOf(d: Doc): Selector { Selector(d.apiVersion, d.kind, d.name, d.namespace) }

  function Selected(targets: seq<ObjectID>, s: Selector): set<nat> {
    set i: nat | i < |targets| && s.Picks(targets[i])
  }

  // ---------- splitFor ----------

  /** strings.LastIndex of a one-character separator. */
  function LastIndex(raw: string, c: char): (i: Option<nat>)
    ensures i.Some? ==> i.value < |raw| && raw[i.value] == c && c !in raw[i.value + 1..]
    ensures i.None? ==> c !in raw
  {
    if raw == "" then None
    else if raw[|raw| - 1] == c then Some(|raw| - 1)
    else LastIndex(raw[..|raw| - 1], c)
  }

  function SplitFor(raw: string): Option<(string, string)> {
    var i := LastIndex(raw, '/');
    if i.None? then None else Some((raw[..i.value], raw[i.value + 1..]))
  }

  /** The kind is what follows the last slash, whatever the API version holds. */
  lemma SplitForUndoesJoin(apiVersion: string, kind: string)
    requires '/' !in kind
    ensures SplitFor(apiVersion + "/" + kind) == Some((apiVersion, kind))
  {
    var raw := apiVersion + "/" + kind;
    assert raw[|apiVersion|] == '/';
    assert raw[|apiVersion| + 1..] == kind && raw[..|apiVersion|] == apiVersion;
    LastIsFound(raw, '/', |apiVersion|);
  }

  lemma {:induction false} LastIsFound(raw: string, c: char, i: nat)
    requires i < |raw| && raw[i] == c && c !in raw[i + 1..]
    ensures LastIndex(raw, c) == Some(i)
  {
    if i < |raw| - 1 {
      assert raw[|raw| - 1] == raw[i + 1..][|raw| - i - 2];
      assert raw[..|raw| - 1][i + 1..] == raw[i + 1..|raw| - 1] <= raw[i + 1..];
      LastIsFound(raw[..|raw| - 1], c, i);
    }
  }

  lemma JoinUndoesSplitFor(raw: string)
    ensures '/' in raw <==> SplitFor(raw).Some?
    ensures SplitFor(raw).Some? ==> SplitFor(raw).value.0 + "/" + SplitFor(raw).value.1 == raw
  { }

  // ---------- resolveOne ----------

  method FilterCandidates(targets: seq<ObjectID>, candidates: seq<nat>, s: Selector) returns (out: seq<nat>)
    requires NoDuplicates<nat>(candidates) && forall i | i in candidates :: i < |targets|
    ensures NoDuplicates<nat>(out)
    ensures forall i :: i in out <==> i in candidates && s.Picks(targets[i])
    ensures forall i | i in out :: targets[i].apiVersion == s.apiVersion && targets[i].kind == s.kind
    ensures forall i | i in candidates && targets[i].apiVersion == s.apiVersion && targets[i].kind == s.kind ::
      i in out <==> (s.name == "" || targets[i].name == s.name)
                      && (s.namespace == "" || targets[i].namespace == s.namespace)
  {
    out := [];
    ghost var rest := candidates;
    for n := 0 to |candidates|
      invariant rest == candidates[n..] && NoDuplicates<nat>(rest)
      invariant NoDuplicates<nat>(out)
      invariant forall i | i in candidates[..n] :: i in candidates
      invariant forall i :: i in out <==> i in candidates[..n] && s.Picks(targets[i])
      invariant forall i | i in candidates[..n] :: i !in rest
    {
      assert candidates[..n + 1] == candidates[..n] + [candidates[n]];
      assert rest[0] == candidates[n] && rest[1..] == candidates[n + 1..];
      assert candidates[n] in candidates;
      if s.Picks(targets[candidates[n]]) {
        OneMoreIsFree<nat>(out, candidates[n]);
        out := out + [candidates[n]];
      }
      rest := rest[1..];
    }
    assert candidates[..|candidates|] == candidates;
  }

  method AllIndices(n: nat) returns (idx: seq<nat>)
    ensures NoDuplicates<nat>(idx) && forall i: nat :: i in idx <==> i < n
  {
    idx := [];
    for i := 0 to n
      invariant NoDuplicates<nat>(idx) && forall k: nat :: k in idx <==> k < i
    {
      OneMoreIsFree<nat>(idx, i);
      idx := idx + [i];
    }
  }

  lemma CountsSelected(out: seq<nat>, s: set<nat>)
    requires NoDuplicates<nat>(out) && forall i :: i in out <==> i in s
    ensures |out| == |s|
    ensures |out| == 1 ==> s == {out[0]}
  {
    DuplicateFreeIsSet<nat>(out);
    assert (set i: nat | i in out) == s;
    if |out| == 1 {
      assert out == [out[0]];
      assert forall i :: i in s <==> i in [out[0]];
    }
  }

  datatype Failure =
    NoMatch | RedundantNarrowing | Ambiguous | NarrowedToNothing | StillAmbiguous | NamespaceRedundant | NameRedundant

  /** Every selector lacking some of the document's narrowing directives picks at least two. */
  ghost predicate WeakerPickTwo(d: Doc, targets: seq<ObjectID>) {
    forall s: Selector {:trigger s.LacksSomeOf(SelectorOf(d))} | s.LacksSomeOf(SelectorOf(d)) ::
      |Selected(targets, s)| >= 2
  }

  /** The selector as written picks this one target, and leaving out any of its narrowing
      directives would leave at least two. */
  ghost predicate ResolvesTo(d: Doc, targets: seq<ObjectID>, idx: nat) {
    Selected(targets, SelectorOf(d)) == {idx} && WeakerPickTwo(d, targets)
  }

  function KindOnly(d: Doc): Selector { Selector(d.apiVersion, d.kind, "", "") }
  function NameOnly(d: Doc): Selector { Selector(d.apiVersion, d.kind, d.name, "") }
  function NamespaceOnly(d: Doc): Selector { Selector(d.apiVersion, d.kind, "", d.namespace) }

  predicate Narrowed(d: Doc) { d.name != "" || d.namespace != "" }

  /** What each refusal means. */
  predicate FailsAs(d: Doc, targets: seq<ObjectID>, e: Failure) {
    var kinds, full := |Selected(targets, KindOnly(d))|, |Selected(targets, SelectorOf(d))|;
    match e
    case NoMatch => kinds == 0
    case RedundantNarrowing => kinds == 1 && Narrowed(d)
    case Ambiguous => kinds >= 2 && !Narrowed(d)
    case NarrowedToNothing => kinds >= 2 && Narrowed(d) && full == 0
    case StillAmbiguous => Narrowed(d) && full >= 2
    case NamespaceRedundant =>
      kinds >= 2 && full == 1 && d.name != "" && d.namespace != "" && |Selected(targets, NameOnly(d))| == 1
    case NameRedundant =>
      && kinds >= 2 && full == 1 && d.name != "" && d.namespace != ""
      && |Selected(targets, NameOnly(d))| >= 2 && |Selected(targets, NamespaceOnly(d))| == 1
  }

  method PickFrom(targets: seq<ObjectID>, candidates: seq<nat>, s: Selector) returns (out: seq<nat>)
    requires NoDuplicates<nat>(candidates) && forall i | i in candidates :: i < |targets|
    requires forall i | i in Selected(targets, s) :: i in candidates
    ensures NoDuplicates<nat>(out) && forall i :: i in out <==> i in Selected(targets, s)
    ensures |out| == |Selected(targets, s)| && (|out| == 1 ==> Selected(targets, s) == {out[0]})
  {
    out := FilterCandidates(targets, candidates, s);
    CountsSelected(out, Selected(targets, s));
  }

  lemma NarrowingPicksFewer(targets: seq<ObjectID>, d: Doc)
    ensures Selected(targets, SelectorOf(d)) <= Selected(targets, NameOnly(d)) <= Selected(targets, KindOnly(d))
    ensures Selected(targets, SelectorOf(d)) <= Selected(targets, NamespaceOnly(d)) <= Selected(targets, KindOnly(d))
  { }

  lemma Larger(a: set<nat>, b: set<nat>)
    requires a <= b
    ensures |a| <= |b|
  {
    if a != {} {
      var x :| x in a;
      Larger(a - {x}, b - {x});
    }
  }

  lemma FewerCounts(targets: seq<ObjectID>, d: Doc)
    ensures |Selected(targets, SelectorOf(d))| <= |Selected(targets, NameOnly(d))| <= |Selected(targets, KindOnly(d))|
    ensures |Selected(targets, SelectorOf(d))|
         <= |Selected(targets, NamespaceOnly(d))| <= |Selected(targets, KindOnly(d))|
  {
    NarrowingPicksFewer(targets, d);
    Larger(Selected(targets, SelectorOf(d)), Selected(targets, NameOnly(d)));
    Larger(Selected(targets, NameOnly(d)), Selected(targets, KindOnly(d)));
    Larger(Selected(targets, SelectorOf(d)), Selected(targets, NamespaceOnly(d)));
    Larger(Selected(targets, NamespaceOnly(d)), Selected(targets, KindOnly(d)));
  }

  /** The selectors that lack something of a document's are at most these three. */
  lemma WeakerSelectors(d: Doc, targets: seq<ObjectID>)
    ensures WeakerPickTwo(d, targets) <==>
      && (Narrowed(d) ==> |Selected(targets, KindOnly(d))| >= 2)
      && (d.name != "" && d.namespace != "" ==>
            |Selected(targets, NameOnly(d))| >= 2 && |Selected(targets, NamespaceOnly(d))| >= 2)
  {
    var full := SelectorOf(d);
    assert KindOnly(d).LacksSomeOf(full) <==> Narrowed(d);
    assert NameOnly(d).LacksSomeOf(full) <==> d.namespace != "";
    assert NamespaceOnly(d).LacksSomeOf(full) <==> d.name != "";
    forall s: Selector | s.LacksSomeOf(full) ensures s in {KindOnly(d), NameOnly(d), NamespaceOnly(d)} { }
  }

  method ResolveOne(d: Doc, targets: seq<ObjectID>) returns (r: Result<nat, Failure>)
    ensures r.Ok? ==> r.value < |targets| && ResolvesTo(d, targets, r.value)
    ensures r.Err? ==> FailsAs(d, targets, r.error) && forall idx :: !ResolvesTo(d, targets, idx)
  {
    FewerCounts(targets, d);
    WeakerSelectors(d, targets);
    var all := AllIndices(|targets|);
    var byGVK := PickFrom(targets, all, KindOnly(d));
    if |byGVK| == 0 { return Err(NoMatch); }
    if |byGVK| == 1 {
      if d.name != "" || d.namespace != "" { return Err(RedundantNarrowing); }
      return Ok(byGVK[0]);
    }
    if d.name == "" && d.namespace == "" { return Err(Ambiguous); }
    var matched := PickFrom(targets, byGVK, SelectorOf(d));
    if |matched| == 0 { return Err(NarrowedToNothing); }
    if |matched| > 1 { return Err(StillAmbiguous); }
    if d.name != "" && d.namespace != "" {
      var byNameOnly := PickFrom(targets, byGVK, NameOnly(d));
      var byNamespaceOnly := PickFrom(targets, byGVK, NamespaceOnly(d));
      if |byNameOnly| == 1 { return Err(NamespaceRedundant); }
      if |byNamespaceOnly| == 1 { return Err(NameRedundant); }
    }
    return Ok(matched[0]);
  }

  lemma ResolvesToOne(d: Doc, targets: seq<ObjectID>, i: nat, j: nat)
    requires ResolvesTo(d, targets, i) && ResolvesTo(d, targets, j)
    ensures i == j && i < |targets| && SelectorOf(d).Picks(targets[i])
  {
    assert i in {j} && i in Selected(targets, SelectorOf(d));
  }

  // ---------- Resolve ----------

  ghost predicate Lands(d: Doc, targets: seq<ObjectID>, out: Annotated, idx: nat) {
    idx in out && ResolvesTo(d, targets, idx) && out[idx] == d.annotations
  }

  ghost predicate Placed(d: Doc, targets: seq<ObjectID>, out: Annotated) { exists idx :: Lands(d, targets, out, idx) }

  ghost predicate Claimed(docs: seq<Doc>, targets: seq<ObjectID>, out: Annotated, idx: nat) {
    exists d :: d in docs && Lands(d, targets, out, idx)
  }

  /** Documents and annotated targets matched one to one. */
  ghost predicate Assigns(docs: seq<Doc>, targets: seq<ObjectID>, out: Annotated) {
    && NoDuplicates(docs)
    && (forall d {:trigger Placed(d, targets, out)} | d in docs :: Placed(d, targets, out))
    && (forall idx {:trigger Claimed(docs, targets, out, idx)} | idx in out :: Claimed(docs, targets, out, idx))
    && (forall d, e, idx | d in docs && e in docs && ResolvesTo(d, targets, idx) && ResolvesTo(e, targets, idx) ::
         d == e)
  }

  datatype Refusal = Unresolved(at: nat, why: Failure) | SameObject(at: nat, prior: Doc)

  ghost predicate Resolves(d: Doc, targets: seq<ObjectID>) { exists idx: nat :: ResolvesTo(d, targets, idx) }

  /** The refusal names the first document at fault, and why: its selector fails as stated,
      or it resolves to the object an earlier one has taken. */
  ghost predicate RefusedFor(docs: seq<Doc>, targets: seq<ObjectID>, e: Refusal) {
    && e.at < |docs|
    && (forall i | 0 <= i < e.at :: Resolves(docs[i], targets))
    && match e
       case Unresolved(at, why) => FailsAs(docs[at], targets, why)
       case SameObject(at, prior) =>
         prior in docs[..at] && exists idx: nat :: ResolvesTo(prior, targets, idx) && ResolvesTo(docs[at], targets, idx)
  }

  /** Succeeds exactly when the documents can be matched one to one, with that matching. */
  method Resolve(docs: seq<Doc>, targets: seq<ObjectID>) returns (r: Result<Annotated, Refusal>)
    ensures r.Ok? ==> Assigns(docs, targets, r.value)
    ensures r.Err? ==> forall out :: !Assigns(docs, targets, out)
    ensures r.Err? ==> RefusedFor(docs, targets, r.error)
  {
    var out: Annotated, claimedBy: map<nat, Doc> := map[], map[];
    for i := 0 to |docs|
      invariant Assigns(docs[..i], targets, out)
      invariant claimedBy.Keys == out.Keys
      invariant forall idx | idx in claimedBy :: claimedBy[idx] in docs[..i] && Lands(claimedBy[idx], targets, out, idx)
    {
      var doc := docs[i];
      var one := ResolveOne(doc, targets);
      if one.Err? {
        NotAssignable(docs, targets, i);
        EarlierResolve(docs, targets, out, i);
        return Err(Unresolved(i, one.error));
      }
      var idx := one.value;
      if idx in claimedBy {
        Collides(docs, targets, i, claimedBy[idx], idx);
        EarlierResolve(docs, targets, out, i);
        return Err(SameObject(i, claimedBy[idx]));
      }
      assert docs[..i + 1] == docs[..i] + [doc];
      AssignsMore(docs[..i], targets, out, doc, idx);
      claimedBy := claimedBy[idx := doc];
      out := out[idx := doc.annotations];
    }
    assert docs[..|docs|] == docs;
    return Ok(out);
  }

  lemma EarlierResolve(docs: seq<Doc>, targets: seq<ObjectID>, out: Annotated, i: nat)
    requires i <= |docs| && Assigns(docs[..i], targets, out)
    ensures forall k | 0 <= k < i :: Resolves(docs[k], targets)
  {
    forall k | 0 <= k < i ensures Resolves(docs[k], targets) {
      assert docs[..i][k] in docs[..i] && Placed(docs[..i][k], targets, out);
      var idx :| Lands(docs[k], targets, out, idx);
    }
  }

  lemma NotAssignable(docs: seq<Doc>, targets: seq<ObjectID>, i: nat)
    requires i < |docs| && forall idx :: !ResolvesTo(docs[i], targets, idx)
    ensures forall out :: !Assigns(docs, targets, out)
  {
    forall out ensures !Assigns(docs, targets, out) { assert docs[i] in docs && !Placed(docs[i], targets, out); }
  }

  lemma Collides(docs: seq<Doc>, targets: seq<ObjectID>, i: nat, prior: Doc, idx: nat)
    requires i < |docs| && prior in docs[..i] && ResolvesTo(docs[i], targets, idx) && ResolvesTo(prior, targets, idx)
    ensures forall out :: !Assigns(docs, targets, out)
  {
    var k :| 0 <= k < i && docs[k] == prior;
    assert docs[k] in docs && docs[i] in docs;
    if docs[i] == prior { TwiceIsDuplicate(docs, k, i); }
  }

  lemma {:induction false} TwiceIsDuplicate<T>(xs: seq<T>, k: nat, i: nat)
    requires k < i < |xs| && xs[k] == xs[i]
    ensures !NoDuplicates(xs)
  {
    if k > 0 { TwiceIsDuplicate(xs[1..], k - 1, i - 1); } else { assert xs[i] == xs[1..][i - 1]; }
  }

  lemma AssignsMore(docs: seq<Doc>, targets: seq<ObjectID>, out: Annotated, d: Doc, idx: nat)
    requires Assigns(docs, targets, out) && ResolvesTo(d, targets, idx) && idx !in out
    ensures Assigns(docs + [d], targets, out[idx := d.annotations])
  {
    var out' := out[idx := d.annotations];
    forall e | e in docs ensures !ResolvesTo(e, targets, idx) && Placed(e, targets, out') {
      assert Placed(e, targets, out);
      var j :| Lands(e, targets, out, j);
      if ResolvesTo(e, targets, idx) { ResolvesToOne(e, targets, idx, j); }
      assert Lands(e, targets, out', j);
    }
    assert d !in docs;
    OneMoreIsFree(docs, d);
    assert Lands(d, targets, out', idx);
    assert Placed(d, targets, out');
    forall j | j in out' ensures Claimed(docs + [d], targets, out', j) {
      if j == idx {
        assert d in docs + [d];
      } else {
        assert Claimed(docs, targets, out, j);
        var e :| e in docs && Lands(e, targets, out, j);
        assert e in docs + [d] && Lands(e, targets, out', j);
      }
    }
    forall e, f, j | e in docs + [d] && f in docs + [d] && ResolvesTo(e, targets, j) && ResolvesTo(f, targets, j)
      ensures e == f
    {
      if e == d { ResolvesToOne(d, targets, idx, j); }
      if f == d { ResolvesToOne(d, targets, idx, j); }
    }
  }

  type Annotated = map<nat, map<string, string>>

  lemma SameLanding(d: Doc, targets: seq<ObjectID>, a: Annotated, b: Annotated, i: nat, j: nat)
    requires Lands(d, targets, a, i) && Lands(d, targets, b, j)
    ensures i in b && a[i] == b[i]
  {
    ResolvesToOne(d, targets, i, j);
  }

  lemma SameAt(docs: seq<Doc>, targets: seq<ObjectID>, a: Annotated, b: Annotated, i: nat)
    requires Assigns(docs, targets, a) && Assigns(docs, targets, b) && i in a
    ensures i in b && a[i] == b[i]
  {
    assert Claimed(docs, targets, a, i);
    var d :| d in docs && Lands(d, targets, a, i);
    assert Placed(d, targets, b);
    var j :| Lands(d, targets, b, j);
    SameLanding(d, targets, a, b, i, j);
  }

  /** The annotations each object receives are determined by the documents alone. */
  lemma AssignmentIsUnique(docs: seq<Doc>, targets: seq<ObjectID>, a: Annotated, b: Annotated)
    requires Assigns(docs, targets, a) && Assigns(docs, targets, b)
    ensures a == b
  {
    forall i | i in a ensures i in b && a[i] == b[i] { SameAt(docs, targets, a, b, i); }
    forall i | i in b ensures i in a { SameAt(docs, targets, b, a, i); }
  }

  /** Documents in any other order match the same objects, or fail alike. */
  lemma OrderDoesNotMatter(docs: seq<Doc>, docs': seq<Doc>, targets: seq<ObjectID>, out: Annotated)
    requires multiset(docs) == multiset(docs')
    ensures Assigns(docs, targets, out) <==> Assigns(docs', targets, out)
  {
    forall d ensures d in docs <==> d in docs' { SameMembers(docs, docs', d); }
    forall idx ensures Claimed(docs, targets, out, idx) <==> Claimed(docs', targets, out, idx) { }
    if NoDuplicates(docs) { SameFreedom(docs, docs'); }
    if NoDuplicates(docs') { SameFreedom(docs', docs); }
  }

  lemma SameFreedom<T>(xs: seq<T>, ys: seq<T>)
    requires multiset(xs) == multiset(ys) && NoDuplicates(xs)
    ensures NoDuplicates(ys)
  {
    DuplicateFreeIsSet(xs);
    FreeHasNoDuplicates(ys);
  }

  // ---------- Conflicts ----------

  const NUL: char := '\0'

  function KeyOf(d: Doc): string { JoinedKey(d.forValue, d.name, d.namespace) }

  function JoinedKey(f: string, n: string, s: string): string { f + [NUL] + (n + [NUL] + s) }

  predicate SameSelector(d: Doc, e: Doc) { d.forValue == e.forValue && d.name == e.name && d.namespace == e.namespace }

  /** Two documents of the file share a key. */
  ghost predicate Clash(docs: seq<Doc>) {
    exists i, j :: 0 <= i < j < |docs| && KeyOf(docs[i]) == KeyOf(docs[j])
  }

  method Conflicts(docs: seq<Doc>) returns (refused: bool)
    ensures refused <==> Clash(docs)
  {
    var seen: set<string> := {};
    for n := 0 to |docs|
      invariant forall k :: k in seen <==> exists i :: 0 <= i < n && KeyOf(docs[i]) == k
      invariant forall i, j | 0 <= i < j < n :: KeyOf(docs[i]) != KeyOf(docs[j])
    {
      var key := KeyOf(docs[n]);
      if key in seen { return true; }
      seen := seen + {key};
    }
    return false;
  }

  predicate NulFree(d: Doc) { NUL !in d.forValue && NUL !in d.name }

  lemma KeyParts(d: Doc)
    requires NulFree(d)
    ensures var p := Split(KeyOf(d), NUL);
      |p| >= 3 && p[0] == d.forValue && p[1] == d.name && p[2..] == Split(d.namespace, NUL)
  {
    SplitAppend(d.forValue, d.name + [NUL] + d.namespace, NUL);
    SplitAppend(d.name, d.namespace, NUL);
    SplitUndotted(d.forValue, NUL);
    SplitUndotted(d.name, NUL);
    var p := Split(KeyOf(d), NUL);
    assert p == [d.forValue] + ([d.name] + Split(d.namespace, NUL));
    assert p[2..] == Split(d.namespace, NUL);
  }

  lemma NulFreeKeysDiffer(d: Doc, e: Doc)
    requires NulFree(d) && NulFree(e)
    ensures KeyOf(d) == KeyOf(e) <==> SameSelector(d, e)
  {
    KeyParts(d);
    KeyParts(e);
    if KeyOf(d) == KeyOf(e) {
      var p, q := Split(KeyOf(d), NUL), Split(KeyOf(e), NUL);
      assert p[0] == q[0] && p[1] == q[1] && p[2..] == q[2..];
      SplitInjective(d.namespace, e.namespace, NUL);
    }
  }

  // ---------- exactly when a key is not the selector ----------

  predicate Templated(s: string) { exists i :: 0 <= i < |s| - 1 && s[i] == '$' && s[i + 1] == '{' }

  /** What docFromNode lets through: a for: value with a slash, split into its version and
      kind, and narrowing values without a placeholder. */
  predicate Parsed(d: Doc) {
    && SplitFor(d.forValue) == Some((d.apiVersion, d.kind))
    && !Templated(d.name) && !Templated(d.namespace)
  }

  /** A for: value whose last NUL could as well be the one the key puts after it. */
  predicate LooseFor(f: string) {
    var i := LastIndex(f, NUL);
    i.Some? && '/' in f[..i.value] && !Templated(f[i.value + 1..])
  }

  predicate Confusable(d: Doc) { NUL in d.name || NUL in d.namespace || LooseFor(d.forValue) }

  lemma TemplatedWithin(k: string, a: nat, b: nat, c: nat, d: nat)
    requires c <= a <= b <= d <= |k|
    ensures Templated(k[a..b]) ==> Templated(k[c..d])
  {
    var part, whole := k[a..b], k[c..d];
    if i :| 0 <= i < |part| - 1 && part[i] == '$' && part[i + 1] == '{' {
      assert whole[a - c + i] == '$' && whole[a - c + i + 1] == '{';
    }
  }

  lemma TemplatedJoin(a: string, b: string)
    ensures Templated(a + [NUL] + b) ==> Templated(a) || Templated(b)
  {
    var s := a + [NUL] + b;
    if i :| 0 <= i < |s| - 1 && s[i] == '$' && s[i + 1] == '{' {
      if i < |a| - 1 {
        assert a[i] == '$' && a[i + 1] == '{';
      } else {
        var j := i - |a| - 1;
        assert b[j] == '$' && b[j + 1] == '{';
      }
    }
  }

  lemma KeyRegroups(f: string, n: string, s: string, t: string)
    ensures JoinedKey(f, n, s + [NUL] + t) == JoinedKey(f, n + [NUL] + s, t)
    ensures JoinedKey(f + [NUL] + n, s, t) == JoinedKey(f, n, s + [NUL] + t)
  {
    assert n + [NUL] + (s + [NUL] + t) == n + [NUL] + s + [NUL] + t;
    assert f + [NUL] + n + [NUL] + (s + [NUL] + t) == f + [NUL] + (n + [NUL] + (s + [NUL] + t));
  }

  function CutAt(s: string, i: nat): (string, string)
    requires i < |s|
  { (s[..i], s[i + 1..]) }

  lemma CutJoins(s: string, i: nat)
    requires i < |s| && s[i] == NUL
    ensures s == CutAt(s, i).0 + [NUL] + CutAt(s, i).1 && |CutAt(s, i).0| < |s|
    ensures !Templated(s) ==> !Templated(CutAt(s, i).0) && !Templated(CutAt(s, i).1)
  {
    assert s[0..|s|] == s && s[0..i] == s[..i];
    TemplatedWithin(s, 0, i, 0, |s|);
    TemplatedWithin(s, i + 1, |s|, 0, |s|);
  }

  /** A confusable document's double: other directives, the same key. */
  lemma DoubleOf(d: Doc) returns (e: Doc)
    requires Parsed(d) && Confusable(d)
    ensures Parsed(e) && KeyOf(e) == KeyOf(d) && !SameSelector(d, e)
  {
    if i :| 0 <= i < |d.name| && d.name[i] == NUL {
      var (x, y) := CutAt(d.name, i);
      CutJoins(d.name, i);
      KeyRegroups(d.forValue, x, y, d.namespace);
      TemplatedJoin(y, d.namespace);
      e := d.(name := x, namespace := y + [NUL] + d.namespace);
    } else if i :| 0 <= i < |d.namespace| && d.namespace[i] == NUL {
      var (x, y) := CutAt(d.namespace, i);
      CutJoins(d.namespace, i);
      KeyRegroups(d.forValue, d.name, x, y);
      TemplatedJoin(d.name, x);
      e := d.(name := d.name + [NUL] + x, namespace := y);
    } else {
      var i := LastIndex(d.forValue, NUL).value;
      var (x, y) := CutAt(d.forValue, i);
      CutJoins(d.forValue, i);
      KeyRegroups(x, y, d.name, d.namespace);
      TemplatedJoin(d.name, d.namespace);
      var (apiVersion, kind) := SplitFor(x).value;
      e := Doc(x, apiVersion, kind, y, d.name + [NUL] + d.namespace, map[]);
    }
  }

  /** Where the two separators of a key can stand when the narrowing values hold no NUL. */
  lemma SeparatorsOf(d: Doc, p: nat)
    requires NUL !in d.name && NUL !in d.namespace && p < |KeyOf(d)| && KeyOf(d)[p] == NUL
    ensures p == |d.forValue| || p == |d.forValue| + 1 + |d.name| || (p < |d.forValue| && d.forValue[p] == NUL)
  {
    var f, n := |d.forValue|, |d.name|;
    assert forall i | f < i < f + 1 + n :: KeyOf(d)[i] == d.name[i - f - 1];
    assert forall i | f + 1 + n < i < |KeyOf(d)| :: KeyOf(d)[i] == d.namespace[i - f - n - 2];
  }

  /** A double of a document whose narrowing values hold no NUL ends its for: value early. */
  lemma DoubleCutsFor(d: Doc, e: Doc)
    requires NUL !in d.name && NUL !in d.namespace && KeyOf(d) == KeyOf(e) && !SameSelector(d, e)
    ensures |e.forValue| < |d.forValue| && d.forValue[|e.forValue|] == NUL && e.forValue == d.forValue[..|e.forValue|]
  {
    var k, p := KeyOf(d), |e.forValue|;
    var q := p + 1 + |e.name|;
    assert k[p] == NUL && k[q] == NUL;
    SeparatorsOf(d, p);
    SeparatorsOf(d, q);
    KeySlices(d);
    KeySlices(e);
    if p == |d.forValue| { SameCutsSame(d, e); }
  }

  lemma KeySlices(d: Doc)
    ensures var k, f, n := KeyOf(d), |d.forValue|, |d.name|;
      |k| >= f + n + 2 && d.forValue == k[..f] && d.name == k[f + 1..f + 1 + n] && d.namespace == k[f + n + 2..]
  { }

  lemma SameCutsSame(d: Doc, e: Doc)
    requires NUL !in d.name && NUL !in d.namespace && KeyOf(d) == KeyOf(e) && |d.forValue| == |e.forValue|
    ensures SameSelector(d, e)
  {
    KeySlices(d);
    KeySlices(e);
    var q := |e.forValue| + 1 + |e.name|;
    assert KeyOf(e)[q] == NUL;
    SeparatorsOf(d, q);
  }

  lemma DoubleNeedsLooseFor(d: Doc, e: Doc)
    requires Parsed(d) && Parsed(e) && NUL !in d.name && NUL !in d.namespace
    requires KeyOf(d) == KeyOf(e) && !SameSelector(d, e)
    ensures LooseFor(d.forValue)
  {
    DoubleCutsFor(d, e);
    var f, p := d.forValue, |e.forValue|;
    var i := LastIndex(f, NUL).value;
    NoneAfterLast(f, i, p);
    JoinUndoesSplitFor(e.forValue);
    SlashKept(f, p, i);
    TailInNarrowing(d, e, i);
  }

  lemma SlashKept(f: string, p: nat, i: nat)
    requires p <= i <= |f| && '/' in f[..p]
    ensures '/' in f[..i]
  {
    var n :| 0 <= n < p && f[..p][n] == '/';
    assert f[..i][n] == '/';
  }

  /** What follows the for: value's last NUL stands in one of the double's narrowing values. */
  lemma TailInNarrowing(d: Doc, e: Doc, i: nat)
    requires NUL !in d.name && NUL !in d.namespace && KeyOf(d) == KeyOf(e)
    requires LastIndex(d.forValue, NUL) == Some(i) && |e.forValue| <= i
    ensures Templated(d.forValue[i + 1..]) ==> Templated(e.name) || Templated(e.namespace)
  {
    var f, k, p := d.forValue, KeyOf(d), |e.forValue|;
    var q := p + 1 + |e.name|;
    KeySlices(d);
    KeySlices(e);
    assert k[q] == NUL;
    SeparatorsOf(d, q);
    if q < |f| { NoneAfterLast(f, i, q); }
    assert f[i + 1..] == k[i + 1..|f|];
    if q <= i {
      TemplatedWithin(k, i + 1, |f|, q + 1, |k|);
      assert e.namespace == k[q + 1..|k|];
    } else {
      TemplatedWithin(k, i + 1, |f|, p + 1, q);
    }
  }

  lemma NoneAfterLast(f: string, i: nat, p: nat)
    requires LastIndex(f, NUL) == Some(i) && p < |f| && f[p] == NUL
    ensures p <= i
  {
    assert forall j | i < j < |f| :: f[j] == f[i + 1..][j - i - 1];
  }

  /** A document as parsed can be mistaken for one with another selector exactly when a
      narrowing value holds a NUL, or its for: value could have ended at its last one. */
  lemma ConfusedExactly(d: Doc)
    requires Parsed(d)
    ensures Confusable(d) <==> exists e :: Parsed(e) && !SameSelector(d, e) && Clash([d, e])
  {
    if Confusable(d) {
      var e := DoubleOf(d);
      assert KeyOf([d, e][0]) == KeyOf([d, e][1]);
    }
    forall e | Parsed(e) && !SameSelector(d, e) && Clash([d, e]) ensures Confusable(d) {
      if !Confusable(d) { DoubleNeedsLooseFor(d, e); }
    }
  }

  /** So with no confusable document Conflicts refuses exactly a repeated selector. */
  lemma RefusalIsExact(docs: seq<Doc>)
    requires forall d | d in docs :: Parsed(d) && !Confusable(d)
    ensures Clash(docs) <==> exists i, j :: 0 <= i < j < |docs| && SameSelector(docs[i], docs[j])
  {
    forall i, j | 0 <= i < j < |docs| && KeyOf(docs[i]) == KeyOf(docs[j]) ensures SameSelector(docs[i], docs[j]) {
      assert docs[i] in docs && docs[j] in docs;
      if !SameSelector(docs[i], docs[j]) { DoubleNeedsLooseFor(docs[i], docs[j]); }
    }
  }

  /** Whatever the rest, the key is the selector among NUL-free documents, and of no others. */
  lemma KeyIsTheTriple(d: Doc)
    ensures NulFree(d) <==> forall e | NulFree(e) :: KeyOf(d) == KeyOf(e) ==> SameSelector(d, e)
  {
    if NulFree(d) {
      forall e | NulFree(e) ensures KeyOf(d) == KeyOf(e) ==> SameSelector(d, e) { NulFreeKeysDiffer(d, e); }
    } else {
      var p := Split(KeyOf(d), NUL);
      var e := FirstReading(d);
      assert NulFree(e) && KeyOf(d) == KeyOf(e) && !SameSelector(d, e);
    }
  }

  /** The reading of a key that ends every part at the first NUL it meets. */
  lemma FirstReading(d: Doc) returns (e: Doc)
    ensures NulFree(e) && KeyOf(e) == KeyOf(d)
  {
    var p := Split(KeyOf(d), NUL);
    JoinSplit(KeyOf(d), NUL);
    SplitAppend(d.forValue, d.name + [NUL] + d.namespace, NUL);
    SplitAppend(d.name, d.namespace, NUL);
    assert |p| >= 3;
    e := d.(forValue := p[0], name := p[1], namespace := Join(p[2..], NUL));
    assert p[1..][1..] == p[2..];
    assert Join(p, NUL) == p[0] + [NUL] + Join(p[1..], NUL);
    assert Join(p[1..], NUL) == p[1] + [NUL] + Join(p[2..], NUL);
    assert p[0] in p && p[1] in p;
  }

  lemma SecretFor()
    ensures SplitFor("v1/Secret") == Some(("v1", "Secret"))
  {
    forall i | 0 <= i < 6 ensures "Secret"[i] != '/' { }
    SplitForUndoesJoin("v1", "Secret");
    assert "v1" + "/" + "Secret" == "v1/Secret";
  }

  lemma PlainValues()
    ensures !Templated("a") && !Templated("c") && !Templated("a" + [NUL] + "b") && !Templated("b" + [NUL] + "c")
  {
    TemplatedJoin("a", "b");
    TemplatedJoin("b", "c");
  }

  /** Two secrets that Conflicts takes for one: the NUL of a name read as the separator. */
  lemma KeysCollideWithNul()
    ensures var d := Doc("v1/Secret", "v1", "Secret", "a", "b" + [NUL] + "c", map[]);
      var e := Doc("v1/Secret", "v1", "Secret", "a" + [NUL] + "b", "c", map[]);
      Parsed(d) && Parsed(e) && Clash([d, e]) && !SameSelector(d, e)
  {
    SecretFor();
    PlainValues();
    KeyRegroups("v1/Secret", "a", "b", "c");
    var d := Doc("v1/Secret", "v1", "Secret", "a", "b" + [NUL] + "c", map[]);
    var e := Doc("v1/Secret", "v1", "Secret", "a" + [NUL] + "b", "c", map[]);
    assert KeyOf([d, e][0]) == KeyOf([d, e][1]);
    assert |d.name| != |e.name|;
  }

  /** A sidecar that resolves repeats no selector. */
  lemma ResolvedMeansDistinct(docs: seq<Doc>, targets: seq<ObjectID>, out: Annotated, i: nat, j: nat)
    requires Assigns(docs, targets, out) && i < j < |docs|
    ensures SelectorOf(docs[i]) != SelectorOf(docs[j])
  {
    assert docs[i] in docs && docs[j] in docs;
    if SelectorOf(docs[i]) == SelectorOf(docs[j]) {
      assert Placed(docs[i], targets, out);
      var idx :| Lands(docs[i], targets, out, idx);
      assert ResolvesTo(docs[j], targets, idx);
      TwiceIsDuplicate(docs, i, j);
    }
  }
}
