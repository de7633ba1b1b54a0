/** The two offline checks that predict what a merge will do
    (internal/validator/guaranteednoop.go, internal/validator/mergepatch.go), proved
    against the merge and against the runner's own comparisons. */
module MergePrediction {
  import opened Json
  import opened Text
  import opened Manifest
  import opened Patching
  import opened Compare

  // ---------- shared helpers ----------

  /** topLevelField: everything before the first dot. */
  function TopLevelField(field: string): string {
    if field == [] || field[0] == '.' then [] else [field[0]] + TopLevelField(field[1..])
  }

  lemma {:induction false} TopLevelIsFirstSegment(field: string)
    ensures TopLevelField(field) == Segments(field)[0]
  {
    if field == [] {
    } else {
      TopLevelIsFirstSegment(field[1..]);
    }
  }

  method NavigateForProvider(forProvider: map<string, Json>, field: string) returns (r: Option<Json>)
    ensures r == Get(Object(forProvider), Segments(field))
  {
    var cur, path := Object(forProvider), Segments(field);
    for i := 0 to |path|
      invariant Get(cur, path[i..]) == Get(Object(forProvider), path)
    {
      assert path[i..][0] == path[i] && path[i..][1..] == path[i+1..];
      if !cur.Object? { return None; }
      if path[i] !in cur.members { return None; }
      cur := cur.members[path[i]];
    }
    assert path[|path|..] == [];
    return Some(cur);
  }

  // ---------- guaranteed no-ops ----------

  /** Top-level names an entry's own field, clear list or withValues map addresses. */
  function TouchedBy(t: UpdateTest): set<string> {
    {TopLevelField(t.field)} + (set c | c in t.clear :: TopLevelField(c)) +
      (set k | k in t.withValues :: TopLevelField(k))
  }

  function Touched(tests: seq<UpdateTest>): set<string> {
    set t, k | t in tests && !t.skip.Present() && k in TouchedBy(t) :: k
  }

  lemma TouchedNext(tests: seq<UpdateTest>, t: UpdateTest)
    ensures Touched(tests + [t]) == Touched(tests) + (if t.skip.Present() then {} else TouchedBy(t))
  {
    var both := Touched(tests) + (if t.skip.Present() then {} else TouchedBy(t));
    assert t in tests + [t];
    assert forall k :: k in Touched(tests + [t]) ==> k in both;
    assert forall u :: u in tests ==> u in tests + [t];
    assert forall k :: k in both ==> k in Touched(tests + [t]);
  }

  /** guaranteedNoOpEqual: equality after a marshal round trip on both sides. */
  predicate GuaranteedNoOpEqual(c: Codec, value: Json, createTime: Json) {
    var v, w := c.unmarshal(c.marshal(value)), c.unmarshal(c.marshal(createTime));
    if v.Some? && w.Some? then v == w else value == createTime
  }

  predicate Flagged(c: Codec, earlier: seq<UpdateTest>, t: UpdateTest, forProvider: map<string, Json>) {
    && !t.skip.Present()
    && TopLevelField(t.field) !in Touched(earlier)
    && Get(Object(forProvider), Segments(t.field)).Some?
    && GuaranteedNoOpEqual(c, t.value, Get(Object(forProvider), Segments(t.field)).value)
  }

  datatype NoOpFinding = NoOpFinding(field: string, value: Json)

  function NoOpFindings(c: Codec, tests: seq<UpdateTest>, forProvider: map<string, Json>): seq<NoOpFinding> {
    if tests == [] then []
    else
      var earlier, t := tests[..|tests| - 1], tests[|tests| - 1];
      NoOpFindings(c, earlier, forProvider) +
        (if Flagged(c, earlier, t, forProvider) then [NoOpFinding(t.field, t.value)] else [])
  }

  method CheckGuaranteedNoOp(c: Codec, tests: seq<UpdateTest>, forProvider: map<string, Json>)
    returns (findings: seq<NoOpFinding>)
    ensures findings == NoOpFindings(c, tests, forProvider)
  {
    findings := [];
    var touched: set<string> := {};
    for i := 0 to |tests|
      invariant findings == NoOpFindings(c, tests[..i], forProvider)
      invariant touched == Touched(tests[..i])
    {
      var t := tests[i];
      assert tests[..i+1] == tests[..i] + [t] && tests[..i+1][..i] == tests[..i];
      TouchedNext(tests[..i], t);
      if t.skip.Present() { continue; }
      var top := TopLevelField(t.field);
      if top !in touched {
        var createVal := NavigateForProvider(forProvider, t.field);
        if createVal.Some? && GuaranteedNoOpEqual(c, t.value, createVal.value) {
          findings := findings + [NoOpFinding(t.field, t.value)];
        }
      }
      touched := touched + TouchedBy(t);
    }
    assert tests[..|tests|] == tests;
  }

  /** Merge the patches of the tested entries that `mask` selects, in order. */
  function ApplySome(live: Json, tests: seq<UpdateTest>, mask: seq<bool>): Json
    requires |mask| == |tests|
  {
    if tests == [] then live
    else
      var n := |tests| - 1;
      var before := ApplySome(live, tests[..n], mask[..n]);
      if mask[n] && !tests[n].skip.Present() then MergePatch(before, PatchOf(tests[n])) else before
  }

  /** An entry's patch leaves alone every path whose top-level name it does not address. */
  lemma UntouchedSurvives(t: UpdateTest, target: Json, path: Path)
    requires path != [] && path[0] !in TouchedBy(t) && Patchable(t)
    ensures Get(MergePatch(target, PatchOf(t)), FOR_PROVIDER + path) == Get(target, FOR_PROVIDER + path)
  {
    TopLevelIsFirstSegment(t.field);
    assert path[0] !in t.clear by {
      if path[0] in t.clear { TopLevelIsFirstSegment(path[0]); UndottedSegment(path[0]); }
    }
    assert path[0] !in t.withValues by {
      if path[0] in t.withValues { TopLevelIsFirstSegment(path[0]); UndottedSegment(path[0]); }
    }
    PatchEffect(t, target, path);
    assert path == [path[0]] + path[1..];
    GetMergedMember(ForProviderOf(target), Nest(Segments(t.field), t.value), path[0], path[1..]);
    GetAppend(target, FOR_PROVIDER, path);
  }

  lemma {:induction false} UntouchedByAll(tests: seq<UpdateTest>, mask: seq<bool>, live: Json, path: Path)
    requires |mask| == |tests| && path != [] && path[0] !in Touched(tests)
    requires forall t | t in tests :: Patchable(t)
    ensures Get(ApplySome(live, tests, mask), FOR_PROVIDER + path) == Get(live, FOR_PROVIDER + path)
  {
    if tests == [] {
    } else {
      var n := |tests| - 1;
      assert tests == tests[..n] + [tests[n]];
      UntouchedByAll(tests[..n], mask[..n], live, path);
      if mask[n] && !tests[n].skip.Present() {
        assert tests[n] in tests;
        assert path[0] !in TouchedBy(tests[n]);
        UntouchedSurvives(tests[n], ApplySome(live, tests[..n], mask[..n]), path);
      }
    }
  }

  lemma {:induction false} NullFreeBelow(v: Json, path: Path)
    requires NullFree(v) && Get(v, path).Some?
    ensures NullFree(Get(v, path).value)
  {
    if path == [] {
    } else {
      NullFreeBelow(v.members[path[0]], path[1..]);
    }
  }

  lemma FlaggedValueSurvives(c: Codec, tests: seq<UpdateTest>, i: nat, mask: seq<bool>, live: Json)
    requires Accepted(tests) && i < |tests| && |mask| == i
    requires Get(live, FOR_PROVIDER).Some? && ForProviderOf(live).Object? && NullFree(ForProviderOf(live))
    requires Flagged(c, tests[..i], tests[i], ForProviderOf(live).members)
    requires c.RoundTrips(tests[i].value) && c.RoundTrips(Get(ForProviderOf(live), Segments(tests[i].field)).value)
    ensures var t := tests[i];
      Get(ApplySome(live, tests[..i], mask), FOR_PROVIDER + Segments(t.field)) == Some(t.value) && NullFree(t.value)
  {
    var t, path := tests[i], Segments(tests[i].field);
    TopLevelIsFirstSegment(t.field);
    assert forall u | u in tests[..i] :: u in tests;
    UntouchedByAll(tests[..i], mask, live, path);
    GetAppend(live, FOR_PROVIDER, path);
    NullFreeBelow(ForProviderOf(live), path);
  }

  lemma RepeatIsIdentity(t: UpdateTest, now: Json)
    requires Get(now, FOR_PROVIDER + Segments(t.field)) == Some(t.value) && NullFree(t.value)
    requires t.clear == [] && t.withValues == map[]
    ensures MergePatch(now, PatchOf(t)) == now
  {
    var path := Segments(t.field);
    assert PatchBody(t).members == Nest(path, t.value).members;
    NestAppend(FOR_PROVIDER, path, t.value);
    MergeRepeats(now, FOR_PROVIDER + path, t.value);
  }

  /** A flagged entry really is a no-op: whatever subset of the earlier tested entries
      took effect, it finds exactly its own value at its field, the pre-patch guard
      reports NO-OP, and without siblings of its own its patch is the identity. */
  lemma NoOpPredictionIsSound(c: Codec, tests: seq<UpdateTest>, i: nat, mask: seq<bool>, live: Json)
    requires Accepted(tests) && i < |tests| && |mask| == i
    requires Get(live, FOR_PROVIDER).Some? && ForProviderOf(live).Object? && NullFree(ForProviderOf(live))
    requires Flagged(c, tests[..i], tests[i], ForProviderOf(live).members)
    requires c.RoundTrips(tests[i].value) && c.RoundTrips(Get(ForProviderOf(live), Segments(tests[i].field)).value)
    ensures var now, t := ApplySome(live, tests[..i], mask), tests[i];
      && Get(now, FOR_PROVIDER + Segments(t.field)) == Some(t.value)
      && ReportsNoOp(c, t, now)
      && (t.clear == [] && t.withValues == map[] ==> MergePatch(now, PatchOf(t)) == now)
  {
    var now, t := ApplySome(live, tests[..i], mask), tests[i];
    FlaggedValueSurvives(c, tests, i, mask, live);
    NavigateIsGet(now, FOR_PROVIDER + Segments(t.field));
    EqualToItself(c, t.value);
    if t.clear == [] && t.withValues == map[] { RepeatIsIdentity(t, now); }
  }

  /** The entry's field, clear list or withValues map names something under this top-level
      name. */
  predicate Addresses(t: UpdateTest, top: string) {
    || Segments(t.field)[0] == top
    || (exists c | c in t.clear :: Segments(c)[0] == top)
    || (exists k | k in t.withValues :: Segments(k)[0] == top)
  }

  lemma TouchedMeans(t: UpdateTest, top: string)
    ensures top in TouchedBy(t) <==> Addresses(t, top)
  {
    TopLevelIsFirstSegment(t.field);
    forall s: string ensures TopLevelField(s) == Segments(s)[0] { TopLevelIsFirstSegment(s); }
  }

  /** Entry i repeats the create-time value of a field no earlier tested entry addresses. */
  ghost predicate RepeatsCreateTime(tests: seq<UpdateTest>, i: nat, forProvider: map<string, Json>)
    requires i < |tests|
  {
    && !tests[i].skip.Present()
    && Get(Object(forProvider), Segments(tests[i].field)) == Some(tests[i].value)
    && forall j :: 0 <= j < i && !tests[j].skip.Present() ==> !Addresses(tests[j], Segments(tests[i].field)[0])
  }

  lemma FlaggedMeans(c: Codec, tests: seq<UpdateTest>, i: nat, forProvider: map<string, Json>)
    requires i < |tests| && c.RoundTrips(tests[i].value)
    requires var v := Get(Object(forProvider), Segments(tests[i].field)); v.Some? ==> c.RoundTrips(v.value)
    ensures Flagged(c, tests[..i], tests[i], forProvider) <==> RepeatsCreateTime(tests, i, forProvider)
  {
    var top := Segments(tests[i].field)[0];
    TopLevelIsFirstSegment(tests[i].field);
    forall j | 0 <= j < i ensures top in TouchedBy(tests[j]) <==> Addresses(tests[j], top) {
      TouchedMeans(tests[j], top);
    }
    forall j | 0 <= j < i ensures tests[..i][j] == tests[j] && tests[j] in tests[..i] { }
    forall t | t in tests[..i] ensures exists j :: 0 <= j < i && tests[j] == t { }
  }

  lemma {:induction false} FindingsAreFlagged(c: Codec, tests: seq<UpdateTest>, forProvider: map<string, Json>,
                                              f: NoOpFinding)
    ensures f in NoOpFindings(c, tests, forProvider) <==>
      exists i :: 0 <= i < |tests| && f == NoOpFinding(tests[i].field, tests[i].value)
        && Flagged(c, tests[..i], tests[i], forProvider)
  {
    if tests == [] {
    } else {
      var n := |tests| - 1;
      FindingsAreFlagged(c, tests[..n], forProvider, f);
      forall i | 0 <= i < n ensures tests[..n][i] == tests[i] && tests[..n][..i] == tests[..i] { }
    }
  }

  /** Nothing the check can see is missed: the findings are exactly the tested entries that
      repeat the create-time value of a field no earlier tested entry addresses. */
  lemma EveryRepeatIsFound(c: Codec, tests: seq<UpdateTest>, forProvider: map<string, Json>, f: NoOpFinding)
    requires forall t | t in tests :: c.RoundTrips(t.value)
    requires forall t | t in tests :: Get(Object(forProvider), Segments(t.field)).Some? ==>
      c.RoundTrips(Get(Object(forProvider), Segments(t.field)).value)
    ensures f in NoOpFindings(c, tests, forProvider) <==>
      exists i: nat :: i < |tests| && f == NoOpFinding(tests[i].field, tests[i].value)
        && RepeatsCreateTime(tests, i, forProvider)
  {
    FindingsAreFlagged(c, tests, forProvider, f);
    forall i: nat | i < |tests|
      ensures Flagged(c, tests[..i], tests[i], forProvider) <==> RepeatsCreateTime(tests, i, forProvider)
    {
      FlaggedMeans(c, tests, i, forProvider);
    }
  }

  lemma {:induction false} NestAppend(p: Path, q: Path, value: Json)
    ensures Nest(p, Nest(q, value)) == Nest(p + q, value)
  {
    if p == [] {
      assert p + q == q;
    } else {
      assert (p + q)[1..] == p[1..] + q;
      NestAppend(p[1..], q, value);
    }
  }

  // ---------- sibling survivors ----------

  predicate Survives(key: string, createObj: map<string, Json>, patch: map<string, Json>, effective: Json,
                     ignoreKeys: seq<string>) {
    key in createObj && key !in ignoreKeys && key !in patch && key !in Members(effective)
  }

  function Survivors(createObj: map<string, Json>, patch: map<string, Json>, effective: Json,
                     ignoreKeys: seq<string>): set<string> {
    set k | k in createObj && Survives(k, createObj, patch, effective, ignoreKeys)
  }

  method SurvivingSiblingKeys(createObj: map<string, Json>, patch: map<string, Json>, effective: Json,
                              ignoreKeys: seq<string>)
    returns (bad: seq<string>)
    ensures bad == SortedKeys(Survivors(createObj, patch, effective, ignoreKeys))
    ensures forall k :: k in bad <==> Survives(k, createObj, patch, effective, ignoreKeys)
  {
    var effObj := Members(effective);
    var ignored := set k | k in ignoreKeys;
    bad := [];
    var rest := createObj.Keys;
    while rest != {}
      invariant rest <= createObj.Keys && NoDuplicates(bad)
      invariant forall k :: k in bad <==> k !in rest && Survives(k, createObj, patch, effective, ignoreKeys)
    {
      var key :| key in rest;
      rest := rest - {key};
      if key in ignored { continue; }
      if key in patch { continue; }
      if key in effObj { continue; }
      OneMoreIsFree(bad, key);
      bad := bad + [key];
    }
    GatheredKeysSort(bad, Survivors(createObj, patch, effective, ignoreKeys));
    SortIsPermutation(bad, Same);
    bad := SortStrings(bad);
  }

  /** An entry both sides of whose merge are objects. */
  predicate PatchesObject(t: UpdateTest, forProvider: map<string, Json>) {
    && !t.skip.Present() && t.value.Object?
    && Get(Object(forProvider), Segments(t.field)).Some? && Get(Object(forProvider), Segments(t.field)).value.Object?
  }

  datatype SiblingFinding = SiblingFinding(field: string, keys: seq<string>)

  function FlaggedKeys(t: UpdateTest, forProvider: map<string, Json>): set<string> {
    if PatchesObject(t, forProvider) then
      Survivors(Get(Object(forProvider), Segments(t.field)).value.members, t.value.members, t.EffectiveExpectation(),
        t.ignoreMapKeys)
    else {}
  }

  ghost function SiblingFindings(tests: seq<UpdateTest>, forProvider: map<string, Json>): seq<SiblingFinding> {
    if tests == [] then []
    else
      var t := tests[|tests| - 1];
      SiblingFindings(tests[..|tests| - 1], forProvider) +
        (if FlaggedKeys(t, forProvider) != {} then [SiblingFinding(t.field, SortedKeys(FlaggedKeys(t, forProvider)))]
          else [])
  }

  /** The loop body's nested ifs: the surviving keys, or none when a side is no object. */
  method EntrySurvivors(t: UpdateTest, forProvider: map<string, Json>) returns (bad: seq<string>)
    requires !t.skip.Present()
    ensures bad == [] <==> FlaggedKeys(t, forProvider) == {}
    ensures bad != [] ==> bad == SortedKeys(FlaggedKeys(t, forProvider))
  {
    if !t.value.Object? { return []; }
    var createVal := NavigateForProvider(forProvider, t.field);
    if createVal.None? { return []; }
    if !createVal.value.Object? { return []; }
    bad := SurvivingSiblingKeys(createVal.value.members, t.value.members, t.EffectiveExpectation(), t.ignoreMapKeys);
    SortedKeysMembers(FlaggedKeys(t, forProvider));
    if bad != [] { assert bad[0] in bad; }
  }

  method CheckMergePatchSiblings(tests: seq<UpdateTest>, forProvider: map<string, Json>)
    returns (findings: seq<SiblingFinding>)
    ensures findings == SiblingFindings(tests, forProvider)
  {
    findings := [];
    for i := 0 to |tests|
      invariant findings == SiblingFindings(tests[..i], forProvider)
    {
      var t := tests[i];
      assert tests[..i+1][..i] == tests[..i];
      if t.skip.Present() { continue; }
      var bad := EntrySurvivors(t, forProvider);
      if |bad| == 0 { continue; }
      findings := findings + [SiblingFinding(t.field, bad)];
    }
    assert tests[..|tests|] == tests;
  }

  lemma {:induction false} SiblingFindingsExactly(tests: seq<UpdateTest>, forProvider: map<string, Json>,
                                                  f: SiblingFinding)
    ensures f in SiblingFindings(tests, forProvider) <==>
      exists t :: t in tests && FlaggedKeys(t, forProvider) != {}
        && f == SiblingFinding(t.field, SortedKeys(FlaggedKeys(t, forProvider)))
  {
    if tests == [] {
    } else {
      var n := |tests| - 1;
      assert tests == tests[..n] + [tests[n]];
      SiblingFindingsExactly(tests[..n], forProvider, f);
    }
  }

  /** The flagged keys are exactly those the merged object holds that the entry neither
      patches, nor expects, nor ignores. */
  lemma FlaggedKeysExactly(t: UpdateTest, key: string, live: Json)
    requires EntryAccepted(t) && !t.skip.Present() && t.value.Object?
    requires Get(live, FOR_PROVIDER).Some? && ForProviderOf(live).Object?
    requires var before := Get(live, FOR_PROVIDER + Segments(t.field)); before.Some? && before.value.Object?
    ensures var after := Get(MergePatch(live, PatchOf(t)), FOR_PROVIDER + Segments(t.field));
      && after.Some? && after.value.Object?
      && (key in FlaggedKeys(t, ForProviderOf(live).members) <==>
            && key in after.value.members && key !in t.value.members
            && key !in Members(if t.expected.Null? then t.value else t.expected) && key !in t.ignoreMapKeys)
  {
    OwnFieldEffect(t, live);
    GetAppend(live, FOR_PROVIDER, Segments(t.field));
  }

  lemma ExtraKeyDiffers(c: Codec, effective: Json, after: Json, key: string, mapKeys: seq<string>,
                        elementKeys: seq<string>)
    requires c.RoundTrips(effective) && c.RoundTrips(after) && effective.Object? && after.Object?
    requires key in after.members && key !in effective.members && key !in mapKeys
    ensures !FieldValuesEqual(c, effective, Stringify(c, after), mapKeys, elementKeys)
  {
    assert key !in Stripped(effective, mapKeys, elementKeys).members;
    assert key in Stripped(after, mapKeys, elementKeys).members;
    assert effective != after;
  }

  /** Every flagged key survives the merge of the entry's own patch unchanged, so an
      object expectation can never equal what the merge leaves, however it is stripped. */
  lemma SiblingFindingIsSound(c: Codec, t: UpdateTest, key: string, live: Json)
    requires EntryAccepted(t)
    requires Get(live, FOR_PROVIDER).Some? && ForProviderOf(live).Object?
    requires key in FlaggedKeys(t, ForProviderOf(live).members)
    ensures var path := FOR_PROVIDER + Segments(t.field);
      var after := Get(MergePatch(live, PatchOf(t)), path);
      && after.Some? && after.value.Object?
      && key in after.value.members
      && Get(live, path).Some? && key in Members(Get(live, path).value)
      && after.value.members[key] == Get(live, path).value.members[key]
      && (t.EffectiveExpectation().Object? && c.RoundTrips(t.EffectiveExpectation()) && c.RoundTrips(after.value) ==>
            !FieldValuesEqual(c, t.EffectiveExpectation(), Stringify(c, after.value), t.ignoreMapKeys,
              t.ignoreListElementKeys))
  {
    var path, effective := FOR_PROVIDER + Segments(t.field), t.EffectiveExpectation();
    OwnFieldEffect(t, live);
    GetAppend(live, FOR_PROVIDER, Segments(t.field));
    var after := Get(MergePatch(live, PatchOf(t)), path).value;
    assert key in after.members;
    if effective.Object? && c.RoundTrips(effective) && c.RoundTrips(after) {
      ExtraKeyDiffers(c, effective, after, key, t.ignoreMapKeys, t.ignoreListElementKeys);
    }
  }
}
