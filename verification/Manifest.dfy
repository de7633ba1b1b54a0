/** The update-test entries of a manifest and the post-YAML checks ParseAnnotation
    applies to them (internal/manifest/manifest.go). Every check is a method proved to
    accept exactly the entries its predicate describes. */
module Manifest {
  import opened Json
  import opened Text

  datatype Disposition =
    NoDisposition | StaticallyProvable | OneLivePatch | DeclaredExclusion | Defect | BackendDiscards

  datatype SkipReason = NoReason | UnionArm | CoveredElsewhere | VendorDefect | FixtureMissing | WriteOnly

  datatype SkipInfo = SkipInfo(legacy: bool, reason: SkipReason, disposition: Disposition) {
    predicate Present() { legacy || reason != NoReason }
  }

  /** One entry. Null stands for Go's nil in `value`, `expected` (the expect: key) and inside `withValues`. */
  datatype UpdateTest = UpdateTest(
    field: string,
    value: Json,
    valueExplicit: bool,
    expected: Json,
    skip: SkipInfo,
    clear: seq<string>,
    withValues: map<string, Json>,
    ignoreMapKeys: seq<string>,
    ignoreListElementKeys: seq<string>,
    disposition: Disposition)
  {
    function EffectiveDisposition(): Disposition {
      if disposition != NoDisposition then disposition
      else if skip.Present() then skip.disposition
      else NoDisposition
    }

    /** What the post-patch value is compared against: expect when set, else value. */
    function EffectiveExpectation(): Json { if expected.Null? then value else expected }

    predicate CarriesTestedContent() {
      !value.Null? || valueExplicit || !expected.Null? || clear != [] || withValues != map[]
    }
  }

  // ---------- what is accepted ----------

  predicate ClearAllowed(field: string, clear: seq<string>) {
    clear != [] ==> Undotted(field) && forall c | c in clear :: Undotted(c) && c != field
  }

  predicate WithValuesAllowed(field: string, withValues: map<string, Json>, clear: seq<string>) {
    withValues != map[] ==>
      Undotted(field) && forall k | k in withValues :: Undotted(k) && k != field && k !in clear
  }

  predicate KeyListAllowed(keys: seq<string>) {
    "" !in keys && forall i, j :: 0 <= i < j < |keys| ==> keys[i] != keys[j]
  }

  predicate IgnoreMapKeysAllowed(t: UpdateTest) {
    t.ignoreMapKeys != [] ==>
      !t.skip.Present() && KeyListAllowed(t.ignoreMapKeys) &&
      forall k | k in t.ignoreMapKeys :: k !in Members(t.EffectiveExpectation())
  }

  predicate IgnoreListElementKeysAllowed(t: UpdateTest) {
    t.ignoreListElementKeys != [] ==>
      !t.skip.Present() && KeyListAllowed(t.ignoreListElementKeys) &&
      (t.EffectiveExpectation().List? ==>
         forall e, k | e in t.EffectiveExpectation().items && k in t.ignoreListElementKeys :: k !in Members(e))
  }

  predicate DispositionAllowed(t: UpdateTest) {
    t.disposition != NoDisposition ==> !t.skip.Present() && t.disposition == BackendDiscards
  }

  predicate EntryAccepted(t: UpdateTest) {
    && t.field != ""
    && (t.value.Null? && !t.valueExplicit ==> t.skip.Present())
    && ClearAllowed(t.field, t.clear)
    && WithValuesAllowed(t.field, t.withValues, t.clear)
    && IgnoreMapKeysAllowed(t)
    && IgnoreListElementKeysAllowed(t)
    && DispositionAllowed(t)
  }

  /** No entry is both skipped and tested, and a field's entries are all of one kind. */
  ghost predicate Unmixed(tests: seq<UpdateTest>) {
    && (forall t | t in tests :: t.skip.Present() ==> !t.CarriesTestedContent())
    && (forall s, t | s in tests && t in tests && s.field == t.field :: s.skip.Present() == t.skip.Present())
  }

  ghost predicate Accepted(tests: seq<UpdateTest>) {
    (forall t | t in tests :: EntryAccepted(t)) && Unmixed(tests)
  }

  // ---------- the checks themselves ----------

  method ValidateClear(field: string, clear: seq<string>) returns (ok: bool)
    ensures ok <==> ClearAllowed(field, clear)
    ensures ok <==> clear == [] || ('.' !in field && forall c | c in clear :: '.' !in c && c != field)
  {
    if |clear| == 0 { return true; }
    if '.' in field { return false; }
    for i := 0 to |clear|
      invariant forall c | c in clear[..i] :: Undotted(c) && c != field
    {
      if '.' in clear[i] || clear[i] == field {
        assert clear[i] in clear;
        return false;
      }
    }
    assert clear[..|clear|] == clear;
    return true;
  }

  method ValidateWithValues(field: string, withValues: map<string, Json>, clear: seq<string>) returns (ok: bool)
    ensures ok <==> WithValuesAllowed(field, withValues, clear)
    ensures ok && withValues != map[] ==> '.' !in field
    ensures '.' !in field ==> (ok <==> forall k | k in withValues :: '.' !in k && k != field && k !in clear)
  {
    if withValues == map[] { return true; }
    if '.' in field { return false; }
    var rest := withValues.Keys;
    while rest != {}
      invariant rest <= withValues.Keys
      invariant forall k | k in withValues :: k in rest || (Undotted(k) && k != field && k !in clear)
    {
      var k :| k in rest;
      if '.' in k || k == field || k in clear { return false; }
      rest := rest - {k};
    }
    return true;
  }

  method ValidateKeyList(keys: seq<string>) returns (ok: bool)
    ensures ok <==> "" !in keys && forall i, j :: 0 <= i < j < |keys| ==> keys[i] != keys[j]
  {
    var seen: set<string> := {};
    for i := 0 to |keys|
      invariant seen == set k | k in keys[..i]
      invariant KeyListAllowed(keys[..i])
    {
      if keys[i] == "" || keys[i] in seen { return false; }
      seen := seen + {keys[i]};
    }
    assert keys[..|keys|] == keys;
    return true;
  }

  method ValidateIgnoreMapKeys(t: UpdateTest) returns (ok: bool)
    ensures ok <==> IgnoreMapKeysAllowed(t)
    ensures ok && t.ignoreMapKeys != [] ==>
      !t.skip.Present() && forall k | k in t.ignoreMapKeys :: k != "" && k !in Members(t.EffectiveExpectation())
  {
    if |t.ignoreMapKeys| == 0 { return true; }
    if t.skip.Present() { return false; }
    ok := ValidateKeyList(t.ignoreMapKeys);
    if !ok { return; }
    var effective := t.EffectiveExpectation();
    for i := 0 to |t.ignoreMapKeys|
      invariant forall k | k in t.ignoreMapKeys[..i] :: k !in Members(effective)
    {
      if effective.Object? && t.ignoreMapKeys[i] in effective.members {
        assert t.ignoreMapKeys[i] in t.ignoreMapKeys;
        return false;
      }
    }
    assert t.ignoreMapKeys[..|t.ignoreMapKeys|] == t.ignoreMapKeys;
  }

  method ValidateIgnoreListElementKeys(t: UpdateTest) returns (ok: bool)
    ensures ok <==> IgnoreListElementKeysAllowed(t)
  {
    var keys := t.ignoreListElementKeys;
    if |keys| == 0 { return true; }
    if t.skip.Present() { return false; }
    ok := ValidateKeyList(keys);
    var effective := t.EffectiveExpectation();
    if !ok || !effective.List? { return; }
    for i := 0 to |effective.items|
      invariant forall e, k | e in effective.items[..i] && k in keys :: k !in Members(e)
    {
      var e := effective.items[i];
      if e.Object? {
        for j := 0 to |keys|
          invariant forall k | k in keys[..j] :: k !in Members(e)
        {
          if keys[j] in e.members {
            assert e in effective.items && keys[j] in keys;
            return false;
          }
        }
        assert keys[..|keys|] == keys;
      }
    }
    assert effective.items[..|effective.items|] == effective.items;
  }

  method ValidateFieldEntryMix(tests: seq<UpdateTest>) returns (ok: bool)
    ensures ok <==> Unmixed(tests)
  {
    for i := 0 to |tests|
      invariant forall t | t in tests[..i] :: t.skip.Present() ==> !t.CarriesTestedContent()
    {
      if tests[i].skip.Present() && tests[i].CarriesTestedContent() { return false; }
    }
    assert tests[..|tests|] == tests;
    var kindByField: map<string, bool> := map[];
    for i := 0 to |tests|
      invariant kindByField.Keys == set t | t in tests[..i] :: t.field
      invariant forall t | t in tests[..i] :: t.field in kindByField && kindByField[t.field] == t.skip.Present()
    {
      var t := tests[i];
      assert tests[..i+1] == tests[..i] + [t];
      if t.field !in kindByField {
        kindByField := kindByField[t.field := t.skip.Present()];
      } else if kindByField[t.field] != t.skip.Present() {
        assert exists s :: s in tests[..i] && s.field == t.field;
        return false;
      }
    }
    return true;
  }

  /** The checks ParseAnnotation runs on decoded entries, in its order. */
  method CheckEntries(tests: seq<UpdateTest>) returns (ok: bool)
    ensures ok <==> Accepted(tests)
  {
    for i := 0 to |tests|
      invariant forall t | t in tests[..i] :: EntryAccepted(t)
    {
      var t := tests[i];
      if t.field == "" { return false; }
      if t.value.Null? && !t.valueExplicit && !t.skip.Present() { return false; }
      ok := ValidateClear(t.field, t.clear);
      if !ok { return; }
      ok := ValidateWithValues(t.field, t.withValues, t.clear);
      if !ok { return; }
      ok := ValidateIgnoreMapKeys(t);
      if !ok { return; }
      ok := ValidateIgnoreListElementKeys(t);
      if !ok { return; }
      if !DispositionAllowed(t) { return false; }
    }
    assert tests[..|tests|] == tests;
    ok := ValidateFieldEntryMix(tests);
  }
}
