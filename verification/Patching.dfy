/** The merge patch a field test really sends (internal/runner/runner.go,
    buildMergePatch) and what merging it does to the object under test. */
module Patching {
  import opened Json
  import opened Text
  import opened Manifest

  const FOR_PROVIDER: Path := ["spec", "forProvider"]

  function NullsFor(keys: seq<string>): map<string, Json> { map k | k in keys :: Null }

  /** The patch as it stands under spec.forProvider. */
  function PatchBody(t: UpdateTest): (body: Json)
    ensures body.Object?
  {
    Object(Nest(Segments(t.field), t.value).members + NullsFor(t.clear) + t.withValues)
  }

  function PatchOf(t: UpdateTest): Json { Nest(FOR_PROVIDER, PatchBody(t)) }

  predicate Patchable(t: UpdateTest) {
    ClearAllowed(t.field, t.clear) && WithValuesAllowed(t.field, t.withValues, t.clear)
  }

  /** buildMergePatch: an error unless the clear and withValues lists are allowed. */
  method BuildMergePatch(t: UpdateTest) returns (r: Option<Json>)
    ensures r.Some? <==> Patchable(t)
    ensures r.Some? ==> r.value == PatchOf(t)
  {
    var ok := ValidateClear(t.field, t.clear);
    if !ok { return None; }
    ok := ValidateWithValues(t.field, t.withValues, t.clear);
    if !ok { return None; }
    var inner := WrapOutward(Segments(t.field), t.value);
    var forProvider := AddSiblings(inner.members, t.clear, t.withValues);
    assert forProvider == PatchBody(t).members;
    assert FOR_PROVIDER[1..] == ["forProvider"] && FOR_PROVIDER[1..][1..] == [];
    assert Nest(FOR_PROVIDER[1..], PatchBody(t)) == Object(map["forProvider" := PatchBody(t)]);
    return Some(Object(map["spec" := Object(map["forProvider" := Object(forProvider)])]));
  }

  method WrapOutward(parts: Path, value: Json) returns (inner: Json)
    requires parts != []
    ensures inner == Nest(parts, value)
  {
    inner := value;
    var i := |parts|;
    while i > 0
      invariant 0 <= i <= |parts|
      invariant inner == Nest(parts[i..], value)
    {
      i := i - 1;
      assert parts[i..] == [parts[i]] + parts[i+1..];
      inner := Object(map[parts[i] := inner]);
    }
    assert parts[0..] == parts;
  }

  method AddClears(own: map<string, Json>, clear: seq<string>) returns (forProvider: map<string, Json>)
    ensures forProvider == own + NullsFor(clear)
  {
    forProvider := own;
    for j := 0 to |clear|
      invariant forProvider == own + NullsFor(clear[..j])
    {
      forProvider := forProvider[clear[j] := Null];
      assert clear[..j+1] == clear[..j] + [clear[j]];
    }
    assert clear[..|clear|] == clear;
  }

  method AddSiblings(own: map<string, Json>, clear: seq<string>, withValues: map<string, Json>)
    returns (forProvider: map<string, Json>)
    ensures forProvider == own + NullsFor(clear) + withValues
  {
    forProvider := AddClears(own, clear);
    ghost var base := forProvider;
    var rest := withValues.Keys;
    assert withValues - rest == map[];
    while rest != {}
      invariant rest <= withValues.Keys
      invariant forProvider == base + (withValues - rest)
    {
      var k :| k in rest;
      assert withValues - (rest - {k}) == (withValues - rest)[k := withValues[k]];
      forProvider := forProvider[k := withValues[k]];
      rest := rest - {k};
    }
    assert withValues - {} == withValues;
  }

  /** spec.forProvider of a live object, Null when it has none. */
  function ForProviderOf(target: Json): Json {
    if Get(target, FOR_PROVIDER).Some? then Get(target, FOR_PROVIDER).value else Null
  }

  /** What stands at any path under spec.forProvider once the entry's patch has merged:
      cleared siblings are gone, withValues siblings hold their merged literal, and the
      rest is the field's own nested patch alone. */
  lemma PatchEffect(t: UpdateTest, target: Json, path: Path)
    requires path != []
    ensures Get(MergePatch(target, PatchOf(t)), FOR_PROVIDER + path) ==
      var live := ForProviderOf(target);
      if path[0] in t.withValues then
        if t.withValues[path[0]].Null? then None
        else Get(MergePatch(MemberOr(Members(live), path[0]), t.withValues[path[0]]), path[1..])
      else if path[0] in t.clear then None
      else Get(MergePatch(live, Nest(Segments(t.field), t.value)), path)
  {
    var live, body := ForProviderOf(target), PatchBody(t);
    var merged := MergePatch(target, PatchOf(t));
    GetMergedNest(target, FOR_PROVIDER, body);
    GetAppend(merged, FOR_PROVIDER, path);
    assert path == [path[0]] + path[1..];
    GetMergedMember(live, body, path[0], path[1..]);
    GetMergedMember(live, Nest(Segments(t.field), t.value), path[0], path[1..]);
  }

  /** Nothing outside spec.forProvider is touched. */
  lemma PatchStaysInside(t: UpdateTest, target: Json, path: Path)
    requires path != [] && (path[0] == "spec" ==> |path| >= 2 && path[1] != "forProvider")
    ensures Get(MergePatch(target, PatchOf(t)), path) == Get(target, path)
  {
    var patch := PatchOf(t);
    assert FOR_PROVIDER[1..] == ["forProvider"] && FOR_PROVIDER[1..][1..] == [];
    assert Nest(FOR_PROVIDER[1..], PatchBody(t)) == Object(map["forProvider" := PatchBody(t)]);
    assert path == [path[0]] + path[1..];
    GetMergedMember(target, patch, path[0], path[1..]);
    if path[0] == "spec" {
      var spec := MemberOr(Members(target), "spec");
      assert path[1..] == [path[1]] + path[2..];
      GetMergedMember(spec, patch.members["spec"], path[1], path[2..]);
    }
  }

  /** The same at the field's own path, which neither list may touch. */
  lemma OwnFieldEffect(t: UpdateTest, target: Json)
    requires Patchable(t)
    ensures Get(MergePatch(target, PatchOf(t)), FOR_PROVIDER + Segments(t.field)) ==
      var live := Get(ForProviderOf(target), Segments(t.field));
      if t.value.Null? then None else Some(MergePatch(if live.Some? then live.value else Null, t.value))
  {
    PatchEffect(t, target, Segments(t.field));
    if t.clear != [] || t.withValues != map[] { UndottedSegment(t.field); }
    GetMergedNest(ForProviderOf(target), Segments(t.field), t.value);
  }
}
