/** How the runner reads a field and compares it with an expectation
    (internal/runner/runner.go: navigateJSONPath, readCurrentValue,
    stringifyFieldValue, jsonEqual, compareFieldValue). */
module Compare {
  import opened Json
  import opened Text
  import opened Manifest
  import opened Patching

  /** encoding/json's Marshal and Unmarshal, of which only the round trip of the values
      actually compared ever matters. */
  datatype Codec = Codec(marshal: Json -> string, unmarshal: string -> Option<Json>) {
    predicate RoundTrips(v: Json) { unmarshal(marshal(v)) == Some(v) }
  }

  /** Any two values are round-tripped by some codec. */
  lemma TwoValuesRoundTrip(v: Json, w: Json) returns (c: Codec)
    ensures c.RoundTrips(v) && c.RoundTrips(w)
  {
    c := Codec(x => if x == v then "v" else "w", s => if s == "v" then Some(v) else Some(w));
  }

  const AT_PROVIDER: Path := ["status", "atProvider"]

  datatype Lookup = Broken | Missing | Found(value: Json)

  /** navigateJSONPath: an error when a parent is not an object, else found or missing. */
  function Navigate(v: Json, path: Path): Lookup {
    if path == [] then Found(v)
    else if !v.Object? then Broken
    else if path[0] !in v.members then Missing
    else Navigate(v.members[path[0]], path[1..])
  }

  method NavigateJSONPath(obj: Json, path: Path) returns (r: Lookup)
    ensures r == Navigate(obj, path)
  {
    var curr := obj;
    for i := 0 to |path|
      invariant Navigate(curr, path[i..]) == Navigate(obj, path)
    {
      assert path[i..][0] == path[i] && path[i..][1..] == path[i+1..];
      if !curr.Object? { return Broken; }
      if path[i] !in curr.members { return Missing; }
      curr := curr.members[path[i]];
    }
    assert path[|path|..] == [];
    return Found(curr);
  }

  lemma {:induction false} NavigateIsGet(v: Json, path: Path)
    ensures Get(v, path) == (if Navigate(v, path).Found? then Some(Navigate(v, path).value) else None)
  {
    if path != [] && v.Object? && path[0] in v.members { NavigateIsGet(v.members[path[0]], path[1..]); }
  }

  function Stringify(c: Codec, v: Json): string {
    match v case Null => "" case String(s) => s case _ => c.marshal(v)
  }

  function JsonEqual(c: Codec, expected: Json, actual: string): bool {
    match expected
    case String(s) => s == actual
    case Null => actual == ""
    case _ =>
      var e, a := c.unmarshal(c.marshal(expected)), c.unmarshal(actual);
      if e.Some? && a.Some? then e == a else c.marshal(expected) == actual
  }

  /** Some proper prefix of the path holds something that is not an object. */
  ghost predicate BrokenPath(v: Json, path: Path) {
    exists n :: 0 <= n < |path| && NotAnObject(v, path[..n])
  }

  predicate NotAnObject(v: Json, path: Path) { Get(v, path).Some? && !Get(v, path).value.Object? }

  /** Navigation fails outright exactly on a broken path. */
  lemma {:induction false} BrokenMeansNonObject(v: Json, path: Path)
    ensures Navigate(v, path).Broken? <==> BrokenPath(v, path)
  {
    if path == [] {
    } else if !v.Object? {
      assert NotAnObject(v, path[..0]);
    } else if path[0] !in v.members {
      assert forall n | 0 < n <= |path| :: path[..n][0] == path[0];
    } else {
      var sub, rest := v.members[path[0]], path[1..];
      BrokenMeansNonObject(sub, rest);
      forall n | 0 <= n < |rest| ensures NotAnObject(sub, rest[..n]) <==> NotAnObject(v, path[..n + 1]) {
        assert path[..n + 1][1..] == rest[..n];
      }
      if n :| 0 <= n < |path| && NotAnObject(v, path[..n]) { assert n > 0 && NotAnObject(sub, rest[..n - 1]); }
    }
  }

  /** readCurrentValue on a fetched object: the spec's value when there is one that is not
      null, else what the observed mirror holds, "" when it holds nothing, and an error
      exactly when the mirror's path runs into something that is not an object. */
  method ReadCurrentValue(c: Codec, obj: Json, field: string) returns (r: Option<string>)
    ensures var spec, mirror := Get(obj, FOR_PROVIDER + Segments(field)), Get(obj, AT_PROVIDER + Segments(field));
      && (spec.Some? && !spec.value.Null? ==> r == Some(Stringify(c, spec.value)))
      && (spec.None? || spec.value.Null? ==>
            && (mirror.Some? ==> r == Some(Stringify(c, mirror.value)))
            && (mirror.None? ==> r == if BrokenPath(obj, AT_PROVIDER + Segments(field)) then None else Some("")))
    ensures r == CurrentValue(c, obj, field)
  {
    NavigateIsGet(obj, FOR_PROVIDER + Segments(field));
    NavigateIsGet(obj, AT_PROVIDER + Segments(field));
    BrokenMeansNonObject(obj, AT_PROVIDER + Segments(field));
    var spec := NavigateJSONPath(obj, FOR_PROVIDER + Segments(field));
    if spec.Found? && !spec.value.Null? { return Some(Stringify(c, spec.value)); }
    var mirror := NavigateJSONPath(obj, AT_PROVIDER + Segments(field));
    match mirror
    case Broken => return None;
    case Missing => return Some("");
    case Found(v) => return Some(Stringify(c, v));
  }

  function CurrentValue(c: Codec, obj: Json, field: string): Option<string> {
    var spec, mirror := Get(obj, FOR_PROVIDER + Segments(field)), Get(obj, AT_PROVIDER + Segments(field));
    if spec.Some? && !spec.value.Null? then Some(Stringify(c, spec.value))
    else if mirror.Some? then Some(Stringify(c, mirror.value))
    else if Navigate(obj, AT_PROVIDER + Segments(field)).Broken? then None
    else Some("")
  }

  /** What the runner reads back once an entry's patch has merged: the value it asked for,
      merged with what stood at the field before. */
  lemma PatchIsReadBack(c: Codec, t: UpdateTest, obj: Json)
    requires Patchable(t) && !t.value.Null?
    ensures var live := Get(ForProviderOf(obj), Segments(t.field));
      CurrentValue(c, MergePatch(obj, PatchOf(t)), t.field) ==
      Some(Stringify(c, MergePatch(if live.Some? then live.value else Null, t.value)))
  {
    OwnFieldEffect(t, obj);
  }

  /** runFieldTest's pre-patch guard: the test is reported NO-OP and never patches. */
  predicate ReportsNoOp(c: Codec, t: UpdateTest, obj: Json) {
    var before := CurrentValue(c, obj, t.field);
    before.Some? && JsonEqual(c, t.value, before.value)
  }

  lemma EqualToItself(c: Codec, v: Json)
    ensures JsonEqual(c, v, Stringify(c, v))
  { }

  // ---------- ignored keys ----------

  function StripKeys(v: Json, keys: seq<string>): Json {
    if v.Object? then Object(map k | k in v.members && k !in keys :: v.members[k]) else v
  }

  function StripListElementKeys(v: Json, keys: seq<string>): Json {
    if v.List? then List(seq(|v.items|, i requires 0 <= i < |v.items| => StripKeys(v.items[i], keys))) else v
  }

  function Stripped(v: Json, mapKeys: seq<string>, elementKeys: seq<string>): Json {
    StripListElementKeys(StripKeys(v, mapKeys), elementKeys)
  }

  method DeleteKeys(v: Json, keys: seq<string>) returns (r: Json)
    ensures r == StripKeys(v, keys)
  {
    if !v.Object? { return v; }
    var m := v.members;
    for i := 0 to |keys|
      invariant m == map k | k in v.members && k !in keys[..i] :: v.members[k]
    {
      assert keys[..i+1] == keys[..i] + [keys[i]];
      m := m - {keys[i]};
    }
    assert keys[..|keys|] == keys;
    return Object(m);
  }

  method DeleteElementKeys(v: Json, keys: seq<string>) returns (r: Json)
    ensures r == StripListElementKeys(v, keys)
  {
    if |keys| == 0 || !v.List? {
      NothingToStrip(v);
      return v;
    }
    var items := v.items;
    for i := 0 to |items|
      invariant |items| == |v.items|
      invariant forall j :: 0 <= j < |items| ==> items[j] == if j < i then StripKeys(v.items[j], keys) else v.items[j]
    {
      var item := DeleteKeys(items[i], keys);
      items := items[i := item];
    }
    return List(items);
  }

  lemma NothingToStrip(v: Json)
    ensures StripListElementKeys(v, []) == v
  {
    if v.List? {
      forall e | e in v.items ensures StripKeys(e, []) == e {
        if e.Object? { assert StripKeys(e, []).members == e.members; }
      }
      assert StripListElementKeys(v, []).items == v.items;
    }
  }

  /** Anything else: text is compared as text, nothing with emptiness, and a value that is
      neither by what it decodes to. */
  lemma ScalarsCompare(c: Codec, e: Json, a: Json)
    requires c.RoundTrips(e) && c.RoundTrips(a)
    ensures e.String? ==> (JsonEqual(c, e, Stringify(c, a)) <==> Stringify(c, a) == e.s)
    ensures e.Null? && (a.Null? || a.String?) ==> (JsonEqual(c, e, Stringify(c, a)) <==> a.Null? || a.s == "")
    ensures !e.String? && !e.Null? && !a.String? && !a.Null? ==> (JsonEqual(c, e, Stringify(c, a)) <==> e == a)
  { }

  /** The two objects have the same members apart from these keys. */
  ghost predicate AgreeBut(e: map<string, Json>, a: map<string, Json>, keys: seq<string>) {
    forall k :: k !in keys ==> (k in e <==> k in a) && (k in e ==> e[k] == a[k])
  }

  lemma StripsAgree(e: Json, a: Json, keys: seq<string>)
    requires e.Object? && a.Object?
    ensures StripKeys(e, keys) == StripKeys(a, keys) <==> AgreeBut(e.members, a.members, keys)
  {
    var m, n := StripKeys(e, keys).members, StripKeys(a, keys).members;
    if m == n {
      forall k | k !in keys
        ensures (k in e.members <==> k in a.members) && (k in e.members ==> e.members[k] == a.members[k])
      {
        assert k in m <==> k in n;
        if k in m { assert m[k] == n[k]; }
      }
    }
    if AgreeBut(e.members, a.members, keys) {
      forall k ensures (k in m <==> k in n) && (k in m ==> m[k] == n[k]) { }
      assert m == n;
    }
  }

  /** An expected object passes exactly when the observed one has its members and no others,
      the ignored keys left out of account on both sides. */
  lemma ObjectsCompare(c: Codec, e: Json, a: Json, mapKeys: seq<string>, elementKeys: seq<string>)
    requires c.RoundTrips(e) && c.RoundTrips(a) && e.Object? && a.Object?
    ensures FieldValuesEqual(c, e, Stringify(c, a), mapKeys, elementKeys) <==> AgreeBut(e.members, a.members, mapKeys)
  {
    StripsAgree(e, a, mapKeys);
    if mapKeys == [] && elementKeys == [] {
      if AgreeBut(e.members, a.members, []) { assert e.members == a.members; }
    }
  }

  /** An expected list passes exactly when the observed one is as long and agrees item by
      item, objects but for the ignored keys and anything else outright. */
  lemma ListsCompare(c: Codec, e: Json, a: Json, mapKeys: seq<string>, elementKeys: seq<string>)
    requires c.RoundTrips(e) && c.RoundTrips(a) && e.List? && a.List?
    ensures FieldValuesEqual(c, e, Stringify(c, a), mapKeys, elementKeys) <==>
      |e.items| == |a.items| && forall i :: 0 <= i < |e.items| ==> ItemsAgree(e.items[i], a.items[i], elementKeys)
  {
    forall x, y ensures ItemsAgree(x, y, elementKeys) <==> StripKeys(x, elementKeys) == StripKeys(y, elementKeys) {
      if x.Object? && y.Object? { StripsAgree(x, y, elementKeys); }
    }
    NothingToStrip(e);
    NothingToStrip(a);
    var m, n := StripListElementKeys(e, elementKeys), StripListElementKeys(a, elementKeys);
    if m == n {
      forall i | 0 <= i < |e.items| ensures StripKeys(e.items[i], elementKeys) == StripKeys(a.items[i], elementKeys) {
        assert m.items[i] == n.items[i];
      }
    } else if |e.items| == |a.items| {
      assert m.items != n.items;
      var i :| 0 <= i < |e.items| && m.items[i] != n.items[i];
    }
  }

  ghost predicate ItemsAgree(x: Json, y: Json, keys: seq<string>) {
    if x.Object? && y.Object? then AgreeBut(x.members, y.members, keys) else x == y
  }

  /** compareFieldValue. */
  method CompareFieldValue(c: Codec, expected: Json, actual: string, mapKeys: seq<string>, elementKeys: seq<string>)
    returns (equal: bool)
    ensures equal == FieldValuesEqual(c, expected, actual, mapKeys, elementKeys)
  {
    if |mapKeys| == 0 && |elementKeys| == 0 { return JsonEqual(c, expected, actual); }
    var e, a := c.unmarshal(c.marshal(expected)), c.unmarshal(actual);
    if e.None? || a.None? { return false; }
    var e' := DeleteKeys(e.value, mapKeys);
    var a' := DeleteKeys(a.value, mapKeys);
    e' := DeleteElementKeys(e', elementKeys);
    a' := DeleteElementKeys(a', elementKeys);
    return e' == a';
  }

  function FieldValuesEqual(c: Codec, expected: Json, actual: string, mapKeys: seq<string>,
                            elementKeys: seq<string>): bool {
    if mapKeys == [] && elementKeys == [] then JsonEqual(c, expected, actual)
    else
      var e, a := c.unmarshal(c.marshal(expected)), c.unmarshal(actual);
      e.Some? && a.Some? && Stripped(e.value, mapKeys, elementKeys) == Stripped(a.value, mapKeys, elementKeys)
  }
}
