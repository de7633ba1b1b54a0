/** JSON values and the merge-patch semantics the API server applies to the patches
    the runner sends: section 2 of RFC 7386 (the same text is section 2 of RFC 7396). */
module Json {

  datatype Option<+T> = None | Some(value: T)
  datatype Result<+T, +E> = Ok(value: T) | Err(error: E)

  datatype Json =
    | Null
    | Bool(b: bool)
    | Number(n: real)
    | String(s: string)
    | List(items: seq<Json>)
    | Object(members: map<string, Json>)

  type Path = seq<string>

  function Members(v: Json): map<string, Json> { if v.Object? then v.members else map[] }

  /** The member's value, Null standing for RFC 7386's undefined target (both are
      non-objects, which is all the merge asks of a target). */
  function MemberOr(m: map<string, Json>, k: string): Json { if k in m then m[k] else Null }

  /** MergePatch(Target, Patch) of RFC 7386, section 2. */
  function MergePatch(target: Json, patch: Json): Json
    decreases patch
  {
    if !patch.Object? then patch
    else
      var base := Members(target);
      Object(map k | k in base.Keys + patch.members.Keys && !(k in patch.members && patch.members[k].Null?) ::
               if k in patch.members then MergePatch(MemberOr(base, k), patch.members[k]) else base[k])
  }

  /** Navigation by segments; None as soon as a segment is missing or its parent is
      not an object. */
  function Get(v: Json, path: Path): Option<Json> {
    if path == [] then Some(v)
    else if v.Object? && path[0] in v.members then Get(v.members[path[0]], path[1..])
    else None
  }

  /** `value` wrapped outward in one single-member object per segment. */
  function Nest(path: Path, value: Json): Json {
    if path == [] then value else Object(map[path[0] := Nest(path[1..], value)])
  }

  lemma {:induction false} GetAppend(v: Json, p: Path, q: Path)
    ensures Get(v, p + q) == (if Get(v, p).None? then None else Get(Get(v, p).value, q))
  {
    if p == [] {
      assert p + q == q;
    } else {
      assert (p + q)[1..] == p[1..] + q;
      if v.Object? && p[0] in v.members { GetAppend(v.members[p[0]], p[1..], q); }
    }
  }

  /** What stands at an object patch's member after the merge. */
  lemma GetMergedMember(target: Json, patch: Json, k: string, rest: Path)
    requires patch.Object?
    ensures Get(MergePatch(target, patch), [k] + rest) ==
            if k !in patch.members then Get(target, [k] + rest)
            else if patch.members[k].Null? then None
            else Get(MergePatch(MemberOr(Members(target), k), patch.members[k]), rest)
  {
    assert ([k] + rest)[1..] == rest;
  }

  /** Reading back along the path a nested patch wrote: a null removes, anything else
      merges with what was there. */
  lemma {:induction false} GetMergedNest(target: Json, path: Path, value: Json)
    requires path != []
    ensures Get(MergePatch(target, Nest(path, value)), path) ==
            if value.Null? then None
            else Some(MergePatch(if Get(target, path).Some? then Get(target, path).value else Null, value))
    decreases path
  {
    var patch := Nest(path, value);
    assert path == [path[0]] + path[1..];
    GetMergedMember(target, patch, path[0], path[1..]);
    if |path| > 1 {
      var sub := MemberOr(Members(target), path[0]);
      GetMergedNest(sub, path[1..], value);
    } else {
      assert path[1..] == [];
    }
  }

  /** No null reachable through objects (a list is replaced wholesale, so nulls inside
      one never act as removals). */
  predicate NullFree(v: Json) {
    !v.Null? && (v.Object? ==> forall k | k in v.members :: NullFree(v.members[k]))
  }

  /** Merging a value into itself changes nothing exactly when it holds no null
      that the merge would read as a removal. */
  lemma {:induction false} MergeSelf(v: Json)
    ensures MergePatch(v, v) == v <==> v.Null? || NullFree(v)
  {
    if v.Object? {
      forall k | k in v.members
        ensures var m := v.members[k]; m.Null? || (MergePatch(m, m) == m <==> NullFree(m))
      {
        MergeSelf(v.members[k]);
      }
      var r := MergePatch(v, v).members;
      if NullFree(v) {
        forall k | k in v.members ensures k in r && r[k] == v.members[k] { assert NullFree(v.members[k]); }
        assert r == v.members;
      } else {
        var k :| k in v.members && !NullFree(v.members[k]);
        assert k !in r || r[k] != v.members[k];
      }
    }
  }

  /** Repeating the value already at a path is the identity patch. */
  lemma {:induction false} MergeRepeats(target: Json, path: Path, value: Json)
    requires Get(target, path) == Some(value) && NullFree(value)
    ensures MergePatch(target, Nest(path, value)) == target
  {
    if path == [] {
      MergeSelf(value);
    } else {
      MergeRepeats(target.members[path[0]], path[1..], value);
      HeadNotNull(target.members[path[0]], path[1..], value);
      var patch := Nest(path, value);
      assert !patch.members[path[0]].Null?;
      assert MergePatch(target, patch).members == target.members;
    }
  }

  lemma HeadNotNull(v: Json, path: Path, value: Json)
    requires Get(v, path) == Some(value) && !value.Null?
    ensures !v.Null?
  { }
}
