/** The axes a coverage cell is keyed by (internal/roundtrip/cell.go) and the string
    identities rotation state is persisted under (internal/roundtrip/rotation.go). */
module Cells {
  import opened Text

  datatype Classification =
    | Equal | ValueChanged | PresentInSpecAbsentFromMirror | DefaultedByServer | PresentInMirrorAbsentFromSpec
    | NotApplicable
  {
    /** The class as the code spells it; the two long names are joined from pieces to keep
        each literal short. */
    function Text(): string {
      match this
      case Equal => "equal"
      case ValueChanged => "value-changed"
      case PresentInSpecAbsentFromMirror => "present-in-" + "spec" + "-absent-" + "from-" + "mirror"
      case DefaultedByServer => "defaulted" + "-by-server"
      case PresentInMirrorAbsentFromSpec => "present-in-" + "mirror" + "-absent-" + "from-" + "spec"
      case NotApplicable => "n/a"
    }
  }

  datatype Shape = ShapeScalar | ShapeList | ShapeMap {
    function Text(): string { match this case ShapeScalar => "scalar" case ShapeList => "list" case ShapeMap => "map" }
  }

  datatype Direction = DirectionSet | DirectionClear {
    function Text(): string { match this case DirectionSet => "set" case DirectionClear => "clear" }
  }

  datatype Depth = DepthNone | DepthTop | DepthNested {
    function Text(): string { match this case DepthNone => "" case DepthTop => "top" case DepthNested => "nested" }
  }

  datatype CellKey = CellKey(classification: Classification, shape: Shape, direction: Direction, depth: Depth) {
    function Parts(): (r: seq<string>)
      ensures |r| == 4
    { [classification.Text(), shape.Text(), direction.Text(), depth.Text()] }

    function Text(): string { Join(Parts(), '|') }
  }

  /** A rotation cursor's key: the manifest scope, a NUL, and the cell. */
  function StateKey(scope: string, key: CellKey): string { scope + "\0" + key.Text() }

  predicate Plain(p: string) { '|' !in p && '\0' !in p }

  lemma ClassificationPlain(c: Classification)
    ensures Plain(c.Text())
  {
    assert Plain("present-in-");
    assert Plain("-absent-") && Plain("from-");
    assert Plain("mirror") && Plain("spec");
    match c
    case Equal =>
    case ValueChanged =>
    case PresentInSpecAbsentFromMirror =>
    case DefaultedByServer =>
    case PresentInMirrorAbsentFromSpec =>
    case NotApplicable =>
  }

  lemma PartsPlain(key: CellKey)
    ensures forall p | p in key.Parts() :: '|' !in p && '\0' !in p
  {
    ClassificationPlain(key.classification);
    assert Plain(key.shape.Text());
    assert Plain(key.direction.Text());
    assert Plain(key.depth.Text());
  }

  lemma PartsIdentify(a: CellKey, b: CellKey)
    requires a.Parts() == b.Parts()
    ensures a == b
  {
    var p, q := a.Parts(), b.Parts();
    assert p[0] == q[0] && p[1] == q[1] && p[2] == q[2] && p[3] == q[3];
    FirstCharsDiffer(a.classification, b.classification);
    assert |a.shape.Text()| == |b.shape.Text()|;
    assert a.shape.Text() == b.shape.Text() ==> a.shape == b.shape;
    assert |a.depth.Text()| == |b.depth.Text()|;
    assert |a.direction.Text()| == |b.direction.Text()|;
  }

  lemma FirstCharsDiffer(a: Classification, b: Classification)
    requires a.Text() == b.Text()
    ensures a == b
  {
    assert |a.Text()| == |b.Text()|;
    if a.PresentInSpecAbsentFromMirror? || a.PresentInMirrorAbsentFromSpec? {
      assert a.Text()[11] == b.Text()[11];
    }
  }

  lemma KeyTextIdentifies(a: CellKey, b: CellKey)
    requires a.Text() == b.Text()
    ensures a == b
  {
    PartsPlain(a); PartsPlain(b);
    SplitJoin(a.Parts(), '|'); SplitJoin(b.Parts(), '|');
    PartsIdentify(a, b);
  }

  lemma {:induction false} JoinAvoids(parts: seq<string>, sep: char, c: char)
    requires c != sep && forall p | p in parts :: c !in p
    ensures c !in Join(parts, sep)
  {
    if |parts| > 1 { JoinAvoids(parts[1..], sep, c); }
  }

  lemma ScopeNotLonger(scope: string, k: string, scope': string, k': string)
    requires scope + "\0" + k == scope' + "\0" + k' && '\0' !in k
    ensures |scope'| <= |scope|
  {
    var s := scope + "\0" + k;
    assert forall i | |scope| < i < |s| :: s[i] == k[i - |scope| - 1] != '\0';
    assert s[|scope'|] == '\0';
  }

  /** Two (scope, cell) pairs never share persisted state, whatever the scopes hold. */
  lemma StateKeyInjective(scope: string, key: CellKey, scope': string, key': CellKey)
    requires StateKey(scope, key) == StateKey(scope', key')
    ensures scope == scope' && key == key'
  {
    PartsPlain(key); PartsPlain(key');
    JoinAvoids(key.Parts(), '|', '\0'); JoinAvoids(key'.Parts(), '|', '\0');
    ScopeNotLonger(scope, key.Text(), scope', key'.Text());
    ScopeNotLonger(scope', key'.Text(), scope, key.Text());
    var s := StateKey(scope, key);
    assert scope == s[..|scope|] == scope';
    assert key.Text() == s[|scope| + 1..] == key'.Text();
    KeyTextIdentifies(key, key');
  }
}
