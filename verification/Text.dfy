/** Go string and slice handling the tool relies on: the byte-wise string order,
    sort.Slice by a string key, filtering, strings.Split, strings.Join and
    strings.HasPrefix. */
module Text {

  // ---------- ordering ----------

  /** Go's `<=` on strings: lexicographic by code unit. */
  predicate LexLeq(a: string, b: string) {
    a == [] || (b != [] && (a[0] < b[0] || (a[0] == b[0] && LexLeq(a[1..], b[1..]))))
  }

  lemma {:induction false} LexTotal(a: string, b: string)
    ensures LexLeq(a, b) || LexLeq(b, a)
  {
    if a != [] && b != [] { LexTotal(a[1..], b[1..]); }
  }

  lemma {:induction false} LexAntisymmetric(a: string, b: string)
    requires LexLeq(a, b) && LexLeq(b, a)
    ensures a == b
  {
    if a != [] && b != [] {
      LexAntisymmetric(a[1..], b[1..]);
      assert a == [a[0]] + a[1..] && b == [b[0]] + b[1..];
    }
  }

  lemma {:induction false} LexTransitive(a: string, b: string, c: string)
    requires LexLeq(a, b) && LexLeq(b, c)
    ensures LexLeq(a, c)
  {
    if a != [] && b != [] && c != [] && a[0] == b[0] == c[0] { LexTransitive(a[1..], b[1..], c[1..]); }
  }

  // ---------- sorting by a string key ----------

  /** Each element's key is at most every later one's. */
  ghost predicate SortedBy<T>(xs: seq<T>, key: T -> string) {
    xs == [] || ((forall y | y in xs :: LexLeq(key(xs[0]), key(y))) && SortedBy(xs[1..], key))
  }

  /** No two different elements share a key. */
  ghost predicate KeysIdentify<T>(xs: seq<T>, key: T -> string) {
    forall y, z | y in xs && z in xs && key(y) == key(z) :: y == z
  }

  function InsertBy<T>(x: T, xs: seq<T>, key: T -> string): seq<T> {
    if xs == [] then [x]
    else if LexLeq(key(x), key(xs[0])) then [x] + xs
    else [xs[0]] + InsertBy(x, xs[1..], key)
  }

  /** sort.Slice and sort.Strings. */
  function SortBy<T>(xs: seq<T>, key: T -> string): seq<T> {
    if xs == [] then [] else InsertBy(xs[0], SortBy(xs[1..], key), key)
  }

  lemma {:induction false} InsertIsPermutation<T>(x: T, xs: seq<T>, key: T -> string)
    ensures multiset(InsertBy(x, xs, key)) == multiset([x] + xs)
  {
    if xs != [] && !LexLeq(key(x), key(xs[0])) {
      InsertIsPermutation(x, xs[1..], key);
      assert xs == [xs[0]] + xs[1..];
    }
  }

  lemma {:induction false} SortIsPermutation<T>(xs: seq<T>, key: T -> string)
    ensures multiset(SortBy(xs, key)) == multiset(xs)
    ensures |SortBy(xs, key)| == |xs|
    ensures forall x :: x in SortBy(xs, key) <==> x in xs
  {
    if xs == [] {
    } else {
      SortIsPermutation(xs[1..], key);
      InsertIsPermutation(xs[0], SortBy(xs[1..], key), key);
      assert xs == [xs[0]] + xs[1..];
    }
    assert |SortBy(xs, key)| == |multiset(SortBy(xs, key))| == |multiset(xs)| == |xs|;
    assert forall x :: x in SortBy(xs, key) <==> x in multiset(SortBy(xs, key));
  }

  lemma {:induction false} InsertKeepsSorted<T>(x: T, xs: seq<T>, key: T -> string)
    requires SortedBy(xs, key)
    ensures SortedBy(InsertBy(x, xs, key), key)
  {
    var r := InsertBy(x, xs, key);
    LexTotal(key(x), key(x));
    if xs == [] {
      assert r[1..] == [];
    } else if LexLeq(key(x), key(xs[0])) {
      assert r[1..] == xs;
      forall y | y in r ensures LexLeq(key(x), key(y)) {
        if y in xs { LexTransitive(key(x), key(xs[0]), key(y)); }
      }
    } else {
      InsertKeepsSorted(x, xs[1..], key);
      var rest := InsertBy(x, xs[1..], key);
      assert r[1..] == rest;
      InsertIsPermutation(x, xs[1..], key);
      LexTotal(key(x), key(xs[0]));
      forall y | y in r ensures LexLeq(key(xs[0]), key(y)) {
        if y != xs[0] { assert y in multiset(rest); assert y in [x] + xs[1..]; }
      }
    }
  }

  lemma {:induction false} SortSorts<T>(xs: seq<T>, key: T -> string)
    ensures SortedBy(SortBy(xs, key), key)
  {
    if xs == [] {
    } else {
      SortSorts(xs[1..], key);
      InsertKeepsSorted(xs[0], SortBy(xs[1..], key), key);
    }
  }

  lemma SameMembers<T>(xs: seq<T>, ys: seq<T>, x: T)
    requires multiset(xs) == multiset(ys)
    ensures x in xs <==> x in ys
  {
    assert x in xs <==> x in multiset(xs);
    assert x in ys <==> x in multiset(ys);
  }

  lemma SameTails<T>(xs: seq<T>, ys: seq<T>)
    requires multiset(xs) == multiset(ys) && xs != [] && ys != [] && xs[0] == ys[0]
    ensures multiset(xs[1..]) == multiset(ys[1..])
  {
    assert xs == [xs[0]] + xs[1..] && ys == [ys[0]] + ys[1..];
    assert multiset(xs) == multiset{xs[0]} + multiset(xs[1..]);
    assert multiset(ys) == multiset{xs[0]} + multiset(ys[1..]);
    assert multiset(xs[1..]) == multiset(xs) - multiset{xs[0]};
  }

  /** Equal contents under identifying keys have exactly one sorted arrangement, so
      neither map order nor sort.Slice's instability can show in the result. */
  lemma {:induction false} SortedUnique<T>(xs: seq<T>, ys: seq<T>, key: T -> string)
    requires SortedBy(xs, key) && SortedBy(ys, key) && KeysIdentify(xs, key)
    requires multiset(xs) == multiset(ys)
    ensures xs == ys
  {
    if xs == [] || ys == [] {
      assert |xs| == |multiset(xs)| == |multiset(ys)| == |ys|;
    } else {
      var x, y := xs[0], ys[0];
      assert x == y by {
        SameMembers(xs, ys, x); SameMembers(xs, ys, y);
        LexAntisymmetric(key(x), key(y));
      }
      SameTails(xs, ys);
      SortedUnique(xs[1..], ys[1..], key);
      assert xs == [x] + xs[1..] && ys == [y] + ys[1..];
    }
  }

  /** Sorting forgets the input order. */
  lemma SortIgnoresOrder<T>(xs: seq<T>, ys: seq<T>, key: T -> string)
    requires multiset(xs) == multiset(ys) && KeysIdentify(xs, key)
    ensures SortBy(xs, key) == SortBy(ys, key)
  {
    var a, b := SortBy(xs, key), SortBy(ys, key);
    assert multiset(a) == multiset(b) && KeysIdentify(a, key) by {
      SortIsPermutation(xs, key); SortIsPermutation(ys, key);
    }
    assert SortedBy(a, key) by { SortSorts(xs, key); }
    assert SortedBy(b, key) by { SortSorts(ys, key); }
    SortedUnique(a, b, key);
  }

  function KeysOf<T>(xs: seq<T>, key: T -> string): (r: seq<string>)
    ensures |r| == |xs| && forall i :: 0 <= i < |xs| ==> r[i] == key(xs[i])
  { seq(|xs|, i requires 0 <= i < |xs| => key(xs[i])) }

  lemma KeysCons<T>(x: T, xs: seq<T>, key: T -> string)
    ensures KeysOf([x] + xs, key) == [key(x)] + KeysOf(xs, key)
  { }

  lemma KeysAppend<T>(xs: seq<T>, ys: seq<T>, key: T -> string)
    ensures KeysOf(xs + ys, key) == KeysOf(xs, key) + KeysOf(ys, key)
  { }

  /** Sorting by a key sorts the keys. */
  lemma {:induction false} KeysSort<T>(xs: seq<T>, key: T -> string)
    ensures KeysOf(SortBy(xs, key), key) == SortBy(KeysOf(xs, key), Same)
  {
    if xs == [] {
    } else {
      KeysSort(xs[1..], key);
      assert KeysOf(xs, key)[1..] == KeysOf(xs[1..], key);
      KeysInsert(xs[0], SortBy(xs[1..], key), key);
    }
  }

  lemma {:induction false} KeysInsert<T>(x: T, xs: seq<T>, key: T -> string)
    ensures KeysOf(InsertBy(x, xs, key), key) == InsertBy(key(x), KeysOf(xs, key), Same)
  {
    if xs == [] {
    } else {
      var y, rest := xs[0], xs[1..];
      assert xs == [y] + rest;
      KeysCons(y, rest, key);
      if LexLeq(key(x), key(y)) {
        KeysCons(x, xs, key);
      } else {
        KeysInsert(x, rest, key);
        KeysCons(y, InsertBy(x, rest, key), key);
        assert KeysOf(xs, key)[1..] == KeysOf(rest, key);
      }
    }
  }

  function Same(s: string): string { s }

  function SortStrings(xs: seq<string>): seq<string> { SortBy(xs, Same) }

  // ---------- map keys in sorted order ----------

  predicate NoDuplicates<T(==)>(xs: seq<T>) {
    xs == [] || (xs[0] !in xs[1..] && NoDuplicates(xs[1..]))
  }

  lemma {:induction false} DuplicateFreeIsSet<T>(xs: seq<T>)
    requires NoDuplicates(xs)
    ensures multiset(xs) == multiset(set x | x in xs)
    ensures |xs| == |set x | x in xs|
  {
    if xs == [] {
    } else {
      var rest := set x | x in xs[1..];
      assert xs == [xs[0]] + xs[1..];
      assert (set x | x in xs) == {xs[0]} + rest;
      DuplicateFreeIsSet(xs[1..]);
    }
  }

  lemma {:induction false} FreeHasNoDuplicates<T>(xs: seq<T>)
    requires forall x :: multiset(xs)[x] <= 1
    ensures NoDuplicates(xs)
  {
    if xs == [] {
    } else {
      assert xs == [xs[0]] + xs[1..];
      assert multiset(xs) == multiset{xs[0]} + multiset(xs[1..]);
      assert multiset(xs)[xs[0]] <= 1;
      forall x ensures multiset(xs[1..])[x] <= 1 { assert multiset(xs)[x] <= 1; }
      FreeHasNoDuplicates(xs[1..]);
    }
  }

  lemma {:induction false} OneMoreIsFree<T>(xs: seq<T>, x: T)
    requires NoDuplicates(xs) && x !in xs
    ensures NoDuplicates(xs + [x])
  {
    if xs == [] {
      assert (xs + [x])[1..] == [];
    } else {
      assert (xs + [x])[1..] == xs[1..] + [x];
      OneMoreIsFree(xs[1..], x);
    }
  }

  lemma {:induction false} InitNoDuplicates<T>(xs: seq<T>)
    requires NoDuplicates(xs) && xs != []
    ensures NoDuplicates(xs[..|xs| - 1]) && xs[|xs| - 1] !in xs[..|xs| - 1]
  {
    var n := |xs| - 1;
    if n == 0 {
    } else {
      InitNoDuplicates(xs[1..]);
      assert xs[..n][1..] == xs[1..][..n - 1];
      assert xs[..n] == [xs[0]] + xs[1..n];
      assert xs[n] in xs[1..];
    }
  }

  lemma {:induction false} DistinctIndices<T>(xs: seq<T>)
    requires NoDuplicates(xs)
    ensures forall i, j :: 0 <= i < j < |xs| ==> xs[i] != xs[j]
  {
    if xs == [] {
    } else {
      DistinctIndices(xs[1..]);
      forall i, j | 0 <= i < j < |xs| ensures xs[i] != xs[j] {
        assert xs[j] == xs[1..][j - 1];
        if i > 0 { assert xs[i] == xs[1..][i - 1]; }
      }
    }
  }

  lemma SortedStayDistinct<T>(xs: seq<T>, key: T -> string)
    requires NoDuplicates(KeysOf(xs, key))
    ensures NoDuplicates(KeysOf(SortBy(xs, key), key))
    ensures var ks := KeysOf(SortBy(xs, key), key); forall i, j :: 0 <= i < j < |ks| ==> ks[i] != ks[j]
  {
    KeysSort(xs, key);
    SortIsPermutation(KeysOf(xs, key), Same);
    DuplicateFreeIsSet(KeysOf(xs, key));
    FreeHasNoDuplicates(KeysOf(SortBy(xs, key), key));
    DistinctIndices(KeysOf(SortBy(xs, key), key));
  }

  /** Some enumeration of a finite set: Go's unspecified map iteration order. */
  ghost function Enumerate<T>(s: set<T>): (r: seq<T>)
    ensures NoDuplicates(r) && (set x | x in r) == s
  {
    if s == {} then []
    else
      var x :| x in s;
      var rest := Enumerate(s - {x});
      assert forall y | y in rest :: y in (set z | z in rest);
      var r := [x] + rest;
      assert (set y | y in r) == {x} + (set y | y in rest);
      assert r[1..] == rest;
      r
  }

  /** The keys of a Go map after sort.Strings. */
  ghost function SortedKeys(s: set<string>): seq<string> { SortStrings(Enumerate(s)) }

  /** Whatever order the keys were gathered in, sorting gives SortedKeys. */
  lemma GatheredKeysSort(gathered: seq<string>, s: set<string>)
    requires NoDuplicates(gathered) && forall x :: x in gathered <==> x in s
    ensures SortStrings(gathered) == SortedKeys(s)
  {
    DuplicateFreeIsSet(gathered);
    DuplicateFreeIsSet(Enumerate(s));
    assert (set x | x in gathered) == s == (set x | x in Enumerate(s));
    SortIgnoresOrder(gathered, Enumerate(s), Same);
  }

  lemma SortedKeysMembers(s: set<string>)
    ensures forall x :: x in SortedKeys(s) <==> x in s
  {
    SortIsPermutation(Enumerate(s), Same);
  }

  // ---------- filtering ----------

  function Select<T>(xs: seq<T>, p: T -> bool): seq<T> {
    if xs == [] then [] else (if p(xs[0]) then [xs[0]] else []) + Select(xs[1..], p)
  }

  lemma {:induction false} SelectMembers<T>(xs: seq<T>, p: T -> bool, x: T)
    ensures x in Select(xs, p) <==> x in xs && p(x)
    ensures multiset(Select(xs, p))[x] == (if p(x) then multiset(xs)[x] else 0)
  {
    if xs == [] {
    } else {
      SelectMembers(xs[1..], p, x);
      assert xs == [xs[0]] + xs[1..];
    }
  }

  lemma {:induction false} SelectAppend<T>(xs: seq<T>, y: T, p: T -> bool)
    ensures Select(xs + [y], p) == Select(xs, p) + (if p(y) then [y] else [])
  {
    if xs == [] {
      assert xs + [y] == [y] && [y][1..] == [];
    } else {
      assert (xs + [y])[1..] == xs[1..] + [y];
      SelectAppend(xs[1..], y, p);
    }
  }

  lemma {:induction false} SelectConcat<T>(xs: seq<T>, ys: seq<T>, p: T -> bool)
    ensures Select(xs + ys, p) == Select(xs, p) + Select(ys, p)
  {
    if xs == [] {
      assert xs + ys == ys;
    } else {
      var own := if p(xs[0]) then [xs[0]] else [];
      assert (xs + ys)[1..] == xs[1..] + ys;
      SelectConcat(xs[1..], ys, p);
      assert Select(xs + ys, p) == own + (Select(xs[1..], p) + Select(ys, p));
      assert Select(xs, p) == own + Select(xs[1..], p);
    }
  }

  lemma {:induction false} SelectPermutes<T>(xs: seq<T>, ys: seq<T>, p: T -> bool)
    requires multiset(xs) == multiset(ys)
    ensures multiset(Select(xs, p)) == multiset(Select(ys, p))
    ensures |Select(xs, p)| == |Select(ys, p)|
  {
    if xs == [] {
      assert |ys| == |multiset(ys)| == 0;
    } else {
      var x := xs[0];
      SameMembers(xs, ys, x);
      var j :| 0 <= j < |ys| && ys[j] == x;
      var u, v := ys[..j], ys[j+1..];
      SameWithout(xs, ys, j);
      SelectPermutes(xs[1..], u + v, p);
      SelectWithout(ys, j, p);
      SelectWithout(xs, 0, p);
      assert xs[..0] + xs[1..] == xs[1..];
    }
  }

  lemma SelectWithout<T>(ys: seq<T>, j: nat, p: T -> bool)
    requires j < |ys|
    ensures multiset(Select(ys, p))
      == multiset(Select(ys[..j] + ys[j+1..], p)) + (if p(ys[j]) then multiset{ys[j]} else multiset{})
    ensures |Select(ys, p)| == |Select(ys[..j] + ys[j+1..], p)| + (if p(ys[j]) then 1 else 0)
  {
    var u, v := ys[..j], ys[j+1..];
    assert ys == u + ([ys[j]] + v);
    SelectConcat(u, v, p);
    SelectConcat(u, [ys[j]] + v, p);
    assert ([ys[j]] + v)[1..] == v;
  }

  lemma RemoveAt<T>(ys: seq<T>, j: nat)
    requires j < |ys|
    ensures multiset(ys[..j] + ys[j+1..]) == multiset(ys) - multiset{ys[j]}
  {
    var u, v := ys[..j], ys[j+1..];
    assert ys == u + [ys[j]] + v;
    assert multiset(u + [ys[j]] + v) == multiset(u) + multiset{ys[j]} + multiset(v);
    assert multiset(u + v) == multiset(u) + multiset(v);
  }

  lemma SameWithout<T>(xs: seq<T>, ys: seq<T>, j: nat)
    requires multiset(xs) == multiset(ys) && xs != [] && j < |ys| && ys[j] == xs[0]
    ensures multiset(xs[1..]) == multiset(ys[..j] + ys[j+1..])
  {
    RemoveAt(xs, 0);
    RemoveAt(ys, j);
    assert xs[..0] + xs[1..] == xs[1..];
  }

  // ---------- Split and Join on a one-character separator ----------

  /** strings.Split(s, sep): always at least one, separator-free, piece. */
  function Split(s: string, sep: char): (r: seq<string>)
    ensures |r| >= 1
  {
    if s == [] then [[]]
    else
      var rest := Split(s[1..], sep);
      if s[0] == sep then [[]] + rest else [[s[0]] + rest[0]] + rest[1..]
  }

  /** strings.Join(parts, sep). */
  function Join(parts: seq<string>, sep: char): string {
    if parts == [] then [] else if |parts| == 1 then parts[0]
    else parts[0] + [sep] + Join(parts[1..], sep)
  }

  lemma {:induction false} JoinSplit(s: string, sep: char)
    ensures Join(Split(s, sep), sep) == s
    ensures forall p | p in Split(s, sep) :: sep !in p
  {
    if s == [] {
    } else {
      JoinSplit(s[1..], sep);
      var rest := Split(s[1..], sep);
      if s[0] == sep {
        assert ([[]] + rest)[1..] == rest;
      } else {
        var r := [[s[0]] + rest[0]] + rest[1..];
        assert r[1..] == rest[1..];
        assert rest == [rest[0]] + rest[1..];
      }
      assert s == [s[0]] + s[1..];
    }
  }

  lemma {:induction false} SplitUndotted(p: string, sep: char)
    requires sep !in p
    ensures Split(p, sep) == [p]
  {
    if p == [] {
    } else {
      SplitUndotted(p[1..], sep);
      assert p == [p[0]] + p[1..];
      assert p[0] != sep;
    }
  }

  lemma {:induction false} SplitPiece(p: string, rest: string, sep: char)
    requires sep !in p
    ensures Split(p + [sep] + rest, sep) == [p] + Split(rest, sep)
  {
    var s := p + [sep] + rest;
    if p == [] {
      assert s[1..] == rest;
    } else {
      assert s[1..] == p[1..] + [sep] + rest && s[0] == p[0] != sep;
      SplitPiece(p[1..], rest, sep);
      assert p == [p[0]] + p[1..];
    }
  }

  lemma {:induction false} SplitJoin(parts: seq<string>, sep: char)
    requires parts != [] && forall p | p in parts :: sep !in p
    ensures Split(Join(parts, sep), sep) == parts
  {
    if |parts| == 1 {
      SplitUndotted(parts[0], sep);
    } else {
      SplitJoin(parts[1..], sep);
      SplitPiece(parts[0], Join(parts[1..], sep), sep);
      assert Join(parts, sep) == parts[0] + [sep] + Join(parts[1..], sep);
    }
  }

  lemma SplitInjective(a: string, b: string, sep: char)
    requires Split(a, sep) == Split(b, sep)
    ensures a == b
  {
    JoinSplit(a, sep); JoinSplit(b, sep);
  }

  lemma {:induction false} JoinAppend(a: seq<string>, b: seq<string>, sep: char)
    requires a != [] && b != []
    ensures Join(a + b, sep) == Join(a, sep) + [sep] + Join(b, sep)
  {
    if |a| == 1 {
      assert (a + b)[1..] == b;
    } else {
      assert (a + b)[1..] == a[1..] + b;
      JoinAppend(a[1..], b, sep);
    }
  }

  lemma {:induction false} SplitAppend(a: string, b: string, sep: char)
    ensures Split(a + [sep] + b, sep) == Split(a, sep) + Split(b, sep)
  {
    JoinSplit(a, sep); JoinSplit(b, sep);
    var parts := Split(a, sep) + Split(b, sep);
    JoinAppend(Split(a, sep), Split(b, sep), sep);
    SplitJoin(parts, sep);
  }

  /** strings.HasPrefix(s, p). */
  predicate HasPrefix(s: string, p: string) { |p| <= |s| && s[..|p|] == p }

  // ---------- dotted paths ----------

  /** A dotted path's segments. */
  function Segments(path: string): (r: seq<string>)
    ensures |r| >= 1
  { Split(path, '.') }

  predicate Undotted(s: string) { '.' !in s }

  lemma UndottedSegment(s: string)
    requires Undotted(s)
    ensures Segments(s) == [s]
  { SplitUndotted(s, '.'); }

  /** clear_assert.go's isAncestorOf: a textual test for `ancestor + "."`. */
  predicate IsAncestorOf(ancestor: string, leaf: string) { HasPrefix(leaf, ancestor + ".") }

  /** containerclear.go's view of the same thing: a proper prefix of the segments. */
  predicate ProperSegmentPrefix(ancestor: string, leaf: string) {
    |Segments(ancestor)| < |Segments(leaf)| && Segments(ancestor) == Segments(leaf)[..|Segments(ancestor)|]
  }

  lemma DescendantsAreDotted(ancestor: string, leaf: string)
    ensures IsAncestorOf(ancestor, leaf) ==> !Undotted(leaf)
  {
    if IsAncestorOf(ancestor, leaf) { assert leaf[|ancestor|] == (ancestor + ".")[|ancestor|]; }
  }

  /** The textual and the segment-wise ancestor tests agree on every pair of paths. */
  lemma AncestorTestsAgree(ancestor: string, leaf: string)
    ensures IsAncestorOf(ancestor, leaf) <==> ProperSegmentPrefix(ancestor, leaf)
  {
    var a, l := Segments(ancestor), Segments(leaf);
    if IsAncestorOf(ancestor, leaf) {
      var rest := leaf[|ancestor| + 1..];
      assert leaf == ancestor + "." + rest;
      SplitAppend(ancestor, rest, '.');
      assert l == a + Split(rest, '.');
    }
    if ProperSegmentPrefix(ancestor, leaf) {
      JoinSplit(ancestor, '.'); JoinSplit(leaf, '.');
      assert l == a + l[|a|..];
      JoinAppend(a, l[|a|..], '.');
      assert leaf == ancestor + "." + Join(l[|a|..], '.');
    }
  }
}
