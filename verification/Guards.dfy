/** How internal/roundtrip/ineligible.go reads a guarded CEL rule: splitTopLevelOr cuts
    the rule into its top-level disjuncts, evalGuardDisjunct decides the recognised ones
    on the manifest and sizeGuardRule reports whether, and under which condition, the
    rule forbids an empty list. */
module Guards {
  import opened Json
  import opened Text

  // ---------- strings.TrimSpace ----------

  predicate IsSpace(c: char) {
    c in {' ', '\t', '\n', '\r', '\U{000B}', '\U{000C}', '\U{0085}', '\U{00A0}', '\U{1680}', '\U{2028}', '\U{2029}',
          '\U{202F}', '\U{205F}', '\U{3000}'} || '\U{2000}' <= c <= '\U{200A}'
  }

  function TrimLeft(s: string): string { if s != "" && IsSpace(s[0]) then TrimLeft(s[1..]) else s }
  function TrimRight(s: string): string { if s != "" && IsSpace(s[|s| - 1]) then TrimRight(s[..|s| - 1]) else s }
  function Trim(s: string): string { TrimRight(TrimLeft(s)) }

  function TrimAll(ps: seq<string>): (r: seq<string>)
    ensures |r| == |ps|
  {
    if ps == [] then [] else [Trim(ps[0])] + TrimAll(ps[1..])
  }

  predicate Trimmed(s: string) { s != "" ==> !IsSpace(s[0]) && !IsSpace(s[|s| - 1]) }

  lemma {:induction false} LeftPadding(s: string) returns (pad: string)
    ensures s == pad + TrimLeft(s) && forall c | c in pad :: IsSpace(c)
    ensures TrimLeft(s) != "" ==> !IsSpace(TrimLeft(s)[0])
  {
    if s != "" && IsSpace(s[0]) {
      var rest := LeftPadding(s[1..]);
      pad := [s[0]] + rest;
      assert s == [s[0]] + s[1..];
    } else {
      pad := "";
    }
  }

  lemma {:induction false} RightPadding(s: string) returns (pad: string)
    ensures s == TrimRight(s) + pad && forall c | c in pad :: IsSpace(c)
    ensures TrimRight(s) != "" ==> TrimRight(s)[0] == s[0] && !IsSpace(TrimRight(s)[|TrimRight(s)| - 1])
  {
    var n := |s| - 1;
    if s != "" && IsSpace(s[n]) {
      var rest := RightPadding(s[..n]);
      pad := rest + [s[n]];
      assert s == s[..n] + [s[n]];
    } else {
      pad := "";
    }
  }

  /** Trimming takes space off both ends and leaves none there. */
  lemma TrimMeans(s: string) returns (lead: string, trail: string)
    ensures s == lead + Trim(s) + trail && Trimmed(Trim(s))
    ensures forall c | c in lead + trail :: IsSpace(c)
  {
    lead := LeftPadding(s);
    trail := RightPadding(TrimLeft(s));
  }

  lemma TrimPadded(lead: string, d: string, trail: string)
    requires Trimmed(d) && lead in {"", " "} && trail in {"", " "}
    ensures Trim(lead + d + trail) == d
  {
    var s := d + trail;
    assert lead == " " ==> (lead + d + trail)[1..] == s;
    assert lead == "" ==> lead + d + trail == s;
    assert TrimLeft(lead + d + trail) == TrimLeft(s);
    if d == "" {
      assert trail == " " ==> s[1..] == "";
      assert TrimLeft(s) == "";
    } else {
      assert s[0] == d[0] && TrimLeft(s) == s;
      assert TrimRight(d) == d;
      assert trail == " " ==> s[..|s| - 1] == d && TrimRight(s) == TrimRight(d);
      assert trail == "" ==> s == d;
    }
  }

  // ---------- splitTopLevelOr ----------

  /** Bracket depth and the quote the scan is inside, if any. */
  datatype Scan = Scan(depth: int, quote: Option<char>) {
    predicate Top() { depth == 0 && quote.None? }

    function Step(c: char): Scan {
      if quote.Some? then (if c == quote.value then Scan(depth, None) else this)
      else if c == '\'' || c == '"' then Scan(depth, Some(c))
      else if c == '(' || c == '[' then Scan(depth + 1, None)
      else if c == ')' || c == ']' then Scan(depth - 1, None)
      else this
    }

    function Run(s: string): Scan
      decreases |s|
    {
      if s == "" then this else Step(s[0]).Run(s[1..])
    }
  }

  const TOP: Scan := Scan(0, None)

  predicate StartsOr(s: string) { |s| >= 2 && s[0] == '|' && s[1] == '|' }

  function Prepend(p: string, r: seq<string>): (x: seq<string>)
    requires r != []
    ensures |x| == |r| && x[0] == p + r[0] && x[1..] == r[1..]
  { [p + r[0]] + r[1..] }

  lemma PrependTwice(p: string, q: string, r: seq<string>)
    requires r != []
    ensures Prepend(p, Prepend(q, r)) == Prepend(p + q, r)
  {
    assert p + (q + r[0]) == p + q + r[0];
  }

  lemma PrependNothing(r: seq<string>)
    requires r != []
    ensures Prepend("", r) == r
  {
    assert "" + r[0] == r[0];
  }

  /** The untrimmed pieces of what is left of a rule, scanned on from `st`. */
  function RawFrom(s: string, st: Scan): (r: seq<string>)
    ensures |r| >= 1
    decreases |s|
  {
    if s == "" then [""]
    else if st.Top() && StartsOr(s) then [""] + RawFrom(s[2..], st)
    else Prepend([s[0]], RawFrom(s[1..], st.Step(s[0])))
  }

  function DisjunctsOf(rule: string): (r: seq<string>)
    ensures |r| >= 1
  { TrimAll(RawFrom(rule, TOP)) }

  /** The disjuncts still to come when the current one began at `start` and the scan is
      at `i`. */
  function Pending(rule: string, start: nat, i: nat, st: Scan): seq<string>
    requires start <= i <= |rule|
  { TrimAll(Prepend(rule[start..i], RawFrom(rule[i..], st))) }

  predicate OrAt(rule: string, i: nat) { i + 1 < |rule| && rule[i] == '|' && rule[i + 1] == '|' }

  lemma PendingStep(out: seq<string>, rule: string, start: nat, i: nat, st: Scan)
    requires start <= i < |rule| && !(st.Top() && OrAt(rule, i))
    ensures out + Pending(rule, start, i, st) == out + Pending(rule, start, i + 1, st.Step(rule[i]))
  {
    assert StartsOr(rule[i..]) <==> OrAt(rule, i);
    assert rule[i..][1..] == rule[i + 1..] && rule[start..i] + [rule[i]] == rule[start..i + 1];
    PrependTwice(rule[start..i], [rule[i]], RawFrom(rule[i + 1..], st.Step(rule[i])));
  }

  lemma PendingCut(out: seq<string>, rule: string, start: nat, i: nat)
    requires start <= i && OrAt(rule, i)
    ensures out + Pending(rule, start, i, TOP) == out + [Trim(rule[start..i])] + Pending(rule, i + 2, i + 2, TOP)
  {
    var tail := RawFrom(rule[i + 2..], TOP);
    assert rule[i..][2..] == rule[i + 2..] && RawFrom(rule[i..], TOP) == [""] + tail;
    PrependNothing(tail);
    assert rule[start..i] + "" == rule[start..i] && ([""] + tail)[1..] == tail;
    assert Pending(rule, start, i, TOP) == [Trim(rule[start..i])] + Pending(rule, i + 2, i + 2, TOP);
  }

  lemma PendingStarts(rule: string)
    ensures [] + Pending(rule, 0, 0, TOP) == DisjunctsOf(rule)
  {
    assert rule[0..] == rule;
    PrependNothing(RawFrom(rule, TOP));
  }

  lemma PendingEnds(rule: string, start: nat, st: Scan)
    requires start <= |rule|
    ensures Pending(rule, start, |rule|, st) == [Trim(rule[start..])]
  {
    assert rule[|rule|..] == "" && rule[start..|rule|] + "" == rule[start..];
  }

  method SplitTopLevelOr(rule: string) returns (out: seq<string>)
    ensures out == DisjunctsOf(rule)
  {
    out := [];
    var start, i, scan := 0, 0, TOP;
    ghost var goal := DisjunctsOf(rule);
    PendingStarts(rule);
    while i < |rule|
      invariant 0 <= start <= i <= |rule|
      invariant out + Pending(rule, start, i, scan) == goal
    {
      if scan.quote.None? && scan.depth == 0 && rule[i] == '|' && i + 1 < |rule| && rule[i + 1] == '|' {
        PendingCut(out, rule, start, i);
        out := out + [Trim(rule[start..i])];
        i := i + 2;
        start := i;
      } else {
        PendingStep(out, rule, start, i, scan);
        scan := ScanOn(scan, rule[i]);
        i := i + 1;
      }
    }
    PendingEnds(rule, start, scan);
    out := out + [Trim(rule[start..])];
  }

  method ScanOn(scan: Scan, c: char) returns (next: Scan)
    ensures next == scan.Step(c)
  {
    var depth, quote := scan.depth, scan.quote;
    if quote.Some? {
      if c == quote.value { quote := None; }
    } else if c == '\'' || c == '"' {
      quote := Some(c);
    } else if c == '(' || c == '[' {
      depth := depth + 1;
    } else if c == ')' || c == ']' {
      depth := depth - 1;
    }
    next := Scan(depth, quote);
  }

  // ---------- the split undoes the join ----------

  /** No "||" outside brackets and quotes. */
  predicate NoTopLevelOr(s: string, st: Scan)
    decreases |s|
  {
    s != "" ==> !(st.Top() && StartsOr(s)) && NoTopLevelOr(s[1..], st.Step(s[0]))
  }

  predicate Scanned(d: string) { Trimmed(d) && TOP.Run(d) == TOP && NoTopLevelOr(d, TOP) }

  function JoinOr(ds: seq<string>): string {
    if ds == [] then "" else if |ds| == 1 then ds[0] else ds[0] + " || " + JoinOr(ds[1..])
  }

  lemma {:induction false} ScanPiece(p: string, tail: string, st: Scan)
    requires NoTopLevelOr(p, st) && (tail != "" ==> tail[0] != '|')
    ensures RawFrom(p + tail, st) == Prepend(p, RawFrom(tail, st.Run(p)))
    decreases |p|
  {
    if p == "" {
      assert p + tail == tail;
      PrependNothing(RawFrom(tail, st));
    } else {
      assert (p + tail)[1..] == p[1..] + tail;
      ScanPiece(p[1..], tail, st.Step(p[0]));
      PrependTwice([p[0]], p[1..], RawFrom(tail, st.Run(p)));
      assert [p[0]] + p[1..] == p;
      assert StartsOr(p + tail) ==> |p| >= 2 && StartsOr(p);
    }
  }

  lemma SpaceIsIdle(lead: string, d: string)
    requires lead in {"", " "} && Scanned(d)
    ensures TOP.Run(lead + d) == TOP && NoTopLevelOr(lead + d, TOP)
  {
    if lead == "" { assert lead + d == d; } else { assert (lead + d)[1..] == d; }
  }

  lemma SeparatorSplits(rest: string)
    ensures RawFrom(" || " + rest, TOP) == [" "] + RawFrom(" " + rest, TOP)
  {
    var s := " || " + rest;
    assert s[1..][2..] == " " + rest && StartsOr(s[1..]);
    var r := RawFrom(s[1..], TOP);
    assert r == [""] + RawFrom(" " + rest, TOP);
    assert r[1..] == RawFrom(" " + rest, TOP) && [s[0]] + r[0] == " ";
    assert RawFrom(s, TOP) == Prepend([s[0]], r);
  }

  lemma ScanDisjunct(lead: string, d: string, rest: string)
    requires lead in {"", " "} && Scanned(d)
    ensures RawFrom(lead + d + (" || " + rest), TOP) == Prepend(lead + d, [" "] + RawFrom(" " + rest, TOP))
  {
    SpaceIsIdle(lead, d);
    ScanPiece(lead + d, " || " + rest, TOP);
    SeparatorSplits(rest);
  }

  lemma TrimSeparated(p: string, rest: seq<string>)
    ensures TrimAll(Prepend(p, [" "] + rest)) == [Trim(p + " ")] + TrimAll(rest)
  {
    assert Prepend(p, [" "] + rest) == [p + " "] + rest;
  }

  lemma FirstDisjunct(lead: string, d: string, rest: string)
    requires lead in {"", " "} && Scanned(d)
    ensures TrimAll(RawFrom(lead + d + (" || " + rest), TOP)) == [d] + TrimAll(RawFrom(" " + rest, TOP))
  {
    ScanDisjunct(lead, d, rest);
    TrimSeparated(lead + d, RawFrom(" " + rest, TOP));
    TrimPadded(lead, d, " ");
  }

  lemma JoinStep(lead: string, ds: seq<string>)
    requires |ds| > 1
    ensures lead + JoinOr(ds) == lead + ds[0] + (" || " + JoinOr(ds[1..]))
  { }

  lemma {:induction false} SplitAfter(lead: string, ds: seq<string>)
    requires ds != [] && lead in {"", " "} && forall d | d in ds :: Scanned(d)
    ensures TrimAll(RawFrom(lead + JoinOr(ds), TOP)) == ds
    decreases |ds|
  {
    var d := ds[0];
    if |ds| == 1 {
      SpaceIsIdle(lead, d);
      ScanPiece(lead + d, "", TOP);
      assert lead + d + "" == lead + JoinOr(ds);
      TrimPadded(lead, d, "");
    } else {
      FirstDisjunct(lead, d, JoinOr(ds[1..]));
      JoinStep(lead, ds);
      SplitAfter(" ", ds[1..]);
    }
  }

  // ---------- nesting, by counting ----------

  /** The quote the first i characters leave open, if any. */
  function QuoteAt(s: string, i: nat): Option<char>
    requires i <= |s|
  {
    if i == 0 then None
    else
      var open, c := QuoteAt(s, i - 1), s[i - 1];
      if open == Some(c) then None
      else if open.None? && (c == '\'' || c == '"') then Some(c)
      else open
  }

  /** How many of the first i characters are one of these and outside quotes. */
  function CountOf(s: string, i: nat, kinds: set<char>): nat
    requires i <= |s|
  {
    if i == 0 then 0
    else CountOf(s, i - 1, kinds) + (if QuoteAt(s, i - 1).None? && s[i - 1] in kinds then 1 else 0)
  }

  /** Outside quotes, with as many brackets closed as opened before it. */
  predicate TopAt(s: string, i: nat)
    requires i <= |s|
  { QuoteAt(s, i).None? && CountOf(s, i, {'(', '['}) == CountOf(s, i, {')', ']'}) }

  /** No "||" outside brackets and quotes. */
  predicate NoOrOutside(s: string) { forall i :: 0 <= i < |s| && TopAt(s, i) ==> !OrAt(s, i) }

  /** A disjunct as a person writes it: trimmed, its brackets and quotes closed, and no
      disjunction of its own outside them. */
  predicate Disjunct(d: string) { Trimmed(d) && TopAt(d, |d|) && NoOrOutside(d) }

  lemma {:induction false} RunAppend(st: Scan, a: string, c: char)
    ensures st.Run(a + [c]) == st.Run(a).Step(c)
    decreases |a|
  {
    if a == "" {
      assert a + [c] == [c] && [c][1..] == "";
    } else {
      assert (a + [c])[1..] == a[1..] + [c];
      RunAppend(st.Step(a[0]), a[1..], c);
    }
  }

  /** The scan's depth and quote are the counts. */
  lemma {:induction false} RunCounts(s: string, i: nat)
    requires i <= |s|
    ensures TOP.Run(s[..i]) == Scan(CountOf(s, i, {'(', '['}) - CountOf(s, i, {')', ']'}), QuoteAt(s, i))
    ensures TOP.Run(s[..i]).Top() <==> TopAt(s, i)
  {
    if i == 0 {
      assert s[..0] == "";
    } else {
      assert s[..i] == s[..i - 1] + [s[i - 1]];
      RunCounts(s, i - 1);
      RunAppend(TOP, s[..i - 1], s[i - 1]);
    }
  }

  lemma {:induction false} NoOrFrom(s: string, i: nat)
    requires i <= |s|
    ensures NoTopLevelOr(s[i..], TOP.Run(s[..i])) <==> forall j :: i <= j < |s| && TopAt(s, j) ==> !OrAt(s, j)
    decreases |s| - i
  {
    RunCounts(s, i);
    if i < |s| {
      NoOrFrom(s, i + 1);
      assert s[i..][1..] == s[i + 1..] && s[..i + 1] == s[..i] + [s[i]];
      RunAppend(TOP, s[..i], s[i]);
      assert StartsOr(s[i..]) <==> OrAt(s, i);
    }
  }

  lemma ScanIsCounting(s: string)
    ensures NoTopLevelOr(s, TOP) <==> NoOrOutside(s)
    ensures TOP.Run(s) == TOP <==> TopAt(s, |s|)
  {
    assert s[0..] == s && s[..0] == "" && s[..|s|] == s;
    NoOrFrom(s, 0);
    RunCounts(s, |s|);
  }

  /** Joining disjuncts with " || " and splitting gives them back. */
  lemma SplitUndoesJoin(ds: seq<string>)
    requires ds != [] && forall d | d in ds :: Disjunct(d)
    ensures DisjunctsOf(JoinOr(ds)) == ds
  {
    forall d | d in ds ensures Scanned(d) { ScanIsCounting(d); }
    SplitAfter("", ds);
    assert "" + JoinOr(ds) == JoinOr(ds);
  }

  // ---------- the split on any rule ----------

  /** Every piece but the last ends outside brackets and quotes at the first "||" there, and
      the last holds none. */
  predicate ProperPieces(ps: seq<string>) {
    && ps != [] && NoOrOutside(ps[|ps| - 1])
    && forall i :: 0 <= i < |ps| - 1 ==> TopAt(ps[i], |ps[i]|) && NoOrOutside(ps[i] + "|")
  }

  predicate CutAfter(p: string, st: Scan) { st.Run(p) == TOP && NoTopLevelOr(p + "|", st) }

  /** The same of pieces whose first continues from `st`, in the scan's own terms. */
  predicate ScannedPieces(r: seq<string>, st: Scan) {
    && r != []
    && (if |r| == 1 then NoTopLevelOr(r[0], st) else CutAfter(r[0], st) && NoTopLevelOr(r[|r| - 1], TOP))
    && forall i | 0 < i < |r| - 1 :: CutAfter(r[i], TOP)
  }

  lemma PieceCut(r: seq<string>)
    requires ScannedPieces(r, TOP)
    ensures ScannedPieces([""] + r, TOP)
  {
    var all := [""] + r;
    assert all[|all| - 1] == r[|r| - 1];
    forall i | 0 < i < |all| - 1 ensures CutAfter(all[i], TOP) { assert all[i] == r[i - 1]; }
    assert ("" + "|")[1..] == "" && CutAfter("", TOP);
  }

  lemma PieceGrown(s: string, st: Scan, r: seq<string>)
    requires s != "" && !(st.Top() && StartsOr(s)) && Concat(r) == s[1..]
    requires ScannedPieces(r, st.Step(s[0]))
    ensures ScannedPieces(Prepend([s[0]], r), st)
  {
    var all := Prepend([s[0]], r);
    FirstPieceGrows(s, st, r);
    forall i | 0 < i < |all| ensures all[i] == r[i] { assert all[i] == all[1..][i - 1] == r[1..][i - 1]; }
  }

  lemma {:induction false} PiecesJoin(s: string, st: Scan)
    ensures Concat(RawFrom(s, st)) == s
    decreases |s|
  {
    if s == "" {
    } else if st.Top() && StartsOr(s) {
      PiecesJoin(s[2..], st);
      assert RawFrom(s, st)[1..] == RawFrom(s[2..], st) && s == "||" + s[2..];
    } else {
      PiecesJoin(s[1..], st.Step(s[0]));
      ConcatPrepend([s[0]], RawFrom(s[1..], st.Step(s[0])));
      assert s == [s[0]] + s[1..];
    }
  }

  lemma {:induction false} PiecesAreScanned(s: string, st: Scan)
    ensures ScannedPieces(RawFrom(s, st), st)
    decreases |s|
  {
    if s == "" {
    } else if st.Top() && StartsOr(s) {
      assert st == TOP;
      PiecesAreScanned(s[2..], TOP);
      PieceCut(RawFrom(s[2..], TOP));
    } else {
      PiecesAreScanned(s[1..], st.Step(s[0]));
      PiecesJoin(s[1..], st.Step(s[0]));
      PieceGrown(s, st, RawFrom(s[1..], st.Step(s[0])));
    }
  }

  lemma FirstPieceGrows(s: string, st: Scan, r: seq<string>)
    requires s != "" && !(st.Top() && StartsOr(s)) && r != [] && Concat(r) == s[1..]
    ensures var p := [s[0]] + r[0];
      && (NoTopLevelOr(r[0], st.Step(s[0])) ==> NoTopLevelOr(p, st))
      && (|r| > 1 && CutAfter(r[0], st.Step(s[0])) ==> CutAfter(p, st))
  {
    var p := [s[0]] + r[0];
    HeadIsPrefix(r);
    assert p[1..] == r[0] && (p + "|")[1..] == r[0] + "|";
    assert StartsOr(p) ==> StartsOr(s);
    if |r| > 1 {
      assert (r[0] + "||") <= s[1..];
      assert StartsOr(p + "|") ==> StartsOr(s);
    }
  }

  lemma {:induction false} CutIsFound(p: string, rest: string, st: Scan)
    requires CutAfter(p, st)
    ensures RawFrom(p + "||" + rest, st) == [p] + RawFrom(rest, TOP)
    decreases |p|
  {
    var s := p + "||" + rest;
    if p == "" {
      assert s[2..] == rest && StartsOr(s);
    } else {
      assert s[1..] == p[1..] + "||" + rest && s[0] == p[0];
      assert (p + "|")[1..] == p[1..] + "|" && (p + "|")[0] == p[0];
      assert StartsOr(s) ==> StartsOr(p + "|");
      CutIsFound(p[1..], rest, st.Step(p[0]));
      assert p == [p[0]] + p[1..];
    }
  }

  lemma {:induction false} WholeIsLast(p: string, st: Scan)
    requires NoTopLevelOr(p, st)
    ensures RawFrom(p, st) == [p]
    decreases |p|
  {
    if p == "" {
    } else {
      WholeIsLast(p[1..], st.Step(p[0]));
      assert p == [p[0]] + p[1..];
    }
  }

  lemma {:induction false} ProperPiecesAreFound(ps: seq<string>)
    requires ProperPieces(ps)
    ensures RawFrom(Concat(ps), TOP) == ps
    decreases |ps|
  {
    ScanIsCounting(ps[0]);
    if |ps| == 1 {
      WholeIsLast(ps[0], TOP);
    } else {
      var rest := ps[1..];
      ScanIsCounting(ps[0] + "|");
      forall i | 0 <= i < |rest| - 1 ensures TopAt(rest[i], |rest[i]|) && NoOrOutside(rest[i] + "|") {
        assert rest[i] == ps[i + 1];
      }
      ProperPiecesAreFound(rest);
      CutIsFound(ps[0], Concat(rest), TOP);
    }
  }

  /** The split of any rule whatever: the trimmed pieces of the one way to cut it at the
      first "||" outside brackets and quotes, and again from there on. */
  lemma SplitExactly(rule: string, ps: seq<string>)
    ensures ps == RawFrom(rule, TOP) <==> Concat(ps) == rule && ProperPieces(ps)
    ensures Concat(ps) == rule && ProperPieces(ps) ==>
      |DisjunctsOf(rule)| == |ps| && forall i :: 0 <= i < |ps| ==> DisjunctsOf(rule)[i] == Trim(ps[i])
  {
    if ps == RawFrom(rule, TOP) {
      PiecesJoin(rule, TOP);
      PiecesAreScanned(rule, TOP);
      forall i | 0 <= i < |ps| - 1 ensures TopAt(ps[i], |ps[i]|) && NoOrOutside(ps[i] + "|") {
        assert CutAfter(ps[i], TOP);
        ScanIsCounting(ps[i]);
        ScanIsCounting(ps[i] + "|");
      }
      ScanIsCounting(ps[|ps| - 1]);
    }
    if Concat(ps) == rule && ProperPieces(ps) {
      ProperPiecesAreFound(ps);
      TrimEach(ps);
    }
  }

  lemma {:induction false} TrimEach(ps: seq<string>)
    ensures forall i :: 0 <= i < |ps| ==> TrimAll(ps)[i] == Trim(ps[i])
  {
    if ps == [] {
    } else {
      TrimEach(ps[1..]);
    }
  }

  function Concat(ps: seq<string>): string {
    if ps == [] then "" else if |ps| == 1 then ps[0] else ps[0] + "||" + Concat(ps[1..])
  }

  lemma ConcatPrepend(p: string, r: seq<string>)
    requires r != []
    ensures Concat(Prepend(p, r)) == p + Concat(r)
  {
    if |r| > 1 { assert p + r[0] + "||" + Concat(r[1..]) == p + (r[0] + "||" + Concat(r[1..])); }
  }

  lemma HeadIsPrefix(r: seq<string>)
    requires r != []
    ensures r[0] <= Concat(r)
  { }

  // ---------- evaluating leading disjuncts ----------

  /** The two recognised guard shapes, `!has(cel)` and `cel != 'want'`. */
  datatype Guard = NotHas(cel: string) | NotEq(cel: string, want: string)

  /** A condition on the manifest's forProvider under which a rule binds. */
  datatype Condition = IsSet(path: string) | Equals(path: string, want: string) {
    predicate On(forProvider: Json) {
      match this
      case IsSet(p) => Get(forProvider, Segments(p)).Some?
      case Equals(p, w) => Get(forProvider, Segments(p)) == Some(String(w))
    }
  }

  datatype Truth = True | False(cond: Condition) | Unknown

  /** Where a schema node's rules resolve `self`: see sizeAnchor. */
  datatype Anchor = Anchor(rules: seq<string>, celSelf: string, fpPrefix: string)

  function TrimSuffixDot(s: string): string { if s != "" && s[|s| - 1] == '.' then s[..|s| - 1] else s }

  function GuardFPPath(cel: string, a: Anchor): Option<string> {
    if !HasPrefix(cel + ".", a.celSelf) then None
    else
      var rest := TrimSuffixDot((cel + ".")[|a.celSelf|..]);
      if rest == "" then None else Some(a.fpPrefix + rest)
  }

  /** A guard path is evaluated exactly when it lies strictly under the anchor's own
      `self` prefix, and then at the same place below the anchor. */
  lemma GuardPathResolves(cel: string, a: Anchor, path: string)
    requires a.celSelf != "" && a.celSelf[|a.celSelf| - 1] == '.'
    ensures GuardFPPath(cel, a) == Some(path) <==>
      exists p: string :: p != "" && cel == a.celSelf + p && path == a.fpPrefix + p
  {
    var n := |a.celSelf|;
    if GuardFPPath(cel, a) == Some(path) {
      var tail := (cel + ".")[n..];
      assert tail != "" && tail[|tail| - 1] == '.' && TrimSuffixDot(tail) == cel[n..];
      assert cel == a.celSelf + cel[n..];
    }
    forall p: string | p != "" && cel == a.celSelf + p && path == a.fpPrefix + p
      ensures GuardFPPath(cel, a) == Some(path)
    {
      assert (cel + ".")[n..] == p + "." && (p + ".")[..|p|] == p;
    }
  }

  function EvalGuardDisjunct(g: Option<Guard>, a: Anchor, forProvider: Json): Truth {
    if g.None? || GuardFPPath(g.value.cel, a).None? then Unknown
    else
      var path := GuardFPPath(g.value.cel, a).value;
      var found := Get(forProvider, Segments(path));
      match g.value
      case NotHas(_) => if found.None? then True else False(IsSet(path))
      case NotEq(_, want) =>
        if found.None? then True
        else if !found.value.String? then Unknown
        else if found.value.s != want then True
        else False(Equals(path, want))
  }

  /** The condition attached to a false disjunct says exactly when it is false, on this
      object and on every other. */
  lemma FalseExactlyWhen(g: Option<Guard>, a: Anchor, forProvider: Json, other: Json)
    requires EvalGuardDisjunct(g, a, forProvider).False?
    ensures EvalGuardDisjunct(g, a, forProvider).cond.On(forProvider)
    ensures EvalGuardDisjunct(g, a, other).False? <==> EvalGuardDisjunct(g, a, forProvider).cond.On(other)
  { }

  /** What decides a recognised guard whose path resolves: absence makes it true, and only
      a comparison with something other than a string cannot be decided. */
  lemma GuardDecides(g: Guard, a: Anchor, forProvider: Json, path: string)
    requires GuardFPPath(g.cel, a) == Some(path)
    ensures var found := Get(forProvider, Segments(path));
      && (EvalGuardDisjunct(Some(g), a, forProvider).True? <==>
            found.None? || (g.NotEq? && found.value.String? && found.value != String(g.want)))
      && (EvalGuardDisjunct(Some(g), a, forProvider).Unknown? <==> g.NotEq? && found.Some? && !found.value.String?)
  { }

  // ---------- joinConditions ----------

  predicate Implied(c: Condition, conds: seq<Condition>) {
    c.IsSet? && exists other :: other in conds && other.Equals? && other.path == c.path
  }

  function Kept(cs: seq<Condition>, conds: seq<Condition>): seq<Condition> {
    if cs == [] then []
    else (if Implied(cs[0], conds) then [] else [cs[0]]) + Kept(cs[1..], conds)
  }

  method IsImplied(c: Condition, conds: seq<Condition>) returns (implied: bool)
    ensures implied <==> Implied(c, conds)
  {
    if !c.IsSet? { return false; }
    for j := 0 to |conds|
      invariant forall n | 0 <= n < j :: !(conds[n].Equals? && conds[n].path == c.path)
    {
      if conds[j].Equals? && conds[j].path == c.path { return true; }
    }
    return false;
  }

  lemma KeptNext(out: seq<Condition>, conds: seq<Condition>, i: nat)
    requires i < |conds|
    ensures out + Kept(conds[i..], conds)
         == (if Implied(conds[i], conds) then out else out + [conds[i]]) + Kept(conds[i + 1..], conds)
  {
    assert conds[i..][0] == conds[i] && conds[i..][1..] == conds[i + 1..];
    var own := if Implied(conds[i], conds) then [] else [conds[i]];
    assert Kept(conds[i..], conds) == own + Kept(conds[i + 1..], conds);
    Regroup(out, own, Kept(conds[i + 1..], conds));
  }

  lemma Regroup<T>(a: seq<T>, b: seq<T>, c: seq<T>)
    ensures a + (b + c) == (a + b) + c
    ensures b == [] ==> a + b == a
  { }

  method JoinConditions(conds: seq<Condition>) returns (out: seq<Condition>)
    ensures out == Kept(conds, conds)
    ensures forall c :: c in out <==>
      c in conds && !(c.IsSet? && exists other :: other in conds && other.Equals? && other.path == c.path)
  {
    out := [];
    ghost var goal := Kept(conds, conds);
    for i := 0 to |conds|
      invariant out + Kept(conds[i..], conds) == goal
    {
      KeptNext(out, conds, i);
      var implied := IsImplied(conds[i], conds);
      if implied { continue; }
      out := out + [conds[i]];
    }
    forall c ensures c in out <==> c in conds && !Implied(c, conds) { KeptMembers(conds, conds, c); }
  }

  lemma {:induction false} KeptMembers(cs: seq<Condition>, conds: seq<Condition>, c: Condition)
    ensures c in Kept(cs, conds) <==> c in cs && !Implied(c, conds)
  {
    if cs == [] {
    } else {
      KeptMembers(cs[1..], conds, c);
    }
  }

  /** Dropping what an equality implies changes the meaning of no condition list, and
      never empties one: an empty condition marks an unconditional hit. */
  lemma KeptMeansAll(conds: seq<Condition>, o: Json)
    ensures (forall c | c in Kept(conds, conds) :: c.On(o)) <==> (forall c | c in conds :: c.On(o))
    ensures conds != [] ==> Kept(conds, conds) != []
  {
    forall c ensures c in Kept(conds, conds) <==> c in conds && !Implied(c, conds) { KeptMembers(conds, conds, c); }
    forall c | c in conds && Implied(c, conds)
      ensures exists other :: other in Kept(conds, conds) && other.Equals? && other.path == c.path
    {
      var other :| other in conds && other.Equals? && other.path == c.path;
      assert !Implied(other, conds);
    }
    if conds != [] {
      assert conds[0] in Kept(conds, conds) || Implied(conds[0], conds);
    }
  }

  // ---------- sizeGuardRule ----------

  datatype Hit = Hit(clause: string, condition: seq<Condition>)

  /** What the regular expressions and the manifest supply: the non-empty clause a text
      carries for the wanted path ("" when none), and a disjunct's recognised shape. */
  datatype Reading = Reading(clauseOf: string -> string, classify: string -> Option<Guard>, anchor: Anchor,
                             forProvider: Json) {
    function Eval(d: string): Truth { EvalGuardDisjunct(classify(d), anchor, forProvider) }
    function On(o: Json): Reading { this.(forProvider := o) }

    predicate Carries(rule: string) { clauseOf(rule) != "" }

    function Leading(rule: string): seq<string> { DisjunctsOf(rule)[..|DisjunctsOf(rule)| - 1] }

    /** The clause stands last, behind at least one other disjunct. */
    predicate Guarded(rule: string) {
      Leading(rule) != [] && Carries(DisjunctsOf(rule)[|DisjunctsOf(rule)| - 1])
    }

    predicate FalseUpTo(ds: seq<string>, n: nat)
      requires n <= |ds|
    { forall i | 0 <= i < n :: Eval(ds[i]).False? }

    /** A leading disjunct is true and every one before it false. */
    ghost predicate PassedOver(rule: string) {
      Guarded(rule) && exists n ::
        0 <= n < |Leading(rule)| && FalseUpTo(Leading(rule), n) && Eval(Leading(rule)[n]).True?
    }

    predicate Binds(rule: string) { Guarded(rule) && FalseUpTo(Leading(rule), |Leading(rule)|) }

    function Conditions(ds: seq<string>): (r: seq<Condition>)
      requires FalseUpTo(ds, |ds|)
      ensures |r| == |ds| && forall i :: 0 <= i < |ds| ==> r[i] == Eval(ds[i]).cond
    { seq(|ds|, i requires 0 <= i < |ds| => Eval(ds[i]).cond) }

    function HitOf(rule: string): Hit {
      Hit(clauseOf(rule), if Binds(rule) then var cs := Conditions(Leading(rule)); Kept(cs, cs) else [])
    }

    /** The first rule that carries the clause and is not passed over. */
    ghost predicate Reported(n: nat, hit: Hit) {
      && n < |anchor.rules| && Carries(anchor.rules[n]) && !PassedOver(anchor.rules[n]) && hit == HitOf(anchor.rules[n])
      && forall i | 0 <= i < n :: Carries(anchor.rules[i]) ==> PassedOver(anchor.rules[i])
    }
  }

  method SizeGuardRule(r: Reading) returns (hit: Option<Hit>)
    ensures hit.None? ==> forall rule | rule in r.anchor.rules && r.Carries(rule) :: r.PassedOver(rule)
    ensures hit.Some? ==> exists n :: r.Reported(n, hit.value)
  {
    for n := 0 to |r.anchor.rules|
      invariant forall i | 0 <= i < n :: r.Carries(r.anchor.rules[i]) ==> r.PassedOver(r.anchor.rules[i])
    {
      var rule := r.anchor.rules[n];
      if r.clauseOf(rule) == "" { continue; }
      hit := DecideRule(r, rule);
      if hit.Some? {
        assert r.Reported(n, hit.value);
        return;
      }
    }
    return None;
  }

  /** One rule that carries the clause: reported, or passed over. */
  method DecideRule(r: Reading, rule: string) returns (hit: Option<Hit>)
    requires r.Carries(rule)
    ensures hit.None? <==> r.PassedOver(rule)
    ensures hit.Some? ==> hit.value == r.HitOf(rule)
  {
    var clause := r.clauseOf(rule);
    var disjuncts := SplitTopLevelOr(rule);
    var last := |disjuncts| - 1;
    if last < 1 || r.clauseOf(disjuncts[last]) == "" { return Some(Hit(clause, [])); }
    var binds, evaluable, conds := DecideLeading(r, disjuncts[..last]);
    if !evaluable { return Some(Hit(clause, [])); }
    if !binds { return None; }
    var condition := JoinConditions(conds);
    return Some(Hit(clause, condition));
  }

  /** The inner loop: leading disjuncts in order until one is true or not evaluable. */
  method DecideLeading(r: Reading, ds: seq<string>) returns (binds: bool, evaluable: bool, conds: seq<Condition>)
    ensures binds && evaluable <==> r.FalseUpTo(ds, |ds|)
    ensures binds && evaluable ==> conds == r.Conditions(ds)
    ensures !binds && evaluable <==> exists n :: 0 <= n < |ds| && r.FalseUpTo(ds, n) && r.Eval(ds[n]).True?
  {
    conds, binds, evaluable := [], true, true;
    for i := 0 to |ds|
      invariant binds && evaluable && r.FalseUpTo(ds, i)
      invariant |conds| == i && forall k | 0 <= k < i :: conds[k] == r.Eval(ds[k]).cond
    {
      match r.Eval(ds[i]) {
        case Unknown =>
          evaluable := false;
          break;
        case True =>
          binds := false;
          break;
        case False(cond) =>
          conds := conds + [cond];
      }
    }
  }

  /** When every leading disjunct is recognised, the rule is passed over exactly when one
      of them is true on the manifest, and otherwise reported with a condition. */
  lemma RecognisedRule(r: Reading, rule: string)
    requires r.Guarded(rule) && forall d | d in r.Leading(rule) :: !r.Eval(d).Unknown?
    ensures r.PassedOver(rule) <==> exists d :: d in r.Leading(rule) && r.Eval(d).True?
    ensures r.HitOf(rule).condition != [] <==> forall d | d in r.Leading(rule) :: r.Eval(d).False?
  {
    var ds := r.Leading(rule);
    FirstTrue(r, ds);
    if r.Binds(rule) { KeptMeansAll(r.Conditions(ds), Null); }
    assert r.FalseUpTo(ds, |ds|) <==> forall d | d in ds :: r.Eval(d).False?;
  }

  lemma FirstTrue(r: Reading, ds: seq<string>)
    requires forall d | d in ds :: !r.Eval(d).Unknown?
    ensures (exists d :: d in ds && r.Eval(d).True?) <==>
            exists n :: 0 <= n < |ds| && r.FalseUpTo(ds, n) && r.Eval(ds[n]).True?
  {
    if d :| d in ds && r.Eval(d).True? {
      var m :| 0 <= m < |ds| && ds[m] == d;
      var n := EarliestTrue(r, ds, m);
    }
  }

  lemma EarliestTrue(r: Reading, ds: seq<string>, m: nat) returns (n: nat)
    requires m < |ds| && r.Eval(ds[m]).True? && forall d | d in ds :: !r.Eval(d).Unknown?
    ensures n <= m && r.FalseUpTo(ds, n) && r.Eval(ds[n]).True?
    decreases m
  {
    if r.FalseUpTo(ds, m) {
      n := m;
    } else {
      var k :| 0 <= k < m && !r.Eval(ds[k]).False?;
      assert ds[k] in ds;
      n := EarliestTrue(r, ds, k);
    }
  }

  /** The condition reported with a hit holds on the manifest, and holds of any object
      exactly when every leading disjunct is false there: then the clause alone decides. */
  lemma ReportedConditionIsExact(r: Reading, rule: string, o: Json)
    requires r.HitOf(rule).condition != []
    ensures forall c | c in r.HitOf(rule).condition :: c.On(r.forProvider)
    ensures (forall c | c in r.HitOf(rule).condition :: c.On(o)) <==>
            forall d | d in r.Leading(rule) :: r.On(o).Eval(d).False?
  {
    var ds := r.Leading(rule);
    var conds := r.Conditions(ds);
    KeptMeansAll(conds, o);
    KeptMeansAll(conds, r.forProvider);
    forall i | 0 <= i < |ds|
      ensures conds[i].On(r.forProvider) && (r.On(o).Eval(ds[i]).False? <==> conds[i].On(o))
    {
      FalseExactlyWhen(r.classify(ds[i]), r.anchor, r.forProvider, o);
    }
    assert (forall c | c in conds :: c.On(o)) <==> forall i | 0 <= i < |ds| :: conds[i].On(o);
  }
}
