/** Division and remainder facts behind the rotation schedule. */
module Modular {

  /** a / b rounded up. */
  function CeilDiv(a: nat, b: nat): nat
    requires b > 0
  { if a == 0 then 0 else if a <= b then 1 else 1 + CeilDiv(a - b, b) }

  /** The source's spelling of it: a quotient and a remainder test. */
  lemma {:induction false} CeilDivSpelled(a: nat, b: nat)
    requires b > 0
    ensures CeilDiv(a, b) == a / b + (if a % b != 0 then 1 else 0)
  {
    if a > b {
      CeilDivSpelled(a - b, b);
      var q, r := (a - b) / b, (a - b) % b;
      assert a - b == b * q + r;
      assert a == (q + 1) * b + r;
      DivModUnique(a, b, q + 1, r);
    } else if a == b {
      DivModUnique(a, b, 1, 0);
    } else {
      DivModUnique(a, b, 0, a);
    }
  }

  lemma CeilDivBounds(a: nat, b: nat)
    requires b > 0
    ensures b * CeilDiv(a, b) >= a
    ensures a > 0 ==> CeilDiv(a, b) >= 1
  {
    CeilDivSpelled(a, b);
    assert a == b * (a / b) + a % b;
    assert b * CeilDiv(a, b) == b * (a / b) + (if a % b != 0 then b else 0);
  }

  lemma CeilDivLeast(a: nat, b: nat, c: nat)
    requires b > 0 && b * c >= a
    ensures CeilDiv(a, b) <= c
  {
    CeilDivSpelled(a, b);
    var q, r := a / b, a % b;
    assert a == b * q + r;
    if q >= c {
      MulMonotone(b, c, q);
      assert b * q <= a <= b * c;
      NoSmallMultiple(q - c, b);
      assert b * q - b * c == (q - c) * b;
    }
  }

  lemma MulMonotone(b: nat, x: nat, y: nat)
    requires x <= y
    ensures b * x <= b * y
    ensures b * (x + 1) == b * x + b
  { }

  lemma DivModUnique(a: int, n: nat, q: int, r: int)
    requires n > 0 && a == q * n + r && 0 <= r < n
    ensures a / n == q && a % n == r
  {
    var q', r' := a / n, a % n;
    assert a == n * q' + r';
    assert (q' - q) * n == r - r';
    NoSmallMultiple(q' - q, n);
  }

  lemma NoSmallMultiple(k: int, n: nat)
    requires n > 0
    ensures k >= 1 ==> k * n >= n
    ensures k <= -1 ==> k * n + n <= 0
  {
    if k >= 1 { MulMonotone(n, 1, k); }
    if k <= -1 { MulMonotone(n, 1, -k); assert k * n + (-k) * n == 0; }
  }

  /** Adding one to the dividend. */
  lemma DivModNext(a: nat, n: nat)
    requires n > 0
    ensures a % n == n - 1 ==> (a + 1) / n == a / n + 1 && (a + 1) % n == 0
    ensures a % n != n - 1 ==> (a + 1) / n == a / n && (a + 1) % n == a % n + 1
  {
    var q, r := a / n, a % n;
    assert a == q * n + r;
    if r == n - 1 {
      assert a + 1 == (q + 1) * n;
      DivModUnique(a + 1, n, q + 1, 0);
    } else {
      DivModUnique(a + 1, n, q, r + 1);
    }
  }

  lemma ModAdd(a: nat, b: nat, n: nat)
    requires n > 0
    ensures (a + b) % n == (if a % n + b % n < n then a % n + b % n else a % n + b % n - n)
  {
    var qa, qb := a / n, b / n;
    var s := a % n + b % n;
    assert a + b == (qa + qb) * n + s;
    if s < n {
      DivModUnique(a + b, n, qa + qb, s);
    } else {
      assert a + b == (qa + qb + 1) * n + (s - n);
      DivModUnique(a + b, n, qa + qb + 1, s - n);
    }
  }

  /** Steps from residue c to residue p going up, modulo n. */
  function Offset(c: nat, p: nat, n: nat): (d: nat)
    requires p < n
    ensures d < n
  { if p >= c % n then p - c % n else p + n - c % n }

  lemma LandsOn(c: nat, t: nat, p: nat, n: nat)
    requires p < n
    ensures (c + t) % n == p <==> t % n == Offset(c, p, n)
  {
    ModAdd(c, t, n);
  }

  predicate Lands(c: nat, i: nat, p: nat, n: nat)
    requires n > 0
  { (c + i) % n == p }

  /** How often residue p is met among c, c+1, ..., c+len-1 modulo n. */
  function Hits(c: nat, len: nat, p: nat, n: nat): nat
    requires p < n
  {
    if len == 0 then 0 else Hits(c, len - 1, p, n) + (if (c + len - 1) % n == p then 1 else 0)
  }

  /** A run of consecutive residues meets every residue len/n times, and one more time
      if the residue lies in the unfinished lap. */
  lemma {:induction false} HitsExact(c: nat, len: nat, p: nat, n: nat)
    requires p < n
    ensures Hits(c, len, p, n) == len / n + (if Offset(c, p, n) < len % n then 1 else 0)
  {
    if len == 0 {
      DivModUnique(0, n, 0, 0);
    } else {
      HitsExact(c, len - 1, p, n);
      LandsOn(c, len - 1, p, n);
      DivModNext(len - 1, n);
    }
  }

  lemma {:induction false} HitsAppend(c: nat, a: nat, b: nat, p: nat, n: nat)
    requires p < n
    ensures Hits(c, a + b, p, n) == Hits(c, a, p, n) + Hits(c + a, b, p, n)
  {
    if b == 0 {
    } else {
      HitsAppend(c, a, b - 1, p, n);
    }
  }

  lemma {:induction false} HitsModular(c: nat, c': nat, len: nat, p: nat, n: nat)
    requires p < n && c % n == c' % n
    ensures Hits(c, len, p, n) == Hits(c', len, p, n)
  {
    if len == 0 {
    } else {
      HitsModular(c, c', len - 1, p, n);
      ModAdd(c, len - 1, n);
      ModAdd(c', len - 1, n);
    }
  }

  /** A window no longer than one lap meets each residue at most once, and meets it
      exactly when some position of the window lands on it. */
  lemma HitsWindow(c: nat, len: nat, p: nat, n: nat)
    requires p < n && len <= n
    ensures Hits(c, len, p, n) <= 1
    ensures Hits(c, len, p, n) == 1 <==> exists i: nat :: i < len && Lands(c, i, p, n)
  {
    HitsExact(c, len, p, n);
    if len == n { DivModUnique(len, n, 1, 0); } else { DivModUnique(len, n, 0, len); }
    var d := Offset(c, p, n);
    LandsOn(c, d, p, n);
    DivModUnique(d, n, 0, d);
    assert Lands(c, d, p, n);
    forall i: nat | i < len && Lands(c, i, p, n) ensures i == d {
      LandsOn(c, i, p, n);
      DivModUnique(i, n, 0, i);
    }
  }
}
