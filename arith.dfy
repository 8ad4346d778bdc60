/** Sums and products of integer sequences, and the facts about Euclidean
    division that the mixed-radix index arithmetic of the candidate tree needs. */
module Arith {

  /** Sum of a sequence (torch `sum` on a 1-D integer tensor). */
  function Sum(s: seq<int>): int
  {
    if s == [] then 0 else s[0] + Sum(s[1..])
  }

  /** Product of a sequence (torch `prod` on a 1-D integer tensor). */
  function Prod(s: seq<int>): int
  {
    if s == [] then 1 else s[0] * Prod(s[1..])
  }

  predicate AllPositive(s: seq<int>)
  {
    forall k :: 0 <= k < |s| ==> s[k] > 0
  }

  lemma {:induction false} SumAppend(s: seq<int>, x: int)
    ensures Sum(s + [x]) == Sum(s) + x
  {
    if s != [] {
      assert (s + [x])[1..] == s[1..] + [x];
      SumAppend(s[1..], x);
    }
  }

  lemma {:induction false} SumConcat(s: seq<int>, t: seq<int>)
    ensures Sum(s + t) == Sum(s) + Sum(t)
  {
    if s == [] {
      assert s + t == t;
    } else {
      assert (s + t)[0] == s[0] && (s + t)[1..] == s[1..] + t;
      SumConcat(s[1..], t);
      assert Sum(s + t) == s[0] + Sum(s[1..] + t);
    }
  }

  lemma {:induction false} ProdAppend(s: seq<int>, x: int)
    ensures Prod(s + [x]) == Prod(s) * x
  {
    if s != [] {
      assert (s + [x])[1..] == s[1..] + [x];
      ProdAppend(s[1..], x);
      assert Prod(s + [x]) == s[0] * (Prod(s[1..]) * x);
    }
  }

  lemma {:induction false} ProdConcat(s: seq<int>, t: seq<int>)
    ensures Prod(s + t) == Prod(s) * Prod(t)
  {
    if s == [] {
      assert s + t == t;
    } else {
      assert (s + t)[0] == s[0] && (s + t)[1..] == s[1..] + t;
      ProdConcat(s[1..], t);
      assert Prod(s + t) == s[0] * Prod(s[1..] + t);
      assert Prod(s + t) == s[0] * (Prod(s[1..]) * Prod(t));
    }
  }

  lemma ProdSplit(s: seq<int>, k: nat)
    requires k <= |s|
    ensures Prod(s) == Prod(s[..k]) * Prod(s[k..])
  {
    assert s == s[..k] + s[k..];
    ProdConcat(s[..k], s[k..]);
  }

  lemma {:induction false} ProdPositive(s: seq<int>)
    requires AllPositive(s)
    ensures Prod(s) > 0
  {
    if s != [] {
      ProdPositive(s[1..]);
      MulPositive(s[0], Prod(s[1..]));
    }
  }

  lemma {:induction false} SumOfNonNegative(s: seq<int>)
    requires forall k :: 0 <= k < |s| ==> s[k] >= 0
    ensures Sum(s) >= 0
  {
    if s != [] {
      SumOfNonNegative(s[1..]);
    }
  }

  lemma MulPositive(x: int, y: int)
    requires x > 0 && y > 0
    ensures x * y > 0
  {
  }

  lemma MulAtLeast(m: int, x: int)
    requires m > 0 && x >= 1
    ensures m * x >= m
  {
  }

  /** Quotient and remainder are determined by `a == m * q + r` with `0 <= r < m`. */
  lemma DivModUnique(a: int, m: int, q: int, r: int)
    requires m > 0 && 0 <= r < m && a == m * q + r
    ensures a / m == q && a % m == r
  {
    var q0, r0 := a / m, a % m;
    assert a == m * q0 + r0;
    assert m * (q - q0) == r0 - r;
    if q > q0 {
      MulAtLeast(m, q - q0);
    } else if q < q0 {
      assert m * (q0 - q) == r - r0;
      MulAtLeast(m, q0 - q);
    }
  }

  /** `(x * y) / y == x` and the remainder is zero. */
  lemma MulDivExact(x: int, y: int)
    requires y > 0
    ensures (x * y) / y == x && (x * y) % y == 0
  {
    DivModUnique(x * y, y, x, 0);
  }

  /** An index below `x * y` has a quotient by `y` below `x`. */
  lemma DivBelow(a: int, x: int, y: int)
    requires y > 0 && 0 <= a < x * y
    ensures 0 <= a / y < x
  {
    assert a == y * (a / y) + a % y;
  }

  /** Dividing twice is dividing by the product. */
  lemma DivDiv(a: int, x: int, y: int)
    requires a >= 0 && x > 0 && y > 0
    ensures a / x / y == a / (x * y)
  {
    var q, s := a / x, a % x;
    var q2, s2 := q / y, q % y;
    assert a == x * q + s;
    assert q == y * q2 + s2;
    assert a == (x * y) * q2 + (x * s2 + s) by {
      assert x * q == x * (y * q2) + x * s2;
      assert x * (y * q2) == (x * y) * q2;
    }
    assert x * s2 <= x * (y - 1) by {
      assert x * (y - 1) - x * s2 == x * (y - 1 - s2);
      if y - 1 - s2 > 0 { MulAtLeast(x, y - 1 - s2); }
    }
    assert 0 <= x * s2 by {
      if s2 > 0 { MulAtLeast(x, s2); }
    }
    assert x * (y - 1) == x * y - x;
    DivModUnique(a, x * y, q2, x * s2 + s);
  }

  /** The digit at weight `s` of `a` is the same as that of `a` reduced mod `m * s`. */
  lemma ModDivMod(a: int, m: int, s: int)
    requires a >= 0 && m > 0 && s > 0
    ensures (a % (m * s)) / s == (a / s) % m
  {
    MulPositive(m, s);
    var q, t := a / (m * s), a % (m * s);
    assert a == (m * s) * q + t;
    var u, v := t / s, t % s;
    assert t == s * u + v;
    DivBelow(t, m, s);
    assert a == s * (m * q + u) + v by {
      assert (m * s) * q == s * (m * q);
      assert s * (m * q + u) == s * (m * q) + s * u;
    }
    DivModUnique(a, s, m * q + u, v);
    assert a / s == m * q + u;
    DivModUnique(a / s, m, q, u);
  }

  /** Reducing mod a multiple of `c` first does not change the residue mod `c`. */
  lemma ModMod(a: int, c: int, e: int)
    requires c > 0 && e > 0
    ensures (a % (c * e)) % c == a % c
  {
    MulPositive(c, e);
    var q, t := a / (c * e), a % (c * e);
    assert a == (c * e) * q + t;
    var u, v := t / c, t % c;
    assert t == c * u + v;
    assert a == c * (e * q + u) + v by {
      assert (c * e) * q == c * (e * q);
      assert c * (e * q + u) == c * (e * q) + c * u;
    }
    DivModUnique(a, c, e * q + u, v);
  }
}
