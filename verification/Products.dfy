/** Products and quotients by a number that is not a constant, reduced to additions. */
module Products {

  /** n * d */
  function Times(n: nat, d: nat): nat {
    if n == 0 then 0 else Times(n - 1, d) + d
  }

  lemma {:induction false} TimesIs(n: nat, d: nat)
    ensures Times(n, d) == n * d
  {
    if n != 0 {
      TimesIs(n - 1, d);
      assert n * d == (n - 1) * d + d;
    }
  }

  lemma {:induction false} TimesApart(a: nat, b: nat, d: nat)
    requires a < b
    ensures Times(a, d) + d <= Times(b, d)
    decreases b
  {
    if a + 1 < b {
      TimesApart(a, b - 1, d);
    }
  }

  lemma TimesGrows(a: nat, b: nat, d: nat)
    requires a <= b
    ensures Times(a, d) <= Times(b, d)
  {
    if a < b { TimesApart(a, b, d); }
  }

  lemma DivMod(x: nat, d: nat)
    requires 0 < d
    ensures x == Times(x / d, d) + x % d && x % d < d && 0 <= x / d
  {
    TimesIs(x / d, d);
  }

  lemma DivModUnique(x: nat, d: nat, q: nat, r: nat)
    requires r < d && x == Times(q, d) + r
    ensures x / d == q && x % d == r
  {
    DivMod(x, d);
    if q < x / d {
      TimesApart(q, x / d, d);
    } else if x / d < q {
      TimesApart(x / d, q, d);
    }
  }

  /** Moving k on inside a unit of size d, or exactly to the start of the next unit. */
  lemma Advance(x: nat, d: nat, k: nat)
    requires 0 < d && x % d + k <= d
    ensures x % d + k < d ==> (x + k) / d == x / d && (x + k) % d == x % d + k
    ensures x % d + k == d ==> (x + k) / d == x / d + 1 && (x + k) % d == 0
  {
    DivMod(x, d);
    if x % d + k < d {
      DivModUnique(x + k, d, x / d, x % d + k);
    } else {
      DivModUnique(x + k, d, x / d + 1, 0);
    }
  }

  lemma QuotientBelow(x: nat, d: nat, n: nat)
    requires 0 < d
    ensures x / d < n <==> x < Times(n, d)
    ensures 0 <= x / d
  {
    DivMod(x, d);
    if x / d < n {
      TimesApart(x / d, n, d);
    } else if n < x / d {
      TimesApart(n, x / d, d);
    }
  }
}
