/** Minimum, lists without repetitions, and facts about division by variables, used by the other modules. */
module Arith {
  function Min(a: nat, b: nat): nat { if a <= b then a else b }

  ghost predicate Distinct(s: seq<nat>) {
    forall i, j :: 0 <= i < j < |s| ==> s[i] != s[j]
  }

  lemma SmallMultiple(d: int, n: int)
    requires -n < d * n < n
    ensures d == 0
  {
  }

  /** Quotient and remainder are determined by their defining equation. */
  lemma DivModUnique(x: nat, n: nat, q: nat, r: nat)
    requires 0 < n && x == n * q + r && r < n
    ensures x / n == q && x % n == r
  {
    var d := x / n - q;
    assert d * n == r - x % n by {
      assert x == n * (x / n) + x % n;
      assert d * n == (x / n) * n - q * n;
    }
    SmallMultiple(d, n);
  }

  lemma ModWrap(x: nat, n: nat)
    requires 0 < n && x < 2 * n
    ensures x % n == if x < n then x else x - n
  {
    if x < n { DivModUnique(x, n, 0, x); } else { DivModUnique(x, n, 1, x - n); }
  }

  lemma MulMono(a: nat, b: nat, n: nat)
    requires a <= b
    ensures a * n <= b * n
  {
  }

  /** One digit of a mixed-radix number. */
  lemma Digit(hi: nat, lo: nat, n: nat)
    requires lo < n
    ensures (hi * n + lo) / n == hi && (hi * n + lo) % n == lo
  {
    assert hi * n == n * hi;
    DivModUnique(hi * n + lo, n, hi, lo);
  }

  lemma DigitBound(hi: nat, m: nat, lo: nat, n: nat)
    requires hi < m && lo < n
    ensures hi * n + lo < m * n
  {
    MulMono(hi + 1, m, n);
    assert (hi + 1) * n == hi * n + n;
  }

  lemma SmallMultipleSign(n: int, q: int, r: int)
    requires 0 <= r < n && 0 <= n * q + r
    ensures 0 <= q
  {
  }

  lemma DivNonnegative(x: nat, n: nat)
    requires 0 < n
    ensures x / n >= 0
  {
    assert x == n * (x / n) + x % n;
    SmallMultipleSign(n, x / n, x % n);
  }

  lemma DivBound(x: nat, m: nat, n: nat)
    requires 0 < n && x < m * n
    ensures x / n < m && x == x / n * n + x % n
  {
    assert x == n * (x / n) + x % n;
    if x / n >= m { MulMono(m, x / n, n); }
  }

  lemma QuotientBounds(x: nat, n: nat)
    requires 0 < n
    ensures x / n * n <= x < (x / n + 1) * n
  {
    DivMod(x, n);
    assert (x / n + 1) * n == x / n * n + n;
  }

  /** Fewer than `n` apart, different numbers have different remainders. */
  lemma SlotsDiffer(i: nat, j: nat, n: nat)
    requires 0 < n && i < j < i + n
    ensures i % n != j % n
  {
    assert i == i / n * n + i % n && j == j / n * n + j % n by { DivMod(i, n); DivMod(j, n); }
    if i % n == j % n {
      assert j - i == (j / n - i / n) * n;
      SmallMultiple(j / n - i / n, n);
    }
  }

  lemma DivMod(x: int, n: nat)
    requires 0 < n
    ensures x == x / n * n + x % n
  {
    assert x == n * (x / n) + x % n;
  }
}
