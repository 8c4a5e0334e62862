/** The smaller of two numbers, and facts about products and quotients, that several modules need. */
module Arithmetic {
  function Min(a: nat, b: nat): nat {
    if a < b then a else b
  }

  lemma Times(k: int, p: int)
    requires p >= 0
    ensures k >= 1 ==> k * p >= p
    ensures k <= -1 ==> k * p <= -p
  {
  }

  lemma SameQuotient(p: int, q: int, r: int, q': int, r': int)
    requires q * p + r == q' * p + r' && 0 <= r < p && 0 <= r' < p
    ensures q == q' && r == r'
  {
    assert (q' - q) * p == q' * p - q * p;
    Times(q' - q, p);
  }

  lemma QuotientIs(v: nat, p: nat, q: nat, r: nat)
    requires p > 0 && v == q * p + r && r < p
    ensures v / p == q && v % p == r
  {
    SameQuotient(p, q, r, v / p, v % p);
  }

  lemma QuotientGrows(a: nat, b: nat, d: nat)
    requires a <= b && d > 0
    ensures a / d <= b / d
  {
    var more := b / d - a / d;
    Times(more, d);
    assert more * d == (b / d) * d - (a / d) * d;
  }

  /** Whole multiples: one more of a smaller number still fits. */
  lemma NextMultiple(i: nat, n: nat, d: nat)
    requires i < n
    ensures i * d + d <= n * d
  {
    var k := n - i - 1;
    assert n * d == (i + 1 + k) * d == i * d + d + k * d;
  }

  lemma Scaled(a: nat, b: nat, p: nat)
    requires a <= b
    ensures a * p <= b * p
  {
    if a < b {
      NextMultiple(a, b, p);
    }
  }

  /** The rounded-up quotient counts the multiples below a number. */
  lemma RoundedUp(k: nat, n: nat, d: nat)
    requires d > 0
    ensures k * d < n <==> k < (n + d - 1) / d
  {
    var q := (n + d - 1) / d;
    assert n + d - 1 == q * d + (n + d - 1) % d;
    if k < q {
      NextMultiple(k, q, d);
    } else {
      Times(k - q, d);
      assert k * d == q * d + (k - q) * d;
      assert k > q || k * d == q * d;
    }
  }
}
