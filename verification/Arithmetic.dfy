/** Division facts used by the routing and reverse-zone models. */
module Arithmetic {

  lemma Multiple(k: int, d: nat)
    ensures k >= 1 ==> k * d >= d
    ensures k <= -1 ==> k * d <= 0 - d
  {
  }

  lemma OneMoreTime(k: int, q: int)
    ensures (k + 1) * q == k * q + q
  {
  }

  lemma DivUnique(n: nat, d: nat, q: nat, r: nat)
    requires n == q * d + r && r < d
    ensures n / d == q && n % d == r
  {
    var k := n / d - q;
    assert n == (n / d) * d + n % d;
    assert k * d == (n / d) * d - q * d;
    Multiple(k, d);
  }

  lemma Rearranged(t: int, m: int, r: int, block: int)
    ensures (t * m + r) * block == t * (m * block) + r * block
  {
    assert (t * m) * block == t * (m * block);
    assert (t * m + r) * block == (t * m) * block + r * block;
  }

  lemma RemainderFits(m: nat, r: nat, block: nat)
    requires r < m
    ensures r * block + block <= m * block
  {
    Multiple(m - r, block);
    assert m * block == r * block + (m - r) * block;
  }

  /** Adding less than a block to a multiple of it does not change a coarser quotient. */
  lemma CoarserQuotient(q: nat, m: nat, block: nat, i: nat)
    requires i < block && m >= 1
    ensures m * block >= 1 && (q * block + i) / (m * block) == (q * block) / (m * block)
  {
    var t, r, coarse := q / m, q % m, m * block;
    Multiple(m, block);
    SameQuotient(q, m, t, r, block, 0);
    SameQuotient(q, m, t, r, block, i);
    assert q * block + 0 == q * block;
  }

  lemma SameQuotient(q: nat, m: nat, t: nat, r: nat, block: nat, i: nat)
    requires q == t * m + r && r < m && i < block
    ensures m * block >= 1 && (q * block + i) / (m * block) == t
  {
    Multiple(m, block);
    Rearranged(t, m, r, block);
    RemainderFits(m, r, block);
    Fits(q * block + i, m * block, t, r * block + i);
  }

  lemma Fits(n: nat, d: nat, q: nat, r: int)
    requires n == q * d + r && 0 <= r < d
    ensures n / d == q
  {
    DivUnique(n, d, q, r);
  }

  function Pow2(e: nat): (p: nat)
    ensures p >= 1
  {
    if e == 0 then 1 else 2 * Pow2(e - 1)
  }

  lemma {:induction false} Pow2Sum(a: nat, b: nat)
    ensures Pow2(a + b) == Pow2(a) * Pow2(b)
  {
    if a > 0 {
      Pow2Sum(a - 1, b);
      assert 2 * (Pow2(a - 1) * Pow2(b)) == (2 * Pow2(a - 1)) * Pow2(b);
    }
  }
}
