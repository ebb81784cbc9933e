/** Division by a power of two that is not a literal.  */
module Arith {

  function Pow2(n: nat): (r: nat)
    ensures r >= 1
  {
    if n == 0 then 1 else 2 * Pow2(n - 1)
  }

  function Min(a: int, b: int): int {
    if a <= b then a else b
  }

  lemma DivMod(q: int, k: int, r: int)
    requires 0 <= r < k
    ensures (q * k + r) / k == q && (q * k + r) % k == r
  {
    var n := q * k + r;
    assert n == n / k * k + n % k;
    assert (q - n / k) * k == n % k - r;
    if q > n / k {
      MulMono(1, q - n / k, k);
    } else if q < n / k {
      MulMono(q - n / k, -1, k);
    }
  }

  lemma MulMono(a: int, b: int, k: int)
    requires a <= b && 0 <= k
    ensures a * k <= b * k
  {
  }

  lemma MulBelow(a: int, b: int, k: int)
    requires a < b && 0 <= k
    ensures a * k + k <= b * k
  {
    MulMono(a + 1, b, k);
  }

  /** A quotient is bounded as soon as the dividend is.  */
  lemma DivBelow(n: int, k: int, m: int)
    requires 0 <= n < m * k && 0 < k
    ensures 0 <= n / k < m && 0 <= n % k < k && n == n / k * k + n % k
  {
    assert n == n / k * k + n % k;
    if n / k >= m {
      MulMono(m, n / k, k);
    }
    if n / k < 0 {
      MulMono(n / k, -1, k);
    }
  }

  /** The pair (c, s) can be read off c * k + s.  */
  lemma PairUnique(c: int, s: int, c': int, s': int, k: int)
    requires 0 <= s < k && 0 <= s' < k
    requires c * k + s == c' * k + s'
    ensures c == c' && s == s'
  {
    DivMod(c, k, s);
    DivMod(c', k, s');
  }
}
