/** The few facts about products and quotients the solver does not find by itself. */
module Arithmetic {

  lemma MulMono(a: int, b: int, c: nat)
    ensures a <= b ==> a * c <= b * c
  {
  }

  lemma MulAdd(a: int, b: int, c: int)
    ensures (a + b) * c == a * c + b * c
  {
  }

  lemma DivMod(n: nat, c: nat)
    ensures c > 0 ==> n == n / c * c + n % c && 0 <= n / c && 0 <= n % c < c
  {
  }

  lemma DivModUnique(n: nat, c: nat, q: nat, r: nat)
    requires c > 0 && n == q * c + r && r < c
    ensures n / c == q && n % c == r
  {
    DivMod(n, c);
    var d := n / c;
    if d < q {
      MulAdd(d, 1, c);
      MulMono(d + 1, q, c);
    } else if q < d {
      MulAdd(q, 1, c);
      MulMono(q + 1, d, c);
    }
  }

  lemma DivBound(n: nat, c: nat, m: nat)
    requires c > 0
    ensures n / c < m <==> n < m * c
  {
    DivMod(n, c);
    if n / c < m {
      MulMono(n / c + 1, m, c);
      MulAdd(n / c, 1, c);
    } else {
      MulMono(m, n / c, c);
    }
  }

  /** The last of `n` blocks of `s` ends within n * s. */
  lemma BlockBound(k: nat, n: nat, s: nat)
    requires k < n
    ensures 0 <= k * s && k * s + s <= n * s
  {
    MulAdd(k, 1, s);
    MulMono(k + 1, n, s);
  }
}
