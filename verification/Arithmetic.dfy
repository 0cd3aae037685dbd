/** Products and quotients of variables, kept behind names so that proofs meet them only when asked. */
module Arithmetic {

  function Times(a: nat, b: nat): nat { a * b }

  lemma MulMono(a: nat, b: nat, k: nat)
    requires a <= b
    ensures a * k <= b * k && Times(a, k) <= Times(b, k)
  {
  }

  lemma DivModUnique(d: nat, q: nat, r: nat)
    requires r < q
    ensures (d * q + r) / q == d && (d * q + r) % q == r
  {
    var n := d * q + r;
    var d', r' := n / q, n % q;
    assert n == d' * q + r';
    assert (d' + 1) * q == d' * q + q && (d + 1) * q == d * q + q;
    if d' < d {
      MulMono(d' + 1, d, q);
    } else if d < d' {
      MulMono(d + 1, d', q);
    }
  }

  lemma DivMod(n: nat, q: nat)
    requires q > 0
    ensures 0 <= n / q && 0 <= n % q < q && n == Times(n / q, q) + n % q
  {
  }
}
