/** Facts about products and integer division that the solver does not find
    on its own. */
module Arith {

  lemma MulLess(a: nat, b: nat, m: nat)
    requires a <= b
    ensures a * m <= b * m
  {
  }

  /** Quotient and remainder are the only pair that rebuilds n. */
  lemma DivModUnique(n: nat, c: nat, q: nat, r: nat)
    requires c >= 1 && r < c && n == q * c + r
    ensures n / c == q && n % c == r
  {
    var q', r' := n / c, n % c;
    assert n == q' * c + r';
    if q' > q {
      MulLess(q + 1, q', c);
      assert false;
    } else if q' < q {
      MulLess(q' + 1, q, c);
      assert false;
    }
  }

  /** The quotient k / c is below r exactly when k is below r multiples of c. */
  lemma QuotientBelow(k: nat, c: nat, r: nat)
    requires c >= 1
    ensures k / c < r <==> k < c * r
  {
    var q := k / c;
    assert k == q * c + k % c;
    if q < r {
      MulLess(q + 1, r, c);
    } else {
      MulLess(r, q, c);
    }
  }
}
