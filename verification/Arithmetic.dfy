/** Products and quotients of natural numbers. */
module Arithmetic {
  lemma Multiples(k: nat, l: nat, sz: nat)
    requires k < l
    ensures l * sz >= k * sz + sz
  {
    assert l * sz == k * sz + (l - k) * sz;
    assert (l - k) * sz >= sz by { assert (l - k) * sz == sz + (l - k - 1) * sz; }
  }

  // The quotient and the remainder are known by the multiples on either side.
  lemma Quotient(q: nat, sz: nat, k: nat)
    requires sz > 0 && k * sz <= q < k * sz + sz
    ensures q / sz == k && q % sz == q - k * sz
  {
    DivMod(q, sz);
    var l := q / sz;
    if l < k { Multiples(l, k, sz); }
    if k < l { Multiples(k, l, sz); }
    Remainder(q, sz);
  }

  lemma DivMod(d: nat, sz: nat)
    requires sz > 0
    ensures d / sz >= 0 && d / sz * sz <= d < d / sz * sz + sz
  {
  }

  lemma Remainder(q: nat, sz: nat)
    requires sz > 0
    ensures q % sz == q - q / sz * sz
  {
  }
}
