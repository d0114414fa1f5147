/** Division by a number that is not a constant. */
module Division {

  lemma ProductOrder(p: nat, a: int, b: int)
    requires a <= b
    ensures p * a <= p * b
  {
  }

  /** The quotient decides the order of two numbers. */
  lemma TopOrders(x: nat, d: nat, y: nat, v: nat, p: nat)
    requires x < p && d < v
    ensures x + p * d < y + p * v
  {
    ProductOrder(p, d + 1, v);
    assert p * (d + 1) == p * d + p;
  }

  lemma TopsEqual(x: nat, d: nat, y: nat, v: nat, p: nat)
    requires x < p && y < p && x + p * d == y + p * v
    ensures x == y && d == v
  {
    if d < v {
      TopOrders(x, d, y, v, p);
    } else if v < d {
      TopOrders(y, v, x, d, p);
    }
  }

  /** A quotient and a remainder are the quotient and the remainder. */
  lemma DivisionUnique(x: nat, m: nat, q: nat, r: nat)
    requires m > 0 && x == q * m + r && r < m
    ensures x / m == q && x % m == r
  {
    TopsEqual(r, q, x % m, x / m, m);
  }

  predicate Multiple(x: nat, p: nat)
    requires p > 0
  {
    x % p == 0
  }

  lemma MultipleOfDouble(h: nat, q: nat)
    requires q > 0
    ensures Multiple(2 * h, 2 * q) <==> Multiple(h, q)
    ensures !Multiple(2 * h + 1, 2 * q)
  {
    var k, r := h / q, h % q;
    DivisionUnique(2 * h, 2 * q, k, 2 * r);
    DivisionUnique(2 * h + 1, 2 * q, k, 2 * r + 1);
  }
}
