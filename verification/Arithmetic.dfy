/** Products and quotients by the part size. */
module Arithmetic {

  lemma MulMono(p: nat, q: nat, d: nat)
    requires p <= q
    ensures p * d <= q * d
  {
  }

  lemma MulNext(p: nat, d: nat)
    ensures (p + 1) * d == p * d + d
  {
  }

  lemma MulAdd(a: nat, b: nat, d: nat)
    ensures (a + b) * d == a * d + b * d
  {
  }

  lemma SmallMod(a: nat, m: nat)
    requires a < m
    ensures a % m == a
  {
  }

  /** Division by d, without the division. */
  lemma DivBounds(a: nat, d: nat)
    requires d > 0
    ensures (a / d) * d <= a < (a / d) * d + d
    ensures a == (a / d) * d + a % d
  {
  }

  lemma MulCancel(p: nat, q: nat, d: nat)
    requires p * d < q * d + d
    ensures p <= q
  {
    if p > q {
      MulMono(q + 1, p, d);
      MulNext(q, d);
      assert false;
    }
  }

  lemma MulCancelStrict(p: nat, q: nat, d: nat)
    requires p * d < q * d
    ensures p < q
  {
    if p >= q {
      MulMono(q, p, d);
      assert false;
    }
  }

  lemma DivIs(a: nat, d: nat, q: nat)
    requires d > 0 && q * d <= a < q * d + d
    ensures a / d == q && a % d == a - q * d
  {
    DivBounds(a, d);
    MulCancel(a / d, q, d);
    MulCancel(q, a / d, d);
  }

  lemma DivMono(a: nat, b: nat, d: nat)
    requires a <= b && d > 0
    ensures a / d <= b / d
  {
    DivBounds(a, d);
    DivBounds(b, d);
    MulCancel(a / d, b / d, d);
  }

  lemma DivScale(a: nat, b: nat, k: nat)
    requires b > 0 && k > 0
    ensures b * k > 0 && (a * k) / (b * k) == a / b
  {
    var q := a / b;
    DivBounds(a, b);
    MulMono(1, k, b);
    MulMono(q * b, a, k);
    MulStrict(a, q * b + b, k);
    MulAdd(q * b, b, k);
    MulAssociates(q, b, k);
    DivIs(a * k, b * k, q);
  }

  lemma MulStrict(a: nat, b: nat, d: nat)
    requires a < b && d > 0
    ensures a * d < b * d
  {
  }

  lemma MulAssociates(a: nat, b: nat, c: nat)
    ensures (a * b) * c == a * (b * c)
  {
  }
}
