/** Multiplication and division by a variable. */
module Division {

  lemma MulMonotone(a: nat, b: nat, c: nat)
    requires a <= b
    ensures a * c <= b * c
  {
  }

  lemma DivisionBounds(a: nat, b: nat)
    requires b > 0
    ensures a / b * b <= a < a / b * b + b
    ensures a == a / b * b + a % b
  {
  }

  /** Quotient and remainder are unique. */
  lemma DivIs(a: nat, b: nat, q: nat, r: nat)
    requires b > 0 && a == q * b + r && r < b
    ensures a / b == q && a % b == r
  {
    DivisionBounds(a, b);
    if a / b < q { MulMonotone(a / b + 1, q, b); }
    if a / b > q { MulMonotone(q + 1, a / b, b); }
  }

  lemma DivMonotone(a: nat, b: nat, c: nat)
    requires c > 0 && a <= b
    ensures a / c <= b / c
  {
    var p, q: nat := a / c, b / c;
    DivisionBounds(a, c);
    DivisionBounds(b, c);
    if p > q { MulMonotone(q + 1, p, c); }
  }
}
