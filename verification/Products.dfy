/** Multiplication and division by a variable, written as loops over addition so that a
    solver meets a nonlinear term only in the lemmas that call for one. */
module Products {
  /** a * b. */
  function Times(a: int, b: int): int
    decreases a
  {
    if a <= 0 then 0 else b + Times(a - 1, b)
  }

  /** a / b for non-negative `a`. */
  function Quotient(a: int, b: int): (q: int)
    requires 0 < b
    ensures 0 <= q
    decreases a
  {
    if a < b then 0 else 1 + Quotient(a - b, b)
  }

  lemma {:induction false} TimesIsProduct(a: int, b: int)
    requires 0 <= a
    ensures Times(a, b) == a * b
    decreases a
  {
    if a > 0 {
      TimesIsProduct(a - 1, b);
      assert (a - 1) * b == a * b - b;
    }
  }

  /** The two inequalities that define the quotient. */
  lemma {:induction false} QuotientBounds(a: int, b: int)
    requires 0 <= a && 0 < b
    ensures Quotient(a, b) * b <= a < Quotient(a, b) * b + b
    decreases a
  {
    var q := Quotient(a, b);
    if a >= b {
      QuotientBounds(a - b, b);
      assert (q - 1) * b == q * b - b;
    }
  }

  lemma {:induction false} TimesNonNegative(a: int, b: int)
    requires 0 <= b
    ensures 0 <= Times(a, b)
    decreases a
  {
    if a > 0 { TimesNonNegative(a - 1, b); }
  }

  lemma {:induction false} TimesMono(a: int, b: int, c: int)
    requires a <= b && 0 <= c
    ensures Times(a, c) <= Times(b, c)
    decreases b
  {
    if b > 0 {
      if a < b { TimesMono(a, b - 1, c); } else { TimesNonNegative(b - 1, c); }
    }
  }

  lemma MulMono(a: int, b: int, c: int)
    requires a <= b && 0 <= c
    ensures a * c <= b * c
  {
  }

  lemma MulLess(a: int, b: int, c: int)
    requires a < b && 0 < c
    ensures a * c < b * c
  {
  }

  lemma MulCancel(a: int, b: int, c: int)
    requires 0 < c && a * c <= b * c
    ensures a <= b
  {
    if b < a { MulLess(b, a, c); }
  }

  lemma MulCommutes(a: int, b: int)
    ensures a * b == b * a
  {
  }

  lemma {:induction false} QuotientUnique(a: int, b: int, q: int)
    requires 0 <= a && 0 < b && 0 <= q && q * b <= a < q * b + b
    ensures q == Quotient(a, b)
  {
    var r := Quotient(a, b);
    QuotientBounds(a, b);
    NoGap(q, r, b);
    NoGap(r, q, b);
  }

  lemma NoGap(q: int, r: int, b: int)
    requires 0 < b && q * b < r * b + b
    ensures q <= r
  {
    assert (r + 1) * b == r * b + b;
    if r + 1 <= q {
      MulMono(r + 1, q, b);
    }
  }

  /** The machine's multiplication. */
  method Multiply(a: nat, b: int) returns (r: int)
    ensures r == Times(a, b)
  {
    TimesIsProduct(a, b);
    r := a * b;
  }

  /** The machine's division of unsigned values. */
  method Divide(a: nat, b: int) returns (q: nat)
    requires 0 < b
    ensures q == Quotient(a, b)
  {
    DivisionBounds(a, b);
    QuotientUnique(a, b, a / b);
    q := a / b;
  }

  lemma DivisionBounds(a: nat, b: int)
    requires 0 < b
    ensures 0 <= a / b && (a / b) * b <= a < (a / b) * b + b
  {
  }
}
