/**
  * Decimal money as whole numbers of 1e-8 units (the database keeps 8 decimals) and
  * percentages as whole hundredths of a percent. Products and quotients before a rounding
  * are exact. `toDecimalPlaces(7, ROUND_DOWN)` leaves a multiple of ten units.
  */
module Money {

  type Percent = p: nat | p <= 10000

  function Quotient(a: nat, d: nat): (q: nat)
    requires d > 0
    ensures q * d <= a < (q + 1) * d
  {
    a / d
  }

  /** The percentage of an amount, truncated to 7 decimals. */
  function PercentOf(x: nat, p: Percent): nat {
    10 * Quotient(x * p, 100000)
  }

  /** A multiple of ten units, at most the exact percentage and less than ten units below it. */
  lemma PercentBounds(x: nat, p: Percent)
    ensures PercentOf(x, p) % 10 == 0
    ensures PercentOf(x, p) * 10000 <= x * p < (PercentOf(x, p) + 10) * 10000
  {
  }

  lemma QuotientMonotone(a: nat, b: nat, d: nat)
    requires d > 0 && a <= b
    ensures Quotient(a, d) <= Quotient(b, d)
  {
    var p, q := Quotient(a, d), Quotient(b, d);
    LessProduct(p, q + 1, d);
  }

  lemma LessProduct(p: int, q: int, d: nat)
    requires p * d < q * d
    ensures p < q
  {
    ScaleOrder(p, q, d);
  }

  lemma ScaleOrder(p: int, q: int, d: nat)
    ensures p >= q ==> p * d >= q * d
  {
    if p >= q {
      assert p * d == q * d + (p - q) * d;
    }
  }

  lemma CancelFactor(p: int, q: int, d: nat)
    requires d > 0 && p * d <= q * d
    ensures p <= q
  {
    assert (q + 1) * d == q * d + d;
    ScaleOrder(p, q + 1, d);
  }

  lemma QuotientUnique(a: nat, d: nat, q: nat)
    requires d > 0 && q * d <= a < (q + 1) * d
    ensures Quotient(a, d) == q
  {
    LessProduct(q, Quotient(a, d) + 1, d);
    LessProduct(Quotient(a, d), q + 1, d);
  }

  lemma PercentMonotone(x: nat, y: nat, p: Percent)
    requires x <= y
    ensures PercentOf(x, p) <= PercentOf(y, p)
  {
    assert x * p <= y * p;
    QuotientMonotone(x * p, y * p, 100000);
  }
}
