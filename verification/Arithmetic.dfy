/** Products and quotients with a variable factor, one step at a time. */
module Arithmetic {

  lemma MulOrder(a: int, b: int, x: int)
    requires x > 0
    ensures a > b ==> a * x >= b * x + x
    ensures a < b ==> a * x + x <= b * x
  {
    if a > b {
      assert (a - b - 1) * x >= 0;
    } else if a < b {
      assert (b - a - 1) * x >= 0;
    }
  }

  /** Quotient and remainder are unique. */
  lemma DivModIs(i: int, x: int, q: int, r: int)
    requires 0 <= r < x && i == q * x + r
    ensures i / x == q && i % x == r
  {
    MulOrder(i / x, q, x);
  }

  lemma DivModFact(i: int, x: int)
    requires x > 0
    ensures i == i / x * x + i % x && 0 <= i % x < x
  {}

  lemma Distribute(a: int, b: int, c: int)
    ensures (a + b) * c == a * c + b * c
  {}

  lemma Associate(a: int, b: int, c: int)
    ensures (a * b) * c == a * (b * c)
  {}

  lemma NotNegative(a: int, c: int)
    requires a >= 0 && c >= 0
    ensures a * c >= 0
  {}

  /** Dividing twice is dividing by the product. */
  lemma DivTwice(x: int, a: int, b: int)
    requires a > 0 && b > 0
    ensures a * b > 0 && x / (a * b) == x / a / b
  {
    var q, r, s := x / a / b, x / a % b, x % a;
    DivModFact(x, a);
    DivModFact(x / a, b);
    MulOrder(0, b, a);
    MulOrder(r, b, a);
    NotNegative(r, a);
    Distribute(q * b, r, a);
    Associate(q, b, a);
    DivModIs(x, a * b, q, r * a + s);
  }

  /** A remainder may be taken before adding. */
  lemma ModAdd(x: int, y: int, d: int)
    requires d > 0
    ensures (x % d + y) % d == (x + y) % d
  {
    var q := (x % d + y) / d;
    DivModFact(x, d);
    DivModFact(x % d + y, d);
    Distribute(x / d, q, d);
    DivModIs(x + y, d, x / d + q, (x % d + y) % d);
  }

  /** The remainder of a number within one divisor of the range. */
  lemma ModOnce(x: int, d: int)
    requires d > 0 && -d <= x < 2 * d
    ensures x % d == if x < 0 then x + d else if x < d then x else x - d
  {
    var q := if x < 0 then -1 else if x < d then 0 else 1;
    DivModIs(x, d, q, x - q * d);
  }
}
