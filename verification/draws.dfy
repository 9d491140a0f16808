/** The game asks `Math.random()` for a number in [0, 1) and scales it
    with `Math.floor(Math.random() * n)`. A draw is modelled as the exact
    fraction num/den, supplied by the caller. */
module Draws {

  datatype Draw = Draw(num: nat, den: nat)

  /** The fraction lies in [0, 1), as every value of `Math.random()` does. */
  predicate IsUnitDraw(d: Draw) {
    d.num < d.den
  }

  /** `Math.floor(d * n)`: an index into a collection of `n` elements. */
  function Scale(d: Draw, n: nat): (r: nat)
    requires IsUnitDraw(d)
    ensures r * d.den <= d.num * n < (r + 1) * d.den
    ensures n > 0 ==> r < n
    ensures n == 0 ==> r == 0
    ensures d.num == 0 ==> r == 0
  {
    FloorFacts(d.num, d.den, n);
    d.num * n / d.den
  }

  /** What rounding `num * n / den` down gives for a fraction below one. */
  lemma FloorFacts(num: nat, den: nat, n: nat)
    requires num < den
    ensures 0 <= num * n / den
    ensures (num * n / den) * den <= num * n < (num * n / den + 1) * den
    ensures n > 0 ==> num * n / den < n
    ensures n == 0 ==> num * n / den == 0
    ensures num == 0 ==> num * n / den == 0
  {
    var x := num * n;
    FloorBounds(x, den);
    if n > 0 {
      ProductBelow(num, den, n);
      QuotientBelow(x, den, n);
    } else {
      assert x == 0;
    }
    if num == 0 {
      assert x == 0;
    }
  }

  /** Integer division rounds down: `x / den` is the largest `q` with
      `q * den <= x`, and it is never negative. */
  lemma FloorBounds(x: nat, den: nat)
    requires den > 0
    ensures 0 <= x / den
    ensures (x / den) * den <= x < (x / den + 1) * den
  {
    var q, m := x / den, x % den;
    assert x == q * den + m && 0 <= m < den;
    assert (q + 1) * den == q * den + den;
    assert (q + 1) * den > 0;
  }

  /** A fraction below one shrinks a positive number. */
  lemma ProductBelow(num: nat, den: nat, n: nat)
    requires num < den && n > 0
    ensures num * n < den * n
  {
    assert den * n - num * n == (den - num) * n;
  }

  /** A quotient by `den` of a number below `den * n` is below `n`. */
  lemma QuotientBelow(x: nat, den: nat, n: nat)
    requires den > 0 && x < den * n
    ensures x / den < n
  {
    var q := x / den;
    FloorBounds(x, den);
    assert (n - q) * den == n * den - q * den;
  }
}
