/** Small facts about exact real arithmetic. Squares are kept behind a name so that products of them stay linear. */
module Reals {

  function Abs(x: real): real {
    if x < 0.0 then -x else x
  }

  function Max(a: real, b: real): real {
    if a < b then b else a
  }

  function Square(x: real): real {
    x * x
  }

  lemma SquareSign(x: real)
    ensures Square(x) >= 0.0
  {
  }

  lemma ProductPositive(a: real, b: real)
    requires a > 0.0 && b > 0.0
    ensures a * b > 0.0
  {
  }

  lemma ProductIsPositive(a: real, b: real, c: real)
    requires a > 0.0 && b > 0.0 && c == a * b
    ensures c > 0.0
  {
  }

  lemma SquarePositive(x: real)
    requires x != 0.0
    ensures Square(x) > 0.0
  {
    if x > 0.0 {
      ProductIsPositive(x, x, Square(x));
    } else {
      ProductIsPositive(-x, -x, Square(x));
    }
  }

  lemma QuotientSign(a: real, b: real)
    requires a >= 0.0 && b > 0.0
    ensures a / b >= 0.0
  {
  }

  lemma ProductNonNegative(a: real, b: real)
    requires a >= 0.0 && b >= 0.0
    ensures a * b >= 0.0
  {
  }

  lemma TimesOrder(a: real, b: real, c: real)
    requires a <= b && c >= 0.0
    ensures a * c <= b * c && c * a <= c * b
  {
    ProductNonNegative(b - a, c);
  }

  lemma CancelPositive(x: real, y: real, v: real)
    requires v > 0.0 && x * v <= y * v
    ensures x <= y
  {
    if x > y {
      ProductPositive(x - y, v);
    }
  }

  lemma QuotientBetween(a: real, b: real, r: real)
    requires r > 0.0 && a <= b * r
    ensures a / r <= b
  {
    assert (a / r) * r == a;
    CancelPositive(a / r, b, r);
  }

  lemma QuotientOrder(a: real, b: real, r: real)
    requires r > 0.0 && a <= b
    ensures a / r <= b / r
  {
    assert (b / r) * r == b;
    QuotientBetween(a, b / r, r);
  }

  lemma QuotientSquare(a: real, n: real)
    requires n != 0.0
    ensures Square(a) / n == a * (a / n)
  {
  }

  lemma SquareOfProduct(a: real, b: real)
    ensures Square(a * b) == Square(a) * Square(b)
  {
  }

  lemma SquareTimes(a: real, b: real)
    ensures Square(a) * b == a * (a * b)
  {
  }

  lemma SquareOfSum2(a: real, b: real)
    ensures Square(a + b) == Square(a) + 2.0 * (a * b) + Square(b)
    ensures Square(a - b) == Square(a) - 2.0 * (a * b) + Square(b)
  {
  }

  lemma SquareGrows(a: real, b: real)
    requires 0.0 <= a < b
    ensures Square(a) < Square(b)
  {
    hide Square;
    var p := b - a;
    SquareOfSum2(a, p);
    assert a + p == b;
    SquarePositive(p);
    ProductNonNegative(a, p);
  }

  lemma SquareOrder(a: real, b: real)
    requires a >= 0.0 && b >= 0.0
    ensures a < b <==> Square(a) < Square(b)
    ensures a == b <==> Square(a) == Square(b)
  {
    if a < b {
      SquareGrows(a, b);
    } else if b < a {
      SquareGrows(b, a);
    }
  }

  lemma SquareOfAbs(a: real)
    ensures Square(Abs(a)) == Square(a)
  {
  }
}
