/** The two functions of the C++ mathematics library that the magnitudes use, as
    parameters with the properties the model needs of them. */
module MathLibrary {

  /** log10 is only ever taken of a positive number. */
  type Positive = x: real | x > 0.0 witness 1.0

  function Square(x: real): real {
    x * x
  }

  function Product(a: Positive, b: Positive): Positive {
    PositiveProduct(a, b);
    a * b
  }

  lemma {:induction false} PositiveProduct(a: real, b: real)
    requires a > 0.0 && b > 0.0
    ensures a * b > 0.0
  {
  }

  datatype MathLibrary = MathLibrary(log10: Positive -> real, hypot: (real, real) -> real) {

    /** hypot(a, b) is the length of the hypotenuse of a right triangle. */
    ghost predicate HypotIsEuclidean() {
      forall a, b :: hypot(a, b) >= 0.0 && Square(hypot(a, b)) == Square(a) + Square(b)
    }

    /** log10 turns products into sums. */
    ghost predicate LogOfProducts() {
      forall a: Positive, b: Positive :: log10(Product(a, b)) == log10(a) + log10(b)
    }
  }

  /** Multiplication by name: what a line of slope a gains over a run b, what b equal terms a add up to. */
  function Times(a: real, b: real): real {
    a * b
  }

  lemma {:induction false} TimesAdds(a: real, b: real, c: real)
    ensures Times(a, b + c) == Times(a, b) + Times(a, c)
    ensures Times(a, 1.0) == a && Times(a, 0.0) == 0.0
  {
  }

  lemma {:induction false} TimesCommutes(a: real, b: real)
    ensures Times(a, b) == Times(b, a)
  {
  }

  lemma {:induction false} TimesZero(a: real)
    ensures Times(0.0, a) == 0.0
  {
  }

  lemma {:induction false} TimesGrows(a: real, b: real, c: real)
    requires a <= b && c >= 0.0
    ensures Times(a, c) <= Times(b, c)
  {
    var gap := b - a;
    assert gap * c >= 0.0;
    assert gap * c == b * c - a * c;
  }

  lemma {:induction false} TimesPositive(a: real, b: real)
    requires a > 0.0 && b > 0.0
    ensures Times(a, b) > 0.0
  {
    PositiveProduct(a, b);
  }

  /** A quotient by a count, compared and multiplied back. */
  lemma {:induction false} QuotientCompares(q: real, sum: real, count: real)
    requires count > 0.0
    ensures Times(q, count) == sum <==> q == sum / count
    ensures Times(q, count) <= sum <==> q <= sum / count
  {
    var gap := sum / count - q;
    assert gap * count == sum - q * count;
    if gap > 0.0 {
      PositiveProduct(gap, count);
    } else if gap < 0.0 {
      PositiveProduct(-gap, count);
      assert (-gap) * count == -(gap * count);
    }
  }

  lemma {:induction false} SquareShift(a: real, b: real)
    ensures Square(a + b) == Square(a) + 2.0 * Times(b, a) + Square(b)
  {
  }

  lemma {:induction false} SquareOfNegation(z: real)
    ensures Square(-z) == Square(z)
  {
  }

  lemma {:induction false} SquareIncreases(a: real, b: real)
    requires 0.0 <= a < b
    ensures Square(a) < Square(b)
  {
    var gap := b - a;
    assert b == a + gap;
    assert Square(b) == Square(a) + 2.0 * (a * gap) + gap * gap;
    assert a * gap >= 0.0 && gap * gap > 0.0;
  }

  lemma {:induction false} SquareIsPositive(x: real)
    requires x != 0.0
    ensures Square(x) > 0.0
  {
    SquareOfNegation(x);
    assert Square(0.0) == 0.0;
    hide Square;
    SquareIncreases(0.0, if x > 0.0 then x else -x);
  }

  /** Non-negative lengths compare as their squares. */
  lemma {:induction false} SquaresCompare(a: real, b: real)
    requires a >= 0.0 && b >= 0.0
    ensures a < b <==> Square(a) < Square(b)
    ensures a == b <==> Square(a) == Square(b)
  {
    hide Square;
    if a < b {
      SquareIncreases(a, b);
    } else if b < a {
      SquareIncreases(b, a);
    }
  }

  /** The square of a product is the product of the squares. */
  lemma {:induction false} SquareOfTimes(a: real, b: real)
    ensures Square(Times(a, b)) == Times(Square(a), Square(b))
  {
    assert (a * b) * (a * b) == (a * a) * (b * b);
  }

  lemma {:induction false} SquareIsNotNegative(x: real)
    ensures Square(x) >= 0.0
  {
    SquareOfNegation(x);
    assert x >= 0.0 ==> x * x >= 0.0;
    assert x <= 0.0 ==> (-x) * (-x) >= 0.0;
  }

  /** The dot product and the cross product of two plane vectors share out the product of their squares. */
  lemma {:induction false} DotAndCross(a0: real, b0: real, a1: real, b1: real)
    ensures Times(Square(a0) + Square(b0), Square(a1) + Square(b1)) ==
            Square(Times(a0, a1) + Times(b0, b1)) + Square(Times(a0, b1) - Times(b0, a1))
  {
    var p, q, r, t := a0 * a1, b0 * b1, a0 * b1, b0 * a1;
    assert (a0 * a0 + b0 * b0) * (a1 * a1 + b1 * b1) == p * p + r * r + t * t + q * q;
    assert p * q == r * t;
  }

  /** The dot product of two vectors is at most the product of their lengths. */
  lemma {:induction false} DotWithinLengths(a0: real, b0: real, h0: real, a1: real, b1: real, h1: real)
    requires h0 >= 0.0 && Square(h0) == Square(a0) + Square(b0)
    requires h1 >= 0.0 && Square(h1) == Square(a1) + Square(b1)
    ensures Times(a0, a1) + Times(b0, b1) <= Times(h0, h1)
  {
    var dot := Times(a0, a1) + Times(b0, b1);
    assert Times(h0, h1) >= 0.0;
    hide Times, Square;
    SquareOfTimes(h0, h1);
    DotAndCross(a0, b0, a1, b1);
    SquareIsNotNegative(Times(a0, b1) - Times(b0, a1));
    if dot > Times(h0, h1) {
      SquareIncreases(Times(h0, h1), dot);
    }
  }

  lemma {:induction false} SquareOfDifference(a: real, b: real)
    ensures Square(b - a) == Square(b) + Square(a) - 2.0 * Times(a, b)
  {
  }

  /** Lengths differ by no more than the vectors do. */
  lemma {:induction false} LengthsDifferLess(a0: real, b0: real, h0: real, a1: real, b1: real, h1: real)
    requires h0 >= 0.0 && Square(h0) == Square(a0) + Square(b0)
    requires h1 >= 0.0 && Square(h1) == Square(a1) + Square(b1)
    ensures Square(h1 - h0) <= Square(a1 - a0) + Square(b1 - b0)
  {
    hide Times, Square;
    DotWithinLengths(a0, b0, h0, a1, b1, h1);
    SquareOfDifference(h0, h1);
    SquareOfDifference(a0, a1);
    SquareOfDifference(b0, b1);
  }
}
