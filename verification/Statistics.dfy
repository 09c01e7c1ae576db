/**
 * The mathematics behind the sample statistics: sums over a window of samples y(0) .. y(n-1), taken at
 * the abscissas 0 .. n-1, the sum of squared errors of a straight line, and the closed integer form of
 * the regression slope with its 64-bit products.
 */
module Statistics {
  import opened Words
  import opened Division

  /** FLT_MAX, the variance reported for a single sample. */
  const FLT_MAX: real := 340282346638528859811704183484516925440.0

  function Sum(ys: seq<real>): real {
    if ys == [] then 0.0 else Sum(ys[..|ys| - 1]) + ys[|ys| - 1]
  }

  function SumSquares(ys: seq<real>): real {
    if ys == [] then 0.0 else SumSquares(ys[..|ys| - 1]) + Square(ys[|ys| - 1])
  }

  /** The sum of x * y(x). */
  function SumProducts(ys: seq<real>): real {
    if ys == [] then 0.0 else SumProducts(ys[..|ys| - 1]) + Product(ys[|ys| - 1], (|ys| - 1) as real)
  }

  function Product(x: real, y: real): real { x * y }

  function Square(x: real): real { Product(x, x) }

  /** How far the last sample of `ys` is above the line a + b * x. */
  function Residual(ys: seq<real>, a: real, b: real): real
    requires ys != []
  {
    ys[|ys| - 1] - (a + b * (|ys| - 1) as real)
  }

  /** The sum of squared errors of the line a + b * x. */
  function SquaredError(ys: seq<real>, a: real, b: real): real {
    if ys == [] then 0.0 else SquaredError(ys[..|ys| - 1], a, b) + Square(Residual(ys, a, b))
  }

  lemma {:induction false} SumConcat(u: seq<real>, v: seq<real>)
    ensures Sum(u + v) == Sum(u) + Sum(v)
  {
    if v == [] {
      assert u + v == u;
    } else {
      assert (u + v)[..|u + v| - 1] == u + v[..|v| - 1];
      SumConcat(u, v[..|v| - 1]);
    }
  }

  // ----- estimators -----

  function Mean(ys: seq<real>): real
    requires ys != []
  {
    Sum(ys) / |ys| as real
  }

  /** The one-pass formula. */
  function Variance(ys: seq<real>): real
    requires ys != []
  {
    VarianceFrom(|ys|, SumSquares(ys), Mean(ys), Sum(ys))
  }

  function VarianceFrom(n: nat, squares: real, mean: real, sum: real): real {
    if n <= 1 then FLT_MAX else (squares - mean * sum) / (n - 1) as real
  }

  /** The numerator of the variance of the abscissas, without wrap-around. */
  function XVarNum(n: nat): int
    requires n > 0
  {
    var m := n - 1;
    m * (m + 1) * (2 * m + 1) * 2 * 2 - m * m * n * 6
  }

  /** The product of two size_t values. Subtraction, addition and multiplication commute with reduction
      modulo 2^64, so reducing the factors once stands for the reductions of all steps. */
  function WrappedProduct(x: int, y: int): U64 {
    ((x % TWO_64) * (y % TWO_64)) % TWO_64
  }

  /** The size_t product that divides the covariance. */
  function SlopeDivisor(n: nat): U64
    requires n > 0
  {
    WrappedProduct(XVarNum(n), 2 * n)
  }

  function Slope(ys: seq<real>): real
    requires ys != []
  {
    SlopeFrom(|ys|, SumProducts(ys), Sum(ys))
  }

  function SlopeFrom(n: nat, products: real, sum: real): real
    requires n > 0
  {
    DividedBy(n, products, sum, SlopeDivisor(n))
  }

  function DividedBy(n: nat, products: real, sum: real, divisor: U64): real {
    var xVarDen := (6 * 2 * 2 * n) % TWO_64;
    var xyVarNum := products * 2.0 - (n - 1) as real * sum;
    if divisor != 0 then xyVarNum * xVarDen as real / divisor as real else 0.0
  }

  // ----- the least-squares line -----

  /** The sum of the residuals. */
  function ResidualSum(ys: seq<real>, a: real, b: real): real {
    if ys == [] then 0.0 else ResidualSum(ys[..|ys| - 1], a, b) + Residual(ys, a, b)
  }

  /** The sum of x times the residual at x. */
  function ResidualMoment(ys: seq<real>, a: real, b: real): real {
    if ys == [] then 0.0 else ResidualMoment(ys[..|ys| - 1], a, b) + Residual(ys, a, b) * (|ys| - 1) as real
  }

  /** The sum of (u + v * x)^2 over x = 0 .. n-1. */
  function LineSquares(n: nat, u: real, v: real): real {
    if n == 0 then 0.0 else LineSquares(n - 1, u, v) + Square(u + v * (n - 1) as real)
  }

  function Combined(u: real, v: real, r: real, m: real): real { u * r + v * m }

  /** Moving the line down by u + v * x changes the squared error by the residuals along that
      direction and by the squares of the shift. */
  lemma {:induction false} ShiftedLine(ys: seq<real>, a: real, b: real, u: real, v: real)
    ensures SquaredError(ys, a - u, b - v) == SquaredError(ys, a, b)
              + 2.0 * Combined(u, v, ResidualSum(ys, a, b), ResidualMoment(ys, a, b)) + LineSquares(|ys|, u, v)
  {
    if ys == [] {
    } else {
      var front := ys[..|ys| - 1];
      ShiftedLine(front, a, b, u, v);
      ShiftedTerm(ys, a, b, u, v, ResidualSum(front, a, b), ResidualMoment(front, a, b));
    }
  }

  lemma ShiftedTerm(ys: seq<real>, a: real, b: real, u: real, v: real, r: real, m: real)
    requires ys != []
    ensures (var x, e := (|ys| - 1) as real, Residual(ys, a, b);
             Square(Residual(ys, a - u, b - v))
               == Square(e) + 2.0 * (Combined(u, v, r + e, m + e * x) - Combined(u, v, r, m)) + Square(u + v * x))
  {
  }

  /** A line vanishes at two or more abscissas only if it is zero. */
  lemma {:induction false} LineSquaresPositive(n: nat, u: real, v: real)
    ensures LineSquares(n, u, v) >= 0.0
    ensures n >= 2 ==> (LineSquares(n, u, v) == 0.0 <==> u == 0.0 && v == 0.0)
  {
    if n == 0 {
    } else {
      LineSquaresPositive(n - 1, u, v);
      SquarePositive(u + v * (n - 1) as real);
      if n == 2 {
        SquarePositive(u);
        assert LineSquares(1, u, v) == LineSquares(0, u, v) + Square(u + v * 0.0);
      }
    }
  }

  lemma SquarePositive(x: real)
    ensures Square(x) >= 0.0
    ensures Square(x) == 0.0 <==> x == 0.0
  {
    if x > 0.0 {
      PositiveProduct(x, x);
    } else if x < 0.0 {
      PositiveProduct(0.0 - x, 0.0 - x);
      assert Product(0.0 - x, 0.0 - x) == Product(x, x);
    }
  }

  lemma PositiveProduct(x: real, y: real)
    requires x > 0.0 && y > 0.0
    ensures Product(x, y) > 0.0
  {
  }

  function SumIndices(n: nat): real {
    if n == 0 then 0.0 else SumIndices(n - 1) + (n - 1) as real
  }

  function SumSquaredIndices(n: nat): real {
    if n == 0 then 0.0 else SumSquaredIndices(n - 1) + Square((n - 1) as real)
  }

  /** The middle abscissa (n-1)/2. */
  function Middle(n: nat): real { (n as real - 1.0) / 2.0 }

  /** The sum of (x - (n-1)/2)^2 in closed form. */
  function Spread(n: nat): real { n as real * (n as real * n as real - 1.0) / 12.0 }

  /** The sum of (x - (n-1)/2) * y(x). */
  function Covariance(ys: seq<real>): real { SumProducts(ys) - Middle(|ys|) * Sum(ys) }

  lemma {:induction false} IndexSums(n: nat)
    ensures SumIndices(n) == n as real * Middle(n)
    ensures SumSquaredIndices(n) == Spread(n) + Middle(n) * (n as real * Middle(n))
  {
    if n == 0 {
    } else {
      IndexSums(n - 1);
      IndexTerm(n - 1);
    }
  }

  lemma IndexTerm(n: nat)
    ensures (n + 1) as real * Middle(n + 1) == n as real * Middle(n) + n as real
    ensures Spread(n + 1) + Middle(n + 1) * ((n + 1) as real * Middle(n + 1))
         == Spread(n) + Middle(n) * (n as real * Middle(n)) + Square(n as real)
  {
  }

  lemma SpreadPositive(n: nat)
    requires n >= 2
    ensures Spread(n) > 0.0
  {
  }

  /** The residual sums are linear in the coefficients of the line. */
  lemma {:induction false} ResidualsExpanded(ys: seq<real>, a: real, b: real)
    ensures ResidualSum(ys, a, b) == Sum(ys) - Combined(a, b, |ys| as real, SumIndices(|ys|))
    ensures ResidualMoment(ys, a, b) == SumProducts(ys) - Combined(a, b, SumIndices(|ys|), SumSquaredIndices(|ys|))
  {
    if ys == [] {
    } else {
      var front := ys[..|ys| - 1];
      ResidualsExpanded(front, a, b);
      ResidualTerm(ys, a, b, |front| as real, SumIndices(|front|), SumSquaredIndices(|front|));
    }
  }

  lemma ResidualTerm(ys: seq<real>, a: real, b: real, n: real, i: real, k: real)
    requires ys != []
    ensures (var x := (|ys| - 1) as real;
             && Residual(ys, a, b) == ys[|ys| - 1] - (Combined(a, b, n + 1.0, i + x) - Combined(a, b, n, i))
             && Residual(ys, a, b) * x
                == ys[|ys| - 1] * x - (Combined(a, b, i + x, k + Square(x)) - Combined(a, b, i, k)))
  {
  }

  function BestSlope(ys: seq<real>): real
    requires |ys| >= 2
  {
    SpreadPositive(|ys|);
    Covariance(ys) / Spread(|ys|)
  }

  /** The offset at x = 0 of the line that the estimators describe: `mean` at the middle abscissa. */
  function Offset(ys: seq<real>, slope: real): real
    requires ys != []
  {
    Mean(ys) - slope * Middle(|ys|)
  }

  /** The residuals of the least-squares line are orthogonal to every line. */
  lemma BestLineOrthogonal(ys: seq<real>)
    requires |ys| >= 2
    ensures ResidualSum(ys, Offset(ys, BestSlope(ys)), BestSlope(ys)) == 0.0
    ensures ResidualMoment(ys, Offset(ys, BestSlope(ys)), BestSlope(ys)) == 0.0
  {
    hide Combined, Middle, Spread, Mean, BestSlope, Sum, SumProducts, SumIndices, SumSquaredIndices, ResidualSum,
         ResidualMoment;
    var n, best := |ys| as real, BestSlope(ys);
    ResidualsExpanded(ys, Offset(ys, best), best);
    IndexSums(|ys|);
    MeanTimesCount(ys);
    SlopeTimesSpread(ys);
    Orthogonality(Sum(ys), SumProducts(ys), n, Middle(|ys|), Spread(|ys|), Mean(ys), best,
                  Offset(ys, best), SumIndices(|ys|), SumSquaredIndices(|ys|));
  }

  lemma MeanTimesCount(ys: seq<real>)
    requires ys != []
    ensures Mean(ys) * |ys| as real == Sum(ys)
  {
  }

  lemma SlopeTimesSpread(ys: seq<real>)
    requires |ys| >= 2
    ensures BestSlope(ys) * Spread(|ys|) == SumProducts(ys) - Middle(|ys|) * Sum(ys)
  {
    hide Middle, Spread;
    SpreadPositive(|ys|);
    CancelDivision(Covariance(ys), Spread(|ys|));
  }

  lemma CancelDivision(x: real, y: real)
    requires y != 0.0
    ensures x / y * y == x
  {
  }

  lemma Orthogonality(s: real, p: real, n: real, xm: real, d: real, mean: real, slope: real,
                      offset: real, i: real, k: real)
    requires mean * n == s && slope * d == p - xm * s
    requires offset == mean - slope * xm && i == n * xm && k == d + xm * (n * xm)
    ensures Combined(offset, slope, n, i) == s
    ensures Combined(offset, slope, i, k) == p
  {
  }

  /** True if no straight line has a smaller squared error than the one through `Mean` with `slope`. */
  ghost predicate IsLeastSquares(ys: seq<real>, slope: real)
    requires ys != []
  {
    forall a: real, b: real :: SquaredError(ys, Offset(ys, slope), slope) <= SquaredError(ys, a, b)
  }

  /** Every line is worse than the best one by the squares of their distance. */
  lemma ErrorAboveOptimum(ys: seq<real>, a: real, b: real)
    requires |ys| >= 2
    ensures var best := BestSlope(ys);
            SquaredError(ys, a, b) == SquaredError(ys, Offset(ys, best), best)
                                      + LineSquares(|ys|, Offset(ys, best) - a, best - b)
  {
    var best := BestSlope(ys);
    ShiftedLine(ys, Offset(ys, best), best, Offset(ys, best) - a, best - b);
    BestLineOrthogonal(ys);
    assert Offset(ys, best) - (Offset(ys, best) - a) == a && best - (best - b) == b;
    assert Combined(Offset(ys, best) - a, best - b, 0.0, 0.0) == 0.0;
  }

  /** Exactly one slope gives the least squared error, and it is Covariance / Spread. */
  lemma LeastSquaresLine(ys: seq<real>, slope: real)
    requires |ys| >= 2
    ensures IsLeastSquares(ys, slope) <==> slope == BestSlope(ys)
  {
    var best := BestSlope(ys);
    forall a: real, b: real
      ensures SquaredError(ys, Offset(ys, best), best) <= SquaredError(ys, a, b)
    {
      ErrorAboveOptimum(ys, a, b);
      LineSquaresPositive(|ys|, Offset(ys, best) - a, best - b);
    }
    if slope != best {
      ErrorAboveOptimum(ys, Offset(ys, slope), slope);
      LineSquaresPositive(|ys|, Offset(ys, best) - Offset(ys, slope), best - slope);
      assert SquaredError(ys, Offset(ys, slope), slope) > SquaredError(ys, Offset(ys, best), best);
    }
  }

  /** The mean squared deviation from the mean, with Bessel's correction. */
  function SampleVariance(ys: seq<real>): real
    requires |ys| >= 2
  {
    SquaredError(ys, Mean(ys), 0.0) / (|ys| - 1) as real
  }

  /** The one-pass variance is the mean squared deviation. */
  lemma VarianceIsMeanSquaredDeviation(ys: seq<real>)
    requires |ys| >= 2
    ensures Variance(ys) == SampleVariance(ys)
  {
    hide Mean, SquaredError, SumSquares, Sum;
    DeviationExpanded(ys, Mean(ys));
    MeanTimesCount(ys);
    assert |ys| as real * Mean(ys) == Sum(ys);
  }

  lemma {:induction false} DeviationExpanded(ys: seq<real>, mean: real)
    ensures SquaredError(ys, mean, 0.0) == SumSquares(ys) - 2.0 * (mean * Sum(ys)) + mean * (|ys| as real * mean)
  {
    if ys == [] {
    } else {
      var front := ys[..|ys| - 1];
      DeviationExpanded(front, mean);
      DeviationTerm(ys, mean, Sum(front), |front| as real);
    }
  }

  lemma DeviationTerm(ys: seq<real>, mean: real, s: real, n: real)
    requires ys != []
    ensures var y := ys[|ys| - 1];
            && Square(Residual(ys, mean, 0.0)) == y * y - 2.0 * (mean * y) + mean * mean
            && mean * (s + y) == mean * s + mean * y
            && mean * ((n + 1.0) * mean) == mean * (n * mean) + mean * mean
  {
  }

  // ----- the 64-bit products of the slope -----

  /** The product that the slope divides by, without wrap-around. */
  function FullDivisor(n: nat): int
    requires n > 0
  {
    XVarNum(n) * (2 * n)
  }

  /** The integer products have a simple closed form. */
  lemma FullDivisorClosedForm(n: nat)
    requires n > 0
    ensures FullDivisor(n) == 4 * (n * n) * (n * n - 1)
  {
  }

  lemma WrappedProductExact(x: int, y: int)
    ensures WrappedProduct(x, y) == (x * y) % TWO_64
  {
    var p, r, q, t := x / TWO_64, x % TWO_64, y / TWO_64, y % TWO_64;
    ProductOfSums(p, r, q, t, TWO_64);
    AddMultiple(r * t, p * (q * TWO_64 + t) + r * q, TWO_64);
  }

  lemma ProductOfSums(p: int, r: int, q: int, t: int, m: int)
    ensures (p * m + r) * (q * m + t) == r * t + m * (p * (q * m + t) + r * q)
  {
    var y := q * m + t;
    assert (p * m + r) * y == m * (p * y) + r * y;
    assert r * y == m * (r * q) + r * t;
  }

  /** The closed form fits into 64 bits for at most 46340 samples. */
  lemma DivisorFits(n: nat)
    requires n > 0
    ensures FullDivisor(n) < TWO_64 <==> n <= 46340
  {
    hide FullDivisor;
    var k := n * n;
    FullDivisorClosedForm(n);
    assert FullDivisor(n) == 4 * (k * (k - 1));
    if n <= 46340 {
      MonotoneProduct(n, 46340, n, 46340);
      MonotoneProduct(k, 2147395600, k - 1, 2147395599);
    } else {
      MonotoneProduct(46341, n, 46341, n);
      MonotoneProduct(2147488281, k, 2147488280, k - 1);
    }
  }

  lemma MonotoneProduct(a: nat, b: nat, c: nat, d: nat)
    requires a <= b && c <= d
    ensures a * c <= b * d
  {
  }

  /** The computed slope is the least-squares slope if and only if the 64-bit product does not wrap,
      which is for at most 46340 samples, or the samples have no trend. */
  lemma SlopeExact(ys: seq<real>)
    requires |ys| >= 2 && 24 * |ys| < TWO_64
    ensures IsLeastSquares(ys, Slope(ys)) <==> |ys| <= 46340 || Covariance(ys) == 0.0
  {
    LeastSquaresLine(ys, Slope(ys));
    DivisorFits(|ys|);
    SlopeIsBest(ys);
  }

  lemma SlopeIsBest(ys: seq<real>)
    requires |ys| >= 2 && 24 * |ys| < TWO_64
    ensures Slope(ys) == BestSlope(ys) <==> FullDivisor(|ys|) < TWO_64 || Covariance(ys) == 0.0
  {
    hide ScaledCovariance, Spread, XVarNum, WrappedProduct, Quotient, DividedBy, SumProducts, Sum;
    var n := |ys|;
    WrappedProductExact(XVarNum(n), 2 * n);
    SpreadPositive(n);
    FullDivisorIsSpread(n);
    SlopeAgrees(n, SumProducts(ys), Sum(ys), Covariance(ys), Spread(n), XVarNum(n) * (2 * n), SlopeDivisor(n));
  }

  lemma SlopeAgrees(n: nat, products: real, sum: real, c: real, spread: real, full: int, divisor: U64)
    requires n > 0 && 24 * n < TWO_64 && c == products - Middle(n) * sum
    requires full > 0 && spread > 0.0 && full as real == 2.0 * (24 * n) as real * spread && divisor == full % TWO_64
    ensures DividedBy(n, products, sum, divisor) == c / spread <==> full < TWO_64 || c == 0.0
  {
    hide ScaledCovariance, Quotient, DividedBy;
    SlopeNumerator(n, products, sum, divisor);
    FractionsAgree(c, n, spread, full, divisor);
  }

  lemma SlopeNumerator(n: nat, products: real, sum: real, divisor: U64)
    requires n > 0 && 24 * n < TWO_64
    ensures DividedBy(n, products, sum, divisor) == Quotient(ScaledCovariance(products - Middle(n) * sum, n), divisor)
  {
  }

  function ScaledCovariance(c: real, n: nat): real { 2.0 * c * (24 * n) as real }

  function Quotient(x: real, divisor: nat): real {
    if divisor != 0 then x / divisor as real else 0.0
  }

  lemma FullDivisorIsSpread(n: nat)
    requires n >= 2
    ensures FullDivisor(n) > 0
    ensures FullDivisor(n) as real == 2.0 * (24 * n) as real * Spread(n)
  {
    hide FullDivisor;
    FullDivisorClosedForm(n);
    MonotoneProduct(2, n, 2, n);
    MonotoneProduct(1, 4 * (n * n), 1, n * n - 1);
    var r := n as real;
    assert (n * n) as real == r * r;
    assert FullDivisor(n) as real == 4.0 * (r * r) * (r * r - 1.0);
  }

  /** Dividing by a wrapped product gives the right slope only for a zero covariance. */
  lemma FractionsAgree(c: real, n: nat, spread: real, full: int, divisor: nat)
    requires full > 0 && n > 0 && spread > 0.0 && full as real == 2.0 * (24 * n) as real * spread
    requires divisor == full % TWO_64
    ensures Quotient(ScaledCovariance(c, n), divisor) == c / spread <==> full < TWO_64 || c == 0.0
  {
  }
}
