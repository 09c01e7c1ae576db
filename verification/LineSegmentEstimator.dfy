/**
 * Segmentation of a measurement series into intervals: statistics in a sliding window around every
 * sample, change points at local minima of the summed variances of two adjacent windows, and the
 * intervals between the change points.
 */
module LineSegmentEstimator {
  import opened Words
  import opened Division
  import opened RingBuffers
  import opened Statistics
  import opened Measurements

  datatype MeasurementValueInterval = MeasurementValueInterval(start: nat, end: nat, mean: real, slope: real)

  datatype StatisticalEstimates =
    StatisticalEstimates(mean: real, variance: real, slope: real, slopedVariance: real)

  datatype MinEntry = MinEntry(index: nat, cost: real)

  // ----- sliding windows -----

  /** Half the size of the window around sample `i`, truncated at both ends of the series. */
  function TruncatedSize(n: nat, window: nat, i: nat): (t: nat)
    requires 4 * window <= n && i < n
    ensures t == Min(window, Min(i, n - 1 - i))
  {
    if i > n - window - 1 then n - i - 1 else if i < window then i else window
  }

  /** The samples in the window around sample `i`. */
  function WindowAround(s: seq<TimestampDoublePair>, window: nat, i: nat): (ys: seq<real>)
    requires 4 * window <= |s| && i < |s|
    ensures |ys| == 2 * TruncatedSize(|s|, window, i) + 1
  {
    var t := TruncatedSize(|s|, window, i);
    Values(s[i - t..i + t + 1])
  }

  /** The integer quotient by which the variance of a truncated window is enlarged. */
  function Enlarged(variance: real, window: nat, n: nat): real {
    if n > 1 then variance * ((2 * window + 1) / (n - 1)) as real else variance
  }

  function SlopedVariance(squares: real, n: nat, window: nat, truncated: nat, nextToEnd: bool): real
    requires truncated <= window
  {
    if n <= 1 then FLT_MAX
    else if nextToEnd then FLT_MAX / 1000000000000000000.0
    else squares / n as real * Power2(window - truncated) as real
  }

  /** The estimates for sample `i`; the variance around the line is that of the regression line. */
  function EstimatesAt(s: seq<TimestampDoublePair>, window: nat, regression: bool, i: nat): StatisticalEstimates
    requires 4 * window <= |s| && i < |s|
  {
    var ys := WindowAround(s, window, i);
    var variance := Enlarged(Variance(ys), window, |ys|);
    if regression then
      StatisticalEstimates(Mean(ys), variance, Slope(ys),
        SlopedVariance(SquaredError(ys, Offset(ys, Slope(ys)), Slope(ys)), |ys|, window,
                       TruncatedSize(|s|, window, i), i == 1 || i + 2 == |s|))
    else
      StatisticalEstimates(Mean(ys), variance, 0.0, 0.0)
  }

  // ----- what the estimates are -----

  /** The samples up to `t` before and behind sample `i`. */
  function Around(s: seq<TimestampDoublePair>, i: nat, t: nat): (ys: seq<real>)
    requires t <= i && i + t < |s|
    ensures |ys| == 2 * t + 1
  {
    Values(s[i - t..i + t + 1])
  }

  /** The windows reach to the nearer end of the series, and at most `window` samples far. */
  lemma WindowReach(s: seq<TimestampDoublePair>, window: nat, i: nat)
    requires 4 * window <= |s| && i < |s|
    ensures WindowAround(s, window, i) == Around(s, i, Min(window, Min(i, |s| - 1 - i)))
  {
  }

  /** `f` is the integer part of (2 * window + 1) / (2 * t), the enlargement of the variance of a window that was
      truncated to `t` samples on each side. */
  predicate IsEnlargement(f: int, window: nat, t: nat) {
    f * (2 * t) <= 2 * window + 1 < (f + 1) * (2 * t)
  }

  lemma EnlargedExactly(variance: real, window: nat, t: nat, f: int)
    requires 0 < t <= window && IsEnlargement(f, window, t)
    ensures Enlarged(variance, window, 2 * t + 1) == variance * f as real
    ensures t == window ==> f == 1
  {
    DivisionUnique(2 * window + 1, f, 2 * window + 1 - f * (2 * t), 2 * t);
    if t == window {
      QuotientUnique(f, 2 * window + 1 - f * (2 * t), 1, 1, 2 * t);
    }
  }

  /** Every sample but the two at the ends has the mean and the variance of its window, enlarged by the given factor,
      which is 1 for a window that is not truncated. */
  lemma EstimatedVariance(s: seq<TimestampDoublePair>, window: nat, regression: bool, i: nat, f: int)
    requires 4 * window <= |s| && 0 < window && 0 < i < |s| - 1
    requires IsEnlargement(f, window, Min(window, Min(i, |s| - 1 - i)))
    ensures var t, e := Min(window, Min(i, |s| - 1 - i)), EstimatesAt(s, window, regression, i);
            && e.mean == Mean(Around(s, i, t))
            && e.variance == SampleVariance(Around(s, i, t)) * f as real
            && (t == window ==> f == 1)
  {
    hide SlopedVariance, Slope, Variance, Mean, SampleVariance, Enlarged, IsEnlargement;
    var t := Min(window, Min(i, |s| - 1 - i));
    WindowReach(s, window, i);
    VarianceIsMeanSquaredDeviation(Around(s, i, t));
    EnlargedExactly(Variance(Around(s, i, t)), window, t, f);
  }

  lemma FullWindow(s: seq<TimestampDoublePair>, window: nat, i: nat)
    requires 0 < window <= i < |s| - window
    ensures IsEnlargement(1, window, window) && Min(window, Min(i, |s| - 1 - i)) == window
  {
  }

  /** The two samples at the ends stand for themselves, with the largest variances. */
  lemma EstimatedAtEnds(s: seq<TimestampDoublePair>, window: nat, regression: bool, i: nat)
    requires 4 * window <= |s| && i < |s| && (window == 0 || i == 0 || i == |s| - 1)
    ensures var e := EstimatesAt(s, window, regression, i);
            && e.mean == s[i].value && e.variance == FLT_MAX
            && e.slopedVariance == if regression then FLT_MAX else 0.0
  {
    var ys := WindowAround(s, window, i);
    assert ys == [s[i].value];
    assert Sum(ys[..0]) == 0.0;
  }

  /** The slope and the variance around the line are those of the least-squares line of the window, the variance doubled
      for each sample by which the window is truncated; next to the ends the variance is fixed. */
  lemma EstimatedLine(s: seq<TimestampDoublePair>, window: nat, i: nat)
    requires 4 * window <= |s| && 0 < window < 23170 && 0 < i < |s| - 1
    ensures var t, e := Min(window, Min(i, |s| - 1 - i)), EstimatesAt(s, window, true, i);
            var ys := Around(s, i, t);
            && IsLeastSquares(ys, e.slope)
            && (i == 1 || i == |s| - 2 ==> e.slopedVariance == FLT_MAX / 1000000000000000000.0)
            && (1 < i < |s| - 2 ==> e.slopedVariance == MeanError(ys, e.slope) * Power2(window - t) as real)
  {
    hide Enlarged, Slope, Variance, Mean, SquaredError, IsLeastSquares, Covariance, Offset, Power2;
    WindowReach(s, window, i);
    SlopeExact(WindowAround(s, window, i));
  }

  /** The mean squared distance from the line with the given slope through the mean. */
  function MeanError(ys: seq<real>, slope: real): real
    requires ys != []
  {
    SquaredError(ys, Offset(ys, slope), slope) / |ys| as real
  }

  method EstimateStatistics(mv: MeasurementValues, window: nat, regression: bool)
    returns (estimates: seq<StatisticalEstimates>)
    requires mv.Valid() && 4 * window <= mv.GetNumberOfElements()
    ensures |estimates| == |mv.Contents()|
    ensures forall i :: 0 <= i < |estimates| ==> estimates[i] == EstimatesAt(mv.Contents(), window, regression, i)
  {
    hide EstimatesAt, Enlarged, SlopedVariance, Variance, Mean, Slope;
    var num := mv.GetNumberOfElements();
    estimates := [];
    for i := 0 to num
      invariant |estimates| == i
      invariant forall k :: 0 <= k < i ==> estimates[k] == EstimatesAt(mv.Contents(), window, regression, k)
    {
      var estimate := EstimateSample(mv, window, regression, i);
      estimates := estimates + [estimate];
    }
  }

  /** The body of the estimation loop. */
  method EstimateSample(mv: MeasurementValues, window: nat, regression: bool, i: nat)
    returns (estimate: StatisticalEstimates)
    requires mv.Valid() && 4 * window <= mv.GetNumberOfElements() && i < mv.GetNumberOfElements()
    ensures estimate == EstimatesAt(mv.Contents(), window, regression, i)
  {
    hide Enlarged, SlopedVariance, Variance, Mean, Slope, SquaredError, Offset, Rotated, DoubledUpTo;
    var num := mv.GetNumberOfElements();
    var truncated := TruncatedSize(num, window, i);
    var from, to := i - truncated, i + truncated;
    var n := to - from + 1;
    assert Window(mv, from, to) == WindowAround(mv.Contents(), window, i);
    if !regression {
      var mean, variance := EstimateMeanAndVariance(mv, from, to);
      variance := Enlarged(variance, window, n);
      estimate := StatisticalEstimates(mean, variance, 0.0, 0.0);
    } else {
      var mean, variance, slope := EstimateLinearRegression(mv, from, to);
      var squares := SquaredDistances(mv, i, truncated, mean, slope);
      variance := Enlarged(variance, window, n);
      var slopedVariance := SlopedVariance(squares, n, window, truncated, i == 1 || i + 2 == num);
      estimate := StatisticalEstimates(mean, variance, slope, slopedVariance);
    }
  }

  /** The squared distances of the samples around `i` from the line through `mean` at `i`. */
  method SquaredDistances(mv: MeasurementValues, i: nat, truncated: nat, mean: real, slope: real)
    returns (squares: real)
    requires mv.Valid() && truncated <= i && i + truncated < mv.GetNumberOfElements()
    requires mean == Mean(Window(mv, i - truncated, i + truncated))
    ensures var ys := Window(mv, i - truncated, i + truncated);
            squares == SquaredError(ys, Offset(ys, slope), slope)
  {
    hide Mean, Square, Residual, SquaredError, DistanceFromLine, Offset;
    var from, to := i - truncated, i + truncated;
    ghost var ys := Window(mv, from, to);
    ghost var offset := Offset(ys, slope);
    squares := 0.0;
    NoError(ys[..0], offset, slope);
    for k := from to to + 1
      invariant squares == SquaredError(ys[..k - from], offset, slope)
    {
      var x := (k - i) as real;
      var distance := DistanceFromLine(mv.At(k).value, x, mean, slope);
      AddDistance(ys, k - from, mean, slope, distance);
      squares := squares + Square(distance);
    }
    assert ys[..|ys|] == ys;
  }

  function DistanceFromLine(y: real, x: real, mean: real, slope: real): real { y - (x * slope + mean) }

  lemma NoError(ys: seq<real>, a: real, b: real)
    requires ys == []
    ensures SquaredError(ys, a, b) == 0.0
  {
  }

  lemma AddDistance(ys: seq<real>, k: nat, mean: real, slope: real, distance: real)
    requires k < |ys| && mean == Mean(ys) && |ys| % 2 == 1
    requires distance == DistanceFromLine(ys[k], (k - |ys| / 2) as real, mean, slope)
    ensures SquaredError(ys[..k + 1], Offset(ys, slope), slope)
         == SquaredError(ys[..k], Offset(ys, slope), slope) + Square(distance)
  {
    hide Mean, Square;
    assert ys[..k + 1][..k] == ys[..k];
    assert Middle(|ys|) == (|ys| / 2) as real;
    LineThroughMiddle(mean, slope, (|ys| / 2) as real, k as real);
    assert Residual(ys[..k + 1], Offset(ys, slope), slope) == distance;
  }

  lemma LineThroughMiddle(mean: real, slope: real, middle: real, x: real)
    ensures mean - slope * middle + slope * x == (x - middle) * slope + mean
  {
  }

  // ----- change points of the mean -----

  /** The summed variances of the windows around `c` and around the next window centre. */
  function Penalty(e: seq<StatisticalEstimates>, window: nat, c: nat): real
    requires c + 2 * window + 1 < |e|
  {
    e[c].variance + e[c + 2 * window + 1].variance
  }

  /** For full windows the penalty is the summed variance of two windows that touch without overlap, the first of which
      ends at the change point c + window. */
  lemma PenaltyOfWindows(s: seq<TimestampDoublePair>, window: nat, regression: bool, c: nat)
    requires 4 * window <= |s| && 0 < window <= c && c + 3 * window + 1 < |s|
    ensures var end := c + window;
            Penalty(AllEstimates(s, window, regression), window, c) ==
            SampleVariance(Values(s[c - window..end + 1])) + SampleVariance(Values(s[end + 1..c + 3 * window + 2]))
  {
    hide EstimatesAt, SampleVariance, IsEnlargement;
    FullWindow(s, window, c);
    FullWindow(s, window, c + 2 * window + 1);
    EstimatedVariance(s, window, regression, c, 1);
    EstimatedVariance(s, window, regression, c + 2 * window + 1, 1);
  }

  /** The latest strict change of the penalty up to `c` was a decrease. */
  ghost predicate Descending(e: seq<StatisticalEstimates>, window: nat, c: nat)
    requires c + 2 * window + 1 < |e|
  {
    exists j :: 1 <= j <= c && DecreaseAt(e, window, j) && FlatBetween(e, window, j, c)
  }

  predicate DecreaseAt(e: seq<StatisticalEstimates>, window: nat, j: nat)
    requires 1 <= j && j + 2 * window + 1 < |e|
  {
    Penalty(e, window, j) < Penalty(e, window, j - 1)
  }

  ghost predicate FlatBetween(e: seq<StatisticalEstimates>, window: nat, j: nat, c: nat)
    requires j <= c && c + 2 * window + 1 < |e|
  {
    forall k :: j <= k <= c ==> Penalty(e, window, k) == Penalty(e, window, j)
  }

  /** The means differ by more than three sigma, and sigma is not too small. */
  predicate MeansDiffer(e: seq<StatisticalEstimates>, window: nat, c: nat)
    requires c + 2 * window + 1 < |e|
  {
    var e1, e2 := e[c], e[c + 2 * window + 1];
    var diff := e1.mean - e2.mean;
    var threeSigmaSquared := 9.0 * 0.5 * (e1.variance + e2.variance);
    diff * diff > threeSigmaSquared && threeSigmaSquared > 200.0
  }

  /** That is: with sigma^2 the mean of the two variances, the means are more than 3 * sigma apart. */
  lemma MeansDifferBySigma(e: seq<StatisticalEstimates>, window: nat, c: nat, sigma: real)
    requires c + 2 * window + 1 < |e| && sigma >= 0.0
    requires sigma * sigma == 0.5 * Penalty(e, window, c)
    ensures MeansDiffer(e, window, c) <==>
            && (|| e[c].mean - e[c + 2 * window + 1].mean > 3.0 * sigma
                || e[c + 2 * window + 1].mean - e[c].mean > 3.0 * sigma)
            && 9.0 * (sigma * sigma) > 200.0
  {
    var diff := e[c].mean - e[c + 2 * window + 1].mean;
    SquaresOrdered(if diff >= 0.0 then diff else 0.0 - diff, 3.0 * sigma);
  }

  lemma SquaresOrdered(x: real, y: real)
    requires x >= 0.0 && y >= 0.0
    ensures x * x > y * y <==> x > y
  {
    assert x * x - y * y == Product(x - y, x + y);
    if x > y {
      PositiveProduct(x - y, x + y);
    } else if x < y {
      PositiveProduct(y - x, x + y);
      assert Product(y - x, x + y) == 0.0 - Product(x - y, x + y);
    }
  }

  /** `c` is the right end of a local minimum of the penalty, or of its plateau, and the means differ. */
  ghost predicate IsMeanStep(e: seq<StatisticalEstimates>, window: nat, c: nat)
    requires 1 <= c && c + 2 * window + 2 < |e|
  {
    Descending(e, window, c) && Penalty(e, window, c) < Penalty(e, window, c + 1) && MeansDiffer(e, window, c)
  }

  ghost predicate Increasing(s: seq<nat>) {
    forall i, j :: 0 <= i < j < |s| ==> s[i] < s[j]
  }

  /** At least 2 apart. */
  ghost predicate Spaced(s: seq<nat>) {
    forall i, j :: 0 <= i < j < |s| ==> s[i] + 2 <= s[j]
  }

  /** The steps are those at the window centres below `total`, in order and never adjacent. */
  ghost predicate AreMeanSteps(e: seq<StatisticalEstimates>, window: nat, steps: seq<nat>, total: nat) {
    && Spaced(steps)
    && (forall m :: m in steps ==>
          window + 1 <= m < total + window && m + window + 3 <= |e| && IsMeanStep(e, window, m - window))
    && (forall c :: 1 <= c < total && c + 2 * window + 2 < |e| && IsMeanStep(e, window, c) ==> c + window in steps)
  }

  method TotalVariationOfMeanValues(num: nat, window: nat, e: seq<StatisticalEstimates>) returns (steps: seq<nat>)
    requires 1 <= num == |e|
    ensures AreMeanSteps(e, window, steps, num)
  {
    hide Descending, AreMeanSteps;
    steps := [];
    var downwards := false;
    var center1, center2 := 1, 2 * window + 2;
    NoSteps(e, window);
    while center2 < num - 1
      invariant 1 <= center1 && center2 == center1 + 2 * window + 1
      invariant center1 > 1 ==> center2 < num
      invariant downwards <==> center1 > 1 && Descending(e, window, center1 - 1)
      invariant AreMeanSteps(e, window, steps, center1)
    {
      var before := e[center1 - 1].variance + e[center2 - 1].variance;
      var penalty := e[center1].variance + e[center2].variance;
      var after := e[center1 + 1].variance + e[center2 + 1].variance;
      DescendingStep(e, window, center1);
      NextStep(e, window, steps, center1);
      downwards := if penalty < before then true else if penalty > before then false else downwards;
      if downwards && penalty < after {
        var minIndex := center1 + window;
        var meanDiff := e[center1].mean - e[center2].mean;
        var threeSigmaSquared := 9.0 * 0.5 * (e[center1].variance + e[center2].variance);
        if meanDiff * meanDiff > threeSigmaSquared {
          if threeSigmaSquared > 200.0 {
            steps := steps + [minIndex];
          }
        }
      }
      center1, center2 := center1 + 1, center2 + 1;
    }
    AllSteps(e, window, steps, center1);
  }

  lemma NoSteps(e: seq<StatisticalEstimates>, window: nat)
    ensures AreMeanSteps(e, window, [], 1)
  {
  }

  /** One more window centre; a step there is not adjacent to the one before. */
  lemma NextStep(e: seq<StatisticalEstimates>, window: nat, steps: seq<nat>, c: nat)
    requires 1 <= c && c + 2 * window + 2 < |e| && AreMeanSteps(e, window, steps, c)
    ensures AreMeanSteps(e, window, if IsMeanStep(e, window, c) then steps + [c + window] else steps, c + 1)
  {
    hide IsMeanStep;
    if steps != [] {
      var last := steps[|steps| - 1];
      assert last in steps;
      StepsApart(e, window, last - window);
    }
  }

  lemma AllSteps(e: seq<StatisticalEstimates>, window: nat, steps: seq<nat>, total: nat)
    requires total + 2 * window + 2 >= |e| && AreMeanSteps(e, window, steps, total)
    ensures AreMeanSteps(e, window, steps, |e|)
  {
    hide IsMeanStep;
  }

  /** How the flag follows the penalty. */
  lemma DescendingStep(e: seq<StatisticalEstimates>, window: nat, c: nat)
    requires 1 <= c && c + 2 * window + 1 < |e|
    ensures Descending(e, window, c) <==>
              || Penalty(e, window, c) < Penalty(e, window, c - 1)
              || (Penalty(e, window, c) == Penalty(e, window, c - 1) && c > 1 && Descending(e, window, c - 1))
  {
    if DecreaseAt(e, window, c) {
      assert FlatBetween(e, window, c, c);
    }
    if Penalty(e, window, c) == Penalty(e, window, c - 1) && c > 1 && Descending(e, window, c - 1) {
      var j :| 1 <= j <= c - 1 && DecreaseAt(e, window, j) && FlatBetween(e, window, j, c - 1);
      assert FlatBetween(e, window, j, c);
    }
    if Descending(e, window, c) && !DecreaseAt(e, window, c) {
      var j :| 1 <= j <= c && DecreaseAt(e, window, j) && FlatBetween(e, window, j, c);
      assert FlatBetween(e, window, j, c - 1);
    }
  }

  /** Change points never touch: behind a minimum the penalty has to rise and to fall again. */
  lemma StepsApart(e: seq<StatisticalEstimates>, window: nat, c: nat)
    requires 1 <= c && c + 2 * window + 3 < |e| && IsMeanStep(e, window, c)
    ensures !IsMeanStep(e, window, c + 1)
  {
  }

  // ----- change points of the regression line -----

  /** The summed variances around the lines of the windows around `c` and the next window centre. */
  function Cost(e: seq<StatisticalEstimates>, window: nat, c: nat): real
    requires c + 2 * window + 1 < |e|
  {
    e[c].slopedVariance + e[c + 2 * window + 1].slopedVariance
  }

  /** For full windows away from the ends, the cost is the summed mean error of the least-squares lines of two windows
      that touch without overlap, the first of which ends at the entry c + window. */
  lemma CostOfWindows(s: seq<TimestampDoublePair>, window: nat, c: nat)
    requires 4 * window <= |s| && 0 < window < 23170 && window <= c && c + 3 * window + 1 < |s|
    requires 1 < c && c + 2 * window + 1 < |s| - 2
    ensures var end := c + window;
            var e, left, right := AllEstimates(s, window, true), Values(s[c - window..end + 1]),
                                  Values(s[end + 1..c + 3 * window + 2]);
            && IsLeastSquares(left, e[c].slope) && IsLeastSquares(right, e[end + window + 1].slope)
            && Cost(e, window, c) == MeanError(left, e[c].slope) + MeanError(right, e[end + window + 1].slope)
  {
    hide EstimatesAt, MeanError, IsLeastSquares;
    FullWindow(s, window, c);
    FullWindow(s, window, c + 2 * window + 1);
    EstimatedLine(s, window, c);
    EstimatedLine(s, window, c + 2 * window + 1);
    assert Power2(0) == 1;
  }

  /** Where the run of window centres of entry `k` begins: right behind the reach of the entry before. */
  function RunStart(minima: seq<MinEntry>, window: nat, k: nat): nat
    requires k <= |minima|
  {
    if k == 0 then 0 else minima[k - 1].index + window + 1
  }

  /** Of the first `total` centres, those from `start` to the end of the reach of `p`, which is two window
      sizes ahead: `p` is the earliest one of least cost. */
  ghost predicate IsLeastInReach(e: seq<StatisticalEstimates>, window: nat, start: nat, p: nat, total: nat)
    requires total == 0 || total + 2 * window < |e|
  {
    && start <= p < total
    && (forall c :: start <= c < p ==> Cost(e, window, c) > Cost(e, window, p))
    && (forall c :: p <= c <= p + 2 * window && c < total ==> Cost(e, window, c) >= Cost(e, window, p))
  }

  /** Entry `k` holds the first centre of its run that is of least cost in its reach. */
  ghost predicate IsMinimumOfRun(e: seq<StatisticalEstimates>, window: nat, minima: seq<MinEntry>, total: nat, k: nat)
    requires total == 0 || total + 2 * window < |e|
    requires k < |minima|
  {
    var start, best := RunStart(minima, window, k), minima[k].index - window;
    best >= 0 && IsFirstLeast(e, window, start, best, total) && minima[k].cost == Cost(e, window, best)
  }

  ghost predicate IsFirstLeast(e: seq<StatisticalEstimates>, window: nat, start: nat, best: nat, total: nat)
    requires total == 0 || total + 2 * window < |e|
  {
    && IsLeastInReach(e, window, start, best, total)
    && forall p :: start <= p < best ==> !IsLeastInReach(e, window, start, p, total)
  }

  /** The minima split the first `total` window centres into consecutive runs, one entry for each run; a
      run ends where the reach of its entry ends. */
  ghost predicate AreMinima(e: seq<StatisticalEstimates>, window: nat, minima: seq<MinEntry>, total: nat)
    requires total == 0 || total + 2 * window < |e|
  {
    && (minima == [] <==> total == 0)
    && (forall k :: 0 <= k < |minima| ==> IsMinimumOfRun(e, window, minima, total, k))
    && total <= RunStart(minima, window, |minima|)
  }

  method FindMinima(window: nat, e: seq<StatisticalEstimates>) returns (minima: seq<MinEntry>)
    ensures AreMinima(e, window, minima, Max(0, |e| - 2 * window - 1))
  {
    minima := [];
    var minWindow := 2 * window;
    var center1, centerM, center2 := 0, window, 2 * window + 1;
    while center2 < |e|
      invariant centerM == center1 + window && center2 == center1 + 2 * window + 1
      invariant center1 == 0 || center2 <= |e|
      invariant AreMinima(e, window, minima, center1)
    {
      var cost := e[center1].slopedVariance + e[center2].slopedVariance;
      var size := |minima|;
      ghost var was := minima;
      if size > 0 && centerM <= minima[size - 1].index + minWindow {
        if cost < minima[size - 1].cost {
          minima := minima[size - 1 := MinEntry(centerM, cost)];
        }
      } else {
        minima := minima + [MinEntry(centerM, cost)];
      }
      MinimaStep(e, window, was, center1, minima);
      center1, centerM, center2 := center1 + 1, centerM + 1, center2 + 1;
    }
  }

  /** One more window centre joins the last run or starts a new one. */
  lemma MinimaStep(e: seq<StatisticalEstimates>, window: nat, was: seq<MinEntry>, c: nat, minima: seq<MinEntry>)
    requires c + 2 * window + 1 < |e| && AreMinima(e, window, was, c)
    requires var cost := Cost(e, window, c);
             minima == if |was| > 0 && c <= was[|was| - 1].index + window then
                         if cost < was[|was| - 1].cost then was[|was| - 1 := MinEntry(c + window, cost)] else was
                       else was + [MinEntry(c + window, cost)]
    ensures AreMinima(e, window, minima, c + 1)
  {
    var total := c + 1;
    forall k | 0 <= k < |minima|
      ensures IsMinimumOfRun(e, window, minima, total, k)
    {
      if k < |was| {
        OldRun(e, window, was, c, minima, k);
      } else {
        assert k > 0 ==> IsMinimumOfRun(e, window, was, c, k - 1);
        assert RunStart(minima, window, k) == c;
        assert IsLeastInReach(e, window, c, c, total);
      }
    }
  }

  lemma OldRun(e: seq<StatisticalEstimates>, window: nat, was: seq<MinEntry>, c: nat, minima: seq<MinEntry>, k: nat)
    requires c + 2 * window + 1 < |e| && AreMinima(e, window, was, c)
    requires var cost := Cost(e, window, c);
             minima == if |was| > 0 && c <= was[|was| - 1].index + window then
                         if cost < was[|was| - 1].cost then was[|was| - 1 := MinEntry(c + window, cost)] else was
                       else was + [MinEntry(c + window, cost)]
    requires k < |was|
    ensures IsMinimumOfRun(e, window, minima, c + 1, k)
  {
    hide IsFirstLeast, Cost;
    assert IsMinimumOfRun(e, window, was, c, k);
    assert RunStart(minima, window, k) == RunStart(was, window, k);
    var start, best := RunStart(was, window, k), was[k].index - window;
    if minima[k] == was[k] {
      if k + 1 < |was| {
        NextRunLater(e, window, was, c, k);
      }
      MinimumKept(e, window, start, best, c);
    } else {
      MinimumLowered(e, window, start, best, c);
    }
  }

  lemma NextRunLater(e: seq<StatisticalEstimates>, window: nat, minima: seq<MinEntry>, total: nat, k: nat)
    requires total == 0 || total + 2 * window < |e|
    requires AreMinima(e, window, minima, total) && k + 1 < |minima|
    ensures minima[k].index + window < total
  {
    assert IsMinimumOfRun(e, window, minima, total, k + 1);
  }

  lemma MinimumKept(e: seq<StatisticalEstimates>, window: nat, start: nat, best: nat, c: nat)
    requires c + 2 * window + 1 < |e| && IsFirstLeast(e, window, start, best, c)
    requires c <= best + 2 * window ==> Cost(e, window, c) >= Cost(e, window, best)
    ensures IsFirstLeast(e, window, start, best, c + 1)
  {
    var total := c + 1;
    forall p | start <= p < best
      ensures !IsLeastInReach(e, window, start, p, total)
    {
      NotLeastStays(e, window, start, p, c);
    }
  }

  lemma MinimumLowered(e: seq<StatisticalEstimates>, window: nat, start: nat, best: nat, c: nat)
    requires c + 2 * window + 1 < |e| && IsFirstLeast(e, window, start, best, c)
    requires c <= best + 2 * window && Cost(e, window, c) < Cost(e, window, best)
    ensures IsFirstLeast(e, window, start, c, c + 1)
  {
    var total := c + 1;
    forall p | start <= p < c
      ensures !IsLeastInReach(e, window, start, p, total)
    {
      if p < best {
        NotLeastStays(e, window, start, p, c);
      } else if p > best {
        assert Cost(e, window, best) <= Cost(e, window, p) && start <= best < p;
      }
    }
  }

  lemma NotLeastStays(e: seq<StatisticalEstimates>, window: nat, start: nat, p: nat, total: nat)
    requires total + 2 * window + 1 < |e| && p < total
    requires !IsLeastInReach(e, window, start, p, total)
    ensures !IsLeastInReach(e, window, start, p, total + 1)
  {
  }

  /** Later accesses stay inside the estimates, and entries are more than two windows apart. */
  lemma MinimaInRange(e: seq<StatisticalEstimates>, window: nat, minima: seq<MinEntry>, k: nat)
    requires |e| > 2 * window + 1 && AreMinima(e, window, minima, |e| - 2 * window - 1)
    requires k < |minima|
    ensures window <= minima[k].index && minima[k].index + window + 1 < |e|
    ensures forall l :: k < l < |minima| ==> minima[k].index + 2 * window < minima[l].index
    decreases |minima| - k
  {
    assert IsMinimumOfRun(e, window, minima, |e| - 2 * window - 1, k);
    if k + 1 < |minima| {
      MinimaInRange(e, window, minima, k + 1);
      assert IsMinimumOfRun(e, window, minima, |e| - 2 * window - 1, k + 1);
    }
  }

  /** The estimates determine the minima: the partition into runs has no second solution. */
  lemma MinimaUnique(e: seq<StatisticalEstimates>, window: nat, minima: seq<MinEntry>, others: seq<MinEntry>, total: nat)
    requires total == 0 || total + 2 * window < |e|
    requires AreMinima(e, window, minima, total) && AreMinima(e, window, others, total)
    ensures minima == others
  {
    SamePrefix(e, window, minima, others, total, |minima|);
    SamePrefix(e, window, others, minima, total, |others|);
  }

  lemma {:induction false} SamePrefix(e: seq<StatisticalEstimates>, window: nat,
                                     minima: seq<MinEntry>, others: seq<MinEntry>, total: nat, k: nat)
    requires total == 0 || total + 2 * window < |e|
    requires AreMinima(e, window, minima, total) && AreMinima(e, window, others, total)
    requires k <= |minima|
    ensures k <= |others| && minima[..k] == others[..k]
  {
    if k == 0 {
    } else {
      SamePrefix(e, window, minima, others, total, k - 1);
      assert k > 1 ==> minima[..k - 1][k - 2] == others[..k - 1][k - 2];
      assert RunStart(minima, window, k - 1) == RunStart(others, window, k - 1);
      assert IsMinimumOfRun(e, window, minima, total, k - 1);
      assert k - 1 < |others|;
      assert IsMinimumOfRun(e, window, others, total, k - 1);
      assert minima[k - 1] == others[k - 1];
    }
  }

  // ----- selection of change points -----

  /** The comparison `a / d / s > 9` in floating point, for a, s >= 0: dividing a positive number by zero
      gives infinity and zero by zero is not a number. */
  predicate RatioExceedsNine(a: real, d: nat, s: real) {
    if d == 0 || s == 0.0 then a > 0.0 else a / d as real / s > 9.0
  }

  /** The test for a change point. It squares `mean21` where `meanDiff21` is computed; the latter is unused. */
  predicate LinesDiffer(e: seq<StatisticalEstimates>, window: nat, index: nat)
    requires window <= index && index + window + 1 < |e|
  {
    var e1, e2 := e[index - window], e[index + window + 1];
    var reach := (2 * window + 1) as real;
    var mean12 := e1.mean + Product(e1.slope, reach);
    var mean21 := e2.mean - Product(e2.slope, reach);
    var meanDiff12 := mean12 - e2.mean;
    RatioExceedsNine(Square(meanDiff12) + Square(mean21), 2 * window, 0.5 * (e1.slopedVariance + e2.slopedVariance))
  }

  /** Without divisions, for positive variances. */
  lemma LinesDifferExactly(e: seq<StatisticalEstimates>, window: nat, index: nat)
    requires 0 < window <= index && index + window + 1 < |e| && Cost(e, window, index - window) > 0.0
    ensures var e1, e2 := e[index - window], e[index + window + 1];
            LinesDiffer(e, window, index) <==>
              Square(e1.mean + Product(e1.slope, (2 * window + 1) as real) - e2.mean)
              + Square(e2.mean - Product(e2.slope, (2 * window + 1) as real))
              > (9 * window) as real * Cost(e, window, index - window)
  {
    hide RatioExceedsNine, Square, Product;
    var e1, e2, reach := e[index - window], e[index + window + 1], (2 * window + 1) as real;
    RatioThreshold(Square(e1.mean + Product(e1.slope, reach) - e2.mean) + Square(e2.mean - Product(e2.slope, reach)),
                   window, e1.slopedVariance + e2.slopedVariance);
  }

  lemma RatioThreshold(a: real, window: nat, cost: real)
    requires window > 0 && cost > 0.0
    ensures RatioExceedsNine(a, 2 * window, 0.5 * cost) <==> a > (9 * window) as real * cost
  {
    hide Product;
    var d, s := (2 * window) as real, 0.5 * cost;
    var r := a / d / s;
    CancelDivision(a, d);
    CancelDivision(a / d, s);
    assert d == 2.0 * window as real;
    assert r * s * d == a;
    Regrouped(r, s, window as real, cost);
    PositiveProduct(window as real, cost);
    assert (9 * window) as real == 9.0 * window as real;
    ScaledOrder(r, Product(window as real, cost), a, (9 * window) as real * cost);
  }

  lemma Regrouped(r: real, s: real, w: real, cost: real)
    requires s == 0.5 * cost
    ensures r * s * (2.0 * w) == r * Product(w, cost)
    ensures 9.0 * w * cost == 9.0 * Product(w, cost)
  {
  }

  lemma ScaledOrder(r: real, m: real, a: real, threshold: real)
    requires m > 0.0 && a == r * m && threshold == 9.0 * m
    ensures r > 9.0 <==> a > threshold
  {
    assert r > 9.0 ==> (r - 9.0) * m > 0.0;
    assert r <= 9.0 ==> (9.0 - r) * m >= 0.0;
  }

  /** With windows of one sample, or without any variance, the lines differ as soon as one of the gaps is not zero. */
  lemma LinesDifferAtZero(e: seq<StatisticalEstimates>, window: nat, index: nat)
    requires window <= index && index + window + 1 < |e| && (window == 0 || Cost(e, window, index - window) == 0.0)
    ensures var e1, e2 := e[index - window], e[index + window + 1];
            LinesDiffer(e, window, index) <==>
              || e1.mean + Product(e1.slope, (2 * window + 1) as real) != e2.mean
              || e2.mean != Product(e2.slope, (2 * window + 1) as real)
  {
    hide Square, Product;
    var e1, e2, reach := e[index - window], e[index + window + 1], (2 * window + 1) as real;
    SquarePositive(e1.mean + Product(e1.slope, reach) - e2.mean);
    SquarePositive(e2.mean - Product(e2.slope, reach));
  }

  /** As a consequence of squaring `mean21`, two windows with one and the same flat line pass for different ones if and
      only if their level is high enough. */
  lemma SameLineDiffersExactly(e: seq<StatisticalEstimates>, window: nat, index: nat, level: real)
    requires 0 < window <= index && index + window + 1 < |e| && Cost(e, window, index - window) > 0.0
    requires e[index - window].mean == e[index + window + 1].mean == level
    requires e[index - window].slope == e[index + window + 1].slope == 0.0
    ensures LinesDiffer(e, window, index) <==> Square(level) > (9 * window) as real * Cost(e, window, index - window)
  {
    LinesDifferExactly(e, window, index);
  }

  method TotalVariationOfLinearRegressionValues(window: nat, e: seq<StatisticalEstimates>)
    returns (changePoints: seq<nat>, ghost minima: seq<MinEntry>)
    ensures AreMinima(e, window, minima, Max(0, |e| - 2 * window - 1))
    ensures forall k :: 0 <= k < |minima| ==> window <= minima[k].index && minima[k].index + window + 1 < |e|
    ensures Increasing(changePoints)
    ensures forall k :: 0 <= k < |minima| ==> (minima[k].index in changePoints <==> LinesDiffer(e, window, minima[k].index))
    ensures forall m :: m in changePoints ==> exists k :: 0 <= k < |minima| && minima[k].index == m
  {
    var entries := FindMinima(window, e);
    minima := entries;
    forall k | 0 <= k < |entries|
      ensures window <= entries[k].index && entries[k].index + window + 1 < |e|
      ensures forall l :: k < l < |entries| ==> entries[k].index < entries[l].index
    {
      MinimaInRange(e, window, entries, k);
    }
    changePoints := [];
    for i := 0 to |entries|
      invariant Increasing(changePoints)
      invariant forall m :: m in changePoints ==> exists k :: 0 <= k < i && entries[k].index == m
      invariant forall k :: 0 <= k < i ==> (entries[k].index in changePoints <==> LinesDiffer(e, window, entries[k].index))
    {
      if LinesDiffer(e, window, entries[i].index) {
        forall m | m in changePoints
          ensures m < entries[i].index
        {
          var k :| 0 <= k < i && entries[k].index == m;
        }
        assert forall k :: 0 <= k < |changePoints| ==> changePoints[k] in changePoints;
        changePoints := changePoints + [entries[i].index];
      }
    }
  }

  // ----- change points of a series -----

  function AllEstimates(s: seq<TimestampDoublePair>, window: nat, regression: bool): (e: seq<StatisticalEstimates>)
    requires s != [] && 4 * window <= |s|
    ensures |e| == |s|
    ensures forall i :: 0 <= i < |s| ==> e[i] == EstimatesAt(s, window, regression, i)
  {
    seq(|s|, i requires 0 <= i < |s| => EstimatesAt(s, window, regression, i))
  }

  function WindowSize(preferred: nat, n: nat): (w: nat)
    ensures w == Min(preferred, n / 4)
    ensures 4 * w <= n
  {
    if preferred < n / 4 then preferred else n / 4
  }

  /** Change points cut a series of `n` samples into non-empty pieces. */
  ghost predicate Cuts(changes: seq<nat>, n: nat) {
    Increasing(changes) && forall m :: m in changes ==> m + 1 < n
  }

  /** The change points of the mean are the steps of the windows of 6 samples, or of a quarter of the series. */
  ghost predicate AreMeanChangePoints(s: seq<TimestampDoublePair>, changes: seq<nat>)
    requires s != []
  {
    var w := WindowSize(6, |s|);
    AreMeanSteps(AllEstimates(s, w, false), w, changes, |s|)
  }

  /** The change points of the line are those minima at which the lines differ. */
  ghost predicate AreLinearChangePoints(s: seq<TimestampDoublePair>, changes: seq<nat>, minima: seq<MinEntry>)
    requires s != []
  {
    var w := WindowSize(10, |s|);
    var e := AllEstimates(s, w, true);
    && AreMinima(e, w, minima, Max(0, |s| - 2 * w - 1))
    && (forall k :: 0 <= k < |minima| ==>
          && w <= minima[k].index && minima[k].index + w + 1 < |s|
          && (minima[k].index in changes <==> LinesDiffer(e, w, minima[k].index)))
    && (forall m :: m in changes ==> exists k :: 0 <= k < |minima| && minima[k].index == m)
  }

  method FindChangePointsOfMeanValues(mv: MeasurementValues) returns (changes: seq<nat>)
    requires mv.Valid() && mv.GetNumberOfElements() >= 1
    ensures Cuts(changes, |mv.Contents()|)
    ensures AreMeanChangePoints(mv.Contents(), changes)
  {
    hide EstimatesAt, IsMeanStep;
    var num := mv.GetNumberOfElements();
    var window := WindowSize(6, num);
    var estimates := EstimateStatistics(mv, window, false);
    assert estimates == AllEstimates(mv.Contents(), window, false);
    changes := TotalVariationOfMeanValues(num, window, estimates);
  }

  method FindChangePointsOfLinearRegressionValues(mv: MeasurementValues)
    returns (changes: seq<nat>, ghost minima: seq<MinEntry>)
    requires mv.Valid() && mv.GetNumberOfElements() >= 1
    ensures Cuts(changes, |mv.Contents()|)
    ensures AreLinearChangePoints(mv.Contents(), changes, minima)
  {
    hide EstimatesAt, AreMinima, LinesDiffer;
    var num := mv.GetNumberOfElements();
    var window := WindowSize(10, num);
    var estimates := EstimateStatistics(mv, window, true);
    assert estimates == AllEstimates(mv.Contents(), window, true);
    changes, minima := TotalVariationOfLinearRegressionValues(window, estimates);
  }

  // ----- intervals -----

  /** Non-empty intervals that cover 0 .. n-1 in order, without gap or overlap. */
  ghost predicate Tiles(intervals: seq<MeasurementValueInterval>, n: nat) {
    && intervals != []
    && var last := intervals[|intervals| - 1];
       && last.start <= last.end && last.end + 1 == n
       && if |intervals| == 1 then last.start == 0 else Tiles(intervals[..|intervals| - 1], last.start)
  }

  /** Every sample is in exactly one interval of a tiling. */
  lemma {:induction false} TilesCover(intervals: seq<MeasurementValueInterval>, n: nat, i: nat)
    requires Tiles(intervals, n)
    ensures i < n <==> exists k :: 0 <= k < |intervals| && intervals[k].start <= i <= intervals[k].end
    ensures forall k, l :: 0 <= k < l < |intervals| ==> intervals[k].end < intervals[l].start
    ensures forall k :: 0 <= k < |intervals| ==> intervals[k].start <= intervals[k].end < n
  {
    var m := |intervals| - 1;
    if m == 0 {
    } else {
      var front := intervals[..m];
      TilesCover(front, intervals[m].start, i);
      assert forall k :: 0 <= k < m ==> front[k] == intervals[k];
      if i < intervals[m].start {
        var k :| 0 <= k < |front| && front[k].start <= i <= front[k].end;
        assert intervals[k].start <= i <= intervals[k].end;
      }
    }
  }

  lemma TilesAppend(intervals: seq<MeasurementValueInterval>, iv: MeasurementValueInterval)
    requires intervals == [] || Tiles(intervals, iv.start)
    requires intervals == [] ==> iv.start == 0
    requires iv.start <= iv.end
    ensures Tiles(intervals + [iv], iv.end + 1)
  {
  }

  /** Interval `iv` of the series `s` carries the mean of its samples. */
  ghost predicate CarriesMean(s: seq<TimestampDoublePair>, iv: MeasurementValueInterval) {
    && iv.start <= iv.end < |s|
    && iv.mean == Mean(Values(s[iv.start..iv.end + 1]))
  }

  ghost predicate CarriesRegression(s: seq<TimestampDoublePair>, iv: MeasurementValueInterval) {
    CarriesMean(s, iv) && iv.slope == Slope(Values(s[iv.start..iv.end + 1]))
  }

  method MeanInterval(mv: MeasurementValues, start: nat, end: nat) returns (iv: MeasurementValueInterval)
    requires mv.Valid() && start <= end < mv.GetNumberOfElements()
    ensures iv.start == start && iv.end == end && iv.slope == 0.0
    ensures CarriesMean(mv.Contents(), iv)
  {
    var mean := EstimateMeanOfRange(mv, start, end);
    iv := MeasurementValueInterval(start, end, mean, 0.0);
  }

  method RegressionInterval(mv: MeasurementValues, start: nat, end: nat) returns (iv: MeasurementValueInterval)
    requires mv.Valid() && start <= end < mv.GetNumberOfElements()
    ensures iv.start == start && iv.end == end
    ensures CarriesRegression(mv.Contents(), iv)
  {
    var mean, variance, slope := EstimateLinearRegression(mv, start, end);
    iv := MeasurementValueInterval(start, end, mean, slope);
  }

  /** Appends the intervals to the given ones. */
  method FindPiecewiseConstantIntervals(mv: MeasurementValues, given: seq<MeasurementValueInterval>)
    returns (intervals: seq<MeasurementValueInterval>)
    requires mv.Valid() && mv.GetNumberOfElements() >= 1
    ensures given <= intervals && Tiles(intervals[|given|..], |mv.Contents()|)
    ensures forall k :: |given| <= k < |intervals| ==>
              CarriesMean(mv.Contents(), intervals[k]) && intervals[k].slope == 0.0
  {
    hide Mean, Tiles, CarriesMean, AreMeanChangePoints;
    var n := mv.GetNumberOfElements();
    var changes := FindChangePointsOfMeanValues(mv);
    assert forall k :: 0 <= k < |changes| ==> changes[k] in changes;
    ghost var s, pieces: seq<MeasurementValueInterval> := mv.Contents(), [];
    intervals := given;
    var iv: MeasurementValueInterval;
    if |changes| > 0 {
      iv := MeanInterval(mv, 0, changes[0]);
      TilesAppend(pieces, iv);
      intervals, pieces := intervals + [iv], pieces + [iv];
      for i := 1 to |changes|
        invariant intervals == given + pieces && pieces != [] && Tiles(pieces, changes[i - 1] + 1)
        invariant forall k :: 0 <= k < |pieces| ==> CarriesMean(s, pieces[k]) && pieces[k].slope == 0.0
      {
        iv := MeanInterval(mv, changes[i - 1] + 1, changes[i]);
        TilesAppend(pieces, iv);
        intervals, pieces := intervals + [iv], pieces + [iv];
      }
      iv := MeanInterval(mv, changes[|changes| - 1] + 1, n - 1);
    } else {
      var mean := EstimateMean(mv);
      iv := MeasurementValueInterval(0, n - 1, mean, 0.0);
      WholeMean(s, iv);
    }
    TilesAppend(pieces, iv);
    intervals, pieces := intervals + [iv], pieces + [iv];
    assert intervals == given + pieces;
  }

  lemma WholeMean(s: seq<TimestampDoublePair>, iv: MeasurementValueInterval)
    requires s != [] && iv.start == 0 && iv.end == |s| - 1 && iv.mean == Mean(Values(s))
    ensures CarriesMean(s, iv)
  {
    assert s[0..|s|] == s;
  }

  method FindPiecewiseLinearIntervals(mv: MeasurementValues, given: seq<MeasurementValueInterval>)
    returns (intervals: seq<MeasurementValueInterval>)
    requires mv.Valid() && mv.GetNumberOfElements() >= 1
    ensures given <= intervals && Tiles(intervals[|given|..], |mv.Contents()|)
    ensures forall k :: |given| <= k < |intervals| ==> CarriesRegression(mv.Contents(), intervals[k])
  {
    hide Tiles, CarriesRegression, AreLinearChangePoints;
    var n := mv.GetNumberOfElements();
    var changes, _ := FindChangePointsOfLinearRegressionValues(mv);
    assert forall k :: 0 <= k < |changes| ==> changes[k] in changes;
    ghost var s, pieces: seq<MeasurementValueInterval> := mv.Contents(), [];
    intervals := given;
    var iv: MeasurementValueInterval;
    if |changes| > 0 {
      iv := RegressionInterval(mv, 0, changes[0]);
      TilesAppend(pieces, iv);
      intervals, pieces := intervals + [iv], pieces + [iv];
      for i := 1 to |changes|
        invariant intervals == given + pieces && pieces != [] && Tiles(pieces, changes[i - 1] + 1)
        invariant forall k :: 0 <= k < |pieces| ==> CarriesRegression(s, pieces[k])
      {
        iv := RegressionInterval(mv, changes[i - 1] + 1, changes[i]);
        TilesAppend(pieces, iv);
        intervals, pieces := intervals + [iv], pieces + [iv];
      }
      iv := RegressionInterval(mv, changes[|changes| - 1] + 1, n - 1);
    } else {
      iv := RegressionInterval(mv, 0, n - 1);
    }
    TilesAppend(pieces, iv);
    intervals, pieces := intervals + [iv], pieces + [iv];
    assert intervals == given + pieces;
  }

  /** The sum of length times mean over all intervals. */
  function Mass(intervals: seq<MeasurementValueInterval>): real {
    if intervals == [] then 0.0 else
      var iv := intervals[|intervals| - 1];
      Mass(intervals[..|intervals| - 1]) + (iv.end - iv.start + 1) as real * iv.mean
  }

  /** Replacing the samples by the means of a tiling conserves their sum. */
  lemma {:induction false} MassConserved(s: seq<TimestampDoublePair>, intervals: seq<MeasurementValueInterval>)
    requires Tiles(intervals, |s|)
    requires forall k :: 0 <= k < |intervals| ==> CarriesMean(s, intervals[k])
    ensures Mass(intervals) == Sum(Values(s))
  {
    hide Mean, Sum, Values;
    var m := |intervals| - 1;
    var iv := intervals[m];
    assert CarriesMean(s, iv);
    var front, tail := s[..iv.start], s[iv.start..iv.end + 1];
    MeanTimesCount(Values(tail));
    SplitSum(s, iv.start);
    if m == 0 {
      assert intervals[..0] == [];
    } else {
      FrontMeans(s, intervals, intervals[..m], iv.start);
      MassConserved(front, intervals[..m]);
    }
  }

  lemma FrontMeans(s: seq<TimestampDoublePair>, intervals: seq<MeasurementValueInterval>,
                   front: seq<MeasurementValueInterval>, n: nat)
    requires front <= intervals && n <= |s| && Tiles(front, n)
    requires forall k :: 0 <= k < |intervals| ==> CarriesMean(s, intervals[k])
    ensures forall k :: 0 <= k < |front| ==> CarriesMean(s[..n], front[k])
  {
    hide CarriesMean, Tiles;
    forall k | 0 <= k < |front|
      ensures CarriesMean(s[..n], front[k])
    {
      TilesCover(front, n, 0);
      assert front[k] == intervals[k];
      FrontCarriesMean(s, n, intervals[k]);
    }
  }

  lemma FrontCarriesMean(s: seq<TimestampDoublePair>, n: nat, iv: MeasurementValueInterval)
    requires CarriesMean(s, iv) && iv.end < n <= |s|
    ensures CarriesMean(s[..n], iv)
  {
    assert s[..n][iv.start..iv.end + 1] == s[iv.start..iv.end + 1];
  }

  lemma SplitSum(s: seq<TimestampDoublePair>, n: nat)
    requires n <= |s|
    ensures Sum(Values(s)) == Sum(Values(s[..n])) + Sum(Values(s[n..]))
    ensures n == 0 ==> Sum(Values(s[..n])) == 0.0
    ensures s[n..|s|] == s[n..]
  {
    SumConcat(Values(s[..n]), Values(s[n..]));
    assert Values(s) == Values(s[..n]) + Values(s[n..]);
  }
}
