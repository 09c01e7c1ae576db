/**
 * Queries on a ring buffer of timestamped measurements: the measurement closest to a point in time,
 * interpolation between the two closest ones, and sample statistics over index ranges.
 */
module Measurements {
  import opened Words
  import opened RingBuffers
  import opened SpeedwireTime
  import opened Statistics

  datatype TimestampDoublePair = TimestampDoublePair(value: real, time: U32)

  type MeasurementValues = RingBuffer<TimestampDoublePair>

  // ----- the order of the stored times as seen from a query time -----

  /** No stored time is before its predecessor, as far as 32-bit differences to the query can tell. */
  ghost predicate Ordered(s: seq<TimestampDoublePair>, time: U32) {
    forall i, j :: 0 <= i < j < |s| ==> Difference32(time, s[i].time) >= Difference32(time, s[j].time)
  }

  ghost predicate StrictlyOrdered(s: seq<TimestampDoublePair>, time: U32) {
    forall i, j :: 0 <= i < j < |s| ==> Difference32(time, s[i].time) > Difference32(time, s[j].time)
  }

  /** The stored times are the lower 32 bits of the given instants, all within 2^31 of the query. */
  ghost predicate Unwraps(s: seq<TimestampDoublePair>, instants: seq<int>, query: int) {
    && |instants| == |s|
    && forall i :: 0 <= i < |s| ==> s[i].time == instants[i] % TWO_32 && -TWO_31 <= query - instants[i] < TWO_31
  }

  /** Instants in order make the stored times ordered, across any number of 32-bit wraps. */
  lemma OrderFromInstants(s: seq<TimestampDoublePair>, instants: seq<int>, query: int)
    requires Unwraps(s, instants, query)
    ensures forall i :: 0 <= i < |s| ==> Difference32(query % TWO_32, s[i].time) == query - instants[i]
    ensures (forall i, j :: 0 <= i < j < |s| ==> instants[i] <= instants[j]) <==> Ordered(s, query % TWO_32)
    ensures (forall i, j :: 0 <= i < j < |s| ==> instants[i] < instants[j]) <==> StrictlyOrdered(s, query % TWO_32)
  {
    hide Difference32;
    forall i | 0 <= i < |s|
      ensures Difference32(query % TWO_32, s[i].time) == query - instants[i]
    {
      DifferenceOfInstants(query, instants[i]);
    }
  }

  function Distance(s: seq<TimestampDoublePair>, time: U32, i: nat): U32
    requires i < |s|
  {
    AbsDifference32(time, s[i].time)
  }

  // ----- closest measurement -----

  /** The closest measurement, and the later one of two that are equally close. */
  ghost function Center(s: seq<TimestampDoublePair>, time: U32): (c: nat)
    requires s != []
    ensures c < |s|
    ensures forall k :: 0 <= k < c ==> Distance(s, time, c) <= Distance(s, time, k)
    ensures forall k :: c < k < |s| ==> Distance(s, time, c) < Distance(s, time, k)
  {
    var last := |s| - 1;
    if last == 0 then 0 else
      var front := s[..last];
      var c := Center(front, time);
      assert forall k :: 0 <= k < last ==> Distance(s, time, k) == Distance(front, time, k);
      if Distance(s, time, last) <= Distance(s, time, c) then last else c
  }

  method FindClosestIndex(mv: MeasurementValues, time: U32) returns (index: U64)
    requires mv.Valid()
    ensures mv.Contents() == [] <==> index == NO_INDEX
    ensures index != NO_INDEX ==> index < |mv.Contents()|
    ensures index != NO_INDEX && Ordered(mv.Contents(), time) ==>
              forall k :: 0 <= k < |mv.Contents()| ==>
                Distance(mv.Contents(), time, index) <= Distance(mv.Contents(), time, k)
    ensures index != NO_INDEX && StrictlyOrdered(mv.Contents(), time) ==> index == Center(mv.Contents(), time)
  {
    if mv.GetNumberOfElements() == 0 {
      return NO_INDEX;
    }
    hide Center, Ordered, StrictlyOrdered, Difference32, AbsDifference32, Rotated, RingBuffer.At, DoubledUpTo;
    ghost var s := mv.Contents();
    var low, high := 0, mv.GetNumberOfElements() - 1;
    while low + 1 < high
      invariant 0 <= low <= high < |s| && (low < high || |s| == 1)
      invariant low == 0 || Difference32(time, s[low].time) > 0
      invariant high == |s| - 1 || Difference32(time, s[high].time) <= 0
    {
      var mid := (low + high) / 2;
      if Difference32(time, mv.At(mid).time) > 0 {
        low := mid;
      } else {
        high := mid;
      }
    }
    var lowIsCloser := AbsDifference32(time, mv.At(low).time) < AbsDifference32(time, mv.At(high).time);
    index := if lowIsCloser then low else high;
    SearchEnds(s, time, low, high);
  }

  lemma CenterIs(s: seq<TimestampDoublePair>, time: U32, c: nat)
    requires c < |s|
    requires forall k :: 0 <= k < c ==> Distance(s, time, c) <= Distance(s, time, k)
    requires forall k :: c < k < |s| ==> Distance(s, time, c) < Distance(s, time, k)
    ensures c == Center(s, time)
  {
  }

  /** Where the binary search ends: no measurement outside low and high is closer than the nearer of them. */
  lemma SearchEnds(s: seq<TimestampDoublePair>, time: U32, low: nat, high: nat)
    requires low <= high < |s| && (high == low + 1 || (high == low && |s| == 1))
    requires low == 0 || Difference32(time, s[low].time) > 0
    requires high == |s| - 1 || Difference32(time, s[high].time) <= 0
    ensures var index := if Distance(s, time, low) < Distance(s, time, high) then low else high;
            && (Ordered(s, time) ==> forall k :: 0 <= k < |s| ==> Distance(s, time, index) <= Distance(s, time, k))
            && (StrictlyOrdered(s, time) ==> index == Center(s, time))
  {
    hide Center, Difference32;
    var index := if Distance(s, time, low) < Distance(s, time, high) then low else high;
    if StrictlyOrdered(s, time) {
      CenterIs(s, time, index);
    }
  }

  /** The measurement itself; the default pair if there is none. */
  method FindClosestMeasurement(mv: MeasurementValues, time: U32) returns (pair: Option<TimestampDoublePair>)
    requires mv.Valid()
    ensures pair.None? <==> mv.Contents() == []
    ensures pair.Some? ==> pair.value in mv.Contents()
    ensures pair.Some? && Ordered(mv.Contents(), time) ==>
              forall p :: p in mv.Contents() ==> AbsDifference32(time, pair.value.time) <= AbsDifference32(time, p.time)
  {
    var index := FindClosestIndex(mv, time);
    if index != NO_INDEX {
      pair := Some(mv.At(index));
      ghost var s := mv.Contents();
      if Ordered(s, time) {
        forall p | p in s
          ensures AbsDifference32(time, pair.value.time) <= AbsDifference32(time, p.time)
        {
          var k :| 0 <= k < |s| && s[k] == p;
          assert Distance(s, time, index) <= Distance(s, time, k);
        }
      }
    } else {
      pair := None;
    }
  }

  // ----- interpolation -----

  /** A double that is a number, or the outcome of a division by zero. */
  datatype Interpolated = Number(r: real) | Undefined

  /** The weighted sum of two values; the uint32_t sum of the weights is the divisor. */
  function Blend(weight1: U32, value1: real, weight2: U32, value2: real): Interpolated {
    var divisor := (weight1 + weight2) % TWO_32;
    if divisor == 0 then Undefined
    else Number(Weighted(weight1 as real, value1, weight2 as real, value2, divisor as real))
  }

  function Weighted(weight1: real, value1: real, weight2: real, value2: real, divisor: real): real
    requires divisor != 0.0
  {
    (weight1 * value1 + weight2 * value2) / divisor
  }

  /** i and j are neighbours, and no other measurement is closer to `time` than either of them. */
  ghost predicate TwoClosest(s: seq<TimestampDoublePair>, time: U32, i: nat, j: nat) {
    && i < |s| && j < |s| && (j == i + 1 || i == j + 1)
    && forall k :: 0 <= k < |s| && k != i && k != j ==>
         Distance(s, time, k) >= Distance(s, time, i) && Distance(s, time, k) >= Distance(s, time, j)
  }

  /** Each value is weighted with the distance of the other one. */
  function BlendAt(s: seq<TimestampDoublePair>, time: U32, i: nat, j: nat): Interpolated
    requires i < |s| && j < |s|
  {
    Blend(Distance(s, time, j), s[i].value, Distance(s, time, i), s[j].value)
  }

  /** The first index of the pair of neighbours that is blended around `center`: with the earlier neighbour if that
      is not farther than the later one, or if there is no later one. */
  function PairAround(s: seq<TimestampDoublePair>, time: U32, center: nat): (i: nat)
    requires center < |s| && |s| > 1
    ensures i + 1 < |s| && (i == center || i + 1 == center)
  {
    if center + 1 == |s| || (center > 0 && Distance(s, time, center - 1) <= Distance(s, time, center + 1))
    then center - 1
    else center
  }

  /** The interpolated value as a function of the samples. */
  ghost function Interpolation(s: seq<TimestampDoublePair>, time: U32): Interpolated
    requires |s| > 1
  {
    var i := PairAround(s, time, Center(s, time));
    BlendAt(s, time, i, i + 1)
  }

  /** The result also names the pair that was blended, which the times alone determine if they increase. */
  method InterpolateClosestValues(mv: MeasurementValues, time: U32) returns (r: Interpolated, ghost pair: nat)
    requires mv.Valid()
    ensures mv.Contents() == [] ==> r == Number(0.0)
    ensures |mv.Contents()| == 1 ==> r == Number(mv.Contents()[0].value)
    ensures |mv.Contents()| > 1 ==>
              pair + 1 < |mv.Contents()| && r == BlendAt(mv.Contents(), time, pair, pair + 1)
    ensures |mv.Contents()| > 1 && StrictlyOrdered(mv.Contents(), time) ==>
              && pair == PairAround(mv.Contents(), time, Center(mv.Contents(), time))
              && r == Interpolation(mv.Contents(), time)
              && TwoClosest(mv.Contents(), time, pair, pair + 1)
  {
    hide Center, TwoClosest, AbsDifference32, Blend, Rotated, StrictlyOrdered, Ordered, RingBuffer.At, DoubledUpTo;
    ghost var s := mv.Contents();
    pair := 0;
    var center := FindClosestIndex(mv, time);
    if center == NO_INDEX {
      return Number(0.0), 0;
    }
    var n := mv.GetNumberOfElements();
    if n <= 1 {
      return Number(mv.At(center).value), 0;
    }
    var before := if center > 0 then center - 1 else center;
    var after := if center < n - 1 then center + 1 else center;
    var diffBefore := AbsDifference32(time, mv.At(before).time);
    var diffCenter := AbsDifference32(time, mv.At(center).time);
    var diffAfter := AbsDifference32(time, mv.At(after).time);
    pair := PairAround(s, time, center);
    if after == center || (before != center && diffBefore <= diffAfter) {
      r := Blend(diffCenter, mv.At(before).value, diffBefore, mv.At(center).value);
    } else {
      r := Blend(diffAfter, mv.At(center).value, diffCenter, mv.At(after).value);
    }
    if StrictlyOrdered(s, time) {
      PairIsClosest(s, time);
    }
  }

  lemma PairIsClosest(s: seq<TimestampDoublePair>, time: U32)
    requires |s| > 1 && StrictlyOrdered(s, time)
    ensures var i := PairAround(s, time, Center(s, time)); TwoClosest(s, time, i, i + 1)
  {
    hide Center;
    var c := Center(s, time);
    var i := PairAround(s, time, c);
    ClosestPair(s, time, c, i, i + 1);
  }

  /** Beyond the closest measurement the distances grow on both sides. */
  lemma ClosestPair(s: seq<TimestampDoublePair>, time: U32, center: nat, i: nat, j: nat)
    requires StrictlyOrdered(s, time) && j < |s| && j == i + 1 && (center == i || center == j)
    requires forall k :: 0 <= k < |s| ==> Distance(s, time, center) <= Distance(s, time, k)
    requires center == j ==> j + 1 < |s| ==> Distance(s, time, i) <= Distance(s, time, j + 1)
    requires center == i ==> i > 0 ==> Distance(s, time, j) <= Distance(s, time, i - 1)
    ensures TwoClosest(s, time, i, j)
  {
  }

  // ----- what the interpolation means -----

  /** The straight line through samples i and i + 1, evaluated at the query. */
  function LinearAt(s: seq<TimestampDoublePair>, time: U32, i: nat): real
    requires i + 1 < |s| && Difference32(time, s[i].time) != Difference32(time, s[i + 1].time)
  {
    var d0, d1 := Difference32(time, s[i].time), Difference32(time, s[i + 1].time);
    Line(s[i].value, s[i + 1].value, d0 as real, (d0 - d1) as real)
  }

  /** The value at `x` of the line from `v` at 0 to `w` at `d`. */
  function Line(v: real, w: real, x: real, d: real): real
    requires d != 0.0
  {
    v + (w - v) * x / d
  }

  predicate Brackets(s: seq<TimestampDoublePair>, time: U32, i: nat)
    requires i + 1 < |s|
  {
    Difference32(time, s[i].time) >= 0 >= Difference32(time, s[i + 1].time)
  }

  /** For strictly increasing times the divisor neither wraps nor vanishes, and the result lies between
      the two values used. */
  lemma BlendInBetween(s: seq<TimestampDoublePair>, time: U32, i: nat)
    requires StrictlyOrdered(s, time) && i + 1 < |s|
    ensures Distance(s, time, i) + Distance(s, time, i + 1) < TWO_32
    ensures BlendAt(s, time, i, i + 1).Number?
    ensures var r := BlendAt(s, time, i, i + 1).r; var v, w := s[i].value, s[i + 1].value;
            if v <= w then v <= r <= w else w <= r <= v
  {
    hide Difference32, Weighted;
    var p, q := Distance(s, time, i + 1), Distance(s, time, i);
    assert Difference32(time, s[i].time) > Difference32(time, s[i + 1].time);
    assert 0 < p + q < TWO_32;
    WeightedInBetween(p as real, s[i].value, q as real, s[i + 1].value, (p + q) as real);
  }

  lemma WeightedInBetween(p: real, v: real, q: real, w: real, d: real)
    requires p >= 0.0 && q >= 0.0 && d == p + q > 0.0
    ensures if v <= w then v <= Weighted(p, v, q, w, d) <= w else w <= Weighted(p, v, q, w, d) <= v
  {
    if v <= w {
      WeightedMean(p, v, q, w);
    } else {
      WeightedMean(q, w, p, v);
    }
  }

  lemma WeightedMean(p: real, v: real, q: real, w: real)
    requires p >= 0.0 && q >= 0.0 && p + q > 0.0 && v <= w
    ensures v <= (p * v + q * w) / (p + q) <= w
  {
    Scaled(q, v, w);
    Scaled(p, v, w);
    assert v * (p + q) == p * v + q * v;
    assert w * (p + q) == p * w + q * w;
    QuotientBounds(p * v + q * w, p + q, v, w);
  }

  lemma Scaled(q: real, v: real, w: real)
    requires q >= 0.0 && v <= w
    ensures q * v <= q * w
  {
    assert q * (w - v) >= 0.0;
  }

  lemma QuotientBounds(x: real, d: real, lo: real, hi: real)
    requires d > 0.0 && lo * d <= x <= hi * d
    ensures lo <= x / d <= hi
  {
  }

  /** Two samples on different sides of the query are blended to the exact linear interpolation. */
  lemma BlendIsLinear(s: seq<TimestampDoublePair>, time: U32, i: nat)
    requires StrictlyOrdered(s, time) && i + 1 < |s| && Brackets(s, time, i)
    ensures BlendAt(s, time, i, i + 1) == Number(LinearAt(s, time, i))
  {
    hide Difference32, Weighted, Line;
    var d0, d1 := Difference32(time, s[i].time), Difference32(time, s[i + 1].time);
    assert d0 > d1;
    var p, q := Distance(s, time, i + 1), Distance(s, time, i);
    assert p == -d1 && q == d0 && p + q == d0 - d1;
    LineFromWeights(p as real, s[i].value, q as real, s[i + 1].value, (d0 - d1) as real);
  }

  lemma LineFromWeights(p: real, v: real, q: real, w: real, d: real)
    requires d == p + q > 0.0
    ensures Weighted(p, v, q, w, d) == Line(v, w, q, d)
  {
  }

  lemma LineEnds(v: real, w: real, d: real)
    requires d != 0.0
    ensures Line(v, w, 0.0, d) == v && Line(v, w, d, d) == w
  {
  }

  /** Equally spaced samples: unwrapped, neighbours are `step` apart. */
  ghost predicate EquallySpaced(s: seq<TimestampDoublePair>, time: U32, step: int) {
    forall i :: 0 <= i && i + 1 < |s| ==> Spacing(s, time, i) == step
  }

  function Spacing(s: seq<TimestampDoublePair>, time: U32, i: nat): int
    requires i + 1 < |s|
  {
    Difference32(time, s[i].time) - Difference32(time, s[i + 1].time)
  }

  lemma {:induction false} SpacedIsOrdered(s: seq<TimestampDoublePair>, time: U32, step: int)
    requires step > 0 && EquallySpaced(s, time, step)
    ensures StrictlyOrdered(s, time)
  {
    if |s| <= 1 {
    } else {
      var front := s[..|s| - 1];
      forall i | 0 <= i && i + 1 < |front|
        ensures Spacing(front, time, i) == step
      {
        assert Spacing(s, time, i) == step;
      }
      SpacedIsOrdered(front, time, step);
      assert Spacing(s, time, |s| - 2) == step;
    }
  }

  /** For equally spaced samples around the query the result is the piecewise linear interpolation. */
  lemma InterpolationExact(s: seq<TimestampDoublePair>, time: U32, step: int, k: nat)
    requires step > 0 && EquallySpaced(s, time, step) && k + 1 < |s| && Brackets(s, time, k)
    ensures StrictlyOrdered(s, time) && Interpolation(s, time) == Number(LinearAt(s, time, k))
  {
    hide Center, TwoClosest, BlendAt, Difference32, PairAround;
    SpacedIsOrdered(s, time, step);
    PairIsClosest(s, time);
    ClosestPairExact(s, time, step, PairAround(s, time, Center(s, time)), k);
  }

  /** ... whichever two neighbours are the closest. */
  lemma ClosestPairExact(s: seq<TimestampDoublePair>, time: U32, step: int, i: nat, k: nat)
    requires step > 0 && EquallySpaced(s, time, step) && StrictlyOrdered(s, time)
    requires i + 1 < |s| && k + 1 < |s| && TwoClosest(s, time, i, i + 1) && Brackets(s, time, k)
    ensures BlendAt(s, time, i, i + 1) == Number(LinearAt(s, time, k))
  {
    if i < k {
      assert Spacing(s, time, i) == step && Spacing(s, time, k) == step;
      OnSample(s, time, i, k);
      BlendOnSample(s, time, i, i + 1);
    } else if k < i {
      assert Spacing(s, time, i) == step && Spacing(s, time, k) == step;
      OnSample(s, time, i, k);
      BlendOnSample(s, time, i, i);
    } else {
      BlendIsLinear(s, time, i);
    }
  }

  /** If the closest pair is not the pair around the query, the query is at the sample they share. */
  lemma OnSample(s: seq<TimestampDoublePair>, time: U32, i: nat, k: nat)
    requires StrictlyOrdered(s, time) && i + 1 < |s| && k + 1 < |s| && i != k
    requires Spacing(s, time, i) == Spacing(s, time, k)
    requires TwoClosest(s, time, i, i + 1) && Brackets(s, time, k)
    ensures var shared := if i < k then i + 1 else i;
            && (shared == k || shared == k + 1)
            && Difference32(time, s[shared].time) == 0
            && LinearAt(s, time, k) == s[shared].value
  {
    if i < k {
      assert Distance(s, time, k) == Difference32(time, s[k].time);
      assert Distance(s, time, k + 1) >= Distance(s, time, i);
      assert Difference32(time, s[k].time) == 0;
      LineEnds(s[k].value, s[k + 1].value, Spacing(s, time, k) as real);
    } else {
      assert Distance(s, time, k + 1) == -Difference32(time, s[k + 1].time);
      assert Distance(s, time, k) >= Distance(s, time, i + 1);
      assert Difference32(time, s[i].time) == 0;
      LineEnds(s[k].value, s[i].value, Spacing(s, time, k) as real);
    }
  }

  lemma BlendOnSample(s: seq<TimestampDoublePair>, time: U32, i: nat, on: nat)
    requires StrictlyOrdered(s, time) && i + 1 < |s| && (on == i || on == i + 1)
    requires Difference32(time, s[on].time) == 0
    ensures BlendAt(s, time, i, i + 1) == Number(s[on].value)
  {
    assert Difference32(time, s[i].time) > Difference32(time, s[i + 1].time);
    BlendIsLinear(s, time, i);
    LineEnds(s[i].value, s[i + 1].value, Spacing(s, time, i) as real);
  }

  /** Without equal spacing the two closest measurements may lie on the same side of the query, and the
      result is not the linear interpolation: at 60 between 0, 100 and 101 the code blends the last two. */
  lemma UnevenSpacingDeviates(s: seq<TimestampDoublePair>)
    requires s == [TimestampDoublePair(0.0, 0), TimestampDoublePair(100.0, 100), TimestampDoublePair(101.0, 101)]
    ensures StrictlyOrdered(s, 60) && Brackets(s, 60, 0) && TwoClosest(s, 60, 1, 2)
    ensures LinearAt(s, 60, 0) == 60.0
    ensures Interpolation(s, 60) == BlendAt(s, 60, 1, 2) && Interpolation(s, 60).Number? && Interpolation(s, 60).r > 100.0
  {
    hide Center;
    CenterIs(s, 60, 1);
  }

  /** Even the two samples around the query being closest is not enough: at a tie of distances the earlier
      neighbour is taken, here the first of 0, 8 and 20 for a query at 10. */
  lemma TieTakesEarlier(s: seq<TimestampDoublePair>)
    requires s == [TimestampDoublePair(0.0, 0), TimestampDoublePair(0.0, 8), TimestampDoublePair(12.0, 20)]
    ensures StrictlyOrdered(s, 10) && Brackets(s, 10, 1) && TwoClosest(s, 10, 0, 1) && TwoClosest(s, 10, 1, 2)
    ensures LinearAt(s, 10, 1) == 2.0 && Interpolation(s, 10) == BlendAt(s, 10, 0, 1) == Number(0.0)
  {
    hide Center;
    CenterIs(s, 10, 1);
  }

  /** One of the samples around the query is met, or each of them is nearer than what lies behind the other one;
      the earlier neighbour wins a tie. */
  predicate NearestAround(s: seq<TimestampDoublePair>, time: U32, k: nat)
    requires k + 1 < |s|
  {
    || Distance(s, time, k) == 0
    || Distance(s, time, k + 1) == 0
    || ((k > 0 ==> Distance(s, time, k - 1) > Distance(s, time, k + 1))
        && (k + 2 < |s| ==> Distance(s, time, k) <= Distance(s, time, k + 2)))
  }

  /** The exact condition: for increasing times around the query, the interpolation is the piecewise linear one for
      whatever values were measured at these times, if and only if the pair around the query is nearest. */
  lemma LinearIffNearest(s: seq<TimestampDoublePair>, time: U32, k: nat)
    requires StrictlyOrdered(s, time) && k + 1 < |s| && Brackets(s, time, k)
    ensures NearestAround(s, time, k) <==>
            forall t: seq<TimestampDoublePair> :: SameTimes(s, t) ==>
              Difference32(time, t[k].time) != Difference32(time, t[k + 1].time)
              && Interpolation(t, time) == Number(LinearAt(t, time, k))
  {
    hide Center, BlendAt, LinearAt, Difference32, Distance, PairAround, Brackets, NearestAround;
    var i := PairAround(s, time, Center(s, time));
    PairBrackets(s, time, k);
    LinearIffBracketing(s, time, i, k);
    forall t: seq<TimestampDoublePair> | SameTimes(s, t)
      ensures Interpolation(t, time) == BlendAt(t, time, i, i + 1)
    {
      SamePair(s, t, time);
    }
  }

  lemma PairBrackets(s: seq<TimestampDoublePair>, time: U32, k: nat)
    requires StrictlyOrdered(s, time) && k + 1 < |s| && Brackets(s, time, k)
    ensures Brackets(s, time, PairAround(s, time, Center(s, time))) <==> NearestAround(s, time, k)
  {
    hide Center, Difference32;
    var c := Center(s, time);
    assert Distance(s, time, c) <= Distance(s, time, k) && Distance(s, time, c) <= Distance(s, time, k + 1);
    assert c == k || c == k + 1;
  }

  /** Which pair is blended depends on the times only. */
  lemma SamePair(s: seq<TimestampDoublePair>, t: seq<TimestampDoublePair>, time: U32)
    requires |s| > 1 && SameTimes(s, t)
    ensures PairAround(s, time, Center(s, time)) == PairAround(t, time, Center(t, time))
  {
    hide Center, AbsDifference32;
    assert forall k :: 0 <= k < |s| ==> Distance(s, time, k) == Distance(t, time, k);
    CenterIs(t, time, Center(s, time));
  }

  ghost predicate SameTimes(s: seq<TimestampDoublePair>, t: seq<TimestampDoublePair>) {
    |s| == |t| && forall i :: 0 <= i < |s| ==> s[i].time == t[i].time
  }

  /** The exact condition for any spacing: blending samples i and i + 1 is the linear interpolation, for
      whatever values were measured at the stored times, if and only if the query is between the two. */
  lemma LinearIffBracketing(s: seq<TimestampDoublePair>, time: U32, i: nat, k: nat)
    requires StrictlyOrdered(s, time) && i + 1 < |s| && k + 1 < |s| && Brackets(s, time, k)
    ensures Brackets(s, time, i) <==>
            forall t: seq<TimestampDoublePair> :: SameTimes(s, t) ==>
              Difference32(time, t[k].time) != Difference32(time, t[k + 1].time)
              && BlendAt(t, time, i, i + 1) == Number(LinearAt(t, time, k))
  {
    if Brackets(s, time, i) {
      forall t: seq<TimestampDoublePair> | SameTimes(s, t)
        ensures Difference32(time, t[k].time) != Difference32(time, t[k + 1].time)
        ensures BlendAt(t, time, i, i + 1) == Number(LinearAt(t, time, k))
      {
        BothBracket(t, time, i, k);
      }
    } else {
      NotLinear(s, time, i, k);
    }
  }

  lemma BothBracket(s: seq<TimestampDoublePair>, time: U32, i: nat, k: nat)
    requires StrictlyOrdered(s, time) && i + 1 < |s| && k + 1 < |s|
    requires Brackets(s, time, i) && Brackets(s, time, k)
    ensures BlendAt(s, time, i, i + 1) == Number(LinearAt(s, time, k))
  {
    assert Difference32(time, s[k].time) > Difference32(time, s[k + 1].time);
    BlendIsLinear(s, time, i);
    BlendIsLinear(s, time, k);
    if i < k {
      assert i + 1 == k && Difference32(time, s[k].time) == 0;
      BlendOnSample(s, time, i, k);
      BlendOnSample(s, time, k, k);
    } else if k < i {
      assert k + 1 == i && Difference32(time, s[i].time) == 0;
      BlendOnSample(s, time, i, i);
      BlendOnSample(s, time, k, i);
    }
  }

  /** A spike at the sample of the pair that is not around the query shows the difference. */
  lemma NotLinear(s: seq<TimestampDoublePair>, time: U32, i: nat, k: nat)
    requires StrictlyOrdered(s, time) && i + 1 < |s| && k + 1 < |s|
    requires Brackets(s, time, k) && !Brackets(s, time, i)
    ensures exists t: seq<TimestampDoublePair> :: SameTimes(s, t)
              && Difference32(time, t[k].time) != Difference32(time, t[k + 1].time)
              && BlendAt(t, time, i, i + 1) != Number(LinearAt(t, time, k))
  {
    var m := if i < k then i else i + 1;
    var t := seq(|s|, j requires 0 <= j < |s| => TimestampDoublePair(if j == m then 1.0 else 0.0, s[j].time));
    assert SameTimes(s, t);
    ZerosAroundQuery(t, time, k);
    SpikeIsSeen(t, time, i);
  }

  lemma ZerosAroundQuery(t: seq<TimestampDoublePair>, time: U32, k: nat)
    requires StrictlyOrdered(t, time) && k + 1 < |t| && t[k].value == 0.0 && t[k + 1].value == 0.0
    ensures Difference32(time, t[k].time) > Difference32(time, t[k + 1].time)
    ensures LinearAt(t, time, k) == 0.0
  {
  }

  lemma SpikeIsSeen(t: seq<TimestampDoublePair>, time: U32, i: nat)
    requires StrictlyOrdered(t, time) && i + 1 < |t| && !Brackets(t, time, i)
    requires (t[i].value == 1.0 && t[i + 1].value == 0.0) || (t[i].value == 0.0 && t[i + 1].value == 1.0)
    ensures BlendAt(t, time, i, i + 1).Number? && BlendAt(t, time, i, i + 1).r > 0.0
  {
    hide Difference32, Weighted;
    assert Difference32(time, t[i].time) > Difference32(time, t[i + 1].time);
    var p, q := Distance(t, time, i + 1), Distance(t, time, i);
    assert p > 0 && q > 0 && 0 < p + q < TWO_32;
    WeightedSpike(p as real, q as real, (p + q) as real);
  }

  lemma WeightedSpike(p: real, q: real, d: real)
    requires p > 0.0 && q > 0.0 && d > 0.0
    ensures Weighted(p, 1.0, q, 0.0, d) > 0.0 && Weighted(p, 0.0, q, 1.0, d) > 0.0
  {
  }

  // ----- sample statistics -----

  function Values(s: seq<TimestampDoublePair>): (ys: seq<real>)
    ensures |ys| == |s|
    ensures forall i :: 0 <= i < |s| ==> ys[i] == s[i].value
  {
    seq(|s|, i requires 0 <= i < |s| => s[i].value)
  }

  /** The samples from index `from` to index `to`, both included. */
  ghost function Window(mv: MeasurementValues, from: nat, to: nat): seq<real>
    reads mv
    requires mv.Valid() && from <= to < |mv.Contents()|
  {
    Values(mv.Contents()[from..to + 1])
  }

  /** One step of the accumulation loops. */
  lemma Accumulate(ys: seq<real>, k: nat)
    requires k < |ys|
    ensures Sum(ys[..k + 1]) == Sum(ys[..k]) + ys[k]
    ensures SumSquares(ys[..k + 1]) == SumSquares(ys[..k]) + Square(ys[k])
    ensures SumProducts(ys[..k + 1]) == SumProducts(ys[..k]) + Product(ys[k], k as real)
  {
    assert ys[..k + 1][..k] == ys[..k];
  }

  lemma RotationKeepsSum(d: seq<TimestampDoublePair>, w: nat)
    requires w <= |d|
    ensures Sum(Values(Rotated(d, w))) == Sum(Values(d))
  {
    hide Sum;
    SumConcat(Values(d[..w]), Values(d[w..]));
    SumConcat(Values(d[w..]), Values(d[..w]));
    assert Values(d) == Values(d[..w]) + Values(d[w..]);
    assert Values(Rotated(d, w)) == Values(d[w..]) + Values(d[..w]);
  }

  /** The mean over the element array in its storage order is the mean from oldest to newest. */
  method EstimateMean(mv: MeasurementValues) returns (mean: real)
    requires mv.Valid() && mv.GetNumberOfElements() > 0
    ensures mean == Mean(Values(mv.Contents()))
  {
    var sum := 0.0;
    ghost var ys := Values(mv.dataVector);
    for i := 0 to |mv.dataVector|
      invariant sum == Sum(ys[..i])
    {
      Accumulate(ys, i);
      sum := sum + mv.dataVector[i].value;
    }
    assert ys[..|ys|] == ys;
    RotationKeepsSum(mv.dataVector, mv.writePointer);
    mean := sum / |mv.dataVector| as real;
  }

  method EstimateMeanOfRange(mv: MeasurementValues, from: nat, to: nat) returns (mean: real)
    requires mv.Valid() && from <= to < mv.GetNumberOfElements()
    ensures mean == Mean(Window(mv, from, to))
  {
    hide Sum, SumSquares, SumProducts, Rotated, RingBuffer.At, DoubledUpTo;
    var sum := 0.0;
    ghost var ys := Window(mv, from, to);
    EmptySums(ys[..0]);
    for index := from to to + 1
      invariant sum == Sum(ys[..index - from])
    {
      Accumulate(ys, index - from);
      sum := sum + mv.At(index).value;
    }
    assert ys[..|ys|] == ys;
    mean := sum / (to - from + 1) as real;
  }

  method EstimateMeanAndVariance(mv: MeasurementValues, start: nat, end: nat) returns (mean: real, variance: real)
    requires mv.Valid() && start <= end < mv.GetNumberOfElements()
    ensures mean == Mean(Window(mv, start, end))
    ensures variance == Variance(Window(mv, start, end))
  {
    hide Sum, SumSquares, SumProducts, Square, VarianceFrom, Rotated, RingBuffer.At, DoubledUpTo;
    var n := end - start + 1;
    var ySum, ySqSum := 0.0, 0.0;
    ghost var ys := Window(mv, start, end);
    EmptySums(ys[..0]);
    for index := start to end + 1
      invariant ySum == Sum(ys[..index - start])
      invariant ySqSum == SumSquares(ys[..index - start])
    {
      Accumulate(ys, index - start);
      var value := mv.At(index).value;
      assert value == ys[index - start];
      ySum := ySum + value;
      ySqSum := ySqSum + Square(value);
    }
    assert ys[..|ys|] == ys;
    mean := ySum / n as real;
    variance := VarianceFrom(n, ySqSum, mean, ySum);
  }

  lemma EmptySums(ys: seq<real>)
    requires ys == []
    ensures Sum(ys) == 0.0 && SumSquares(ys) == 0.0 && SumProducts(ys) == 0.0
  {
  }

  method EstimateLinearRegression(mv: MeasurementValues, start: nat, end: nat)
    returns (mean: real, variance: real, slope: real)
    requires mv.Valid() && start <= end < mv.GetNumberOfElements()
    ensures mean == Mean(Window(mv, start, end))
    ensures variance == Variance(Window(mv, start, end))
    ensures slope == Slope(Window(mv, start, end))
  {
    hide Sum, SumSquares, SumProducts, Square, Product, VarianceFrom, SlopeFrom, Rotated, RingBuffer.At, DoubledUpTo;
    var n := end - start + 1;
    var ySum, ySqSum, xySum := 0.0, 0.0, 0.0;
    ghost var ys := Window(mv, start, end);
    EmptySums(ys[..0]);
    for index := start to end + 1
      invariant ySum == Sum(ys[..index - start])
      invariant ySqSum == SumSquares(ys[..index - start])
      invariant xySum == SumProducts(ys[..index - start])
    {
      Accumulate(ys, index - start);
      var value := mv.At(index).value;
      assert value == ys[index - start];
      ySum := ySum + value;
      ySqSum := ySqSum + Square(value);
      xySum := xySum + Product(value, (index - start) as real);
    }
    assert ys[..|ys|] == ys;
    mean := ySum / n as real;
    variance := VarianceFrom(n, ySqSum, mean, ySum);
    slope := SlopeFrom(n, xySum, ySum);
  }
}
