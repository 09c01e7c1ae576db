/**
 * The signed power calculation and the reporting of its piecewise constant intervals. Each call reports
 * the part of the series that is newer than `lastTime`, the newest time of the call before.
 */
module CalculatedValueProcessors {
  import opened Words
  import opened RingBuffers
  import opened SpeedwireTime
  import opened Statistics
  import opened Measurements
  import opened LineSegmentEstimator

  // ----- signed power -----

  /** The default constructed pair, which operator[] returns for an index out of bounds. */
  const DEFAULT_PAIR := TimestampDoublePair(999999.0, 0)

  function PairAt(s: seq<TimestampDoublePair>, i: nat): TimestampDoublePair {
    if i < |s| then s[i] else DEFAULT_PAIR
  }

  /** The differences at those of the first `n` indices where both series have the same time. */
  function Differences(pos: seq<TimestampDoublePair>, neg: seq<TimestampDoublePair>, n: nat)
    : seq<TimestampDoublePair>
    requires n <= |pos|
  {
    if n == 0 then [] else
      var p, q := pos[n - 1], PairAt(neg, n - 1);
      Differences(pos, neg, n - 1) + if p.time == q.time then [TimestampDoublePair(p.value - q.value, p.time)] else []
  }

  /** Series with the same times are subtracted sample by sample. */
  lemma {:induction false} DifferencesOfAligned(pos: seq<TimestampDoublePair>, neg: seq<TimestampDoublePair>, n: nat)
    requires n <= |pos| == |neg|
    requires forall i :: 0 <= i < |pos| ==> pos[i].time == neg[i].time
    ensures |Differences(pos, neg, n)| == n
    ensures forall i :: 0 <= i < n ==>
              Differences(pos, neg, n)[i] == TimestampDoublePair(pos[i].value - neg[i].value, pos[i].time)
  {
    if n == 0 {
    } else {
      DifferencesOfAligned(pos, neg, n - 1);
    }
  }

  /** The differences are at sampled times in order; a sample without a counterpart contributes nothing,
      except that a missing counterpart passes for one at time 0. */
  lemma {:induction false} DifferencesFromSamples(pos: seq<TimestampDoublePair>, neg: seq<TimestampDoublePair>,
                                                   n: nat, d: TimestampDoublePair)
    requires n <= |pos|
    ensures d in Differences(pos, neg, n) <==> exists i :: 0 <= i < n && IsDifferenceAt(pos, neg, i, d)
  {
    if n == 0 {
    } else {
      DifferencesFromSamples(pos, neg, n - 1, d);
      LastDifference(pos, neg, n, d);
    }
  }

  /** `d` is the difference of the samples at index `i`, which have the same time; a missing counterpart passes for
      the value 999999 at time 0. */
  predicate IsDifferenceAt(pos: seq<TimestampDoublePair>, neg: seq<TimestampDoublePair>, i: nat,
                           d: TimestampDoublePair)
    requires i < |pos|
  {
    && d.time == pos[i].time
    && if i < |neg| then neg[i].time == d.time && d.value == pos[i].value - neg[i].value
       else d.time == 0 && d.value == pos[i].value - 999999.0
  }

  lemma LastDifference(pos: seq<TimestampDoublePair>, neg: seq<TimestampDoublePair>, n: nat, d: TimestampDoublePair)
    requires 0 < n <= |pos|
    ensures d in Differences(pos, neg, n) <==> d in Differences(pos, neg, n - 1) || IsDifferenceAt(pos, neg, n - 1, d)
  {
  }

  method CalculateValueDiffs(diff: MeasurementValues, pos: MeasurementValues, neg: MeasurementValues)
    requires diff.Valid() && pos.Valid() && neg.Valid() && diff != pos && diff != neg
    modifies diff
    ensures diff.Valid()
    ensures diff.Contents() == Newest(Differences(pos.Contents(), neg.Contents(), |pos.Contents()|), diff.capacity)
    ensures diff.capacity == if Differences(pos.Contents(), neg.Contents(), |pos.Contents()|) == [] then old(diff.capacity)
                             else Max(old(diff.capacity), 1)
  {
    hide Run, Newest;
    diff.ClearElements();
    ghost var p, q, start := pos.Contents(), neg.Contents(), diff.Value();
    assert Additions(Differences(p, q, 0)) == [];
    EmptyRun(start);
    for i := 0 to pos.GetNumberOfElements()
      invariant diff.Valid() && pos.Valid() && neg.Valid() && pos.Contents() == p && neg.Contents() == q
      invariant diff.Value() == Run(start, Additions(Differences(p, q, i)))
    {
      var plus, minus := pos.Get(i).value, ElementAt(neg, i);
      assert Differences(p, q, i) + [] == Differences(p, q, i);
      if plus.time == minus.time {
        var value := TimestampDoublePair(plus.value - minus.value, plus.time);
        RunAddition(start, Differences(p, q, i), value);
        diff.AddNewElement(value);
      }
    }
    AdditionsKeepNewest(start, Differences(p, q, |p|));
    assert start.contents + Differences(p, q, |p|) == Differences(p, q, |p|);
  }

  lemma EmptyRun(a: Abstract<TimestampDoublePair>)
    ensures Run(a, []) == a
  {
  }

  lemma RunAddition(a: Abstract<TimestampDoublePair>, values: seq<TimestampDoublePair>, value: TimestampDoublePair)
    ensures Run(a, Additions(values + [value])) == Apply(Run(a, Additions(values)), Add(value))
  {
    assert Additions(values + [value])[..|values|] == Additions(values);
  }

  /** operator[] with its default element. */
  function ElementAt(mv: MeasurementValues, i: U64): (pair: TimestampDoublePair)
    reads mv
    requires mv.Valid()
    ensures pair == PairAt(mv.Contents(), i)
  {
    match mv.Get(i)
    case Some(p) => p
    case None => DEFAULT_PAIR
  }

  // ----- reporting -----

  /** What is handed to the producer: the mean of a whole series, or one end of a reported interval. */
  datatype Produced = SeriesMean(mean: real, time: U32) | IntervalEnd(mean: real, time: U32)

  predicate Newer(s: seq<TimestampDoublePair>, last: U32, i: nat)
    requires i < |s|
  {
    Difference32(s[i].time, last) > 0
  }

  /** As far as 32-bit differences to `last` can tell, no sample is older than its predecessor. */
  ghost predicate InOrder(s: seq<TimestampDoublePair>, last: U32) {
    forall i, j :: 0 <= i < j < |s| ==> Difference32(s[i].time, last) <= Difference32(s[j].time, last)
  }

  /** The index is in one of the intervals. */
  ghost predicate Covered(intervals: seq<MeasurementValueInterval>, i: nat) {
    exists k :: 0 <= k < |intervals| && intervals[k].start <= i <= intervals[k].end
  }

  lemma CoveredAppend(intervals: seq<MeasurementValueInterval>, iv: MeasurementValueInterval, i: nat)
    ensures Covered(intervals + [iv], i) <==> Covered(intervals, i) || iv.start <= i <= iv.end
  {
    var more := intervals + [iv];
    if Covered(intervals, i) {
      var k :| 0 <= k < |intervals| && intervals[k].start <= i <= intervals[k].end;
      assert more[k] == intervals[k];
    }
    if iv.start <= i <= iv.end {
      assert more[|intervals|] == iv;
    }
  }

  /** Non-empty, disjoint and ascending. */
  ghost predicate Ascending(intervals: seq<MeasurementValueInterval>, bound: nat) {
    && (forall k :: 0 <= k < |intervals| ==> intervals[k].start <= intervals[k].end < bound)
    && (forall k, l :: 0 <= k < l < |intervals| ==> intervals[k].end < intervals[l].start)
  }

  /** The two ends of every interval, with its mean. */
  function Ends(s: seq<TimestampDoublePair>, intervals: seq<MeasurementValueInterval>): seq<Produced>
    requires forall k :: 0 <= k < |intervals| ==> intervals[k].start < |s| && intervals[k].end < |s|
  {
    if intervals == [] then [] else
      var iv := intervals[|intervals| - 1];
      Ends(s, intervals[..|intervals| - 1])
      + [IntervalEnd(iv.mean, s[iv.start].time), IntervalEnd(iv.mean, s[iv.end].time)]
  }

  /** One call: the series that it reads, `lastTime` before, the index ranges that it reports, `lastTime` after. */
  datatype Call = Call(
    series: seq<TimestampDoublePair>,
    before: U32,
    reported: seq<MeasurementValueInterval>,
    after: U32)

  /** The promise of a single call. For samples in order, the reported index ranges are non-empty, disjoint and
      ascending, and cover exactly the samples newer than `lastTime`, which becomes the newest time. */
  ghost predicate IsResult(c: Call) {
    && c.series != [] && c.after == c.series[|c.series| - 1].time
    && (forall k :: 0 <= k < |c.reported| ==> c.reported[k].start < |c.series| && c.reported[k].end < |c.series|)
    && (InOrder(c.series, c.before) ==>
          && Ascending(c.reported, |c.series|)
          && forall i :: 0 <= i < |c.series| ==> (Covered(c.reported, i) <==> Newer(c.series, c.before, i)))
  }

  /** The tiles cover the series with their means, and every reported range is the end of a tile and has its mean. */
  ghost predicate EndTiles(s: seq<TimestampDoublePair>, tiles: seq<MeasurementValueInterval>,
                           reported: seq<MeasurementValueInterval>) {
    && Tiles(tiles, |s|)
    && (forall k :: 0 <= k < |tiles| ==> CarriesMean(s, tiles[k]))
    && (forall k :: 0 <= k < |reported| ==> EndsTile(tiles, reported[k]))
  }

  lemma NoEnds(s: seq<TimestampDoublePair>)
    ensures Ends(s, []) == []
  {
  }

  lemma EndsAppend(s: seq<TimestampDoublePair>, intervals: seq<MeasurementValueInterval>, iv: MeasurementValueInterval)
    requires forall k :: 0 <= k < |intervals| ==> intervals[k].start < |s| && intervals[k].end < |s|
    requires iv.start < |s| && iv.end < |s|
    ensures Ends(s, intervals + [iv]) ==
            Ends(s, intervals) + [IntervalEnd(iv.mean, s[iv.start].time), IntervalEnd(iv.mean, s[iv.end].time)]
  {
    assert (intervals + [iv])[..|intervals|] == intervals;
  }

  /** Every interval appears with its mean at the times of its first and of its last sample, in order. */
  lemma {:induction false} EndsExact(s: seq<TimestampDoublePair>, intervals: seq<MeasurementValueInterval>, k: nat)
    requires forall j :: 0 <= j < |intervals| ==> intervals[j].start < |s| && intervals[j].end < |s|
    ensures |Ends(s, intervals)| == 2 * |intervals|
    ensures k < |intervals| ==>
              var iv := intervals[k];
              && Ends(s, intervals)[2 * k] == IntervalEnd(iv.mean, s[iv.start].time)
              && Ends(s, intervals)[2 * k + 1] == IntervalEnd(iv.mean, s[iv.end].time)
  {
    if intervals == [] {
    } else {
      EndsExact(s, intervals[..|intervals| - 1], k);
    }
  }

  class CalculatedValueProcessor {
    var lastTime: U32
    ghost var produced: seq<Produced>

    constructor ()
      ensures lastTime == 0 && produced == []
    {
      lastTime := 0;
      produced := [];
    }

    /** One pass over the intervals of the series. */
    method ReportIntervals(mv: MeasurementValues)
      returns (reported: seq<MeasurementValueInterval>, ghost tiles: seq<MeasurementValueInterval>)
      requires mv.Valid() && mv.GetNumberOfElements() >= 1
      modifies this
      ensures IsResult(Call(mv.Contents(), old(lastTime), reported, lastTime))
      ensures EndTiles(mv.Contents(), tiles, reported)
      ensures produced == old(produced) + Ends(mv.Contents(), reported)
    {
      hide CarriesMean, Difference32, CoversNewer, EndsTile, InOrder, Ends, Ascending, Covered, Rotated, RingBuffer.Get, DoubledUpTo;
      var n := mv.GetNumberOfElements();
      ghost var s, last := mv.Contents(), lastTime;
      var intervals := FindPiecewiseConstantIntervals(mv, []);
      tiles := intervals;
      assert intervals[0..] == intervals;
      TileStart(tiles, n, |tiles| - 1);
      reported := [];
      NothingReported(s, last);
      NoEnds(s);
      for k := 0 to |intervals|
        invariant lastTime == last && Bound(tiles, k) <= n
        invariant forall j :: 0 <= j < |reported| ==> EndsTile(tiles, reported[j])
        invariant forall j :: 0 <= j < |reported| ==> reported[j].start < n && reported[j].end < n
        invariant produced == old(produced) + Ends(s, reported)
        invariant InOrder(s, last) ==> CoversNewer(s, last, reported, Bound(tiles, k))
      {
        TileStart(tiles, n, k);
        ghost var was := reported;
        var iv := intervals[k];
        if Difference32(mv.Get(iv.end).value.time, lastTime) > 0 {
          var start := FirstNewer(mv, iv.start);
          iv := iv.(start := start);
          TilePart(tiles, k, iv);
          produced := produced + [IntervalEnd(iv.mean, s[iv.start].time), IntervalEnd(iv.mean, s[iv.end].time)];
          reported := reported + [iv];
          EndsAppend(s, was, iv);
          if InOrder(s, last) {
            TileReported(s, last, was, tiles[k], start);
          }
        } else if InOrder(s, last) {
          TileSkipped(s, last, reported, tiles[k]);
        }
      }
      CoveredNewer(s, last, reported);
      lastTime := mv.Get(intervals[|intervals| - 1].end).value.time;
    }

    /** The total power branch: recalculate the signed series, report its mean, then its new intervals. */
    method EndOfTotalPower(pos: MeasurementValues, neg: MeasurementValues, signed: MeasurementValues, timestamp: U32)
      returns (reported: seq<MeasurementValueInterval>, ghost tiles: seq<MeasurementValueInterval>)
      requires pos.Valid() && neg.Valid() && signed.Valid() && signed != pos && signed != neg
      requires Differences(pos.Contents(), neg.Contents(), |pos.Contents()|) != []
      modifies this, signed
      ensures signed.Valid() && signed.Contents() != []
      ensures signed.Contents() == Newest(Differences(pos.Contents(), neg.Contents(), |pos.Contents()|), signed.capacity)
      ensures IsResult(Call(signed.Contents(), old(lastTime), reported, lastTime))
      ensures EndTiles(signed.Contents(), tiles, reported)
      ensures produced == old(produced) + [SeriesMean(Mean(Values(signed.Contents())), timestamp)]
                          + Ends(signed.Contents(), reported)
    {
      hide Differences, Mean, Newer, InOrder, Ascending, Covered;
      CalculateValueDiffs(signed, pos, neg);
      var mean := EstimateMean(signed);
      produced := produced + [SeriesMean(mean, timestamp)];
      reported, tiles := ReportIntervals(signed);
    }

    /** The loop that skips the samples of an interval that are not newer. */
    method FirstNewer(mv: MeasurementValues, from: nat) returns (start: nat)
      requires mv.Valid() && from < mv.GetNumberOfElements()
      ensures from <= start < |mv.Contents()|
      ensures Newer(mv.Contents(), lastTime, start) || start == |mv.Contents()| - 1
      ensures forall i :: from <= i < start ==> !Newer(mv.Contents(), lastTime, i)
    {
      hide Difference32;
      start := from;
      while Difference32(mv.Get(start).value.time, lastTime) <= 0 && start < mv.GetNumberOfElements() - 1
        invariant from <= start < mv.GetNumberOfElements()
        invariant forall i :: from <= i < start ==> !Newer(mv.Contents(), lastTime, i)
        decreases mv.GetNumberOfElements() - start
      {
        start := start + 1;
      }
    }
  }

  /** The interval is a tile, or the rear part of one. */
  ghost predicate EndsTile(tiles: seq<MeasurementValueInterval>, iv: MeasurementValueInterval) {
    exists k :: 0 <= k < |tiles| && iv == tiles[k].(start := iv.start) && tiles[k].start <= iv.start
  }

  lemma TilePart(tiles: seq<MeasurementValueInterval>, k: nat, iv: MeasurementValueInterval)
    requires k < |tiles| && iv == tiles[k].(start := iv.start) && tiles[k].start <= iv.start
    ensures EndsTile(tiles, iv)
  {
  }

  lemma NothingReported(s: seq<TimestampDoublePair>, last: U32)
    ensures CoversNewer(s, last, [], 0)
  {
  }

  lemma CoveredNewer(s: seq<TimestampDoublePair>, last: U32, reported: seq<MeasurementValueInterval>)
    ensures CoversNewer(s, last, reported, |s|) <==>
              && Ascending(reported, |s|)
              && forall i :: 0 <= i < |s| ==> (Covered(reported, i) <==> Newer(s, last, i))
  {
  }

  /** The index behind the first `k` tiles. */
  function Bound(tiles: seq<MeasurementValueInterval>, k: nat): nat
    requires k <= |tiles|
  {
    if k == 0 then 0 else tiles[k - 1].end + 1
  }

  lemma {:induction false} TileStart(tiles: seq<MeasurementValueInterval>, n: nat, k: nat)
    requires Tiles(tiles, n) && k < |tiles|
    ensures tiles[k].start == Bound(tiles, k) && tiles[k].start <= tiles[k].end < n
    ensures Bound(tiles, |tiles|) == n
  {
    var m := |tiles| - 1;
    if m == 0 {
    } else {
      TileStart(tiles[..m], tiles[m].start, if k < m then k else m - 1);
      assert Bound(tiles[..m], m) == Bound(tiles, m);
    }
  }

  /** Below `bound`, exactly the newer samples are in the reported intervals. */
  ghost predicate CoversNewer(s: seq<TimestampDoublePair>, last: U32, reported: seq<MeasurementValueInterval>, bound: nat)
    requires bound <= |s|
  {
    && Ascending(reported, bound)
    && forall i :: 0 <= i < bound ==> (Covered(reported, i) <==> Newer(s, last, i))
  }

  lemma TileSkipped(s: seq<TimestampDoublePair>, last: U32, reported: seq<MeasurementValueInterval>,
                    tile: MeasurementValueInterval)
    requires tile.start <= tile.end < |s| && InOrder(s, last)
    requires CoversNewer(s, last, reported, tile.start) && !Newer(s, last, tile.end)
    ensures CoversNewer(s, last, reported, tile.end + 1)
  {
  }

  lemma TileReported(s: seq<TimestampDoublePair>, last: U32, was: seq<MeasurementValueInterval>,
                     tile: MeasurementValueInterval, start: nat)
    requires tile.start <= tile.end < |s| && InOrder(s, last)
    requires CoversNewer(s, last, was, tile.start) && Newer(s, last, tile.end)
    requires tile.start <= start < |s| && (Newer(s, last, start) || start == |s| - 1)
    requires forall i :: tile.start <= i < start ==> !Newer(s, last, i)
    ensures CoversNewer(s, last, was + [tile.(start := start)], tile.end + 1)
  {
    hide Difference32;
    assert start <= tile.end;
    var reported := was + [tile.(start := start)];
    forall i | 0 <= i < tile.end + 1
      ensures Covered(reported, i) <==> Newer(s, last, i)
    {
      CoveredAppend(was, tile.(start := start), i);
      if i >= start {
        assert i == start || Difference32(s[start].time, last) <= Difference32(s[i].time, last);
        assert i == tile.end || Difference32(s[i].time, last) <= Difference32(s[tile.end].time, last);
      }
      if i >= tile.start {
        assert !Covered(was, i);
      }
    }
  }

  // ----- at most once, over a whole run of calls -----

  /** Which samples of the stream the series of a call holds: from `from` up to, not including, `to`. */
  datatype Span = Span(from: nat, to: nat)

  /** A run of calls over a stream of samples with the given instants, in order of arrival. */
  ghost predicate IsRun(stream: seq<int>, start: int, spans: seq<Span>, calls: seq<Call>) {
    && |spans| == |calls|
    && (forall p, q :: 0 <= p <= q < |stream| ==> stream[p] <= stream[q])
    && (forall k :: 0 <= k < |spans| ==> spans[k].from < spans[k].to <= |stream|)
    && (forall j, k :: 0 <= j < k < |spans| ==> spans[j].to <= spans[k].to)
    && (forall k :: 0 <= k < |calls| ==> IsCallOfRun(stream, start, spans, calls, k))
  }

  /** Call `k` reports its part of the stream, whose times are the lower 32 bits of the instants; `lastTime` is kept
      from one call to the next, and the samples are within 2^31 of the instant that it stands for. */
  ghost predicate IsCallOfRun(stream: seq<int>, start: int, spans: seq<Span>, calls: seq<Call>, k: nat)
    requires k < |calls| == |spans|
    requires forall j :: 0 <= j < |spans| ==> spans[j].from < spans[j].to <= |stream|
  {
    && IsResult(calls[k])
    && Stores(calls[k].series, stream[spans[k].from..spans[k].to])
    && calls[k].before == (if k == 0 then start % TWO_32 else calls[k - 1].after)
    && forall p :: spans[k].from <= p < spans[k].to ==>
         -TWO_31 <= stream[p] - Reference(stream, start, spans, k) < TWO_31
  }

  ghost predicate Stores(s: seq<TimestampDoublePair>, instants: seq<int>) {
    |s| == |instants| && forall i :: 0 <= i < |s| ==> s[i].time == instants[i] % TWO_32
  }

  /** The instant of the newest sample of the call before, or the start of the run. */
  function Reference(stream: seq<int>, start: int, spans: seq<Span>, k: nat): int
    requires k <= |spans| && forall j :: 0 <= j < |spans| ==> spans[j].from < spans[j].to <= |stream|
  {
    if k == 0 then start else stream[spans[k - 1].to - 1]
  }

  /** Call `k` returned a range that contains sample `p` of the stream. */
  ghost predicate ReportedBy(spans: seq<Span>, calls: seq<Call>, k: nat, p: nat)
    requires k < |calls| == |spans|
  {
    spans[k].from <= p < spans[k].to && Covered(calls[k].reported, p - spans[k].from)
  }

  /** Along the run `lastTime` holds the lower 32 bits of the reference, and every call reports exactly those of its
      samples that are newer than the reference, by their true instants. */
  lemma ReportedIffNewer(stream: seq<int>, start: int, spans: seq<Span>, calls: seq<Call>, k: nat, p: nat)
    requires IsRun(stream, start, spans, calls) && k < |calls| && spans[k].from <= p < spans[k].to
    ensures calls[k].before == Reference(stream, start, spans, k) % TWO_32
    ensures ReportedBy(spans, calls, k, p) <==> stream[p] > Reference(stream, start, spans, k)
  {
    hide Difference32, Covered, Ascending, InOrder;
    SeriesInOrder(stream, start, spans, calls, k);
    assert IsCallOfRun(stream, start, spans, calls, k);
    var i := p - spans[k].from;
    assert Covered(calls[k].reported, i) <==> Newer(calls[k].series, calls[k].before, i);
  }

  lemma SeriesInOrder(stream: seq<int>, start: int, spans: seq<Span>, calls: seq<Call>, k: nat)
    requires IsRun(stream, start, spans, calls) && k < |calls|
    ensures calls[k].before == Reference(stream, start, spans, k) % TWO_32
    ensures Stores(calls[k].series, stream[spans[k].from..spans[k].to]) && InOrder(calls[k].series, calls[k].before)
    ensures forall i :: 0 <= i < |calls[k].series| ==>
              Difference32(calls[k].series[i].time, calls[k].before)
              == stream[spans[k].from + i] - Reference(stream, start, spans, k)
  {
    hide Difference32, Covered, Ascending;
    var from, reference := spans[k].from, Reference(stream, start, spans, k);
    assert IsCallOfRun(stream, start, spans, calls, k);
    if k > 0 {
      assert IsCallOfRun(stream, start, spans, calls, k - 1);
    }
    forall i | 0 <= i < |calls[k].series|
      ensures Difference32(calls[k].series[i].time, calls[k].before) == stream[from + i] - reference
    {
      DifferenceOfInstants(stream[from + i], reference);
    }
  }

  /** No sample is in the ranges of two calls: what a later call returns comes later in the stream, with a later
      time. */
  lemma NoSampleReportedTwice(stream: seq<int>, start: int, spans: seq<Span>, calls: seq<Call>,
                              j: nat, k: nat, p: nat, q: nat)
    requires IsRun(stream, start, spans, calls) && j < k < |calls|
    requires ReportedBy(spans, calls, j, p) && ReportedBy(spans, calls, k, q)
    ensures p < q && stream[p] < stream[q]
  {
    hide IsCallOfRun, Covered;
    ReportedIffNewer(stream, start, spans, calls, k, q);
    assert stream[p] <= stream[spans[j].to - 1] <= stream[spans[k - 1].to - 1];
  }

  /** The first call that comes after the arrival of the sample. */
  predicate IsFirstCall(spans: seq<Span>, k: nat, p: nat)
    requires k < |spans|
  {
    p < spans[k].to && (k > 0 ==> spans[k - 1].to <= p)
  }

  /**
   * Exactly when a sample is ever reported: the first call after its arrival still holds it, and it is strictly newer
   * than the newest sample of the call before. No other call reports it. So a sample that arrives late, with the
   * time that `lastTime` holds, is lost.
   */
  lemma ReportedExactly(stream: seq<int>, start: int, spans: seq<Span>, calls: seq<Call>, first: nat, p: nat)
    requires IsRun(stream, start, spans, calls) && first < |calls| && IsFirstCall(spans, first, p)
    ensures ReportedBy(spans, calls, first, p) <==>
            spans[first].from <= p && stream[p] > Reference(stream, start, spans, first)
    ensures forall k :: 0 <= k < |calls| && ReportedBy(spans, calls, k, p) ==> k == first
  {
    hide IsCallOfRun, Covered;
    if spans[first].from <= p {
      ReportedIffNewer(stream, start, spans, calls, first, p);
    }
    forall k | 0 <= k < |calls| && k != first
      ensures !ReportedBy(spans, calls, k, p)
    {
      OnlyFirstCall(stream, start, spans, calls, first, p, k);
    }
  }

  lemma OnlyFirstCall(stream: seq<int>, start: int, spans: seq<Span>, calls: seq<Call>, first: nat, p: nat, k: nat)
    requires IsRun(stream, start, spans, calls) && first < |calls| && IsFirstCall(spans, first, p)
    requires k < |calls| && k != first
    ensures !ReportedBy(spans, calls, k, p)
  {
    hide IsCallOfRun, Covered;
    if k < first {
      assert spans[k].to <= spans[first - 1].to;
    } else {
      assert stream[p] <= stream[spans[first].to - 1] <= stream[spans[k - 1].to - 1];
      if spans[k].from <= p < spans[k].to {
        ReportedIffNewer(stream, start, spans, calls, k, p);
      }
    }
  }

  ghost predicate Reported(spans: seq<Span>, calls: seq<Call>, p: nat)
    requires |calls| == |spans|
  {
    exists k :: 0 <= k < |calls| && ReportedBy(spans, calls, k, p)
  }

  /** Every sample that arrived before the last call is in a range of some call. */
  ghost predicate AllReported(spans: seq<Span>, calls: seq<Call>)
    requires |calls| == |spans|
  {
    forall p :: 0 <= p < Arrived(spans, |spans|) ==> Reported(spans, calls, p)
  }

  /** How many samples have arrived before call `k`. */
  function Arrived(spans: seq<Span>, k: nat): nat
    requires k <= |spans|
  {
    if k == 0 then 0 else spans[k - 1].to
  }

  /** Call `k` holds all samples that have arrived since the call before, and the first of them is strictly newer. */
  predicate MissesNothing(stream: seq<int>, start: int, spans: seq<Span>, k: nat)
    requires k < |spans| && forall j :: 0 <= j < |spans| ==> spans[j].from < spans[j].to <= |stream|
  {
    var p := Arrived(spans, k);
    p < spans[k].to ==> spans[k].from <= p && stream[p] > Reference(stream, start, spans, k)
  }

  /** Over a whole run, every sample is reported, and then by one call only, if and only if no call drops a sample
      before it was seen and no sample arrives with the time that `lastTime` holds already. */
  lemma AllReportedExactly(stream: seq<int>, start: int, spans: seq<Span>, calls: seq<Call>)
    requires IsRun(stream, start, spans, calls)
    ensures AllReported(spans, calls) <==> forall k :: 0 <= k < |spans| ==> MissesNothing(stream, start, spans, k)
  {
    hide IsCallOfRun, ReportedBy;
    if AllReported(spans, calls) {
      forall k | 0 <= k < |spans|
        ensures MissesNothing(stream, start, spans, k)
      {
        var p := Arrived(spans, k);
        if p < spans[k].to {
          assert p < Arrived(spans, |spans|) && Reported(spans, calls, p);
          var j :| 0 <= j < |calls| && ReportedBy(spans, calls, j, p);
          ReportedExactly(stream, start, spans, calls, k, p);
        }
      }
    }
    if forall k :: 0 <= k < |spans| ==> MissesNothing(stream, start, spans, k) {
      forall p | 0 <= p < Arrived(spans, |spans|)
        ensures Reported(spans, calls, p)
      {
        var k := FirstCall(spans, p, |spans|);
        assert MissesNothing(stream, start, spans, k) && stream[Arrived(spans, k)] <= stream[p];
        ReportedExactly(stream, start, spans, calls, k, p);
      }
    }
  }

  lemma {:induction false} FirstCall(spans: seq<Span>, p: nat, n: nat) returns (k: nat)
    requires n <= |spans| && p < Arrived(spans, n)
    ensures k < n && IsFirstCall(spans, k, p)
  {
    if n == 1 || spans[n - 2].to <= p {
      k := n - 1;
    } else {
      k := FirstCall(spans, p, n - 1);
    }
  }

  /** What the first `n` calls of a run append to the log. */
  ghost function RunLog(calls: seq<Call>, n: nat): seq<Produced>
    requires n <= |calls| && forall k :: 0 <= k < |calls| ==> IsResult(calls[k])
  {
    if n == 0 then [] else RunLog(calls, n - 1) + Ends(calls[n - 1].series, calls[n - 1].reported)
  }

  /** The log entry has the time of sample `p`, and a range of call `k` contains this sample. */
  ghost predicate IsEndOf(stream: seq<int>, spans: seq<Span>, calls: seq<Call>, x: Produced, k: nat, p: nat)
    requires |calls| == |spans|
  {
    && k < |calls| && p < |stream| && ReportedBy(spans, calls, k, p)
    && x.IntervalEnd? && x.time == stream[p] % TWO_32
  }

  /** Everything that a run produces for its intervals is at the time of a sample that it reports. */
  lemma {:induction false} LogIsReported(stream: seq<int>, start: int, spans: seq<Span>, calls: seq<Call>,
                                         n: nat, x: Produced) returns (k: nat, p: nat)
    requires IsRun(stream, start, spans, calls) && n <= |calls|
    requires forall j :: 0 <= j < |calls| ==> IsResult(calls[j])
    requires x in RunLog(calls, n)
    ensures IsEndOf(stream, spans, calls, x, k, p)
  {
    hide Ends;
    if x in RunLog(calls, n - 1) {
      k, p := LogIsReported(stream, start, spans, calls, n - 1, x);
    } else {
      k := n - 1;
      p := EndIsReported(stream, start, spans, calls, k, x);
    }
  }

  lemma EndIsReported(stream: seq<int>, start: int, spans: seq<Span>, calls: seq<Call>, k: nat, x: Produced)
    returns (p: nat)
    requires IsRun(stream, start, spans, calls) && k < |calls| && IsResult(calls[k])
    requires x in Ends(calls[k].series, calls[k].reported)
    ensures IsEndOf(stream, spans, calls, x, k, p)
  {
    hide Ends, Covered, Difference32;
    var c := calls[k];
    var m, atEnd := EndOfInterval(c.series, c.reported, x);
    var i := if atEnd then c.reported[m].end else c.reported[m].start;
    p := spans[k].from + i;
    assert IsCallOfRun(stream, start, spans, calls, k);
    SeriesInOrder(stream, start, spans, calls, k);
    InInterval(c.reported, m, i);
  }

  lemma InInterval(intervals: seq<MeasurementValueInterval>, m: nat, i: nat)
    requires m < |intervals| && intervals[m].start <= i <= intervals[m].end
    ensures Covered(intervals, i)
  {
  }

  lemma {:induction false} EndOfInterval(s: seq<TimestampDoublePair>, intervals: seq<MeasurementValueInterval>,
                                         x: Produced)
    returns (m: nat, atEnd: bool)
    requires forall k :: 0 <= k < |intervals| ==> intervals[k].start < |s| && intervals[k].end < |s|
    requires x in Ends(s, intervals)
    ensures m < |intervals|
    ensures x == IntervalEnd(intervals[m].mean, s[if atEnd then intervals[m].end else intervals[m].start].time)
  {
    var last := intervals[|intervals| - 1];
    m, atEnd := |intervals| - 1, x == IntervalEnd(last.mean, s[last.end].time);
    if x in Ends(s, intervals[..m]) {
      m, atEnd := EndOfInterval(s, intervals[..m], x);
    }
  }

  /** The second of two samples of one instant arrives after the first was reported: no call ever reports it. */
  lemma LateSampleLost(v: real, w: real, iv: MeasurementValueInterval) returns (spans: seq<Span>, calls: seq<Call>)
    requires iv.start == 0 && iv.end == 0
    ensures |calls| == |spans| == 2 && calls[0].reported == [iv]
    ensures calls[1].series == [TimestampDoublePair(v, 5), TimestampDoublePair(w, 5)] && calls[1].reported == []
    ensures IsRun([5, 5], 0, spans, calls) && ReportedBy(spans, calls, 0, 0)
    ensures !Reported(spans, calls, 1) && !AllReported(spans, calls)
  {
    hide InOrder, Ascending, Difference32, IsResult;
    var one, two := [TimestampDoublePair(v, 5)], [TimestampDoublePair(v, 5), TimestampDoublePair(w, 5)];
    calls := [Call(one, 0, [iv], 5), Call(two, 5, [], 5)];
    spans := [Span(0, 1), Span(0, 2)];
    FirstResult(one, iv);
    SecondResult(two);
    assert IsCallOfRun([5, 5], 0, spans, calls, 0);
    assert IsCallOfRun([5, 5], 0, spans, calls, 1);
    InInterval([iv], 0, 0);
    assert !Reported(spans, calls, 1) && Arrived(spans, 2) == 2;
  }

  lemma FirstResult(one: seq<TimestampDoublePair>, iv: MeasurementValueInterval)
    requires |one| == 1 && one[0].time == 5 && iv.start == 0 && iv.end == 0
    ensures IsResult(Call(one, 0, [iv], 5))
  {
    InInterval([iv], 0, 0);
  }

  lemma SecondResult(two: seq<TimestampDoublePair>)
    requires |two| == 2 && two[0].time == 5 && two[1].time == 5
    ensures IsResult(Call(two, 5, [], 5))
  {
  }
}
