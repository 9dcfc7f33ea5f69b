/**
 * The heart-rate session aggregator of MainActivity, as values: the session
 * state (start time, current / max / min readings, the 5-second bins) and the
 * effect of one reading on it.  The class in main_activity.dfy is proved to
 * change its fields exactly as `Ingest` says.
 */
module Aggregator {
  import opened Optional
  import opened Binning

  /** One call of onHeartRate: the reading and the wall-clock time it is handled at. */
  datatype Sample = Sample(hr: int, nowMs: int)

  /** The fields sessionStartMs, currentHr, maxHr, minHr and hrBins. */
  datatype SessionState = SessionState(
    startMs: int,
    current: Option<int>,
    max: Option<int>,
    min: Option<int>,
    bins: seq<int>)

  /** The state resetSession leaves behind when the clock reads `nowMs`. */
  function ResetState(nowMs: int): SessionState
  {
    SessionState(nowMs, None, None, None, [])
  }

  /** `maxHr?.let { max(it, hr) } ?: hr` */
  function WidenMax(m: Option<int>, hr: int): (r: int)
    ensures r >= hr
    ensures m.Some? ==> r >= m.value
    ensures r == hr || (m.Some? && r == m.value)
  {
    match m
    case Some(v) => if v >= hr then v else hr
    case None => hr
  }

  /** `minHr?.let { min(it, hr) } ?: hr` */
  function NarrowMin(m: Option<int>, hr: int): (r: int)
    ensures r <= hr
    ensures m.Some? ==> r <= m.value
    ensures r == hr || (m.Some? && r == m.value)
  {
    match m
    case Some(v) => if v <= hr then v else hr
    case None => hr
  }

  /**
   * One reading handled by onHeartRate.  A state with no current reading is
   * reset first, with the same clock reading; then the statistics are updated
   * and the reading is written into its bin.  The gap fill `currentHr ?: hr`
   * is evaluated after `currentHr` has already been set to the new reading.
   */
  function Ingest(s: SessionState, x: Sample): (r: SessionState)
    ensures r.current == Some(x.hr)
    ensures r.startMs == if s.current.None? then x.nowMs else s.startMs
    ensures s.current.None? ==> r == SessionState(x.nowMs, Some(x.hr), Some(x.hr), Some(x.hr), [x.hr])
    ensures s.current.Some? ==> r.max == Some(WidenMax(s.max, x.hr)) && r.min == Some(NarrowMin(s.min, x.hr))
    ensures s.current.Some? ==>
              var k := BinIndex(x.nowMs - s.startMs);
              && |r.bins| == MaxNat(|s.bins|, k + 1)
              && r.bins[k] == x.hr
              && (forall i :: 0 <= i < |s.bins| && i != k ==> r.bins[i] == s.bins[i])
              && (forall i :: |s.bins| <= i < |r.bins| ==> r.bins[i] == x.hr)
  {
    var t := if s.current.None? then ResetState(x.nowMs) else s;
    var current := Some(x.hr);
    var k := BinIndex(x.nowMs - t.startMs);
    SessionState(
      t.startMs,
      current,
      Some(WidenMax(t.max, x.hr)),
      Some(NarrowMin(t.min, x.hr)),
      PlaceInBin(t.bins, k, current.GetOr(x.hr), x.hr))
  }

  /**
   * The invariant the aggregator keeps: either nothing has been received since
   * the reset, or all three statistics are set with min <= current <= max, at
   * least one bin exists, and every bin lies between min and max.
   */
  ghost predicate Consistent(s: SessionState)
  {
    match s.current
    case None => s.max.None? && s.min.None? && s.bins == []
    case Some(c) =>
      && s.max.Some? && s.min.Some?
      && s.min.value <= c <= s.max.value
      && |s.bins| > 0
      && forall i :: 0 <= i < |s.bins| ==> s.min.value <= s.bins[i] <= s.max.value
  }

  lemma IngestKeepsConsistent(s: SessionState, x: Sample)
    requires Consistent(s)
    ensures Consistent(Ingest(s, x))
  {
  }

  /** The state after onHeartRate has handled each sample of `xs` in turn. */
  function Replay(s: SessionState, xs: seq<Sample>): SessionState
    decreases |xs|
  {
    if xs == [] then s else Replay(Ingest(s, xs[0]), xs[1..])
  }

  /** The readings of a sample sequence, in order. */
  function Readings(xs: seq<Sample>): seq<int>
    decreases |xs|
  {
    if xs == [] then [] else [xs[0].hr] + Readings(xs[1..])
  }

  /** One past the furthest bin the samples reach in a session started at `startMs`. */
  function Reach(startMs: int, xs: seq<Sample>): nat
    decreases |xs|
  {
    if xs == [] then 0 else MaxNat(BinIndex(xs[0].nowMs - startMs) + 1, Reach(startMs, xs[1..]))
  }

  /** min <= current <= max (and every bin within bounds) after any run of readings. */
  lemma {:induction false} ReplayKeepsConsistent(s: SessionState, xs: seq<Sample>)
    requires Consistent(s)
    ensures Consistent(Replay(s, xs))
    decreases |xs|
  {
    if xs != [] {
      IngestKeepsConsistent(s, xs[0]);
      ReplayKeepsConsistent(Ingest(s, xs[0]), xs[1..]);
    }
  }

  /**
   * Once a session has started it is never reset again: the start time stays,
   * the maximum never decreases, the minimum never increases and the bin list
   * never shrinks.
   */
  lemma {:induction false} SessionOnlyWidens(s: SessionState, xs: seq<Sample>)
    requires Consistent(s) && s.current.Some?
    ensures var r := Replay(s, xs);
      && r.current.Some? && r.max.Some? && r.min.Some?
      && r.startMs == s.startMs
      && r.max.value >= s.max.value
      && r.min.value <= s.min.value
      && |r.bins| >= |s.bins|
    decreases |xs|
  {
    if xs != [] {
      IngestKeepsConsistent(s, xs[0]);
      SessionOnlyWidens(Ingest(s, xs[0]), xs[1..]);
    }
  }

  /** Within a started session the bin list is exactly as long as the furthest bin reached. */
  lemma {:induction false} ReplayBinCount(s: SessionState, xs: seq<Sample>)
    requires s.current.Some?
    ensures Replay(s, xs).startMs == s.startMs
    ensures |Replay(s, xs).bins| == MaxNat(|s.bins|, Reach(s.startMs, xs))
    decreases |xs|
  {
    if xs != [] {
      ReplayBinCount(Ingest(s, xs[0]), xs[1..]);
    }
  }

  /**
   * The first reading after a reset starts the session at its own clock
   * reading, and from then on the bins cover exactly the bins the readings
   * reach (out-of-order readings never add bins).
   */
  lemma FirstReadingStartsSession(s: SessionState, xs: seq<Sample>)
    requires s.current.None? && xs != []
    ensures Replay(s, xs).startMs == xs[0].nowMs
    ensures |Replay(s, xs).bins| == Reach(xs[0].nowMs, xs)
  {
    var s1 := Ingest(s, xs[0]);
    ReplayBinCount(s1, xs[1..]);
    assert Reach(xs[0].nowMs, xs) == MaxNat(1, Reach(xs[0].nowMs, xs[1..]));
  }

  /** With a clock that never runs backwards, the furthest bin reached is that of the latest reading. */
  lemma {:induction false} MonotoneClockReach(startMs: int, xs: seq<Sample>)
    requires xs != []
    requires forall i, j :: 0 <= i < j < |xs| ==> xs[i].nowMs <= xs[j].nowMs
    ensures Reach(startMs, xs) == BinIndex(xs[|xs| - 1].nowMs - startMs) + 1
    decreases |xs|
  {
    if |xs| > 1 {
      MonotoneClockReach(startMs, xs[1..]);
      BinIndexMonotone(xs[0].nowMs - startMs, xs[|xs| - 1].nowMs - startMs);
    }
  }

  /**
   * From a reset, with a clock that never runs backwards, the bin list is
   * exactly one longer than the bin of the latest reading, counted from the
   * first reading's time.
   */
  lemma MonotoneClockBinCount(s: SessionState, xs: seq<Sample>)
    requires s.current.None? && xs != []
    requires forall i, j :: 0 <= i < j < |xs| ==> xs[i].nowMs <= xs[j].nowMs
    ensures |Replay(s, xs).bins| == BinIndex(xs[|xs| - 1].nowMs - xs[0].nowMs) + 1
  {
    FirstReadingStartsSession(s, xs);
    MonotoneClockReach(xs[0].nowMs, xs);
  }

  /**
   * No bin ever holds a made-up value: each one holds a reading that was
   * received (or a bin that was already there).
   */
  lemma {:induction false} BinsHoldReadings(s: SessionState, xs: seq<Sample>)
    ensures forall v :: v in Replay(s, xs).bins ==> v in s.bins || v in Readings(xs)
    decreases |xs|
  {
    if xs != [] {
      var s1 := Ingest(s, xs[0]);
      BinsHoldReadings(s1, xs[1..]);
      forall v | v in s1.bins ensures v in s.bins || v == xs[0].hr {
        var i :| 0 <= i < |s1.bins| && s1.bins[i] == v;
        if s.current.Some? && i < |s.bins| && i != BinIndex(xs[0].nowMs - s.startMs) {
          assert v == s.bins[i];
        }
      }
    }
  }

  /** After a reset, every bin holds one of the readings received since. */
  lemma BinsHoldSessionReadings(s: SessionState, xs: seq<Sample>)
    requires s.current.None? && xs != []
    ensures forall v :: v in Replay(s, xs).bins ==> v in Readings(xs)
  {
    BinsHoldReadings(Ingest(s, xs[0]), xs[1..]);
  }

  /**
   * A reading after a gap fills the skipped bins with itself, not with the
   * reading before the gap: (t=0, 70) then (t=12000, 90) yields [70, 90, 90].
   */
  lemma GapFillUsesNewReading(s: SessionState)
    requires s.current.None?
    ensures Replay(s, [Sample(70, 0), Sample(90, 12000)]).bins == [70, 90, 90]
  {
    assert Ingest(s, Sample(70, 0)).bins == [70];
  }

  /** A second reading in the same bin overwrites the first. */
  lemma LateReadingOverwrites(s: SessionState)
    requires s.current.None?
    ensures Replay(s, [Sample(80, 0), Sample(85, 1000)]).bins == [85]
  {
    assert Ingest(s, Sample(80, 0)).bins == [80];
  }

  /** A reading whose clock reads before the session start goes to bin 0. */
  lemma EarlyReadingGoesToBinZero(s: SessionState)
    requires s.current.None?
    ensures Replay(s, [Sample(80, 7000), Sample(60, 12000), Sample(75, 3000)]).bins == [75, 60]
  {
    assert Ingest(s, Sample(80, 7000)).bins == [80];
  }

  /** Readings at 1000, 6500 and 9000 ms after a first reading at 1000 ms. */
  lemma ThreeReadingScenario(s: SessionState)
    requires s.current.None?
    ensures var r := Replay(s, [Sample(65, 1000), Sample(72, 6500), Sample(75, 9000)]);
      r.bins == [65, 75] && r.current == Some(75) && r.min == Some(65) && r.max == Some(75)
  {
    assert Ingest(s, Sample(65, 1000)).bins == [65];
  }
}
