/**
 * Plot configuration and the data behind counter and histogram plots
 * (src/plots.rs).
 *
 * Samples are `f64` in the source and are modelled as `real`; NaN does not
 * exist here, so `FloatOrd` is the ordinary order on reals. Bucket counts
 * are `u32` in the source and `nat` here. Plots read the ring under the
 * names `max_len` and `set_max_len`, which are `Size` and `Resize` of
 * `RingBuffer.Ring`.
 */
module Plots {
  import opened Wrappers
  import opened Metrics
  import opened RingBuffer

  // ---------------------------------------------------------------------
  // Configuration.
  // ---------------------------------------------------------------------

  datatype CounterPlotConfig = CounterPlotConfig(windowSize: nat, derivative: bool)

  datatype GaugePlotConfig = GaugePlotConfig(smoothingWeight: real, windowSize: nat, derivative: bool)

  /** `n_buckets` buckets of equal width between `min` and `max`. */
  datatype BucketRange = BucketRange(nBuckets: nat, min: real, max: real)

  /** The bucket boundaries in use and the range they were derived from. */
  datatype BucketConfig = BucketConfig(bounds: seq<real>, rangeInput: BucketRange)

  /** `windowSize == None` keeps counting every sample ever seen. */
  datatype HistogramPlotConfig = HistogramPlotConfig(windowSize: Option<nat>, buckets: BucketConfig)

  datatype MetricPlotConfig =
    | CounterPlot(counter: CounterPlotConfig)
    | GaugePlot(gauge: GaugePlotConfig)
    | HistogramPlot(histogram: HistogramPlotConfig)

  /** The kind of metric a configuration is for. */
  function KindOf(c: MetricPlotConfig): MetricKind
  {
    match c
    case CounterPlot(_) => Counter
    case GaugePlot(_) => Gauge
    case HistogramPlot(_) => Histogram
  }

  function DefaultCounterPlotConfig(): CounterPlotConfig
  {
    CounterPlotConfig(500, false)
  }

  function DefaultGaugePlotConfig(): GaugePlotConfig
  {
    GaugePlotConfig(0.8, 500, false)
  }

  function DefaultBucketRange(): BucketRange
  {
    BucketRange(10, 0.0, 10.0)
  }

  /** The default buckets: ten of width 1 over `0.0..10.0`. */
  function DefaultBucketConfig(): (c: BucketConfig)
    ensures |c.bounds| == 11 && c.bounds[0] == 0.0 && c.bounds[10] == 10.0
    ensures StrictlySorted(c.bounds)
  {
    RangeBoundsShape(DefaultBucketRange());
    BucketConfig(RangeBounds(DefaultBucketRange()), DefaultBucketRange())
  }

  function DefaultHistogramPlotConfig(): HistogramPlotConfig
  {
    HistogramPlotConfig(Some(500), DefaultBucketConfig())
  }

  /** `MetricPlotConfig::default_for_kind`: the default configuration of the variant for `kind`. */
  function DefaultForKind(kind: MetricKind): (c: MetricPlotConfig)
    ensures KindOf(c) == kind
    ensures c.CounterPlot? ==> c.counter.windowSize == 500
    ensures c.GaugePlot? ==> c.gauge.windowSize == 500
    ensures c.HistogramPlot? ==> c.histogram.windowSize == Some(500) && StrictlySorted(c.histogram.buckets.bounds)
  {
    match kind
    case Counter => CounterPlot(DefaultCounterPlotConfig())
    case Gauge => GaugePlot(DefaultGaugePlotConfig())
    case Histogram => HistogramPlot(DefaultHistogramPlotConfig())
  }

  // ---------------------------------------------------------------------
  // Bucket bounds.
  // ---------------------------------------------------------------------

  ghost predicate StrictlySorted(b: seq<real>)
  {
    forall i, j :: 0 <= i < j < |b| ==> b[i] < b[j]
  }

  /** `BucketRange::get_bounds`: `n_buckets + 1` evenly spaced bounds from `min` to `max`. */
  function RangeBounds(r: BucketRange): (b: seq<real>)
    requires r.min < r.max && r.nBuckets > 0
    ensures |b| == r.nBuckets + 1
  {
    var width := (r.max - r.min) / r.nBuckets as real;
    seq(r.nBuckets + 1, i requires 0 <= i <= r.nBuckets => r.min + i as real * width)
  }

  /** The bounds start at `min`, end at `max` and strictly increase. */
  lemma RangeBoundsShape(r: BucketRange)
    requires r.min < r.max && r.nBuckets > 0
    ensures RangeBounds(r)[0] == r.min
    ensures RangeBounds(r)[r.nBuckets] == r.max
    ensures StrictlySorted(RangeBounds(r))
  {
    var b := RangeBounds(r);
    var n := r.nBuckets as real;
    var width := (r.max - r.min) / n;
    assert width * n == r.max - r.min;
    assert b[r.nBuckets] == r.min + n * width;
    forall i, j | 0 <= i < j < |b| ensures b[i] < b[j] {
      var di := i as real;
      var dj := j as real;
      assert b[j] - b[i] == (dj - di) * width;
      assert 0.0 < dj - di && 0.0 < width;
    }
  }

  /**
   * `BucketConfig::get_bounds`: no bounds for zero buckets, otherwise the
   * range's bounds. The source sorts them afterwards; they are already in
   * strictly increasing order, so the sort leaves them as they are.
   */
  function BucketConfigGetBounds(c: BucketConfig): (r: Option<seq<real>>)
    requires c.rangeInput.nBuckets == 0 || c.rangeInput.min < c.rangeInput.max
    ensures r.None? <==> c.rangeInput.nBuckets == 0
    ensures r.Some? ==> |r.value| == c.rangeInput.nBuckets + 1 && StrictlySorted(r.value)
    ensures r.Some? ==> r.value[0] == c.rangeInput.min && r.value[|r.value| - 1] == c.rangeInput.max
  {
    if c.rangeInput.nBuckets == 0 then None
    else
      RangeBoundsShape(c.rangeInput);
      Some(RangeBounds(c.rangeInput))
  }

  // ---------------------------------------------------------------------
  // Bucketing.
  // ---------------------------------------------------------------------

  /**
   * The bucket a value falls in: the number of bounds below it. Bucket 0 is
   * everything up to the first bound, bucket `|bounds|` everything above the
   * last one, and a value equal to a bound goes to the bucket that bound closes.
   */
  function BucketOf(bounds: seq<real>, value: real): (i: nat)
    ensures i <= |bounds|
  {
    if bounds == [] then 0
    else (if bounds[0] < value then 1 else 0) + BucketOf(bounds[1..], value)
  }

  /** An index with every bound before it below `value` and none after it is the bucket of `value`. */
  lemma {:induction false} InsertionPointIsBucket(bounds: seq<real>, value: real, i: nat)
    requires i <= |bounds|
    requires forall j :: 0 <= j < i ==> bounds[j] < value
    requires forall j :: i <= j < |bounds| ==> value <= bounds[j]
    ensures BucketOf(bounds, value) == i
    decreases |bounds|
  {
    if bounds != [] {
      var rest := bounds[1..];
      var k := if i > 0 then i - 1 else 0;
      forall j | 0 <= j < k ensures rest[j] < value {
        assert rest[j] == bounds[j + 1];
      }
      forall j | k <= j < |rest| ensures value <= rest[j] {
        assert rest[j] == bounds[j + 1];
      }
      InsertionPointIsBucket(rest, value, k);
    }
  }

  /** Over sorted bounds the bucket of `value` is the insertion point: smaller bounds before it, the rest after. */
  lemma {:induction false} BucketIsInsertionPoint(bounds: seq<real>, value: real)
    requires StrictlySorted(bounds)
    ensures forall j :: 0 <= j < BucketOf(bounds, value) ==> bounds[j] < value
    ensures forall j :: BucketOf(bounds, value) <= j < |bounds| ==> value <= bounds[j]
    decreases |bounds|
  {
    if bounds != [] {
      var rest := bounds[1..];
      BucketIsInsertionPoint(rest, value);
      var i := BucketOf(bounds, value);
      if bounds[0] < value {
        forall j | 0 <= j < i ensures bounds[j] < value {
          if j > 0 {
            assert bounds[j] == rest[j - 1];
          }
        }
        forall j | i <= j < |bounds| ensures value <= bounds[j] {
          assert bounds[j] == rest[j - 1];
        }
      } else {
        forall j | 0 <= j < |bounds| ensures value <= bounds[j] {
          if j > 0 {
            assert bounds[0] < bounds[j];
          }
        }
      }
    }
  }

  /**
   * The binary search `add_value_to_bucket` runs through
   * `binary_search_by_key`: over strictly increasing bounds both its `Ok`
   * index (the equal bound) and its `Err` index (the insertion point) are the
   * number of bounds below `value`.
   */
  method SearchBucket(bounds: seq<real>, value: real) returns (i: nat)
    requires StrictlySorted(bounds)
    ensures i == BucketOf(bounds, value)
  {
    var lo, hi := 0, |bounds|;
    while lo < hi
      invariant 0 <= lo <= hi <= |bounds|
      invariant forall j :: 0 <= j < lo ==> bounds[j] < value
      invariant forall j :: hi <= j < |bounds| ==> value <= bounds[j]
      decreases hi - lo
    {
      var mid := lo + (hi - lo) / 2;
      if bounds[mid] < value {
        lo := mid + 1;
      } else {
        hi := mid;
      }
    }
    InsertionPointIsBucket(bounds, value, lo);
    i := lo;
  }

  /** `add_value_to_bucket`: one more sample in the bucket of `value`. */
  method AddValueToBucket(bounds: seq<real>, value: real, counts: seq<nat>) returns (r: seq<nat>)
    requires StrictlySorted(bounds) && BucketOf(bounds, value) < |counts|
    ensures |r| == |counts|
    ensures r[BucketOf(bounds, value)] == counts[BucketOf(bounds, value)] + 1
    ensures forall k :: 0 <= k < |r| && k != BucketOf(bounds, value) ==> r[k] == counts[k]
  {
    var bucketI := SearchBucket(bounds, value);
    r := counts[bucketI := counts[bucketI] + 1];
  }

  /** `n` zero counts. */
  function Zeros(n: nat): (r: seq<nat>)
    ensures |r| == n && forall k :: 0 <= k < n ==> r[k] == 0
  {
    seq(n, _ => 0)
  }

  function Sum(s: seq<nat>): nat
  {
    if s == [] then 0 else s[0] + Sum(s[1..])
  }

  /** Adding one to a single count adds one to the total. */
  lemma {:induction false} SumIncrement(s: seq<nat>, k: nat)
    requires k < |s|
    ensures Sum(s[k := s[k] + 1]) == Sum(s) + 1
    decreases |s|
  {
    if k > 0 {
      SumIncrement(s[1..], k - 1);
      assert s[k := s[k] + 1][1..] == s[1..][k - 1 := s[k] + 1];
    } else {
      assert s[k := s[k] + 1][1..] == s[1..];
    }
  }

  lemma {:induction false} SumZeros(n: nat)
    ensures Sum(Zeros(n)) == 0
    decreases n
  {
    if n > 0 {
      assert Zeros(n)[1..] == Zeros(n - 1);
      SumZeros(n - 1);
    }
  }

  /** The counts after bucketing every value of `xs`, in order, on top of `counts`. */
  function Tally(bounds: seq<real>, counts: seq<nat>, xs: seq<real>): (r: seq<nat>)
    requires |counts| == |bounds| + 1
    ensures |r| == |counts|
    decreases |xs|
  {
    if xs == [] then counts
    else
      var c := Tally(bounds, counts, xs[..|xs| - 1]);
      var b := BucketOf(bounds, xs[|xs| - 1]);
      c[b := c[b] + 1]
  }

  /** How many values of `xs` fall in bucket `k`. */
  function InBucket(bounds: seq<real>, xs: seq<real>, k: nat): nat
    decreases |xs|
  {
    if xs == [] then 0
    else InBucket(bounds, xs[..|xs| - 1], k) + (if BucketOf(bounds, xs[|xs| - 1]) == k then 1 else 0)
  }

  /** Each count grows by exactly the number of values that fall in its bucket. */
  lemma {:induction false} TallyCountsPerBucket(bounds: seq<real>, counts: seq<nat>, xs: seq<real>, k: nat)
    requires |counts| == |bounds| + 1 && k < |counts|
    ensures Tally(bounds, counts, xs)[k] == counts[k] + InBucket(bounds, xs, k)
    decreases |xs|
  {
    if xs != [] {
      TallyCountsPerBucket(bounds, counts, xs[..|xs| - 1], k);
    }
  }

  /** Bucketing `xs` adds exactly `|xs|` to the total. */
  lemma {:induction false} TallyTotal(bounds: seq<real>, counts: seq<nat>, xs: seq<real>)
    requires |counts| == |bounds| + 1
    ensures Sum(Tally(bounds, counts, xs)) == Sum(counts) + |xs|
    decreases |xs|
  {
    if xs != [] {
      var c := Tally(bounds, counts, xs[..|xs| - 1]);
      TallyTotal(bounds, counts, xs[..|xs| - 1]);
      SumIncrement(c, BucketOf(bounds, xs[|xs| - 1]));
    }
  }

  /** Only the bucket counts change, and none of them goes down. */
  lemma TallyNeverDecreases(bounds: seq<real>, counts: seq<nat>, xs: seq<real>)
    requires |counts| == |bounds| + 1
    ensures forall k :: 0 <= k < |counts| ==> counts[k] <= Tally(bounds, counts, xs)[k]
  {
    forall k | 0 <= k < |counts| ensures counts[k] <= Tally(bounds, counts, xs)[k] {
      TallyCountsPerBucket(bounds, counts, xs, k);
    }
  }

  /** Bucketing `xs` then `ys` is bucketing `xs + ys`. */
  lemma {:induction false} TallyAppend(bounds: seq<real>, counts: seq<nat>, xs: seq<real>, ys: seq<real>)
    requires |counts| == |bounds| + 1
    ensures Tally(bounds, Tally(bounds, counts, xs), ys) == Tally(bounds, counts, xs + ys)
    decreases |ys|
  {
    if ys != [] {
      TallyAppend(bounds, counts, xs, ys[..|ys| - 1]);
      assert (xs + ys)[..|xs + ys| - 1] == xs + ys[..|ys| - 1];
    } else {
      assert xs + ys == xs;
    }
  }

  /**
   * The values a windowed update pulls from a sample block, newest first,
   * up to `n` of them.
   */
  function Pulled(block: seq<real>, n: nat): (r: seq<real>)
    ensures |r| == Min(n, |block|)
    ensures forall i :: 0 <= i < |r| ==> r[i] == block[|block| - 1 - i]
  {
    seq(Min(n, |block|), i requires 0 <= i < Min(n, |block|) => block[|block| - 1 - i])
  }

  // ---------------------------------------------------------------------
  // Counter plots.
  // ---------------------------------------------------------------------

  /** `CounterData`: the latest counter values in a ring, with the plot's settings. */
  class CounterData {
    const ring: Ring<nat>
    var config: CounterPlotConfig

    ghost predicate Valid()
      reads this, ring
    {
      ring.Valid() && ring.dflt == 0
    }

    /** `CounterData::new`: a ring of `window_size` zeros. */
    constructor (config: CounterPlotConfig)
      requires config.windowSize >= 1
      ensures Valid() && this.config == config && fresh(ring)
      ensures ring.Size() == config.windowSize && ring.IterChronological() == Repeat(0, config.windowSize)
    {
      this.config := config;
      ring := new Ring(config.windowSize, 0);
    }

    /** `CounterData::update`: the value loaded from the counter becomes the latest sample. */
    method Update(value: nat)
      requires Valid() && ring.Size() > 0
      modifies ring
      ensures Valid() && ring.Size() == old(ring.Size())
      ensures ring.Latest() == value
      ensures ring.IterChronological() == old(ring.IterChronological())[1..] + [value]
    {
      ring.Push(value);
    }

    /** `handle_global_config`: a dashboard-wide window size overrides the plot's own. */
    method HandleGlobalConfig(globalWindowSize: Option<nat>)
      requires Valid() && (globalWindowSize.Some? ==> ring.Size() > 0 || globalWindowSize.value == 0)
      modifies this, ring
      ensures Valid()
      ensures globalWindowSize.None? ==>
        config == old(config) && ring.elements == old(ring.elements) && ring.cursor == old(ring.cursor)
      ensures globalWindowSize.Some? ==>
        config == old(config).(windowSize := globalWindowSize.value) && ring.Size() == globalWindowSize.value
      ensures globalWindowSize.Some? && globalWindowSize.value == old(ring.Size()) ==>
        ring.elements == old(ring.elements) && ring.cursor == old(ring.cursor)
      ensures globalWindowSize.Some? && 0 < globalWindowSize.value < old(ring.Size()) ==>
        ring.IterChronological() == old(ring.IterChronological())[old(ring.Size()) - globalWindowSize.value..]
      ensures globalWindowSize.Some? && 0 < old(ring.Size()) < globalWindowSize.value ==>
        && ring.Latest() == old(ring.Latest())
        && ring.IterChronological() ==
           GrownViewAsWritten(old(ring.IterChronological()), old(ring.Size()) - old(ring.cursor) - 1,
                              globalWindowSize.value - old(ring.Size()), 0)
    {
      if globalWindowSize.Some? {
        config := config.(windowSize := globalWindowSize.value);
        ring.Resize(config.windowSize);
      }
    }
  }

  // ---------------------------------------------------------------------
  // Histogram plots.
  // ---------------------------------------------------------------------

  /**
   * `HistogramData`: a count per bucket, and in windowed mode the ring of the
   * newest samples the counts are computed from (created on first update).
   */
  class HistogramData {
    var ring: Option<Ring<real>>
    var bucketCounts: seq<nat>
    var config: HistogramPlotConfig

    function RingRepr(): set<object>
      reads this
    {
      if ring.Some? then {ring.value} else {}
    }

    /**
     * One count per bucket (the length `make_bar_chart` asserts), bounds in
     * increasing order, and a ring and window size that `Ring::new` accepts.
     */
    ghost predicate Valid()
      reads this, RingRepr()
    {
      && |bucketCounts| == |config.buckets.bounds| + 1
      && StrictlySorted(config.buckets.bounds)
      && (config.windowSize.Some? ==> config.windowSize.value >= 1)
      && (ring.Some? ==> ring.value.Valid() && ring.value.Size() > 0 && ring.value.dflt == 0.0)
    }

    /** `HistogramData::new`: every bucket at zero, no ring yet. */
    constructor (config: HistogramPlotConfig)
      requires StrictlySorted(config.buckets.bounds)
      requires config.windowSize.Some? ==> config.windowSize.value >= 1
      ensures Valid() && this.config == config && ring.None?
      ensures bucketCounts == Zeros(|config.buckets.bounds| + 1)
    {
      this.config := config;
      ring := None;
      bucketCounts := Zeros(|config.buckets.bounds| + 1);
    }

    /** The bar heights `make_bar_chart` draws: one per bucket. */
    function BarHeights(): (h: seq<nat>)
      requires Valid()
      reads this, RingRepr()
      ensures |h| == |config.buckets.bounds| + 1
    {
      bucketCounts
    }

    /**
     * `update_bounds_from_input`: zero buckets leave everything as it was;
     * otherwise the range's bounds replace the old ones and every count
     * restarts at zero.
     */
    method UpdateBoundsFromInput()
      requires Valid()
      requires config.buckets.rangeInput.nBuckets == 0 || config.buckets.rangeInput.min < config.buckets.rangeInput.max
      modifies this
      ensures Valid() && ring == old(ring)
      ensures old(config.buckets.rangeInput.nBuckets) == 0 ==>
        config == old(config) && bucketCounts == old(bucketCounts)
      ensures old(config.buckets.rangeInput.nBuckets) > 0 ==>
        && config == old(config).(buckets := old(config.buckets).(bounds := RangeBounds(old(config.buckets.rangeInput))))
        && |config.buckets.bounds| == old(config.buckets.rangeInput.nBuckets) + 1
        && bucketCounts == Zeros(|config.buckets.bounds| + 1)
    {
      var newBounds := BucketConfigGetBounds(config.buckets);
      if newBounds.None? {
        return;
      }
      config := config.(buckets := config.buckets.(bounds := newBounds.value));
      // `resize` to the new length, then `fill(0)`.
      bucketCounts := Zeros(|config.buckets.bounds| + 1);
    }

    /**
     * `HistogramData::update` with the samples recorded since the last
     * clear. Windowed: the newest samples (at most the ring's size, newest
     * first) are pushed into the ring, and the counts are recomputed from the
     * ring alone, so they always total the ring's size. Cumulative: every
     * sample is added to the running counts.
     */
    method Update(block: seq<real>)
      requires Valid()
      modifies this, RingRepr()
      ensures Valid() && config == old(config)
      ensures old(config.windowSize).None? ==>
        ring == old(ring) && bucketCounts == Tally(config.buckets.bounds, old(bucketCounts), block)
      ensures old(config.windowSize).Some? ==> ring.Some?
      ensures old(config.windowSize).Some? && old(ring).None? ==>
        fresh(ring.value) && ring.value.Size() == config.windowSize.value
        && ring.value.IterChronological() == Slide(Repeat(0.0, config.windowSize.value), Pulled(block, config.windowSize.value))
      ensures old(config.windowSize).Some? && old(ring).Some? ==>
        ring == old(ring) && ring.value.Size() == old(ring.value.Size())
        && ring.value.IterChronological() == Slide(old(ring.value.IterChronological()), Pulled(block, ring.value.Size()))
      ensures old(config.windowSize).Some? ==>
        && bucketCounts == Tally(config.buckets.bounds, Zeros(|config.buckets.bounds| + 1), ring.value.IterChronological())
        && Sum(bucketCounts) == ring.value.Size()
    {
      var bounds := config.buckets.bounds;
      if config.windowSize.Some? {
        var windowSize := config.windowSize.value;
        // Only the window is counted, so the counts restart from zero.
        var zeros := Zeros(|bucketCounts|);
        var r: Ring<real>;
        if ring.None? {
          r := new Ring(windowSize, 0.0);
          ring := Some(r);
        } else {
          r := ring.value;
        }
        PullNewest(r, block);
        var view := r.IterChronological();
        var counts := BucketAll(bounds, view, zeros);
        TallyTotal(bounds, zeros, view);
        SumZeros(|bucketCounts|);
        bucketCounts := counts;
      } else {
        bucketCounts := BucketAll(bounds, block, bucketCounts);
      }
    }
  }

  /**
   * The `while taken < ring.max_len()` loop of a windowed update: pushes the
   * block's samples from the newest back, stopping when the ring has been
   * filled once or the block runs out.
   */
  method PullNewest(ring: Ring<real>, block: seq<real>)
    requires ring.Valid() && ring.Size() > 0
    modifies ring
    ensures ring.Valid() && ring.Size() == old(ring.Size())
    ensures ring.IterChronological() == Slide(old(ring.IterChronological()), Pulled(block, ring.Size()))
  {
    ghost var start := ring.IterChronological();
    var taken := 0;
    while taken < ring.Size()
      invariant ring.Valid() && ring.Size() == old(ring.Size()) && taken <= ring.Size() && taken <= |block|
      invariant ring.IterChronological() == Slide(start, Pulled(block, taken))
    {
      if taken < |block| {
        var value := block[|block| - 1 - taken];
        ring.Push(value);
        assert Pulled(block, taken + 1) == Pulled(block, taken) + [value];
        taken := taken + 1;
      } else {
        break;
      }
    }
    assert taken == Min(ring.Size(), |block|);
    assert Pulled(block, taken) == Pulled(block, ring.Size());
  }

  /** The `for &value in ...` loops of `update`: buckets every value, in order. */
  method BucketAll(bounds: seq<real>, values: seq<real>, counts: seq<nat>) returns (r: seq<nat>)
    requires StrictlySorted(bounds) && |counts| == |bounds| + 1
    ensures r == Tally(bounds, counts, values)
  {
    r := counts;
    var i := 0;
    while i < |values|
      invariant 0 <= i <= |values|
      invariant r == Tally(bounds, counts, values[..i])
    {
      r := AddValueToBucket(bounds, values[i], r);
      assert values[..i + 1][..i] == values[..i];
      i := i + 1;
    }
    assert values[..i] == values;
  }
}
