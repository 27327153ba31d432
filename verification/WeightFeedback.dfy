/** How one instance's weight is computed from the latencies of finished requests and from the
    requests still in flight (class Weight, a part of class Instance).  Products that the source computes in int64 are
    checked for overflow, and integer division for a zero divisor. */
module WeightFeedback {
  import opened Arithmetic
  import opened Words

  const RECV_QUEUE_SIZE := 128
  const MIN_WEIGHT := 1000
  const DEFAULT_QPS := 1
  const DEFAULT_AVG_LATENCY := 5000
  const WEIGHT_SCALE := INT64_MAX / 72000000 / (RECV_QUEUE_SIZE - 1)
  const DEFAULT_WEIGHT := WEIGHT_SCALE * DEFAULT_QPS / DEFAULT_AVG_LATENCY * 100000 / DEFAULT_AVG_LATENCY
  const MULTIPLE_OF_AVG_LATENCY := 100

  /** The result of int64 arithmetic: a value, or undefined behaviour (overflow, division by 0). */
  datatype Arith = Value(v: int) | Undefined

  function Product(a: int, b: int): Arith {
    if -INT64_MAX - 1 <= a * b <= INT64_MAX then Value(a * b) else Undefined
  }

  /** divide_ceil without the is_legal flag. */
  function DivideCeil(dividend: int, divisor: int): int {
    if divisor == 0 then dividend
    else if dividend - TruncDiv(dividend, divisor) * divisor == 0 then TruncDiv(dividend, divisor)
    else TruncDiv(dividend, divisor) + 1
  }

  // ----- Samples and the window

  datatype Sample = Sample(latency: int, end: int)

  ghost function LatencySum(s: seq<Sample>): int {
    if s == [] then 0 else LatencySum(s[..|s| - 1]) + s[|s| - 1].latency
  }

  lemma {:induction false} LatencySumSplit(s: seq<Sample>, m: nat)
    requires m <= |s|
    ensures LatencySum(s) == LatencySum(s[..m]) + LatencySum(s[m..])
  {
    if m == |s| {
      assert s[..m] == s;
    } else {
      var n := |s| - 1;
      LatencySumSplit(s[..n], m);
      assert s[..n][..m] == s[..m];
      assert s[m..][..n - m] == s[..n][m..];
    }
  }

  lemma {:induction false} LatencySumNonNegative(s: seq<Sample>)
    requires forall k :: 0 <= k < |s| ==> s[k].latency >= 0
    ensures LatencySum(s) >= 0
  {
    if s != [] { LatencySumNonNegative(s[..|s| - 1]); }
  }

  /** The samples a queue of RECV_QUEUE_SIZE still remembers. */
  ghost function Window(s: seq<Sample>): seq<Sample> {
    if |s| <= RECV_QUEUE_SIZE then s else s[|s| - RECV_QUEUE_SIZE..]
  }

  /** Time passed between the oldest remembered sample and the newest. */
  ghost function Elapsed(s: seq<Sample>): int
    requires s != []
  {
    s[|s| - 1].end - Window(s)[0].end
  }

  /** The average the source is after: the floor mean of the remembered samples other than the
      oldest; only the newest latency when no time has passed since the oldest. */
  ghost function Average(s: seq<Sample>): int
    requires s != []
  {
    if Elapsed(s) > 0 then LatencySum(Window(s)[1..]) / (|Window(s)| - 1)
    else s[|s| - 1].latency
  }

  ghost function Qps(s: seq<Sample>, before: int): int
    requires s != []
  {
    if Elapsed(s) > 0 then (|Window(s)| - 1) * 1000000 / Elapsed(s) else before
  }

  ghost function ScaledQps(s: seq<Sample>): int
    requires s != []
  {
    if Elapsed(s) > 0
    then Max(WEIGHT_SCALE, Qps(s, 0) * WEIGHT_SCALE)
    else DEFAULT_QPS * WEIGHT_SCALE
  }

  // ----- The two formulas

  /** base = scaled_qps / avg * 100000 / avg */
  function BaseWeight(scaledQps: int, avg: int): Arith {
    if avg == 0 then Undefined
    else match Product(TruncDiv(scaledQps, avg), 100000)
      case Undefined => Undefined
      case Value(p) => Value(TruncDiv(p, avg))
  }

  /** The connection limits consulted by _cal_inflight_weight. */
  datatype Load = Load(atCapacity: bool, maxConnections: int, configured: int)

  /** At least one connection is allowed per instance. */
  predicate Sensible(load: Load) {
    load.maxConnections >= 1 && load.configured >= 0
  }

  function Clamp(x: int): int {
    if x < MIN_WEIGHT then MIN_WEIGHT else x
  }

  function InflightWeight(base: int, count: int, beginSum: int, avg: int, dev: int,
                          now: int, load: Load): (r: Arith)
    ensures r.Value? ==> r.v >= MIN_WEIGHT
  {
    if count <= 0 then Value(Clamp(base))
    else
      var delay := now - TruncDiv(beginSum, count);
      var late := delay > avg * 2 + 3 * dev;
      if late && (delay == 0 || Product(base, avg).Undefined?) then Undefined
      else
        var punished := if late then TruncDiv(base * avg, delay) else base;
        var scale := DivideCeil(load.maxConnections, load.configured);
        if !load.atCapacity then Value(Clamp(punished))
        else if scale == 0 then Undefined
        else Value(Clamp(TruncDiv(punished, scale)))
  }

  // ----- Facts about the formulas

  /** qps stays below 127 million and its scaled form inside int64, for every sample history. */
  lemma QpsFitsInt64(s: seq<Sample>)
    requires s != []
    ensures 0 <= Qps(s, 0) <= (RECV_QUEUE_SIZE - 1) * 1000000
    ensures WEIGHT_SCALE <= ScaledQps(s) <= (RECV_QUEUE_SIZE - 1) * 1000000 * WEIGHT_SCALE <= INT64_MAX
  {
    if Elapsed(s) > 0 {
      var n := (|Window(s)| - 1) * 1000000;
      QuotientShrinks(n, Elapsed(s));
      assert n <= (RECV_QUEUE_SIZE - 1) * 1000000;
      assert WEIGHT_SCALE == 1008680231;
    }
  }

  /** The new base weight is defined exactly when the average latency is not 0 and is large
      enough for the throughput; 1389 microseconds is enough for any throughput. */
  lemma BaseWeightDefined(scaledQps: nat, avg: nat)
    requires scaledQps <= (RECV_QUEUE_SIZE - 1) * 1000000 * WEIGHT_SCALE
    ensures BaseWeight(scaledQps, avg).Value? <==> avg != 0 && scaledQps / avg <= INT64_MAX / 100000
    ensures avg >= 1389 ==> BaseWeight(scaledQps, avg).Value?
    ensures BaseWeight(scaledQps, avg).Value? ==> BaseWeight(scaledQps, avg).v >= 0
  {
    if avg > 0 {
      var q := scaledQps / avg;
      QuotientShrinks(scaledQps, avg);
      assert Product(q, 100000).Value? <==> q <= INT64_MAX / 100000;
      QuotientShrinks(q * 100000, avg);
      if avg >= 1389 {
        QuotientMonotone(scaledQps, 1389, avg);
      }
    }
  }

  /** Its value is the throughput per latency, scaled and divided by the latency once more, each quotient
      rounded down. */
  lemma BaseWeightIs(scaledQps: nat, avg: nat) returns (rate: int)
    requires BaseWeight(scaledQps, avg).Value?
    ensures rate * avg <= scaledQps < (rate + 1) * avg
    ensures var b := BaseWeight(scaledQps, avg).v; b * avg <= rate * 100000 < (b + 1) * avg
  {
    rate := scaledQps / avg;
    Rounds(scaledQps, avg);
    Rounds(rate * 100000, avg);
  }

  /** A quotient of C++ between the multiples of its divisor. */
  lemma Rounds(a: nat, b: int)
    requires b > 0
    ensures TruncDiv(a, b) == a / b >= 0
    ensures a / b * b <= a < (a / b + 1) * b
  {
    QuotientAtLeast(a, b, a / b);
    QuotientAtLeast(a, b, a / b + 1);
    QuotientAtLeast(a, b, 0);
  }

  /** A request that ends in the microsecond it began makes the source divide by zero. */
  lemma ZeroLatencyDividesByZero()
    ensures Average([Sample(0, 7)]) == 0
    ensures BaseWeight(ScaledQps([Sample(0, 7)]), Average([Sample(0, 7)])) == Undefined
  {
  }

  /** A full queue of requests of equal latency, all but the oldest of which end one microsecond after
      it. */
  ghost function Burst(latency: int): seq<Sample> {
    [Sample(latency, 0)] + seq(RECV_QUEUE_SIZE - 1, _ => Sample(latency, 1))
  }

  lemma {:induction false} EqualLatencies(s: seq<Sample>, latency: int)
    requires forall k :: 0 <= k < |s| ==> s[k].latency == latency
    ensures LatencySum(s) == |s| * latency
  {
    if s != [] {
      EqualLatencies(s[..|s| - 1], latency);
    }
  }

  /** Such a burst makes the base weight undefined exactly below 1389 microseconds: the bound is met by
      a history, not only by numbers. */
  lemma BurstOverflowsIff(latency: nat)
    ensures Average(Burst(latency)) == latency
    ensures BaseWeight(ScaledQps(Burst(latency)), Average(Burst(latency))) == Undefined <==> latency < 1389
  {
    var s := Burst(latency);
    assert |s| == RECV_QUEUE_SIZE && Window(s) == s && Elapsed(s) == 1;
    EqualLatencies(s[1..], latency);
    QuotientAtLeast(127 * latency, 127, latency);
    QuotientAtLeast(127 * latency, 127, latency + 1);
    assert Qps(s, 0) == 127000000;
    BaseWeightDefined(ScaledQps(s), latency);
    if 0 < latency < 1389 {
      QuotientMonotone(ScaledQps(s), latency, 1388);
    }
  }

  /** The average is 0 exactly when the counted latencies sum to less than one microsecond each. */
  lemma AverageIsZero(s: seq<Sample>)
    requires s != [] && forall k :: 0 <= k < |s| ==> s[k].latency >= 0
    ensures Average(s) >= 0
    ensures Average(s) == 0 <==>
            if Elapsed(s) > 0 then LatencySum(Window(s)[1..]) < |Window(s)| - 1
            else s[|s| - 1].latency == 0
  {
    if Elapsed(s) > 0 {
      var w := Window(s)[1..];
      LatencySumNonNegative(w);
      QuotientAtLeast(LatencySum(w), |w|, 0);
      QuotientAtLeast(LatencySum(w), |w|, 1);
    }
  }

  lemma AverageIsNonNegative(s: seq<Sample>)
    requires s != [] && forall k :: 0 <= k < |s| ==> s[k].latency >= 0
    ensures Average(s) >= 0
  {
    AverageIsZero(s);
  }

  lemma NewBaseIsNonNegative(s: seq<Sample>)
    requires s != [] && forall k :: 0 <= k < |s| ==> s[k].latency >= 0
    ensures BaseWeight(ScaledQps(s), Average(s)).Value? ==> BaseWeight(ScaledQps(s), Average(s)).v >= 0
  {
    QpsFitsInt64(s);
    AverageIsZero(s);
    BaseWeightDefined(ScaledQps(s), Average(s));
  }

  /** divide_ceil rounds up; with nothing configured it leaves the dividend. */
  lemma DivideCeilIs(max: int, configured: int)
    requires max >= 1 && configured >= 0
    ensures var scale := DivideCeil(max, configured);
            scale >= 1 && if configured == 0 then scale == max else (scale - 1) * configured < max <= scale * configured
  {
    if configured > 0 {
      Rounds(max, configured);
    }
  }

  /** When the requests in flight began, on average. */
  ghost predicate BeganAt(mean: int, count: int, beginSum: int) {
    count > 0 ==> if beginSum >= 0 then mean * count <= beginSum < (mean + 1) * count
                  else (mean - 1) * count < beginSum <= mean * count
  }

  /** The weight before an instance at its capacity is punished for that: the base, or for late requests
      the base in proportion of the average latency to the delay. */
  ghost predicate Punished(p: int, base: int, count: int, avg: int, dev: int, delay: int) {
    if count > 0 && delay > 2 * avg + 3 * dev then p * delay <= base * avg < (p + 1) * delay
    else p == base
  }

  /** At capacity it is divided by how many times over the connections are configured. */
  ghost predicate Divided(q: int, p: int, count: int, load: Load) {
    if count > 0 && load.atCapacity
    then var scale := DivideCeil(load.maxConnections, load.configured); q * scale <= p < (q + 1) * scale
    else q == p
  }

  /** The weight of an instance in every case. */
  lemma WeightInFlight(base: nat, count: int, beginSum: int, avg: nat, dev: nat, now: int, load: Load)
    returns (mean: int, p: nat, q: nat)
    requires Sensible(load) && Product(base, avg).Value?
    ensures BeganAt(mean, count, beginSum) && Punished(p, base, count, avg, dev, now - mean)
    ensures Divided(q, p, count, load)
    ensures InflightWeight(base, count, beginSum, avg, dev, now, load) == Value(Max(q, MIN_WEIGHT))
  {
    mean, p := 0, base;
    if count > 0 {
      mean := TruncDiv(beginSum, count);
      MeanBetween(mean, count, beginSum);
      var delay := now - mean;
      if delay > 2 * avg + 3 * dev {
        MultiplyMonotone(0, base, avg);
        Rounds(base * avg, delay);
        p := TruncDiv(base * avg, delay);
      }
    }
    q := p;
    if count > 0 && load.atCapacity {
      DivideCeilIs(load.maxConnections, load.configured);
      Rounds(p, DivideCeil(load.maxConnections, load.configured));
      q := TruncDiv(p, DivideCeil(load.maxConnections, load.configured));
    }
  }

  lemma MeanBetween(mean: int, count: int, beginSum: int)
    requires count > 0 && mean == TruncDiv(beginSum, count)
    ensures BeganAt(mean, count, beginSum)
  {
    if beginSum >= 0 {
      Rounds(beginSum, count);
    } else {
      var m := (-beginSum) / count;
      Rounds(-beginSum, count);
      assert mean == -m;
      Negated(m, count, -beginSum);
    }
  }

  lemma Negated(m: int, count: int, sum: int)
    requires m * count <= sum < (m + 1) * count
    ensures (-m - 1) * count < -sum <= (-m) * count
  {
    assert (-m) * count == -(m * count);
    assert (-m - 1) * count == -((m + 1) * count);
  }

  /** A late instance is punished to at most half its base weight (before the floor of
      MIN_WEIGHT), an instance without requests in flight keeps it, and no load ever raises it. */
  lemma PunishmentHalves(base: nat, count: int, beginSum: int, avg: nat, dev: nat, now: int, load: Load)
    requires Sensible(load)
    requires Product(base, avg).Value?
    ensures var r := InflightWeight(base, count, beginSum, avg, dev, now, load);
            && r.Value?
            && (r.v <= base || r.v == MIN_WEIGHT)
            && ((count > 0 && now - TruncDiv(beginSum, count) > 2 * avg + 3 * dev)
                ==> r.v <= base / 2 || r.v == MIN_WEIGHT)
            && (count <= 0 ==> r.v == if base < MIN_WEIGHT then MIN_WEIGHT else base)
  {
    if count > 0 {
      var delay := now - TruncDiv(beginSum, count);
      if delay > 2 * avg + 3 * dev {
        LateIsHalf(base, avg, delay);
      }
      var punished := if delay > avg * 2 + 3 * dev then TruncDiv(base * avg, delay) else base;
      if load.atCapacity {
        QuotientShrinks(punished, DivideCeil(load.maxConnections, load.configured));
      }
    }
  }

  /** A base weight that could be computed can also be punished without overflow: the product
      of base and average is at most the product that was divided by the average. */
  lemma FreshBaseIsPunishable(s: seq<Sample>, count: int, beginSum: int, dev: nat, now: int, load: Load)
    requires s != [] && forall k :: 0 <= k < |s| ==> s[k].latency >= 0
    requires BaseWeight(ScaledQps(s), Average(s)).Value?
    ensures var b := BaseWeight(ScaledQps(s), Average(s)).v;
            && Product(b, Average(s)).Value?
            && (Sensible(load) ==>
                  InflightWeight(b, count, beginSum, Average(s), dev, now, load).Value?)
  {
    var avg, b := Average(s), BaseWeight(ScaledQps(s), Average(s)).v;
    QpsFitsInt64(s);
    AverageIsZero(s);
    BaseWeightDefined(ScaledQps(s), avg);
    QuotientShrinks(ScaledQps(s), avg);
    QuotientAtLeast(ScaledQps(s) / avg * 100000, avg, b);
    MultiplyMonotone(0, b, avg);
    if Sensible(load) {
      PunishmentHalves(b, count, beginSum, avg, dev, now, load);
    }
  }

  /** The default weight can be punished up to this average latency. */
  const LATENCY_LIMIT := INT64_MAX / DEFAULT_WEIGHT

  lemma DefaultIsPunishableIff(avg: nat)
    ensures Product(DEFAULT_WEIGHT, avg).Value? <==> avg <= LATENCY_LIMIT
  {
    var w := DEFAULT_WEIGHT;
    assert w == 4034720;
    QuotientAtLeast(INT64_MAX, w, avg);
  }

  lemma LateIsHalf(base: nat, avg: nat, delay: int)
    requires delay > 2 * avg
    ensures 0 <= base * avg
    ensures 0 <= TruncDiv(base * avg, delay) <= base / 2
  {
    var half, product := base / 2, base * avg;
    MultiplyMonotone(0, base, avg);
    MultiplyMonotone(base, 2 * half + 1, avg);
    MultiplyMonotone(2 * avg + 1, delay, half + 1);
    OddProducts(half, avg);
    QuotientAtLeast(product, delay, half + 1);
    QuotientAtLeast(product, delay, 0);
  }

  lemma OddProducts(half: nat, avg: nat)
    ensures (2 * half + 1) * avg < (2 * avg + 1) * (half + 1)
  {
    var x := half * avg;
    assert (2 * half + 1) * avg == 2 * x + avg;
    assert (2 * avg + 1) * (half + 1) == 2 * x + 2 * avg + half + 1;
  }

  // ----- The object

  datatype TimeInfo = TimeInfo(latencySum: int, end: int)

  /** One queue entry per sample: its end time and the latencies up to and including it. */
  ghost function Totals(samples: seq<Sample>): (t: seq<TimeInfo>)
    ensures |t| == |samples|
  {
    if samples == [] then []
    else Totals(samples[..|samples| - 1]) + [TimeInfo(LatencySum(samples), samples[|samples| - 1].end)]
  }

  /** elim_push: a full queue first forgets its oldest entry. */
  function ElimPush(q: seq<TimeInfo>, info: TimeInfo): seq<TimeInfo> {
    (if |q| == RECV_QUEUE_SIZE then q[1..] else q) + [info]
  }

  /** The queue after all samples were pushed. */
  ghost function Queue(samples: seq<Sample>): seq<TimeInfo> {
    if samples == [] then []
    else ElimPush(Queue(samples[..|samples| - 1]),
                  TimeInfo(LatencySum(samples), samples[|samples| - 1].end))
  }

  /** The bounded queue holds the running totals of the latest samples. */
  lemma {:induction false} QueueIsWindow(samples: seq<Sample>)
    ensures Queue(samples) == Totals(samples)[|samples| - |Window(samples)|..]
  {
    if samples != [] {
      var n := |samples| - 1;
      var t, info := Totals(samples[..n]), TimeInfo(LatencySum(samples), samples[n].end);
      QueueIsWindow(samples[..n]);
      if n < RECV_QUEUE_SIZE {
        assert Queue(samples[..n]) == t;
      } else {
        SlideWindow(t, info, n - RECV_QUEUE_SIZE);
      }
    }
  }

  lemma SlideWindow<T>(t: seq<T>, x: T, d: nat)
    requires d < |t|
    ensures (t + [x])[d + 1..] == t[d..][1..] + [x]
  {
  }

  /** A push extends the queue by the new running total. */
  lemma QueueAfterPush(samples: seq<Sample>, x: Sample)
    ensures var q := Queue(samples);
            var before := if q == [] then 0 else q[|q| - 1].latencySum;
            Queue(samples + [x]) == ElimPush(q, TimeInfo(x.latency + before, x.end))
  {
    assert (samples + [x])[..|samples|] == samples;
    assert LatencySum(samples + [x]) == LatencySum(samples) + x.latency;
  }

  lemma {:induction false} TotalsAt(samples: seq<Sample>, i: nat)
    requires i < |samples|
    ensures Totals(samples)[i] == TimeInfo(LatencySum(samples[..i + 1]), samples[i].end)
  {
    var n := |samples| - 1;
    if i < n {
      TotalsAt(samples[..n], i);
      assert samples[..n][..i + 1] == samples[..i + 1];
    } else {
      assert samples[..i + 1] == samples;
    }
  }

  /** The newest and the oldest running total differ by the latencies after the oldest. */
  lemma SumBetween(q: seq<TimeInfo>, samples: seq<Sample>)
    requires q == Queue(samples) && samples != []
    ensures |q| == |Window(samples)|
    ensures q[|q| - 1].latencySum - q[0].latencySum == LatencySum(Window(samples)[1..])
    ensures q[0].end == Window(samples)[0].end && q[|q| - 1].end == samples[|samples| - 1].end
  {
    QueueIsWindow(samples);
    var first := |samples| - |q| + 1;
    LatencySumSplit(samples, first);
    TotalsAt(samples, first - 1);
    assert samples[first..] == Window(samples)[1..];
  }

  /** The ring of running totals is enough to compute throughput and average. */
  lemma {:induction false} QueueMeasures(q: seq<TimeInfo>, samples: seq<Sample>, before: int)
    requires q == Queue(samples) && samples != []
    requires forall k :: 0 <= k < |samples| ==> samples[k].latency >= 0
    ensures |q| > 0 && Average(samples) >= 0
    ensures Elapsed(samples) == q[|q| - 1].end - q[0].end
    ensures |q| == RECV_QUEUE_SIZE <==> |samples| >= RECV_QUEUE_SIZE
    ensures var elapsed := q[|q| - 1].end - q[0].end;
            if elapsed > 0 then (
              && |q| > 1
              && Average(samples) == (q[|q| - 1].latencySum - q[0].latencySum) / (|q| - 1)
              && Qps(samples, before) == (|q| - 1) * 1000000 / elapsed
              && ScaledQps(samples) == Max(WEIGHT_SCALE, Qps(samples, before) * WEIGHT_SCALE)
            ) else (
              && Average(samples) == samples[|samples| - 1].latency
              && Qps(samples, before) == before
              && ScaledQps(samples) == DEFAULT_QPS * WEIGHT_SCALE
            )
  {
    SumBetween(q, samples);
    AverageIsNonNegative(samples);
  }

  datatype Status = OnLine | OffLine | Faulty | Delay

  /** A database instance.  Its Weight member, held by value in the source, is flattened into
      the fields from `weight` to `timeQ`. */
  class Instance {
    const index: nat
    var left: int
    var status: Status
    var connections: int      // get_total_connection_num
    var hasUnused: bool       // has_not_used_connection
    var weight: int
    var base: int
    var beginTimeSum: int
    var beginTimeCount: int
    var avgLatency: int
    var dev: int
    var qps: int
    var timeQ: seq<TimeInfo>
    var quartile: int         // _quartile_value
    var firstQuartile: bool   // _first_update_quartile
    /** Every sample ever accepted; the queue remembers a window of it. */
    ghost var samples: seq<Sample>

    ghost predicate Valid()
      reads `weight, `base, `avgLatency, `dev, `samples, `timeQ
    {
      && (weight == 0 || weight >= MIN_WEIGHT)
      && base >= 0 && avgLatency >= 0 && dev >= 0
      && (forall k :: 0 <= k < |samples| ==> samples[k].latency >= 0)
      && timeQ == Queue(samples)
    }

    /** The instance has weight exactly while it is on line. */
    ghost predicate Consistent()
      reads `status, `weight
    {
      status == OnLine <==> weight != 0
    }

    /** The product that a punishment computes does not overflow. */
    ghost predicate Punishable()
      reads `base, `avgLatency
    {
      Product(base, avgLatency).Value?
    }

    constructor (index: nat, status: Status, initial: int, timeout: int)
      requires initial == 0 || initial == DEFAULT_WEIGHT
      ensures Valid() && Punishable() && weight == initial && samples == []
      ensures quartile == timeout * 1000 && firstQuartile
      ensures beginTimeCount == 0 && beginTimeSum == 0
      ensures this.index == index && this.status == status && left == 0
    {
      this.index, this.status := index, status;
      left, connections, hasUnused := 0, 0, false;
      weight, base := initial, initial;
      beginTimeSum, beginTimeCount := 0, 0;
      avgLatency, dev, qps := DEFAULT_AVG_LATENCY, 0, DEFAULT_QPS;
      timeQ, quartile, firstQuartile := [], timeout * 1000, true;
      samples := [];
    }

    method ClearWeight() returns (diff: int)
      requires Valid()
      modifies `weight, `base
      ensures Valid() && Punishable() && weight == 0 && base == 0 && diff == weight - old(weight)
    {
      diff := -weight;
      weight, base := 0, 0;
    }

    method ResetWeight() returns (diff: int)
      requires Valid()
      modifies `weight, `base
      ensures Valid() && weight == base == DEFAULT_WEIGHT && diff == weight - old(weight)
      ensures Punishable() <==> avgLatency <= LATENCY_LIMIT
    {
      DefaultIsPunishableIff(avgLatency);
      hide Product;
      diff := DEFAULT_WEIGHT - weight;
      weight, base := DEFAULT_WEIGHT, DEFAULT_WEIGHT;
    }

    method AddInflight(begin: int)
      requires Valid()
      modifies `beginTimeSum, `beginTimeCount
      ensures Valid() && beginTimeSum == old(beginTimeSum) + begin
      ensures beginTimeCount == old(beginTimeCount) + 1
    {
      beginTimeSum, beginTimeCount := beginTimeSum + begin, beginTimeCount + 1;
    }

    method SubInflight(begin: int)
      requires Valid()
      modifies `beginTimeSum, `beginTimeCount
      ensures Valid() && beginTimeSum == old(beginTimeSum) - begin
      ensures beginTimeCount == old(beginTimeCount) - 1
    {
      beginTimeSum, beginTimeCount := beginTimeSum - begin, beginTimeCount - 1;
    }

    /** _cal_inflight_weight: the difference, or undefined behaviour. */
    method CalInflightWeight(now: int, load: Load) returns (r: Arith)
      requires Valid()
      modifies `weight
      ensures Valid()
      ensures var i := InflightWeight(base, beginTimeCount, beginTimeSum, avgLatency, dev, now, load);
              if i.Value? then weight == i.v && r == Value(weight - old(weight))
              else weight == old(weight) && r == Undefined
    {
      var i := InflightWeight(base, beginTimeCount, beginTimeSum, avgLatency, dev, now, load);
      match i
      case Undefined =>
        r := Undefined;
      case Value(v) =>
        r := Value(v - weight);
        weight := v;
    }

    method PushSample(latency: nat, end: int)
      requires Valid()
      modifies `timeQ, `samples
      ensures Valid() && samples == old(samples) + [Sample(latency, end)]
    {
      var info := TimeInfo(latency, end);
      if timeQ != [] {
        info := TimeInfo(latency + timeQ[|timeQ| - 1].latencySum, end);
      }
      QueueAfterPush(samples, Sample(latency, end));
      timeQ := ElimPush(timeQ, info);
      samples := samples + [Sample(latency, end)];
    }

    /** A full window gives the first quartile value, from the average. */
    ghost predicate QuartileSet(quartileBefore: int, firstBefore: bool)
      reads `samples, `avgLatency, `quartile, `firstQuartile
    {
      samples != [] &&
      if firstBefore && Elapsed(samples) > 0 && |samples| >= RECV_QUEUE_SIZE
      then quartile == MULTIPLE_OF_AVG_LATENCY * avgLatency && !firstQuartile
      else quartile == quartileBefore && firstQuartile == firstBefore
    }

    /** Throughput and average latency over the remembered samples; returns the scaled qps. */
    method Measure(latency: nat, deviation: nat) returns (scaledQps: int)
      requires Valid() && samples != [] && latency == samples[|samples| - 1].latency
      modifies `qps, `avgLatency, `dev, `quartile, `firstQuartile
      ensures Valid()
      ensures avgLatency == Average(samples) && qps == Qps(samples, old(qps))
      ensures scaledQps == ScaledQps(samples)
      ensures QuartileSet(old(quartile), old(firstQuartile))
    {
      var oldest, newest := timeQ[0], timeQ[|timeQ| - 1];
      var n := |timeQ|;
      QueueMeasures(timeQ, samples, qps);
      hide Average, Qps, ScaledQps, Queue, Window, Elapsed;
      scaledQps := DEFAULT_QPS * WEIGHT_SCALE;
      if newest.end > oldest.end {
        qps := (n - 1) * 1000000 / (newest.end - oldest.end);
        scaledQps := qps * WEIGHT_SCALE;
        if scaledQps < WEIGHT_SCALE {
          scaledQps := WEIGHT_SCALE;
        }
        avgLatency := (newest.latencySum - oldest.latencySum) / (n - 1);
        dev := deviation;
        if firstQuartile && n == RECV_QUEUE_SIZE {
          firstQuartile := false;
          quartile := MULTIPLE_OF_AVG_LATENCY * avgLatency;
        }
      } else {
        avgLatency := latency;
        dev := avgLatency;
      }
    }

    /** New base weight from the measurements, then the punishment for requests in flight. */
    method Rebase(scaledQps: int, now: int, load: Load) returns (r: Arith)
      requires Valid() && samples != []
      requires avgLatency == Average(samples) && scaledQps == ScaledQps(samples)
      modifies `base, `weight
      ensures Valid()
      ensures r.Value? ==> Rebased(now, load) && r.v == weight - old(weight) && Punishable()
      ensures Sensible(load) ==> (r.Value? <==> Computable())
    {
      NewBaseIsNonNegative(samples);
      match BaseWeight(scaledQps, avgLatency)
      case Undefined =>
        r := Undefined;
      case Value(b) =>
        base := b;
        FreshBaseIsPunishable(samples, beginTimeCount, beginTimeSum, dev, now, load);
        r := CalInflightWeight(now, load);
    }

    /** The average latency and the throughput allow a base weight to be computed. */
    ghost predicate Computable()
      reads `samples, `avgLatency
    {
      samples != [] && BaseWeight(ScaledQps(samples), avgLatency).Value?
    }

    /** Base and weight are what the two formulas give for the samples so far. */
    ghost predicate Rebased(now: int, load: Load)
      requires samples != []
      reads `samples, `base, `beginTimeCount, `beginTimeSum, `avgLatency, `dev, `weight
    {
      && BaseWeight(ScaledQps(samples), Average(samples)) == Value(base)
      && InflightWeight(base, beginTimeCount, beginTimeSum, avgLatency, dev, now, load) == Value(weight)
      && weight >= MIN_WEIGHT
    }

    /** The latest sample has been taken into account. */
    ghost predicate Measured(qpsBefore: int)
      reads `samples, `avgLatency, `qps
    {
      samples != [] && avgLatency == Average(samples) && qps == Qps(samples, qpsBefore)
    }

    /** The part of Update after its guards. */
    method Accept(latency: nat, end: int, deviation: nat, load: Load) returns (r: Arith)
      requires Valid()
      modifies `timeQ, `samples, `qps, `avgLatency, `dev, `quartile, `firstQuartile, `base, `weight
      ensures Valid() && samples == old(samples) + [Sample(latency, end)] && Measured(old(qps))
      ensures QuartileSet(old(quartile), old(firstQuartile))
      ensures r.Value? ==> Rebased(end, load) && r.v == weight - old(weight) && Punishable()
      ensures Sensible(load) ==> (r.Value? <==> Computable())
    {
      PushSample(latency, end);
      var scaledQps := Measure(latency, deviation);
      r := Rebase(scaledQps, end, load);
    }

    /** A request that began at `begin` has finished at `end`.  `deviation` stands for the
        square root the source takes of the latency variance. */
    method Update(begin: int, end: int, deviation: nat, load: Load) returns (r: Arith)
      requires Valid()
      modifies `timeQ, `samples, `qps, `avgLatency, `dev, `quartile, `firstQuartile, `base, `weight
      ensures Valid()
      ensures old(weight) == 0 || end < begin ==> r == Value(0) && unchanged(this)
      ensures old(weight) != 0 && end >= begin ==>
        && samples == old(samples) + [Sample(end - begin, end)]
        && Measured(old(qps)) && QuartileSet(old(quartile), old(firstQuartile))
        && (r.Value? ==> Rebased(end, load) && r.v == weight - old(weight) && Punishable())
        && (Sensible(load) ==> (r.Value? <==> Computable()))
    {
      if weight == 0 {
        return Value(0);
      }
      var latency := end - begin;
      if latency < 0 {
        return Value(0);
      }
      r := Accept(latency, end, deviation, load);
    }

    /** What a finished request leaves behind: nothing unless the instance is on line; else its
        sample, the measurements over the new window, and a weight recomputed from them.  It can
        be recomputed exactly when a base weight is computable. */
    ghost predicate Learned(before: seq<Sample>, qpsBefore: int, begin: int, end: int,
                            load: Load, defined: bool)
      reads `status, `samples, `qps, `base, `beginTimeCount, `beginTimeSum, `avgLatency, `dev, `weight
    {
      if status == OnLine && end >= begin then (
        && samples == before + [Sample(end - begin, end)] && Measured(qpsBefore)
        && (defined ==> Rebased(end, load))
        && (Sensible(load) ==> (defined <==> Computable()))
      ) else samples == before
    }

    /** The instance's part in the end of a request: the request is no longer in flight, and an
        instance that is on line learns from it. */
    method Finish(begin: int, end: int, deviation: nat, load: Load) returns (r: Arith)
      requires Valid() && Consistent()
      modifies `beginTimeSum, `beginTimeCount
      modifies `timeQ, `samples, `qps, `avgLatency, `dev, `quartile, `firstQuartile, `base, `weight
      ensures Valid() && (r.Value? ==> Consistent() && r.v == weight - old(weight))
      ensures beginTimeSum == old(beginTimeSum) - begin && beginTimeCount == old(beginTimeCount) - 1
      ensures status != OnLine || end < begin ==> r == Value(0)
      ensures Learned(old(samples), old(qps), begin, end, load, r.Value?)
      ensures old(Punishable()) && r.Value? ==> Punishable()
    {
      SubInflight(begin);
      r := Value(0);
      if status == OnLine {
        r := Update(begin, end, deviation, load);
      }
    }

    /** Called when selection lands on this instance, `dice` into its interval. */
    method RecalInflight(now: int, dice: int, load: Load) returns (chosen: bool, r: Arith)
      requires Valid()
      modifies `weight
      ensures Valid()
      ensures old(weight) == 0 ==> !chosen && r == Value(0) && weight == 0
      ensures old(weight) != 0 && r.Value? ==>
        && weight >= MIN_WEIGHT && r.v == weight - old(weight) && (chosen <==> dice <= weight)
        && InflightWeight(base, beginTimeCount, beginTimeSum, avgLatency, dev, now, load) == Value(weight)
      ensures r.Undefined? ==> weight == old(weight) && !chosen
      ensures Sensible(load) && Punishable() ==> r.Value?
    {
      if weight == 0 {
        return false, Value(0);
      }
      if Sensible(load) && Punishable() {
        PunishmentHalves(base, beginTimeCount, beginTimeSum, avgLatency, dev, now, load);
      }
      r := CalInflightWeight(now, load);
      chosen := r.Value? && !(weight < dice);
    }
  }
}
