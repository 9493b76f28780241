/** Latency budgets over recorded samples (crates/pengu-mesh-core/src/threshold.rs and the sample
    grouping of the scenario gate in crates/pengu-mesh-core/src/lib.rs). */
module Thresholds {
  import opened Common
  import opened OrderStatistics
  import ScenarioRecords

  datatype Threshold = Threshold(
    name: string, metric: string, maxMs: u64, p50: Option<u64>, p95: Option<u64>, p99: Option<u64>)

  datatype Violation = Violation(expected: nat, actual: nat, percentile: string)

  datatype ThresholdResult = ThresholdResult(
    name: string, metric: string, passed: bool, violations: seq<Violation>, samplesEvaluated: nat)

  const P50 := 0.50
  const P95 := 0.95
  const P99 := 0.99

  function Ceil(x: real): int {
    -((-x).Floor)
  }

  function Key(n: nat): Float {
    Finite(n as real)
  }

  /** Nearest rank. */
  function Percentile(sorted: seq<nat>, p: real): nat
    requires 0.0 < p <= 1.0
  {
    if sorted == [] then 0
    else
      var rank: int := Max(0, Ceil(p * |sorted| as real) - 1);
      sorted[Min(rank, |sorted| - 1)]
  }

  /** Of a hundred samples the percentiles are the 50th, the 95th and the 99th smallest. */
  lemma PercentilesOfHundred(sorted: seq<nat>)
    requires |sorted| == 100
    ensures Percentile(sorted, P50) == sorted[49]
    ensures Percentile(sorted, P95) == sorted[94]
    ensures Percentile(sorted, P99) == sorted[98]
  {
  }

  function Exceeded(percentile: string, budget: nat, actual: nat): seq<Violation> {
    if actual > budget then [Violation(budget, actual, percentile)] else []
  }

  function ExceededAt(percentile: string, budget: Option<u64>, sorted: seq<nat>, p: real): seq<Violation>
    requires 0.0 < p <= 1.0
  {
    if budget.None? then [] else Exceeded(percentile, budget.value, Percentile(sorted, p))
  }

  /** The violations of a nonempty sample list, in the order they are checked. */
  function Violations(t: Threshold, sorted: seq<nat>): seq<Violation>
    requires sorted != []
  {
    Exceeded("max", t.maxMs, sorted[|sorted| - 1])
    + ExceededAt("p50", t.p50, sorted, P50)
    + ExceededAt("p95", t.p95, sorted, P95)
    + ExceededAt("p99", t.p99, sorted, P99)
  }

  function Evaluate(t: Threshold, samples: seq<nat>): ThresholdResult {
    var violations := if samples == [] then [] else Violations(t, Sort(samples, Key));
    ThresholdResult(t.name, t.metric, violations == [], violations, |samples|)
  }

  method EvaluateThreshold(t: Threshold, samples: seq<nat>) returns (r: ThresholdResult)
    ensures r == Evaluate(t, samples)
  {
    if samples == [] {
      return ThresholdResult(t.name, t.metric, true, [], 0);
    }
    var sorted := Sort(samples, Key);
    var violations := CollectViolations(t, sorted);
    r := ThresholdResult(t.name, t.metric, violations == [], violations, |samples|);
  }

  method CollectViolations(t: Threshold, sorted: seq<nat>) returns (violations: seq<Violation>)
    requires sorted != []
    ensures violations == Violations(t, sorted)
  {
    hide Percentile, Exceeded;
    violations := Exceeded("max", t.maxMs, sorted[|sorted| - 1]);
    if t.p50.Some? {
      violations := violations + Exceeded("p50", t.p50.value, Percentile(sorted, P50));
    }
    if t.p95.Some? {
      violations := violations + Exceeded("p95", t.p95.value, Percentile(sorted, P95));
    }
    if t.p99.Some? {
      violations := violations + Exceeded("p99", t.p99.value, Percentile(sorted, P99));
    }
  }

  /** What a violation says: a budget that the threshold sets under that label, and a sample above it;
      for the maximum it is the largest one. */
  predicate IsViolation(t: Threshold, samples: seq<nat>, v: Violation) {
    && v.actual > v.expected && v.actual in samples
    && ((v.percentile == "max" && v.expected == t.maxMs && forall s | s in samples :: s <= v.actual)
        || (v.percentile == "p50" && t.p50 == Some(v.expected))
        || (v.percentile == "p95" && t.p95 == Some(v.expected))
        || (v.percentile == "p99" && t.p99 == Some(v.expected)))
  }

  /** The report of an evaluation: it is about this threshold and all samples, each violation is one, no
      label occurs twice, and it passes exactly if there is none. */
  lemma ReportMeans(t: Threshold, samples: seq<nat>)
    ensures var r := Evaluate(t, samples);
      && r.name == t.name && r.metric == t.metric && r.samplesEvaluated == |samples|
      && (forall v | v in r.violations :: IsViolation(t, samples, v))
      && LabelsDiffer(r.violations)
      && (r.passed <==> r.violations == [])
  {
    if samples != [] {
      var sorted := Sort(samples, Key);
      SortedEnds(samples);
      ViolationsMean(t, sorted);
      hide Violations, Sort;
      forall v | v in Violations(t, sorted) ensures IsViolation(t, samples, v) {
        assert IsViolation(t, sorted, v);
      }
    }
  }

  predicate LabelsDiffer(violations: seq<Violation>) {
    forall i, j | 0 <= i < j < |violations| :: violations[i].percentile != violations[j].percentile
  }

  lemma SortedEnds(samples: seq<nat>)
    requires samples != []
    ensures var sorted := Sort(samples, Key);
      && sorted != []
      && (forall s :: s in sorted <==> s in samples)
      && (forall s | s in sorted :: s <= sorted[|sorted| - 1])
  {
    hide Sort;
    var sorted := Sort(samples, Key);
    SortSorted(samples, Key);
    forall s ensures s in sorted <==> s in samples {
      assert s in multiset(sorted) <==> s in multiset(samples);
    }
    forall s | s in sorted ensures s <= sorted[|sorted| - 1] {
      var k :| 0 <= k < |sorted| && sorted[k] == s;
      assert k < |sorted| - 1 ==> AtMost(Key(sorted[k]), Key(sorted[|sorted| - 1]));
    }
  }

  lemma ViolationsMean(t: Threshold, sorted: seq<nat>)
    requires sorted != []
    requires forall s | s in sorted :: s <= sorted[|sorted| - 1]
    ensures LabelsDiffer(Violations(t, sorted))
    ensures forall v | v in Violations(t, sorted) :: IsViolation(t, sorted, v)
  {
    PartMeans("p50", t.p50, sorted, P50);
    PartMeans("p95", t.p95, sorted, P95);
    PartMeans("p99", t.p99, sorted, P99);
    assert "p50"[1..] == "50" && "p95"[1..] == "95" && "p99"[1..] == "99";
    hide ExceededAt;
  }

  lemma PartMeans(percentile: string, budget: Option<u64>, sorted: seq<nat>, p: real)
    requires sorted != [] && 0.0 < p <= 1.0
    ensures var part := ExceededAt(percentile, budget, sorted, p);
      && |part| <= 1
      && (forall v | v in part :: v.percentile == percentile && budget == Some(v.expected)
                                  && v.actual > v.expected && v.actual in sorted)
  {
    PercentileIsSample(sorted, p);
    hide Percentile;
  }

  lemma PercentileIsSample(sorted: seq<nat>, p: real)
    requires sorted != [] && 0.0 < p <= 1.0
    ensures Percentile(sorted, p) in sorted
  {
  }

  // ----- rounding

  /** The whole milliseconds a sample is charged with; the cast to 64 bits saturates. */
  function LatencySampleBudgetMs(ms: Float): (n: nat)
    ensures n <= U64_MAX
  {
    if !ms.Finite? || ms.value <= 0.0 then 0 else Min(Ceil(ms.value), U64_MAX)
  }

  function Rounded(raw: seq<Float>): (samples: seq<nat>)
    ensures |samples| == |raw|
    ensures forall i | 0 <= i < |raw| :: samples[i] == LatencySampleBudgetMs(raw[i])
  {
    if raw == [] then [] else Rounded(raw[..|raw| - 1]) + [LatencySampleBudgetMs(raw[|raw| - 1])]
  }

  /** A sample is within a budget if it is a number of milliseconds not above it. */
  predicate Within(ms: Float, budget: nat) {
    ms.Finite? && ms.value <= budget as real
  }

  /** Samples that are numbers of milliseconds a 64-bit count can hold. */
  predicate Countable(ms: Float) {
    ms.Finite? && ms.value <= U64_MAX as real
  }

  function CountWithin(raw: seq<Float>, budget: nat): (n: nat)
    ensures n <= |raw|
  {
    if raw == [] then 0
    else CountWithin(raw[..|raw| - 1], budget) + if Within(raw[|raw| - 1], budget) then 1 else 0
  }

  lemma RoundingKeepsBudget(ms: Float, budget: nat)
    requires Countable(ms)
    ensures LatencySampleBudgetMs(ms) <= budget <==> Within(ms, budget)
  {
  }

  lemma KeyOrder(n: nat, budget: nat)
    ensures AtMost(Key(n), Finite(budget as real)) <==> n <= budget
  {
  }

  lemma RoundedLast(raw: seq<Float>)
    requires raw != []
    ensures var n := |raw| - 1;
      Rounded(raw)[..n] == Rounded(raw[..n]) && Rounded(raw)[n] == LatencySampleBudgetMs(raw[n])
  {
  }

  /** Rounding up moves no sample across a whole number of milliseconds. */
  lemma {:induction false} CountOfRounded(raw: seq<Float>, budget: nat)
    requires forall s :: s in raw ==> Countable(s)
    ensures CountLe(Rounded(raw), Key, Finite(budget as real)) == CountWithin(raw, budget)
  {
    hide Rounded, LatencySampleBudgetMs, Within, Countable, AtMost, Key;
    if raw == [] {
    } else {
      var n := |raw| - 1;
      assert raw[n] in raw;
      assert forall s :: s in raw[..n] ==> s in raw;
      CountOfRounded(raw[..n], budget);
      RoundedLast(raw);
      KeyOrder(LatencySampleBudgetMs(raw[n]), budget);
      RoundingKeepsBudget(raw[n], budget);
    }
  }

  // ----- the verdict

  /** A percentile budget is met if at least that share of the raw samples, rounded up, is within it. */
  predicate Meets(raw: seq<Float>, budget: Option<u64>, p: real) {
    budget.Some? ==> CountWithin(raw, budget.value) >= Ceil(p * |raw| as real)
  }

  /** What the threshold asks of the raw samples, without rounding, sorting or ranks. */
  ghost predicate Asked(t: Threshold, raw: seq<Float>) {
    && (forall s :: s in raw ==> Within(s, t.maxMs))
    && Meets(raw, t.p50, P50) && Meets(raw, t.p95, P95) && Meets(raw, t.p99, P99)
  }

  lemma PercentileMeets(raw: seq<Float>, budget: u64, p: real)
    requires raw != [] && 0.0 < p <= 1.0
    requires forall s :: s in raw ==> Countable(s)
    ensures Percentile(Sort(Rounded(raw), Key), p) <= budget <==> Meets(raw, Some(budget), p)
  {
    hide Sort, Rounded, CountLe, CountWithin, Ceil, Percentile, AtMost, Key;
    var sorted, k := Sort(Rounded(raw), Key), RankOf(|raw|, p);
    assert |sorted| == |raw|;
    PercentileAt(sorted, p);
    assert Percentile(sorted, p) == sorted[k];
    KeyOrder(sorted[k], budget);
    RankIsCount(Rounded(raw), Key, Finite(budget as real), k);
    CountOfRounded(raw, budget);
    assert Meets(raw, Some(budget), p) <==> CountWithin(raw, budget) > k;
  }

  function RankOf(n: nat, p: real): (k: nat)
    requires n > 0 && 0.0 < p <= 1.0
    ensures k < n && k == Ceil(p * n as real) - 1
  {
    PercentileRank(n, p);
    Ceil(p * n as real) - 1
  }

  lemma PercentileAt(sorted: seq<nat>, p: real)
    requires sorted != [] && 0.0 < p <= 1.0
    ensures Percentile(sorted, p) == sorted[RankOf(|sorted|, p)]
  {
  }

  lemma PercentileRank(n: nat, p: real)
    requires n > 0 && 0.0 < p <= 1.0
    ensures 1 <= Ceil(p * n as real) <= n
  {
  }

  lemma MaximumMeets(raw: seq<Float>, budget: nat)
    requires raw != [] && forall s :: s in raw ==> Countable(s)
    ensures Sort(Rounded(raw), Key)[|raw| - 1] <= budget <==> forall s :: s in raw ==> Within(s, budget)
  {
    hide Sort, Rounded, CountLe, CountWithin, Within, AtMost, Key;
    KeyOrder(Sort(Rounded(raw), Key)[|raw| - 1], budget);
    RankIsCount(Rounded(raw), Key, Finite(budget as real), |raw| - 1);
    CountOfRounded(raw, budget);
    CountAll(raw, budget);
  }

  lemma {:induction false} CountAll(raw: seq<Float>, budget: nat)
    ensures CountWithin(raw, budget) == |raw| <==> forall s :: s in raw ==> Within(s, budget)
  {
    if raw == [] {
    } else {
      CountAll(raw[..|raw| - 1], budget);
      assert raw == raw[..|raw| - 1] + [raw[|raw| - 1]];
    }
  }

  lemma PassedMeans(t: Threshold, samples: seq<nat>)
    requires samples != []
    ensures var sorted := Sort(samples, Key);
      Evaluate(t, samples).passed <==>
        && sorted[|sorted| - 1] <= t.maxMs
        && (t.p50.Some? ==> Percentile(sorted, P50) <= t.p50.value)
        && (t.p95.Some? ==> Percentile(sorted, P95) <= t.p95.value)
        && (t.p99.Some? ==> Percentile(sorted, P99) <= t.p99.value)
  {
    hide Sort, Percentile;
  }

  lemma VerdictOnCountable(t: Threshold, raw: seq<Float>)
    requires raw != [] && forall s :: s in raw ==> Countable(s)
    ensures Evaluate(t, Rounded(raw)).passed <==> Asked(t, raw)
  {
    hide Evaluate, Sort, Rounded, Percentile, CountWithin, Ceil, Within;
    PassedMeans(t, Rounded(raw));
    MaximumMeets(raw, t.maxMs);
    if t.p50.Some? { PercentileMeets(raw, t.p50.value, P50); }
    if t.p95.Some? { PercentileMeets(raw, t.p95.value, P95); }
    if t.p99.Some? { PercentileMeets(raw, t.p99.value, P99); }
  }

  /** What a sample is charged as: an infinity or NaN as no time, too large a number as the largest. */
  function Charged(ms: Float): Float {
    if !ms.Finite? then Finite(0.0) else if Countable(ms) then ms else Finite(U64_MAX as real)
  }

  function AsCharged(raw: seq<Float>): (c: seq<Float>)
    ensures |c| == |raw| && forall i | 0 <= i < |raw| :: c[i] == Charged(raw[i])
  {
    seq(|raw|, i requires 0 <= i < |raw| => Charged(raw[i]))
  }

  lemma ChargedRoundsAlike(raw: seq<Float>)
    ensures Rounded(AsCharged(raw)) == Rounded(raw)
    ensures forall s :: s in AsCharged(raw) ==> Countable(s)
    ensures (forall s :: s in raw ==> Countable(s)) ==> AsCharged(raw) == raw
  {
    assert forall i | 0 <= i < |raw| :: raw[i] in raw;
  }

  /** The verdict on the rounded samples, whatever they are, is what the threshold asks of the
      samples as charged; so it is what it asks of the raw ones if each is a number of milliseconds
      below 2^64. Rounding up and nearest ranks lose nothing. */
  lemma VerdictIsExact(t: Threshold, raw: seq<Float>)
    requires raw != []
    ensures Evaluate(t, Rounded(raw)).passed <==> Asked(t, AsCharged(raw))
    ensures (forall s :: s in raw ==> Countable(s)) ==> (Evaluate(t, Rounded(raw)).passed <==> Asked(t, raw))
  {
    hide Evaluate, Asked, Rounded, Charged, AsCharged;
    ChargedRoundsAlike(raw);
    VerdictOnCountable(t, AsCharged(raw));
  }

  lemma AskedOnlyOfCountable(t: Threshold, raw: seq<Float>)
    ensures Asked(t, raw) ==> forall s :: s in raw ==> Countable(s)
  {
  }

  /** For one threshold the verdict is what it asks of the raw samples exactly if they are all
      countable or it is not even met by the samples as charged. */
  lemma VerdictIsExactFor(t: Threshold, raw: seq<Float>)
    requires raw != []
    ensures (Evaluate(t, Rounded(raw)).passed <==> Asked(t, raw))
      <==> (forall s :: s in raw ==> Countable(s)) || !Asked(t, AsCharged(raw))
  {
    hide Evaluate, Asked, Rounded, Countable, AsCharged;
    VerdictIsExact(t, raw);
    AskedOnlyOfCountable(t, raw);
  }

  /** The samples every threshold judges as it should: those that are all finite and below 2^64 ms.
      Any other list passes some threshold that it does not meet. */
  lemma VerdictIsExactExactly(raw: seq<Float>)
    requires raw != []
    ensures (forall t :: Evaluate(t, Rounded(raw)).passed <==> Asked(t, raw))
      <==> (forall s :: s in raw ==> Countable(s))
  {
    hide Evaluate, Asked, Rounded, Countable, Sort, Percentile;
    if forall s :: s in raw ==> Countable(s) {
      forall t ensures Evaluate(t, Rounded(raw)).passed <==> Asked(t, raw) {
        VerdictIsExact(t, raw);
      }
    } else {
      var lenient := Threshold("", "", U64_MAX, None, None, None);
      PassedMeans(lenient, Rounded(raw));
      SortedIsSmall(raw);
      AskedOnlyOfCountable(lenient, raw);
    }
  }

  lemma SortedIsSmall(raw: seq<Float>)
    requires raw != []
    ensures Sort(Rounded(raw), Key)[|raw| - 1] <= U64_MAX
  {
    hide Sort, Rounded, LatencySampleBudgetMs, Key;
    var rounded, sorted := Rounded(raw), Sort(Rounded(raw), Key);
    assert sorted[|raw| - 1] in multiset(sorted);
    assert sorted[|raw| - 1] in rounded;
    var i :| 0 <= i < |rounded| && rounded[i] == sorted[|raw| - 1];
    assert rounded[i] == LatencySampleBudgetMs(raw[i]);
  }

  /** One infinite sample passes every threshold, although it is within none. */
  lemma InfinitePasses(t: Threshold)
    ensures Evaluate(t, Rounded([Infinity])).passed && !Asked(t, [Infinity])
  {
    var raw := [Infinity];
    VerdictIsExact(t, raw);
    assert AsCharged(raw) == [Finite(0.0)];
    assert CountWithin(AsCharged(raw)[..0], t.maxMs) == 0;
    forall b: nat ensures CountWithin([Finite(0.0)], b) == 1 {
      assert [Finite(0.0)][..0] == [];
    }
    PercentileRank(1, P50);
    PercentileRank(1, P95);
    PercentileRank(1, P99);
    assert Infinity in raw;
  }

  // ----- the scenario gate

  type Sample = ScenarioRecords.Sample

  /** The samples of one metric over all listed runs, in the order they are listed. */
  function RawOf(samples: seq<Sample>, metric: string): seq<Float> {
    if samples == [] then []
    else
      var last := samples[|samples| - 1];
      RawOf(samples[..|samples| - 1], metric) + if last.metric == metric then [last.ms] else []
  }

  function Flatten(runs: seq<seq<Sample>>): seq<Sample> {
    if runs == [] then [] else Flatten(runs[..|runs| - 1]) + runs[|runs| - 1]
  }

  ghost predicate Grouped(m: map<string, seq<nat>>, samples: seq<Sample>) {
    && (forall k :: k in m <==> exists s :: s in samples && s.metric == k)
    && (forall k | k in m :: m[k] == Rounded(RawOf(samples, k)))
  }

  method SamplesByMetric(runs: seq<seq<Sample>>) returns (m: map<string, seq<nat>>)
    ensures Grouped(m, Flatten(runs))
  {
    m := map[];
    ghost var done: seq<Sample> := [];
    for i := 0 to |runs|
      invariant done == Flatten(runs[..i]) && Grouped(m, done)
    {
      ghost var start := done;
      for j := 0 to |runs[i]|
        invariant done == start + runs[i][..j] && Grouped(m, done)
      {
        var sample := runs[i][j];
        var budget := LatencySampleBudgetMs(sample.ms);
        GroupedNext(m, done, sample);
        m := m[sample.metric := (if sample.metric in m then m[sample.metric] else []) + [budget]];
        assert runs[i][..j + 1] == runs[i][..j] + [sample];
        done := done + [sample];
      }
      assert runs[i][..|runs[i]|] == runs[i] && runs[..i + 1][..i] == runs[..i];
    }
    assert runs[..|runs|] == runs;
  }

  lemma GroupedNext(m: map<string, seq<nat>>, samples: seq<Sample>, sample: Sample)
    requires Grouped(m, samples)
    ensures var group := (if sample.metric in m then m[sample.metric] else []) + [LatencySampleBudgetMs(sample.ms)];
      Grouped(m[sample.metric := group], samples + [sample])
  {
    hide Rounded, RawOf, LatencySampleBudgetMs;
    var all := samples + [sample];
    var metric := sample.metric;
    var m' := m[metric := (if metric in m then m[metric] else []) + [LatencySampleBudgetMs(sample.ms)]];
    RawOfNothing(samples, metric);
    RoundedNext(RawOf(samples, metric), sample.ms);
    forall k ensures RawOf(all, k) == RawOf(samples, k) + if metric == k then [sample.ms] else [] {
      RawOfNext(samples, sample, k);
    }
    forall k ensures k in m' <==> exists s :: s in all && s.metric == k {
      if s :| s in samples && s.metric == k { assert s in all; }
      assert sample in all;
    }
  }

  lemma RawOfNext(samples: seq<Sample>, sample: Sample, metric: string)
    ensures RawOf(samples + [sample], metric)
         == RawOf(samples, metric) + if sample.metric == metric then [sample.ms] else []
  {
  }

  lemma RoundedNext(raw: seq<Float>, ms: Float)
    ensures Rounded(raw + [ms]) == Rounded(raw) + [LatencySampleBudgetMs(ms)]
    ensures Rounded([]) == []
  {
  }

  lemma {:induction false} RawOfNothing(samples: seq<Sample>, metric: string)
    ensures RawOf(samples, metric) == [] <==> forall s :: s in samples ==> s.metric != metric
  {
    if samples == [] {
    } else {
      var n := |samples| - 1;
      RawOfNothing(samples[..n], metric);
      assert samples == samples[..n] + [samples[n]];
    }
  }

  /** A threshold whose metric has no samples is evaluated on none. */
  function EvaluateThresholds(thresholds: seq<Threshold>, m: map<string, seq<nat>>): (results: seq<ThresholdResult>)
    ensures |results| == |thresholds|
    ensures forall i | 0 <= i < |thresholds| ::
      results[i] == Evaluate(thresholds[i], if thresholds[i].metric in m then m[thresholds[i].metric] else [])
  {
    seq(|thresholds|, i requires 0 <= i < |thresholds| =>
      Evaluate(thresholds[i], if thresholds[i].metric in m then m[thresholds[i].metric] else []))
  }

  /** The gate's verdict on each threshold is what it asks of the samples of its own metric over all
      listed runs, as charged; of the raw ones if those are countable, whatever the other metrics
      hold. A threshold without samples passes. */
  lemma GateVerdict(thresholds: seq<Threshold>, samples: seq<Sample>, m: map<string, seq<nat>>, i: nat)
    requires Grouped(m, samples) && i < |thresholds|
    ensures var t, raw := thresholds[i], RawOf(samples, thresholds[i].metric);
      && EvaluateThresholds(thresholds, m)[i].samplesEvaluated == |raw|
      && (EvaluateThresholds(thresholds, m)[i].passed <==> raw == [] || Asked(t, AsCharged(raw)))
      && ((forall s :: s in samples && s.metric == t.metric ==> Countable(s.ms)) ==>
            (EvaluateThresholds(thresholds, m)[i].passed <==> raw == [] || Asked(t, raw)))
  {
    hide Asked, Violations, Countable;
    var t := thresholds[i];
    var raw := RawOf(samples, t.metric);
    RawOfNothing(samples, t.metric);
    RawOfIsOfMetric(samples, t.metric);
    if raw != [] {
      VerdictIsExact(t, raw);
    }
  }

  lemma {:induction false} RawOfIsOfMetric(samples: seq<Sample>, metric: string)
    ensures forall ms :: ms in RawOf(samples, metric) ==> exists s :: s in samples && s.metric == metric && s.ms == ms
  {
    if samples == [] {
    } else {
      var n := |samples| - 1;
      assert samples == samples[..n] + [samples[n]];
      RawOfIsOfMetric(samples[..n], metric);
    }
  }
}
