/** The one-pass summary of scenario runs by family (crates/pengu-mesh-core/src/lib.rs), compared
    with grouping the runs first and summing each group. */
module ScenarioSummaries {
  import opened Common
  import opened Counting
  import opened FirstSeenOrder
  import opened OrderStatistics

  /** A listed run with the statuses of its assertions and its latency samples. */
  datatype RunRow = RunRow(
    id: string, family: string, status: string, startedAt: string, commitSha: Option<string>,
    assertions: seq<string>, latencies: seq<Float>)

  datatype Latest = Latest(runId: string, status: string, startedAt: string, commitSha: Option<string>)

  datatype Builder = Builder(
    family: string, runs: nat, statuses: map<string, nat>, assertionTotal: nat, assertionFailures: nat,
    latencies: seq<Float>, latest: Option<Latest>)

  function Empty(family: string): Builder {
    Builder(family, 0, map[], 0, 0, [], None)
  }

  function Failures(assertions: seq<string>): (n: nat)
    ensures n <= |assertions|
  {
    if assertions == [] then 0
    else Failures(assertions[..|assertions| - 1]) + if assertions[|assertions| - 1] != "passed" then 1 else 0
  }

  /** Every assertion whose status is not "passed" is a failure. */
  lemma {:induction false} FailuresAreTheRest(assertions: seq<string>)
    ensures Failures(assertions) + multiset(assertions)["passed"] == |assertions|
  {
    if assertions == [] {
    } else {
      var n := |assertions| - 1;
      assert assertions == assertions[..n] + [assertions[n]];
      FailuresAreTheRest(assertions[..n]);
    }
  }

  function LatestOf(row: RunRow): Latest {
    Latest(row.id, row.status, row.startedAt, row.commitSha)
  }

  method CountFailures(assertions: seq<string>) returns (n: nat)
    ensures n == Failures(assertions)
  {
    n := 0;
    for i := 0 to |assertions|
      invariant n == Failures(assertions[..i])
    {
      assert assertions[..i + 1][..i] == assertions[..i];
      if assertions[i] != "passed" {
        n := n + 1;
      }
    }
    assert assertions[..|assertions|] == assertions;
  }

  // ----- grouping first

  function Families(rows: seq<RunRow>): (families: seq<string>)
    ensures |families| == |rows| && forall i | 0 <= i < |rows| :: families[i] == rows[i].family
  {
    seq(|rows|, i requires 0 <= i < |rows| => rows[i].family)
  }

  function RowsOf(rows: seq<RunRow>, family: string): seq<RunRow> {
    if rows == [] then []
    else
      var last := rows[|rows| - 1];
      RowsOf(rows[..|rows| - 1], family) + if last.family == family then [last] else []
  }

  function StatusCount(rows: seq<RunRow>, status: string): nat {
    if rows == [] then 0
    else StatusCount(rows[..|rows| - 1], status) + if rows[|rows| - 1].status == status then 1 else 0
  }

  function Statuses(rows: seq<RunRow>): (statuses: seq<string>)
    ensures |statuses| == |rows| && forall i | 0 <= i < |rows| :: statuses[i] == rows[i].status
  {
    seq(|rows|, i requires 0 <= i < |rows| => rows[i].status)
  }

  /** A status counts the runs that have it. */
  lemma {:induction false} StatusCountMeans(rows: seq<RunRow>, status: string)
    ensures StatusCount(rows, status) == multiset(Statuses(rows))[status]
  {
    if rows == [] {
    } else {
      var n := |rows| - 1;
      assert Statuses(rows) == Statuses(rows[..n]) + [rows[n].status];
      StatusCountMeans(rows[..n], status);
    }
  }

  /** The runs of a family are those that name it, in order. */
  lemma {:induction false} RowsOfMeans(rows: seq<RunRow>, family: string)
    ensures forall row :: multiset(RowsOf(rows, family))[row] == if row.family == family then multiset(rows)[row] else 0
  {
    if rows == [] {
    } else {
      var n := |rows| - 1;
      assert rows == rows[..n] + [rows[n]];
      RowsOfMeans(rows[..n], family);
    }
  }

  function AssertionTotal(rows: seq<RunRow>): nat {
    if rows == [] then 0 else AssertionTotal(rows[..|rows| - 1]) + |rows[|rows| - 1].assertions|
  }

  function AssertionFailures(rows: seq<RunRow>): nat {
    if rows == [] then 0 else AssertionFailures(rows[..|rows| - 1]) + Failures(rows[|rows| - 1].assertions)
  }

  function Latencies(rows: seq<RunRow>): seq<Float> {
    if rows == [] then [] else Latencies(rows[..|rows| - 1]) + rows[|rows| - 1].latencies
  }

  /** `b` is the summary of one family's runs: every figure counts or collects over exactly those
      runs, and the latest run is the first one listed. */
  ghost predicate Summarizes(b: Builder, rows: seq<RunRow>) {
    && b.runs == |rows|
    && (forall s ::
          if StatusCount(rows, s) == 0 then s !in b.statuses
          else s in b.statuses && b.statuses[s] == StatusCount(rows, s))
    && b.assertionTotal == AssertionTotal(rows)
    && b.assertionFailures == AssertionFailures(rows)
    && b.latencies == Latencies(rows)
    && (if rows == [] then b.latest.None?
        else
          && b.latest.Some? && b.latest.value.runId == rows[0].id && b.latest.value.status == rows[0].status
          && b.latest.value.startedAt == rows[0].startedAt && b.latest.value.commitSha == rows[0].commitSha)
  }

  /** One builder per family, in first-seen order, each summarizing its family's runs. */
  ghost predicate GroupedBy(builders: seq<Builder>, rows: seq<RunRow>) {
    && |builders| == |FirstSeen(Families(rows))|
    && forall i | 0 <= i < |builders| ::
         builders[i].family == FirstSeen(Families(rows))[i] && Summarizes(builders[i], RowsOf(rows, builders[i].family))
  }

  method ScenarioSummary(rows: seq<RunRow>) returns (families: seq<Builder>)
    ensures GroupedBy(families, rows)
  {
    families := [];
    for k := 0 to |rows|
      invariant GroupedBy(families, rows[..k])
    {
      var run := rows[k];
      ghost var before := families;
      var index := PositionOf(families, run.family);
      if index == |families| {
        families := families + [Empty(run.family)];
      }
      var failures := CountFailures(run.assertions);
      families := families[index := Add(families[index], run, failures)];
      assert rows[..k + 1] == rows[..k] + [run];
      AddedRow(before, rows[..k], run, index, families);
    }
    assert rows[..|rows|] == rows;
  }

  /** The updates one run makes to its family's builder. */
  function Add(b: Builder, run: RunRow, failures: nat): Builder {
    b.(runs := b.runs + 1,
       statuses := b.statuses[run.status := (if run.status in b.statuses then b.statuses[run.status] else 0) + 1],
       latest := if b.latest.None? then Some(LatestOf(run)) else b.latest,
       assertionTotal := b.assertionTotal + |run.assertions|,
       assertionFailures := b.assertionFailures + failures,
       latencies := b.latencies + run.latencies)
  }

  method PositionOf(families: seq<Builder>, family: string) returns (index: nat)
    ensures index <= |families|
    ensures forall i | 0 <= i < index :: families[i].family != family
    ensures index < |families| ==> families[index].family == family
  {
    index := 0;
    while index < |families|
      invariant index <= |families|
      invariant forall i | 0 <= i < index :: families[i].family != family
    {
      if families[index].family == family {
        return;
      }
      index := index + 1;
    }
  }

  lemma AddSummarizes(b: Builder, rows: seq<RunRow>, run: RunRow)
    requires Summarizes(b, rows)
    ensures Summarizes(Add(b, run, Failures(run.assertions)), rows + [run])
  {
  }

  lemma RowsOfNext(rows: seq<RunRow>, run: RunRow, family: string)
    ensures RowsOf(rows + [run], family) == RowsOf(rows, family) + if run.family == family then [run] else []
  {
  }

  lemma {:induction false} RowsOfNone(rows: seq<RunRow>, family: string)
    requires family !in Families(rows)
    ensures RowsOf(rows, family) == []
  {
    if rows == [] {
    } else {
      var n := |rows| - 1;
      assert Families(rows)[n] == rows[n].family;
      assert Families(rows[..n]) == Families(rows)[..n];
      RowsOfNone(rows[..n], family);
    }
  }

  lemma AddedRow(before: seq<Builder>, rows: seq<RunRow>, run: RunRow, index: nat, after: seq<Builder>)
    requires GroupedBy(before, rows) && index <= |before|
    requires forall i | 0 <= i < index :: before[i].family != run.family
    requires index < |before| ==> before[index].family == run.family
    requires after == (if index == |before| then before + [Empty(run.family)] else before)[
      index := Add(if index == |before| then Empty(run.family) else before[index], run, Failures(run.assertions))]
    ensures GroupedBy(after, rows + [run])
  {
    hide Summarizes;
    var all := rows + [run];
    var seen := FirstSeen(Families(rows));
    FirstSeenIsOrderedDedup(Families(rows));
    assert Families(all)[..|rows|] == Families(rows) && Families(all)[|rows|] == run.family;
    if index == |before| {
      assert forall i | 0 <= i < |seen| :: seen[i] == before[i].family;
      RowsOfNone(rows, run.family);
      EmptySummarizes(run.family);
      AddSummarizes(Empty(run.family), [], run);
    } else {
      assert seen[index] == run.family;
      AddSummarizes(before[index], RowsOf(rows, run.family), run);
    }
    forall i | 0 <= i < |after|
      ensures after[i].family == FirstSeen(Families(all))[i]
      ensures Summarizes(after[i], RowsOf(all, after[i].family))
    {
      RowsOfNext(rows, run, after[i].family);
      if i != index {
        assert after[i] == before[i] && seen[i] == before[i].family != run.family;
        assert RowsOf(rows, after[i].family) + [] == RowsOf(rows, after[i].family);
      } else {
        assert [] + [run] == [run];
      }
    }
  }

  lemma EmptySummarizes(family: string)
    ensures Summarizes(Empty(family), [])
  {
  }

  // ----- conservation

  datatype Totals = Totals(runs: nat, assertions: nat, failures: nat, latencies: multiset<Float>)

  function Plus(a: Totals, b: Totals): Totals {
    Totals(a.runs + b.runs, a.assertions + b.assertions, a.failures + b.failures, a.latencies + b.latencies)
  }

  const NOTHING := Totals(0, 0, 0, multiset{})

  function TotalsOfRun(run: RunRow): Totals {
    Totals(1, |run.assertions|, Failures(run.assertions), multiset(run.latencies))
  }

  function TotalsOfRuns(rows: seq<RunRow>): Totals {
    if rows == [] then NOTHING else Plus(TotalsOfRuns(rows[..|rows| - 1]), TotalsOfRun(rows[|rows| - 1]))
  }

  function TotalsOfBuilders(builders: seq<Builder>): Totals {
    if builders == [] then NOTHING
    else
      var b := builders[|builders| - 1];
      Plus(TotalsOfBuilders(builders[..|builders| - 1]),
           Totals(b.runs, b.assertionTotal, b.assertionFailures, multiset(b.latencies)))
  }

  function TotalsByFamily(families: seq<string>, rows: seq<RunRow>): Totals {
    if families == [] then NOTHING
    else Plus(TotalsByFamily(families[..|families| - 1], rows), TotalsOfRuns(RowsOf(rows, families[|families| - 1])))
  }

  /** Nothing is counted twice or dropped: over all families the runs, assertions, failures and
      latency samples add up to those of the listed runs, and within a family the status counts
      add up to its runs. */
  lemma SummaryConserves(builders: seq<Builder>, rows: seq<RunRow>)
    requires GroupedBy(builders, rows)
    ensures TotalsOfBuilders(builders) == TotalsOfRuns(rows)
    ensures forall i | 0 <= i < |builders| :: SumOf(builders[i].statuses) == builders[i].runs
  {
    hide Summarizes;
    var families := FirstSeen(Families(rows));
    FirstSeenIsOrderedDedup(Families(rows));
    forall i | 0 <= i < |rows| ensures rows[i].family in families {
      assert Families(rows)[i] in Families(rows);
    }
    AllFamiliesCounted(families, rows);
    BuildersCarryTotals(builders, families, rows);
    forall i | 0 <= i < |builders| ensures SumOf(builders[i].statuses) == builders[i].runs {
      SummaryStatuses(builders[i], RowsOf(rows, builders[i].family));
    }
  }

  lemma {:induction false} BuildersCarryTotals(builders: seq<Builder>, families: seq<string>, rows: seq<RunRow>)
    requires |builders| == |families|
    requires forall i | 0 <= i < |builders| :: Summarizes(builders[i], RowsOf(rows, families[i]))
    ensures TotalsOfBuilders(builders) == TotalsByFamily(families, rows)
  {
    hide Summarizes;
    if builders == [] {
    } else {
      var n := |builders| - 1;
      BuildersCarryTotals(builders[..n], families[..n], rows);
      SummaryTotals(builders[n], RowsOf(rows, families[n]));
    }
  }

  lemma SummaryTotals(b: Builder, rows: seq<RunRow>)
    requires Summarizes(b, rows)
    ensures Totals(b.runs, b.assertionTotal, b.assertionFailures, multiset(b.latencies)) == TotalsOfRuns(rows)
  {
    TotalsOfRunsIs(rows);
  }

  lemma {:induction false} TotalsOfRunsIs(rows: seq<RunRow>)
    ensures TotalsOfRuns(rows)
         == Totals(|rows|, AssertionTotal(rows), AssertionFailures(rows), multiset(Latencies(rows)))
  {
    if rows == [] {
    } else {
      TotalsOfRunsIs(rows[..|rows| - 1]);
    }
  }

  lemma PlusNothing(t: Totals)
    ensures Plus(t, NOTHING) == t
  {
  }

  lemma PlusMoves(a: Totals, b: Totals, c: Totals)
    ensures Plus(Plus(a, b), c) == Plus(Plus(a, c), b) == Plus(a, Plus(b, c))
  {
  }

  lemma {:induction false} AllFamiliesCounted(families: seq<string>, rows: seq<RunRow>)
    requires Distinct(families) && forall i | 0 <= i < |rows| :: rows[i].family in families
    ensures TotalsByFamily(families, rows) == TotalsOfRuns(rows)
  {
    hide Plus, TotalsByFamily;
    if rows == [] {
      NoRunsNoTotals(families);
    } else {
      var n := |rows| - 1;
      AllFamiliesCounted(families, rows[..n]);
      OneMoreRun(families, rows[..n], rows[n]);
      assert rows == rows[..n] + [rows[n]];
    }
  }

  lemma {:induction false} NoRunsNoTotals(families: seq<string>)
    ensures TotalsByFamily(families, []) == NOTHING
  {
    hide Plus;
    if families == [] {
    } else {
      NoRunsNoTotals(families[..|families| - 1]);
      PlusNothing(NOTHING);
    }
  }

  lemma {:induction false} OneMoreRun(families: seq<string>, rows: seq<RunRow>, run: RunRow)
    requires Distinct(families)
    ensures TotalsByFamily(families, rows + [run]) ==
      if run.family in families then Plus(TotalsByFamily(families, rows), TotalsOfRun(run))
      else TotalsByFamily(families, rows)
  {
    hide Plus, RowsOf, TotalsOfRuns, TotalsOfRun;
    if families == [] {
    } else {
      var n := |families| - 1;
      var init := families[..n];
      assert families == init + [families[n]];
      OneMoreRun(init, rows, run);
      OneMoreRunOf(families[n], rows, run);
      PlusMoves(TotalsByFamily(init, rows), TotalsOfRuns(RowsOf(rows, families[n])), TotalsOfRun(run));
      if families[n] == run.family {
        assert run.family !in init;
      }
    }
  }

  lemma OneMoreRunOf(family: string, rows: seq<RunRow>, run: RunRow)
    ensures TotalsOfRuns(RowsOf(rows + [run], family)) ==
      if run.family == family then Plus(TotalsOfRuns(RowsOf(rows, family)), TotalsOfRun(run))
      else TotalsOfRuns(RowsOf(rows, family))
  {
    RowsOfNext(rows, run, family);
    var old' := RowsOf(rows, family);
    assert (old' + [run])[..|old'|] == old' && old' + [] == old';
  }

  lemma SummaryStatuses(b: Builder, rows: seq<RunRow>)
    requires Summarizes(b, rows)
    ensures SumOf(b.statuses) == b.runs
  {
    StatusesSumToRuns(b.statuses, rows);
  }

  lemma {:induction false} StatusesSumToRuns(statuses: map<string, nat>, rows: seq<RunRow>)
    requires forall s :: if StatusCount(rows, s) == 0 then s !in statuses
                         else s in statuses && statuses[s] == StatusCount(rows, s)
    ensures SumOf(statuses) == |rows|
  {
    if rows == [] {
      assert statuses == map[];
    } else {
      var n := |rows| - 1;
      var status := rows[n].status;
      var less := statuses[status] - 1;
      var before := if less == 0 then statuses - {status} else statuses[status := less];
      StatusesSumToRuns(before, rows[..n]);
      SumOfIncrement(before, status);
      assert before[status := less + 1] == statuses;
    }
  }

  // ----- the latency figures

  function Identity(x: Float): Float {
    x
  }

  datatype LatencyFigures = LatencyFigures(count: nat, min: Option<Float>, median: Option<Float>, max: Option<Float>)

  /** First, middle and last of the sorted samples; of an even number, the upper middle one. */
  function Finish(b: Builder): LatencyFigures {
    var sorted := Sort(b.latencies, Identity);
    var n := |sorted|;
    if n == 0 then LatencyFigures(0, None, None, None)
    else LatencyFigures(n, Some(sorted[0]), Some(sorted[n / 2]), Some(sorted[n - 1]))
  }

  lemma FiguresAreSamples(s: seq<Float>)
    requires s != []
    ensures var sorted := Sort(s, Identity);
      && sorted[0] in s && sorted[|s| / 2] in s && sorted[|s| - 1] in s
      && forall x :: x in s ==> AtMost(sorted[0], x) && AtMost(x, sorted[|s| - 1])
  {
    hide Sort, AtMost;
    var sorted := Sort(s, Identity);
    SortSorted(s, Identity);
    forall k | 0 <= k < |sorted| ensures sorted[k] in s {
      assert sorted[k] in multiset(sorted);
    }
    forall x | x in s ensures AtMost(sorted[0], x) && AtMost(x, sorted[|s| - 1]) {
      assert x in multiset(sorted);
      var k :| 0 <= k < |sorted| && sorted[k] == x;
      SortedBetween(sorted, k);
    }
  }

  lemma SortedBetween(t: seq<Float>, k: nat)
    requires Sorted(t, Identity) && k < |t|
    ensures AtMost(t[0], t[k]) && AtMost(t[k], t[|t| - 1])
  {
    assert AtMost(Identity(t[0]), Identity(t[k])) && AtMost(Identity(t[k]), Identity(t[|t| - 1]));
  }

  /** The figures are order statistics of the family's samples: they are among them; no sample is
      below the minimum or above the maximum; more than half of the samples are at most the median,
      and at most half are at most anything smaller. */
  lemma FiguresAreOrderStatistics(b: Builder)
    requires b.latencies != []
    ensures var f := Finish(b);
      && f.count == |b.latencies| && f.min.Some? && f.median.Some? && f.max.Some?
      && f.min.value in b.latencies && f.median.value in b.latencies && f.max.value in b.latencies
      && (forall x :: x in b.latencies ==> AtMost(f.min.value, x) && AtMost(x, f.max.value))
      && CountLe(b.latencies, Identity, f.median.value) > |b.latencies| / 2
      && (forall bound :: !AtMost(f.median.value, bound) ==> CountLe(b.latencies, Identity, bound) <= |b.latencies| / 2)
  {
    hide Sort, CountLe, AtMost;
    var s, median := b.latencies, Sort(b.latencies, Identity)[|b.latencies| / 2];
    FiguresAreSamples(s);
    AtMostItself(median);
    RankIsCount(s, Identity, median, |s| / 2);
    forall bound | !AtMost(median, bound) ensures CountLe(s, Identity, bound) <= |s| / 2 {
      RankIsCount(s, Identity, bound, |s| / 2);
    }
  }

  lemma AtMostItself(x: Float)
    ensures AtMost(x, x)
  {
  }
}
