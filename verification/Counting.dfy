/** Sums over the values of a table of counts. */
module Counting {

  ghost function SumOf(counts: map<string, nat>): nat
    decreases |counts|
  {
    if counts == map[] then 0
    else
      var agent :| agent in counts;
      counts[agent] + SumOf(counts - {agent})
  }

  lemma {:induction false} SumOfRemove(counts: map<string, nat>, agent: string)
    requires agent in counts
    ensures SumOf(counts) == counts[agent] + SumOf(counts - {agent})
    decreases |counts|
  {
    var other :| other in counts && SumOf(counts) == counts[other] + SumOf(counts - {other});
    if other != agent {
      SumOfRemove(counts - {other}, agent);
      SumOfRemove(counts - {agent}, other);
      assert counts - {other} - {agent} == counts - {agent} - {other};
    }
  }

  /** Raising one count by one raises the sum by one. */
  lemma SumOfIncrement(counts: map<string, nat>, key: string)
    ensures var n := if key in counts then counts[key] else 0;
      SumOf(counts[key := n + 1]) == SumOf(counts) + 1
  {
    var n := if key in counts then counts[key] else 0;
    SumOfRemove(counts[key := n + 1], key);
    if key in counts {
      SumOfRemove(counts, key);
      assert counts[key := n + 1] - {key} == counts - {key};
    } else {
      assert counts[key := n + 1] - {key} == counts;
    }
  }
}
