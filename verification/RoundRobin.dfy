/** Round-robin selection among the available candidates (crates/pengu-mesh-core/src/allocation.rs). */
module RoundRobin {
  import opened Common
  import opened Division

  datatype Candidate = Candidate(instanceId: string, load: real, available: bool)

  datatype AllocationError = NoCandidates | NoneAvailable

  /** Counters wrap around here. */
  const WRAP: nat := U64_MAX + 1

  function Available(candidates: seq<Candidate>): (a: seq<Candidate>)
    ensures forall c :: c in a <==> c in candidates && c.available
  {
    if candidates == [] then []
    else
      assert candidates == [candidates[0]] + candidates[1..];
      (if candidates[0].available then [candidates[0]] else []) + Available(candidates[1..])
  }

  /** Filtering keeps the order: it works on each part of the list for itself. */
  lemma {:induction false} AvailableInOrder(before: seq<Candidate>, c: Candidate, after: seq<Candidate>)
    ensures Available(before + [c] + after)
         == Available(before) + (if c.available then [c] else []) + Available(after)
  {
    if before == [] {
      assert [] + [c] + after == [c] + after && ([c] + after)[1..] == after;
    } else {
      assert (before + [c] + after)[1..] == before[1..] + [c] + after;
      AvailableInOrder(before[1..], c, after);
    }
  }

  /** `wrapping_add(1)`. */
  function Next(index: nat): nat {
    (index + 1) % WRAP
  }

  class RoundRobinPolicy {
    var lastIndex: nat

    constructor ()
      ensures lastIndex == 0
    {
      lastIndex := 0;
    }

    method Select(candidates: seq<Candidate>) returns (r: Result<string, AllocationError>)
      modifies this
      ensures var a := Available(candidates);
        if candidates == [] then r == Err(NoCandidates) && lastIndex == old(lastIndex)
        else if a == [] then r == Err(NoneAvailable) && lastIndex == old(lastIndex)
        else r == Ok(a[old(lastIndex) % |a|].instanceId) && lastIndex == Next(old(lastIndex))
    {
      if candidates == [] {
        return Err(NoCandidates);
      }
      var available := Available(candidates);
      if available == [] {
        return Err(NoneAvailable);
      }
      var index := lastIndex % |available|;
      lastIndex := Next(lastIndex);
      return Ok(available[index].instanceId);
    }
  }

  /** The entries picked by `m` consecutive selections among `n` available ones. */
  function Picks(index: nat, m: nat, n: nat): (picks: seq<nat>)
    requires n > 0
    ensures |picks| == m && forall j | 0 <= j < m :: picks[j] < n
    decreases m
  {
    if m == 0 then [] else [index % n] + Picks(Next(index), m - 1, n)
  }

  function Count(picks: seq<nat>, entry: nat): nat {
    if picks == [] then 0 else (if picks[0] == entry then 1 else 0) + Count(picks[1..], entry)
  }

  /** How many numbers below `x` leave remainder `entry`. */
  function Below(x: nat, entry: nat, n: nat): nat
    requires entry < n
  {
    (x + (n - 1 - entry)) / n
  }

  lemma Quotients(a: nat, n: nat, q: nat, d: nat)
    requires n > 0 && a == q * n + d && d < 2 * n - 1
    ensures a / n == if d < n then q else q + 1
    ensures (a + 1) / n == if d + 1 < n then q else q + 1
  {
    assert (q + 1) * n == q * n + n;
    if d < n { DivIs(a, n, q, d); } else { DivIs(a, n, q + 1, d - n); }
    if d + 1 < n { DivIs(a + 1, n, q, d + 1); } else { DivIs(a + 1, n, q + 1, d + 1 - n); }
  }

  lemma BelowNext(x: nat, entry: nat, n: nat)
    requires entry < n
    ensures Below(x + 1, entry, n) == Below(x, entry, n) + if x % n == entry then 1 else 0
  {
    var a, q, r := x + (n - 1 - entry), x / n, x % n;
    DivisionBounds(x, n);
    Quotients(a, n, q, r + (n - 1 - entry));
  }

  /** The counter never passes its end, or its end is a multiple of the number of entries. */
  predicate NoSeam(index: nat, m: nat, n: nat)
    requires n > 0
  {
    index + m <= WRAP || (index < WRAP && WRAP % n == 0)
  }

  lemma {:induction false} CountIsBelow(index: nat, m: nat, n: nat, entry: nat)
    requires entry < n && index + m <= WRAP
    ensures Count(Picks(index, m, n), entry) == Below(index + m, entry, n) - Below(index, entry, n)
    decreases m
  {
    hide Below;
    if m == 0 {
    } else {
      BelowNext(index, entry, n);
      assert Picks(index, m, n)[1..] == Picks(Next(index), m - 1, n);
      if m > 1 {
        assert Next(index) == index + 1;
        CountIsBelow(index + 1, m - 1, n, entry);
      } else {
        assert Picks(Next(index), 0, n) == [];
      }
    }
  }

  /** When the end of the counter is a multiple of `n`, wrapping is not noticed. */
  lemma {:induction false} CountAcrossSeam(index: nat, m: nat, n: nat, entry: nat)
    requires entry < n && index < WRAP && WRAP % n == 0
    ensures Count(Picks(index, m, n), entry) == Below(index + m, entry, n) - Below(index, entry, n)
    decreases m
  {
    if m == 0 {
    } else {
      BelowNext(index, entry, n);
      assert Picks(index, m, n)[1..] == Picks(Next(index), m - 1, n);
      CountAcrossSeam(Next(index), m - 1, n, entry);
      AcrossSeam(index, m - 1, n, entry);
    }
  }

  lemma AcrossSeam(index: nat, m: nat, n: nat, entry: nat)
    requires entry < n && index < WRAP && WRAP % n == 0
    ensures Below(Next(index) + m, entry, n) - Below(Next(index), entry, n)
         == Below(index + 1 + m, entry, n) - Below(index + 1, entry, n)
  {
    if index + 1 == WRAP {
      DivisionBounds(WRAP, n);
      BelowShift(m, entry, n, WRAP / n);
      BelowShift(0, entry, n, WRAP / n);
    }
  }

  lemma BelowShift(x: nat, entry: nat, n: nat, q: nat)
    requires entry < n
    ensures Below(q * n + x, entry, n) == q + Below(x, entry, n)
  {
    var a := x + (n - 1 - entry);
    DivisionBounds(a, n);
    assert q * n + a == (q + a / n) * n + a % n;
    DivIs(q * n + a, n, q + a / n, a % n);
  }

  /** Balance: unless the counter wraps at a number that is not a multiple of `n`, any `m`
      consecutive selections pick each of the `n` available entries floor(m/n) or ceil(m/n) times,
      from whatever counter value they start. */
  lemma SelectionIsBalanced(index: nat, m: nat, n: nat, entry: nat)
    requires entry < n && NoSeam(index, m, n)
    ensures m / n <= Count(Picks(index, m, n), entry) <= (m + n - 1) / n
  {
    if index + m <= WRAP {
      CountIsBelow(index, m, n, entry);
    } else {
      CountAcrossSeam(index, m, n, entry);
    }
    var a := index + (n - 1 - entry);
    Spread(a, m, n);
  }

  /** A stretch of `m` numbers holds floor(m/n) or ceil(m/n) multiples of `n`. */
  lemma Spread(a: nat, m: nat, n: nat)
    requires n > 0
    ensures m / n <= (a + m) / n - a / n <= (m + n - 1) / n
  {
    DivisionBounds(a, n);
    DivisionBounds(m, n);
    SpreadOf(a / n, a % n, m / n, m % n, n);
    DivMonotone(m, m + n - 1, n);
  }

  lemma SpreadOf(p: nat, r: nat, q: nat, s: nat, n: nat)
    requires r < n && s < n
    ensures (p * n + r + (q * n + s)) / n == p + q + if r + s < n then 0 else 1
    ensures s > 0 ==> (q * n + s + n - 1) / n == q + 1
  {
    assert (p + q) * n == p * n + q * n && (p + q + 1) * n == p * n + q * n + n && (q + 1) * n == q * n + n;
    var sum := p * n + r + (q * n + s);
    if r + s < n {
      DivIs(sum, n, p + q, r + s);
    } else {
      DivIs(sum, n, p + q + 1, r + s - n);
    }
    if s > 0 {
      DivIs(q * n + s + n - 1, n, q + 1, s - 1);
    }
  }

  /** Of `m` selections, floor(m/n) or ceil(m/n). */
  predicate FairShare(count: nat, m: nat, n: nat)
    requires n > 0
  {
    m / n <= count <= (m + n - 1) / n
  }

  ghost predicate Balanced(index: nat, m: nat, n: nat, entry: nat)
    requires n > 0
  {
    FairShare(Count(Picks(index, m, n), entry), m, n)
  }

  /** Over runs of any length, through any number of wraps, selection stays balanced exactly for the
      numbers of entries that divide 2^64; for the others an entry is picked twice too early at the seam. */
  lemma BalancedThroughWrapsExactly(n: nat)
    requires 0 < n < WRAP
    ensures (forall index: nat, m: nat, entry: nat | index < WRAP && entry < n :: Balanced(index, m, n, entry))
      <==> WRAP % n == 0
  {
    if WRAP % n == 0 {
      forall index: nat, m: nat, entry: nat | index < WRAP && entry < n ensures Balanced(index, m, n, entry) {
        SelectionIsBalanced(index, m, n, entry);
      }
    } else {
      SeamBreaksBalance(n);
    }
  }

  lemma SeamBreaksBalance(n: nat)
    requires 0 < n < WRAP && WRAP % n != 0
    ensures var r := WRAP % n; !Balanced(WRAP - r, r + 1, n, 0)
  {
    var r, q := WRAP % n, WRAP / n;
    DivisionBounds(WRAP, n);
    DivIs(WRAP - r, n, q, 0);
    var picks := Picks(WRAP - r, r + 1, n);
    PickAt(WRAP - r, r + 1, n, r);
    assert WRAP - r < WRAP && (WRAP - r + r) % WRAP == 0;
    DivIs(0, n, 0, 0);
    CountTwice(picks, 0, r);
    assert r + 1 + n - 1 < 2 * n;
    DivIs(r + n, n, 1, r);
  }

  lemma {:induction false} PickAt(index: nat, m: nat, n: nat, j: nat)
    requires n > 0 && j < m && index < WRAP
    ensures Picks(index, m, n)[j] == Reached(index, j) % n
    decreases m
  {
    if j == 0 {
      ReachedLater(index, 0);
    } else {
      hide Reached;
      PickAt(Next(index), m - 1, n, j - 1);
      ReachedLater(index, j - 1);
      assert Picks(index, m, n)[j] == Picks(Next(index), m - 1, n)[j - 1];
    }
  }

  /** The counter after `j` selections. */
  function Reached(index: nat, j: nat): nat {
    (index + j) % WRAP
  }

  lemma ReachedLater(index: nat, j: nat)
    requires index < WRAP
    ensures Reached(Next(index), j) == Reached(index, j + 1) && Reached(index, 0) == index
  {
  }

  lemma CountTwice(picks: seq<nat>, entry: nat, j: nat)
    requires 0 < j < |picks| && picks[0] == entry == picks[j]
    ensures Count(picks, entry) >= 2
  {
    CountOnce(picks[1..], entry, j - 1);
  }

  lemma {:induction false} CountOnce(picks: seq<nat>, entry: nat, j: nat)
    requires j < |picks| && picks[j] == entry
    ensures Count(picks, entry) >= 1
  {
    if j == 0 {
    } else {
      CountOnce(picks[1..], entry, j - 1);
    }
  }

  // ----- repeated selection

  function IdsOf(a: seq<Candidate>, picks: seq<nat>): (ids: seq<string>)
    requires forall j | 0 <= j < |picks| :: picks[j] < |a|
    ensures |ids| == |picks| && forall j | 0 <= j < |picks| :: ids[j] == a[picks[j]].instanceId
  {
    seq(|picks|, j requires 0 <= j < |picks| => a[picks[j]].instanceId)
  }

  function CountId(ids: seq<string>, id: string): nat {
    if ids == [] then 0 else (if ids[0] == id then 1 else 0) + CountId(ids[1..], id)
  }

  predicate DistinctIds(a: seq<Candidate>) {
    forall i, j | 0 <= i < j < |a| :: a[i].instanceId != a[j].instanceId
  }

  lemma {:induction false} CountIsCountId(a: seq<Candidate>, picks: seq<nat>, entry: nat)
    requires DistinctIds(a) && entry < |a| && forall j | 0 <= j < |picks| :: picks[j] < |a|
    ensures CountId(IdsOf(a, picks), a[entry].instanceId) == Count(picks, entry)
  {
    if picks == [] {
    } else {
      CountIsCountId(a, picks[1..], entry);
      assert IdsOf(a, picks)[1..] == IdsOf(a, picks[1..]);
    }
  }

  /** `m` selections on an unchanging list with available candidates; none of them fails. */
  method SelectRepeatedly(policy: RoundRobinPolicy, candidates: seq<Candidate>, m: nat) returns (ids: seq<string>)
    requires Available(candidates) != []
    modifies policy
    ensures var a := Available(candidates); ids == IdsOf(a, Picks(old(policy.lastIndex), m, |a|))
  {
    hide Picks, IdsOf;
    var a := Available(candidates);
    ghost var start := policy.lastIndex;
    ids := [];
    for i := 0 to m
      invariant |ids| == i
      invariant ids + IdsOf(a, Picks(policy.lastIndex, m - i, |a|)) == IdsOf(a, Picks(start, m, |a|))
    {
      FirstId(a, policy.lastIndex, m - i);
      ghost var before := ids;
      var r := policy.Select(candidates);
      ids := ids + [r.value];
      ghost var rest := IdsOf(a, Picks(policy.lastIndex, m - i - 1, |a|));
      assert before + ([r.value] + rest) == ids + rest;
    }
    assert ids + IdsOf(a, Picks(policy.lastIndex, 0, |a|)) == ids;
  }

  lemma FirstId(a: seq<Candidate>, index: nat, m: nat)
    requires a != [] && m > 0
    ensures IdsOf(a, Picks(index, m, |a|)) == [a[index % |a|].instanceId] + IdsOf(a, Picks(Next(index), m - 1, |a|))
  {
  }

  lemma IdIsBalanced(a: seq<Candidate>, index: nat, m: nat, c: Candidate)
    requires c in a && DistinctIds(a) && NoSeam(index, m, |a|)
    ensures FairShare(CountId(IdsOf(a, Picks(index, m, |a|)), c.instanceId), m, |a|)
  {
    var entry: nat :| entry < |a| && a[entry] == c;
    CountIsCountId(a, Picks(index, m, |a|), entry);
    SelectionIsBalanced(index, m, |a|, entry);
  }

  /** What such a list of selections looks like: it names available candidates only and, if their
      ids are distinct and there is no seam, each of them floor(m/n) or ceil(m/n) times. */
  lemma RepeatedSelectionIsBalanced(candidates: seq<Candidate>, index: nat, m: nat)
    requires Available(candidates) != []
    ensures var a := Available(candidates);
      var ids := IdsOf(a, Picks(index, m, |a|));
      && |ids| == m
      && (forall id :: id in ids ==> exists c :: c in candidates && c.available && c.instanceId == id)
      && (DistinctIds(a) && NoSeam(index, m, |a|) ==>
            forall c | c in candidates && c.available :: FairShare(CountId(ids, c.instanceId), m, |a|))
  {
    hide Picks, NoSeam, CountId, DistinctIds, FairShare;
    var a := Available(candidates);
    var picks := Picks(index, m, |a|);
    forall id | id in IdsOf(a, picks) ensures exists c :: c in candidates && c.available && c.instanceId == id {
      var j :| 0 <= j < |picks| && IdsOf(a, picks)[j] == id;
      assert a[picks[j]] in a;
    }
    if DistinctIds(a) && NoSeam(index, m, |a|) {
      forall c | c in candidates && c.available ensures FairShare(CountId(IdsOf(a, picks), c.instanceId), m, |a|) {
        IdIsBalanced(a, index, m, c);
      }
    }
  }
}
