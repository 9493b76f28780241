/** Sorting samples and reading ranks off the sorted list. Samples are compared by a floating key. */
module OrderStatistics {
  import opened Common

  ghost predicate Sorted<T>(s: seq<T>, key: T -> Float) {
    forall i, j :: 0 <= i < j < |s| ==> AtMost(key(s[i]), key(s[j]))
  }

  /** `sort_by` and `sort_unstable`: insertion into a sorted list, one sample after the other. */
  function Sort<T>(s: seq<T>, key: T -> Float): (t: seq<T>)
    ensures |t| == |s| && multiset(t) == multiset(s)
  {
    if s == [] then []
    else
      assert s == s[..|s| - 1] + [s[|s| - 1]];
      Insert(s[|s| - 1], Sort(s[..|s| - 1], key), key)
  }

  function Insert<T>(x: T, s: seq<T>, key: T -> Float): (t: seq<T>)
    ensures |t| == |s| + 1 && multiset(t) == multiset(s) + multiset{x}
  {
    if s == [] then [x]
    else
      var n := |s| - 1;
      assert s == s[..n] + [s[n]];
      if AtMost(key(s[n]), key(x)) then s + [x] else Insert(x, s[..n], key) + [s[n]]
  }

  lemma {:induction false} InsertSorted<T>(x: T, s: seq<T>, key: T -> Float)
    requires Sorted(s, key)
    ensures Sorted(Insert(x, s, key), key)
  {
    if s != [] && !AtMost(key(s[|s| - 1]), key(x)) {
      var n := |s| - 1;
      InsertSorted(x, s[..n], key);
      InsertBelow(x, s[..n], key, key(s[n]));
      assert Insert(x, s, key) == Insert(x, s[..n], key) + [s[n]];
      hide Insert;
    }
  }

  lemma InsertBelow<T>(x: T, s: seq<T>, key: T -> Float, bound: Float)
    requires AtMost(key(x), bound) && forall y | y in s :: AtMost(key(y), bound)
    ensures forall y | y in Insert(x, s, key) :: AtMost(key(y), bound)
  {
  }

  lemma {:induction false} SortSorted<T>(s: seq<T>, key: T -> Float)
    ensures Sorted(Sort(s, key), key)
  {
    if s == [] {
    } else {
      SortSorted(s[..|s| - 1], key);
      InsertSorted(s[|s| - 1], Sort(s[..|s| - 1], key), key);
    }
  }

  /** How many samples are at most `bound`. */
  function CountLe<T>(s: seq<T>, key: T -> Float, bound: Float): (n: nat)
    ensures n <= |s|
  {
    if s == [] then 0 else CountLe(s[..|s| - 1], key, bound) + if AtMost(key(s[|s| - 1]), bound) then 1 else 0
  }

  lemma {:induction false} CountLeInsert<T>(x: T, s: seq<T>, key: T -> Float, bound: Float)
    ensures CountLe(Insert(x, s, key), key, bound) == CountLe(s, key, bound) + if AtMost(key(x), bound) then 1 else 0
  {
    var t := Insert(x, s, key);
    if s == [] {
      assert t[..0] == [];
    } else if AtMost(key(s[|s| - 1]), key(x)) {
      assert t[..|s|] == s;
    } else {
      CountLeInsert(x, s[..|s| - 1], key, bound);
      assert t[..|s|] == Insert(x, s[..|s| - 1], key);
    }
  }

  lemma {:induction false} CountLeSort<T>(s: seq<T>, key: T -> Float, bound: Float)
    ensures CountLe(Sort(s, key), key, bound) == CountLe(s, key, bound)
  {
    if s == [] {
    } else {
      CountLeSort(s[..|s| - 1], key, bound);
      CountLeInsert(s[|s| - 1], Sort(s[..|s| - 1], key), key, bound);
    }
  }

  lemma {:induction false} CountLeOfSorted<T>(t: seq<T>, key: T -> Float, bound: Float, k: nat)
    requires Sorted(t, key) && k < |t|
    ensures AtMost(key(t[k]), bound) <==> CountLe(t, key, bound) > k
  {
    var n := |t| - 1;
    if k < n {
      CountLeOfSorted(t[..n], key, bound, k);
    } else if AtMost(key(t[n]), bound) {
      if n > 0 { CountLeOfSorted(t[..n], key, bound, n - 1); }
    }
  }

  /** The meaning of a rank: entry `k` of the sorted samples is within a bound exactly if more than
      `k` of the samples, in whatever order, are. */
  lemma RankIsCount<T>(s: seq<T>, key: T -> Float, bound: Float, k: nat)
    requires k < |s|
    ensures AtMost(key(Sort(s, key)[k]), bound) <==> CountLe(s, key, bound) > k
  {
    SortSorted(s, key);
    CountLeSort(s, key, bound);
    CountLeOfSorted(Sort(s, key), key, bound, k);
  }
}
