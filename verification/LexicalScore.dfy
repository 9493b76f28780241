/** Stopword filtering, weighted Jaccard similarity and the lexical score
    (crates/pengu-mesh-core/src/semantic.rs). Texts are lists of tokens; scores are exact reals. */
module LexicalScore {
  import opened Common
  import opened Lexicons
  import opened MatchBoosts

  const SYNONYM_BOOST_WEIGHT := 0.30
  const PREFIX_MATCH_WEIGHT := 0.20

  // ----- the stopword filter

  /** Token `i` lies in a phrase of two or three tokens that the index knows. */
  ghost predicate InPhrase(lex: Lexicon, tokens: seq<string>, i: int) {
    exists n, start :: IsPhraseAround(lex, tokens, n, start, i)
  }

  predicate IsPhraseAround(lex: Lexicon, tokens: seq<string>, n: int, start: int, i: int) {
    IsPhrase(tokens, n, start) && start <= i < start + n && Join(tokens[start..start + n]) in lex.synonyms
  }

  ghost predicate PhraseBefore(lex: Lexicon, tokens: seq<string>, n: int, start: int, i: int) {
    exists s :: s < start && IsPhraseAround(lex, tokens, n, s, i)
  }

  method PhraseTokens(lex: Lexicon, tokens: seq<string>) returns (inPhrase: set<int>)
    ensures forall i :: i in inPhrase <==> InPhrase(lex, tokens, i)
  {
    inPhrase := {};
    var longest := Min(3, |tokens|);
    var n := 2;
    while n <= longest
      invariant 2 <= n
      invariant forall i :: i in inPhrase <==> exists m, start :: m < n && IsPhraseAround(lex, tokens, m, start, i)
    {
      ghost var before := inPhrase;
      for start := 0 to |tokens| - n + 1
        invariant forall i :: i in inPhrase <==> i in before || PhraseBefore(lex, tokens, n, start, i)
      {
        if Join(tokens[start..start + n]) in lex.synonyms {
          ghost var outside := inPhrase;
          for i := start to start + n
            invariant forall k :: k in inPhrase <==> k in outside || start <= k < i
          {
            inPhrase := inPhrase + {i};
          }
        }
        forall i
          ensures PhraseBefore(lex, tokens, n, start + 1, i)
            <==> PhraseBefore(lex, tokens, n, start, i) || IsPhraseAround(lex, tokens, n, start, i) {}
      }
      assert forall i, m, s :: IsPhraseAround(lex, tokens, m, s, i) && m == n ==> s < |tokens| - n + 1;
      n := n + 1;
    }
    assert forall i, m, start :: IsPhraseAround(lex, tokens, m, start, i) ==> m < n;
  }

  /** Is token `i` worth keeping, given the other text? */
  ghost predicate Keep(lex: Lexicon, tokens: seq<string>, other: seq<string>, i: int)
    requires 0 <= i < |tokens|
  {
    var t := tokens[i];
    || (t !in lex.stopwords && t !in lex.semantic)
    || InPhrase(lex, tokens, i)
    || (t in lex.semantic && (t in other || t in lex.synonyms))
  }

  /** The kept tokens among the first `n`, in order. */
  ghost function Kept(lex: Lexicon, tokens: seq<string>, other: seq<string>, n: nat): seq<string>
    requires n <= |tokens|
  {
    if n == 0 then []
    else Kept(lex, tokens, other, n - 1) + if Keep(lex, tokens, other, n - 1) then [tokens[n - 1]] else []
  }

  ghost function Filtered(lex: Lexicon, tokens: seq<string>, other: seq<string>): (f: seq<string>)
    ensures f == [] ==> tokens == []
  {
    var kept := Kept(lex, tokens, other, |tokens|);
    if kept == [] then tokens else kept
  }

  method RemoveStopwords(lex: Lexicon, tokens: seq<string>, other: seq<string>) returns (filtered: seq<string>)
    ensures filtered == Filtered(lex, tokens, other)
  {
    var inPhrase := PhraseTokens(lex, tokens);
    filtered := [];
    for i := 0 to |tokens|
      invariant filtered == Kept(lex, tokens, other, i)
    {
      var t := tokens[i];
      var keep :=
        || (t !in lex.stopwords && t !in lex.semantic)
        || i in inPhrase
        || (t in lex.semantic && t in other)
        || (t in lex.semantic && t in lex.synonyms);
      if keep {
        filtered := filtered + [t];
      }
    }
    if filtered == [] {
      return tokens;
    }
  }

  // ----- what the filter keeps

  /** The index knows this token and the next one, or the next two, joined by single blanks. */
  predicate PairAt(lex: Lexicon, tokens: seq<string>, i: int) {
    0 <= i && i + 1 < |tokens| && tokens[i] + " " + tokens[i + 1] in lex.synonyms
  }

  predicate TripleAt(lex: Lexicon, tokens: seq<string>, i: int) {
    0 <= i && i + 2 < |tokens| && tokens[i] + " " + tokens[i + 1] + " " + tokens[i + 2] in lex.synonyms
  }

  lemma JoinOfShort(tokens: seq<string>, start: nat, n: nat)
    requires IsPhrase(tokens, n, start)
    ensures Join(tokens[start..start + n]) ==
      if n == 2 then tokens[start] + " " + tokens[start + 1]
      else tokens[start] + " " + tokens[start + 1] + " " + tokens[start + 2]
  {
    var phrase := tokens[start..start + n];
    assert phrase[1..][0] == tokens[start + 1];
    assert Join(phrase[n - 1..]) == tokens[start + n - 1];
    if n == 3 { assert phrase[1..][1..] == phrase[2..]; }
  }

  lemma KnownPhrases(lex: Lexicon, tokens: seq<string>, n: int, start: int, i: int)
    ensures IsPhraseAround(lex, tokens, n, start, i) <==>
      || (n == 2 && PairAt(lex, tokens, start) && start <= i <= start + 1)
      || (n == 3 && TripleAt(lex, tokens, start) && start <= i <= start + 2)
  {
    if IsPhrase(tokens, n, start) { JoinOfShort(tokens, start, n); }
  }

  /** A token is dropped exactly if it belongs to no known phrase and carries no meaning: a plain
      stopword always, one that may carry meaning if neither the other text nor the index has it. */
  lemma DroppedExactly(lex: Lexicon, tokens: seq<string>, other: seq<string>, i: nat)
    requires i < |tokens|
    ensures !Keep(lex, tokens, other, i) <==>
      && !PairAt(lex, tokens, i - 1) && !PairAt(lex, tokens, i)
      && !TripleAt(lex, tokens, i - 2) && !TripleAt(lex, tokens, i - 1) && !TripleAt(lex, tokens, i)
      && if tokens[i] in lex.semantic then tokens[i] !in other && tokens[i] !in lex.synonyms
         else tokens[i] in lex.stopwords
  {
    hide IsPhraseAround, PairAt, TripleAt;
    forall n, start ensures IsPhraseAround(lex, tokens, n, start, i) <==>
      || (n == 2 && PairAt(lex, tokens, start) && start <= i <= start + 1)
      || (n == 3 && TripleAt(lex, tokens, start) && start <= i <= start + 2)
    {
      KnownPhrases(lex, tokens, n, start, i);
    }
    forall j | j in {i - 2, i - 1, i}
      ensures (PairAt(lex, tokens, j) && j != i - 2) || TripleAt(lex, tokens, j) ==> InPhrase(lex, tokens, i)
    {
      assert IsPhraseAround(lex, tokens, 2, j, i) || IsPhraseAround(lex, tokens, 3, j, i)
        || !((PairAt(lex, tokens, j) && j != i - 2) || TripleAt(lex, tokens, j));
    }
  }

  ghost function KeptPositions(lex: Lexicon, tokens: seq<string>, other: seq<string>, n: nat): set<int>
    requires n <= |tokens|
  {
    set i | 0 <= i < n && Keep(lex, tokens, other, i)
  }

  /** The kept tokens are those at the kept positions, each behind all kept before it, and no others. */
  lemma {:induction false} KeptInPlace(lex: Lexicon, tokens: seq<string>, other: seq<string>, n: nat)
    requires n <= |tokens|
    ensures |Kept(lex, tokens, other, n)| == |KeptPositions(lex, tokens, other, n)|
    ensures forall i | 0 <= i < n && Keep(lex, tokens, other, i) ::
      && |KeptPositions(lex, tokens, other, i)| < |Kept(lex, tokens, other, n)|
      && Kept(lex, tokens, other, n)[|KeptPositions(lex, tokens, other, i)|] == tokens[i]
  {
    hide Keep;
    if n == 0 {
    } else {
      KeptInPlace(lex, tokens, other, n - 1);
      PositionsGrow(lex, tokens, other, n - 1);
      var before, kept := Kept(lex, tokens, other, n - 1), Kept(lex, tokens, other, n);
      hide KeptPositions;
      assert before <= kept;
      forall i | 0 <= i < n && Keep(lex, tokens, other, i)
        ensures && |KeptPositions(lex, tokens, other, i)| < |kept|
                && kept[|KeptPositions(lex, tokens, other, i)|] == tokens[i]
      {
        if i == n - 1 {
          assert kept == before + [tokens[n - 1]];
        } else {
          assert before[|KeptPositions(lex, tokens, other, i)|] == tokens[i];
        }
      }
    }
  }

  lemma PositionsGrow(lex: Lexicon, tokens: seq<string>, other: seq<string>, n: nat)
    requires n < |tokens|
    ensures |KeptPositions(lex, tokens, other, n + 1)|
      == |KeptPositions(lex, tokens, other, n)| + if Keep(lex, tokens, other, n) then 1 else 0
  {
    hide Keep;
    var before := KeptPositions(lex, tokens, other, n);
    assert KeptPositions(lex, tokens, other, n + 1) == if Keep(lex, tokens, other, n) then before + {n} else before;
  }

  /** `sub` is `s` with some elements left out. */
  ghost predicate Subsequence(sub: seq<string>, s: seq<string>) {
    if sub == [] then true
    else if s == [] then false
    else
      || (sub[|sub| - 1] == s[|s| - 1] && Subsequence(sub[..|sub| - 1], s[..|s| - 1]))
      || Subsequence(sub, s[..|s| - 1])
  }

  /** The filter leaves a subsequence, and it empties nothing. */
  lemma FilterKeepsASubsequence(lex: Lexicon, tokens: seq<string>, other: seq<string>)
    ensures Subsequence(Filtered(lex, tokens, other), tokens)
    ensures Filtered(lex, tokens, other) == [] <==> tokens == []
  {
    KeptIsSubsequence(lex, tokens, other, |tokens|);
    assert tokens[..|tokens|] == tokens;
    SubsequenceReflexive(tokens);
  }

  lemma {:induction false} KeptIsSubsequence(lex: Lexicon, tokens: seq<string>, other: seq<string>, n: nat)
    requires n <= |tokens|
    ensures Subsequence(Kept(lex, tokens, other, n), tokens[..n])
  {
    if n == 0 {
    } else {
      KeptIsSubsequence(lex, tokens, other, n - 1);
      var s := tokens[..n];
      assert s[..|s| - 1] == tokens[..n - 1] && s[|s| - 1] == tokens[n - 1];
      var kept := Kept(lex, tokens, other, n);
      if Keep(lex, tokens, other, n - 1) {
        assert kept[..|kept| - 1] == Kept(lex, tokens, other, n - 1);
      } else {
        assert kept == Kept(lex, tokens, other, n - 1);
      }
    }
  }

  lemma {:induction false} SubsequenceReflexive(s: seq<string>)
    ensures Subsequence(s, s)
  {
    if s == [] {
    } else {
      SubsequenceReflexive(s[..|s| - 1]);
    }
  }

  // ----- weighted Jaccard similarity

  method TokenFrequencies(tokens: seq<string>) returns (m: map<string, nat>)
    ensures Counts(m, multiset(tokens))
  {
    m := map[];
    for i := 0 to |tokens|
      invariant Counts(m, multiset(tokens[..i]))
    {
      var t := tokens[i];
      assert tokens[..i + 1] == tokens[..i] + [t];
      m := m[t := (if t in m then m[t] else 0) + 1];
    }
    assert tokens[..|tokens|] == tokens;
  }

  /** The largest multiset contained in neither less than `a` nor less than `b`. */
  ghost function Union(a: multiset<string>, b: multiset<string>): multiset<string> {
    a + (b - a)
  }

  ghost function Jaccard(a: multiset<string>, b: multiset<string>): real {
    if |Union(a, b)| == 0 then 0.0 else |a * b| as real / |Union(a, b)| as real
  }

  ghost predicate Counts(m: map<string, nat>, tokens: multiset<string>) {
    forall t :: if t in m then m[t] == tokens[t] else tokens[t] == 0
  }

  /** Over all tokens of the first text, the smaller of the two counts. */
  method SumOfSmaller(freqA: map<string, nat>, freqB: map<string, nat>, ghost a: multiset<string>,
                      ghost b: multiset<string>)
    returns (intersection: nat)
    requires Counts(freqA, a) && Counts(freqB, b)
    ensures intersection == |a * b|
  {
    hide Part;
    ghost var both := a * b;
    intersection := 0;
    var todo := freqA.Keys;
    ghost var done: set<string> := {};
    PartOfNothing(both);
    while todo != {}
      invariant forall t :: t in freqA <==> t in todo || t in done
      invariant forall t :: t in todo ==> t !in done
      invariant intersection == |Part(both, done)|
      decreases |todo|
    {
      var t :| t in todo;
      PartGrows(both, done, t);
      assert both[t] == Min(a[t], b[t]);
      if t in freqB {
        intersection := intersection + Min(freqA[t], freqB[t]);
      }
      todo := todo - {t};
      done := done + {t};
    }
    PartIsAll(both, done);
  }

  /** Over all tokens of either text, the larger of the two counts. */
  method SumOfLarger(freqA: map<string, nat>, freqB: map<string, nat>, ghost a: multiset<string>,
                     ghost b: multiset<string>)
    returns (union: nat)
    requires Counts(freqA, a) && Counts(freqB, b)
    ensures union == |Union(a, b)|
  {
    hide Part;
    ghost var either := Union(a, b);
    union := 0;
    var todo := freqA.Keys + freqB.Keys;
    ghost var done: set<string> := {};
    PartOfNothing(either);
    while todo != {}
      invariant forall t :: t in freqA || t in freqB <==> t in todo || t in done
      invariant forall t :: t in todo ==> t !in done
      invariant union == |Part(either, done)|
      decreases |todo|
    {
      var t :| t in todo;
      PartGrows(either, done, t);
      assert either[t] == Max(a[t], b[t]);
      var countA := if t in freqA then freqA[t] else 0;
      var countB := if t in freqB then freqB[t] else 0;
      union := union + Max(countA, countB);
      todo := todo - {t};
      done := done + {t};
    }
    PartIsAll(either, done);
  }

  method WeightedJaccardSimilarity(a: seq<string>, b: seq<string>) returns (similarity: real)
    ensures similarity == Jaccard(multiset(a), multiset(b))
  {
    var freqA := TokenFrequencies(a);
    var freqB := TokenFrequencies(b);
    var intersection := SumOfSmaller(freqA, freqB, multiset(a), multiset(b));
    var union := SumOfLarger(freqA, freqB, multiset(a), multiset(b));
    if union == 0 {
      return 0.0;
    }
    return intersection as real / union as real;
  }

  /** The elements of `m` that lie in `keys`, with their multiplicities. */
  ghost function Part(m: multiset<string>, keys: set<string>): (p: multiset<string>)
    ensures forall t :: p[t] == if t in keys then m[t] else 0
    decreases |keys|
  {
    if keys == {} then multiset{}
    else
      var t :| t in keys;
      Part(m, keys - {t})[t := m[t]]
  }

  lemma PartGrows(m: multiset<string>, keys: set<string>, t: string)
    requires t !in keys
    ensures |Part(m, keys + {t})| == |Part(m, keys)| + m[t]
  {
    var more := multiset{}[t := m[t]];
    assert Part(m, keys + {t}) == Part(m, keys) + more;
    assert |more| == m[t];
  }

  lemma PartOfNothing(m: multiset<string>)
    ensures |Part(m, {})| == 0
  {
  }

  lemma PartIsAll(m: multiset<string>, keys: set<string>)
    requires forall t :: t in m ==> t in keys
    ensures Part(m, keys) == m
  {
  }

  lemma UnionIsSymmetric(a: multiset<string>, b: multiset<string>)
    ensures Union(a, b) == Union(b, a) && a * b == b * a
  {
  }

  /** The union is the intersection and something more, which is nothing only for equal multisets. */
  lemma UnionSplits(a: multiset<string>, b: multiset<string>)
    ensures |a * b| <= |Union(a, b)|
    ensures |a * b| == |Union(a, b)| <==> a == b
    ensures |Union(a, b)| == 0 ==> a == multiset{} && b == multiset{}
  {
  }

  /** Similarity is symmetric, lies between zero and one, and is one exactly for rearrangements. */
  lemma JaccardProperties(a: multiset<string>, b: multiset<string>)
    ensures Jaccard(a, b) == Jaccard(b, a)
    ensures 0.0 <= Jaccard(a, b) <= 1.0
    ensures Jaccard(a, b) == 1.0 <==> a == b != multiset{}
  {
    hide Union;
    UnionIsSymmetric(a, b);
    UnionSplits(a, b);
    var x, y := |a * b| as real, |Union(a, b)| as real;
    if y > 0.0 {
      QuotientBounds(x, y);
    }
  }

  lemma QuotientBounds(x: real, y: real)
    requires 0.0 <= x <= y && y > 0.0
    ensures 0.0 <= x / y <= 1.0 && (x / y == 1.0 <==> x == y)
  {
  }

  // ----- the score

  ghost function Score(lex: Lexicon, query: seq<string>, candidate: seq<string>): real {
    var q, c := Filtered(lex, query, candidate), Filtered(lex, candidate, query);
    if q == [] || c == [] then 0.0
    else
      var total := Jaccard(multiset(q), multiset(c))
        + Larger(SynonymShare(lex, q, c), SynonymShare(lex, c, q)) * SYNONYM_BOOST_WEIGHT
        + Larger(PrefixShare(q, c), PrefixShare(c, q)) * PREFIX_MATCH_WEIGHT
        + Larger(RoleShare(lex, q, c), RoleShare(lex, c, q));
      if total < 1.0 then total else 1.0
  }

  method ComputeScore(lex: Lexicon, query: seq<string>, candidate: seq<string>) returns (score: real)
    ensures score == Score(lex, query, candidate)
  {
    hide Filtered, Jaccard, SynonymShare, PrefixShare, RoleShare;
    var q := RemoveStopwords(lex, query, candidate);
    var c := RemoveStopwords(lex, candidate, query);
    if q == [] || c == [] {
      return 0.0;
    }
    var base := WeightedJaccardSimilarity(q, c);
    var synonym := SynonymScore(lex, q, c);
    var synonymBack := SynonymScore(lex, c, q);
    var prefix := TokenPrefixScore(q, c);
    var prefixBack := TokenPrefixScore(c, q);
    var role := RoleOverlapBoost(lex, q, c);
    var roleBack := RoleOverlapBoost(lex, c, q);
    var total := base + Larger(synonym, synonymBack) * SYNONYM_BOOST_WEIGHT
      + Larger(prefix, prefixBack) * PREFIX_MATCH_WEIGHT + Larger(role, roleBack);
    return if total < 1.0 then total else 1.0;
  }

  /** The score is symmetric, lies between zero and one, and is one for a text against itself if it
      has any token at all, stopwords included. */
  lemma ScoreProperties(lex: Lexicon, query: seq<string>, candidate: seq<string>)
    ensures Score(lex, query, candidate) == Score(lex, candidate, query)
    ensures 0.0 <= Score(lex, query, candidate) <= 1.0
    ensures Score(lex, query, query) == if query == [] then 0.0 else 1.0
  {
    hide Filtered, Jaccard, SynonymShare, PrefixShare, RoleShare;
    var q, c, same := Filtered(lex, query, candidate), Filtered(lex, candidate, query), Filtered(lex, query, query);
    JaccardProperties(multiset(q), multiset(c));
    BoostBounds(lex, q, c);
    BoostBounds(lex, c, q);
    JaccardProperties(multiset(same), multiset(same));
    BoostBounds(lex, same, same);
    FilterKeepsASubsequence(lex, query, query);
    if query != [] { assert same[0] in multiset(same); }
  }

  /** The first candidate with the best score, if that is positive and reaches the threshold. */
  method BestMatch(lex: Lexicon, query: seq<string>, candidates: seq<seq<string>>, threshold: real)
    returns (best: Option<(nat, real)>)
    ensures best.Some? ==>
      && best.value.0 < |candidates| && best.value.1 == Score(lex, query, candidates[best.value.0]) >= threshold
      && best.value.1 > 0.0
      && (forall i | 0 <= i < |candidates| :: Score(lex, query, candidates[i]) <= best.value.1)
      && (forall i | 0 <= i < best.value.0 :: Score(lex, query, candidates[i]) < best.value.1)
    ensures best.None? ==> forall i | 0 <= i < |candidates| ::
      Score(lex, query, candidates[i]) < threshold || Score(lex, query, candidates[i]) <= 0.0
  {
    hide Score;
    best := None;
    for i := 0 to |candidates|
      invariant best.Some? ==>
        && best.value.0 < i && best.value.1 == Score(lex, query, candidates[best.value.0]) >= threshold
        && best.value.1 > 0.0
        && (forall k | 0 <= k < i :: Score(lex, query, candidates[k]) <= best.value.1)
        && (forall k | 0 <= k < best.value.0 :: Score(lex, query, candidates[k]) < best.value.1)
      invariant best.None? ==> forall k | 0 <= k < i ::
        Score(lex, query, candidates[k]) < threshold || Score(lex, query, candidates[k]) <= 0.0
    {
      var score := ComputeScore(lex, query, candidates[i]);
      var bar := if best.None? then 0.0 else best.value.1;
      if score >= threshold && score > bar {
        best := Some((i, score));
      }
    }
  }
}
