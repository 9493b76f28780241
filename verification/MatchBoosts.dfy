/** The three boosts of the lexical score: synonyms, prefixes and roles
    (crates/pengu-mesh-core/src/semantic.rs). Scores are exact reals. */
module MatchBoosts {
  import opened Common
  import opened Lexicons
  import opened Text

  const ROLE_BOOST_PER_MATCH := 0.12
  const ROLE_BOOST_CAP := 0.25

  function Larger(x: real, y: real): real {
    if x < y then y else x
  }

  // ----- synonyms

  /** All words of one of the synonyms occur in the candidate. */
  predicate Echoed(synonyms: set<string>, candidate: seq<string>) {
    exists s :: s in synonyms && AllIn(Words(s), candidate)
  }

  predicate AllIn(words: seq<string>, candidate: seq<string>) {
    forall w :: w in words ==> w in candidate
  }

  method FindEcho(synonyms: set<string>, candidate: seq<string>) returns (found: bool)
    ensures found <==> Echoed(synonyms, candidate)
  {
    var todo := synonyms;
    while todo != {}
      invariant todo <= synonyms
      invariant forall s :: s in synonyms && s !in todo ==> !AllIn(Words(s), candidate)
      decreases |todo|
    {
      var s :| s in todo;
      if AllIn(Words(s), candidate) {
        return true;
      }
      todo := todo - {s};
    }
    return false;
  }

  predicate PhraseEchoed(lex: Lexicon, query: seq<string>, candidate: seq<string>, n: int, start: int) {
    && IsPhrase(query, n, start)
    && Join(query[start..start + n]) in lex.synonyms
    && Echoed(lex.synonyms[Join(query[start..start + n])], candidate)
  }

  ghost function EchoedPhrases(lex: Lexicon, query: seq<string>, candidate: seq<string>): set<(int, int)> {
    set n, start | 2 <= n <= 3 && 0 <= start < |query| && PhraseEchoed(lex, query, candidate, n, start) :: (n, start)
  }

  /** Token `i` lies in an echoed phrase, so it does not count again by itself. */
  ghost predicate Consumed(lex: Lexicon, query: seq<string>, candidate: seq<string>, i: int) {
    exists n, start :: PhraseEchoed(lex, query, candidate, n, start) && start <= i < start + n
  }

  predicate TokenEchoed(lex: Lexicon, query: seq<string>, candidate: seq<string>, i: int) {
    && 0 <= i < |query| && query[i] !in candidate
    && query[i] in lex.synonyms && Echoed(lex.synonyms[query[i]], candidate)
  }

  ghost function LooseTokens(lex: Lexicon, query: seq<string>, candidate: seq<string>): set<int> {
    set i | 0 <= i < |query| && TokenEchoed(lex, query, candidate, i) && !Consumed(lex, query, candidate, i)
  }

  /** The echoed phrases, overlapping or not, and the echoed tokens outside them, per query token. */
  ghost function SynonymShare(lex: Lexicon, query: seq<string>, candidate: seq<string>): real {
    if query == [] || candidate == [] then 0.0
    else (|EchoedPhrases(lex, query, candidate)| + |LooseTokens(lex, query, candidate)|) as real / |query| as real
  }

  method SynonymScore(lex: Lexicon, query: seq<string>, candidate: seq<string>) returns (score: real)
    ensures score == SynonymShare(lex, query, candidate)
  {
    if query == [] || candidate == [] {
      return 0.0;
    }
    var matched, consumed := MatchPhrases(lex, query, candidate);
    ghost var loose: set<int> := {};
    ghost var phrases := matched;
    for i := 0 to |query|
      invariant matched == phrases + |loose|
      invariant forall k :: k in loose <==> k < i && k in LooseTokens(lex, query, candidate)
    {
      if i !in consumed && query[i] !in candidate && query[i] in lex.synonyms {
        var found := FindEcho(lex.synonyms[query[i]], candidate);
        if found {
          matched := matched + 1;
          loose := loose + {i};
        }
      }
    }
    assert loose == LooseTokens(lex, query, candidate);
    return matched as real / |query| as real;
  }

  predicate InSpan(phrase: (int, int), i: int) {
    phrase.1 <= i < phrase.1 + phrase.0
  }

  ghost predicate Covered(phrases: set<(int, int)>, i: int) {
    exists p :: p in phrases && InSpan(p, i)
  }

  method MatchPhrases(lex: Lexicon, query: seq<string>, candidate: seq<string>)
    returns (matched: nat, consumed: set<int>)
    ensures matched == |EchoedPhrases(lex, query, candidate)|
    ensures forall i :: i in consumed <==> Consumed(lex, query, candidate, i)
  {
    hide Covered, InSpan, PhraseEchoed;
    matched, consumed := 0, {};
    ghost var done: set<(int, int)> := {};
    NoneCovered();
    PhraseBounds(lex, query, candidate);
    var longest := Min(3, |query|);
    var n := 2;
    while n <= longest
      invariant 2 <= n
      invariant matched == |done|
      invariant forall p :: p in done <==> p.0 < n && PhraseEchoed(lex, query, candidate, p.0, p.1)
      invariant forall i :: i in consumed <==> Covered(done, i)
    {
      ghost var shorter := done;
      for start := 0 to |query| - n + 1
        invariant matched == |done|
        invariant forall p :: p in done <==>
          p in shorter || (p.0 == n && p.1 < start && PhraseEchoed(lex, query, candidate, p.0, p.1))
        invariant forall i :: i in consumed <==> Covered(done, i)
      {
        var found := MatchPhrase(lex, query, candidate, n, start);
        if found {
          matched := matched + 1;
          ghost var outside := consumed;
          for i := start to start + n
            invariant forall k :: k in consumed <==> k in outside || start <= k < i
          {
            consumed := consumed + {i};
          }
          CoveredNext(done, (n, start));
          done := done + {(n, start)};
        }
      }
      n := n + 1;
    }
    assert done == EchoedPhrases(lex, query, candidate);
    ConsumedIsCovered(lex, query, candidate);
  }

  method MatchPhrase(lex: Lexicon, query: seq<string>, candidate: seq<string>, n: nat, start: nat) returns (found: bool)
    requires IsPhrase(query, n, start)
    ensures found <==> PhraseEchoed(lex, query, candidate, n, start)
  {
    var phrase := Join(query[start..start + n]);
    if phrase in lex.synonyms {
      found := FindEcho(lex.synonyms[phrase], candidate);
    } else {
      found := false;
    }
  }

  lemma PhraseBounds(lex: Lexicon, query: seq<string>, candidate: seq<string>)
    ensures forall n, start :: PhraseEchoed(lex, query, candidate, n, start) ==>
      2 <= n <= 3 && n <= |query| && 0 <= start < |query| - n + 1
  {
  }

  lemma NoneCovered()
    ensures forall i :: !Covered({}, i)
  {
  }

  lemma CoveredNext(phrases: set<(int, int)>, p: (int, int))
    ensures forall i :: Covered(phrases + {p}, i) <==> Covered(phrases, i) || p.1 <= i < p.1 + p.0
  {
  }

  lemma ConsumedIsCovered(lex: Lexicon, query: seq<string>, candidate: seq<string>)
    ensures forall i :: Covered(EchoedPhrases(lex, query, candidate), i) <==> Consumed(lex, query, candidate, i)
  {
    hide PhraseEchoed;
    PhraseBounds(lex, query, candidate);
    forall i ensures Covered(EchoedPhrases(lex, query, candidate), i) <==> Consumed(lex, query, candidate, i) {
      if n, start :| PhraseEchoed(lex, query, candidate, n, start) && start <= i < start + n {
        assert (n, start) in EchoedPhrases(lex, query, candidate) && InSpan((n, start), i);
      }
    }
  }

  // ----- prefixes

  /** The length of the UTF-8 encoding, which is what the source compares. */
  function ByteLength(s: string): nat {
    if s == [] then 0
    else
      var c := s[0] as int;
      (if c < 0x80 then 1 else if c < 0x800 then 2 else if c < 0x1_0000 then 3 else 4) + ByteLength(s[1..])
  }

  /** How much of the longer word the shorter one is, if it begins it; less if the query is longer. */
  function PrefixRatio(query: string, candidate: string): real {
    var q, c := ByteLength(query), ByteLength(candidate);
    if query == candidate then 0.0
    else if c > q && query <= candidate then q as real / c as real
    else if q > c && candidate <= query then c as real / q as real * 0.7
    else 0.0
  }

  function BestRatio(query: string, candidates: seq<string>): real {
    if candidates == [] then 0.0
    else Larger(BestRatio(query, candidates[..|candidates| - 1]), PrefixRatio(query, candidates[|candidates| - 1]))
  }

  function PrefixTotal(query: seq<string>, candidate: seq<string>): real {
    if query == [] then 0.0
    else
      var last := query[|query| - 1];
      PrefixTotal(query[..|query| - 1], candidate) + if ByteLength(last) < 2 then 0.0 else BestRatio(last, candidate)
  }

  function PrefixShare(query: seq<string>, candidate: seq<string>): real {
    if query == [] then 0.0 else PrefixTotal(query, candidate) / |query| as real
  }

  method TokenPrefixScore(query: seq<string>, candidate: seq<string>) returns (score: real)
    ensures score == PrefixShare(query, candidate)
  {
    if query == [] {
      return 0.0;
    }
    var total := 0.0;
    for i := 0 to |query|
      invariant total == PrefixTotal(query[..i], candidate)
    {
      assert query[..i + 1][..i] == query[..i];
      if ByteLength(query[i]) < 2 {
        continue;
      }
      var best := 0.0;
      for j := 0 to |candidate|
        invariant best == BestRatio(query[i], candidate[..j])
      {
        assert candidate[..j + 1][..j] == candidate[..j];
        best := Larger(best, PrefixRatio(query[i], candidate[j]));
      }
      assert candidate[..|candidate|] == candidate;
      total := total + best;
    }
    assert query[..|query|] == query;
    return total / |query| as real;
  }

  lemma RatioIsPart(x: nat, y: nat)
    requires x < y
    ensures 0.0 <= x as real / y as real < 1.0
  {
  }

  lemma RatioIsProper(query: string, candidate: string)
    ensures 0.0 <= PrefixRatio(query, candidate) < 1.0
  {
    var q, c := ByteLength(query), ByteLength(candidate);
    if q < c { RatioIsPart(q, c); }
    if c < q { RatioIsPart(c, q); }
  }

  /** The best ratio is the largest one, and a proper part. */
  lemma {:induction false} BestRatioIsMaximum(query: string, candidates: seq<string>)
    ensures forall c :: c in candidates ==> PrefixRatio(query, c) <= BestRatio(query, candidates)
    ensures
      || BestRatio(query, candidates) == 0.0
      || exists c :: c in candidates && PrefixRatio(query, c) == BestRatio(query, candidates)
    ensures 0.0 <= BestRatio(query, candidates) < 1.0
  {
    hide PrefixRatio;
    if candidates == [] {
    } else {
      var n := |candidates| - 1;
      assert candidates == candidates[..n] + [candidates[n]];
      BestRatioIsMaximum(query, candidates[..n]);
      RatioIsProper(query, candidates[n]);
    }
  }

  lemma {:induction false} PrefixTotalBounds(query: seq<string>, candidate: seq<string>)
    ensures 0.0 <= PrefixTotal(query, candidate) <= |query| as real
  {
    hide BestRatio, ByteLength;
    if query == [] {
    } else {
      PrefixTotalBounds(query[..|query| - 1], candidate);
      BestRatioIsMaximum(query[|query| - 1], candidate);
    }
  }

  // ----- roles

  function SharedRoles(lex: Lexicon, query: seq<string>, candidate: seq<string>): set<string> {
    set t | t in query && t in lex.roles && t in candidate
  }

  predicate RoleEchoed(lex: Lexicon, candidate: seq<string>, t: string) {
    && t !in lex.roles && t in lex.synonyms
    && exists s :: s in lex.synonyms[t] && s in lex.roles && s in candidate
  }

  function ImpliedRoles(lex: Lexicon, query: seq<string>, candidate: seq<string>): set<string> {
    set t | t in query && RoleEchoed(lex, candidate, t)
  }

  function RoleShare(lex: Lexicon, query: seq<string>, candidate: seq<string>): (r: real)
    ensures 0.0 <= r <= ROLE_BOOST_CAP
  {
    var boost := ROLE_BOOST_PER_MATCH * |SharedRoles(lex, query, candidate)| as real
      + ROLE_BOOST_PER_MATCH * 0.8 * |ImpliedRoles(lex, query, candidate)| as real;
    if boost < ROLE_BOOST_CAP then boost else ROLE_BOOST_CAP
  }

  method RoleOverlapBoost(lex: Lexicon, query: seq<string>, candidate: seq<string>) returns (boost: real)
    ensures boost == RoleShare(lex, query, candidate)
  {
    hide SharedRoles, ImpliedRoles;
    boost := BoostSharedRoles(lex, query, candidate);
    boost := BoostImpliedRoles(lex, query, candidate, boost);
    boost := if boost < ROLE_BOOST_CAP then boost else ROLE_BOOST_CAP;
  }

  method BoostSharedRoles(lex: Lexicon, query: seq<string>, candidate: seq<string>) returns (boost: real)
    ensures boost == ROLE_BOOST_PER_MATCH * |SharedRoles(lex, query, candidate)| as real
  {
    boost := 0.0;
    ghost var shared: set<string> := {};
    var todo := set t | t in query;
    while todo != {}
      invariant forall t :: t in todo ==> t in query
      invariant forall t :: t in shared <==> t in SharedRoles(lex, query, candidate) && t !in todo
      invariant boost == ROLE_BOOST_PER_MATCH * |shared| as real
      decreases |todo|
    {
      var t :| t in todo;
      if t in lex.roles && t in candidate {
        boost := boost + ROLE_BOOST_PER_MATCH;
        shared := shared + {t};
      }
      todo := todo - {t};
    }
    assert shared == SharedRoles(lex, query, candidate);
  }

  method BoostImpliedRoles(lex: Lexicon, query: seq<string>, candidate: seq<string>, start: real) returns (boost: real)
    ensures boost == start + ROLE_BOOST_PER_MATCH * 0.8 * |ImpliedRoles(lex, query, candidate)| as real
  {
    hide RoleEchoed;
    boost := start;
    ghost var implied: set<string> := {};
    var todo := set t | t in query;
    while todo != {}
      invariant forall t :: t in todo ==> t in query
      invariant forall t :: t in implied <==> t in ImpliedRoles(lex, query, candidate) && t !in todo
      invariant boost == start + ROLE_BOOST_PER_MATCH * 0.8 * |implied| as real
      decreases |todo|
    {
      var t :| t in todo;
      if RoleEchoed(lex, candidate, t) {
        boost := boost + ROLE_BOOST_PER_MATCH * 0.8;
        implied := implied + {t};
      }
      todo := todo - {t};
    }
    assert implied == ImpliedRoles(lex, query, candidate);
  }

  /** No boost is negative, and only the one for synonyms can exceed one. */
  lemma BoostBounds(lex: Lexicon, query: seq<string>, candidate: seq<string>)
    ensures SynonymShare(lex, query, candidate) >= 0.0
    ensures 0.0 <= PrefixShare(query, candidate) <= 1.0
    ensures 0.0 <= RoleShare(lex, query, candidate) <= ROLE_BOOST_CAP
  {
    PrefixTotalBounds(query, candidate);
    if query != [] {
      QuotientInUnit(PrefixTotal(query, candidate), |query| as real);
    }
  }

  lemma QuotientInUnit(x: real, y: real)
    requires 0.0 <= x <= y && y > 0.0
    ensures 0.0 <= x / y <= 1.0
  {
  }
}
