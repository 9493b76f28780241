/** What the lexical score says about short texts: how much a synonym, a prefix, a role and a phrase
    are worth (crates/pengu-mesh-core/src/semantic.rs). */
module WordScores {
  import opened Common
  import opened Text
  import opened Lexicons
  import opened MatchBoosts
  import opened LexicalScore

  /** Two different words that are no stopwords, and of which neither begins the other. */
  predicate Unlike(lex: Lexicon, a: string, b: string) {
    && IsWord(a) && IsWord(b) && Plain(lex, a) && Plain(lex, b)
    && !(a <= b) && !(b <= a)
  }

  predicate Plain(lex: Lexicon, word: string) {
    word !in lex.stopwords && word !in lex.semantic
  }

  /** The index lists `b` under `a`. */
  predicate Lists(lex: Lexicon, a: string, b: string) {
    a in lex.synonyms && b in lex.synonyms[a]
  }

  lemma WordsOfList(words: set<string>, b: string)
    requires IsWord(b)
    requires forall s | s in words :: IsWord(s)
    ensures Echoed(words, [b]) <==> b in words
  {
    forall s | s in words ensures AllIn(Words(s), [b]) <==> s == b {
      WordsOfWord(s);
      assert s in Words(s);
    }
  }

  lemma NoPhraseInWord(lex: Lexicon, a: string, candidate: seq<string>)
    ensures forall i :: !InPhrase(lex, [a], i) && !Consumed(lex, [a], candidate, i)
    ensures EchoedPhrases(lex, [a], candidate) == {}
  {
  }

  lemma PlainWordIsKept(lex: Lexicon, a: string, other: seq<string>)
    requires Plain(lex, a)
    ensures Filtered(lex, [a], other) == [a]
  {
    assert Kept(lex, [a], other, 1) == Kept(lex, [a], other, 0) + [a];
  }

  lemma SynonymShareOfWord(lex: Lexicon, a: string, b: string)
    requires IsWord(b) && a != b
    requires a in lex.synonyms ==> forall s | s in lex.synonyms[a] :: IsWord(s)
    ensures SynonymShare(lex, [a], [b]) == if Lists(lex, a, b) then 1.0 else 0.0
  {
    NoPhraseInWord(lex, a, [b]);
    if a in lex.synonyms { WordsOfList(lex.synonyms[a], b); }
    assert LooseTokens(lex, [a], [b]) == if Lists(lex, a, b) then {0} else {};
  }

  lemma JaccardOfWords(a: string, b: string)
    requires a != b
    ensures Jaccard(multiset([a]), multiset([b])) == 0.0
  {
    assert multiset([a]) * multiset([b]) == multiset{};
  }

  lemma PrefixShareOfWord(a: string, b: string)
    ensures PrefixShare([a], [b]) == if ByteLength(a) < 2 then 0.0 else PrefixRatio(a, b)
  {
    hide ByteLength, PrefixRatio;
    RatioIsProper(a, b);
    assert [a][..0] == [] && [b][..0] == [];
    assert BestRatio(a, [b]) == PrefixRatio(a, b);
    assert PrefixTotal([a], [b]) == if ByteLength(a) < 2 then 0.0 else PrefixRatio(a, b);
  }

  lemma RoleShareOfWord(lex: Lexicon, a: string, b: string)
    requires a != b
    ensures RoleShare(lex, [a], [b]) == if Lists(lex, a, b) && a !in lex.roles && b in lex.roles then 0.096 else 0.0
  {
    assert SharedRoles(lex, [a], [b]) == {};
    var implied := Lists(lex, a, b) && a !in lex.roles && b in lex.roles;
    assert RoleEchoed(lex, [b], a) <==> implied;
    assert ImpliedRoles(lex, [a], [b]) == if implied then {a} else {};
  }

  /** Two words that only the index relates score 0.30, in whichever direction it does, and 0.096 more
      if it leads from a word that is no role to one that is; unrelated words score nothing. */
  lemma UnlikeWordsScore(lex: Lexicon, a: string, b: string)
    requires Unlike(lex, a, b)
    requires a in lex.synonyms ==> forall s | s in lex.synonyms[a] :: IsWord(s)
    requires b in lex.synonyms ==> forall s | s in lex.synonyms[b] :: IsWord(s)
    ensures Score(lex, [a], [b])
      == (if Lists(lex, a, b) || Lists(lex, b, a) then 0.30 else 0.0)
       + (if Lists(lex, a, b) && a !in lex.roles && b in lex.roles then 0.096
          else if Lists(lex, b, a) && b !in lex.roles && a in lex.roles then 0.096 else 0.0)
  {
    hide Filtered, Jaccard, SynonymShare, PrefixShare, RoleShare;
    PlainWordIsKept(lex, a, [b]);
    PlainWordIsKept(lex, b, [a]);
    JaccardOfWords(a, b);
    SynonymShareOfWord(lex, a, b);
    SynonymShareOfWord(lex, b, a);
    PrefixShareOfWord(a, b);
    PrefixShareOfWord(b, a);
    RoleShareOfWord(lex, a, b);
    RoleShareOfWord(lex, b, a);
  }

  /** A word that begins another one, neither of them known to the index: 0.20 times the part that it
      is, and 0.14 times that if it is a single byte, which only the other direction counts. */
  lemma PrefixScores(lex: Lexicon, a: string, b: string)
    requires Plain(lex, a) && Plain(lex, b) && a !in lex.synonyms && b !in lex.synonyms
    requires a != [] && a <= b && a != b
    ensures Score(lex, [a], [b])
      == (if ByteLength(a) >= 2 then 0.20 else 0.14) * (ByteLength(a) as real / ByteLength(b) as real)
  {
    PlainWordIsKept(lex, a, [b]);
    PlainWordIsKept(lex, b, [a]);
    JaccardOfWords(a, b);
    hide Filtered, Jaccard;
    assert SynonymShare(lex, [a], [b]) == SynonymShare(lex, [b], [a]) == 0.0 by {
      NoPhraseInWord(lex, a, [b]);
      NoPhraseInWord(lex, b, [a]);
      assert LooseTokens(lex, [a], [b]) == LooseTokens(lex, [b], [a]) == {};
    }
    RoleShareOfWord(lex, a, b);
    RoleShareOfWord(lex, b, a);
    hide SynonymShare, RoleShare;
    PrefixRatios(a, b);
    PrefixShareOfWord(a, b);
    PrefixShareOfWord(b, a);
    hide PrefixShare, PrefixRatio, ByteLength;
  }

  lemma PrefixRatios(a: string, b: string)
    requires a != [] && a <= b && a != b
    ensures 1 <= ByteLength(a) < ByteLength(b)
    ensures PrefixRatio(a, b) == ByteLength(a) as real / ByteLength(b) as real
    ensures 0.0 <= PrefixRatio(a, b) < 1.0
    ensures PrefixRatio(b, a) == PrefixRatio(a, b) * 0.7
  {
    PrefixIsShorter(a, b);
    RatioIsProper(a, b);
    hide ByteLength;
    assert !(b <= a) && |a| < |b|;
  }

  lemma {:induction false} PrefixIsShorter(a: string, b: string)
    requires a <= b && a != b
    ensures ByteLength(a) < ByteLength(b) && (a != [] ==> ByteLength(a) > 0)
  {
    if a != [] {
      assert b[0] == a[0];
      PrefixIsShorter(a[1..], b[1..]);
    }
  }

  // ----- roles in common

  function Smaller(x: real, y: real): real {
    if x < y then x else y
  }

  /** The score of two texts that the filter leaves alone, from its four parts. */
  lemma KeptTextsScore(lex: Lexicon, q: seq<string>, c: seq<string>, base: real, synonym: real, prefix: real,
                       role: real)
    requires q != [] && c != [] && Filtered(lex, q, c) == q && Filtered(lex, c, q) == c
    requires Jaccard(multiset(q), multiset(c)) == base
    requires Larger(SynonymShare(lex, q, c), SynonymShare(lex, c, q)) == synonym
    requires Larger(PrefixShare(q, c), PrefixShare(c, q)) == prefix
    requires Larger(RoleShare(lex, q, c), RoleShare(lex, c, q)) == role
    ensures Score(lex, q, c) == Smaller(1.0, base + 0.30 * synonym + 0.20 * prefix + role)
  {
    hide Filtered, Jaccard, SynonymShare, PrefixShare, RoleShare;
  }

  lemma {:induction false} PlainTokensAreKept(lex: Lexicon, tokens: seq<string>, other: seq<string>, n: nat)
    requires n <= |tokens| && forall t | t in tokens :: Plain(lex, t)
    ensures Kept(lex, tokens, other, n) == tokens[..n]
  {
    if n == 0 {
    } else {
      PlainTokensAreKept(lex, tokens, other, n - 1);
      assert tokens[n - 1] in tokens;
      assert tokens[..n] == tokens[..n - 1] + [tokens[n - 1]];
    }
  }

  lemma PlainTextIsKept(lex: Lexicon, tokens: seq<string>, other: seq<string>)
    requires forall t | t in tokens :: Plain(lex, t)
    ensures Filtered(lex, tokens, other) == tokens
  {
    PlainTokensAreKept(lex, tokens, other, |tokens|);
    assert tokens[..|tokens|] == tokens;
  }

  /** Neither word begins the other one, unless they are equal. */
  predicate Apart(s: string, t: string) {
    s == t || (!(s <= t) && !(t <= s))
  }

  lemma {:induction false} NoPrefixes(query: seq<string>, candidate: seq<string>)
    requires forall q, c | q in query && c in candidate :: Apart(q, c)
    ensures PrefixTotal(query, candidate) == 0.0
  {
    if query == [] {
    } else {
      var last := query[|query| - 1];
      assert last in query && query == query[..|query| - 1] + [last];
      NoPrefixes(query[..|query| - 1], candidate);
      NoPrefixOf(last, candidate);
      hide Apart, BestRatio;
    }
  }

  lemma {:induction false} NoPrefixOf(q: string, candidate: seq<string>)
    requires forall c | c in candidate :: Apart(q, c)
    ensures BestRatio(q, candidate) == 0.0
  {
    if candidate == [] {
    } else {
      var last := candidate[|candidate| - 1];
      assert last in candidate && candidate == candidate[..|candidate| - 1] + [last];
      NoPrefixOf(q, candidate[..|candidate| - 1]);
    }
  }

  predicate Distinct(s: seq<string>) {
    forall i, j | 0 <= i < j < |s| :: s[i] != s[j]
  }

  lemma {:induction false} DistinctCount(s: seq<string>)
    requires Distinct(s)
    ensures |set t | t in s| == |s|
  {
    if s == [] {
    } else {
      var n := |s| - 1;
      DistinctCount(s[..n]);
      assert s == s[..n] + [s[n]];
      assert (set t | t in s) == (set t | t in s[..n]) + {s[n]};
    }
  }

  lemma NoSynonyms(lex: Lexicon, query: seq<string>, candidate: seq<string>)
    requires lex.synonyms == map[]
    ensures SynonymShare(lex, query, candidate) == 0.0
    ensures ImpliedRoles(lex, query, candidate) == {}
  {
    assert EchoedPhrases(lex, query, candidate) == {} && LooseTokens(lex, query, candidate) == {};
  }

  lemma SharedRolesShare(lex: Lexicon, common: seq<string>, a: string, b: string)
    requires lex.synonyms == map[]
    requires Distinct(common) && forall r | r in common :: r in lex.roles
    requires a != b && a !in common && b !in common
    ensures RoleShare(lex, [a] + common, [b] + common) ==
      if |common| == 0 then 0.0 else if |common| == 1 then 0.12 else if |common| == 2 then 0.24 else 0.25
  {
    NoSynonyms(lex, [a] + common, [b] + common);
    assert SharedRoles(lex, [a] + common, [b] + common) == set t | t in common;
    DistinctCount(common);
  }

  lemma JaccardOfCommon(common: seq<string>, a: string, b: string)
    requires a != b && a !in common && b !in common
    ensures Jaccard(multiset([a] + common), multiset([b] + common)) == |common| as real / (|common| + 2) as real
  {
    var m := multiset(common);
    assert m[a] == 0 && m[b] == 0;
    var q, c := multiset([a] + common), multiset([b] + common);
    assert q == m + multiset{a} && c == m + multiset{b};
    assert q * c == m;
    assert Union(q, c) == m + multiset{a} + multiset{b};
  }

  /** Texts that share distinct role words and differ in one other word, without an index and without
      prefixes: the part of the words that is shared, and 0.12 for each shared role up to 0.25. */
  lemma RolesInCommonScore(lex: Lexicon, common: seq<string>, a: string, b: string)
    requires lex.synonyms == map[]
    requires Distinct(common) && forall r | r in common :: r in lex.roles
    requires a != b && a !in common && b !in common
    requires forall s | s in [a, b] + common :: Plain(lex, s)
    requires forall s, t | s in [a, b] + common && t in [a, b] + common :: Apart(s, t)
    ensures var n := |common|;
      Score(lex, [a] + common, [b] + common) == Smaller(1.0,
        n as real / (n + 2) as real + if n == 0 then 0.0 else if n == 1 then 0.12 else if n == 2 then 0.24 else 0.25)
  {
    hide Filtered, Jaccard, SynonymShare, RoleShare, PrefixTotal, Score, Apart, Plain, Distinct;
    var q, c := [a] + common, [b] + common;
    assert forall s | s in q || s in c :: s in [a, b] + common;
    PlainTextIsKept(lex, q, c);
    PlainTextIsKept(lex, c, q);
    JaccardOfCommon(common, a, b);
    NoSynonyms(lex, q, c);
    NoSynonyms(lex, c, q);
    NoPrefixes(q, c);
    NoPrefixes(c, q);
    SharedRolesShare(lex, common, a, b);
    SharedRolesShare(lex, common, b, a);
    var n := |common|;
    KeptTextsScore(lex, q, c, n as real / (n + 2) as real, 0.0, 0.0,
      if n == 0 then 0.0 else if n == 1 then 0.12 else if n == 2 then 0.24 else 0.25);
  }

  // ----- phrases

  /** A phrase splits into the words that it joins. */
  lemma {:induction false} WordsOfPhrase(words: seq<string>)
    requires forall w | w in words :: IsWord(w)
    ensures Words(Join(words)) == words
  {
    if words == [] {
    } else if |words| == 1 {
      WordsOfWord(words[0]);
    } else {
      assert words == [words[0]] + words[1..];
      WordsOfPhrase(words[1..]);
      hide Words;
      var rest := " " + Join(words[1..]);
      assert Join(words) == words[0] + rest;
      hide Join;
      WordsBehindBlank(Join(words[1..]));
      FirstWord(words[0], rest);
    }
  }

  lemma WordsBehindBlank(s: string)
    ensures Words(" " + s) == Words(s)
  {
    assert (" " + s)[1..] == s;
  }

  /** The length of a word in bytes is that of its UTF-8 encoding. */
  lemma {:induction false} ByteLengthIsUtf8Length(s: string)
    ensures ByteLength(s) == |Utf8(s)|
  {
    if s == [] {
    } else {
      ByteLengthIsUtf8Length(s[1..]);
    }
  }

  lemma PhraseIsKept(lex: Lexicon, a: string, b: string, other: seq<string>)
    requires a + " " + b in lex.synonyms
    ensures Filtered(lex, [a, b], other) == [a, b]
  {
    PhraseOfTwo(a, b);
    assert IsPhraseAround(lex, [a, b], 2, 0, 0) && IsPhraseAround(lex, [a, b], 2, 0, 1) by {
      assert [a, b][0..0 + 2] == [a, b];
    }
    assert Kept(lex, [a, b], other, 1) == Kept(lex, [a, b], other, 0) + [a];
    assert Kept(lex, [a, b], other, 2) == Kept(lex, [a, b], other, 1) + [b];
  }

  lemma PhraseOfTwo(a: string, b: string)
    ensures Join([a, b]) == a + " " + b
  {
    assert [a, b][1..] == [b];
  }

  lemma EchoedPhraseShare(lex: Lexicon, a: string, b: string, c: string)
    requires IsWord(c) && lex.synonyms == map[a + " " + b := {c}]
    ensures SynonymShare(lex, [a, b], [c]) == 0.5
  {
    PhraseOfTwo(a, b);
    WordsOfWord(c);
    assert [a, b][0..0 + 2] == [a, b];
    var phrase := a + " " + b;
    assert |phrase| > |a| && |phrase| > |b|;
    assert AllIn(Words(c), [c]);
    assert PhraseEchoed(lex, [a, b], [c], 2, 0);
    assert EchoedPhrases(lex, [a, b], [c]) == {(2, 0)};
    assert LooseTokens(lex, [a, b], [c]) == {};
  }

  /** A phrase of two words, stopwords or not, that the index translates into one word: half of the
      0.30, since each word of the text counts. */
  lemma PhraseScore(lex: Lexicon, a: string, b: string, c: string)
    requires IsWord(a) && IsWord(b) && IsWord(c) && Plain(lex, c)
    requires lex.synonyms == map[a + " " + b := {c}]
    requires c !in {a, b} && Apart(a, c) && Apart(b, c)
    ensures Score(lex, [a, b], [c]) == 0.15
  {
    hide Filtered, Jaccard, PrefixTotal, RoleShare, Score, Plain, EchoedPhrases;
    PhraseIsKept(lex, a, b, [c]);
    PlainWordIsKept(lex, c, [a, b]);
    EchoedPhraseShare(lex, a, b, c);
    hide SynonymShare;
    NothingBack(lex, a, b, c);
    NoPrefixes([a, b], [c]);
    NoPrefixes([c], [a, b]);
    NoRoles(lex, a, b, c);
    KeptTextsScore(lex, [a, b], [c], 0.0, 0.5, 0.0, 0.0);
  }

  lemma NothingBack(lex: Lexicon, a: string, b: string, c: string)
    requires IsWord(c) && c !in {a, b} && lex.synonyms == map[a + " " + b := {c}]
    ensures SynonymShare(lex, [c], [a, b]) == 0.0
    ensures Jaccard(multiset([a, b]), multiset([c])) == 0.0
  {
    var phrase := a + " " + b;
    assert phrase[|a|] == ' ' && phrase[|a|] in phrase;
    assert c !in lex.synonyms;
    NoPhraseInWord(lex, c, [a, b]);
    assert LooseTokens(lex, [c], [a, b]) == {};
    assert multiset([a, b]) * multiset([c]) == multiset{};
  }

  lemma NoRoles(lex: Lexicon, a: string, b: string, c: string)
    requires IsWord(c) && c !in {a, b}
    requires lex.synonyms == map[a + " " + b := {c}]
    ensures RoleShare(lex, [a, b], [c]) == 0.0 && RoleShare(lex, [c], [a, b]) == 0.0
  {
    var phrase := a + " " + b;
    assert |phrase| > |a| && |phrase| > |b| && phrase[|a|] == ' ';
    assert SharedRoles(lex, [a, b], [c]) == {} && SharedRoles(lex, [c], [a, b]) == {};
    assert ImpliedRoles(lex, [a, b], [c]) == {} && ImpliedRoles(lex, [c], [a, b]) == {};
  }
}
