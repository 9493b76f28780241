/** The word tables of the lexical matcher and the phrases looked up in them
    (crates/pengu-mesh-core/src/semantic.rs). The tables themselves are parameters. */
module Lexicons {
  import opened SynonymIndex

  /** The stopwords, the stopwords that may carry meaning, the words that name roles, the synonyms. */
  datatype Lexicon = Lexicon(stopwords: set<string>, semantic: set<string>, roles: set<string>, synonyms: Index)

  function Join(tokens: seq<string>): string {
    if tokens == [] then ""
    else if |tokens| == 1 then tokens[0]
    else tokens[0] + " " + Join(tokens[1..])
  }

  /** The phrase of `n` tokens from `start` on is one of those built from the tokens. */
  predicate IsPhrase(tokens: seq<string>, n: int, start: int) {
    2 <= n <= 3 && 0 <= start <= |tokens| - n
  }
}
