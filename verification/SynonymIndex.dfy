/** The synonym index built from groups of words (crates/pengu-mesh-core/src/semantic.rs). */
module SynonymIndex {

  datatype Group = Group(canonical: string, synonyms: seq<string>)

  type Index = map<string, set<string>>

  function Lookup(index: Index, word: string): set<string> {
    if word in index then index[word] else {}
  }

  /** `v` is listed under `w`. */
  ghost predicate Has(index: Index, w: string, v: string) {
    v in Lookup(index, w)
  }

  /** `index.entry(word).or_insert_with(HashSet::new)`, then insert `more`. */
  function Extend(index: Index, word: string, more: set<string>): (index': Index)
    ensures index'.Keys == index.Keys + {word}
    ensures forall w, v :: Has(index', w, v) <==> Has(index, w, v) || (w == word && v in more)
  {
    index[word := Lookup(index, word) + more]
  }

  ghost predicate Member(g: Group, word: string) {
    word == g.canonical || word in g.synonyms
  }

  /** What one group puts under `word`: under the canonical word all synonyms; under a synonym the
      canonical word and the other synonyms. */
  ghost predicate Puts(g: Group, word: string, other: string) {
    || (word == g.canonical && other in g.synonyms)
    || (word in g.synonyms && (other == g.canonical || (other in g.synonyms && other != word)))
  }

  ghost predicate IndexOf(index: Index, groups: seq<Group>) {
    && (forall w :: w in index <==> exists g :: g in groups && Member(g, w))
    && (forall w, v :: Has(index, w, v) <==> exists g :: g in groups && Puts(g, w, v))
  }

  method BuildSynonymIndex(groups: seq<Group>) returns (index: Index)
    ensures IndexOf(index, groups)
  {
    index := map[];
    for i := 0 to |groups|
      invariant IndexOf(index, groups[..i])
    {
      ghost var before := index;
      index := AddGroup(index, groups[i]);
      assert groups[..i + 1] == groups[..i] + [groups[i]];
      GroupAdded(before, groups[..i], groups[i], index);
    }
    assert groups[..|groups|] == groups;
  }

  /** `after` is `before` with the words and pairs of one more group. */
  ghost predicate Adds(before: Index, g: Group, after: Index) {
    && (forall w :: w in after <==> w in before || Member(g, w))
    && (forall w, v :: Has(after, w, v) <==> Has(before, w, v) || Puts(g, w, v))
  }

  lemma GroupAdded(before: Index, groups: seq<Group>, g: Group, after: Index)
    requires IndexOf(before, groups) && Adds(before, g, after)
    ensures IndexOf(after, groups + [g])
  {
  }

  method AddGroup(before: Index, g: Group) returns (index: Index)
    ensures Adds(before, g, index)
  {
    index := Extend(before, g.canonical, {});
    for i := 0 to |g.synonyms|
      invariant forall w :: w in index <==> w in before || w == g.canonical
      invariant forall w, v :: Has(index, w, v) <==>
        Has(before, w, v) || (w == g.canonical && v in g.synonyms[..i])
    {
      index := Extend(index, g.canonical, {g.synonyms[i]});
      PrefixGrows(g.synonyms, i);
    }
    assert g.synonyms[..|g.synonyms|] == g.synonyms;
    ghost var first := index;
    for i := 0 to |g.synonyms|
      invariant forall w :: w in index <==> w in before || w == g.canonical || w in g.synonyms[..i]
      invariant forall w, v :: Has(index, w, v) <==>
        Has(first, w, v) || (w in g.synonyms[..i] && PutsUnderSynonym(g, w, v))
    {
      index := AddSynonym(index, g, g.synonyms[i]);
      PrefixGrows(g.synonyms, i);
    }
  }

  lemma PrefixGrows(s: seq<string>, i: nat)
    requires i < |s|
    ensures forall x :: x in s[..i + 1] <==> x in s[..i] || x == s[i]
  {
  }

  method AddSynonym(before: Index, g: Group, synonym: string) returns (index: Index)
    ensures index.Keys == before.Keys + {synonym}
    ensures forall w, v :: Has(index, w, v) <==>
      Has(before, w, v) || (w == synonym && PutsUnderSynonym(g, w, v))
  {
    index := Extend(before, synonym, {g.canonical});
    for j := 0 to |g.synonyms|
      invariant index.Keys == before.Keys + {synonym}
      invariant forall w, v :: Has(index, w, v) <==>
        Has(before, w, v) || (w == synonym && (v == g.canonical || (v != synonym && v in g.synonyms[..j])))
    {
      var other := g.synonyms[j];
      PrefixGrows(g.synonyms, j);
      if synonym != other {
        index := Extend(index, synonym, {other});
      }
    }
    assert g.synonyms[..|g.synonyms|] == g.synonyms;
  }

  ghost predicate PutsUnderSynonym(g: Group, word: string, other: string) {
    other == g.canonical || (other in g.synonyms && other != word)
  }

  // ----- the relation

  /** Two different members of one group. */
  ghost predicate Synonymous(groups: seq<Group>, w: string, v: string) {
    w != v && exists g :: g in groups && Member(g, w) && Member(g, v)
  }

  /** The index is symmetric, whatever the groups. */
  lemma IndexIsSymmetric(index: Index, groups: seq<Group>, w: string, v: string)
    requires IndexOf(index, groups) && Has(index, w, v)
    ensures w in index && v in index && Has(index, v, w)
  {
    var g :| g in groups && Puts(g, w, v);
    assert Puts(g, v, w);
  }

  /** It is exactly the relation "two different members of one group" if and only if no group lists
      its canonical word among its own synonyms; otherwise that word is its own synonym. */
  lemma IndexIsTheRelationExactly(index: Index, groups: seq<Group>)
    requires IndexOf(index, groups)
    ensures (forall w, v :: Has(index, w, v) <==> Synonymous(groups, w, v))
      <==> (forall g :: g in groups ==> g.canonical !in g.synonyms)
  {
    if g :| g in groups && g.canonical in g.synonyms {
      assert Puts(g, g.canonical, g.canonical);
      assert Has(index, g.canonical, g.canonical) && !Synonymous(groups, g.canonical, g.canonical);
    } else {
      forall w, v ensures Has(index, w, v) <==> Synonymous(groups, w, v) {
        forall g | g in groups ensures Puts(g, w, v) <==> w != v && Member(g, w) && Member(g, v) {}
      }
    }
  }
}
