/** Combining block-pattern lists and matching against them (crates/pengu-mesh-cdp/src/adblock.rs). */
module BlockLists {
  import opened FirstSeenOrder
  import opened Glob

  function Flatten(lists: seq<seq<string>>): seq<string> {
    if lists == [] then [] else lists[0] + Flatten(lists[1..])
  }

  method CombineBlockPatterns(lists: seq<seq<string>>) returns (combined: seq<string>)
    ensures combined == FirstSeen(Flatten(lists))
  {
    combined := [];
    var seen: set<string> := {};
    ghost var done: seq<string> := [];
    for i := 0 to |lists|
      invariant done + Flatten(lists[i..]) == Flatten(lists)
      invariant combined == FirstSeen(done)
      invariant forall p :: p in seen <==> p in done
    {
      ghost var start := done;
      for j := 0 to |lists[i]|
        invariant done == start + lists[i][..j]
        invariant combined == FirstSeen(done)
        invariant forall p :: p in seen <==> p in done
      {
        var pattern := lists[i][j];
        assert (done + [pattern])[..|done|] == done;
        if pattern !in seen {
          seen := seen + {pattern};
          combined := combined + [pattern];
        }
        done := done + [pattern];
      }
      assert lists[i][..|lists[i]|] == lists[i];
      assert start + (lists[i] + Flatten(lists[i + 1..])) == start + lists[i] + Flatten(lists[i + 1..]);
    }
    assert done + [] == done;
  }

  class BlockList {
    const patterns: seq<string>

    constructor WithPatterns(given: seq<string>)
      ensures patterns == FirstSeen(given)
    {
      var combined := CombineBlockPatterns([given]);
      assert Flatten([given]) == given + Flatten([]) == given;
      patterns := combined;
    }

    method IsBlocked(url: string) returns (blocked: bool)
      ensures blocked <==> exists p :: p in patterns && Greedy(p, url)
    {
      for i := 0 to |patterns|
        invariant forall p :: p in patterns[..i] ==> !Greedy(p, url)
      {
        blocked := GlobMatch(patterns[i], url);
        if blocked {
          return true;
        }
      }
      return false;
    }
  }

  /** Removing duplicates changes no verdict, and a list all of whose patterns are starless or end
      in a star blocks exactly the URLs that some given pattern means. */
  lemma BlockListMeaning(given: seq<string>, url: string)
    ensures (exists p :: p in FirstSeen(given) && Greedy(p, url)) <==> (exists p :: p in given && Greedy(p, url))
    ensures (forall p :: p in given ==> NoStar(p) || EndsWithStar(p)) ==>
      ((exists p :: p in FirstSeen(given) && Greedy(p, url)) <==> (exists p :: p in given && Matches(p, url)))
  {
    FirstSeenIsOrderedDedup(given);
    forall p | NoStar(p) || EndsWithStar(p) ensures Greedy(p, url) <==> Matches(p, url) {
      GreedyIsCompleteExactlyFor(p);
    }
  }
}
