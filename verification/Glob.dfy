/** The URL glob matcher of the block list (crates/pengu-mesh-cdp/src/adblock.rs): a one-pass,
    leftmost search for the literal segments of a pattern, compared with the meaning of `*`. */
module Glob {
  import opened Common

  // ----- the meaning of a pattern

  /** `*` stands for any run of characters, every other character for itself. */
  ghost predicate Matches(pattern: string, text: string)
    decreases |pattern|
  {
    if pattern == [] then text == []
    else if pattern[0] == '*' then exists k :: 0 <= k <= |text| && Matches(pattern[1..], text[k..])
    else text != [] && text[0] == pattern[0] && Matches(pattern[1..], text[1..])
  }

  predicate NoStar(pattern: string) {
    '*' !in pattern
  }

  predicate EndsWithStar(pattern: string) {
    pattern != [] && pattern[|pattern| - 1] == '*'
  }

  // ----- what the code computes

  /** `str::split('*')`. */
  function Split(pattern: string): (parts: seq<string>)
    ensures parts != []
  {
    if pattern == [] then [[]]
    else
      var rest := Split(pattern[1..]);
      if pattern[0] == '*' then [[]] + rest
      else [[pattern[0]] + rest[0]] + rest[1..]
  }

  predicate OccursAt(text: string, part: string, k: nat) {
    k + |part| <= |text| && text[k..k + |part|] == part
  }

  /** `str::find` from position `pos` on: the leftmost occurrence. */
  function Find(text: string, part: string, pos: nat): (found: Option<nat>)
    ensures found.Some? ==> pos <= found.value && OccursAt(text, part, found.value)
    ensures found.Some? ==> forall k | pos <= k < found.value :: !OccursAt(text, part, k)
    ensures found.None? ==> forall k | pos <= k :: !OccursAt(text, part, k)
    decreases |text| - pos
  {
    if pos + |part| > |text| then None
    else if OccursAt(text, part, pos) then Some(pos)
    else Find(text, part, pos + 1)
  }

  /** Where the leftmost placement of `parts` from `pos` on ends. An anchored placement must begin
      exactly at `pos`; empty parts take no room. */
  function Place(parts: seq<string>, anchored: bool, pos: nat, text: string): (end: Option<nat>)
    requires pos <= |text|
    ensures end.Some? ==> pos <= end.value <= |text|
  {
    if parts == [] then Some(pos)
    else if parts[0] == [] then Place(parts[1..], false, pos, text)
    else
      match Find(text, parts[0], pos)
      case None => None
      case Some(k) =>
        if anchored && k != pos then None
        else Place(parts[1..], false, k + |parts[0]|, text)
  }

  predicate Greedy(pattern: string, text: string) {
    var parts := Split(pattern);
    if |parts| == 1 then pattern == text
    else
      match Place(parts, true, 0, text)
      case None => false
      case Some(end) => EndsWithStar(pattern) || end == |text|
  }

  method GlobMatch(pattern: string, text: string) returns (matched: bool)
    ensures matched <==> Greedy(pattern, text)
  {
    var parts := Split(pattern);
    if |parts| == 1 {
      return pattern == text;
    }
    var pos: nat := 0;
    for i := 0 to |parts|
      invariant pos <= |text|
      invariant Place(parts[i..], i == 0, pos, text) == Place(parts, true, 0, text)
    {
      if parts[i] == [] {
        continue;
      }
      match Find(text, parts[i], pos) {
        case Some(k) =>
          if i == 0 && k != pos {
            return false;
          }
          pos := k + |parts[i]|;
        case None =>
          return false;
      }
    }
    if !EndsWithStar(pattern) {
      return pos == |text|;
    }
    return true;
  }

  // ----- the meaning, segment by segment

  /** `parts` are laid out in `text`: the first at the start, the last at the end. */
  ghost predicate Fits(parts: seq<string>, text: string)
    requires parts != []
    decreases |parts|, 0
  {
    if |parts| == 1 then text == parts[0]
    else parts[0] <= text && FitsAfter(parts[1..], |parts[0]|, text)
  }

  /** The same with a free start at or after `pos`. */
  ghost predicate FitsAfter(parts: seq<string>, pos: nat, text: string)
    requires parts != []
    decreases |parts|, 1
  {
    exists k :: pos <= k <= |text| && Fits(parts, text[k..])
  }

  function Last(parts: seq<string>): string
    requires parts != []
  {
    parts[|parts| - 1]
  }

  function Init(parts: seq<string>): seq<string>
    requires parts != []
  {
    parts[..|parts| - 1]
  }

  lemma {:induction false} MatchesIffFits(pattern: string, text: string)
    ensures Matches(pattern, text) <==> Fits(Split(pattern), text)
    decreases |pattern|
  {
    hide Fits, FitsAfter;
    if pattern == [] {
      FitsOne([], text);
    } else {
      var tail := pattern[1..];
      if pattern[0] == '*' {
        forall k | 0 <= k <= |text| ensures Matches(tail, text[k..]) <==> Fits(Split(tail), text[k..]) {
          MatchesIffFits(tail, text[k..]);
        }
        FitsStar(Split(tail), text);
      } else {
        if text != [] { MatchesIffFits(tail, text[1..]); }
        FitsChar(pattern[0], Split(tail), text);
      }
    }
  }

  lemma FitsOne(part: string, text: string)
    ensures Fits([part], text) <==> text == part
  {
  }

  lemma FitsStar(parts: seq<string>, text: string)
    requires parts != []
    ensures Fits([[]] + parts, text) <==> exists k :: 0 <= k <= |text| && Fits(parts, text[k..])
  {
  }

  lemma FitsChar(c: char, parts: seq<string>, text: string)
    requires parts != []
    ensures Fits([[c] + parts[0]] + parts[1..], text) <==> text != [] && text[0] == c && Fits(parts, text[1..])
  {
    hide FitsAfter;
    var longer := [[c] + parts[0]] + parts[1..];
    assert longer[0] == [c] + parts[0] && longer[1..] == parts[1..];
    if text != [] {
      assert text == [text[0]] + text[1..];
      assert longer[0] <= text <==> text[0] == c && parts[0] <= text[1..];
      assert text == longer[0] <==> text[0] == c && parts[0] == text[1..];
      if |parts| > 1 { FitsAfterShift(parts[1..], |parts[0]|, text); }
    }
  }

  lemma FitsAfterShift(parts: seq<string>, pos: nat, text: string)
    requires parts != [] && text != []
    ensures FitsAfter(parts, pos, text[1..]) <==> FitsAfter(parts, pos + 1, text)
  {
    if k :| pos <= k <= |text[1..]| && Fits(parts, text[1..][k..]) {
      assert text[1..][k..] == text[k + 1..];
    }
    if k :| pos + 1 <= k <= |text| && Fits(parts, text[k..]) {
      assert text[1..][k - 1..] == text[k..];
    }
  }

  ghost predicate EndsWith(text: string, part: string, from: nat) {
    from + |part| <= |text| && text[|text| - |part|..] == part
  }

  /** Leftmost placement loses nothing: `parts` fit after `pos` exactly when all but the last can be
      placed leftmost and what is left over ends with the last one. */
  lemma {:induction false} LeftmostIsComplete(parts: seq<string>, pos: nat, text: string)
    requires parts != [] && pos <= |text|
    ensures FitsAfter(parts, pos, text) <==>
      (var end := Place(Init(parts), false, pos, text);
       end.Some? && EndsWith(text, Last(parts), end.value))
  {
    hide Fits, FitsAfter;
    if |parts| == 1 {
      assert parts == [parts[0]];
      LastFits(parts[0], pos, text);
    } else {
      var h, rest := parts[0], parts[1..];
      assert Init(parts)[0] == h && Init(parts)[1..] == Init(rest) && Last(parts) == Last(rest);
      LeftmostStart(parts, pos, text);
      var f := Find(text, h, pos);
      if f.Some? {
        LeftmostIsComplete(rest, f.value + |h|, text);
      }
      if h == [] { assert OccursAt(text, h, pos); }
    }
  }

  lemma LastFits(part: string, pos: nat, text: string)
    requires pos <= |text|
    ensures FitsAfter([part], pos, text) <==> EndsWith(text, part, pos)
  {
  }

  /** The exchange step: if the first segment can start anywhere, it can start leftmost. */
  lemma LeftmostStart(parts: seq<string>, pos: nat, text: string)
    requires |parts| > 1 && pos <= |text|
    ensures FitsAfter(parts, pos, text) <==>
      (var f := Find(text, parts[0], pos);
       f.Some? && FitsAfter(parts[1..], f.value + |parts[0]|, text))
  {
    HeadFits(parts, pos, text);
    if k: nat :| pos <= k && OccursAt(text, parts[0], k) && FitsAfter(parts[1..], k + |parts[0]|, text) {
      assert Find(text, parts[0], pos).value <= k;
    }
  }

  /** Split off the first segment: it occurs somewhere, and the rest fits behind it. */
  lemma HeadFits(parts: seq<string>, pos: nat, text: string)
    requires |parts| > 1 && pos <= |text|
    ensures FitsAfter(parts, pos, text) <==>
      exists k :: pos <= k && OccursAt(text, parts[0], k) && FitsAfter(parts[1..], k + |parts[0]|, text)
  {
    var h, rest := parts[0], parts[1..];
    if k :| pos <= k <= |text| && Fits(parts, text[k..]) {
      assert FitsAfter(rest, |h|, text[k..]);
      var m :| |h| <= m <= |text[k..]| && Fits(rest, text[k..][m..]);
      assert text[k..][m..] == text[k + m..];
      assert text[k..][..|h|] == h;
      assert OccursAt(text, h, k) && FitsAfter(rest, k + |h|, text);
    }
    if k: nat :| pos <= k && OccursAt(text, h, k) && FitsAfter(rest, k + |h|, text) {
      var m :| k + |h| <= m <= |text| && Fits(rest, text[m..]);
      assert text[k..][m - k..] == text[m..];
      assert h <= text[k..];
      assert FitsAfter(rest, |h|, text[k..]);
    }
  }

  // ----- the exact law

  /** Where the leftmost placement of all segments but the last one ends. */
  function PlacedBeforeLast(pattern: string, text: string): Option<nat> {
    Place(Init(Split(pattern)), true, 0, text)
  }

  /** The reading of a pattern with a star that both sides share. */
  lemma MatchesByPlacement(pattern: string, text: string)
    requires !NoStar(pattern)
    ensures Matches(pattern, text) <==>
      (var end := PlacedBeforeLast(pattern, text);
       end.Some? && EndsWith(text, Last(Split(pattern)), end.value))
  {
    var parts := Split(pattern);
    SplitShape(pattern);
    MatchesIffFits(pattern, text);
    var h, rest := parts[0], parts[1..];
    assert Init(parts)[0] == h && Init(parts)[1..] == Init(rest) && Last(parts) == Last(rest);
    assert h <= text <==> OccursAt(text, h, 0);
    if h <= text { LeftmostIsComplete(rest, |h|, text); }
  }

  lemma {:induction false} SplitShape(pattern: string)
    ensures |Split(pattern)| == 1 <==> NoStar(pattern)
    ensures NoStar(pattern) ==> Split(pattern) == [pattern]
    ensures !NoStar(pattern) ==> (EndsWithStar(pattern) <==> Last(Split(pattern)) == [])
  {
    if pattern == [] {
    } else {
      SplitShape(pattern[1..]);
      assert pattern == [pattern[0]] + pattern[1..];
    }
  }

  lemma {:induction false} PlaceSnoc(parts: seq<string>, anchored: bool, pos: nat, text: string)
    requires |parts| > 1 || (|parts| == 1 && !anchored)
    requires pos <= |text|
    ensures Place(parts, anchored, pos, text) ==
      match Place(Init(parts), anchored, pos, text)
      case None => None
      case Some(end) => Place([Last(parts)], false, end, text)
  {
    hide Find;
    if |parts| == 1 {
      assert parts == [Last(parts)];
    } else {
      var h, rest := parts[0], parts[1..];
      assert Init(parts)[0] == h && Init(parts)[1..] == Init(rest) && Last(parts) == Last(rest);
      if h == [] {
        PlaceSnoc(rest, false, pos, text);
      } else if Find(text, h, pos).Some? {
        PlaceSnoc(rest, false, Find(text, h, pos).value + |h|, text);
      }
    }
  }

  /** The exact law for every pattern and every text. The code says yes just when the pattern really
      matches and, if it has a star but does not end in one, the first place its last segment is
      found at is the end of the text. */
  lemma GreedyIsExactly(pattern: string, text: string)
    ensures Greedy(pattern, text) <==>
      && Matches(pattern, text)
      && (NoStar(pattern) || EndsWithStar(pattern)
          || (var last, end := Last(Split(pattern)), PlacedBeforeLast(pattern, text);
              end.Some? && Find(text, last, end.value) == Some(|text| - |last|)))
  {
    hide Place, Find, Split, Matches;
    SplitShape(pattern);
    if NoStar(pattern) {
      MatchesIffFits(pattern, text);
      FitsOne(pattern, text);
    } else {
      var parts, end := Split(pattern), PlacedBeforeLast(pattern, text);
      MatchesByPlacement(pattern, text);
      PlaceSnoc(parts, true, 0, text);
      if end.Some? { PlaceLast(Last(parts), end.value, text); }
    }
  }

  /** Placing the last segment behind position `end`. */
  lemma PlaceLast(last: string, end: nat, text: string)
    requires end <= |text|
    ensures last == [] ==> Place([last], false, end, text) == Some(end)
    ensures last != [] ==>
      (Place([last], false, end, text) == Some(|text|) <==> Find(text, last, end) == Some(|text| - |last|))
    ensures last != [] && Find(text, last, end) == Some(|text| - |last|) ==> EndsWith(text, last, end)
  {
  }

  /** The code never claims a match that is not one. */
  lemma GreedyIsSound(pattern: string, text: string)
    requires Greedy(pattern, text)
    ensures Matches(pattern, text)
  {
    GreedyIsExactly(pattern, text);
  }

  // ----- which patterns are matched correctly on every text

  function Concat(parts: seq<string>): string {
    if parts == [] then [] else parts[0] + Concat(parts[1..])
  }

  /** A text that matches but that the code rejects: the segments side by side, the last one twice. */
  function Missed(pattern: string): string {
    var parts := Split(pattern);
    Concat(Init(parts)) + Last(parts) + Last(parts)
  }

  lemma {:induction false} FitsSpread(parts: seq<string>, gap: string)
    requires |parts| > 1
    ensures Fits(parts, Concat(Init(parts)) + gap + Last(parts))
  {
    var h, rest := parts[0], parts[1..];
    var text := Concat(Init(parts)) + gap + Last(parts);
    assert Init(parts)[0] == h && Init(parts)[1..] == Init(rest) && Last(parts) == Last(rest);
    if |parts| == 2 {
      assert Init(parts) == [h] && Concat(Init(parts)) == h;
      assert text[|h| + |gap|..] == rest[0];
      assert Fits(rest, text[|h| + |gap|..]);
    } else {
      FitsSpread(rest, gap);
      assert text == h + (Concat(Init(rest)) + gap + Last(rest));
      assert text[|h|..] == Concat(Init(rest)) + gap + Last(rest);
    }
  }

  lemma OccursInside(text: string, a: string, b: string, at: nat)
    requires OccursAt(text, a + b, at)
    ensures OccursAt(text, a, at) && OccursAt(text, b, at + |a|) && at + |a| + |b| <= |text|
  {
    var whole := text[at..at + |a + b|];
    assert text[at..at + |a|] == whole[..|a|] == a;
    assert text[at + |a|..at + |a| + |b|] == whole[|a|..] == b;
  }

  lemma {:induction false} PlacedEarly(parts: seq<string>, pos: nat, at: nat, text: string)
    requires pos <= at && OccursAt(text, Concat(parts), at)
    ensures Place(parts, false, pos, text).Some?
    ensures Place(parts, false, pos, text).value <= at + |Concat(parts)|
  {
    hide Find, OccursAt;
    if parts == [] {
      OccursInside(text, [], [], at);
    } else {
      var h, rest := parts[0], parts[1..];
      OccursInside(text, h, Concat(rest), at);
      if h == [] {
        PlacedEarly(rest, pos, at, text);
      } else {
        PlacedEarly(rest, Find(text, h, pos).value + |h|, at + |h|, text);
      }
    }
  }

  lemma MissedIsMissed(pattern: string)
    requires !NoStar(pattern) && !EndsWithStar(pattern)
    ensures Matches(pattern, Missed(pattern)) && !Greedy(pattern, Missed(pattern))
  {
    var parts, text := Split(pattern), Missed(pattern);
    SplitShape(pattern);
    hide Place, Find, Split, Matches, Fits, Concat;
    var before, last := Init(parts), Last(parts);
    FitsSpread(parts, last);
    MatchesIffFits(pattern, text);
    LeadingParts(before, last + last);
    assert text == Concat(before) + (last + last);
    PlacedEarly(before[1..], |before[0]|, |before[0]|, text);
    PlaceAnchored(before, text);
    GreedyIsExactly(pattern, text);
    assert OccursAt(text, last, |Concat(before)|);
  }

  lemma LeadingParts(parts: seq<string>, rest: string)
    requires parts != []
    ensures var text := Concat(parts) + rest;
      && OccursAt(text, parts[0], 0) && OccursAt(text, Concat(parts[1..]), |parts[0]|)
      && |Concat(parts)| == |parts[0]| + |Concat(parts[1..])|
  {
  }

  /** An anchored first segment that stands at the start is placed there. */
  lemma PlaceAnchored(parts: seq<string>, text: string)
    requires parts != [] && OccursAt(text, parts[0], 0)
    ensures Place(parts, true, 0, text) == Place(parts[1..], false, |parts[0]|, text)
  {
  }

  /** The code meets the meaning of `*` on every text exactly for the patterns that contain no star
      or end in one; every other pattern misses some text. */
  lemma GreedyIsCompleteExactlyFor(pattern: string)
    ensures (forall text :: Greedy(pattern, text) <==> Matches(pattern, text))
      <==> (NoStar(pattern) || EndsWithStar(pattern))
  {
    if NoStar(pattern) || EndsWithStar(pattern) {
      forall text ensures Greedy(pattern, text) <==> Matches(pattern, text) {
        GreedyIsExactly(pattern, text);
      }
    } else {
      MissedIsMissed(pattern);
    }
  }
}
