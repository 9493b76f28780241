/** Removing duplicates while keeping the order in which elements were first seen. */
module FirstSeenOrder {
  import opened Common

  /** Keep the elements that have not occurred before. */
  function FirstSeen(s: seq<string>): seq<string> {
    if s == [] then []
    else
      var n := |s| - 1;
      if s[n] in s[..n] then FirstSeen(s[..n]) else FirstSeen(s[..n]) + [s[n]]
  }

  /** `x` occurs in `s` before `y` first does. */
  ghost predicate SeenBefore(s: seq<string>, x: string, y: string) {
    exists i :: 0 <= i < |s| && s[i] == x && y !in s[..i + 1]
  }

  /** The combined list has no duplicates, the same patterns, and their first-seen order. */
  lemma {:induction false} FirstSeenIsOrderedDedup(s: seq<string>)
    ensures Distinct(FirstSeen(s))
    ensures forall x :: x in FirstSeen(s) <==> x in s
    ensures forall i, j | 0 <= i < j < |FirstSeen(s)| :: SeenBefore(s, FirstSeen(s)[i], FirstSeen(s)[j])
  {
    if s == [] {
    } else {
      var n := |s| - 1;
      var before, x, d := s[..n], s[n], FirstSeen(s[..n]);
      FirstSeenIsOrderedDedup(before);
      assert s == before + [x];
      forall i, j | 0 <= i < j < |FirstSeen(s)|
        ensures SeenBefore(s, FirstSeen(s)[i], FirstSeen(s)[j])
      {
        if j < |d| {
          assert SeenBefore(before, d[i], d[j]);
          var k :| 0 <= k < n && before[k] == d[i] && d[j] !in before[..k + 1];
          assert s[..k + 1] == before[..k + 1];
        } else {
          assert d[i] in before;
          var k :| 0 <= k < n && before[k] == d[i];
          assert x !in before;
          assert forall y :: y in s[..k + 1] ==> y in before;
          assert s[k] == d[i];
        }
      }
    }
  }

  /** These three properties leave no choice: any other list with them is the same list. */
  lemma FirstSeenIsTheOnly(s: seq<string>, r: seq<string>)
    requires Distinct(r) && forall x :: x in r <==> x in s
    requires forall i, j | 0 <= i < j < |r| :: SeenBefore(s, r[i], r[j])
    ensures r == FirstSeen(s)
  {
    FirstSeenIsOrderedDedup(s);
    OrderedListsAgree(s, r, FirstSeen(s));
  }

  lemma NotBothBefore(s: seq<string>, x: string, y: string)
    requires SeenBefore(s, x, y)
    ensures !SeenBefore(s, y, x)
  {
  }

  /** The head of an ordered list was seen before every other element. */
  lemma HeadIsFirst(s: seq<string>, a: seq<string>, x: string)
    requires a != [] && x in a
    requires forall i, j | 0 <= i < j < |a| :: SeenBefore(s, a[i], a[j])
    ensures x == a[0] || SeenBefore(s, a[0], x)
  {
  }

  lemma HeadsAgree(s: seq<string>, a: seq<string>, b: seq<string>)
    requires a != [] && b != [] && forall x :: x in a <==> x in b
    requires forall i, j | 0 <= i < j < |a| :: SeenBefore(s, a[i], a[j])
    requires forall i, j | 0 <= i < j < |b| :: SeenBefore(s, b[i], b[j])
    ensures a[0] == b[0]
  {
    HeadIsFirst(s, a, b[0]);
    HeadIsFirst(s, b, a[0]);
    if SeenBefore(s, a[0], b[0]) {
      NotBothBefore(s, a[0], b[0]);
    }
  }

  lemma NoneInEmpty(a: seq<string>, b: seq<string>)
    requires forall x :: x in a ==> x in b
    ensures b == [] ==> a == []
  {
    if a != [] {
      assert a[0] in b;
    }
  }

  lemma {:induction false} OrderedListsAgree(s: seq<string>, a: seq<string>, b: seq<string>)
    requires Distinct(a) && Distinct(b) && forall x :: x in a <==> x in b
    requires forall i, j | 0 <= i < j < |a| :: SeenBefore(s, a[i], a[j])
    requires forall i, j | 0 <= i < j < |b| :: SeenBefore(s, b[i], b[j])
    ensures a == b
  {
    if a != [] && b != [] {
      HeadsAgree(s, a, b);
      forall x ensures x in a[1..] <==> x in b[1..] {
        assert x in a[1..] ==> x in a && x != a[0];
        assert x in b[1..] ==> x in b && x != b[0];
        assert x in a && x != a[0] ==> x in a[1..];
        assert x in b && x != b[0] ==> x in b[1..];
      }
      OrderedListsAgree(s, a[1..], b[1..]);
      assert a == [a[0]] + a[1..] && b == [b[0]] + b[1..];
    } else {
      NoneInEmpty(a, b);
      NoneInEmpty(b, a);
    }
  }
}
