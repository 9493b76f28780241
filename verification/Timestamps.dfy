/** RFC 3339 time stamps in UTC as the store keeps and compares them: as text
    (crates/pengu-mesh-shared/src/outcome.rs). The date and time to the second have a fixed width, so
    that their order as text is that of time; the fraction of a second is written without trailing
    zeros, and not at all if it is zero. */
module Timestamps {
  import opened TaskOrder

  /** `second` is the date and time up to the second, `fraction` the digits after the point. */
  datatype Stamp = Stamp(second: string, fraction: string)

  const SECOND_WIDTH := 19

  /** Digits that do not end in a zero. */
  predicate Digits(s: string) {
    (forall c | c in s :: '0' <= c <= '9') && (s != [] ==> s[|s| - 1] != '0')
  }

  predicate IsStamp(s: Stamp) {
    |s.second| == SECOND_WIDTH && Digits(s.fraction)
  }

  function Format(s: Stamp): string {
    s.second + Tail(s.fraction)
  }

  function Tail(fraction: string): string {
    if fraction == [] then "Z" else "." + fraction + "Z"
  }

  /** The value of a fraction, as a part of a second. */
  function Fraction(digits: string): real {
    if digits == [] then 0.0 else ((digits[0] as int - '0' as int) as real + Fraction(digits[1..])) / 10.0
  }

  predicate Earlier(a: Stamp, b: Stamp) {
    StringLess(a.second, b.second) || (a.second == b.second && Fraction(a.fraction) < Fraction(b.fraction))
  }

  lemma {:induction false} FractionBounds(s: string)
    requires Digits(s)
    ensures 0.0 <= Fraction(s) < 1.0 && (Fraction(s) == 0.0 <==> s == [])
  {
    if s == [] {
    } else {
      assert s[0] in s && forall c | c in s[1..] :: c in s;
      FractionBounds(s[1..]);
    }
  }

  /** Fractions without trailing zeros are ordered like their digits, a proper prefix first. */
  lemma {:induction false} FractionOrder(s: string, t: string)
    requires Digits(s) && Digits(t)
    ensures Fraction(s) < Fraction(t) <==> StringLess(s, t)
  {
    if s == [] || t == [] {
      FractionBounds(s);
      FractionBounds(t);
    } else {
      assert s[0] in s && t[0] in t && (forall c | c in s[1..] :: c in s) && (forall c | c in t[1..] :: c in t);
      FractionBounds(s[1..]);
      FractionBounds(t[1..]);
      FractionOrder(s[1..], t[1..]);
    }
  }

  lemma {:induction false} CommonPrefix(prefix: string, s: string, t: string)
    ensures StringLess(prefix + s, prefix + t) <==> StringLess(s, t)
  {
    if prefix == [] {
      assert prefix + s == s && prefix + t == t;
    } else {
      assert (prefix + s)[1..] == prefix[1..] + s && (prefix + t)[1..] == prefix[1..] + t;
      CommonPrefix(prefix[1..], s, t);
    }
  }

  /** Texts that begin with different strings of one length are ordered like these. */
  lemma {:induction false} DifferentPrefixes(a: string, b: string, s: string, t: string)
    requires |a| == |b| && a != b
    ensures StringLess(a + s, b + t) <==> StringLess(a, b)
  {
    assert a == [a[0]] + a[1..] && b == [b[0]] + b[1..];
    assert (a + s)[1..] == a[1..] + s && (b + t)[1..] == b[1..] + t;
    if a[0] == b[0] {
      DifferentPrefixes(a[1..], b[1..], s, t);
    }
  }

  /** With the final `Z` the longer of two fractions comes first if one begins the other. */
  lemma {:induction false} TerminatedOrder(s: string, t: string)
    requires Digits(s) && Digits(t)
    ensures StringLess(s + "Z", t + "Z") <==> (t < s || (StringLess(s, t) && !(s < t)))
  {
    if s == [] || t == [] {
      assert s != [] ==> s[0] in s && (s + "Z")[0] == s[0];
      assert t != [] ==> t[0] in t && (t + "Z")[0] == t[0];
      assert "Z"[1..] == "";
    } else {
      assert s == [s[0]] + s[1..] && t == [t[0]] + t[1..];
      assert (s + "Z")[1..] == s[1..] + "Z" && (t + "Z")[1..] == t[1..] + "Z";
      assert (forall c | c in s[1..] :: c in s) && (forall c | c in t[1..] :: c in t);
      TerminatedOrder(s[1..], t[1..]);
      assert s[0] == t[0] ==> (s < t <==> s[1..] < t[1..]) && (t < s <==> t[1..] < s[1..]);
    }
  }

  lemma TailOrder(s: string, t: string)
    requires Digits(s) && Digits(t)
    ensures StringLess(Tail(s), Tail(t)) <==> (t < s || (StringLess(s, t) && !(s < t)))
  {
    if s != [] && t != [] {
      assert Tail(s) == "." + (s + "Z") && Tail(t) == "." + (t + "Z");
      CommonPrefix(".", s + "Z", t + "Z");
      TerminatedOrder(s, t);
    } else {
      assert s != [] ==> Tail(s)[0] == '.';
      assert t != [] ==> Tail(t)[0] == '.';
      assert "Z"[1..] == "";
    }
  }

  /** One stamp's fraction begins the other's, within one second. */
  predicate Confusable(a: Stamp, b: Stamp) {
    a.second == b.second && (a.fraction < b.fraction || b.fraction < a.fraction)
  }

  lemma {:induction false} PrefixIsLess(s: string, t: string)
    requires s < t
    ensures StringLess(s, t) && !StringLess(t, s)
  {
    if s == [] {
    } else {
      PrefixIsLess(s[1..], t[1..]);
    }
  }

  /** The text of one stamp comes before that of another exactly if it is the earlier one, unless the
      two are confusable: then the order as text is the reverse of time. */
  lemma TextOrderIsTimeOrder(a: Stamp, b: Stamp)
    requires IsStamp(a) && IsStamp(b)
    ensures StringLess(Format(a), Format(b)) <==> if Confusable(a, b) then Earlier(b, a) else Earlier(a, b)
    ensures Confusable(a, b) ==> Earlier(a, b) || Earlier(b, a)
    ensures !(Earlier(a, b) && Earlier(b, a))
  {
    StringLessIrreflexive(a.second);
    if StringLess(a.second, b.second) && StringLess(b.second, a.second) {
      StringLessTransitive(a.second, b.second, a.second);
    }
    FractionOrder(a.fraction, b.fraction);
    FractionOrder(b.fraction, a.fraction);
    if a.fraction < b.fraction { PrefixIsLess(a.fraction, b.fraction); }
    if b.fraction < a.fraction { PrefixIsLess(b.fraction, a.fraction); }
    if a.second == b.second {
      CommonPrefix(a.second, Tail(a.fraction), Tail(b.fraction));
      TailOrder(a.fraction, b.fraction);
    } else {
      DifferentPrefixes(a.second, b.second, Tail(a.fraction), Tail(b.fraction));
    }
  }

  /** So comparing two stamps as text compares them in time exactly if they are not confusable. */
  lemma TextOrderIsTimeOrderExactly(a: Stamp, b: Stamp)
    requires IsStamp(a) && IsStamp(b)
    ensures (StringLess(Format(a), Format(b)) <==> Earlier(a, b)) <==> !Confusable(a, b)
  {
    TextOrderIsTimeOrder(a, b);
  }
}
