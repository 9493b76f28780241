/** The parts of the Rust string library that both protocol readers rely on: UTF-8 decoding,
    trimming, ASCII case folding, and decimal numbers. */
module Text {
  import opened Common

  // ----- UTF-8

  predicate Continues(b: byte) {
    0x80 <= b < 0xC0
  }

  /** The first character of `b` and the number of bytes it takes, if `b` begins with one. */
  function FirstChar(b: Bytes): (first: Option<(char, nat)>)
    requires b != []
    ensures first.Some? ==> 0 < first.value.1 <= |b|
  {
    var b0: int := b[0];
    var b1: int := if |b| >= 2 && Continues(b[1]) then b[1] - 0x80 else -1;
    var b2: int := if |b| >= 3 && Continues(b[2]) then b[2] - 0x80 else -1;
    var b3: int := if |b| >= 4 && Continues(b[3]) then b[3] - 0x80 else -1;
    if b0 < 0x80 then Some((b0 as char, 1))
    else if 0xC2 <= b0 < 0xE0 && b1 >= 0 then
      Some((((b0 - 0xC0) * 0x40 + b1) as char, 2))
    else if 0xE0 <= b0 < 0xF0 && b1 >= 0 && b2 >= 0 && (b0 == 0xE0 ==> b1 >= 0x20) && (b0 == 0xED ==> b1 < 0x20) then
      Some((((b0 - 0xE0) * 0x1000 + b1 * 0x40 + b2) as char, 3))
    else if
      && 0xF0 <= b0 < 0xF5 && b1 >= 0 && b2 >= 0 && b3 >= 0
      && (b0 == 0xF0 ==> b1 >= 0x10) && (b0 == 0xF4 ==> b1 < 0x10)
    then
      Some((((b0 - 0xF0) * 0x40000 + b1 * 0x1000 + b2 * 0x40 + b3) as char, 4))
    else None
  }

  /** `str::from_utf8`. */
  function Decode(b: Bytes): Option<string> {
    if b == [] then Some([])
    else
      match FirstChar(b)
      case None => None
      case Some((c, n)) =>
        match Decode(b[n..])
        case None => None
        case Some(rest) => Some([c] + rest)
  }

  /** The encoding of a character (section 3 of RFC 3629). */
  function Utf8Char(c: char): (b: Bytes)
    ensures 1 <= |b| <= 4
  {
    var n := c as int;
    if n < 0x80 then [n]
    else if n < 0x800 then [0xC0 + n / 0x40, 0x80 + n % 0x40]
    else if n < 0x1_0000 then [0xE0 + n / 0x1000, 0x80 + n / 0x40 % 0x40, 0x80 + n % 0x40]
    else [0xF0 + n / 0x40000, 0x80 + n / 0x1000 % 0x40, 0x80 + n / 0x40 % 0x40, 0x80 + n % 0x40]
  }

  function Utf8(s: string): Bytes {
    if s == [] then [] else Utf8Char(s[0]) + Utf8(s[1..])
  }

  /** A number and its four digits to the base 64. */
  lemma Digits64(n: nat, x0: nat, x1: nat, x2: nat, x3: nat)
    requires x1 < 0x40 && x2 < 0x40 && x3 < 0x40
    ensures n == ((x0 * 0x40 + x1) * 0x40 + x2) * 0x40 + x3 <==>
      x0 == n / 0x40000 && x1 == n / 0x1000 % 0x40 && x2 == n / 0x40 % 0x40 && x3 == n % 0x40
  {
    NextDigit(n, (x0 * 0x40 + x1) * 0x40 + x2, x3);
    NextDigit(n / 0x40, x0 * 0x40 + x1, x2);
    NextDigit(n / 0x1000, x0, x1);
  }

  lemma NextDigit(n: nat, high: nat, low: nat)
    requires low < 0x40
    ensures n == high * 0x40 + low <==> high == n / 0x40 && low == n % 0x40
  {
  }

  lemma FirstCharOfUtf8(c: char, rest: Bytes)
    ensures FirstChar(Utf8Char(c) + rest) == Some((c, |Utf8Char(c)|))
  {
    var n := c as int;
    var x0, x1, x2, x3 := n / 0x40000, n / 0x1000 % 0x40, n / 0x40 % 0x40, n % 0x40;
    Digits64(n, x0, x1, x2, x3);
    var encoded := Utf8Char(c);
    var b := encoded + rest;
    if n < 0x80 {
      assert b[0] == n;
    } else if n < 0x800 {
      assert encoded == [0xC0 + x1 * 0x40 + x2, 0x80 + x3];
      assert b[0] == encoded[0] && b[1] == encoded[1];
    } else if n < 0x1_0000 {
      assert encoded == [0xE0 + x0 * 0x40 + x1, 0x80 + x2, 0x80 + x3];
      assert b[0] == encoded[0] && b[1] == encoded[1] && b[2] == encoded[2];
    } else {
      assert encoded == [0xF0 + x0, 0x80 + x1, 0x80 + x2, 0x80 + x3];
      assert b[0] == encoded[0] && b[1] == encoded[1] && b[2] == encoded[2] && b[3] == encoded[3];
    }
  }

  /** No character has two encodings. */
  lemma FirstCharIsUtf8(b: Bytes)
    requires b != [] && FirstChar(b).Some?
    ensures var (c, n) := FirstChar(b).value; b[..n] == Utf8Char(c)
  {
    var (c, n) := FirstChar(b).value;
    if n == 4 {
      Digits64(c as int, b[0] - 0xF0, b[1] - 0x80, b[2] - 0x80, b[3] - 0x80);
    } else if n == 3 {
      Digits64(c as int, 0, b[0] - 0xE0, b[1] - 0x80, b[2] - 0x80);
    } else if n == 2 {
      Digits64(c as int, 0, 0, b[0] - 0xC0, b[1] - 0x80);
    }
  }

  /** Bytes decode to a text exactly if they are its encoding. */
  lemma {:induction false} DecodesExactly(b: Bytes, s: string)
    ensures Decode(b) == Some(s) <==> b == Utf8(s)
    decreases |b| + |s|
  {
    hide FirstChar, Utf8Char;
    if b != [] && FirstChar(b).Some? {
      var (c, n) := FirstChar(b).value;
      FirstCharIsUtf8(b);
      assert b == Utf8Char(c) + b[n..];
      if s != [] {
        DecodesExactly(b[n..], s[1..]);
        FirstCharOfUtf8(s[0], Utf8(s[1..]));
        assert Decode(b[n..]) == Some(s[1..]) && c == s[0] ==> s == [c] + s[1..];
      }
    } else if b != [] && s != [] {
      FirstCharOfUtf8(s[0], Utf8(s[1..]));
    }
  }

  predicate IsAscii(s: string) {
    forall c :: c in s ==> c < 128 as char
  }

  function AsciiByte(c: char): byte {
    if c < 128 as char then c as int else 0
  }

  function Ascii(s: string): (b: Bytes)
    requires IsAscii(s)
    ensures |b| == |s| && forall i | 0 <= i < |s| :: b[i] == s[i] as int
  {
    assert forall i | 0 <= i < |s| :: s[i] in s;
    seq(|s|, i requires 0 <= i < |s| => AsciiByte(s[i]))
  }

  lemma {:induction false} DecodeAscii(s: string)
    requires IsAscii(s)
    ensures Decode(Ascii(s)) == Some(s)
  {
    if s == [] {
    } else {
      var rest := s[1..];
      assert IsAscii(rest) by { assert forall c :: c in rest ==> c in s; }
      assert s[0] in s;
      assert Ascii(s)[1..] == Ascii(rest);
      DecodeAscii(rest);
      assert s == [s[0]] + rest;
    }
  }

  // ----- whitespace and case

  /** The Unicode White_Space property. */
  predicate IsSpace(c: char) {
    var n := c as int;
    || 0x09 <= n <= 0x0D || n == 0x20 || n == 0x85 || n == 0xA0 || n == 0x1680
    || 0x2000 <= n <= 0x200A || n == 0x2028 || n == 0x2029 || n == 0x202F || n == 0x205F || n == 0x3000
  }

  function TrimStart(s: string): string {
    if s != [] && IsSpace(s[0]) then TrimStart(s[1..]) else s
  }

  function TrimEnd(s: string): string {
    if s != [] && IsSpace(s[|s| - 1]) then TrimEnd(s[..|s| - 1]) else s
  }

  function Trim(s: string): string {
    TrimEnd(TrimStart(s))
  }

  /** Trimming takes spaces off both ends, and all of them. */
  lemma TrimMeans(s: string) returns (before: string, after: string)
    ensures s == before + Trim(s) + after
    ensures (forall c | c in before :: IsSpace(c)) && (forall c | c in after :: IsSpace(c))
    ensures Trim(s) == [] || (!IsSpace(Trim(s)[0]) && !IsSpace(Trim(s)[|Trim(s)| - 1]))
  {
    before := TrimStartMeans(s);
    var rest := TrimStart(s);
    after := TrimEndMeans(rest);
    assert rest != [] && Trim(s) != [] ==> Trim(s)[0] == rest[0];
  }

  lemma {:induction false} TrimStartMeans(s: string) returns (before: string)
    ensures s == before + TrimStart(s) && forall c | c in before :: IsSpace(c)
    ensures TrimStart(s) == [] || !IsSpace(TrimStart(s)[0])
  {
    if s != [] && IsSpace(s[0]) {
      var rest := TrimStartMeans(s[1..]);
      assert s == [s[0]] + s[1..] && TrimStart(s) == TrimStart(s[1..]);
      hide IsSpace, TrimStart;
      before := [s[0]] + rest;
    } else {
      before := [];
    }
  }

  lemma {:induction false} TrimEndMeans(s: string) returns (after: string)
    ensures s == TrimEnd(s) + after && forall c | c in after :: IsSpace(c)
    ensures TrimEnd(s) == [] || !IsSpace(TrimEnd(s)[|TrimEnd(s)| - 1])
  {
    if s != [] && IsSpace(s[|s| - 1]) {
      var n := |s| - 1;
      var rest := TrimEndMeans(s[..n]);
      assert s == s[..n] + [s[n]] && TrimEnd(s) == TrimEnd(s[..n]);
      hide IsSpace, TrimEnd;
      after := rest + [s[n]];
    } else {
      after := [];
    }
  }

  /** `split_whitespace`. */
  function Words(s: string): seq<string> {
    if s == [] then []
    else if IsSpace(s[0]) then Words(s[1..])
    else if |s| == 1 || IsSpace(s[1]) then [[s[0]]] + Words(s[1..])
    else
      var rest := Words(s[1..]);
      if rest == [] then [[s[0]]] else [[s[0]] + rest[0]] + rest[1..]
  }

  predicate IsWord(s: string) {
    s != [] && forall c | c in s :: !IsSpace(c)
  }

  lemma {:induction false} FirstWord(word: string, rest: string)
    requires IsWord(word) && (rest == [] || IsSpace(rest[0]))
    ensures Words(word + rest) == [word] + Words(rest)
  {
    var s := word + rest;
    assert word[0] in word && s[0] == word[0] && s[1..] == word[1..] + rest;
    if |word| == 1 {
      assert s[1..] == rest && word == [word[0]];
    } else {
      assert word[1] in word && s[1] == word[1] && forall c | c in word[1..] :: c in word;
      FirstWord(word[1..], rest);
      assert word == [word[0]] + word[1..];
    }
  }

  lemma WordsOfWord(word: string)
    requires IsWord(word)
    ensures Words(word) == [word]
  {
    assert word + "" == word;
    FirstWord(word, "");
  }

  function LowerChar(c: char): char {
    if 'A' <= c <= 'Z' then (c as int + 32) as char else c
  }

  /** `to_ascii_lowercase`. */
  function Lower(s: string): (t: string)
    ensures |t| == |s| && forall i | 0 <= i < |s| :: t[i] == LowerChar(s[i])
  {
    seq(|s|, i requires 0 <= i < |s| => LowerChar(s[i]))
  }

  // ----- decimal numbers

  predicate IsDigit(c: char) {
    '0' <= c <= '9'
  }

  function Decimal(n: nat): (s: string)
    ensures s != [] && forall c :: c in s ==> IsDigit(c)
  {
    var last := ('0' as int + n % 10) as char;
    if n < 10 then [last] else Decimal(n / 10) + [last]
  }

  predicate AllDigits(s: string) {
    s != [] && forall c :: c in s ==> IsDigit(c)
  }

  function ValueOf(s: string): nat
    requires forall c :: c in s ==> IsDigit(c)
  {
    if s == [] then 0
    else
      var last := s[|s| - 1];
      assert last in s && IsDigit(last);
      ValueOf(s[..|s| - 1]) * 10 + (last as int - '0' as int)
  }

  /** `str::parse::<usize>`: digits after an optional plus sign, without overflow. */
  function ParseUsize(s: string): (n: Option<nat>)
    ensures n.Some? ==> n.value <= U64_MAX
  {
    var digits := if s != [] && s[0] == '+' then s[1..] else s;
    if AllDigits(digits) && ValueOf(digits) <= U64_MAX then Some(ValueOf(digits)) else None
  }

  lemma {:induction false} ValueOfDecimal(n: nat)
    ensures ValueOf(Decimal(n)) == n
  {
    if n >= 10 {
      ValueOfDecimal(n / 10);
      assert Decimal(n)[..|Decimal(n)| - 1] == Decimal(n / 10);
    } else {
      assert Decimal(n)[..0] == [];
    }
  }

  /** Printing and parsing a length are inverse on everything a `usize` can hold. */
  lemma ParseDecimal(n: nat)
    requires n <= U64_MAX
    ensures ParseUsize(Decimal(n)) == Some(n)
  {
    ValueOfDecimal(n);
    assert Decimal(n)[0] in Decimal(n);
  }

  // ----- reading numbers in headers

  /** `b` is `a` with capital ASCII letters made small, some or all of them. */
  predicate SameLetters(a: string, b: string) {
    |a| == |b| && forall i | 0 <= i < |a| :: a[i] == b[i] || ('A' <= a[i] <= 'Z' && b[i] as int == a[i] as int + 32)
  }

  lemma LowerOfSameLetters(a: string, b: string)
    requires SameLetters(a, b) && forall c | c in b :: LowerChar(c) == c
    ensures Lower(a) == b
  {
    assert forall i | 0 <= i < |b| :: b[i] in b;
  }

  lemma LowerConcat(a: string, b: string)
    ensures Lower(a + b) == Lower(a) + Lower(b)
  {
  }

  lemma LowerFixes(s: string)
    requires forall c :: c in s ==> LowerChar(c) == c
    ensures Lower(s) == s
  {
  }

  lemma {:induction false} TrimBlanks(blanks: string, s: string)
    requires forall c | c in blanks :: IsSpace(c)
    ensures TrimStart(blanks + s) == TrimStart(s)
  {
    if blanks == [] {
      assert blanks + s == s;
    } else {
      assert blanks[0] in blanks && (blanks + s)[1..] == blanks[1..] + s;
      TrimBlanks(blanks[1..], s);
    }
  }

  lemma {:induction false} TrimEndOf(digits: string, end: string)
    requires AllDigits(digits) && forall c :: c in end ==> IsSpace(c)
    ensures TrimEnd(digits + end) == digits
  {
    if end == [] {
      assert digits[|digits| - 1] in digits;
      assert digits + end == digits;
    } else {
      var n := |end| - 1;
      assert end[n] in end;
      assert (digits + end)[..|digits| + n] == digits + end[..n];
      TrimEndOf(digits, end[..n]);
    }
  }

  lemma TrimNumber(blanks: string, digits: string, end: string)
    requires AllDigits(digits) && (forall c | c in blanks :: IsSpace(c)) && (forall c | c in end :: IsSpace(c))
    ensures Trim(blanks + digits + end) == digits
  {
    assert blanks + digits + end == blanks + (digits + end);
    TrimBlanks(blanks, digits + end);
    assert digits[0] in digits && (digits + end)[0] == digits[0];
    TrimEndOf(digits, end);
  }

  /** Text with a character that belongs in no number is none. */
  lemma NoNumber(s: string, c: char)
    requires c in s && !IsSpace(c) && !IsDigit(c) && c != '+'
    ensures ParseUsize(Trim(s)).None?
  {
    var before, after := TrimMeans(s);
    hide Trim, IsSpace;
    var t := Trim(s);
    assert c in t;
    if t[0] == '+' {
      assert t == [t[0]] + t[1..];
      assert c in t[1..];
    }
  }
}
