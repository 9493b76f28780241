/** Requests as a client writes them (sections 2.2 and 6.2 of RFC 9112), and what the reader of
    crates/pengu-mesh-http/src/lib.rs makes of them. Header blocks are ASCII here. */
module HttpMessages {
  import opened Common
  import opened Text
  import opened HttpRequests

  const NAME := "content-length"

  /** A header line: one that announces a length, its name in any letter case, or any other. */
  datatype HeaderLine = Length(name: string, blanks: string, value: nat) | Other(text: string)

  /** Neither empty nor broken, and in ASCII. */
  predicate IsLine(s: string) {
    s != [] && forall c | c in s :: c != '\r' && c != '\n' && c < 128 as char
  }

  /** Whether the text before position `k`, where the first colon is, is the name. */
  predicate NameEndsAt(line: string, k: nat) {
    k < |line| && line[k] == ':' && ':' !in line[..k] && SameLetters(line[..k], NAME)
  }

  /** The text before the first colon is the name of the length header, but for the case of letters. */
  ghost predicate NamesLength(line: string) {
    exists k: nat :: NameEndsAt(line, k)
  }

  ghost predicate IsHeaderLine(line: HeaderLine) {
    match line
    case Length(name, blanks, value) =>
      SameLetters(name, NAME) && value <= U64_MAX && forall c | c in blanks :: c == ' ' || c == '\t'
    case Other(text) => IsLine(text) && !NamesLength(text)
  }

  function TextOf(line: HeaderLine): string {
    match line
    case Length(name, blanks, value) => name + (":" + (blanks + Decimal(value)))
    case Other(text) => text
  }

  function Texts(lines: seq<HeaderLine>): (texts: seq<string>)
    ensures |texts| == |lines| && forall i | 0 <= i < |lines| :: texts[i] == TextOf(lines[i])
  {
    seq(|lines|, i requires 0 <= i < |lines| => TextOf(lines[i]))
  }

  /** The lines with a line break between them. */
  function Joined(lines: seq<string>): string
    requires lines != []
  {
    if |lines| == 1 then lines[0] else lines[0] + (CRLF + Joined(lines[1..]))
  }

  /** The length the lines announce: the last one, or zero. */
  function Announced(lines: seq<HeaderLine>, start: nat): nat {
    if lines == [] then start else Announced(lines[1..], if lines[0].Length? then lines[0].value else start)
  }

  // ----- lines

  lemma {:induction false} LinesOfLine(line: string, rest: string)
    requires '\r' !in line
    ensures Lines(line + (CRLF + rest)) == [line] + Lines(rest)
    ensures Lines(line) == [line]
  {
    if line == [] {
      assert line + (CRLF + rest) == CRLF + rest && (CRLF + rest)[2..] == rest;
    } else {
      var s := line + (CRLF + rest);
      assert s[1..] == line[1..] + (CRLF + rest) && s[0] == line[0] != '\r' && line == [line[0]] + line[1..];
      LinesOfLine(line[1..], rest);
    }
  }

  lemma {:induction false} LinesOfJoined(lines: seq<string>)
    requires lines != [] && forall l | l in lines :: '\r' !in l
    ensures Lines(Joined(lines)) == lines
  {
    hide Lines;
    assert lines[0] in lines && lines == [lines[0]] + lines[1..];
    if |lines| == 1 {
      LinesOfLine(lines[0], "");
    } else {
      LinesOfLine(lines[0], Joined(lines[1..]));
      LinesOfJoined(lines[1..]);
      assert Joined(lines) == lines[0] + (CRLF + Joined(lines[1..]));
      hide Joined;
    }
  }

  // ----- words

  /** A request line: two words with a space between and anything, set off by a space, behind. */
  lemma WordsOfRequestLine(verb: string, target: string, more: string)
    requires IsWord(verb) && IsWord(target) && (more == [] || IsSpace(more[0]))
    ensures var words := Words(verb + (" " + (target + more)));
      |words| >= 2 && words[0] == verb && words[1] == target
  {
    FirstWord(verb, " " + (target + more));
    assert Words(" " + (target + more)) == Words(target + more) by {
      assert (" " + (target + more))[1..] == target + more;
    }
    FirstWord(target, more);
  }

  // ----- lengths

  lemma ColonAt(line: string, k: nat)
    requires k < |line| && line[k] == ':' && ':' !in line[..k]
    ensures IndexOf(line, ':') == k
  {
    var i := IndexOf(line, ':');
    assert forall j | 0 <= j < k :: line[j] in line[..k];
    assert forall j | 0 <= j < i :: line[j] in line[..i];
  }

  lemma LengthOfLine(line: HeaderLine)
    requires IsHeaderLine(line)
    ensures LengthIn(TextOf(line)) == if line.Length? then Some(Some(line.value)) else None
  {
    match line
    case Length(name, blanks, value) =>
      LengthOfLengthLine(name, blanks, value);
    case Other(text) =>
      NamesLengthMeans(text);
  }

  lemma LengthOfLengthLine(name: string, blanks: string, value: nat)
    requires IsHeaderLine(Length(name, blanks, value))
    ensures LengthIn(name + (":" + (blanks + Decimal(value)))) == Some(Some(value))
  {
    hide SameLetters;
    var digits := Decimal(value);
    var text := name + (":" + (blanks + digits));
    NameHasNoColon(name);
    assert text[..|name|] == name && text[|name| + 1..] == blanks + digits;
    ColonAt(text, |name|);
    LowerOfSameLetters(name, NAME);
    TrimNumber(blanks, digits, "");
    assert blanks + digits + "" == blanks + digits;
    ParseDecimal(value);
  }

  lemma NameHasNoColon(name: string)
    requires SameLetters(name, NAME)
    ensures ':' !in name
  {
    forall c | c in name ensures c != ':' {
      var i :| 0 <= i < |name| && name[i] == c;
      assert NAME[i] in NAME;
    }
  }

  lemma NameIsLine(name: string)
    requires SameLetters(name, NAME)
    ensures IsLine(name)
  {
    forall c | c in name ensures c != '\r' && c != '\n' && c < 128 as char {
      var i :| 0 <= i < |name| && name[i] == c;
      assert NAME[i] in NAME;
    }
  }

  lemma NamesLengthMeans(text: string)
    ensures NamesLength(text) <==>
      var k := IndexOf(text, ':'); k < |text| && Lower(text[..k]) == NAME
  {
    hide SameLetters, Lower, IndexOf;
    var i := IndexOf(text, ':');
    if i < |text| && Lower(text[..i]) == NAME {
      LowerMeansSameLetters(text[..i]);
      assert NameEndsAt(text, i);
    }
    if k: nat :| NameEndsAt(text, k) {
      ColonAt(text, k);
      LowerOfName(text[..k]);
    }
  }

  lemma LowerOfName(name: string)
    requires SameLetters(name, NAME)
    ensures Lower(name) == NAME
  {
    LowerOfSameLetters(name, NAME);
  }

  lemma LowerMeansSameLetters(s: string)
    ensures SameLetters(s, Lower(s))
  {
  }

  lemma {:induction false} LengthAfterLines(lines: seq<HeaderLine>, start: nat)
    requires forall l | l in lines :: IsHeaderLine(l)
    ensures LengthAfter(Texts(lines), start) == Some(Announced(lines, start))
  {
    hide LengthIn, IsHeaderLine;
    if lines == [] {
    } else {
      assert lines[0] in lines && Texts(lines)[1..] == Texts(lines[1..]);
      LengthOfLine(lines[0]);
      LengthAfterLines(lines[1..], if lines[0].Length? then lines[0].value else start);
    }
  }

  // ----- where the header block ends

  const BLANK := CRLF + CRLF

  lemma {:induction false} NoBlankLineInside(lines: seq<string>, rest: Bytes, i: nat)
    requires lines != [] && (forall l | l in lines :: IsLine(l)) && i < |Joined(lines)|
    requires IsAscii(Joined(lines))
    ensures !BlankLineAt(Ascii(Joined(lines)) + (Ascii(BLANK) + rest), i)
  {
    var s := Ascii(Joined(lines)) + (Ascii(BLANK) + rest);
    var first := lines[0];
    assert first in lines;
    if i < |first| {
      assert s[i] == first[i] as int && first[i] in first;
    } else {
      var tail := lines[1..];
      assert tail[0] in lines && Joined(lines) == first + (CRLF + Joined(tail));
      assert Joined(tail)[0] == tail[0][0] && tail[0][0] in tail[0];
      assert forall c | c in Joined(tail) :: c in Joined(lines);
      var t := Ascii(Joined(tail)) + (Ascii(BLANK) + rest);
      assert s[|first| + 2..] == t;
      if i >= |first| + 2 {
        NoBlankLineInside(tail, rest, i - |first| - 2);
        BlankLineLater(s, |first| + 2, i);
      } else {
        assert s[|first| + 1] == '\n' as int && s[|first| + 2] == t[0] == Joined(tail)[0] as int;
      }
    }
  }

  lemma BlankLineLater(s: Bytes, k: nat, i: nat)
    requires k <= i && k <= |s|
    ensures BlankLineAt(s, i) <==> BlankLineAt(s[k..], i - k)
  {
  }

  lemma {:induction false} JoinedIsAscii(lines: seq<string>)
    requires lines != [] && forall l | l in lines :: IsLine(l)
    ensures IsAscii(Joined(lines))
  {
    assert lines[0] in lines;
    if |lines| > 1 { JoinedIsAscii(lines[1..]); }
  }

  lemma HeaderBlockEnds(lines: seq<string>, rest: Bytes)
    requires lines != [] && (forall l | l in lines :: IsLine(l)) && IsAscii(Joined(lines))
    ensures FindHeaderEnd(Ascii(Joined(lines)) + (Ascii(BLANK) + rest)) == Some(|Joined(lines)|)
  {
    var s := Ascii(Joined(lines)) + (Ascii(BLANK) + rest);
    var n := |Joined(lines)|;
    assert s[n..n + 4] == Ascii(BLANK);
    assert BlankLineAt(s, n) by {
      assert s[n] == Ascii(BLANK)[0] && s[n + 1] == Ascii(BLANK)[1] && s[n + 2] == Ascii(BLANK)[2];
      assert s[n + 3] == Ascii(BLANK)[3];
    }
    forall i: nat | i < n ensures !BlankLineAt(s, i) {
      NoBlankLineInside(lines, rest, i);
    }
  }

  // ----- requests

  function RequestLine(verb: string, target: string, more: string): string {
    verb + (" " + (target + more))
  }

  /** A request in ASCII: the request line, header lines, a blank line and then anything. */
  ghost function Written(verb: string, target: string, more: string, lines: seq<HeaderLine>, rest: Bytes): Bytes
    requires IsRequest(verb, target, more, lines)
  {
    var all := [RequestLine(verb, target, more)] + Texts(lines);
    LinesAreLines(verb, target, more, lines);
    JoinedIsAscii(all);
    Ascii(Joined(all)) + (Ascii(BLANK) + rest)
  }

  ghost predicate IsRequest(verb: string, target: string, more: string, lines: seq<HeaderLine>) {
    && IsWord(verb) && IsAscii(verb) && IsWord(target) && IsAscii(target)
    && (more == [] || (IsLine(more) && IsSpace(more[0])))
    && forall l | l in lines :: IsHeaderLine(l)
  }

  lemma LinesAreLines(verb: string, target: string, more: string, lines: seq<HeaderLine>)
    requires IsRequest(verb, target, more, lines)
    ensures forall l | l in [RequestLine(verb, target, more)] + Texts(lines) :: IsLine(l)
  {
    var line := RequestLine(verb, target, more);
    forall c | c in line ensures c != '\r' && c != '\n' && c < 128 as char {
      assert c in verb || c == ' ' || c in target || c in more;
    }
    forall l | l in Texts(lines) ensures IsLine(l) {
      var i :| 0 <= i < |lines| && Texts(lines)[i] == l;
      assert lines[i] in lines;
      HeaderTextIsLine(lines[i]);
    }
  }

  lemma HeaderTextIsLine(line: HeaderLine)
    requires IsHeaderLine(line)
    ensures IsLine(TextOf(line))
  {
    if line.Length? {
      NameIsLine(line.name);
      hide SameLetters;
      forall c | c in TextOf(line) ensures c != '\r' && c != '\n' && c < 128 as char {
        assert c in line.name || c == ':' || c in line.blanks || c in Decimal(line.value);
      }
    }
  }

  /** Reading what a client writes, in pieces of any size: the verb and the target of the request line,
      and as many bytes of body as the last announced length says. Other headers do not matter. */
  lemma RequestIsRead(verb: string, target: string, more: string, lines: seq<HeaderLine>, rest: Bytes, cuts: seq<nat>)
    requires IsRequest(verb, target, more, lines)
    requires |Written(verb, target, more, lines, [])| <= LIMIT + 1
    ensures var k := Announced(lines, 0);
      Receive(Written(verb, target, more, lines, rest), cuts)
        == if k <= |rest| then Ok(Request(verb, target, rest[..k])) else Err(EofInBody)
  {
    hide Receive, ParseHead, IsRequest, Joined, RequestLine, IsLine;
    var all := [RequestLine(verb, target, more)] + Texts(lines);
    LinesAreLines(verb, target, more, lines);
    JoinedIsAscii(all);
    HeaderIsParsed(all, rest, cuts);
    HeadIsParsed(verb, target, more, lines, all);
  }

  /** Lines, a blank line and then anything: the lines are the header block. */
  lemma HeaderIsParsed(all: seq<string>, rest: Bytes, cuts: seq<nat>)
    requires all != [] && (forall l | l in all :: IsLine(l)) && IsAscii(Joined(all)) && |Joined(all)| + 4 <= LIMIT + 1
    ensures Receive(Ascii(Joined(all)) + (Ascii(BLANK) + rest), cuts) ==
      match ParseHead(Ascii(Joined(all)))
      case Err(error) => Err(error)
      case Ok(head) =>
        if head.length <= |rest| then Ok(Request(head.verb, head.target, rest[..head.length])) else Err(EofInBody)
  {
    hide Receive, FindHeaderEnd, ParseHead, Joined, IsLine;
    HeaderBlockEnds(all, rest);
    var s, n := Ascii(Joined(all)) + (Ascii(BLANK) + rest), |Joined(all)|;
    assert s[..n] == Ascii(Joined(all)) && s[n + 4..] == rest;
    ReceiveIsParse(s, cuts);
  }

  lemma HeadIsParsed(verb: string, target: string, more: string, lines: seq<HeaderLine>, all: seq<string>)
    requires IsRequest(verb, target, more, lines) && all == [RequestLine(verb, target, more)] + Texts(lines)
    requires (forall l | l in all :: IsLine(l)) && IsAscii(Joined(all))
    ensures ParseHead(Ascii(Joined(all))) == Ok(Head(verb, target, Announced(lines, 0)))
  {
    hide Lines, Words, LengthAfter, Joined, IsHeaderLine;
    DecodeAscii(Joined(all));
    LinesOfJoined(all);
    WordsOfRequestLine(verb, target, more);
    LengthAfterLines(lines, 0);
    assert all[1..] == Texts(lines);
  }

  /** A request without a target, and one without a verb, are told apart, whatever follows. */
  lemma ShortRequestLineIsRefused(first: string, lines: seq<string>, rest: Bytes, cuts: seq<nat>)
    requires (forall l | l in [first] + lines :: IsLine(l)) && IsAscii(Joined([first] + lines))
    requires |Joined([first] + lines)| + 4 <= LIMIT + 1
    ensures var stream := Ascii(Joined([first] + lines)) + (Ascii(BLANK) + rest);
      && (IsWord(first) ==> Receive(stream, cuts) == Err(MissingTarget))
      && ((forall c | c in first :: IsSpace(c)) ==> Receive(stream, cuts) == Err(MissingMethod))
  {
    hide Receive, Joined, Lines, Words;
    var all := [first] + lines;
    HeaderIsParsed(all, rest, cuts);
    DecodeAscii(Joined(all));
    LinesOfJoined(all);
    if IsWord(first) { WordsOfWord(first); }
    if forall c | c in first :: IsSpace(c) { NoWordsInBlanks(first); }
  }

  lemma {:induction false} NoWordsInBlanks(s: string)
    requires forall c | c in s :: IsSpace(c)
    ensures Words(s) == []
  {
    if s == [] {
    } else {
      assert s == [s[0]] + s[1..];
      NoWordsInBlanks(s[1..]);
    }
  }

  /** A length with a character that belongs in no number refuses the request, wherever it stands. */
  lemma BadLengthIsRefused(verb: string, target: string, more: string, lines: seq<HeaderLine>, name: string,
                           value: string, c: char, after: seq<string>, rest: Bytes, cuts: seq<nat>)
    requires IsRequest(verb, target, more, lines) && SameLetters(name, NAME) && IsLine(value)
    requires c in value && !IsSpace(c) && !IsDigit(c) && c != '+'
    requires forall l | l in after :: IsLine(l)
    requires var all := [RequestLine(verb, target, more)] + Texts(lines) + [name + (":" + value)] + after;
      IsAscii(Joined(all)) && |Joined(all)| + 4 <= LIMIT + 1
    ensures var all := [RequestLine(verb, target, more)] + Texts(lines) + [name + (":" + value)] + after;
      Receive(Ascii(Joined(all)) + (Ascii(BLANK) + rest), cuts) == Err(BadLength)
  {
    var first, bad := RequestLine(verb, target, more), name + (":" + value);
    var all := [first] + Texts(lines) + [bad] + after;
    LinesAreLines(verb, target, more, lines);
    BadLine(name, value, c);
    WordsOfRequestLine(verb, target, more);
    hide Receive, Joined, Words, IsLine, RequestLine, LengthAfter, IsHeaderLine, LengthIn, ParseHead;
    forall l | l in all ensures IsLine(l) {
      assert l in [first] + Texts(lines) || l == bad || l in after;
    }
    HeaderIsParsed(all, rest, cuts);
    assert all[1..] == Texts(lines) + ([bad] + after);
    StopsAtBadLine(lines, bad, after, 0);
    BadHead(all);
  }

  lemma BadHead(all: seq<string>)
    requires all != [] && (forall l | l in all :: IsLine(l)) && IsAscii(Joined(all))
    requires |Words(all[0])| >= 2 && LengthAfter(all[1..], 0) == None
    ensures ParseHead(Ascii(Joined(all))) == Err(BadLength)
  {
    DecodeAscii(Joined(all));
    LinesOfJoined(all);
    hide Lines, Words, LengthAfter, Joined;
  }

  lemma BadLine(name: string, value: string, c: char)
    requires SameLetters(name, NAME) && IsLine(value)
    requires c in value && !IsSpace(c) && !IsDigit(c) && c != '+'
    ensures LengthIn(name + (":" + value)) == Some(None) && IsLine(name + (":" + value))
  {
    var text := name + (":" + value);
    NameHasNoColon(name);
    assert text[..|name|] == name && text[|name| + 1..] == value;
    ColonAt(text, |name|);
    LowerOfName(name);
    NoNumber(value, c);
    NameIsLine(name);
    hide SameLetters, ParseUsize, Trim, IndexOf;
  }

  lemma {:induction false} StopsAtBadLine(lines: seq<HeaderLine>, bad: string, after: seq<string>, start: nat)
    requires (forall l | l in lines :: IsHeaderLine(l)) && LengthIn(bad) == Some(None)
    ensures LengthAfter(Texts(lines) + ([bad] + after), start) == None
  {
    hide LengthIn, IsHeaderLine;
    var all := Texts(lines) + ([bad] + after);
    if lines == [] {
      assert all == [bad] + after;
    } else {
      assert lines[0] in lines && all[0] == TextOf(lines[0]) && all[1..] == Texts(lines[1..]) + ([bad] + after);
      LengthOfLine(lines[0]);
      StopsAtBadLine(lines[1..], bad, after, if lines[0].Length? then lines[0].value else start);
    }
  }
}
