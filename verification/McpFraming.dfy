/** Content-Length framing on the stdio transport (crates/pengu-mesh-mcp/src/main.rs): the reader,
    the writer, the server loop, and why they fit together. */
module McpFraming {
  import opened Common
  import opened Text

  const NEWLINE: byte := 10
  const CRLF := "\r\n"
  const LENGTH_PREFIX := "content-length:"

  datatype FrameError = NotUtf8 | BadLength | MissingLength | TruncatedBody

  /** The outcome of reading one message; `rest` is what remains on the stream. */
  datatype Read = Message(body: Bytes, rest: Bytes) | End | Failed(error: FrameError)

  /** The bytes up to and including the first newline, or all of them. */
  function LineLength(s: Bytes): (n: nat)
    ensures n <= |s| && (n == 0 <==> s == [])
  {
    if s == [] then 0 else if s[0] == NEWLINE then 1 else 1 + LineLength(s[1..])
  }

  /** The Content-Length a header line announces: nothing, a number, or something unreadable. */
  function LengthIn(line: string): Option<Option<nat>> {
    var lower := Lower(line);
    if LENGTH_PREFIX <= lower then Some(ParseUsize(Trim(lower[|LENGTH_PREFIX|..]))) else None
  }

  function ReadMessage(s: Bytes, length: Option<nat>): (r: Read)
    ensures r.Message? ==> |r.rest| < |s|
  {
    if s == [] then End
    else
      var n := LineLength(s);
      match Decode(s[..n])
      case None => Failed(NotUtf8)
      case Some(line) =>
        if line == CRLF then ReadBody(s[n..], length)
        else
          match LengthIn(line)
          case None => ReadMessage(s[n..], length)
          case Some(None) => Failed(BadLength)
          case Some(Some(k)) => ReadMessage(s[n..], Some(k))
  }

  function ReadBody(s: Bytes, length: Option<nat>): (r: Read)
    ensures r.Message? ==> |r.rest| <= |s|
  {
    match length
    case None => Failed(MissingLength)
    case Some(k) => if k <= |s| then Message(s[..k], s[k..]) else Failed(TruncatedBody)
  }

  function LengthLine(length: nat): string {
    "Content-Length: " + Decimal(length) + CRLF
  }

  function Header(length: nat): string {
    LengthLine(length) + CRLF
  }

  function Frame(body: Bytes): Bytes {
    HeaderIsAscii(|body|);
    Ascii(Header(|body|)) + body
  }

  lemma HeaderIsAscii(length: nat)
    ensures IsAscii(Header(length))
  {
  }

  // ----- the imperative form

  class Input {
    var rest: Bytes

    method ReadLine() returns (line: Bytes)
      modifies this
      ensures line == old(rest)[..LineLength(old(rest))] && rest == old(rest)[LineLength(old(rest))..]
    {
      var n := LineLength(rest);
      line, rest := rest[..n], rest[n..];
    }
  }

  class Output {
    var written: Bytes
  }

  method ReadMcpMessage(input: Input) returns (r: Result<Option<Bytes>, FrameError>)
    modifies input
    ensures match ReadMessage(old(input.rest), None)
      case Message(body, rest) => r == Ok(Some(body)) && input.rest == rest
      case End => r == Ok(None)
      case Failed(error) => r == Err(error)
  {
    var contentLength: Option<nat> := None;
    while true
      invariant ReadMessage(input.rest, contentLength) == ReadMessage(old(input.rest), None)
      decreases |input.rest|
    {
      var bytes := input.ReadLine();
      if bytes == [] {
        return Ok(None);
      }
      var line := Decode(bytes);
      if line.None? {
        return Err(NotUtf8);
      }
      if line.value == CRLF {
        break;
      }
      match LengthIn(line.value) {
        case None =>
        case Some(None) => return Err(BadLength);
        case Some(Some(k)) => contentLength := Some(k);
      }
    }
    if contentLength.None? {
      return Err(MissingLength);
    }
    var length := contentLength.value;
    if |input.rest| < length {
      return Err(TruncatedBody);
    }
    r := Ok(Some(input.rest[..length]));
    input.rest := input.rest[length..];
  }

  method WriteMcpMessage(output: Output, body: Bytes)
    modifies output
    ensures output.written == old(output.written) + Frame(body)
  {
    HeaderIsAscii(|body|);
    output.written := output.written + Ascii(Header(|body|));
    output.written := output.written + body;
    assert output.written == old(output.written) + (Ascii(Header(|body|)) + body);
  }

  /** What a handler makes of a request: a response to frame, the empty response, which is not
      written, or an error, which stops the server. */
  datatype Handled = Reply(body: Bytes) | Silent | Refused

  /** A handler of type `Handler<S>` also moves the runtime from one state to the next. */
  type Handler<!S> = (S, Bytes) -> (Handled, S)

  datatype ServerEnd = Closed | BadFrame(error: FrameError) | HandlerFailed

  method RunStdioServer<S>(input: Input, output: Output, start: S, handle: Handler<S>) returns (end: ServerEnd)
    modifies input, output
    ensures end == Serve(old(input.rest), start, handle).1
    ensures output.written == old(output.written) + Serve(old(input.rest), start, handle).0
  {
    hide ReadMessage;
    var state := start;
    while true
      invariant Serve(input.rest, state, handle).1 == Serve(old(input.rest), start, handle).1
      invariant output.written + Serve(input.rest, state, handle).0
             == old(output.written) + Serve(old(input.rest), start, handle).0
      decreases |input.rest|
    {
      ghost var s, before := input.rest, output.written;
      var message := ReadMcpMessage(input);
      if message.Err? {
        return BadFrame(message.error);
      }
      if message.value.None? {
        break;
      }
      assert ReadMessage(s, None) == Message(message.value.value, input.rest);
      var (handled, next) := handle(state, message.value.value);
      match handled {
        case Refused => return HandlerFailed;
        case Silent =>
          assert Serve(s, state, handle) == Serve(input.rest, next, handle);
        case Reply(body) =>
          WriteMcpMessage(output, body);
          assert Serve(s, state, handle).0 == Frame(body) + Serve(input.rest, next, handle).0;
          assert before + Serve(s, state, handle).0 == output.written + Serve(input.rest, next, handle).0;
      }
      state := next;
    }
    return Closed;
  }

  /** What the server writes on a given input stream, and how it ends. */
  function Serve<S>(s: Bytes, state: S, handle: Handler<S>): (Bytes, ServerEnd)
    decreases |s|
  {
    match ReadMessage(s, None)
    case End => ([], Closed)
    case Failed(error) => ([], BadFrame(error))
    case Message(body, rest) =>
      var (handled, next) := handle(state, body);
      match handled
      case Refused => ([], HandlerFailed)
      case Silent => Serve(rest, next, handle)
      case Reply(response) => (Frame(response) + Serve(rest, next, handle).0, Serve(rest, next, handle).1)
  }

  // ----- framing round trips

  predicate Representable(bodies: seq<Bytes>) {
    forall b :: b in bodies ==> |b| <= U64_MAX
  }

  lemma {:induction false} LineLengthOf(line: Bytes, rest: Bytes)
    requires NEWLINE !in line
    ensures LineLength(line + [NEWLINE] + rest) == |line| + 1
  {
    var s := line + [NEWLINE] + rest;
    if line == [] {
    } else {
      LineLengthOf(line[1..], rest);
      assert s[1..] == line[1..] + [NEWLINE] + rest;
    }
  }

  /** The length line of a header is read back as the length it was written for. */
  lemma LengthLineParses(length: nat)
    requires length <= U64_MAX
    ensures IsLine(LengthLine(length)) && LengthIn(LengthLine(length)) == Some(Some(length))
  {
    LengthOf(Decimal(length), CRLF);
    ParseDecimal(length);
    LengthLineIsLine(length);
  }

  /** A line with the name in any letter case and blanks around the number announces that number. */
  lemma LengthOfLine(name: string, blanks: string, digits: string, end: string)
    requires SameLetters(name, LENGTH_PREFIX) && AllDigits(digits)
    requires (forall c | c in blanks :: c == ' ' || c == '\t') && (forall c | c in end :: c == '\r' || c == '\n')
    ensures LengthIn(name + (blanks + digits + end)) == Some(ParseUsize(digits))
  {
    var rest := blanks + digits + end;
    LowerOfSameLetters(name, LENGTH_PREFIX);
    LowerConcat(name, rest);
    LowerFixes(rest);
    assert Lower(name + rest)[15..] == rest;
    TrimNumber(blanks, digits, end);
  }

  lemma LengthOf(digits: string, end: string)
    requires AllDigits(digits) && forall c | c in end :: c == '\r' || c == '\n'
    ensures LengthIn("Content-Length: " + digits + end) == Some(ParseUsize(digits))
  {
    LengthOfLine("Content-Length:", " ", digits, end);
    assert "Content-Length: " + digits + end == "Content-Length:" + (" " + digits + end);
  }

  /** Reading past a length line remembers the length; the blank line ends the header. */
  lemma HeaderLineStep(line: string, k: nat, rest: Bytes, length: Option<nat>)
    requires IsLine(line) && line != CRLF && LengthIn(line) == Some(Some(k))
    ensures ReadMessage(Ascii(line) + rest, length) == ReadMessage(rest, Some(k))
  {
    FirstLine(line, rest);
  }

  lemma BlankLineStep(rest: Bytes, length: Option<nat>)
    ensures ReadMessage(Ascii(CRLF) + rest, length) == ReadBody(rest, length)
  {
    FirstLine(CRLF, rest);
  }

  lemma LengthLineIsLine(length: nat)
    ensures IsLine(LengthLine(length))
  {
    assert LengthLine(length)[..|LengthLine(length)| - 1] == "Content-Length: " + Decimal(length) + "\r";
  }

  lemma FrameParts(body: Bytes)
    ensures IsAscii(LengthLine(|body|)) && |Header(|body|)| == |LengthLine(|body|)| + 2
    ensures Frame(body) == Ascii(LengthLine(|body|)) + (Ascii(CRLF) + body)
  {
  }

  /** One frame, whatever its body contains and whatever follows it. */
  lemma FrameRoundTrip(body: Bytes, rest: Bytes)
    requires |body| <= U64_MAX
    ensures ReadMessage(Frame(body) + rest, None) == Message(body, rest)
  {
    hide ReadMessage;
    FrameParts(body);
    assert Frame(body) + rest == Ascii(LengthLine(|body|)) + (Ascii(CRLF) + (body + rest));
    LengthLineParses(|body|);
    HeaderLineStep(LengthLine(|body|), |body|, Ascii(CRLF) + (body + rest), None);
    BlankLineStep(body + rest, Some(|body|));
    assert (body + rest)[..|body|] == body && (body + rest)[|body|..] == rest;
  }

  predicate IsLine(line: string) {
    IsAscii(line) && line != [] && line[|line| - 1] == '\n' && '\n' !in line[..|line| - 1]
  }

  /** A header line is split off and decoded as it was written. */
  lemma FirstLine(line: string, rest: Bytes)
    requires IsLine(line)
    ensures var s := Ascii(line) + rest;
      LineLength(s) == |line| && Decode(s[..|line|]) == Some(line) && s[|line|..] == rest
  {
    var before := Ascii(line)[..|line| - 1];
    forall b | b in before ensures b != NEWLINE {
      var i :| 0 <= i < |before| && before[i] == b;
      assert line[..|line| - 1][i] == line[i];
    }
    assert Ascii(line) + rest == before + [NEWLINE] + rest;
    LineLengthOf(before, rest);
    DecodeAscii(line);
  }

  function Frames(bodies: seq<Bytes>): Bytes {
    if bodies == [] then [] else Frame(bodies[0]) + Frames(bodies[1..])
  }

  /** Every message up to the end of the stream, or the first error. */
  function ReadAll(s: Bytes): (seq<Bytes>, Read)
    decreases |s|
  {
    match ReadMessage(s, None)
    case Message(body, rest) => ([body] + ReadAll(rest).0, ReadAll(rest).1)
    case stop => ([], stop)
  }

  /** Reading a concatenation of frames yields exactly the bodies, in order, and then the end. */
  lemma {:induction false} StreamRoundTrip(bodies: seq<Bytes>)
    requires Representable(bodies)
    ensures ReadAll(Frames(bodies)) == (bodies, End)
  {
    hide ReadMessage;
    if bodies == [] {
      StreamEnds(None);
    } else {
      assert bodies[0] in bodies;
      FrameRoundTrip(bodies[0], Frames(bodies[1..]));
      StreamRoundTrip(bodies[1..]);
      assert bodies == [bodies[0]] + bodies[1..];
    }
  }

  /** The responses to the requests before the first refused one. */
  function Responses<S>(requests: seq<Bytes>, state: S, handle: Handler<S>): seq<Bytes> {
    if requests == [] then []
    else
      var (handled, next) := handle(state, requests[0]);
      match handled
      case Refused => []
      case Silent => Responses(requests[1..], next, handle)
      case Reply(body) => [body] + Responses(requests[1..], next, handle)
  }

  predicate RefusesOne<S>(requests: seq<Bytes>, state: S, handle: Handler<S>) {
    requests != [] &&
      var (handled, next) := handle(state, requests[0]);
      handled.Refused? || RefusesOne(requests[1..], next, handle)
  }

  /** A client that writes frames gets back exactly the frames of the responses, in order; the
      server ends cleanly unless the handler refused a request. */
  lemma {:induction false} ServerAnswersFrames<S>(requests: seq<Bytes>, state: S, handle: Handler<S>)
    requires Representable(requests)
    ensures Serve(Frames(requests), state, handle)
         == (Frames(Responses(requests, state, handle)),
             if RefusesOne(requests, state, handle) then HandlerFailed else Closed)
  {
    hide ReadMessage;
    if requests == [] {
      StreamEnds(None);
    } else {
      assert requests[0] in requests;
      FrameRoundTrip(requests[0], Frames(requests[1..]));
      var (handled, next) := handle(state, requests[0]);
      ServerAnswersFrames(requests[1..], next, handle);
      if handled.Reply? {
        assert Responses(requests, state, handle)[1..] == Responses(requests[1..], next, handle);
      }
    }
  }

  /** So both ends of the pipe read back what the other end meant. */
  lemma ClientReadsResponses<S>(requests: seq<Bytes>, state: S, handle: Handler<S>)
    requires Representable(requests) && Representable(Responses(requests, state, handle))
    ensures ReadAll(Serve(Frames(requests), state, handle).0) == (Responses(requests, state, handle), End)
  {
    ServerAnswersFrames(requests, state, handle);
    StreamRoundTrip(Responses(requests, state, handle));
  }

  // ----- headers of any shape

  /** A line of a header: one that announces a length, with its name in any letter case and any blanks
      before the number, or any other, given as the bytes up to its newline. */
  datatype HeaderLine = Length(name: string, blanks: string, value: nat) | Other(bytes: Bytes)

  predicate BeginsWithName(text: string) {
    |text| >= 15 && SameLetters(text[..15], LENGTH_PREFIX)
  }

  ghost predicate IsHeaderLine(line: HeaderLine) {
    match line
    case Length(name, blanks, value) =>
      SameLetters(name, LENGTH_PREFIX) && value <= U64_MAX && forall c | c in blanks :: c == ' ' || c == '\t'
    case Other(bytes) =>
      && NEWLINE !in bytes
      && Decode(bytes + [NEWLINE]).Some? && Decode(bytes + [NEWLINE]).value != CRLF
      && !BeginsWithName(Decode(bytes + [NEWLINE]).value)
  }

  function LineText(name: string, blanks: string, value: nat): string {
    name + (blanks + Decimal(value) + CRLF)
  }

  ghost function LineBytes(line: HeaderLine): Bytes
    requires IsHeaderLine(line)
  {
    match line
    case Length(name, blanks, value) =>
      LineTextIsLine(name, blanks, value);
      Ascii(LineText(name, blanks, value))
    case Other(bytes) => bytes + [NEWLINE]
  }

  ghost function LinesBytes(lines: seq<HeaderLine>): Bytes
    requires forall l | l in lines :: IsHeaderLine(l)
  {
    if lines == [] then [] else LineBytes(lines[0]) + LinesBytes(lines[1..])
  }

  /** The length the lines announce: that of the last line that announces one. */
  function Announced(lines: seq<HeaderLine>): Option<nat> {
    if lines == [] then None
    else
      var last := lines[|lines| - 1];
      if last.Length? then Some(last.value) else Announced(lines[..|lines| - 1])
  }

  lemma {:induction false} AnnouncedFirst(lines: seq<HeaderLine>)
    requires lines != []
    ensures Announced(lines) ==
      if Announced(lines[1..]).Some? then Announced(lines[1..])
      else if lines[0].Length? then Some(lines[0].value)
      else None
  {
    if |lines| > 1 {
      var n := |lines| - 1;
      AnnouncedFirst(lines[..n]);
      assert lines[..n][1..] == lines[1..][..n - 1];
    }
  }

  lemma LineTextIsLine(name: string, blanks: string, value: nat)
    requires SameLetters(name, LENGTH_PREFIX) && forall c | c in blanks :: c == ' ' || c == '\t'
    ensures IsLine(LineText(name, blanks, value)) && LineText(name, blanks, value) != CRLF
  {
    var line := LineText(name, blanks, value);
    assert line == name + blanks + Decimal(value) + "\r" + "\n";
    forall c | c in name ensures c < 128 as char && c != '\n' {
      var i :| 0 <= i < |name| && name[i] == c;
      assert LENGTH_PREFIX[i] in LENGTH_PREFIX;
    }
    assert line[..|line| - 1] == name + blanks + Decimal(value) + "\r";
    assert line[0] == name[0] && name[0] in name;
  }

  lemma LineTextIs(name: string, blanks: string, value: nat)
    ensures LineText(name, blanks, value) == name + (blanks + Decimal(value) + CRLF)
  {
  }

  lemma NoLengthInOther(text: string)
    requires !BeginsWithName(text)
    ensures LengthIn(text) == None
  {
    var lower := Lower(text);
    if LENGTH_PREFIX <= lower {
      assert forall i | 0 <= i < 15 :: lower[i] == LENGTH_PREFIX[i];
      assert SameLetters(text[..15], LENGTH_PREFIX);
    }
  }

  lemma HeaderLineRead(line: HeaderLine, rest: Bytes, length: Option<nat>)
    requires IsHeaderLine(line)
    ensures ReadMessage(LineBytes(line) + rest, length)
         == ReadMessage(rest, if line.Length? then Some(line.value) else length)
  {
    match line
    case Length(name, blanks, value) =>
      hide ReadMessage, LengthIn, LineText;
      LineTextIsLine(name, blanks, value);
      ParseDecimal(value);
      LengthOfLine(name, blanks, Decimal(value), CRLF);
      assert LineText(name, blanks, value) == name + (blanks + Decimal(value) + CRLF) by {
        LineTextIs(name, blanks, value);
      }
      HeaderLineStep(LineText(name, blanks, value), value, rest, length);
    case Other(bytes) =>
      var s := LineBytes(line) + rest;
      LineLengthOf(bytes, rest);
      assert s[..|bytes| + 1] == LineBytes(line) && s[|bytes| + 1..] == rest;
      NoLengthInOther(Decode(LineBytes(line)).value);
  }

  /** Header lines are read one by one, in whatever order; only those that announce a length matter,
      and of these the last. */
  lemma {:induction false} HeaderLinesRead(lines: seq<HeaderLine>, rest: Bytes, length: Option<nat>)
    requires forall l | l in lines :: IsHeaderLine(l)
    ensures ReadMessage(LinesBytes(lines) + rest, length)
         == ReadMessage(rest, if Announced(lines).Some? then Announced(lines) else length)
  {
    hide ReadMessage, LineBytes, IsHeaderLine;
    if lines == [] {
      assert LinesBytes(lines) + rest == rest;
    } else {
      assert lines[0] in lines;
      AnnouncedFirst(lines);
      var next := if lines[0].Length? then Some(lines[0].value) else length;
      assert LinesBytes(lines) + rest == LineBytes(lines[0]) + (LinesBytes(lines[1..]) + rest);
      HeaderLineRead(lines[0], LinesBytes(lines[1..]) + rest, length);
      HeaderLinesRead(lines[1..], rest, next);
    }
  }

  /** A message with any header lines, before and behind the one that counts: after the blank line come
      as many bytes of body as the last announced length says; without one the message is refused. */
  lemma MessageWithHeaders(lines: seq<HeaderLine>, rest: Bytes)
    requires forall l | l in lines :: IsHeaderLine(l)
    ensures ReadMessage(LinesBytes(lines) + (Ascii(CRLF) + rest), None) ==
      match Announced(lines)
      case None => Failed(MissingLength)
      case Some(k) => if k <= |rest| then Message(rest[..k], rest[k..]) else Failed(TruncatedBody)
  {
    hide ReadMessage;
    HeaderLinesRead(lines, Ascii(CRLF) + rest, None);
    BlankLineStep(rest, Announced(lines));
  }

  /** A line with the name but a value with a character that belongs in no number is refused, wherever
      it stands. */
  lemma BadLengthIsRefused(lines: seq<HeaderLine>, line: string, c: char, rest: Bytes)
    requires (forall l | l in lines :: IsHeaderLine(l)) && IsLine(line) && BeginsWithName(line)
    requires c in line[15..] && !IsSpace(c) && !IsDigit(c) && c != '+'
    ensures ReadMessage(LinesBytes(lines) + (Ascii(line) + rest), None) == Failed(BadLength)
  {
    var value := line[15..];
    var i :| 0 <= i < |value| && value[i] == c;
    var lower := Lower(line);
    assert |LENGTH_PREFIX| == 15;
    assert LENGTH_PREFIX <= lower by {
      LowerOfSameLetters(line[..15], LENGTH_PREFIX);
      LowerFixesName();
      assert lower[..15] == Lower(line[..15]);
    }
    assert lower[15..][i] == LowerChar(c);
    NoNumber(lower[15..], LowerChar(c));
    assert LengthIn(line) == Some(None);
    hide LengthIn, ParseUsize, Trim;
    HeaderLinesRead(lines, Ascii(line) + rest, None);
    FirstLine(line, rest);
  }

  lemma LowerFixesName()
    ensures Lower(LENGTH_PREFIX) == LENGTH_PREFIX
  {
  }

  /** In particular one length line among lines that are none. */
  lemma OtherLinesAreSkipped(before: seq<Bytes>, length: HeaderLine, after: seq<Bytes>, body: Bytes, rest: Bytes)
    requires forall b | b in before + after :: IsHeaderLine(Other(b))
    requires length.Length? && length.value == |body| && IsHeaderLine(length)
    ensures var lines := Others(before) + [length] + Others(after);
      && (forall l | l in lines :: IsHeaderLine(l))
      && ReadMessage(LinesBytes(lines) + (Ascii(CRLF) + (body + rest)), None) == Message(body, rest)
  {
    hide ReadMessage, IsHeaderLine;
    var lines := Others(before) + [length] + Others(after);
    forall l | l in lines ensures IsHeaderLine(l) {
      if l != length {
        assert l in Others(before) || l in Others(after);
        assert l.Other? && l.bytes in before + after;
      }
    }
    OthersAnnounceNothing(Others(before) + [length], after);
    assert Others(before) + [length] + [] == Others(before) + [length];
    MessageWithHeaders(lines, body + rest);
    assert (body + rest)[..|body|] == body && (body + rest)[|body|..] == rest;
  }

  function Others(lines: seq<Bytes>): (others: seq<HeaderLine>)
    ensures |others| == |lines| && forall i | 0 <= i < |lines| :: others[i] == Other(lines[i])
  {
    seq(|lines|, i requires 0 <= i < |lines| => Other(lines[i]))
  }

  lemma {:induction false} OthersAnnounceNothing(lines: seq<HeaderLine>, others: seq<Bytes>)
    ensures Announced(lines + Others(others)) == Announced(lines)
  {
    if others == [] {
      assert lines + Others(others) == lines;
    } else {
      var n := |others| - 1;
      var all := lines + Others(others);
      assert all[..|all| - 1] == lines + Others(others[..n]);
      OthersAnnounceNothing(lines, others[..n]);
    }
  }

  // ----- streams that stop inside a frame

  /** What the reader makes of a frame cut after `n` bytes: a cut in the body is an error, but a cut
      in the header passes for a clean end of the stream, unless the length is cut off entirely. */
  lemma CutFrame(body: Bytes, n: nat)
    requires |body| <= U64_MAX && n < |Frame(body)|
    ensures ReadMessage(Frame(body)[..n], None) ==
      if n >= |Header(|body|)| then Failed(TruncatedBody)
      else if 15 <= n <= 16 then Failed(BadLength)
      else End
  {
    hide ReadMessage, LengthLine, LengthIn;
    FrameParts(body);
    LengthLineIsLong(|body|);
    var first, s := LengthLine(|body|), Frame(body)[..n];
    if n >= |first| {
      var m := n - |first|;
      assert s == Ascii(first) + (Ascii(CRLF) + body)[..m];
      LengthLineParses(|body|);
      HeaderLineStep(first, |body|, (Ascii(CRLF) + body)[..m], None);
      CutAfterLength(body, m);
    } else {
      CutBeforeLength(|body|, n);
      assert s == Ascii(first[..n]);
    }
  }

  /** A whole stream that stops inside a frame: every message before it is read, and then the cut
      frame is what the reader makes of it alone. */
  lemma {:induction false} CutStream(bodies: seq<Bytes>, last: Bytes, n: nat)
    requires Representable(bodies) && |last| <= U64_MAX && n < |Frame(last)|
    ensures ReadAll(Frames(bodies) + Frame(last)[..n]) == (bodies,
      if n >= |Header(|last|)| then Failed(TruncatedBody)
      else if 15 <= n <= 16 then Failed(BadLength)
      else End)
  {
    hide ReadMessage, Header;
    var rest := Frame(last)[..n];
    if bodies == [] {
      assert Frames(bodies) + rest == rest;
      CutFrame(last, n);
    } else {
      assert bodies[0] in bodies;
      assert Frames(bodies) + rest == Frame(bodies[0]) + (Frames(bodies[1..]) + rest);
      FrameRoundTrip(bodies[0], Frames(bodies[1..]) + rest);
      CutStream(bodies[1..], last, n);
      assert bodies == [bodies[0]] + bodies[1..];
    }
  }

  lemma LengthLineIsLong(length: nat)
    ensures |LengthLine(length)| > 16
  {
  }

  lemma CutBeforeLength(length: nat, n: nat)
    requires length <= U64_MAX && n < |LengthLine(length)|
    ensures var line := LengthLine(length)[..n];
      IsAscii(line) && ReadMessage(Ascii(line), None) == if 15 <= n <= 16 then Failed(BadLength) else End
  {
    hide ReadMessage, LengthIn, LengthLine;
    var line := LengthLine(length)[..n];
    LengthLineIsLine(length);
    CutLengthLine(length, n);
    if n == 0 {
      StreamEnds(None);
    } else {
      assert forall c :: c in line ==> c in LengthLine(length)[..|LengthLine(length)| - 1];
      LastLine(line, None);
    }
  }

  lemma CutAfterLength(body: Bytes, m: nat)
    requires m < 2 + |body|
    ensures ReadMessage((Ascii(CRLF) + body)[..m], Some(|body|)) == if m >= 2 then Failed(TruncatedBody) else End
  {
    hide ReadMessage;
    var s := (Ascii(CRLF) + body)[..m];
    if m >= 2 {
      assert s == Ascii(CRLF) + body[..m - 2];
      BlankLineStep(body[..m - 2], Some(|body|));
    } else if m == 1 {
      assert s == Ascii("\r");
      LastLine("\r", Some(|body|));
    } else {
      StreamEnds(Some(|body|));
    }
  }

  lemma StreamEnds(length: Option<nat>)
    ensures ReadMessage([], length) == End
  {
  }

  /** A last line without a newline is parsed like any other, and then the stream ends. */
  lemma LastLine(line: string, length: Option<nat>)
    requires IsAscii(line) && line != [] && '\n' !in line
    ensures ReadMessage(Ascii(line), length) ==
      match LengthIn(line)
      case Some(None) => Failed(BadLength)
      case _ => End
  {
    assert forall i | 0 <= i < |line| :: Ascii(line)[i] == line[i] as int && line[i] in line;
    LineLengthWhole(Ascii(line));
    assert Ascii(line)[..|line|] == Ascii(line) && Ascii(line)[|line|..] == [];
    DecodeAscii(line);
  }

  lemma {:induction false} LineLengthWhole(s: Bytes)
    requires NEWLINE !in s
    ensures LineLength(s) == |s|
  {
    if s == [] {
    } else {
      LineLengthWhole(s[1..]);
    }
  }

  /** The length announced by a length line cut after `n` characters. */
  lemma CutLengthLine(length: nat, n: nat)
    requires length <= U64_MAX && n < |LengthLine(length)|
    ensures IsAscii(LengthLine(length)[..n])
    ensures if 15 <= n <= 16 then LengthIn(LengthLine(length)[..n]) == Some(None)
            else LengthIn(LengthLine(length)[..n]) != Some(None)
  {
    hide LengthIn, LengthLine;
    LengthLineIsLine(length);
    var line := LengthLine(length)[..n];
    assert forall c :: c in line ==> c in LengthLine(length);
    if n > 16 {
      var m := Min(n - 16, |Decimal(length)|);
      LengthLinePrefix(length, n, m);
      ValueOfDecimal(length);
      CutValue(Decimal(length), m);
      LengthOf(Decimal(length)[..m], if m == n - 16 then "" else "\r");
    } else if n >= 15 {
      assert line == "Content-Length: "[..n] by { LengthLineStart(length); }
      LengthOfNothing(line);
    } else {
      ShortLine(line);
    }
  }

  lemma ShortLine(line: string)
    requires |line| < 15
    ensures LengthIn(line) == None
  {
  }

  lemma LengthLineStart(length: nat)
    ensures "Content-Length: " <= LengthLine(length)
  {
  }

  lemma LengthLinePrefix(length: nat, n: nat, m: nat)
    requires 16 < n < |LengthLine(length)| && m == Min(n - 16, |Decimal(length)|)
    ensures m > 0
    ensures LengthLine(length)[..n] == "Content-Length: " + Decimal(length)[..m] + if m == n - 16 then "" else "\r"
  {
  }

  lemma LengthOfNothing(line: string)
    requires line == "Content-Length: "[..15] || line == "Content-Length: "
    ensures LengthIn(line) == Some(None)
  {
    var lower := Lower(line);
    assert lower[..15] == LENGTH_PREFIX;
    assert lower[15..] == "" || lower[15..] == " ";
    assert TrimStart(" ") == TrimStart("") == "";
  }

  /** A nonempty prefix of a readable number is a readable number. */
  lemma {:induction false} CutValue(digits: string, m: nat)
    requires AllDigits(digits) && ValueOf(digits) <= U64_MAX && 0 < m <= |digits|
    ensures AllDigits(digits[..m]) && ParseUsize(digits[..m]).Some?
    decreases |digits|
  {
    assert digits[0] in digits;
    if m == |digits| {
      assert digits[..m] == digits;
    } else {
      var shorter := digits[..|digits| - 1];
      assert forall c :: c in shorter ==> c in digits;
      CutValue(shorter, m);
      assert shorter[..m] == digits[..m];
    }
  }
}
