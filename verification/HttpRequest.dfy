/** Reading one HTTP request from a socket that delivers bytes in arbitrary pieces
    (crates/pengu-mesh-http/src/lib.rs). */
module HttpRequests {
  import opened Common
  import opened Text
  import opened ByteStreams

  const CHUNK: nat := 4096
  const LIMIT: nat := 1024 * 1024
  const CRLF := "\r\n"

  datatype HttpError =
    EofInHeaders | HeadersTooLarge | NotUtf8 | MissingMethod | MissingTarget | BadLength | EofInBody

  /** The request before its method is upper-cased and its target split and percent-decoded. */
  datatype Request = Request(verb: string, target: string, body: Bytes)

  type Outcome = Result<Request, HttpError>

  predicate BlankLineAt(buffer: Bytes, i: nat) {
    i + 4 <= |buffer| && buffer[i] == 13 && buffer[i + 1] == 10 && buffer[i + 2] == 13 && buffer[i + 3] == 10
  }

  /** The position of the first CR LF CR LF. */
  function FindHeaderEnd(buffer: Bytes): (end: Option<nat>)
    ensures end.Some? ==> BlankLineAt(buffer, end.value) && forall i | 0 <= i < end.value :: !BlankLineAt(buffer, i)
    ensures end.None? ==> forall i: nat :: !BlankLineAt(buffer, i)
  {
    if exists i: nat :: i < |buffer| && BlankLineAt(buffer, i) then Some(FirstFrom(buffer, 0)) else None
  }

  function FirstFrom(buffer: Bytes, from: nat): (i: nat)
    requires exists k: nat :: from <= k < |buffer| && BlankLineAt(buffer, k)
    ensures BlankLineAt(buffer, i) && forall k | from <= k < i :: !BlankLineAt(buffer, k)
    decreases |buffer| - from
  {
    if BlankLineAt(buffer, from) then from else FirstFrom(buffer, from + 1)
  }

  // ----- the header block

  /** `str::split("\r\n")`. */
  function Lines(s: string): (lines: seq<string>)
    ensures lines != []
  {
    if s == [] then [[]]
    else if CRLF <= s then [[]] + Lines(s[2..])
    else
      var rest := Lines(s[1..]);
      [[s[0]] + rest[0]] + rest[1..]
  }

  /** The length a header line announces: nothing, a number, or something unreadable. */
  function LengthIn(line: string): Option<Option<nat>> {
    var colon := IndexOf(line, ':');
    if colon < |line| && Lower(line[..colon]) == "content-length" then Some(ParseUsize(Trim(line[colon + 1..])))
    else None
  }

  function IndexOf(s: string, c: char): (i: nat)
    ensures i <= |s| && c !in s[..i] && (i < |s| ==> s[i] == c)
  {
    if s == [] || s[0] == c then 0
    else
      assert forall k | 0 < k < |s| :: s[..k] == [s[0]] + s[1..][..k - 1];
      1 + IndexOf(s[1..], c)
  }

  /** The last readable length wins; an unreadable one is an error. */
  function LengthAfter(lines: seq<string>, length: nat): Option<nat> {
    if lines == [] then Some(length)
    else
      match LengthIn(lines[0])
      case None => LengthAfter(lines[1..], length)
      case Some(None) => None
      case Some(Some(k)) => LengthAfter(lines[1..], k)
  }

  datatype Head = Head(verb: string, target: string, length: nat)

  function ParseHead(header: Bytes): Result<Head, HttpError> {
    match Decode(header)
    case None => Err(NotUtf8)
    case Some(text) =>
      var lines := Lines(text);
      var words := Words(lines[0]);
      if |words| == 0 then Err(MissingMethod)
      else if |words| == 1 then Err(MissingTarget)
      else
        match LengthAfter(lines[1..], 0)
        case None => Err(BadLength)
        case Some(length) => Ok(Head(words[0], words[1], length))
  }

  // ----- reading in pieces

  datatype HeaderRead = Found(buffer: Bytes, end: nat, rest: Bytes, cuts: seq<nat>) | Stopped(error: HttpError)

  /** Reads until the blank line is in the buffer; the size limit is checked only after a read
      that did not complete the headers. */
  function ReadHeader(buffer: Bytes, rest: Bytes, cuts: seq<nat>): (r: HeaderRead)
    ensures r.Found? ==> BlankLineAt(r.buffer, r.end)
    decreases |rest|
  {
    var n := Delivered(rest, cuts, CHUNK);
    if n == 0 then Stopped(EofInHeaders)
    else
      var buffer' := buffer + rest[..n];
      match FindHeaderEnd(buffer')
      case Some(end) => Found(buffer', end, rest[n..], Later(cuts))
      case None =>
        if |buffer'| <= LIMIT then ReadHeader(buffer', rest[n..], Later(cuts)) else Stopped(HeadersTooLarge)
  }

  function ReadBody(body: Bytes, rest: Bytes, cuts: seq<nat>, length: nat): Option<Bytes>
    decreases |rest|
  {
    if |body| >= length then Some(body[..length])
    else
      var n := Delivered(rest, cuts, CHUNK);
      if n == 0 then None else ReadBody(body + rest[..n], rest[n..], Later(cuts), length)
  }

  function Receive(stream: Bytes, cuts: seq<nat>): Outcome {
    match ReadHeader([], stream, cuts)
    case Stopped(error) => Err(error)
    case Found(buffer, end, rest, later) =>
      match ParseHead(buffer[..end])
      case Err(error) => Err(error)
      case Ok(head) =>
        match ReadBody(buffer[end + 4..], rest, later, head.length)
        case None => Err(EofInBody)
        case Some(body) => Ok(Request(head.verb, head.target, body))
  }

  method ReadRequest(reader: Reader) returns (r: Outcome)
    modifies reader
    ensures r == Receive(old(reader.rest), old(reader.cuts))
  {
    var buffer: Bytes := [];
    var headerEnd: Option<nat> := None;
    while headerEnd.None?
      invariant headerEnd.None? ==>
        ReadHeader(buffer, reader.rest, reader.cuts) == ReadHeader([], old(reader.rest), old(reader.cuts))
      invariant headerEnd.Some? ==>
        && headerEnd == FindHeaderEnd(buffer)
        && Found(buffer, headerEnd.value, reader.rest, reader.cuts)
          == ReadHeader([], old(reader.rest), old(reader.cuts))
      decreases |reader.rest|, headerEnd.None?
    {
      var read := reader.Read(CHUNK);
      if read == [] {
        return Err(EofInHeaders);
      }
      buffer := buffer + read;
      headerEnd := FindHeaderEnd(buffer);
      if headerEnd.None? && |buffer| > LIMIT {
        return Err(HeadersTooLarge);
      }
    }
    var header := buffer[..headerEnd.value];
    var body := buffer[headerEnd.value + 4..];
    var text := Decode(header);
    if text.None? {
      return Err(NotUtf8);
    }
    var lines := Lines(text.value);
    var words := Words(lines[0]);
    if |words| == 0 {
      return Err(MissingMethod);
    }
    if |words| == 1 {
      return Err(MissingTarget);
    }
    var contentLength := ScanLength(lines[1..]);
    if contentLength.None? {
      return Err(BadLength);
    }
    var complete := ReadRest(reader, body, contentLength.value);
    if complete.None? {
      return Err(EofInBody);
    }
    return Ok(Request(words[0], words[1], complete.value));
  }

  method ScanLength(lines: seq<string>) returns (contentLength: Option<nat>)
    ensures contentLength == LengthAfter(lines, 0)
  {
    var length: nat := 0;
    for i := 0 to |lines|
      invariant LengthAfter(lines[i..], length) == LengthAfter(lines, 0)
    {
      match LengthIn(lines[i]) {
        case None =>
        case Some(None) => return None;
        case Some(Some(k)) => length := k;
      }
    }
    return Some(length);
  }

  method ReadRest(reader: Reader, start: Bytes, length: nat) returns (complete: Option<Bytes>)
    modifies reader
    ensures complete == ReadBody(start, old(reader.rest), old(reader.cuts), length)
  {
    var body := start;
    while |body| < length
      invariant ReadBody(body, reader.rest, reader.cuts, length)
             == ReadBody(start, old(reader.rest), old(reader.cuts), length)
      decreases |reader.rest|
    {
      var read := reader.Read(CHUNK);
      if read == [] {
        return None;
      }
      body := body + read;
    }
    return Some(body[..length]);
  }

  // ----- what a request is, without reads

  function Parse(stream: Bytes): Outcome {
    match FindHeaderEnd(stream)
    case None => Err(if |stream| <= LIMIT then EofInHeaders else HeadersTooLarge)
    case Some(end) =>
      match ParseHead(stream[..end])
      case Err(error) => Err(error)
      case Ok(head) =>
        var body := stream[end + 4..];
        if |body| < head.length then Err(EofInBody)
        else Ok(Request(head.verb, head.target, body[..head.length]))
  }

  /** Where the header block, blank line included, ends. */
  function HeaderSize(stream: Bytes): Option<nat> {
    match FindHeaderEnd(stream)
    case None => None
    case Some(end) => Some(end + 4)
  }

  /** A prefix has its header end where the stream has it, once it is long enough. */
  lemma HeaderEndInPrefix(stream: Bytes, k: nat)
    requires k <= |stream|
    ensures FindHeaderEnd(stream[..k]) ==
      if HeaderSize(stream).Some? && HeaderSize(stream).value <= k then FindHeaderEnd(stream) else None
  {
    assert forall i: nat | i + 4 <= k :: BlankLineAt(stream[..k], i) <==> BlankLineAt(stream, i);
    var whole, part := FindHeaderEnd(stream), FindHeaderEnd(stream[..k]);
    if part.Some? { assert BlankLineAt(stream, part.value); }
    if whole.Some? && whole.value + 4 <= k { assert BlankLineAt(stream[..k], whole.value); }
  }

  lemma ReadOnce(stream: Bytes, k: nat, n: nat)
    requires k + n <= |stream|
    ensures stream[..k] + stream[k..][..n] == stream[..k + n] && stream[k..][n..] == stream[k + n..]
  {
  }

  /** One read: with the first `k` bytes in the buffer, `n` more arrive. */
  lemma ReadStep(stream: Bytes, k: nat, cuts: seq<nat>) returns (n: nat)
    requires k <= |stream|
    ensures n == Delivered(stream[k..], cuts, CHUNK) <= |stream| - k && n <= CHUNK && (n == 0 <==> k == |stream|)
    ensures ReadHeader(stream[..k], stream[k..], cuts) ==
      if n == 0 then Stopped(EofInHeaders)
      else if HeaderSize(stream).Some? && HeaderSize(stream).value <= k + n then
        Found(stream[..k + n], HeaderSize(stream).value - 4, stream[k + n..], Later(cuts))
      else if k + n <= LIMIT then ReadHeader(stream[..k + n], stream[k + n..], Later(cuts))
      else Stopped(HeadersTooLarge)
  {
    hide FindHeaderEnd, BlankLineAt;
    n := Delivered(stream[k..], cuts, CHUNK);
    ReadOnce(stream, k, n);
    HeaderEndInPrefix(stream, k + n);
  }

  lemma HeaderSizeBounds(stream: Bytes)
    ensures HeaderSize(stream).Some? ==>
      4 <= HeaderSize(stream).value <= |stream| && FindHeaderEnd(stream) == Some(HeaderSize(stream).value - 4)
    ensures HeaderSize(stream).None? <==> FindHeaderEnd(stream).None?
  {
  }

  /** Reading continues in step with the stream: after `k` bytes the buffer is the prefix. */
  lemma {:induction false} HeaderReadInTime(stream: Bytes, k: nat, cuts: seq<nat>)
    requires HeaderSize(stream).Some? && k < HeaderSize(stream).value <= LIMIT + 1
    ensures var r := ReadHeader(stream[..k], stream[k..], cuts);
      && r.Found? && r.end == HeaderSize(stream).value - 4
      && r.buffer + r.rest == stream
    decreases |stream| - k
  {
    hide ReadHeader, HeaderSize;
    HeaderSizeBounds(stream);
    var n := ReadStep(stream, k, cuts);
    if k + n < HeaderSize(stream).value {
      HeaderReadInTime(stream, k + n, Later(cuts));
    }
  }

  lemma {:induction false} HeaderNeverEnds(stream: Bytes, k: nat, cuts: seq<nat>)
    requires HeaderSize(stream).None? && k <= |stream| && k <= LIMIT
    ensures ReadHeader(stream[..k], stream[k..], cuts)
         == Stopped(if |stream| <= LIMIT then EofInHeaders else HeadersTooLarge)
    decreases |stream| - k
  {
    hide ReadHeader, HeaderSize;
    var n := ReadStep(stream, k, cuts);
    if n > 0 && k + n <= LIMIT {
      HeaderNeverEnds(stream, k + n, Later(cuts));
    }
  }

  lemma {:induction false} HeaderReadTooLate(stream: Bytes, k: nat, cuts: seq<nat>)
    requires HeaderSize(stream).Some? && k <= LIMIT && LIMIT + CHUNK < HeaderSize(stream).value
    ensures k <= |stream|
    ensures ReadHeader(stream[..k], stream[k..], cuts) == Stopped(HeadersTooLarge)
    decreases |stream| - k
  {
    hide ReadHeader, HeaderSize;
    HeaderSizeBounds(stream);
    var n := ReadStep(stream, k, cuts);
    if k + n <= LIMIT {
      HeaderReadTooLate(stream, k + n, Later(cuts));
    }
  }

  /** With full reads the limit is hit exactly, and one more read brings the rest of the headers. */
  lemma {:induction false} FullReadsFit(stream: Bytes, i: nat)
    requires HeaderSize(stream).Some? && LIMIT + 1 < HeaderSize(stream).value <= LIMIT + CHUNK
    requires i <= 256
    ensures ReadHeader(stream[..4096 * i], stream[4096 * i..], []).Found?
    decreases 256 - i
  {
    hide ReadHeader, HeaderSize;
    HeaderSizeBounds(stream);
    var n := ReadStep(stream, 4096 * i, []);
    if i < 256 { FullReadsFit(stream, i + 1); }
  }

  /** With one odd byte first, the limit is overshot by one byte. */
  lemma {:induction false} FullReadsOvershoot(stream: Bytes, i: nat)
    requires HeaderSize(stream).Some? && LIMIT + 1 < HeaderSize(stream).value <= LIMIT + CHUNK
    requires i < 256
    ensures ReadHeader(stream[..1 + 4096 * i], stream[1 + 4096 * i..], []) == Stopped(HeadersTooLarge)
    decreases 256 - i
  {
    hide ReadHeader, HeaderSize;
    HeaderSizeBounds(stream);
    var n := ReadStep(stream, 1 + 4096 * i, []);
    if i < 255 { FullReadsOvershoot(stream, i + 1); }
  }

  lemma {:induction false} BodyRead(body: Bytes, rest: Bytes, cuts: seq<nat>, length: nat)
    ensures ReadBody(body, rest, cuts, length)
         == if |body + rest| < length then None else Some((body + rest)[..length])
    decreases |rest|
  {
    if |body| < length {
      var n := Delivered(rest, cuts, CHUNK);
      if n > 0 {
        assert body + rest[..n] + rest[n..] == body + rest;
        BodyRead(body + rest[..n], rest[n..], Later(cuts), length);
      }
    } else {
      assert (body + rest)[..length] == body[..length];
    }
  }

  /** However the stream is cut into reads, the result is the one read off the whole stream, as
      long as the header block ends within the limit plus one byte, or does not end at all. */
  lemma ReceiveIsParse(stream: Bytes, cuts: seq<nat>)
    requires HeaderSize(stream).Some? ==> HeaderSize(stream).value <= LIMIT + 1
    ensures Receive(stream, cuts) == Parse(stream)
  {
    hide ReadHeader, ReadBody, ParseHead, HeaderSize, FindHeaderEnd;
    HeaderSizeBounds(stream);
    assert stream[..0] == [] && stream[0..] == stream;
    if HeaderSize(stream).None? {
      HeaderNeverEnds(stream, 0, cuts);
    } else {
      HeaderReadInTime(stream, 0, cuts);
      var r := ReadHeader([], stream, cuts);
      assert r.buffer[..r.end] == stream[..r.end];
      assert r.buffer[r.end + 4..] + r.rest == stream[r.end + 4..];
      if ParseHead(r.buffer[..r.end]).Ok? {
        BodyRead(r.buffer[r.end + 4..], r.rest, r.cuts, ParseHead(r.buffer[..r.end]).value.length);
      }
    }
  }

  lemma CutsMatterNearLimit(stream: Bytes)
    requires HeaderSize(stream).Some? && LIMIT + 2 <= HeaderSize(stream).value <= LIMIT + CHUNK
    ensures Receive(stream, []) != Err(HeadersTooLarge) == Receive(stream, [1])
  {
    hide FindHeaderEnd, ParseHead, HeaderSize;
    assert stream[..0] == [] && stream[0..] == stream;
    FullReadsFit(stream, 0);
    ParseHeadErrors(ReadHeader([], stream, []));
    FirstReadOfOne(stream);
    FullReadsOvershoot(stream, 0);
  }

  lemma ParseHeadErrors(r: HeaderRead)
    requires r.Found? && r.end <= |r.buffer|
    ensures ParseHead(r.buffer[..r.end]) != Err(HeadersTooLarge)
  {
  }

  lemma FirstReadOfOne(stream: Bytes)
    requires HeaderSize(stream).Some?
    ensures ReadHeader([], stream, [1]) == ReadHeader(stream[..1], stream[1..], [])
  {
    HeaderEndInPrefix(stream, 1);
    assert [] + stream[..1] == stream[..1];
  }

  /** Without a blank line a stream of up to a mebibyte is cut short and a longer one too large. */
  lemma EndlessHeadersAreRefused(stream: Bytes, cuts: seq<nat>)
    requires forall i: nat :: !BlankLineAt(stream, i)
    ensures Receive(stream, cuts) == Err(if |stream| <= 1_048_576 then EofInHeaders else HeadersTooLarge)
  {
    hide Receive, BlankLineAt;
    ReceiveIsParse(stream, cuts);
  }

  /** The cuts can change the result exactly if the header block ends two to 4096 bytes past the
      limit; there it is accepted or refused according to where the reads happen to fall. */
  lemma CutsMatterExactly(stream: Bytes)
    ensures (forall c, d :: Receive(stream, c) == Receive(stream, d))
      <==> !(HeaderSize(stream).Some? && LIMIT + 2 <= HeaderSize(stream).value <= LIMIT + CHUNK)
  {
    hide Receive, Parse;
    var size := HeaderSize(stream);
    if size.Some? && LIMIT + 2 <= size.value <= LIMIT + CHUNK {
      CutsMatterNearLimit(stream);
    } else {
      forall c, d ensures Receive(stream, c) == Receive(stream, d) {
        SameForAllCuts(stream, c);
        SameForAllCuts(stream, d);
      }
    }
  }

  lemma SameForAllCuts(stream: Bytes, cuts: seq<nat>)
    requires !(HeaderSize(stream).Some? && LIMIT + 2 <= HeaderSize(stream).value <= LIMIT + CHUNK)
    ensures Receive(stream, cuts) ==
      if HeaderSize(stream).Some? && HeaderSize(stream).value > LIMIT + CHUNK then Err(HeadersTooLarge)
      else Parse(stream)
  {
    assert stream[..0] == [] && stream[0..] == stream;
    if HeaderSize(stream).Some? && HeaderSize(stream).value > LIMIT + CHUNK {
      HeaderReadTooLate(stream, 0, cuts);
    } else {
      ReceiveIsParse(stream, cuts);
    }
  }
}
