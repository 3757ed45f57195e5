/** The head of a request or response, parsed one byte at a time (sections 3.1 and 3.2 of RFC 7230). */
module HeadSpec {
  import opened Bytes

  /** Success with the position after what was parsed, "needs more bytes" (-2), or "malformed" (-1). */
  datatype Parse<+T> = Ok(pos: nat, val: T) | Partial | Bad {
    predicate IsFailure() {
      !Ok?
    }

    function PropagateFailure<U>(): Parse<U>
      requires !Ok?
    {
      if Partial? then Parse<U>.Partial else Parse<U>.Bad
    }

    function Extract(): (nat, T)
      requires Ok?
    {
      (pos, val)
    }
  }

  /** A slice of the buffer: the C code's pointer and length. */
  datatype Span = Span(start: nat, len: nat)

  /** A header without a name continues the previous one (obsolete line folding). */
  datatype Header = Header(name: Option<Span>, value: Span)

  datatype RequestLine = RequestLine(method_: Span, path: Span, minorVersion: nat)

  datatype StatusLine = StatusLine(minorVersion: nat, status: nat, msg: Span)

  datatype Head<+L> = Head(line: L, headers: seq<Header>)

  /** tchar of section 3.2.6: the bytes token_char_map marks with 1. */
  predicate IsTokenChar(c: byte) {
    || 48 <= c <= 57 || 65 <= c <= 90 || 97 <= c <= 122
    || c in {33, 35, 36, 37, 38, 39, 42, 43, 45, 46, 94, 95, 96, 124, 126}
  }

  predicate IsBlank(c: byte) {
    c == SP || c == HT
  }

  /** A control character other than HT: it ends a header value. */
  predicate IsControl(c: byte) {
    (c < 32 && c != HT) || c == DEL
  }

  /** Looks for a line end at `i`: the position after it and true, or `i` and false. */
  function NewLine(buf: seq<byte>, i: nat): (r: Parse<bool>)
    ensures r.Ok? ==> i <= r.pos <= |buf| && i < |buf| && (r.val <==> i < r.pos)
  {
    if i >= |buf| then Partial
    else if buf[i] == CR then
      if i + 1 >= |buf| then Partial else if buf[i + 1] == LF then Ok(i + 2, true) else Bad
    else if buf[i] == LF then Ok(i + 1, true)
    else Ok(i, false)
  }

  /** Token characters up to `delim`, which is not consumed. */
  function ScanToken(buf: seq<byte>, i: nat, delim: byte): (r: Parse<()>)
    ensures r.Ok? ==> i <= r.pos < |buf| && buf[r.pos] == delim
    decreases |buf| - i
  {
    if i >= |buf| then Partial
    else if buf[i] == delim then Ok(i, ())
    else if !IsTokenChar(buf[i]) then Bad
    else ScanToken(buf, i + 1, delim)
  }

  function ParseToken(buf: seq<byte>, i: nat, delim: byte): (r: Parse<Span>)
    ensures r.Ok? ==> i <= r.pos < |buf| && buf[r.pos] == delim && r.val == Span(i, r.pos - i)
  {
    var (end, _) :- ScanToken(buf, i, delim);
    Ok(end, Span(i, end - i))
  }

  /** Anything but control characters up to SP, which is not consumed. */
  function ScanPath(buf: seq<byte>, i: nat): (r: Parse<()>)
    ensures r.Ok? ==> i <= r.pos < |buf| && buf[r.pos] == SP
    decreases |buf| - i
  {
    if i >= |buf| then Partial
    else if buf[i] == SP then Ok(i, ())
    else if buf[i] < 32 || buf[i] == DEL then Bad
    else ScanPath(buf, i + 1)
  }

  function SkipSpaces(buf: seq<byte>, i: nat): (r: Parse<()>)
    ensures r.Ok? ==> i <= r.pos < |buf| && buf[r.pos] != SP && forall k :: i <= k < r.pos ==> buf[k] == SP
    decreases |buf| - i
  {
    if i >= |buf| then Partial else if buf[i] == SP then SkipSpaces(buf, i + 1) else Ok(i, ())
  }

  function SkipBlanks(buf: seq<byte>, i: nat): (r: Parse<()>)
    ensures r.Ok? ==> i <= r.pos < |buf| && !IsBlank(buf[r.pos])
    decreases |buf| - i
  {
    if i >= |buf| then Partial else if IsBlank(buf[i]) then SkipBlanks(buf, i + 1) else Ok(i, ())
  }

  /** The rest of a line: the position after its end, and where its text stops. */
  function ScanEol(buf: seq<byte>, i: nat): (r: Parse<nat>)
    ensures r.Ok? ==> i <= r.val < r.pos <= |buf| && IsControl(buf[r.val])
    decreases |buf| - i
  {
    if i >= |buf| then Partial
    else if !IsControl(buf[i]) then ScanEol(buf, i + 1)
    else
      var (next, isEnd) :- NewLine(buf, i);
      if isEnd then Ok(next, i) else Bad
  }

  function GetTokenToEol(buf: seq<byte>, i: nat): (r: Parse<Span>)
    ensures r.Ok? ==> i < r.pos <= |buf| && r.val.start == i && i + r.val.len < r.pos
    ensures r.Ok? ==> IsControl(buf[i + r.val.len])
  {
    var (next, end) :- ScanEol(buf, i);
    Ok(next, Span(i, end - i))
  }

  /** The end of the text in buf[start..end] without trailing SP and HT. */
  function TrimEnd(buf: seq<byte>, start: nat, end: nat): (r: nat)
    requires start <= end <= |buf|
    ensures start <= r <= end
    decreases end
  {
    if end > start && IsBlank(buf[end - 1]) then TrimEnd(buf, start, end - 1) else end
  }

  function Trimmed(buf: seq<byte>, s: Span): Span
    requires s.start + s.len <= |buf|
  {
    Span(s.start, TrimEnd(buf, s.start, s.start + s.len) - s.start)
  }

  /** A header's name with its colon and the blanks after it; a line that starts with a blank continues the previous
      header and has none, but a first header never continues another. */
  function ParseName(buf: seq<byte>, i: nat, first: bool): (r: Parse<Option<Span>>)
    requires i < |buf|
    ensures r.Ok? ==> i <= r.pos < |buf|
  {
    if first || !IsBlank(buf[i]) then
      var (colon, name) :- ParseToken(buf, i, COLON);
      if name.len == 0 then Bad
      else
        var (start, _) :- SkipBlanks(buf, colon + 1);
        Ok(start, Some(name))
    else Ok(i, None)
  }

  /** One header line. */
  function ParseHeader(buf: seq<byte>, i: nat, first: bool): (r: Parse<Header>)
    requires i < |buf|
    ensures r.Ok? ==> i < r.pos <= |buf|
  {
    var (start, name) :- ParseName(buf, i, first);
    var (next, text) :- GetTokenToEol(buf, start);
    Ok(next, Header(name, Trimmed(buf, text)))
  }

  /** Header lines up to the empty line; `parsed` are the headers before `i`. */
  function ParseHeaders(buf: seq<byte>, i: nat, parsed: seq<Header>, maxHeaders: nat): (r: Parse<seq<Header>>)
    ensures r.Ok? ==> i < r.pos <= |buf|
    decreases |buf| - i
  {
    var (next, isEnd) :- NewLine(buf, i);
    if isEnd then Ok(next, parsed)
    else if |parsed| == maxHeaders then Bad
    else
      var (nextLine, h) :- ParseHeader(buf, i, |parsed| == 0);
      ParseHeaders(buf, nextLine, parsed + [h], maxHeaders)
  }

  const HTTP_1: seq<byte> := [72, 84, 84, 80, 47, 49, 46]  // "HTTP/1."

  /** HTTP/1.<digit>; nothing is looked at before nine bytes are there. */
  function ParseVersion(buf: seq<byte>, i: nat): (r: Parse<nat>)
    ensures r.Ok? ==> r.pos == i + 8 < |buf| && r.val <= 9
  {
    if |buf| < i + 9 then Partial
    else if buf[i..i + 7] == HTTP_1 && IsDigit(buf[i + 7]) then Ok(i + 8, DigitValue(buf[i + 7]))
    else Bad
  }

  /** Method and path with the spaces after them; an empty line before them is skipped. */
  function ParseTarget(buf: seq<byte>): (r: Parse<(Span, Span)>)
    ensures r.Ok? ==> r.pos < |buf|
  {
    var (start, _) :- NewLine(buf, 0);
    var (methodEnd, m) :- ParseToken(buf, start, SP);
    var (pathStart, _) :- SkipSpaces(buf, methodEnd + 1);
    var (pathEnd, _) :- ScanPath(buf, pathStart);
    var (versionStart, _) :- SkipSpaces(buf, pathEnd + 1);
    if m.len == 0 || pathEnd == pathStart then Bad else Ok(versionStart, (m, Span(pathStart, pathEnd - pathStart)))
  }

  /** The request line with its line end. */
  function ParseRequestLine(buf: seq<byte>): (r: Parse<RequestLine>)
    ensures r.Ok? ==> r.pos <= |buf|
  {
    var (versionStart, target) :- ParseTarget(buf);
    var (versionEnd, minor) :- ParseVersion(buf, versionStart);
    var (next, isEnd) :- NewLine(buf, versionEnd);
    if isEnd then Ok(next, RequestLine(target.0, target.1, minor)) else Bad
  }

  /** parse_request: everything up to the empty line. */
  function ParseRequest(buf: seq<byte>, maxHeaders: nat): (r: Parse<Head<RequestLine>>)
    ensures r.Ok? ==> r.pos <= |buf|
  {
    var (next, line) :- ParseRequestLine(buf);
    var (end, headers) :- ParseHeaders(buf, next, [], maxHeaders);
    Ok(end, Head(line, headers))
  }

  /** Three digits and one more byte. */
  function ParseStatus(buf: seq<byte>, i: nat): (r: Parse<nat>)
    ensures r.Ok? ==> r.pos == i + 3 < |buf|
  {
    if |buf| < i + 4 then Partial
    else if IsDigit(buf[i]) && IsDigit(buf[i + 1]) && IsDigit(buf[i + 2]) then
      Ok(i + 3, 100 * DigitValue(buf[i]) + 10 * DigitValue(buf[i + 1]) + DigitValue(buf[i + 2]))
    else Bad
  }

  /** The status line; the spaces before the message are dropped. */
  function ParseStatusLine(buf: seq<byte>): (r: Parse<StatusLine>)
    ensures r.Ok? ==> r.pos <= |buf|
  {
    var (versionEnd, minor) :- ParseVersion(buf, 0);
    if buf[versionEnd] != SP then Bad
    else
      var (statusStart, _) :- SkipSpaces(buf, versionEnd + 1);
      var (statusEnd, status) :- ParseStatus(buf, statusStart);
      var (next, text) :- GetTokenToEol(buf, statusEnd);
      if text.len > 0 && buf[statusEnd] != SP then Bad
      else
        var (msgStart, _) :- SkipSpaces(buf, statusEnd);
        Ok(next, StatusLine(minor, status, Span(msgStart, statusEnd + text.len - msgStart)))
  }

  /** parse_response. */
  function ParseResponse(buf: seq<byte>, maxHeaders: nat): (r: Parse<Head<StatusLine>>)
    ensures r.Ok? ==> r.pos <= |buf|
  {
    var (next, line) :- ParseStatusLine(buf);
    var (end, headers) :- ParseHeaders(buf, next, [], maxHeaders);
    Ok(end, Head(line, headers))
  }

  /** Scans for two line ends in a row; `lineEnds` were seen just before `i`. */
  function ScanComplete(buf: seq<byte>, i: nat, lineEnds: nat): (r: Parse<()>)
    ensures r.Ok? ==> i < r.pos <= |buf|
    decreases |buf| - i
  {
    var (next, isEnd) :- NewLine(buf, i);
    if !isEnd then ScanComplete(buf, i + 1, 0)
    else if lineEnds + 1 == 2 then Ok(next, ())
    else ScanComplete(buf, next, lineEnds + 1)
  }

  /** is_complete: the scan restarts three bytes before what the previous call had seen. */
  function IsComplete(buf: seq<byte>, lastLen: nat): Parse<()> {
    ScanComplete(buf, if lastLen < 3 then 0 else lastLen - 3, 0)
  }

  /** The scan of is_complete starts inside the `len` bytes received, or at their end. */
  predicate InBounds(len: nat, lastLen: nat) {
    lastLen <= len + 3
  }

  /** is_complete in a memory of which the first `len` bytes have been received. A scan that starts behind these never
      meets their end: it goes on in what the memory holds there. */
  function CompleteIn(mem: seq<byte>, len: nat, lastLen: nat): Parse<()>
    requires len <= |mem|
  {
    if InBounds(len, lastLen) then IsComplete(mem[..len], lastLen) else ScanComplete(mem, lastLen - 3, 0)
  }

  /** The scan stays inside the memory: it starts among the bytes received, or finds a blank line or a stray CR before
      the memory ends. */
  predicate Readable(mem: seq<byte>, len: nat, lastLen: nat) {
    InBounds(len, lastLen) || !ScanComplete(mem, lastLen - 3, 0).Partial?
  }

  /** phr_parse_request, when the scan starts among the bytes received. */
  function PhrParseRequest(buf: seq<byte>, maxHeaders: nat, lastLen: nat): Parse<Head<RequestLine>> {
    if lastLen != 0 && !IsComplete(buf, lastLen).Ok? then IsComplete(buf, lastLen).PropagateFailure()
    else ParseRequest(buf, maxHeaders)
  }

  /** phr_parse_request on the first `len` bytes of a memory. */
  function RequestIn(mem: seq<byte>, len: nat, maxHeaders: nat, lastLen: nat): Parse<Head<RequestLine>>
    requires len <= |mem|
  {
    if lastLen != 0 && !CompleteIn(mem, len, lastLen).Ok? then CompleteIn(mem, len, lastLen).PropagateFailure()
    else ParseRequest(mem[..len], maxHeaders)
  }

  /** phr_parse_response on the first `len` bytes of a memory. */
  function ResponseIn(mem: seq<byte>, len: nat, maxHeaders: nat, lastLen: nat): Parse<Head<StatusLine>>
    requires len <= |mem|
  {
    if lastLen != 0 && !CompleteIn(mem, len, lastLen).Ok? then CompleteIn(mem, len, lastLen).PropagateFailure()
    else ParseResponse(mem[..len], maxHeaders)
  }

  /** The C functions' answer: the number of bytes consumed, -1 or -2. */
  function ReturnCode<T>(r: Parse<T>): int {
    match r
    case Ok(pos, _) => pos
    case Bad => -1
    case Partial => -2
  }
}
