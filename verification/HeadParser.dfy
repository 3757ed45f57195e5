/** The parser's loops: block-wise and unrolled scans, with and without SSE4.2, all of which compute what the
    byte-at-a-time specification says. `buf` is a `const char *` with its end, positions are offsets into it. */
module HeadParser {
  import opened Bytes
  import opened HeadSpec
  import opened HeadSkips

  /** Character ranges for the block search: pairs of a first and a last byte. */
  type Ranges = seq<(byte, byte)>

  const TOKEN_RANGES: Ranges :=
    [(0, 32), (34, 34), (40, 41), (44, 44), (47, 47), (58, 64), (91, 93), (123, 255)]
  const EOL_RANGES: Ranges := [(0, 8), (10, 31), (127, 127)]
  const PATH_RANGES: Ranges := [(0, 32), (127, 127)]

  predicate InRanges(c: byte, ranges: Ranges) {
    exists k :: 0 <= k < |ranges| && ranges[k].0 <= c <= ranges[k].1
  }

  predicate IsPrintableAscii(c: byte) {
    32 <= c < 127
  }

  /** The least index of a byte in the ranges among the 16 at `i`, or 16: what _mm_cmpestri computes. */
  method LeastInRanges(buf: seq<byte>, i: nat, ranges: Ranges) returns (r: nat)
    requires i + 16 <= |buf|
    ensures r <= 16
    ensures forall k :: i <= k < i + r ==> !InRanges(buf[k], ranges)
    ensures r < 16 ==> InRanges(buf[i + r], ranges)
  {
    r := 0;
    while r < 16 && !InRanges(buf[i + r], ranges)
      invariant r <= 16
      invariant forall k :: i <= k < i + r ==> !InRanges(buf[k], ranges)
    {
      r := r + 1;
    }
  }

  /** findchar_fast: stops at the first byte in the ranges, or less than one block from the end. Built without
      SSE4.2 it does not move. */
  method FindCharFast(sse: bool, buf: seq<byte>, start: nat, ranges: Ranges) returns (i: nat, found: bool)
    requires start <= |buf|
    ensures start <= i <= |buf|
    ensures forall k :: start <= k < i ==> !InRanges(buf[k], ranges)
    ensures found ==> i < |buf| && InRanges(buf[i], ranges)
    ensures sse && !found ==> |buf| - i < 16
    ensures !sse ==> i == start && !found
  {
    i, found := start, false;
    if sse && |buf| - i >= 16 {
      var left := (|buf| - i) / 16 * 16;
      while left != 0
        invariant start <= i && left % 16 == 0 && 0 <= left <= |buf| - i < left + 16
        invariant forall k :: start <= k < i ==> !InRanges(buf[k], ranges)
        decreases left
      {
        var r := LeastInRanges(buf, i, ranges);
        if r != 16 {
          i := i + r;
          found := true;
          break;
        }
        i := i + 16;
        left := left - 16;
      }
    }
  }

  // ---- Skipped bytes are acceptable and never the delimiter ----

  /** Outside the token ranges there are only token characters, and neither SP nor the colon. */
  lemma TokenRangesSound(c: byte)
    ensures !InRanges(c, TOKEN_RANGES) ==> IsTokenChar(c) && c != SP && c != COLON
  {
    if !IsTokenChar(c) || c == SP || c == COLON {
      var k := if c <= 32 then 0 else if c == 34 then 1 else if c <= 41 then 2 else if c == 44 then 3
               else if c == 47 then 4 else if c <= 64 then 5 else if c <= 93 then 6 else 7;
      assert TOKEN_RANGES[k].0 <= c <= TOKEN_RANGES[k].1;
    }
  }

  /** Only control characters other than HT, and all of them, are in the line-end ranges. */
  lemma EolRangesExact(c: byte)
    ensures InRanges(c, EOL_RANGES) <==> IsControl(c)
  {
    assert EOL_RANGES[0] == (0, 8) && EOL_RANGES[1] == (10, 31) && EOL_RANGES[2] == (127, 127);
  }

  lemma PathRangesExact(c: byte)
    ensures InRanges(c, PATH_RANGES) <==> c <= 32 || c == DEL
  {
    assert PATH_RANGES[0] == (0, 32) && PATH_RANGES[1] == (127, 127);
  }

  // ---- The parsing functions ----

  /** parse_token */
  method ParseTokenFast(sse: bool, buf: seq<byte>, start: nat, delim: byte) returns (r: Parse<Span>)
    requires start <= |buf| && (delim == SP || delim == COLON)
    ensures r == ParseToken(buf, start, delim)
  {
    var i, found := FindCharFast(sse, buf, start, TOKEN_RANGES);
    forall k | start <= k < i ensures IsTokenChar(buf[k]) && buf[k] != delim {
      TokenRangesSound(buf[k]);
    }
    SkipTokenBytes(buf, start, i, delim);
    if !found && i == |buf| {
      return Partial;
    }
    while true
      invariant start <= i < |buf|
      invariant ScanToken(buf, start, delim) == ScanToken(buf, i, delim)
      decreases |buf| - i
    {
      if buf[i] == delim {
        break;
      } else if !IsTokenChar(buf[i]) {
        return Bad;
      }
      i := i + 1;
      if i == |buf| {
        return Partial;
      }
    }
    r := Ok(i, Span(start, i - start));
  }

  /** ADVANCE_TOKEN, for the path */
  method AdvanceToken(sse: bool, buf: seq<byte>, start: nat) returns (r: Parse<()>)
    requires start <= |buf|
    ensures r == ScanPath(buf, start)
  {
    var i, found := FindCharFast(sse, buf, start, PATH_RANGES);
    forall k | start <= k < i ensures buf[k] > 32 && buf[k] != DEL {
      PathRangesExact(buf[k]);
    }
    SkipPathBytes(buf, start, i);
    if !found && i == |buf| {
      return Partial;
    }
    while true
      invariant start <= i < |buf|
      invariant ScanPath(buf, start) == ScanPath(buf, i)
      decreases |buf| - i
    {
      if buf[i] == SP {
        break;
      } else if !IsPrintableAscii(buf[i]) {
        if buf[i] < 32 || buf[i] == DEL {
          return Bad;
        }
      }
      i := i + 1;
      if i == |buf| {
        return Partial;
      }
    }
    r := Ok(i, ());
  }

  /** The hot loop of the build without SSE4.2: eight bytes at a time while eight are left. Stops at a control
      character or less than eight bytes from the end. */
  method SkipPrintable(buf: seq<byte>, start: nat) returns (i: nat, found: bool)
    requires start <= |buf|
    ensures start <= i <= |buf|
    ensures forall k :: start <= k < i ==> !IsControl(buf[k])
    ensures found ==> i < |buf| && IsControl(buf[i])
    ensures !found ==> |buf| - i < 8
  {
    i, found := start, false;
    while |buf| - i >= 8
      invariant start <= i <= |buf|
      invariant forall k :: start <= k < i ==> !IsControl(buf[k])
      decreases |buf| - i
    {
      var n := 0;
      ghost var block := i;
      while n < 8 && IsPrintableAscii(buf[i])
        invariant 0 <= n <= 8 && i == block + n && block + 8 <= |buf|
        invariant forall k :: start <= k < i ==> !IsControl(buf[k])
      {
        i := i + 1;
        n := n + 1;
      }
      if n == 8 {
        continue;
      }
      if IsControl(buf[i]) {
        return i, true;
      }
      i := i + 1;
    }
  }

  /** get_token_to_eol */
  method GetTokenToEolFast(sse: bool, buf: seq<byte>, start: nat) returns (r: Parse<Span>)
    requires start <= |buf|
    ensures r == GetTokenToEol(buf, start)
  {
    var i, found;
    if sse {
      i, found := FindCharFast(true, buf, start, EOL_RANGES);
      forall k | start <= k <= i && k < |buf| ensures InRanges(buf[k], EOL_RANGES) <==> IsControl(buf[k]) {
        EolRangesExact(buf[k]);
      }
    } else {
      i, found := SkipPrintable(buf, start);
    }
    SkipTextBytes(buf, start, i);
    while !found
      invariant start <= i <= |buf|
      invariant ScanEol(buf, start) == ScanEol(buf, i)
      invariant found ==> i < |buf| && IsControl(buf[i])
      decreases |buf| - i, !found
    {
      if i == |buf| {
        return Partial;
      }
      if !IsPrintableAscii(buf[i]) && IsControl(buf[i]) {
        found := true;
      } else {
        i := i + 1;
      }
    }
    if buf[i] == CR {
      if i + 1 == |buf| {
        return Partial;
      }
      if buf[i + 1] != LF {
        return Bad;
      }
      r := Ok(i + 2, Span(start, i + 2 - 2 - start));
    } else if buf[i] == LF {
      r := Ok(i + 1, Span(start, i - start));
    } else {
      r := Bad;
    }
  }

  /** The checks for a line end that parse_request and parse_headers share. */
  method ExpectNewLine(buf: seq<byte>, i: nat) returns (r: Parse<bool>)
    requires i <= |buf|
    ensures r == NewLine(buf, i)
  {
    if i == |buf| {
      return Partial;
    }
    if buf[i] == CR {
      if i + 1 == |buf| {
        return Partial;
      }
      if buf[i + 1] != LF {
        return Bad;
      }
      return Ok(i + 2, true);
    } else if buf[i] == LF {
      return Ok(i + 1, true);
    }
    r := Ok(i, false);
  }

  /** do ++buf while it is a space */
  method AdvanceSpaces(buf: seq<byte>, at: nat) returns (r: Parse<()>)
    requires at < |buf|
    ensures r == SkipSpaces(buf, at + 1)
  {
    var i := at;
    while true
      invariant at <= i < |buf| && SkipSpaces(buf, at + 1) == SkipSpaces(buf, i + 1)
      decreases |buf| - i
    {
      i := i + 1;
      if i == |buf| {
        return Partial;
      }
      if buf[i] != SP {
        break;
      }
    }
    r := Ok(i, ());
  }

  /** is_complete, on the first `len` bytes of a memory. The end of these is only noticed when it is met exactly. */
  method CheckComplete(mem: seq<byte>, len: nat, lastLen: nat) returns (r: Parse<()>)
    requires len <= |mem| && Readable(mem, len, lastLen)
    ensures r == CompleteIn(mem, len, lastLen)
  {
    var i := if lastLen < 3 then 0 else lastLen - 3;
    var lineEnds := 0;
    ghost var reached := if i <= len then mem[..len] else mem;
    while true
      invariant 0 <= i <= |reached| && 0 <= lineEnds < 2 && (|reached| == len || (reached == mem && i > len))
      invariant ScanComplete(reached, i, lineEnds) == CompleteIn(mem, len, lastLen)
      invariant i > len ==> !ScanComplete(mem, i, lineEnds).Partial?
      decreases |reached| - i
    {
      if i == len {
        return Partial;
      }
      if mem[i] == CR {
        i := i + 1;
        if i == len {
          return Partial;
        }
        if mem[i] != LF {
          return Bad;
        }
        i := i + 1;
        lineEnds := lineEnds + 1;
      } else if mem[i] == LF {
        i := i + 1;
        lineEnds := lineEnds + 1;
      } else {
        i := i + 1;
        lineEnds := 0;
      }
      if lineEnds == 2 {
        return Ok(i, ());
      }
    }
  }

  /** parse_http_version: seven expected characters, then PARSE_INT */
  method ParseHttpVersion(buf: seq<byte>, i: nat) returns (r: Parse<nat>)
    requires i <= |buf|
    ensures r == ParseVersion(buf, i)
  {
    if |buf| - i < 9 {
      return Partial;
    }
    var n := 0;
    while n < 7
      invariant 0 <= n <= 7
      invariant buf[i..i + n] == HTTP_1[..n]
    {
      if buf[i + n] != HTTP_1[n] {
        assert buf[i..i + 7][n] != HTTP_1[n];
        return Bad;
      }
      assert buf[i..i + n + 1] == buf[i..i + n] + [buf[i + n]];
      n := n + 1;
    }
    assert HTTP_1[..7] == HTTP_1;
    if buf[i + 7] < 48 || 57 < buf[i + 7] {
      return Bad;
    }
    r := Ok(i + 8, DigitValue(buf[i + 7]));
  }

  /** The text of a header value without trailing blanks. */
  method TrimTrailing(buf: seq<byte>, text: Span) returns (value: Span)
    requires text.start + text.len <= |buf|
    ensures value == Trimmed(buf, text)
  {
    var end := text.start + text.len;
    while end != text.start
      invariant text.start <= end <= text.start + text.len
      invariant TrimEnd(buf, text.start, text.start + text.len) == TrimEnd(buf, text.start, end)
      decreases end
    {
      if !IsBlank(buf[end - 1]) {
        break;
      }
      end := end - 1;
    }
    value := Span(text.start, end - text.start);
  }

  /** One turn of the loop in parse_headers. */
  method ParseHeaderFast(sse: bool, buf: seq<byte>, start: nat, first: bool) returns (r: Parse<Header>)
    requires start < |buf|
    ensures r == ParseHeader(buf, start, first)
  {
    var name: Option<Span>, i := None, start;
    if first || !IsBlank(buf[start]) {
      var token := ParseTokenFast(sse, buf, start, COLON);
      if !token.Ok? {
        return token.PropagateFailure();
      }
      if token.val.len == 0 {
        return Bad;
      }
      name := Some(token.val);
      i := token.pos + 1;
      while i < |buf| && IsBlank(buf[i])
        invariant token.pos < i <= |buf|
        invariant SkipBlanks(buf, token.pos + 1) == SkipBlanks(buf, i)
        decreases |buf| - i
      {
        i := i + 1;
      }
      if i == |buf| {
        return Partial;
      }
    }
    var text := GetTokenToEolFast(sse, buf, i);
    if !text.Ok? {
      return text.PropagateFailure();
    }
    var value := TrimTrailing(buf, text.val);
    r := Ok(text.pos, Header(name, value));
  }

  /** parse_headers: fills the caller's array from its start. */
  method ParseHeadersInto(sse: bool, buf: seq<byte>, start: nat, headers: array<Header>)
    returns (r: Parse<nat>)
    requires start <= |buf|
    modifies headers
    ensures var spec := ParseHeaders(buf, start, [], headers.Length);
            match r
            case Ok(pos, n) => n <= headers.Length && spec == Ok(pos, headers[..n])
            case Partial => spec == Partial
            case Bad => spec == Bad
  {
    var i, n := start, 0;
    while true
      invariant start <= i <= |buf| && 0 <= n <= headers.Length
      invariant ParseHeaders(buf, start, [], headers.Length) == ParseHeaders(buf, i, headers[..n], headers.Length)
      decreases |buf| - i
    {
      var line := ExpectNewLine(buf, i);
      if !line.Ok? {
        return line.PropagateFailure();
      }
      if line.val {
        return Ok(line.pos, n);
      }
      if n == headers.Length {
        return Bad;
      }
      var header := ParseHeaderFast(sse, buf, i, n == 0);
      if !header.Ok? {
        return header.PropagateFailure();
      }
      headers[n] := header.val;
      assert headers[..n + 1] == headers[..n] + [header.val];
      i, n := header.pos, n + 1;
    }
  }

  /** parse_request up to the version. */
  method ParseTargetFast(sse: bool, buf: seq<byte>) returns (r: Parse<(Span, Span)>)
    ensures r == ParseTarget(buf)
  {
    hide NewLine, ScanToken, ParseToken, SkipSpaces, ScanPath;
    var blank := ExpectNewLine(buf, 0);
    if !blank.Ok? {
      return blank.PropagateFailure();
    }
    var m := ParseTokenFast(sse, buf, blank.pos, SP);
    if !m.Ok? {
      return m.PropagateFailure();
    }
    var pathStart := AdvanceSpaces(buf, m.pos);
    if !pathStart.Ok? {
      return pathStart.PropagateFailure();
    }
    var pathEnd := AdvanceToken(sse, buf, pathStart.pos);
    if !pathEnd.Ok? {
      return pathEnd.PropagateFailure();
    }
    var versionStart := AdvanceSpaces(buf, pathEnd.pos);
    if !versionStart.Ok? {
      return versionStart.PropagateFailure();
    }
    if m.val.len == 0 || pathEnd.pos == pathStart.pos {
      return Bad;
    }
    r := Ok(versionStart.pos, (m.val, Span(pathStart.pos, pathEnd.pos - pathStart.pos)));
  }

  /** The request line, up to and including its line end. */
  method ParseRequestLineFast(sse: bool, buf: seq<byte>) returns (r: Parse<RequestLine>)
    ensures r == ParseRequestLine(buf)
  {
    hide ParseTarget, ParseVersion, NewLine;
    var target := ParseTargetFast(sse, buf);
    if !target.Ok? {
      return target.PropagateFailure();
    }
    var minor := ParseHttpVersion(buf, target.pos);
    if !minor.Ok? {
      return minor.PropagateFailure();
    }
    var lineEnd := ExpectNewLine(buf, minor.pos);
    if !lineEnd.Ok? {
      return lineEnd.PropagateFailure();
    }
    if !lineEnd.val {
      return Bad;
    }
    r := Ok(lineEnd.pos, RequestLine(target.val.0, target.val.1, minor.val));
  }

  /** The status line of parse_response. */
  method ParseStatusLineFast(sse: bool, buf: seq<byte>) returns (r: Parse<StatusLine>)
    ensures r == ParseStatusLine(buf)
  {
    var minor := ParseHttpVersion(buf, 0);
    if !minor.Ok? {
      return minor.PropagateFailure();
    }
    if buf[minor.pos] != SP {
      return Bad;
    }
    var statusStart := AdvanceSpaces(buf, minor.pos);
    if !statusStart.Ok? {
      return statusStart.PropagateFailure();
    }
    var i := statusStart.pos;
    if |buf| - i < 4 {
      return Partial;
    }
    if !IsDigit(buf[i]) || !IsDigit(buf[i + 1]) || !IsDigit(buf[i + 2]) {
      return Bad;
    }
    var status := 100 * DigitValue(buf[i]) + 10 * DigitValue(buf[i + 1]) + DigitValue(buf[i + 2]);
    var text := GetTokenToEolFast(sse, buf, i + 3);
    if !text.Ok? {
      return text.PropagateFailure();
    }
    var start, len := text.val.start, text.val.len;
    if len > 0 && buf[start] != SP {
      return Bad;
    }
    // the control character that ends the text stops this loop
    while buf[start] == SP
      invariant i + 3 <= start <= i + 3 + text.val.len && start + len == i + 3 + text.val.len
      invariant SkipSpaces(buf, i + 3) == SkipSpaces(buf, start)
      decreases len
    {
      start, len := start + 1, len - 1;
    }
    r := Ok(text.pos, StatusLine(minor.val, status, Span(start, len)));
  }

  /** phr_parse_request. `headers` holds max_headers entries; on success the first `numHeaders` are filled. */
  method ParseRequestInto(sse: bool, mem: seq<byte>, len: nat, headers: array<Header>, lastLen: nat)
    returns (ret: int, line: RequestLine, numHeaders: nat)
    requires len <= |mem| && Readable(mem, len, lastLen)
    modifies headers
    ensures var spec := RequestIn(mem, len, headers.Length, lastLen);
            && ret == ReturnCode(spec)
            && (spec.Ok? ==> numHeaders <= headers.Length && spec.val == Head(line, headers[..numHeaders]))
  {
    line, numHeaders := RequestLine(Span(0, 0), Span(0, 0), 0), 0;
    if lastLen != 0 {
      var complete := CheckComplete(mem, len, lastLen);
      if !complete.Ok? {
        return ReturnCode(complete), line, 0;
      }
    }
    var buf := mem[..len];
    var first := ParseRequestLineFast(sse, buf);
    if !first.Ok? {
      return ReturnCode(first), line, 0;
    }
    var rest := ParseHeadersInto(sse, buf, first.pos, headers);
    if !rest.Ok? {
      return ReturnCode(rest), line, 0;
    }
    return rest.pos, first.val, rest.val;
  }

  /** phr_parse_response */
  method ParseResponseInto(sse: bool, mem: seq<byte>, len: nat, headers: array<Header>, lastLen: nat)
    returns (ret: int, line: StatusLine, numHeaders: nat)
    requires len <= |mem| && Readable(mem, len, lastLen)
    modifies headers
    ensures var spec := ResponseIn(mem, len, headers.Length, lastLen);
            && ret == ReturnCode(spec)
            && (spec.Ok? ==> numHeaders <= headers.Length && spec.val == Head(line, headers[..numHeaders]))
  {
    line, numHeaders := StatusLine(0, 0, Span(0, 0)), 0;
    if lastLen != 0 {
      var complete := CheckComplete(mem, len, lastLen);
      if !complete.Ok? {
        return ReturnCode(complete), line, 0;
      }
    }
    var buf := mem[..len];
    var first := ParseStatusLineFast(sse, buf);
    if !first.Ok? {
      return ReturnCode(first), line, 0;
    }
    var rest := ParseHeadersInto(sse, buf, first.pos, headers);
    if !rest.Ok? {
      return ReturnCode(rest), line, 0;
    }
    return rest.pos, first.val, rest.val;
  }
}
