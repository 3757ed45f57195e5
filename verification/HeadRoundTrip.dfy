/** Printing a head and parsing it back (sections 3.1.1, 3.1.2, 3.2 and 3.2.6 of RFC 7230). */
module HeadRoundTrip {
  import opened Bytes
  import opened HeadSpec
  import opened HeadSkips

  /** A header field with the optional white space around its value. */
  datatype Field = Field(name: seq<byte>, lead: seq<byte>, value: seq<byte>, trail: seq<byte>)

  ghost predicate IsToken(s: seq<byte>) {
    s != [] && forall i :: 0 <= i < |s| ==> IsTokenChar(s[i])
  }

  /** SP or HT. */
  predicate IsWhite(c: byte) {
    c == 32 || c == 9
  }

  ghost predicate AllBlank(s: seq<byte>) {
    forall i :: 0 <= i < |s| ==> IsWhite(s[i])
  }

  /** HT, or not a control character. */
  ghost predicate IsText(s: seq<byte>) {
    forall i :: 0 <= i < |s| ==> s[i] == 9 || (s[i] >= 32 && s[i] != 127)
  }

  ghost predicate IsTrimmed(s: seq<byte>) {
    s != [] ==> !IsWhite(s[0]) && !IsWhite(s[|s| - 1])
  }

  /** Free of trailing white space. */
  ghost predicate EndsTrimmed(s: seq<byte>) {
    s != [] ==> !IsWhite(s[|s| - 1])
  }

  ghost predicate ValidField(f: Field) {
    IsToken(f.name) && AllBlank(f.lead) && AllBlank(f.trail) && IsText(f.value) && IsTrimmed(f.value)
  }

  ghost predicate ValidFields(fields: seq<Field>) {
    forall i :: 0 <= i < |fields| ==> ValidField(fields[i])
  }

  /** No SP, no control character, no DEL. */
  ghost predicate IsPath(s: seq<byte>) {
    s != [] && forall i :: 0 <= i < |s| ==> s[i] > 32 && s[i] != 127
  }

  /** A line ends in CR LF, or in a bare LF (section 3.5). */
  ghost predicate IsEnd(end: seq<byte>) {
    end == CRLF || end == [LF]
  }

  function PrintFieldWith(f: Field, end: seq<byte>): seq<byte> {
    f.name + ([COLON] + (f.lead + (f.value + (f.trail + end))))
  }

  function PrintField(f: Field): seq<byte> {
    PrintFieldWith(f, CRLF)
  }

  function PrintFields(fields: seq<Field>): seq<byte> {
    if fields == [] then CRLF else PrintField(fields[0]) + PrintFields(fields[1..])
  }

  function PrintVersion(minor: nat): seq<byte>
    requires minor <= 9
  {
    Ascii("HTTP/1.") + [48 + minor]
  }

  function PrintRequestLine(m: seq<byte>, path: seq<byte>, minor: nat): seq<byte>
    requires minor <= 9
  {
    m + ([SP] + (path + ([SP] + (PrintVersion(minor) + CRLF))))
  }

  function PrintRequest(m: seq<byte>, path: seq<byte>, minor: nat, fields: seq<Field>): seq<byte>
    requires minor <= 9
  {
    PrintRequestLine(m, path, minor) + PrintFields(fields)
  }

  /** What the spans of a parsed head point at. */
  function Slice(buf: seq<byte>, s: Span): seq<byte> {
    if s.start + s.len <= |buf| then buf[s.start..s.start + s.len] else []
  }

  function HeaderBytes(buf: seq<byte>, h: Header): (Option<seq<byte>>, seq<byte>) {
    (if h.name.Some? then Some(Slice(buf, h.name.value)) else None, Slice(buf, h.value))
  }

  function HeadersBytes(buf: seq<byte>, hs: seq<Header>): (r: seq<(Option<seq<byte>>, seq<byte>)>)
    ensures |r| == |hs|
    ensures forall i :: 0 <= i < |hs| ==> r[i] == HeaderBytes(buf, hs[i])
  {
    if hs == [] then [] else [HeaderBytes(buf, hs[0])] + HeadersBytes(buf, hs[1..])
  }

  /** The names and values that were printed. */
  function FieldsBytes(fields: seq<Field>): (r: seq<(Option<seq<byte>>, seq<byte>)>)
    ensures |r| == |fields|
  {
    if fields == [] then [] else [(Some(fields[0].name), fields[0].value)] + FieldsBytes(fields[1..])
  }

  /** `text` stands in the buffer at `i`. */
  ghost predicate At(buf: seq<byte>, i: nat, text: seq<byte>) {
    i + |text| <= |buf| && buf[i..i + |text|] == text
  }

  lemma AtSplit(buf: seq<byte>, i: nat, a: seq<byte>, b: seq<byte>)
    requires At(buf, i, a + b)
    ensures At(buf, i, a) && At(buf, i + |a|, b)
    ensures forall k :: i <= k < i + |a| ==> buf[k] == a[k - i]
  {
    var text := buf[i..i + |a + b|];
    assert text[..|a|] == a && text[|a|..] == b;
    assert buf[i..i + |a|] == text[..|a|];
    assert buf[i + |a|..i + |a| + |b|] == text[|a|..];
    assert forall k :: i <= k < i + |a| ==> buf[k] == text[k - i];
  }

  lemma ReadLineEnd(buf: seq<byte>, i: nat, end: seq<byte>)
    requires At(buf, i, end) && IsEnd(end)
    ensures NewLine(buf, i) == Ok(i + |end|, true) && IsControl(buf[i]) && !IsBlank(buf[i]) && i + |end| <= |buf|
  {
    assert buf[i] == buf[i..i + |end|][0];
    assert |end| == 2 ==> buf[i + 1] == buf[i..i + |end|][1];
  }

  lemma ReadToken(buf: seq<byte>, i: nat, token: seq<byte>, delim: byte)
    requires At(buf, i, token) && i + |token| < |buf| && buf[i + |token|] == delim
    requires IsToken(token) && !IsTokenChar(delim)
    ensures ParseToken(buf, i, delim) == Ok(i + |token|, Span(i, |token|))
  {
    assert forall k :: i <= k < i + |token| ==> buf[k] == buf[i..i + |token|][k - i];
    SkipTokenBytes(buf, i, i + |token|, delim);
  }

  lemma ReadPath(buf: seq<byte>, i: nat, path: seq<byte>)
    requires At(buf, i, path) && i + |path| < |buf| && buf[i + |path|] == SP && IsPath(path)
    ensures ScanPath(buf, i) == Ok(i + |path|, ()) && SkipSpaces(buf, i) == Ok(i, ())
  {
    assert forall k :: i <= k < i + |path| ==> buf[k] == buf[i..i + |path|][k - i];
    SkipPathBytes(buf, i, i + |path|);
  }

  lemma ReadVersion(buf: seq<byte>, i: nat, minor: nat)
    requires minor <= 9 && At(buf, i, PrintVersion(minor)) && i + 9 <= |buf|
    ensures ParseVersion(buf, i) == Ok(i + 8, minor) && SkipSpaces(buf, i) == Ok(i, ())
  {
    AtSplit(buf, i, HTTP_1, [48 + minor]);
    assert buf[i + 7] == buf[i + 7..i + 8][0];
    assert buf[i] == buf[i..i + 7][0];
  }

  lemma ReadText(buf: seq<byte>, i: nat, text: seq<byte>, end: seq<byte>)
    requires At(buf, i, text + end) && IsText(text) && IsEnd(end)
    ensures GetTokenToEol(buf, i) == Ok(i + |text| + |end|, Span(i, |text|))
  {
    hide At, NewLine;
    var stop := i + |text|;
    AtSplit(buf, i, text, end);
    ReadLineEnd(buf, stop, end);
    SkipTextBytes(buf, i, stop);
    assert ScanEol(buf, stop) == Ok(stop + |end|, stop);
    hide ScanEol;
  }

  /** The rest of a line: text, then blanks that are trimmed off. */
  lemma ReadValue(buf: seq<byte>, i: nat, value: seq<byte>, trail: seq<byte>, end: seq<byte>)
    requires At(buf, i, value + (trail + end)) && IsText(value) && EndsTrimmed(value) && AllBlank(trail) && IsEnd(end)
    ensures GetTokenToEol(buf, i) == Ok(i + |value| + |trail| + |end|, Span(i, |value| + |trail|))
    ensures TrimEnd(buf, i, i + |value| + |trail|) == i + |value|
  {
    hide At, TrimEnd, GetTokenToEol, EndsTrimmed, IsEnd;
    assert value + (trail + end) == value + trail + end;
    ReadText(buf, i, value + trail, end);
    TrimTrail(buf, i, value, trail, end);
  }

  lemma TrimTrail(buf: seq<byte>, i: nat, value: seq<byte>, trail: seq<byte>, end: seq<byte>)
    requires At(buf, i, value + (trail + end)) && EndsTrimmed(value) && AllBlank(trail)
    ensures i + |value| + |trail| <= |buf|
    ensures TrimEnd(buf, i, i + |value| + |trail|) == i + |value|
  {
    hide At, TrimEnd;
    var mid := i + |value|;
    AtSplit(buf, i, value, trail + end);
    AtSplit(buf, mid, trail, end);
    AtInside(buf, mid, trail);
    TrimBlankBytes(buf, i, mid, mid + |trail|);
    TrimStops(buf, i, mid);
    assert value != [] ==> buf[mid - 1] == value[|value| - 1];
  }

  lemma TrimStops(buf: seq<byte>, start: nat, end: nat)
    requires start <= end <= |buf|
    ensures end == start || !IsBlank(buf[end - 1]) ==> TrimEnd(buf, start, end) == end
  {
  }

  lemma ReadLead(buf: seq<byte>, i: nat, lead: seq<byte>, value: seq<byte>, trail: seq<byte>, end: seq<byte>)
    requires At(buf, i, lead + (value + (trail + end)))
    requires AllBlank(lead) && AllBlank(trail) && IsText(value) && IsTrimmed(value) && IsEnd(end)
    ensures value != [] ==> SkipBlanks(buf, i) == Ok(i + |lead|, ())
    ensures value == [] ==> SkipBlanks(buf, i) == Ok(i + |lead| + |trail|, ())
  {
    hide At, NewLine;
    AtSplit(buf, i, lead, value + (trail + end));
    AtSplit(buf, i + |lead|, value, trail + end);
    AtSplit(buf, i + |lead| + |value|, trail, end);
    SkipBlankBytes(buf, i, i + |lead|);
    if value == [] {
      ReadLineEnd(buf, i + |lead| + |trail|, end);
      SkipBlankBytes(buf, i, i + |lead| + |trail|);
    } else {
      assert buf[i + |lead|] == value[0];
    }
  }

  /** What follows the colon: white space, the value, white space. */
  lemma ReadBody(buf: seq<byte>, i: nat, f: Field, end: seq<byte>) returns (start: nat, len: nat)
    requires ValidField(f) && IsEnd(end) && At(buf, i, f.lead + (f.value + (f.trail + end)))
    ensures SkipBlanks(buf, i) == Ok(start, ())
    ensures GetTokenToEol(buf, start) == Ok(i + |f.lead| + |f.value| + |f.trail| + |end|, Span(start, len))
    ensures start + len <= |buf| && TrimEnd(buf, start, start + len) == start + |f.value|
    ensures f.value != [] ==> At(buf, start, f.value)
  {
    hide At, NewLine, SkipBlanks, GetTokenToEol, TrimEnd, IsEnd, IsText;
    ReadLead(buf, i, f.lead, f.value, f.trail, end);
    AtSplit(buf, i, f.lead, f.value + (f.trail + end));
    start, len := i + |f.lead|, |f.value| + |f.trail|;
    AtSplit(buf, start, f.value, f.trail + end);
    if f.value != [] {
      ReadValue(buf, start, f.value, f.trail, end);
    } else {
      AtSplit(buf, start, f.trail, end);
      start, len := start + |f.trail|, 0;
      var empty: seq<byte> := [];
      assert empty + (empty + end) == end;
      ReadValue(buf, start, f.value, empty, end);
    }
  }

  lemma ReadField(buf: seq<byte>, i: nat, f: Field, end: seq<byte>, first: bool) returns (h: Header)
    requires At(buf, i, PrintFieldWith(f, end)) && ValidField(f) && IsEnd(end)
    ensures i < |buf| && ParseHeader(buf, i, first) == Ok(i + |PrintFieldWith(f, end)|, h)
    ensures HeaderBytes(buf, h) == (Some(f.name), f.value)
    ensures NewLine(buf, i) == Ok(i, false)
  {
    hide At, NewLine, SkipBlanks, GetTokenToEol, TrimEnd, ParseToken, ParseHeader, IsEnd;
    var colon := i + |f.name|;
    LocateName(buf, i, f, end);
    NameIsNoNewLine(buf, i);
    ReadToken(buf, i, f.name, COLON);
    var start, len := ReadBody(buf, colon + 1, f, end);
    h := Header(Some(Span(i, |f.name|)), Span(start, |f.value|));
    ComposeHeader(buf, i, first, |f.name|, start, len, |f.value|, i + |PrintFieldWith(f, end)|);
    HeaderBytesAt(buf, i, f.name, start, f.value);
  }

  /** Where the parts of a field stand. */
  lemma LocateName(buf: seq<byte>, i: nat, f: Field, end: seq<byte>)
    requires At(buf, i, PrintFieldWith(f, end)) && ValidField(f)
    ensures At(buf, i, f.name) && At(buf, i + |f.name| + 1, f.lead + (f.value + (f.trail + end)))
    ensures i + |f.name| < |buf| && buf[i] == f.name[0] && buf[i + |f.name|] == COLON && IsTokenChar(buf[i])
  {
    hide At;
    var colon, text := i + |f.name|, f.lead + (f.value + (f.trail + end));
    AtSplit(buf, i, f.name, [COLON] + text);
    AtSplit(buf, colon, [COLON], text);
    AtInside(buf, colon, [COLON]);
  }

  lemma ComposeHeader(buf: seq<byte>, i: nat, first: bool, nameLen: nat, start: nat, len: nat, valueLen: nat, end: nat)
    requires i < |buf| && !IsBlank(buf[i]) && nameLen > 0 && valueLen <= len
    requires ParseToken(buf, i, COLON) == Ok(i + nameLen, Span(i, nameLen))
    requires SkipBlanks(buf, i + nameLen + 1) == Ok(start, ())
    requires GetTokenToEol(buf, start) == Ok(end, Span(start, len))
    requires start + len <= |buf| && TrimEnd(buf, start, start + len) == start + valueLen
    ensures ParseHeader(buf, i, first) == Ok(end, Header(Some(Span(i, nameLen)), Span(start, valueLen)))
  {
    hide ParseToken, SkipBlanks, GetTokenToEol, TrimEnd;
  }

  lemma NameIsNoNewLine(buf: seq<byte>, i: nat)
    requires i < |buf| && IsTokenChar(buf[i])
    ensures NewLine(buf, i) == Ok(i, false) && !IsBlank(buf[i])
  {
  }

  lemma HeaderBytesAt(buf: seq<byte>, i: nat, name: seq<byte>, start: nat, value: seq<byte>)
    requires At(buf, i, name) && start + |value| <= |buf| && (value != [] ==> At(buf, start, value))
    ensures HeaderBytes(buf, Header(Some(Span(i, |name|)), Span(start, |value|))) == (Some(name), value)
  {
    SliceAt(buf, i, name);
    if value != [] {
      SliceAt(buf, start, value);
    } else {
      assert Slice(buf, Span(start, 0)) == value;
    }
  }

  lemma {:induction false} ReadFields(buf: seq<byte>, i: nat, fields: seq<Field>, parsed: seq<Header>,
                                      maxHeaders: nat) returns (hs: seq<Header>)
    requires At(buf, i, PrintFields(fields)) && ValidFields(fields) && |parsed| + |fields| <= maxHeaders
    ensures ParseHeaders(buf, i, parsed, maxHeaders) == Ok(i + |PrintFields(fields)|, parsed + hs)
    ensures HeadersBytes(buf, hs) == FieldsBytes(fields)
    decreases |fields|
  {
    hide ParseHeaders, ParseHeader, HeadersBytes, HeaderBytes, FieldsBytes, PrintFieldWith, At, NewLine;
    if fields == [] {
      hs := [];
      ReadEnd(buf, i, parsed, maxHeaders);
    } else {
      AtSplit(buf, i, PrintField(fields[0]), PrintFields(fields[1..]));
      var h := ReadField(buf, i, fields[0], CRLF, |parsed| == 0);
      var next := i + |PrintField(fields[0])|;
      var rest := ReadFields(buf, next, fields[1..], parsed + [h], maxHeaders);
      hs := [h] + rest;
      HeadersStep(buf, i, parsed, maxHeaders, next, h);
      BytesStep(buf, h, rest, fields);
      Reassociate(parsed, h, rest);
    }
  }

  lemma ReadEnd(buf: seq<byte>, i: nat, parsed: seq<Header>, maxHeaders: nat)
    requires At(buf, i, CRLF)
    ensures ParseHeaders(buf, i, parsed, maxHeaders) == Ok(i + 2, parsed + [])
    ensures HeadersBytes(buf, []) == FieldsBytes([])
  {
    ReadLineEnd(buf, i, CRLF);
    assert parsed + [] == parsed;
  }

  lemma Reassociate<T>(a: seq<T>, x: T, b: seq<T>)
    ensures a + [x] + b == a + ([x] + b)
  {
  }

  lemma HeadersStep(buf: seq<byte>, i: nat, parsed: seq<Header>, maxHeaders: nat, next: nat, h: Header)
    requires i < |buf| && NewLine(buf, i) == Ok(i, false) && |parsed| < maxHeaders
    requires ParseHeader(buf, i, |parsed| == 0) == Ok(next, h)
    ensures ParseHeaders(buf, i, parsed, maxHeaders) == ParseHeaders(buf, next, parsed + [h], maxHeaders)
  {
  }

  lemma {:induction false} BytesStep(buf: seq<byte>, h: Header, rest: seq<Header>, fields: seq<Field>)
    requires fields != [] && HeaderBytes(buf, h) == (Some(fields[0].name), fields[0].value)
    requires HeadersBytes(buf, rest) == FieldsBytes(fields[1..])
    ensures HeadersBytes(buf, [h] + rest) == FieldsBytes(fields)
  {
    assert ([h] + rest)[1..] == rest;
  }

  /** Method and path, with the spaces after them. */
  lemma ReadTarget(buf: seq<byte>, m: seq<byte>, path: seq<byte>)
    requires IsToken(m) && IsPath(path) && At(buf, 0, m) && At(buf, |m| + 1, path)
    requires |m| + |path| + 2 < |buf| && buf[|m|] == SP && buf[|m| + 1 + |path|] == SP && buf[|m| + |path| + 2] != SP
    ensures ParseTarget(buf) == Ok(|m| + |path| + 2, (Span(0, |m|), Span(|m| + 1, |path|)))
  {
    var p := |m| + 1;
    assert buf[0] == buf[0..|m|][0] && buf[p] == buf[p..p + |path|][0];
    NameIsNoNewLine(buf, 0);
    ReadToken(buf, 0, m, SP);
    ReadPath(buf, p, path);
    hide At, ParseToken, ScanPath, NewLine;
    assert SkipSpaces(buf, p) == Ok(p, ()) && SkipSpaces(buf, p + |path| + 1) == Ok(p + |path| + 1, ());
    hide SkipSpaces;
  }

  lemma ReadRequestLine(buf: seq<byte>, m: seq<byte>, path: seq<byte>, minor: nat)
    requires IsToken(m) && IsPath(path) && minor <= 9 && At(buf, 0, PrintRequestLine(m, path, minor))
    ensures ParseRequestLine(buf) ==
            Ok(|PrintRequestLine(m, path, minor)|, RequestLine(Span(0, |m|), Span(|m| + 1, |path|), minor))
    ensures At(buf, 0, m) && At(buf, |m| + 1, path)
  {
    VersionText(minor);
    hide At, ParseTarget, ParseVersion, NewLine, PrintVersion;
    var v := |m| + |path| + 2;
    LocateParts(buf, m, path, PrintVersion(minor) + CRLF);
    AtSplit(buf, v, PrintVersion(minor), CRLF);
    ReadTarget(buf, m, path);
    ReadVersion(buf, v, minor);
    ReadLineEnd(buf, v + 8, CRLF);
  }

  /** Where the parts of a request line stand. */
  lemma LocateParts(buf: seq<byte>, m: seq<byte>, path: seq<byte>, rest: seq<byte>)
    requires At(buf, 0, m + ([SP] + (path + ([SP] + rest))))
    ensures var p := |m| + 1;
            && At(buf, 0, m) && At(buf, p, path) && At(buf, p + |path| + 1, rest)
            && p + |path| < |buf| && buf[|m|] == SP && buf[p + |path|] == SP
  {
    hide At;
    var p, afterMethod := |m| + 1, path + ([SP] + rest);
    AtSplit(buf, 0, m, [SP] + afterMethod);
    AtSplit(buf, |m|, [SP], afterMethod);
    AtSplit(buf, p, path, [SP] + rest);
    AtSplit(buf, p + |path|, [SP], rest);
    AtInside(buf, p + |path|, [SP]);
  }

  lemma AtInside(buf: seq<byte>, i: nat, text: seq<byte>)
    requires At(buf, i, text)
    ensures i + |text| <= |buf|
  {
  }

  lemma VersionText(minor: nat)
    requires minor <= 9
    ensures |PrintVersion(minor)| == 8 && PrintVersion(minor)[0] != SP
  {
  }

  /** The request round trip: any printed request, whatever follows it, is parsed to its full length and exactly
      its method, path, version and fields. */
  lemma RequestRoundTrip(m: seq<byte>, path: seq<byte>, minor: nat, fields: seq<Field>, more: seq<byte>,
                         maxHeaders: nat)
    requires IsToken(m) && IsPath(path) && minor <= 9 && ValidFields(fields) && |fields| <= maxHeaders
    ensures var text := PrintRequest(m, path, minor, fields);
            var r := ParseRequest(text + more, maxHeaders);
            && r.Ok? && r.pos == |text|
            && Slice(text + more, r.val.line.method_) == m
            && Slice(text + more, r.val.line.path) == path
            && r.val.line.minorVersion == minor
            && HeadersBytes(text + more, r.val.headers) == FieldsBytes(fields)
  {
    hide At, ParseRequestLine, ParseHeaders, PrintRequestLine, PrintFields, HeadersBytes, FieldsBytes, ValidFields;
    var line, rest := PrintRequestLine(m, path, minor), PrintFields(fields);
    var buf := line + rest + more;
    AtStart(line + rest, more);
    AtSplit(buf, 0, line, rest);
    ReadRequestLine(buf, m, path, minor);
    var hs := ReadFields(buf, |line|, fields, [], maxHeaders);
    assert [] + hs == hs;
    SliceAt(buf, 0, m);
    SliceAt(buf, |m| + 1, path);
  }

  lemma AtStart(text: seq<byte>, more: seq<byte>)
    ensures At(text + more, 0, text)
  {
  }

  lemma SliceAt(buf: seq<byte>, i: nat, text: seq<byte>)
    requires At(buf, i, text)
    ensures Slice(buf, Span(i, |text|)) == text
  {
  }
}
