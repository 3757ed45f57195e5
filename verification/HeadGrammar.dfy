/** Which byte strings the parser accepts: a grammar for the heads of requests and responses that is independent of
    it, and the proof that it accepts exactly these, with exactly their parts. Where section 3 of RFC 7230 has one
    space, the parser takes several; where it has CR LF, a bare LF too; it skips an empty line before a request, and
    leaves folded lines as they are. */
module HeadGrammar {
  import opened Bytes
  import opened HeadSpec
  import opened HeadSkips
  import opened HeadRoundTrip

  // ---- Character classes ----

  const TOKEN_MARKS: seq<byte> := Ascii("!#$%&'*+-.^_`|~")
  const DIGITS: seq<byte> := Ascii("0123456789")
  const UPPER: seq<byte> := Ascii("ABCDEFGHIJKLMNOPQRSTUVWXYZ")
  const LOWER: seq<byte> := Ascii("abcdefghijklmnopqrstuvwxyz")

  /** tchar of section 3.2.6. */
  predicate IsTchar(c: byte) {
    c in TOKEN_MARKS || c in DIGITS || c in UPPER || c in LOWER
  }

  lemma TokenCharsExactly(c: byte)
    ensures IsTokenChar(c) <==> IsTchar(c)
  {
    assert TOKEN_MARKS == [33, 35, 36, 37, 38, 39, 42, 43, 45, 46, 94, 95, 96, 124, 126];
    InARow(DIGITS, 48, c);
    InARow(UPPER, 65, c);
    InARow(LOWER, 97, c);
  }

  lemma InARow(s: seq<byte>, first: byte, c: byte)
    requires first + |s| <= 256 && forall i :: 0 <= i < |s| ==> s[i] == first + i
    ensures c in s <==> first <= c < first + |s|
  {
    if first <= c < first + |s| {
      assert s[c - first] == c;
    }
  }

  /** A header line. A folded one continues the one before it: it begins with white space, which belongs to its value.
      */
  datatype Line =
    | Named(field: Field, end: seq<byte>)
    | Folded(value: seq<byte>, trail: seq<byte>, end: seq<byte>)

  function PrintLine(l: Line): seq<byte> {
    match l
    case Named(f, end) => PrintFieldWith(f, end)
    case Folded(value, trail, end) => value + (trail + end)
  }

  ghost predicate ValidLine(l: Line, first: bool) {
    match l
    case Named(f, end) => ValidField(f) && IsEnd(end)
    case Folded(value, trail, end) =>
      && !first && IsText(value) && EndsTrimmed(value) && AllBlank(trail) && IsEnd(end)
      && value + trail != [] && IsWhite((value + trail)[0])
  }

  function LineBytes(l: Line): (Option<seq<byte>>, seq<byte>) {
    match l
    case Named(f, _) => (Some(f.name), f.value)
    case Folded(value, _, _) => (None, value)
  }

  function PrintLines(lines: seq<Line>, end: seq<byte>): seq<byte> {
    if lines == [] then end else PrintLine(lines[0]) + PrintLines(lines[1..], end)
  }

  function LinesBytes(lines: seq<Line>): (r: seq<(Option<seq<byte>>, seq<byte>)>)
    ensures |r| == |lines|
  {
    if lines == [] then [] else [LineBytes(lines[0])] + LinesBytes(lines[1..])
  }

  /** Only the first line of all cannot be a folded one. */
  ghost predicate ValidLines(lines: seq<Line>, first: bool) {
    forall i :: 0 <= i < |lines| ==> ValidLine(lines[i], first && i == 0)
  }

  // ---- Every such line is parsed ----

  lemma ReadFolded(buf: seq<byte>, i: nat, l: Line) returns (h: Header)
    requires l.Folded? && ValidLine(l, false) && At(buf, i, PrintLine(l))
    ensures i < |buf| && ParseHeader(buf, i, false) == Ok(i + |PrintLine(l)|, h)
    ensures HeaderBytes(buf, h) == LineBytes(l) && NewLine(buf, i) == Ok(i, false)
  {
    hide At, GetTokenToEol, TrimEnd, NewLine, ParseHeader, IsText, EndsTrimmed, AllBlank, IsEnd;
    ReadValue(buf, i, l.value, l.trail, l.end);
    StartsBlank(buf, i, l);
    h := Header(None, Span(i, |l.value|));
    FoldedLine(buf, i, |l.value|, |l.trail|, i + |PrintLine(l)|);
    AtSplit(buf, i, l.value, l.trail + l.end);
    SliceAt(buf, i, l.value);
  }

  lemma StartsBlank(buf: seq<byte>, i: nat, l: Line)
    requires l.Folded? && ValidLine(l, false) && At(buf, i, PrintLine(l))
    ensures i + |l.value| + |l.trail| <= |buf| && i < |buf| && IsBlank(buf[i])
  {
    hide At, IsText, EndsTrimmed, AllBlank, IsEnd;
    assert l.value + (l.trail + l.end) == l.value + l.trail + l.end;
    AtSplit(buf, i, l.value + l.trail, l.end);
    FirstByte(buf, i, l.value + l.trail);
    AtInside(buf, i, l.value + l.trail);
  }

  lemma FoldedLine(buf: seq<byte>, i: nat, len: nat, trail: nat, end: nat)
    requires i < |buf| && IsBlank(buf[i]) && i + len + trail <= |buf|
    requires GetTokenToEol(buf, i) == Ok(end, Span(i, len + trail)) && TrimEnd(buf, i, i + len + trail) == i + len
    ensures ParseHeader(buf, i, false) == Ok(end, Header(None, Span(i, len))) && NewLine(buf, i) == Ok(i, false)
  {
    hide GetTokenToEol, TrimEnd;
  }

  lemma ReadLine(buf: seq<byte>, i: nat, l: Line, first: bool) returns (h: Header)
    requires ValidLine(l, first) && At(buf, i, PrintLine(l))
    ensures i < |buf| && ParseHeader(buf, i, first) == Ok(i + |PrintLine(l)|, h)
    ensures HeaderBytes(buf, h) == LineBytes(l) && NewLine(buf, i) == Ok(i, false)
  {
    hide At, NewLine, ParseHeader;
    match l
    case Named(f, end) => h := ReadField(buf, i, f, end, first);
    case Folded(_, _, _) => h := ReadFolded(buf, i, l);
  }

  lemma {:induction false} ReadLines(buf: seq<byte>, i: nat, lines: seq<Line>, end: seq<byte>, parsed: seq<Header>,
                                     maxHeaders: nat) returns (hs: seq<Header>)
    requires At(buf, i, PrintLines(lines, end)) && ValidLines(lines, parsed == []) && IsEnd(end)
    requires |parsed| + |lines| <= maxHeaders
    ensures ParseHeaders(buf, i, parsed, maxHeaders) == Ok(i + |PrintLines(lines, end)|, parsed + hs)
    ensures HeadersBytes(buf, hs) == LinesBytes(lines)
    decreases |lines|
  {
    hide ParseHeader, HeaderBytes, PrintLine, ValidLine, LineBytes, At, NewLine, IsEnd;
    if lines == [] {
      hs := [];
      ReadLineEnd(buf, i, end);
      assert parsed + [] == parsed;
    } else {
      AtSplit(buf, i, PrintLine(lines[0]), PrintLines(lines[1..], end));
      var h := ReadLine(buf, i, lines[0], parsed == []);
      var next := i + |PrintLine(lines[0])|;
      assert ValidLines(lines[1..], false) by {
        forall k | 0 <= k < |lines[1..]| ensures ValidLine(lines[1..][k], false) {
          assert lines[1..][k] == lines[k + 1];
        }
      }
      var rest := ReadLines(buf, next, lines[1..], end, parsed + [h], maxHeaders);
      hs := [h] + rest;
      HeadersStep(buf, i, parsed, maxHeaders, next, h);
      Reassociate(parsed, h, rest);
      assert hs[1..] == rest;
    }
  }

  // ---- Every line that is parsed is such a line ----

  lemma AtJoin(buf: seq<byte>, i: nat, a: seq<byte>, b: seq<byte>)
    requires At(buf, i, a) && At(buf, i + |a|, b)
    ensures At(buf, i, a + b)
  {
    assert buf[i..i + |a + b|] == buf[i..i + |a|] + buf[i + |a|..i + |a| + |b|];
  }

  lemma EndBack(buf: seq<byte>, i: nat)
    requires NewLine(buf, i).Ok? && NewLine(buf, i).val
    ensures var end := buf[i..NewLine(buf, i).pos]; IsEnd(end) && At(buf, i, end) && i + |end| == NewLine(buf, i).pos
  {
    var end := buf[i..NewLine(buf, i).pos];
    if |end| == 2 {
      assert end == [CR, LF];
    } else {
      assert end == [LF];
    }
  }

  lemma {:induction false} EolBack(buf: seq<byte>, i: nat)
    requires ScanEol(buf, i).Ok?
    ensures var r := ScanEol(buf, i);
            && i <= r.val < r.pos <= |buf| && NewLine(buf, r.val) == Ok(r.pos, true)
            && forall k :: i <= k < r.val ==> !IsControl(buf[k])
    decreases |buf| - i
  {
    if !IsControl(buf[i]) {
      EolBack(buf, i + 1);
    }
  }

  lemma {:induction false} TrimBack(buf: seq<byte>, start: nat, end: nat)
    requires start <= end <= |buf|
    ensures var r := TrimEnd(buf, start, end);
            && (r > start ==> !IsBlank(buf[r - 1]))
            && forall k :: r <= k < end ==> IsBlank(buf[k])
    decreases end
  {
    if end > start && IsBlank(buf[end - 1]) {
      TrimBack(buf, start, end - 1);
    }
  }

  /** The rest of a line from `i` on: its text, the white space after that, and its end. */
  lemma TextBack(buf: seq<byte>, i: nat) returns (value: seq<byte>, trail: seq<byte>, end: seq<byte>)
    requires GetTokenToEol(buf, i).Ok?
    ensures var r := GetTokenToEol(buf, i);
            && i + r.val.len <= |buf| && At(buf, i, value + (trail + end)) && i + |value + (trail + end)| == r.pos
            && |value| + |trail| == r.val.len && Trimmed(buf, r.val) == Span(i, |value|) && At(buf, i, value)
    ensures IsText(value) && EndsTrimmed(value) && AllBlank(trail) && IsEnd(end)
    ensures value + trail != [] ==> i < |buf| && (value + trail)[0] == buf[i]
  {
    hide ScanEol, NewLine, TrimEnd, IsControl, IsBlank, At, IsEnd, IsText, EndsTrimmed, AllBlank;
    var r := ScanEol(buf, i);
    EolBack(buf, i);
    EndBack(buf, r.val);
    TrimBack(buf, i, r.val);
    var mid := TrimEnd(buf, i, r.val);
    PiecesOfLine(buf, i, mid, r.val);
    ThreeSlices(buf, i, mid, r.val, r.pos);
    value, trail, end := buf[i..mid], buf[mid..r.val], buf[r.val..r.pos];
  }

  lemma ThreeSlices(buf: seq<byte>, i: nat, j: nat, k: nat, end: nat)
    requires i <= j <= k <= end <= |buf|
    ensures At(buf, i, buf[i..j] + (buf[j..k] + buf[k..end])) && |buf[i..j] + (buf[j..k] + buf[k..end])| == end - i
    ensures At(buf, i, buf[i..j]) && |buf[i..j]| == j - i && |buf[j..k]| == k - j
  {
    assert buf[i..j] + (buf[j..k] + buf[k..end]) == buf[i..end];
  }

  lemma PiecesOfLine(buf: seq<byte>, i: nat, mid: nat, stop: nat)
    requires i <= mid <= stop <= |buf| && (mid > i ==> !IsBlank(buf[mid - 1]))
    requires (forall k :: i <= k < stop ==> !IsControl(buf[k])) && forall k :: mid <= k < stop ==> IsBlank(buf[k])
    ensures IsText(buf[i..mid]) && EndsTrimmed(buf[i..mid]) && AllBlank(buf[mid..stop])
    ensures buf[i..mid] + buf[mid..stop] == buf[i..stop]
    ensures stop > i ==> buf[i..stop][0] == buf[i]
  {
  }

  lemma {:induction false} TokenBack(buf: seq<byte>, i: nat, delim: byte)
    requires ScanToken(buf, i, delim).Ok?
    ensures var end := ScanToken(buf, i, delim).pos;
            i <= end < |buf| && buf[end] == delim && forall k :: i <= k < end ==> IsTokenChar(buf[k])
    decreases |buf| - i
  {
    if buf[i] != delim {
      TokenBack(buf, i + 1, delim);
    }
  }

  lemma {:induction false} BlanksBack(buf: seq<byte>, i: nat)
    requires SkipBlanks(buf, i).Ok?
    ensures var end := SkipBlanks(buf, i).pos;
            i <= end < |buf| && !IsBlank(buf[end]) && forall k :: i <= k < end ==> IsBlank(buf[k])
    decreases |buf| - i
  {
    if IsBlank(buf[i]) {
      BlanksBack(buf, i + 1);
    }
  }

  /** A name, the colon and the white space after it. */
  lemma NameBack(buf: seq<byte>, i: nat, first: bool) returns (name: seq<byte>, lead: seq<byte>)
    requires i < |buf| && ParseName(buf, i, first).Ok? && ParseName(buf, i, first).val.Some?
    ensures var start := ParseName(buf, i, first).pos;
            && IsToken(name) && AllBlank(lead) && At(buf, i, name + ([COLON] + lead))
            && i + |name + ([COLON] + lead)| == start < |buf| && !IsBlank(buf[start])
            && ParseName(buf, i, first).val.value == Span(i, |name|)
  {
    TokenBack(buf, i, COLON);
    var colon := ScanToken(buf, i, COLON).pos;
    BlanksBack(buf, colon + 1);
    var start := SkipBlanks(buf, colon + 1).pos;
    hide ScanToken, SkipBlanks;
    hide At, IsToken, AllBlank, IsTokenChar, IsBlank;
    PiecesOfName(buf, i, colon, start);
    ThreeSlices(buf, i, colon, colon + 1, start);
    name, lead := buf[i..colon], buf[colon + 1..start];
  }

  lemma PiecesOfName(buf: seq<byte>, i: nat, colon: nat, start: nat)
    requires i < colon < start <= |buf| && buf[colon] == COLON
    requires forall k :: i <= k < colon ==> IsTokenChar(buf[k])
    requires forall k :: colon + 1 <= k < start ==> IsBlank(buf[k])
    ensures IsToken(buf[i..colon]) && AllBlank(buf[colon + 1..start]) && buf[colon..colon + 1] == [COLON]
  {
    hide IsTokenChar;
  }

  lemma NamedBack(buf: seq<byte>, i: nat, first: bool) returns (l: Line)
    requires i < |buf| && ParseHeader(buf, i, first).Ok? && ParseHeader(buf, i, first).val.name.Some?
    ensures var r := ParseHeader(buf, i, first);
            && ValidLine(l, first) && At(buf, i, PrintLine(l)) && i + |PrintLine(l)| == r.pos
            && HeaderBytes(buf, r.val) == LineBytes(l)
  {
    hide GetTokenToEol, ParseName, IsToken, AllBlank, IsText, EndsTrimmed, At, IsEnd, HeaderBytes;
    var name, lead := NameBack(buf, i, first);
    var start := ParseName(buf, i, first).pos;
    var value, trail, end := TextBack(buf, start);
    TrimmedValue(value, trail);
    var f := Field(name, lead, value, trail);
    l := Named(f, end);
    AtJoin(buf, i, name + ([COLON] + lead), value + (trail + end));
    assert name + ([COLON] + lead) + (value + (trail + end)) == PrintLine(l);
    AtSplit(buf, i, name, [COLON] + (lead + (value + (trail + end))));
    HeaderBytesAt(buf, i, name, start, value);
  }

  lemma TrimmedValue(value: seq<byte>, trail: seq<byte>)
    requires EndsTrimmed(value) && AllBlank(trail) && (value + trail != [] ==> !IsWhite((value + trail)[0]))
    ensures IsTrimmed(value) && (value == [] ==> trail == [])
  {
    assert value == [] ==> value + trail == trail;
    assert value != [] ==> (value + trail)[0] == value[0];
  }

  lemma FoldedBack(buf: seq<byte>, i: nat, first: bool) returns (l: Line)
    requires i < |buf| && ParseHeader(buf, i, first).Ok? && ParseHeader(buf, i, first).val.name.None?
    ensures var r := ParseHeader(buf, i, first);
            && ValidLine(l, first) && At(buf, i, PrintLine(l)) && i + |PrintLine(l)| == r.pos
            && HeaderBytes(buf, r.val) == LineBytes(l)
  {
    hide GetTokenToEol, ParseToken, SkipBlanks;
    BlankIsText(buf, i);
    var value, trail, end := TextBack(buf, i);
    l := Folded(value, trail, end);
    hide At;
    SliceAt(buf, i, value);
  }

  /** A line that begins with a blank has text. */
  lemma BlankIsText(buf: seq<byte>, i: nat)
    requires i < |buf| && IsBlank(buf[i]) && GetTokenToEol(buf, i).Ok?
    ensures GetTokenToEol(buf, i).val.len > 0
  {
  }

  lemma LineBack(buf: seq<byte>, i: nat, first: bool) returns (l: Line)
    requires i < |buf| && ParseHeader(buf, i, first).Ok?
    ensures var r := ParseHeader(buf, i, first);
            && ValidLine(l, first) && At(buf, i, PrintLine(l)) && i + |PrintLine(l)| == r.pos
            && HeaderBytes(buf, r.val) == LineBytes(l)
  {
    hide ParseHeader, At, PrintLine, ValidLine, HeaderBytes, LineBytes;
    if ParseHeader(buf, i, first).val.name.Some? {
      l := NamedBack(buf, i, first);
    } else {
      l := FoldedBack(buf, i, first);
    }
  }

  lemma {:induction false} LinesBack(buf: seq<byte>, i: nat, parsed: seq<Header>, maxHeaders: nat)
    returns (lines: seq<Line>, end: seq<byte>, hs: seq<Header>)
    requires ParseHeaders(buf, i, parsed, maxHeaders).Ok? && |parsed| <= maxHeaders
    ensures var r := ParseHeaders(buf, i, parsed, maxHeaders);
            && ValidLines(lines, parsed == []) && IsEnd(end) && At(buf, i, PrintLines(lines, end))
            && i + |PrintLines(lines, end)| == r.pos && r.val == parsed + hs && |parsed| + |lines| <= maxHeaders
    ensures HeadersBytes(buf, hs) == LinesBytes(lines)
    decreases |buf| - i
  {
    hide ParseHeader, HeaderBytes, PrintLine, ValidLine, LineBytes, At, IsEnd;
    if NewLine(buf, i).val {
      EndBack(buf, i);
      lines, end, hs := [], buf[i..NewLine(buf, i).pos], [];
      assert parsed + [] == parsed;
    } else {
      var r := ParseHeader(buf, i, parsed == []);
      hide NewLine;
      var l := LineBack(buf, i, parsed == []);
      var rest, more;
      rest, end, more := LinesBack(buf, r.pos, parsed + [r.val], maxHeaders);
      lines, hs := [l] + rest, [r.val] + more;
      assert lines[1..] == rest && hs[1..] == more;
      Reassociate(parsed, r.val, more);
      AtJoin(buf, i, PrintLine(l), PrintLines(rest, end));
      assert ValidLines(lines, parsed == []) by {
        forall k | 0 <= k < |lines| ensures ValidLine(lines[k], parsed == [] && k == 0) {
          assert k > 0 ==> lines[k] == rest[k - 1];
        }
      }
    }
  }

  // ---- Request lines ----

  /** A request line, with the line end of an empty line before it if there is one. */
  datatype Start = Start(empty: seq<byte>, method_: seq<byte>, gap1: nat, path: seq<byte>, gap2: nat, minor: Digit,
                         end: seq<byte>)

  type Digit = n: nat | n <= 9

  ghost predicate ValidStart(t: Start) {
    && (t.empty == [] || IsEnd(t.empty)) && IsToken(t.method_) && t.gap1 > 0 && IsPath(t.path) && t.gap2 > 0
    && IsEnd(t.end)
  }

  function Spaces(n: nat): (s: seq<byte>)
    ensures |s| == n
  {
    seq(n, _ => SP)
  }

  function PrintTarget(t: Start): seq<byte> {
    t.empty + (t.method_ + (Spaces(t.gap1) + (t.path + Spaces(t.gap2))))
  }

  function PrintStart(t: Start): seq<byte> {
    PrintTarget(t) + (PrintVersion(t.minor) + t.end)
  }

  lemma {:induction false} SkipOver(buf: seq<byte>, i: nat, n: nat)
    requires At(buf, i, Spaces(n)) && i + n < |buf| && buf[i + n] != SP
    ensures SkipSpaces(buf, i) == Ok(i + n, ())
    decreases n
  {
    if n > 0 {
      assert buf[i] == buf[i..i + n][0] && buf[i + 1..i + n] == buf[i..i + n][1..];
      SkipOver(buf, i + 1, n - 1);
    }
  }

  /** Where the parts of a target stand. */
  lemma LocateTarget(buf: seq<byte>, t: Start)
    requires At(buf, 0, PrintTarget(t))
    ensures var e := |t.empty|;
            var p := e + |t.method_| + t.gap1;
            && At(buf, 0, t.empty) && At(buf, e, t.method_) && At(buf, e + |t.method_|, Spaces(t.gap1))
            && At(buf, p, t.path) && At(buf, p + |t.path|, Spaces(t.gap2)) && p + |t.path| + t.gap2 <= |buf|
            && |PrintTarget(t)| == p + |t.path| + t.gap2
  {
    hide At, Spaces;
    var e := |t.empty|;
    var p := e + |t.method_| + t.gap1;
    AtSplit(buf, 0, t.empty, t.method_ + (Spaces(t.gap1) + (t.path + Spaces(t.gap2))));
    AtSplit(buf, e, t.method_, Spaces(t.gap1) + (t.path + Spaces(t.gap2)));
    AtSplit(buf, e + |t.method_|, Spaces(t.gap1), t.path + Spaces(t.gap2));
    AtSplit(buf, p, t.path, Spaces(t.gap2));
    AtInside(buf, p + |t.path|, Spaces(t.gap2));
  }

  lemma FirstSpace(buf: seq<byte>, i: nat, n: nat)
    requires At(buf, i, Spaces(n)) && n > 0
    ensures i < |buf| && buf[i] == SP && At(buf, i + 1, Spaces(n - 1))
  {
    assert buf[i] == buf[i..i + n][0] && buf[i + 1..i + n] == buf[i..i + n][1..] == Spaces(n - 1);
  }

  lemma FirstByte(buf: seq<byte>, i: nat, text: seq<byte>)
    requires At(buf, i, text) && text != []
    ensures i < |buf| && buf[i] == text[0]
  {
    assert buf[i] == buf[i..i + |text|][0];
  }

  lemma ReadTargetOf(buf: seq<byte>, t: Start)
    requires ValidStart(t) && At(buf, 0, PrintTarget(t)) && |PrintTarget(t)| < |buf| && buf[|PrintTarget(t)|] != SP
    ensures var e := |t.empty|;
            ParseTarget(buf) ==
            Ok(|PrintTarget(t)|, (Span(e, |t.method_|), Span(e + |t.method_| + t.gap1, |t.path|)))
  {
    hide At, Spaces, PrintTarget, IsEnd, ParseTarget, ParseToken, ScanPath, SkipSpaces, NewLine, IsToken, IsPath;
    LocateTarget(buf, t);
    var e := |t.empty|;
    var m := e + |t.method_|;
    var p := m + t.gap1;
    var q := p + |t.path|;
    ReadEmpty(buf, t);
    FirstSpace(buf, m, t.gap1);
    FirstSpace(buf, q, t.gap2);
    FirstOfPath(buf, p, t.path);
    ReadToken(buf, e, t.method_, SP);
    SkipOver(buf, m + 1, t.gap1 - 1);
    ReadPath(buf, p, t.path);
    SkipOver(buf, q + 1, t.gap2 - 1);
    ComposeTarget(buf, e, m, p, q, q + t.gap2);
  }

  lemma ReadEmpty(buf: seq<byte>, t: Start)
    requires ValidStart(t) && At(buf, 0, t.empty) && At(buf, |t.empty|, t.method_)
    ensures NewLine(buf, 0).Ok? && NewLine(buf, 0).pos == |t.empty| && |t.method_| > 0
  {
    FirstByte(buf, |t.empty|, t.method_);
    NameIsNoNewLine(buf, |t.empty|);
    if t.empty != [] {
      ReadLineEnd(buf, 0, t.empty);
    }
  }

  lemma FirstOfPath(buf: seq<byte>, i: nat, path: seq<byte>)
    requires At(buf, i, path) && IsPath(path)
    ensures |path| > 0 && i < |buf| && buf[i] != SP
  {
    FirstByte(buf, i, path);
  }

  lemma ComposeTarget(buf: seq<byte>, e: nat, m: nat, p: nat, q: nat, v: nat)
    requires NewLine(buf, 0).Ok? && NewLine(buf, 0).pos == e < m && p < q
    requires ParseToken(buf, e, SP) == Ok(m, Span(e, m - e)) && SkipSpaces(buf, m + 1) == Ok(p, ())
    requires ScanPath(buf, p) == Ok(q, ()) && SkipSpaces(buf, q + 1) == Ok(v, ())
    ensures ParseTarget(buf) == Ok(v, (Span(e, m - e), Span(p, q - p)))
  {
    hide NewLine, ParseToken, SkipSpaces, ScanPath;
  }

  lemma ReadStart(buf: seq<byte>, t: Start)
    requires ValidStart(t) && At(buf, 0, PrintStart(t))
    ensures var e := |t.empty|;
            ParseRequestLine(buf) ==
            Ok(|PrintStart(t)|, RequestLine(Span(e, |t.method_|), Span(e + |t.method_| + t.gap1, |t.path|), t.minor))
    ensures At(buf, |t.empty|, t.method_) && At(buf, |t.empty| + |t.method_| + t.gap1, t.path)
  {
    hide At, PrintTarget, ParseTarget, ParseVersion, PrintVersion, NewLine, IsEnd, Spaces, IsToken, IsPath;
    hide ParseRequestLine;
    VersionText(t.minor);
    var v := |PrintTarget(t)|;
    AtSplit(buf, 0, PrintTarget(t), PrintVersion(t.minor) + t.end);
    AtSplit(buf, v, PrintVersion(t.minor), t.end);
    FirstByte(buf, v, PrintVersion(t.minor));
    EndIsNotEmpty(t.end);
    ReadLineEnd(buf, v + 8, t.end);
    ReadTargetOf(buf, t);
    ReadVersion(buf, v, t.minor);
    LocateTarget(buf, t);
    ComposeLine(buf, v, t.minor, v + 8 + |t.end|);
  }

  lemma ComposeLine(buf: seq<byte>, v: nat, minor: nat, next: nat)
    requires ParseTarget(buf).Ok? && ParseTarget(buf).pos == v && ParseVersion(buf, v) == Ok(v + 8, minor)
    requires NewLine(buf, v + 8) == Ok(next, true)
    ensures var target := ParseTarget(buf).val;
            ParseRequestLine(buf) == Ok(next, RequestLine(target.0, target.1, minor))
  {
    hide ParseTarget, ParseVersion, NewLine;
  }

  lemma EndIsNotEmpty(end: seq<byte>)
    requires IsEnd(end)
    ensures |end| > 0
  {
  }

  // ---- Every request line that is parsed is such a line ----

  lemma {:induction false} PathBack(buf: seq<byte>, i: nat)
    requires ScanPath(buf, i).Ok?
    ensures var end := ScanPath(buf, i).pos;
            i <= end < |buf| && buf[end] == SP && forall k :: i <= k < end ==> buf[k] > 32 && buf[k] != DEL
    decreases |buf| - i
  {
    if buf[i] != SP {
      PathBack(buf, i + 1);
    }
  }

  /** The five parts of a target. */
  lemma TargetParts(buf: seq<byte>) returns (e: nat, m: nat, p: nat, q: nat)
    requires ParseTarget(buf).Ok?
    ensures var r := ParseTarget(buf);
            && e < m < p < q < r.pos < |buf| && r.val == (Span(e, m - e), Span(p, q - p))
            && NewLine(buf, 0).Ok? && NewLine(buf, 0).pos == e && (e > 0 ==> NewLine(buf, 0).val)
            && (forall k :: e <= k < m ==> IsTokenChar(buf[k])) && (forall k :: m <= k < p ==> buf[k] == SP)
            && (forall k :: p <= k < q ==> buf[k] > 32 && buf[k] != DEL)
            && (forall k :: q <= k < r.pos ==> buf[k] == SP)
  {
    e := NewLine(buf, 0).pos;
    m := ScanToken(buf, e, SP).pos;
    p := SkipSpaces(buf, m + 1).pos;
    q := ScanPath(buf, p).pos;
    TokenBack(buf, e, SP);
    PathBack(buf, p);
    hide ScanToken, SkipSpaces, ScanPath;
  }

  lemma TargetBack(buf: seq<byte>) returns (t: Start)
    requires ParseTarget(buf).Ok?
    ensures var r := ParseTarget(buf);
            && (t.empty == [] || IsEnd(t.empty)) && IsToken(t.method_) && t.gap1 > 0 && IsPath(t.path) && t.gap2 > 0
            && At(buf, 0, PrintTarget(t)) && |PrintTarget(t)| == r.pos
            && Slice(buf, r.val.0) == t.method_ && Slice(buf, r.val.1) == t.path
  {
    hide ParseTarget, NewLine, IsEnd, IsTokenChar, IsToken, IsPath, At, Spaces, Slice;
    var e, m, p, q := TargetParts(buf);
    var v := ParseTarget(buf).pos;
    EmptyBack(buf, e);
    t := Start(buf[..e], buf[e..m], p - m, buf[p..q], v - q, 0, []);
    PiecesOfTarget(buf, e, m, p, q, v);
    SliceIs(buf, e, m);
    SliceIs(buf, p, q);
  }

  lemma SliceIs(buf: seq<byte>, i: nat, j: nat)
    requires i <= j <= |buf|
    ensures Slice(buf, Span(i, j - i)) == buf[i..j]
  {
  }

  lemma EmptyBack(buf: seq<byte>, e: nat)
    requires NewLine(buf, 0).Ok? && NewLine(buf, 0).pos == e && (e > 0 ==> NewLine(buf, 0).val)
    ensures e <= |buf| && (buf[..e] == [] || IsEnd(buf[..e]))
  {
    hide NewLine, IsEnd;
    if e > 0 {
      EndBack(buf, 0);
      assert buf[..e] == buf[0..e];
    }
  }

  lemma PiecesOfTarget(buf: seq<byte>, e: nat, m: nat, p: nat, q: nat, v: nat)
    requires e < m < p < q < v < |buf|
    requires (forall k :: e <= k < m ==> IsTokenChar(buf[k])) && (forall k :: m <= k < p ==> buf[k] == SP)
    requires (forall k :: p <= k < q ==> buf[k] > 32 && buf[k] != DEL) && (forall k :: q <= k < v ==> buf[k] == SP)
    ensures IsToken(buf[e..m]) && IsPath(buf[p..q])
    ensures var text := buf[..e] + (buf[e..m] + (Spaces(p - m) + (buf[p..q] + Spaces(v - q))));
            At(buf, 0, text) && |text| == v
  {
    hide IsTokenChar;
    assert buf[m..p] == Spaces(p - m) && buf[q..v] == Spaces(v - q);
    assert buf[..e] + (buf[e..m] + (buf[m..p] + (buf[p..q] + buf[q..v]))) == buf[0..v];
  }

  lemma VersionBack(buf: seq<byte>, i: nat)
    requires ParseVersion(buf, i).Ok?
    ensures var r := ParseVersion(buf, i); At(buf, i, PrintVersion(r.val)) && i + |PrintVersion(r.val)| == r.pos
  {
    assert buf[i..i + 8] == buf[i..i + 7] + [buf[i + 7]];
  }

  lemma StartBack(buf: seq<byte>) returns (t: Start)
    requires ParseRequestLine(buf).Ok?
    ensures var r := ParseRequestLine(buf);
            && ValidStart(t) && At(buf, 0, PrintStart(t)) && |PrintStart(t)| == r.pos
            && Slice(buf, r.val.method_) == t.method_ && Slice(buf, r.val.path) == t.path
            && r.val.minorVersion == t.minor
  {
    var target := TargetBack(buf);
    var v := ParseTarget(buf).pos;
    VersionBack(buf, v);
    var version := ParseVersion(buf, v);
    EndBack(buf, version.pos);
    var end := buf[version.pos..NewLine(buf, version.pos).pos];
    t := target.(minor := version.val, end := end);
    hide ParseTarget, ParseVersion, NewLine, At, IsEnd, PrintVersion, IsToken, IsPath, Slice;
    AtJoin(buf, v, PrintVersion(version.val), end);
    AtJoin(buf, 0, PrintTarget(target), PrintVersion(version.val) + end);
  }

  // ---- Heads of requests ----

  datatype RequestHead = RequestHead(start: Start, lines: seq<Line>, end: seq<byte>)

  ghost predicate ValidHead(h: RequestHead) {
    ValidStart(h.start) && ValidLines(h.lines, true) && IsEnd(h.end)
  }

  function PrintHead(h: RequestHead): seq<byte> {
    PrintStart(h.start) + PrintLines(h.lines, h.end)
  }

  /** The parser has found exactly the parts of the head. */
  ghost predicate HasParts(buf: seq<byte>, head: Head<RequestLine>, h: RequestHead) {
    && Slice(buf, head.line.method_) == h.start.method_ && Slice(buf, head.line.path) == h.start.path
    && head.line.minorVersion == h.start.minor && HeadersBytes(buf, head.headers) == LinesBytes(h.lines)
  }

  /** Every head of the grammar, whatever follows it, is parsed to its full length and its parts. */
  lemma HeadIsParsed(h: RequestHead, more: seq<byte>, maxHeaders: nat)
    requires ValidHead(h) && |h.lines| <= maxHeaders
    ensures var r := ParseRequest(PrintHead(h) + more, maxHeaders);
            r.Ok? && r.pos == |PrintHead(h)| && HasParts(PrintHead(h) + more, r.val, h)
  {
    hide At, ParseRequestLine, ParseHeaders, PrintStart, PrintLines, HeadersBytes, LinesBytes, ValidLines, ValidStart;
    hide IsEnd, Slice;
    var buf, start := PrintHead(h) + more, PrintStart(h.start);
    AtStart(PrintHead(h), more);
    AtSplit(buf, 0, start, PrintLines(h.lines, h.end));
    ReadStart(buf, h.start);
    var hs := ReadLines(buf, |start|, h.lines, h.end, [], maxHeaders);
    assert [] + hs == hs;
    SliceAt(buf, |h.start.empty|, h.start.method_);
    SliceAt(buf, |h.start.empty| + |h.start.method_| + h.start.gap1, h.start.path);
  }

  /** Whatever the parser accepts begins with a head of the grammar. */
  lemma ParsedIsHead(buf: seq<byte>, maxHeaders: nat) returns (h: RequestHead)
    requires ParseRequest(buf, maxHeaders).Ok?
    ensures ValidHead(h) && |h.lines| <= maxHeaders && HasParts(buf, ParseRequest(buf, maxHeaders).val, h)
    ensures |PrintHead(h)| == ParseRequest(buf, maxHeaders).pos && PrintHead(h) <= buf
  {
    hide At, ParseRequestLine, ParseHeaders, PrintStart, PrintLines, HeadersBytes, LinesBytes, ValidLines, ValidStart;
    hide IsEnd, Slice;
    var start := StartBack(buf);
    var lines, end, hs := LinesBack(buf, ParseRequestLine(buf).pos, [], maxHeaders);
    assert [] + hs == hs;
    h := RequestHead(start, lines, end);
    AtJoin(buf, 0, PrintStart(start), PrintLines(lines, end));
    AtFront(buf, PrintHead(h));
  }

  lemma AtFront(buf: seq<byte>, text: seq<byte>)
    requires At(buf, 0, text)
    ensures text <= buf
  {
    assert buf[..|text|] == buf[0..|text|];
  }

  /** The buffer begins with a head of the grammar that has at most so many header lines. */
  ghost predicate BeginsWithHead(buf: seq<byte>, maxHeaders: nat) {
    exists h: RequestHead :: ValidHead(h) && |h.lines| <= maxHeaders && PrintHead(h) <= buf
  }

  lemma Rest(text: seq<byte>, buf: seq<byte>)
    requires text <= buf
    ensures buf == text + buf[|text|..]
  {
  }

  /** The parser accepts exactly the buffers that begin with a head of the grammar. */
  lemma AcceptsExactlyHeads(buf: seq<byte>, maxHeaders: nat)
    ensures ParseRequest(buf, maxHeaders).Ok? <==> BeginsWithHead(buf, maxHeaders)
  {
    hide ParseRequest, ValidHead, PrintHead;
    if ParseRequest(buf, maxHeaders).Ok? {
      var h := ParsedIsHead(buf, maxHeaders);
    }
    if BeginsWithHead(buf, maxHeaders) {
      var h :| ValidHead(h) && |h.lines| <= maxHeaders && PrintHead(h) <= buf;
      Rest(PrintHead(h), buf);
      HeadIsParsed(h, buf[|PrintHead(h)|..], maxHeaders);
    }
  }

  // ---- Heads of responses ----

  /** A status line. There may be no reason, and no space before the line end. */
  datatype Status = Status(minor: Digit, gap1: nat, hundreds: Digit, tens: Digit, ones: Digit, gap2: nat,
                           reason: seq<byte>, end: seq<byte>)

  ghost predicate ValidStatus(t: Status) {
    t.gap1 > 0 && IsText(t.reason) && IsEnd(t.end) && (t.reason != [] ==> t.gap2 > 0 && t.reason[0] != SP)
  }

  function PrintCode(t: Status): (s: seq<byte>)
    ensures |s| == 3
  {
    [48 + t.hundreds, 48 + t.tens, 48 + t.ones]
  }

  function PrintStatus(t: Status): seq<byte> {
    PrintVersion(t.minor) + (Spaces(t.gap1) + (PrintCode(t) + (Spaces(t.gap2) + t.reason + t.end)))
  }

  lemma ReadCode(buf: seq<byte>, i: nat, t: Status)
    requires At(buf, i, PrintCode(t)) && i + 4 <= |buf|
    ensures ParseStatus(buf, i) == Ok(i + 3, 100 * t.hundreds + 10 * t.tens + t.ones) && buf[i] != SP
  {
    assert forall k :: i <= k < i + 3 ==> buf[k] == buf[i..i + 3][k - i];
    assert buf[i] == PrintCode(t)[0] && buf[i + 1] == PrintCode(t)[1] && buf[i + 2] == PrintCode(t)[2];
  }

  lemma SpacedText(n: nat, text: seq<byte>)
    requires IsText(text)
    ensures IsText(Spaces(n) + text)
  {
  }

  /** What follows the status code. */
  lemma ReadReasonOf(buf: seq<byte>, i: nat, t: Status)
    requires ValidStatus(t) && At(buf, i, Spaces(t.gap2) + t.reason + t.end)
    ensures GetTokenToEol(buf, i) == Ok(i + t.gap2 + |t.reason| + |t.end|, Span(i, t.gap2 + |t.reason|))
    ensures i < |buf| && (t.gap2 + |t.reason| > 0 ==> buf[i] == SP)
    ensures SkipSpaces(buf, i) == Ok(i + t.gap2, ()) && At(buf, i + t.gap2, t.reason)
  {
    hide At, GetTokenToEol, SkipSpaces, IsEnd, IsText, Spaces, NewLine;
    var text := Spaces(t.gap2) + t.reason;
    SpacedText(t.gap2, t.reason);
    ReadText(buf, i, text, t.end);
    AtSplit(buf, i, text, t.end);
    AtSplit(buf, i, Spaces(t.gap2), t.reason);
    ReadLineEnd(buf, i + |text|, t.end);
    AfterSpaces(buf, i + t.gap2, t);
    if t.gap2 > 0 {
      FirstSpace(buf, i, t.gap2);
    }
    SkipOver(buf, i, t.gap2);
  }

  /** No space follows the spaces before a reason. */
  lemma AfterSpaces(buf: seq<byte>, i: nat, t: Status)
    requires ValidStatus(t) && At(buf, i, t.reason) && At(buf, i + |t.reason|, t.end)
    ensures i < |buf| && buf[i] != SP
  {
    hide At, IsText;
    if t.reason != [] {
      FirstByte(buf, i, t.reason);
    } else {
      FirstByte(buf, i, t.end);
    }
  }

  /** Where the parts of a status line stand. */
  lemma LocateStatus(buf: seq<byte>, t: Status)
    requires At(buf, 0, PrintStatus(t))
    ensures var c := 8 + t.gap1;
            && At(buf, 0, PrintVersion(t.minor)) && At(buf, 8, Spaces(t.gap1)) && At(buf, c, PrintCode(t))
            && At(buf, c + 3, Spaces(t.gap2) + t.reason + t.end)
            && |PrintStatus(t)| == c + 3 + t.gap2 + |t.reason| + |t.end|
  {
    VersionText(t.minor);
    hide At, PrintVersion, Spaces, PrintCode;
    var c := 8 + t.gap1;
    var rest := Spaces(t.gap2) + t.reason + t.end;
    AtSplit(buf, 0, PrintVersion(t.minor), Spaces(t.gap1) + (PrintCode(t) + rest));
    AtSplit(buf, 8, Spaces(t.gap1), PrintCode(t) + rest);
    AtSplit(buf, c, PrintCode(t), rest);
  }

  lemma ComposeStatus(buf: seq<byte>, minor: nat, c: nat, code: nat, len: nat, start: nat, next: nat)
    requires ParseVersion(buf, 0) == Ok(8, minor) && 8 < |buf| && buf[8] == SP
    requires SkipSpaces(buf, 9) == Ok(c, ()) && ParseStatus(buf, c) == Ok(c + 3, code) && c + 3 < |buf|
    requires GetTokenToEol(buf, c + 3) == Ok(next, Span(c + 3, len)) && (len > 0 ==> buf[c + 3] == SP)
    requires SkipSpaces(buf, c + 3) == Ok(start, ()) && start <= c + 3 + len
    ensures ParseStatusLine(buf) == Ok(next, StatusLine(minor, code, Span(start, c + 3 + len - start)))
  {
    hide ParseVersion, SkipSpaces, ParseStatus, GetTokenToEol;
  }

  lemma ReadStatusOf(buf: seq<byte>, t: Status)
    requires ValidStatus(t) && At(buf, 0, PrintStatus(t))
    ensures var start := 8 + t.gap1 + 3 + t.gap2;
            var code := 100 * t.hundreds + 10 * t.tens + t.ones;
            && ParseStatusLine(buf) == Ok(|PrintStatus(t)|, StatusLine(t.minor, code, Span(start, |t.reason|)))
            && At(buf, start, t.reason)
  {
    hide At, PrintStatus, PrintVersion, Spaces, PrintCode, SkipSpaces, ParseVersion, ParseStatus, GetTokenToEol;
    hide ParseStatusLine, IsEnd, IsText;
    var c := 8 + t.gap1;
    LocateStatus(buf, t);
    FirstSpace(buf, 8, t.gap1);
    ReadReasonOf(buf, c + 3, t);
    ReadVersion(buf, 0, t.minor);
    ReadCode(buf, c, t);
    SkipOver(buf, 9, t.gap1 - 1);
    ComposeStatus(buf, t.minor, c, 100 * t.hundreds + 10 * t.tens + t.ones, t.gap2 + |t.reason|, c + 3 + t.gap2,
                  |PrintStatus(t)|);
  }

  lemma {:induction false} SpacesBack(buf: seq<byte>, i: nat)
    requires SkipSpaces(buf, i).Ok?
    ensures var end := SkipSpaces(buf, i).pos;
            i <= end < |buf| && buf[end] != SP && At(buf, i, Spaces(end - i)) && buf[i..end] == Spaces(end - i)
  {
    var end := SkipSpaces(buf, i).pos;
    assert buf[i..end] == Spaces(end - i);
  }

  lemma CodeBack(buf: seq<byte>, i: nat) returns (h: Digit, t: Digit, o: Digit)
    requires ParseStatus(buf, i).Ok?
    ensures ParseStatus(buf, i) == Ok(i + 3, 100 * h + 10 * t + o) && i + 3 < |buf|
    ensures buf[i..i + 3] == [48 + h, 48 + t, 48 + o]
  {
    h, t, o := DigitValue(buf[i]), DigitValue(buf[i + 1]), DigitValue(buf[i + 2]);
  }

  lemma SpaceFirst(buf: seq<byte>, i: nat, end: nat)
    requires i < end <= |buf| && buf[i] == SP && buf[i + 1..end] == Spaces(end - i - 1)
    ensures buf[i..end] == Spaces(end - i)
  {
    assert buf[i..end] == [buf[i]] + buf[i + 1..end];
  }

  /** The reason stands behind spaces; a text without any is refused. */
  lemma ReasonBack(buf: seq<byte>, i: nat, stop: nat) returns (r: nat)
    requires ScanEol(buf, i).Ok? && ScanEol(buf, i).val == stop && (stop > i ==> i < |buf| && buf[i] == SP)
    requires forall k :: i <= k < stop ==> !IsControl(buf[k])
    requires i <= stop < |buf| && IsControl(buf[stop]) && SkipSpaces(buf, i).Ok?
    ensures r == SkipSpaces(buf, i).pos && i <= r <= stop && buf[i..r] == Spaces(r - i)
    ensures IsText(buf[i..stop]) && (r < stop ==> r > i && buf[r] != SP)
  {
    SpacesBack(buf, i);
    r := SkipSpaces(buf, i).pos;
  }

  /** The positions of the parts of a status line. */
  lemma StatusParts(buf: seq<byte>) returns (c: nat, r: nat, stop: nat)
    requires ParseStatusLine(buf).Ok?
    ensures ParseVersion(buf, 0).Ok? && 8 < c && c + 3 <= r <= stop < ParseStatusLine(buf).pos <= |buf|
    ensures ParseStatus(buf, c).Ok? && buf[8..c] == Spaces(c - 8) && buf[c + 3..r] == Spaces(r - c - 3)
    ensures NewLine(buf, stop) == Ok(ParseStatusLine(buf).pos, true) && IsText(buf[c + 3..stop])
    ensures r < stop ==> r > c + 3 && buf[r] != SP
    ensures ParseStatusLine(buf).val ==
            StatusLine(ParseVersion(buf, 0).val, ParseStatus(buf, c).val, Span(r, stop - r))
  {
    hide SkipSpaces, ParseVersion, ParseStatus, ScanEol, NewLine, Spaces;
    SpacesBack(buf, 9);
    c := SkipSpaces(buf, 9).pos;
    SpaceFirst(buf, 8, c);
    EolBack(buf, c + 3);
    stop := ScanEol(buf, c + 3).val;
    r := ReasonBack(buf, c + 3, stop);
  }

  lemma StatusBack(buf: seq<byte>) returns (t: Status)
    requires ParseStatusLine(buf).Ok?
    ensures var r := ParseStatusLine(buf);
            && ValidStatus(t) && At(buf, 0, PrintStatus(t)) && |PrintStatus(t)| == r.pos
            && r.val.minorVersion == t.minor && r.val.status == 100 * t.hundreds + 10 * t.tens + t.ones
            && Slice(buf, r.val.msg) == t.reason
  {
    hide ParseStatusLine, ParseVersion, ParseStatus, NewLine;
    var c, r, stop := StatusParts(buf);
    var h, tens, ones := CodeBack(buf, c);
    VersionBack(buf, 0);
    EndBack(buf, stop);
    var next := ParseStatusLine(buf).pos;
    var version := ParseVersion(buf, 0).val;
    t := Status(version, c - 8, h, tens, ones, r - c - 3, buf[r..stop], buf[stop..next]);
    VersionText(version);
    hide PrintVersion, Spaces, IsEnd, At, PrintStatus, IsText;
    PiecesOfStatus(buf, c, r, stop, next, t);
  }

  lemma Join(buf: seq<byte>, i: nat, j: nat, k: nat)
    requires i <= j <= k <= |buf|
    ensures buf[i..j] + buf[j..k] == buf[i..k] && |buf[i..k]| == k - i
  {
  }

  lemma PiecesOfStatus(buf: seq<byte>, c: nat, r: nat, stop: nat, next: nat, t: Status)
    requires 8 < c && c + 3 <= r <= stop < next <= |buf|
    requires At(buf, 0, PrintVersion(t.minor)) && |PrintVersion(t.minor)| == 8
    requires buf[8..c] == Spaces(t.gap1) && buf[c..c + 3] == PrintCode(t) && buf[c + 3..r] == Spaces(t.gap2)
    requires buf[r..stop] == t.reason && buf[stop..next] == t.end && IsText(buf[c + 3..stop])
    ensures At(buf, 0, PrintStatus(t)) && |PrintStatus(t)| == next && IsText(t.reason)
  {
    hide PrintVersion, Spaces, PrintCode;
    Join(buf, c + 3, r, stop);
    Join(buf, c + 3, stop, next);
    Join(buf, c, c + 3, next);
    Join(buf, 8, c, next);
    Join(buf, 0, 8, next);
    assert forall k :: 0 <= k < |t.reason| ==> t.reason[k] == buf[c + 3..stop][r - c - 3 + k];
  }

  datatype ResponseHead = ResponseHead(status: Status, lines: seq<Line>, end: seq<byte>)

  ghost predicate ValidResponse(h: ResponseHead) {
    ValidStatus(h.status) && ValidLines(h.lines, true) && IsEnd(h.end)
  }

  function PrintResponseHead(h: ResponseHead): seq<byte> {
    PrintStatus(h.status) + PrintLines(h.lines, h.end)
  }

  ghost predicate HasResponseParts(buf: seq<byte>, head: Head<StatusLine>, h: ResponseHead) {
    && head.line.minorVersion == h.status.minor
    && head.line.status == 100 * h.status.hundreds + 10 * h.status.tens + h.status.ones
    && Slice(buf, head.line.msg) == h.status.reason && HeadersBytes(buf, head.headers) == LinesBytes(h.lines)
  }

  lemma ResponseIsParsed(h: ResponseHead, more: seq<byte>, maxHeaders: nat)
    requires ValidResponse(h) && |h.lines| <= maxHeaders
    ensures var r := ParseResponse(PrintResponseHead(h) + more, maxHeaders);
            && r.Ok? && r.pos == |PrintResponseHead(h)|
            && HasResponseParts(PrintResponseHead(h) + more, r.val, h)
  {
    hide At, ParseStatusLine, ParseHeaders, PrintStatus, PrintLines, HeadersBytes, LinesBytes, ValidLines, ValidStatus;
    hide IsEnd, Slice;
    var buf, status := PrintResponseHead(h) + more, PrintStatus(h.status);
    AtStart(PrintResponseHead(h), more);
    AtSplit(buf, 0, status, PrintLines(h.lines, h.end));
    ReadStatusOf(buf, h.status);
    var hs := ReadLines(buf, |status|, h.lines, h.end, [], maxHeaders);
    assert [] + hs == hs;
    SliceAt(buf, 8 + h.status.gap1 + 3 + h.status.gap2, h.status.reason);
  }

  lemma ParsedIsResponse(buf: seq<byte>, maxHeaders: nat) returns (h: ResponseHead)
    requires ParseResponse(buf, maxHeaders).Ok?
    ensures ValidResponse(h) && |h.lines| <= maxHeaders && HasResponseParts(buf, ParseResponse(buf, maxHeaders).val, h)
    ensures |PrintResponseHead(h)| == ParseResponse(buf, maxHeaders).pos && PrintResponseHead(h) <= buf
  {
    hide At, ParseStatusLine, ParseHeaders, PrintStatus, PrintLines, HeadersBytes, LinesBytes, ValidLines, ValidStatus;
    hide IsEnd, Slice;
    var status := StatusBack(buf);
    var lines, end, hs := LinesBack(buf, ParseStatusLine(buf).pos, [], maxHeaders);
    assert [] + hs == hs;
    h := ResponseHead(status, lines, end);
    AtJoin(buf, 0, PrintStatus(status), PrintLines(lines, end));
    AtFront(buf, PrintResponseHead(h));
  }

  ghost predicate BeginsWithResponse(buf: seq<byte>, maxHeaders: nat) {
    exists h: ResponseHead :: ValidResponse(h) && |h.lines| <= maxHeaders && PrintResponseHead(h) <= buf
  }

  /** The response parser accepts exactly the buffers that begin with a response head of the grammar. */
  lemma AcceptsExactlyResponses(buf: seq<byte>, maxHeaders: nat)
    ensures ParseResponse(buf, maxHeaders).Ok? <==> BeginsWithResponse(buf, maxHeaders)
  {
    hide ParseResponse, ValidResponse, PrintResponseHead;
    if ParseResponse(buf, maxHeaders).Ok? {
      var h := ParsedIsResponse(buf, maxHeaders);
    }
    if BeginsWithResponse(buf, maxHeaders) {
      var h :| ValidResponse(h) && |h.lines| <= maxHeaders && PrintResponseHead(h) <= buf;
      Rest(PrintResponseHead(h), buf);
      ResponseIsParsed(h, buf[|PrintResponseHead(h)|..], maxHeaders);
    }
  }
}
