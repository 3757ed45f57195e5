/** The "already scanned" shortcut: restarting the scan for the blank line three bytes back, and what that means
    for a head that arrives piece by piece. */
module HeadWindow {
  import opened Bytes
  import opened HeadSpec

  // ---- A parsed head ends at the first two line ends in a row ----

  lemma {:induction false} ScanAcrossText(buf: seq<byte>, i: nat, j: nat, lineEnds: nat)
    requires i < j <= |buf|
    requires forall k :: i <= k < j ==> buf[k] != CR && buf[k] != LF
    ensures ScanComplete(buf, i, lineEnds) == ScanComplete(buf, j, 0)
    decreases j - i
  {
    if i + 1 < j {
      ScanAcrossText(buf, i + 1, j, 0);
    }
  }

  lemma {:induction false} TextOfLine(buf: seq<byte>, i: nat)
    requires ScanEol(buf, i).Ok?
    ensures forall k :: i <= k < ScanEol(buf, i).val ==> buf[k] != CR && buf[k] != LF
    ensures NewLine(buf, ScanEol(buf, i).val) == Ok(ScanEol(buf, i).pos, true)
    decreases |buf| - i
  {
    if !IsControl(buf[i]) {
      TextOfLine(buf, i + 1);
    }
  }

  lemma {:induction false} TokenText(buf: seq<byte>, i: nat, delim: byte)
    requires ScanToken(buf, i, delim).Ok?
    ensures forall k :: i <= k < ScanToken(buf, i, delim).pos ==> IsTokenChar(buf[k]) && buf[k] != delim
    decreases |buf| - i
  {
    if buf[i] != delim {
      TokenText(buf, i + 1, delim);
    }
  }

  lemma {:induction false} PathText(buf: seq<byte>, i: nat)
    requires ScanPath(buf, i).Ok?
    ensures forall k :: i <= k < ScanPath(buf, i).pos ==> buf[k] > 32 && buf[k] != DEL
    decreases |buf| - i
  {
    if buf[i] != SP {
      PathText(buf, i + 1);
    }
  }

  lemma {:induction false} BlankText(buf: seq<byte>, i: nat)
    requires SkipBlanks(buf, i).Ok?
    ensures forall k :: i <= k < SkipBlanks(buf, i).pos ==> IsBlank(buf[k])
    decreases |buf| - i
  {
    if IsBlank(buf[i]) {
      BlankText(buf, i + 1);
    }
  }

  /** Scanning across a non-empty line leaves one line end counted. */
  lemma ScanAcrossLine(buf: seq<byte>, i: nat, start: nat, lineEnds: nat)
    requires i <= start && ScanEol(buf, start).Ok? && i < ScanEol(buf, start).val
    requires forall k :: i <= k < start ==> buf[k] != CR && buf[k] != LF
    ensures ScanComplete(buf, i, lineEnds) == ScanComplete(buf, ScanEol(buf, start).pos, 1)
  {
    hide ScanEol;
    var end := ScanEol(buf, start).val;
    TextOfLine(buf, start);
    ScanAcrossText(buf, i, end, lineEnds);
  }

  /** A header's name is a token; no line end comes before its value. */
  lemma NameText(buf: seq<byte>, i: nat, first: bool)
    requires i < |buf| && ParseName(buf, i, first).Ok?
    ensures var r := ParseName(buf, i, first);
            && (forall k :: i <= k < r.pos ==> buf[k] != CR && buf[k] != LF)
            && (first ==> r.val.Some?)
            && match r.val
               case Some(n) =>
                 && n.start == i && n.len > 0 && i + n.len < r.pos
                 && forall k :: i <= k < i + n.len ==> IsTokenChar(buf[k])
               case None => r.pos == i && IsBlank(buf[i])
  {
    if first || !IsBlank(buf[i]) {
      var token := ParseToken(buf, i, COLON);
      TokenText(buf, i, COLON);
      BlankText(buf, token.pos + 1);
      hide ScanToken, SkipBlanks;
    }
  }

  lemma ScanAcrossHeader(buf: seq<byte>, i: nat, first: bool, lineEnds: nat)
    requires i < |buf| && ParseHeader(buf, i, first).Ok? && NewLine(buf, i) == Ok(i, false)
    ensures ScanComplete(buf, i, lineEnds) == ScanComplete(buf, ParseHeader(buf, i, first).pos, 1)
  {
    var start := ParseName(buf, i, first).pos;
    NameText(buf, i, first);
    hide ScanComplete, ParseName;
    assert ScanEol(buf, start).Ok? && (start == i ==> !IsControl(buf[i]));
    hide NewLine;
    ScanAcrossLine(buf, i, start, lineEnds);
  }

  lemma {:induction false} ScanAcrossHeaders(buf: seq<byte>, i: nat, parsed: seq<Header>, maxHeaders: nat)
    requires ParseHeaders(buf, i, parsed, maxHeaders).Ok?
    ensures ScanComplete(buf, i, 1) == Ok(ParseHeaders(buf, i, parsed, maxHeaders).pos, ())
    decreases |buf| - i
  {
    hide ParseHeader;
    if !NewLine(buf, i).val {
      var h := ParseHeader(buf, i, |parsed| == 0);
      ScanAcrossHeader(buf, i, |parsed| == 0, 1);
      ScanAcrossHeaders(buf, h.pos, parsed + [h.val], maxHeaders);
    }
  }

  /** Method and path hold no line end; an empty line may come before them. */
  lemma TargetText(buf: seq<byte>)
    requires ParseTarget(buf).Ok?
    ensures var r := ParseTarget(buf);
            var start, m, p := NewLine(buf, 0).pos, r.val.0, r.val.1;
            && NewLine(buf, 0).Ok? && m.start == start && m.len > 0 && p.len > 0
            && start + m.len < p.start && p.start + p.len < r.pos
            && (forall k :: start <= k < start + m.len ==> IsTokenChar(buf[k]))
            && (forall k :: p.start <= k < p.start + p.len ==> buf[k] > 32 && buf[k] != DEL)
            && (forall k :: start + m.len <= k < p.start || p.start + p.len <= k < r.pos ==> buf[k] == SP)
  {
    var start := NewLine(buf, 0).pos;
    var m := ParseToken(buf, start, SP);
    var p := SkipSpaces(buf, m.pos + 1).pos;
    TokenText(buf, start, SP);
    PathText(buf, p);
    hide ScanToken, ScanPath, SkipSpaces;
  }

  /** The request line holds no line end but its own. */
  lemma RequestLineText(buf: seq<byte>)
    requires ParseRequestLine(buf).Ok?
    ensures var start, end := NewLine(buf, 0).pos, ParseTarget(buf).pos + 8;
            && NewLine(buf, 0).Ok? && ParseTarget(buf).Ok? && start < end < |buf|
            && (forall k :: start <= k < end ==> buf[k] != CR && buf[k] != LF)
            && NewLine(buf, end) == Ok(ParseRequestLine(buf).pos, true)
  {
    TargetText(buf);
    VersionText(buf, ParseTarget(buf).pos);
    hide ParseTarget, ParseVersion, NewLine;
  }

  /** An empty line before the request line does not confuse the scan. */
  lemma ScanAcrossRequestLine(buf: seq<byte>)
    requires ParseRequestLine(buf).Ok?
    ensures ScanComplete(buf, 0, 0) == ScanComplete(buf, ParseRequestLine(buf).pos, 1)
  {
    RequestLineText(buf);
    var start, end := NewLine(buf, 0).pos, ParseTarget(buf).pos + 8;
    hide ParseTarget, ParseRequestLine, NewLine;
    ScanAcrossText(buf, start, end, 0);
    ScanAcrossText(buf, start, end, 1);
    assert start == 0 || ScanComplete(buf, 0, 0) == ScanComplete(buf, start, 1);
  }

  lemma VersionText(buf: seq<byte>, i: nat)
    requires ParseVersion(buf, i).Ok?
    ensures forall k :: i <= k < i + 8 ==> buf[k] != CR && buf[k] != LF
  {
    forall k | i <= k < i + 7 ensures buf[k] != CR && buf[k] != LF {
      assert buf[k] == buf[i..i + 7][k - i] == HTTP_1[k - i];
    }
  }

  /** The length of a successfully parsed head is exactly the end of the first double line end in the buffer. */
  lemma ParsedHeadEndsAtBlankLine(buf: seq<byte>, maxHeaders: nat)
    requires ParseRequest(buf, maxHeaders).Ok?
    ensures ScanComplete(buf, 0, 0) == Ok(ParseRequest(buf, maxHeaders).pos, ())
  {
    hide ParseRequestLine, ParseHeaders, ScanComplete;
    var line := ParseRequestLine(buf);
    ScanAcrossRequestLine(buf);
    ScanAcrossHeaders(buf, line.pos, [], maxHeaders);
  }

  // ---- The window ----

  /** A full scan that has reached `i` agrees with one that starts afresh three bytes before `seen`. */
  lemma {:induction false} WindowFrom(buf: seq<byte>, seen: nat, i: nat, lineEnds: nat)
    requires 3 <= seen <= |buf| && i <= seen - 3 && lineEnds < 2
    requires ScanComplete(buf[..seen], i, lineEnds).Partial?
    ensures ScanComplete(buf, seen - 3, 0) == ScanComplete(buf, i, lineEnds)
    decreases seen - i
  {
    var w := seen - 3;
    var line := NewLine(buf, i);
    assert line == NewLine(buf[..seen], i);
    if i == w {
      // a counted line end right before the window would have been completed by a second one inside it
    } else if !line.val {
      WindowFrom(buf, seen, i + 1, 0);
    } else if line.pos <= w {
      WindowFrom(buf, seen, line.pos, lineEnds + 1);
    } else {
      assert buf[w] == LF && line.pos == w + 1;
    }
  }

  /** What follows a place where nothing has been found holds nothing either. */
  lemma {:induction false} ScanOfRest(buf: seq<byte>, i: nat, w: nat, lineEnds: nat)
    requires i <= w <= |buf| && lineEnds < 2 && ScanComplete(buf, i, lineEnds).Partial?
    ensures ScanComplete(buf, w, 0).Partial?
    decreases w - i
  {
    var line := NewLine(buf, i);
    if i < w && line.Ok? {
      if !line.val {
        ScanOfRest(buf, i + 1, w, 0);
      } else if line.pos <= w {
        ScanOfRest(buf, line.pos, w, lineEnds + 1);
      } else {
        assert buf[w] == LF && line.pos == w + 1;
      }
    }
  }

  /** Three bytes before its end a blank line is still found. */
  lemma {:induction false} BlankLineFrom(buf: seq<byte>, i: nat, lineEnds: nat, end: nat)
    requires ScanComplete(buf, i, lineEnds) == Ok(end, ()) && i + 3 <= end && lineEnds < 2
    ensures ScanComplete(buf, end - 3, 0) == Ok(end, ())
    decreases end - i
  {
    var w := end - 3;
    var line := NewLine(buf, i);
    if i < w {
      if !line.val {
        BlankLineFrom(buf, i + 1, 0, end);
      } else if line.pos <= w {
        BlankLineFrom(buf, line.pos, lineEnds + 1, end);
      } else {
        assert buf[w] == LF && line.pos == w + 1;
      }
    }
  }

  /** If the first `seen` bytes hold no double line end and no stray CR, the windowed scan finds the same end as
      the full scan, or none, even when the window starts inside a CRLF. */
  lemma WindowIsSound(buf: seq<byte>, seen: nat)
    requires seen <= |buf| && ScanComplete(buf[..seen], 0, 0).Partial?
    ensures IsComplete(buf, seen) == ScanComplete(buf, 0, 0)
  {
    if seen >= 3 {
      WindowFrom(buf, seen, 0, 0);
    }
  }
}
