/** Only "needs more bytes" can change as bytes arrive, and a success depends on nothing after what it consumed. */
module HeadFinality {
  import opened Bytes
  import opened HeadSpec

  /** `long` continues `short`, and a verdict on `short` stands for `long`. */
  ghost predicate Stands<T(!new)>(short: Parse<T>, long: Parse<T>) {
    !short.Partial? ==> long == short
  }

  lemma NewLineFinal(buf: seq<byte>, more: seq<byte>, i: nat)
    ensures Stands(NewLine(buf, i), NewLine(buf + more, i))
  {
  }

  lemma {:induction false} TokenFinal(buf: seq<byte>, more: seq<byte>, i: nat, delim: byte)
    ensures Stands(ScanToken(buf, i, delim), ScanToken(buf + more, i, delim))
    ensures Stands(ParseToken(buf, i, delim), ParseToken(buf + more, i, delim))
    decreases |buf| - i
  {
    if i < |buf| && buf[i] != delim && IsTokenChar(buf[i]) {
      TokenFinal(buf, more, i + 1, delim);
    }
  }

  lemma {:induction false} PathFinal(buf: seq<byte>, more: seq<byte>, i: nat)
    ensures Stands(ScanPath(buf, i), ScanPath(buf + more, i))
    decreases |buf| - i
  {
    if i < |buf| && buf[i] > 32 {
      PathFinal(buf, more, i + 1);
    }
  }

  lemma {:induction false} SpacesFinal(buf: seq<byte>, more: seq<byte>, i: nat)
    ensures Stands(SkipSpaces(buf, i), SkipSpaces(buf + more, i))
    decreases |buf| - i
  {
    if i < |buf| {
      SpacesFinal(buf, more, i + 1);
    }
  }

  lemma {:induction false} BlanksFinal(buf: seq<byte>, more: seq<byte>, i: nat)
    ensures Stands(SkipBlanks(buf, i), SkipBlanks(buf + more, i))
    decreases |buf| - i
  {
    if i < |buf| {
      BlanksFinal(buf, more, i + 1);
    }
  }

  lemma {:induction false} EolFinal(buf: seq<byte>, more: seq<byte>, i: nat)
    ensures Stands(ScanEol(buf, i), ScanEol(buf + more, i))
    ensures Stands(GetTokenToEol(buf, i), GetTokenToEol(buf + more, i))
    decreases |buf| - i
  {
    NewLineFinal(buf, more, i);
    if i < |buf| && !IsControl(buf[i]) {
      EolFinal(buf, more, i + 1);
    }
  }

  lemma {:induction false} TrimSame(buf: seq<byte>, more: seq<byte>, start: nat, end: nat)
    requires start <= end <= |buf|
    ensures TrimEnd(buf + more, start, end) == TrimEnd(buf, start, end)
    decreases end
  {
    if end > start && IsBlank(buf[end - 1]) {
      TrimSame(buf, more, start, end - 1);
    }
  }

  lemma NameFinal(buf: seq<byte>, more: seq<byte>, i: nat, first: bool)
    requires i < |buf|
    ensures Stands(ParseName(buf, i, first), ParseName(buf + more, i, first))
  {
    hide ParseToken, SkipBlanks;
    TokenFinal(buf, more, i, COLON);
    var token := ParseToken(buf, i, COLON);
    if token.Ok? {
      BlanksFinal(buf, more, token.pos + 1);
    }
  }

  lemma HeaderFinal(buf: seq<byte>, more: seq<byte>, i: nat, first: bool)
    requires i < |buf|
    ensures Stands(ParseHeader(buf, i, first), ParseHeader(buf + more, i, first))
  {
    hide ParseName, GetTokenToEol, TrimEnd;
    NameFinal(buf, more, i, first);
    var name := ParseName(buf, i, first);
    if name.Ok? {
      EolFinal(buf, more, name.pos);
      var text := GetTokenToEol(buf, name.pos);
      if text.Ok? {
        TrimSame(buf, more, name.pos, name.pos + text.val.len);
      }
    }
  }

  lemma {:induction false} HeadersFinal(buf: seq<byte>, more: seq<byte>, i: nat, parsed: seq<Header>, maxHeaders: nat)
    ensures Stands(ParseHeaders(buf, i, parsed, maxHeaders), ParseHeaders(buf + more, i, parsed, maxHeaders))
    decreases |buf| - i
  {
    hide NewLine, ParseHeader;
    NewLineFinal(buf, more, i);
    if NewLine(buf, i).Ok? && !NewLine(buf, i).val {
      HeaderFinal(buf, more, i, |parsed| == 0);
      var h := ParseHeader(buf, i, |parsed| == 0);
      if h.Ok? {
        HeadersFinal(buf, more, h.pos, parsed + [h.val], maxHeaders);
      }
    }
  }

  lemma VersionFinal(buf: seq<byte>, more: seq<byte>, i: nat)
    ensures Stands(ParseVersion(buf, i), ParseVersion(buf + more, i))
  {
    if |buf| >= i + 9 {
      assert (buf + more)[i..i + 7] == buf[i..i + 7];
    }
  }

  lemma TargetFinal(buf: seq<byte>, more: seq<byte>)
    ensures Stands(ParseTarget(buf), ParseTarget(buf + more))
  {
    hide NewLine, ParseToken, SkipSpaces, ScanPath;
    NewLineFinal(buf, more, 0);
    var blank := NewLine(buf, 0);
    if !blank.Ok? { return; }
    TokenFinal(buf, more, blank.pos, SP);
    var m := ParseToken(buf, blank.pos, SP);
    if !m.Ok? { return; }
    SpacesFinal(buf, more, m.pos + 1);
    var p := SkipSpaces(buf, m.pos + 1);
    if !p.Ok? { return; }
    PathFinal(buf, more, p.pos);
    var e := ScanPath(buf, p.pos);
    if !e.Ok? { return; }
    SpacesFinal(buf, more, e.pos + 1);
  }

  lemma RequestLineFinal(buf: seq<byte>, more: seq<byte>)
    ensures Stands(ParseRequestLine(buf), ParseRequestLine(buf + more))
  {
    hide ParseTarget, ParseVersion, NewLine;
    TargetFinal(buf, more);
    var target := ParseTarget(buf);
    if !target.Ok? { return; }
    VersionFinal(buf, more, target.pos);
    var minor := ParseVersion(buf, target.pos);
    if !minor.Ok? { return; }
    NewLineFinal(buf, more, minor.pos);
  }

  /** A verdict on a buffer, success or error, is the verdict on every extension of it, with the same spans,
      version and headers: only -2 can change as bytes arrive. */
  lemma RequestFinal(buf: seq<byte>, more: seq<byte>, maxHeaders: nat)
    ensures Stands(ParseRequest(buf, maxHeaders), ParseRequest(buf + more, maxHeaders))
  {
    hide ParseRequestLine, ParseHeaders;
    RequestLineFinal(buf, more);
    var line := ParseRequestLine(buf);
    if line.Ok? {
      HeadersFinal(buf, more, line.pos, [], maxHeaders);
    }
  }

  /** The scan for the blank line is final too. */
  lemma {:induction false} ScanFinal(buf: seq<byte>, more: seq<byte>, i: nat, lineEnds: nat)
    ensures Stands(ScanComplete(buf, i, lineEnds), ScanComplete(buf + more, i, lineEnds))
    decreases |buf| - i
  {
    hide NewLine;
    NewLineFinal(buf, more, i);
    var line := NewLine(buf, i);
    if line.Ok? {
      if !line.val {
        ScanFinal(buf, more, i + 1, 0);
      } else {
        ScanFinal(buf, more, line.pos, lineEnds + 1);
      }
    }
  }
}
