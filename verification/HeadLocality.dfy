/** A success depends on nothing behind the bytes it consumed. */
module HeadLocality {
  import opened Bytes
  import opened HeadSpec
  import HeadFinality

  /** A success on `long` that leaves at least `margin` bytes of `buf` unread is a success on `buf` alone. */
  ghost predicate Local<T(!new)>(buf: seq<byte>, short: Parse<T>, long: Parse<T>, margin: nat) {
    long.Ok? && long.pos + margin <= |buf| ==> short == long
  }

  lemma NewLineLocal(buf: seq<byte>, more: seq<byte>, i: nat)
    ensures i < |buf| ==> Local(buf, NewLine(buf, i), NewLine(buf + more, i), 0)
  {
  }

  lemma {:induction false} TokenLocal(buf: seq<byte>, more: seq<byte>, i: nat, delim: byte)
    ensures Local(buf, ScanToken(buf, i, delim), ScanToken(buf + more, i, delim), 1)
    ensures Local(buf, ParseToken(buf, i, delim), ParseToken(buf + more, i, delim), 1)
    decreases |buf| - i
  {
    if i < |buf| && buf[i] != delim && IsTokenChar(buf[i]) {
      TokenLocal(buf, more, i + 1, delim);
    }
  }

  lemma {:induction false} PathLocal(buf: seq<byte>, more: seq<byte>, i: nat)
    ensures Local(buf, ScanPath(buf, i), ScanPath(buf + more, i), 1)
    decreases |buf| - i
  {
    if i < |buf| && buf[i] > 32 {
      PathLocal(buf, more, i + 1);
    }
  }

  lemma {:induction false} SpacesLocal(buf: seq<byte>, more: seq<byte>, i: nat)
    ensures Local(buf, SkipSpaces(buf, i), SkipSpaces(buf + more, i), 1)
    decreases |buf| - i
  {
    if i < |buf| {
      SpacesLocal(buf, more, i + 1);
    }
  }

  lemma {:induction false} BlanksLocal(buf: seq<byte>, more: seq<byte>, i: nat)
    ensures Local(buf, SkipBlanks(buf, i), SkipBlanks(buf + more, i), 1)
    decreases |buf| - i
  {
    if i < |buf| {
      BlanksLocal(buf, more, i + 1);
    }
  }

  lemma {:induction false} EolLocal(buf: seq<byte>, more: seq<byte>, i: nat)
    ensures Local(buf, ScanEol(buf, i), ScanEol(buf + more, i), 0)
    ensures Local(buf, GetTokenToEol(buf, i), GetTokenToEol(buf + more, i), 0)
    decreases |buf| - i
  {
    NewLineLocal(buf, more, i);
    if i < |buf| && !IsControl(buf[i]) {
      EolLocal(buf, more, i + 1);
    }
  }

  lemma NameLocal(buf: seq<byte>, more: seq<byte>, i: nat, first: bool)
    requires i < |buf|
    ensures Local(buf, ParseName(buf, i, first), ParseName(buf + more, i, first), 1)
  {
    hide ParseToken, SkipBlanks;
    TokenLocal(buf, more, i, COLON);
    var token := ParseToken(buf + more, i, COLON);
    if token.Ok? {
      BlanksLocal(buf, more, token.pos + 1);
    }
  }

  lemma HeaderLocal(buf: seq<byte>, more: seq<byte>, i: nat, first: bool)
    requires i < |buf|
    ensures Local(buf, ParseHeader(buf, i, first), ParseHeader(buf + more, i, first), 0)
  {
    hide ParseName, GetTokenToEol, TrimEnd;
    NameLocal(buf, more, i, first);
    var name := ParseName(buf + more, i, first);
    if name.Ok? {
      EolLocal(buf, more, name.pos);
      var text := GetTokenToEol(buf + more, name.pos);
      if text.Ok? && text.pos <= |buf| {
        HeadFinality.TrimSame(buf, more, name.pos, name.pos + text.val.len);
      }
    }
  }

  lemma {:induction false} HeadersLocal(buf: seq<byte>, more: seq<byte>, i: nat, parsed: seq<Header>, maxHeaders: nat)
    ensures Local(buf, ParseHeaders(buf, i, parsed, maxHeaders), ParseHeaders(buf + more, i, parsed, maxHeaders), 0)
    decreases |buf| - i
  {
    hide NewLine, ParseHeader;
    var all := buf + more;
    NewLineLocal(buf, more, i);
    if i < |buf| && NewLine(all, i).Ok? && !NewLine(all, i).val {
      HeaderLocal(buf, more, i, |parsed| == 0);
      var h := ParseHeader(all, i, |parsed| == 0);
      if h.Ok? && h.pos <= |buf| {
        HeadersLocal(buf, more, h.pos, parsed + [h.val], maxHeaders);
      }
    }
  }

  lemma VersionLocal(buf: seq<byte>, more: seq<byte>, i: nat)
    ensures Local(buf, ParseVersion(buf, i), ParseVersion(buf + more, i), 1)
  {
    if |buf| >= i + 9 {
      assert (buf + more)[i..i + 7] == buf[i..i + 7];
    }
  }

  lemma TargetLocal(buf: seq<byte>, more: seq<byte>)
    ensures Local(buf, ParseTarget(buf), ParseTarget(buf + more), 1)
  {
    var all := buf + more;
    hide NewLine, ParseToken, SkipSpaces, ScanPath;
    if |buf| == 0 { return; }
    NewLineLocal(buf, more, 0);
    var blank := NewLine(all, 0);
    if !blank.Ok? { return; }
    TokenLocal(buf, more, blank.pos, SP);
    var m := ParseToken(all, blank.pos, SP);
    if !m.Ok? { return; }
    SpacesLocal(buf, more, m.pos + 1);
    var p := SkipSpaces(all, m.pos + 1);
    if !p.Ok? { return; }
    PathLocal(buf, more, p.pos);
    var e := ScanPath(all, p.pos);
    if !e.Ok? { return; }
    SpacesLocal(buf, more, e.pos + 1);
  }

  lemma RequestLineLocal(buf: seq<byte>, more: seq<byte>)
    ensures Local(buf, ParseRequestLine(buf), ParseRequestLine(buf + more), 0)
  {
    hide ParseTarget, ParseVersion, NewLine;
    TargetLocal(buf, more);
    var target := ParseTarget(buf + more);
    if !target.Ok? { return; }
    VersionLocal(buf, more, target.pos);
    var minor := ParseVersion(buf + more, target.pos);
    if !minor.Ok? || minor.pos >= |buf| { return; }
    NewLineLocal(buf, more, minor.pos);
  }

  /** A head is recognised as soon as its last byte has arrived, and with the same fields. */
  lemma RequestLocal(buf: seq<byte>, more: seq<byte>, maxHeaders: nat)
    ensures Local(buf, ParseRequest(buf, maxHeaders), ParseRequest(buf + more, maxHeaders), 0)
  {
    var all := buf + more;
    hide ParseRequestLine, ParseHeaders;
    RequestLineLocal(buf, more);
    var line := ParseRequestLine(all);
    if line.Ok? {
      HeadersLocal(buf, more, line.pos, [], maxHeaders);
    }
  }
}
