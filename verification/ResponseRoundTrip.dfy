/** Printing a response head and parsing it back. */
module ResponseRoundTrip {
  import opened Bytes
  import opened Numbers
  import opened HeadSpec
  import opened HeadRoundTrip

  function PrintStatusLine(minor: nat, status: nat, reason: seq<byte>): seq<byte>
    requires minor <= 9 && 100 <= status <= 999
  {
    PrintVersion(minor) + ([SP] + (Decimal(status) + ([SP] + (reason + CRLF))))
  }

  function PrintResponse(minor: nat, status: nat, reason: seq<byte>, fields: seq<Field>): seq<byte>
    requires minor <= 9 && 100 <= status <= 999
  {
    PrintStatusLine(minor, status, reason) + PrintFields(fields)
  }

  /** A reason phrase: text that does not start with a space. */
  ghost predicate IsReason(s: seq<byte>) {
    s != [] && IsText(s) && s[0] != SP
  }

  lemma ThreeDigits(status: nat)
    requires 100 <= status <= 999
    ensures var s := Decimal(status);
            && |s| == 3 && AllDigits(s)
            && 100 * DigitValue(s[0]) + 10 * DigitValue(s[1]) + DigitValue(s[2]) == status
            && s[0] != SP
  {
    assert Decimal(status) == Decimal(status / 10) + [DecimalDigit(status % 10)];
    assert Decimal(status / 10) == Decimal(status / 10 / 10) + [DecimalDigit(status / 10 % 10)];
  }

  lemma ReadStatus(buf: seq<byte>, i: nat, status: nat)
    requires 100 <= status <= 999 && At(buf, i, Decimal(status)) && i + 4 <= |buf|
    ensures ParseStatus(buf, i) == Ok(i + 3, status) && SkipSpaces(buf, i) == Ok(i, ())
  {
    ThreeDigits(status);
    var s := Decimal(status);
    assert forall k :: i <= k < i + 3 ==> buf[k] == buf[i..i + 3][k - i];
    assert buf[i] == s[0] && buf[i + 1] == s[1] && buf[i + 2] == s[2];
  }

  lemma ReadReason(buf: seq<byte>, i: nat, reason: seq<byte>)
    requires IsReason(reason) && At(buf, i, [SP] + (reason + CRLF))
    ensures GetTokenToEol(buf, i) == Ok(i + |reason| + 3, Span(i, |reason| + 1)) && buf[i] == SP
    ensures SkipSpaces(buf, i) == Ok(i + 1, ()) && At(buf, i + 1, reason)
  {
    hide At, GetTokenToEol;
    var text := [SP] + reason;
    assert [SP] + (reason + CRLF) == text + CRLF;
    assert IsText(text);
    ReadText(buf, i, text, CRLF);
    AtSplit(buf, i, [SP], reason + CRLF);
    AtSplit(buf, i + 1, reason, CRLF);
    assert buf[i] == SP && buf[i + 1] == reason[0];
  }

  lemma ReadStatusLine(buf: seq<byte>, minor: nat, status: nat, reason: seq<byte>)
    requires minor <= 9 && 100 <= status <= 999 && IsReason(reason)
    requires At(buf, 0, PrintStatusLine(minor, status, reason))
    ensures ParseStatusLine(buf) ==
            Ok(|PrintStatusLine(minor, status, reason)|, StatusLine(minor, status, Span(13, |reason|)))
    ensures At(buf, 13, reason)
  {
    hide At, PrintVersion, SkipSpaces, ParseVersion, ParseStatus, GetTokenToEol, Decimal;
    var afterVersion := Decimal(status) + ([SP] + (reason + CRLF));
    ThreeDigits(status);
    VersionText(minor);
    AtSplit(buf, 0, PrintVersion(minor), [SP] + afterVersion);
    AtSplit(buf, 8, [SP], afterVersion);
    AtSplit(buf, 9, Decimal(status), [SP] + (reason + CRLF));
    AtInside(buf, 12, [SP] + (reason + CRLF));
    assert buf[8] == SP;
    ReadVersion(buf, 0, minor);
    ReadStatus(buf, 9, status);
    ReadReason(buf, 12, reason);
  }

  /** The response round trip: any printed response, whatever follows it, is parsed to its full length and exactly
      its version, status, reason and fields. */
  lemma ResponseRoundTrip(minor: nat, status: nat, reason: seq<byte>, fields: seq<Field>, more: seq<byte>,
                          maxHeaders: nat)
    requires minor <= 9 && 100 <= status <= 999 && IsReason(reason) && ValidFields(fields) && |fields| <= maxHeaders
    ensures var text := PrintResponse(minor, status, reason, fields);
            var r := ParseResponse(text + more, maxHeaders);
            && r.Ok? && r.pos == |text|
            && r.val.line.minorVersion == minor && r.val.line.status == status
            && Slice(text + more, r.val.line.msg) == reason
            && HeadersBytes(text + more, r.val.headers) == FieldsBytes(fields)
  {
    hide At, ParseStatusLine, ParseHeaders, PrintStatusLine, PrintFields, HeadersBytes, FieldsBytes, ValidFields;
    var line, rest := PrintStatusLine(minor, status, reason), PrintFields(fields);
    var buf := line + rest + more;
    AtStart(line + rest, more);
    AtSplit(buf, 0, line, rest);
    ReadStatusLine(buf, minor, status, reason);
    var hs := ReadFields(buf, |line|, fields, [], maxHeaders);
    assert [] + hs == hs;
    SliceAt(buf, 13, reason);
  }
}
