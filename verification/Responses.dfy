/** The responses this server writes, and that a client reads the body out of them. */
module Responses {
  import opened Bytes
  import opened Numbers
  import opened HeadSpec
  import opened HeadRoundTrip
  import R = ResponseRoundTrip

  const HTTP_VERSION: seq<byte> := Ascii("HTTP/1.1 ")
  const OK_LINE: seq<byte> := HTTP_VERSION + Ascii("200 OK\r\n")
  const BAD_REQUEST_LINE: seq<byte> := HTTP_VERSION + Ascii("400 Bad Request\r\n")
  const ALLOW_CORS_HEADER: seq<byte> := Ascii("Access-Control-Allow-Origin: *\r\n")
  const CONTENT_LENGTH_HEADER: seq<byte> := Ascii("Content-Length: ")
  const NO_CONTENT: seq<byte> := Ascii("0\r\n\r\n")

  const OK_CONTENT_LENGTH_LEN: nat := 65
  const OK_CONTENT_LENGTH_RESPONSE: seq<byte> := OK_LINE + ALLOW_CORS_HEADER + CONTENT_LENGTH_HEADER + NO_CONTENT
  const BAD_REQUEST_CONTENT_LENGTH_LEN: nat := 74
  const BAD_REQUEST_CONTENT_LENGTH_RESPONSE: seq<byte> :=
    BAD_REQUEST_LINE + ALLOW_CORS_HEADER + CONTENT_LENGTH_HEADER + NO_CONTENT

  const ALLOW_ORIGIN: seq<byte> := Ascii("Access-Control-Allow-Origin")
  const CONTENT_LENGTH: seq<byte> := Ascii("Content-Length")

  /** tolower in the C locale */
  function ToLower(c: byte): byte {
    if 65 <= c <= 90 then c + 32 else c
  }

  const CONTENT_LENGTH_LOWER: seq<byte> := Ascii("content-length")
  const CONTENT_LENGTH_UPPER: seq<byte> := Ascii("CONTENT-LENGTH")

  /** The header name, in any case. */
  predicate MatchContentLength(name: seq<byte>) {
    && |name| == |CONTENT_LENGTH_LOWER| == |CONTENT_LENGTH_UPPER|
    && forall i :: 0 <= i < |name| ==> name[i] == CONTENT_LENGTH_LOWER[i] || name[i] == CONTENT_LENGTH_UPPER[i]
  }

  lemma LowerMatches(c: byte, i: nat)
    requires i < |CONTENT_LENGTH_LOWER|
    ensures |CONTENT_LENGTH_LOWER| == |CONTENT_LENGTH_UPPER| == 14
    ensures ToLower(c) == CONTENT_LENGTH_LOWER[i] <==> c == CONTENT_LENGTH_LOWER[i] || c == CONTENT_LENGTH_UPPER[i]
  {
    assert CONTENT_LENGTH_LOWER == [99, 111, 110, 116, 101, 110, 116, 45, 108, 101, 110, 103, 116, 104];
    assert CONTENT_LENGTH_UPPER == [67, 79, 78, 84, 69, 78, 84, 45, 76, 69, 78, 71, 84, 72];
  }

  /** The first Content-Length header decides: its value, -1 if that is not a number, -2 if there is none. */
  function FindContentLength(fields: seq<(Option<seq<byte>>, seq<byte>)>): int {
    if fields == [] then -2
    else if fields[0].0.Some? && MatchContentLength(fields[0].0.value) then CharsToNum(fields[0].1)
    else FindContentLength(fields[1..])
  }

  /** The header is a Content-Length. */
  predicate GivesLength(field: (Option<seq<byte>>, seq<byte>)) {
    field.0.Some? && MatchContentLength(field.0.value)
  }

  /** The first Content-Length gives the length, if it is one to seven digits; later ones are not looked at. */
  lemma {:induction false} FirstDecides(fields: seq<(Option<seq<byte>>, seq<byte>)>, i: nat)
    requires i < |fields| && GivesLength(fields[i]) && forall k :: 0 <= k < i ==> !GivesLength(fields[k])
    ensures var value := fields[i].1;
            if 1 <= |value| <= 7 && AllDigits(value) then FindContentLength(fields) == DecimalValue(value)
            else FindContentLength(fields) == -1
    decreases i
  {
    if i > 0 {
      FirstDecides(fields[1..], i - 1);
    }
  }

  /** Without any there is no length. */
  lemma {:induction false} NoneGiven(fields: seq<(Option<seq<byte>>, seq<byte>)>)
    requires forall k :: 0 <= k < |fields| ==> !GivesLength(fields[k])
    ensures FindContentLength(fields) == -2
    decreases |fields|
  {
    if fields != [] {
      NoneGiven(fields[1..]);
    }
  }

  /** There is no Content-Length, or the first one is not one to seven digits. */
  predicate NoUsableLength(fields: seq<(Option<seq<byte>>, seq<byte>)>) {
    || (forall k :: 0 <= k < |fields| ==> !GivesLength(fields[k]))
    || exists i :: 0 <= i < |fields| && GivesLength(fields[i]) && (forall k :: 0 <= k < i ==> !GivesLength(fields[k]))
                   && !(1 <= |fields[i].1| <= 7 && AllDigits(fields[i].1))
  }

  /** Exactly then no length is found. */
  lemma FindsNoneExactly(fields: seq<(Option<seq<byte>>, seq<byte>)>)
    ensures FindContentLength(fields) < 0 <==> NoUsableLength(fields)
  {
    hide FindContentLength, GivesLength;
    if forall k :: 0 <= k < |fields| ==> !GivesLength(fields[k]) {
      NoneGiven(fields);
    } else {
      var i := FirstGiven(fields);
      FirstDecides(fields, i);
    }
  }

  lemma {:induction false} FirstGiven(fields: seq<(Option<seq<byte>>, seq<byte>)>) returns (i: nat)
    requires exists k :: 0 <= k < |fields| && GivesLength(fields[k])
    ensures i < |fields| && GivesLength(fields[i]) && forall k :: 0 <= k < i ==> !GivesLength(fields[k])
    decreases |fields|
  {
    hide GivesLength;
    if GivesLength(fields[0]) {
      return 0;
    }
    var k :| 0 <= k < |fields| && GivesLength(fields[k]);
    assert fields[1..][k - 1] == fields[k];
    var j := FirstGiven(fields[1..]);
    assert forall k :: 1 <= k < j + 1 ==> fields[k] == fields[1..][k - 1];
    i := j + 1;
  }

  lemma {:induction false} PrintedField(fields: seq<Field>, i: nat)
    requires i < |fields|
    ensures FieldsBytes(fields)[i] == (Some(fields[i].name), fields[i].value)
    decreases i
  {
    if i > 0 {
      PrintedField(fields[1..], i - 1);
    }
  }

  /** Of printed fields, the first one named Content-Length, in any case, gives the length it writes. */
  lemma FindsPrinted(before: seq<Field>, f: Field, after: seq<Field>, len: nat)
    requires (forall k :: 0 <= k < |before| ==> !MatchContentLength(before[k].name)) && MatchContentLength(f.name)
    requires f.value == Decimal(len) && len <= 9999999
    ensures FindContentLength(FieldsBytes(before + [f] + after)) == len
  {
    var fields := before + [f] + after;
    hide MatchContentLength, FieldsBytes, Decimal, CharsToNum, FindContentLength;
    forall k | 0 <= k <= |before| ensures FieldsBytes(fields)[k] == (Some(fields[k].name), fields[k].value) {
      PrintedField(fields, k);
    }
    DecimalRoundTrip(len);
    FirstGives(FieldsBytes(fields), |before|);
  }

  lemma FirstGives(fields: seq<(Option<seq<byte>>, seq<byte>)>, i: nat)
    requires i < |fields| && GivesLength(fields[i]) && forall k :: 0 <= k < i ==> !GivesLength(fields[k])
    ensures FindContentLength(fields) == CharsToNum(fields[i].1)
  {
    hide MatchContentLength;
    FirstDecides(fields, i);
  }

  method MatchContentLengthLoop(name: seq<byte>) returns (r: bool)
    ensures r == MatchContentLength(name)
  {
    LowerMatches(0, 0);
    if |name| != |CONTENT_LENGTH_LOWER| {
      return false;
    }
    for i := 0 to |name|
      invariant forall k :: 0 <= k < i ==> name[k] == CONTENT_LENGTH_LOWER[k] || name[k] == CONTENT_LENGTH_UPPER[k]
    {
      LowerMatches(name[i], i);
      if ToLower(name[i]) != CONTENT_LENGTH_LOWER[i] {
        return false;
      }
    }
    r := true;
  }

  lemma FindSkips(fields: seq<(Option<seq<byte>>, seq<byte>)>, i: nat)
    requires i < |fields|
    ensures FindContentLength(fields[i..]) ==
            if fields[i].0.Some? && MatchContentLength(fields[i].0.value) then CharsToNum(fields[i].1)
            else FindContentLength(fields[i + 1..])
  {
    assert fields[i..][1..] == fields[i + 1..];
  }

  /** FindContentLength over the parsed headers. A header without a name has an empty one. */
  method FindContentLengthLoop(buf: seq<byte>, headers: array<Header>, numHeaders: nat) returns (r: int)
    requires numHeaders <= headers.Length
    ensures r == FindContentLength(HeadersBytes(buf, headers[..numHeaders]))
  {
    ghost var fields := HeadersBytes(buf, headers[..numHeaders]);
    for i := 0 to numHeaders
      invariant FindContentLength(fields) == FindContentLength(fields[i..])
    {
      var h := headers[i];
      assert fields[i] == HeaderBytes(buf, headers[..numHeaders][i]);
      FindSkips(fields, i);
      var name := if h.name.Some? then Slice(buf, h.name.value) else [];
      var matches := MatchContentLengthLoop(name);
      if matches {
        r := CharsToNumLoop(Slice(buf, h.value));
        return;
      }
    }
    r := -2;
  }

  // ---- Send200 and Send400 ----

  /** The bytes of Send200 for a body: the head up to the length, the length, the body. */
  function Response200(body: seq<byte>): seq<byte>
    requires |body| <= 9999
  {
    if body == [] then OK_CONTENT_LENGTH_RESPONSE
    else OK_CONTENT_LENGTH_RESPONSE[..OK_CONTENT_LENGTH_LEN] + (Decimal(|body|) + CRLF + CRLF) + body
  }

  function Response400(body: seq<byte>): seq<byte>
    requires |body| <= 9999
  {
    if body == [] then BAD_REQUEST_CONTENT_LENGTH_RESPONSE
    else BAD_REQUEST_CONTENT_LENGTH_RESPONSE[..BAD_REQUEST_CONTENT_LENGTH_LEN] + (Decimal(|body|) + CRLF + CRLF) + body
  }

  function ResponseFields(len: nat): seq<Field>
    requires len <= 9999
  {
    [Field(ALLOW_ORIGIN, [SP], Ascii("*"), []), Field(CONTENT_LENGTH, [SP], Decimal(len), [])]
  }

  lemma StatusTexts()
    ensures Decimal(200) == [50, 48, 48] && Decimal(400) == [52, 48, 48]
    ensures HTTP_VERSION == PrintVersion(1) + [SP] && |HTTP_VERSION| == 9
  {
    assert Decimal(20) == Decimal(2) + [48] && Decimal(40) == Decimal(4) + [48];
    assert Decimal(200) == Decimal(20) + [48] && Decimal(400) == Decimal(40) + [48];
  }

  lemma OkText()
    ensures OK_LINE == R.PrintStatusLine(1, 200, Ascii("OK")) && |OK_LINE| == 17
  {
    StatusTexts();
    hide Decimal, PrintVersion;
    assert Ascii("200 OK\r\n") == [50, 48, 48] + [SP] + Ascii("OK") + CRLF;
  }

  lemma BadRequestText()
    ensures BAD_REQUEST_LINE == R.PrintStatusLine(1, 400, Ascii("Bad Request")) && |BAD_REQUEST_LINE| == 26
  {
    StatusTexts();
    hide Decimal, PrintVersion;
    assert Ascii("400 Bad Request\r\n") == [52, 48, 48] + [SP] + Ascii("Bad Request") + CRLF;
  }

  lemma FieldTexts(len: nat)
    requires len <= 9999
    ensures PrintFields(ResponseFields(len)) ==
            ALLOW_CORS_HEADER + CONTENT_LENGTH_HEADER + (Decimal(len) + CRLF + CRLF)
    ensures |ALLOW_CORS_HEADER| == 32 && |CONTENT_LENGTH_HEADER| == 16
  {
    var fs := ResponseFields(len);
    assert ALLOW_CORS_HEADER == ALLOW_ORIGIN + ([COLON] + ([SP] + (Ascii("*") + ([] + CRLF))));
    assert CONTENT_LENGTH_HEADER == CONTENT_LENGTH + ([COLON] + [SP]);
    assert PrintField(fs[0]) == ALLOW_CORS_HEADER;
    assert PrintField(fs[1]) == CONTENT_LENGTH_HEADER + (Decimal(len) + CRLF);
    assert fs[1..] == [fs[1]] && fs[1..][1..] == [];
    assert PrintFields(fs[1..]) == PrintField(fs[1]) + CRLF;
  }

  /** The texts up to the length are the responses without a body, cut before their "0". */
  lemma HeadTexts()
    ensures OK_CONTENT_LENGTH_RESPONSE[..OK_CONTENT_LENGTH_LEN] == OK_LINE + ALLOW_CORS_HEADER + CONTENT_LENGTH_HEADER
    ensures BAD_REQUEST_CONTENT_LENGTH_RESPONSE[..BAD_REQUEST_CONTENT_LENGTH_LEN] ==
            BAD_REQUEST_LINE + ALLOW_CORS_HEADER + CONTENT_LENGTH_HEADER
    ensures NO_CONTENT == Decimal(0) + CRLF + CRLF
  {
    OkText();
    BadRequestText();
    FieldTexts(0);
    assert Decimal(0) == [48];
    assert NO_CONTENT == [48] + CRLF + CRLF;
    hide Decimal, PrintFields, ResponseFields, R.PrintStatusLine;
  }

  lemma Regroup(line: seq<byte>, cors: seq<byte>, name: seq<byte>, len: seq<byte>, body: seq<byte>)
    ensures line + cors + name + len + body == line + (cors + name + len) + body
  {
  }

  /** With or without a body, the bytes are the canonical head with the body's length, and the body. */
  lemma ResponsesArePrinted(body: seq<byte>)
    requires |body| <= 9999
    ensures Response200(body) == R.PrintResponse(1, 200, Ascii("OK"), ResponseFields(|body|)) + body
    ensures Response400(body) == R.PrintResponse(1, 400, Ascii("Bad Request"), ResponseFields(|body|)) + body
  {
    hide R.PrintStatusLine, PrintFields, ResponseFields, Decimal, Ascii;
    OkText();
    BadRequestText();
    FieldTexts(|body|);
    HeadTexts();
    var length := Decimal(|body|) + CRLF + CRLF;
    Regroup(OK_LINE, ALLOW_CORS_HEADER, CONTENT_LENGTH_HEADER, length, body);
    Regroup(BAD_REQUEST_LINE, ALLOW_CORS_HEADER, CONTENT_LENGTH_HEADER, length, body);
    if body == [] {
      assert OK_LINE + ALLOW_CORS_HEADER + CONTENT_LENGTH_HEADER + length + [] == OK_CONTENT_LENGTH_RESPONSE;
      assert BAD_REQUEST_LINE + ALLOW_CORS_HEADER + CONTENT_LENGTH_HEADER + length + [] ==
             BAD_REQUEST_CONTENT_LENGTH_RESPONSE;
    }
  }

  /** What FindContentLength finds in the server's own headers. */
  lemma FindsOwnLength(len: nat)
    requires len <= 9999
    ensures FindContentLength(FieldsBytes(ResponseFields(len))) == len
  {
    DecimalRoundTrip(len);
    OwnFields(len);
    assert |ALLOW_ORIGIN| == 27 && !MatchContentLength(ALLOW_ORIGIN);
    assert MatchContentLength(CONTENT_LENGTH);
    var fields := [(Some(ALLOW_ORIGIN), Ascii("*")), (Some(CONTENT_LENGTH), Decimal(len))];
    assert fields[1..] == [fields[1]];
    hide Decimal, CharsToNum, MatchContentLength, FieldsBytes;
  }

  lemma OwnFields(len: nat)
    requires len <= 9999
    ensures FieldsBytes(ResponseFields(len)) == [(Some(ALLOW_ORIGIN), Ascii("*")), (Some(CONTENT_LENGTH), Decimal(len))]
  {
    hide Decimal;
    var fs := ResponseFields(len);
    assert fs[1..] == [fs[1]] && fs[1..][1..] == [];
    assert FieldsBytes(fs[1..]) == [(Some(CONTENT_LENGTH), Decimal(len))];
  }

  lemma ResponseFieldsValid(len: nat)
    requires len <= 9999
    ensures ValidFields(ResponseFields(len))
  {
    DigitsAreText(Decimal(len));
    hide Decimal;
    assert ValidField(ResponseFields(len)[0]);
    assert ValidField(ResponseFields(len)[1]);
  }

  lemma DigitsAreText(s: seq<byte>)
    requires s != [] && AllDigits(s)
    ensures IsText(s) && IsTrimmed(s)
  {
  }

  lemma ReasonsValid()
    ensures R.IsReason(Ascii("OK")) && R.IsReason(Ascii("Bad Request"))
  {
  }

  /** A client that parses the head of a response and takes the announced number of bytes gets the status and
      exactly the body, for every body the server can announce. */
  lemma ClientReadsResponse(body: seq<byte>, maxHeaders: nat)
    requires |body| <= 9999 && maxHeaders >= 2
    ensures var b := Response200(body);
            var r := ParseResponse(b, maxHeaders);
            && r.Ok? && r.val.line.status == 200 && |r.val.headers| == 2
            && FindContentLength(HeadersBytes(b, r.val.headers)) == |body|
            && b[r.pos..] == body
    ensures var b := Response400(body);
            var r := ParseResponse(b, maxHeaders);
            && r.Ok? && r.val.line.status == 400 && |r.val.headers| == 2
            && FindContentLength(HeadersBytes(b, r.val.headers)) == |body|
            && b[r.pos..] == body
  {
    hide Response200, Response400, R.PrintResponse, ParseResponse, FindContentLength, ResponseFields, HeadersBytes;
    ResponsesArePrinted(body);
    ResponseFieldsValid(|body|);
    ReasonsValid();
    TwoFields(|body|);
    FindsOwnLength(|body|);
    R.ResponseRoundTrip(1, 200, Ascii("OK"), ResponseFields(|body|), body, maxHeaders);
    R.ResponseRoundTrip(1, 400, Ascii("Bad Request"), ResponseFields(|body|), body, maxHeaders);
  }

  lemma TwoFields(len: nat)
    requires len <= 9999
    ensures |ResponseFields(len)| == 2
  {
  }
}
