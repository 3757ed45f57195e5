/** The request that makes the assertion in DoRecv fail. */
module LongParam {
  import opened Bytes
  import opened Numbers
  import opened HeadSpec
  import opened HeadRoundTrip
  import opened Responses
  import opened Connection
  import opened EventLoop
  import opened ServerApp
  import opened AppSpec
  import opened World
  import opened OwnRun
  import opened Requests
  import opened Leftover
  import HeadReceive

  /** A POST to /param announces `len` bytes, of which some are still to come: the next incoming data makes the
      assertion fail if and only if `len` exceeds the receive buffer. */
  lemma ParamFailsExactly(l: Local, p: nat, stream: seq<byte>, headLen: nat, len: nat, n: nat, next: Event, k: Limits)
    requires AwaitsRequest(l, p, k) && l.conn.capacity == k.recvBufLen <= |l.heap[IMAGE_BUF]|
    requires IsRequest(stream, POST, PARAM_PATH, headLen, len) && headLen <= n <= |stream| && n <= k.recvBufLen
    requires n - headLen < len && HeadReceive.Harmless(MemWith(l, stream[..n]), headLen, p, n) && next.app.Own?
    ensures Turned(l, Incoming(stream[..n], []), k).Going?
    ensures Turns(l, [Incoming(stream[..n], []), next], k).AssertionFailed? <==> next.raw.in_ && len > k.recvBufLen
  {
    hide Turned, IsRequest, EventBegins, HeadReceive.Harmless, OwnFits, AwaitsLongParam, Turns, IsComplete;
    var e, size := Incoming(stream[..n], []), |l.heap[IMAGE_BUF]|;
    HeadIsNotEmpty(stream, POST, PARAM_PATH, headLen, len);
    BeginsParam(l, p, stream, headLen, len, n, k);
    AwaitingFits(l, p, size, k);
    OwnTurn(l, e, k);
    var m := Turned(l, e, k).value;
    TurnKeepsBacked(l, e, k);
    OwnTurn(m, next, k);
    TwoTurns(l, e, next, k);
  }

  lemma AwaitingFits(l: Local, p: nat, imageSize: nat, k: Limits)
    requires AwaitsRequest(l, p, k) && l.conn.capacity == k.recvBufLen
    ensures InHand(l.conn, imageSize, k) && !AwaitsLongParam(l.conn, k)
  {
  }

  lemma BeginsParam(l: Local, p: nat, stream: seq<byte>, headLen: nat, len: nat, n: nat, k: Limits)
    requires AwaitsRequest(l, p, k) && l.conn.capacity == k.recvBufLen
    requires IsRequest(stream, POST, PARAM_PATH, headLen, len) && 0 < headLen <= n <= |stream| && n <= k.recvBufLen
    requires n - headLen < len && HeadReceive.Harmless(MemWith(l, stream[..n]), headLen, p, n)
    ensures var o := Turned(l, Incoming(stream[..n], []), k);
            && o.Going? && LocalBacked(o.value) && !o.value.conn.closed && o.value.conn.toRecv > 0
            && !IsStale(o.value.conn, k)
            && (EventBegins(l, Incoming(stream[..n], []), k) <==> len > k.recvBufLen)
  {
    hide IsRequest, Decide, IsComplete, Written;
    PathsDiffer();
    NextRequest(l, p, stream, POST, PARAM_PATH, headLen, len, n, [], k);
    assert Got(l.conn, stream[..n]) == stream[..n];
    assert POST != GET;
    assert Decided(Arrived(l, stream[..n])) == Begin(PARAM_PATH, headLen, len);
  }

  // ---- An example ----

  const LONG_FIELDS: seq<Field> := [Field(CONTENT_LENGTH, [SP], Decimal(2000), [])]

  /** "POST /param HTTP/1.1", "Content-Length: 2000" and an empty line. */
  const LONG_REQUEST: seq<byte> := PrintRequest(POST, PARAM_PATH, 1, LONG_FIELDS)

  lemma LongRequest()
    ensures |LONG_REQUEST| == 46 && IsRequest(LONG_REQUEST, POST, PARAM_PATH, 46, 2000)
  {
    LongLength();
    FieldsAreValid();
    hide PrintRequest, IsRequest, Decimal, ValidFields, IsPath, PrintFields, FindContentLength, FieldsBytes;
    MethodsAreTokens();
    PrintedRequest(POST, PARAM_PATH, 1, LONG_FIELDS, [], 2000);
    assert LONG_REQUEST + [] == LONG_REQUEST;
  }

  lemma LongLength()
    ensures |LONG_REQUEST| == 46
  {
    Digits2000();
    assert |CONTENT_LENGTH| == 14 && |HTTP_1| == 7;
    hide Decimal;
    assert LONG_FIELDS[1..] == [] && PrintFields(LONG_FIELDS) == PrintField(LONG_FIELDS[0]) + CRLF;
  }

  lemma Digits2000()
    ensures Decimal(2000) == Ascii("2000") == [50, 48, 48, 48]
  {
    assert Decimal(20) == Decimal(2) + [48] && Decimal(200) == Decimal(20) + [48];
    assert Decimal(2000) == Decimal(200) + [48];
  }

  lemma FieldsAreValid()
    ensures ValidFields(LONG_FIELDS) && |LONG_FIELDS| == 1 && FindContentLength(FieldsBytes(LONG_FIELDS)) == 2000
  {
    DecimalRoundTrip(2000);
    Digits2000();
    hide Decimal;
    assert ValidField(LONG_FIELDS[0]);
    assert LONG_FIELDS[1..] == [];
    assert FieldsBytes(LONG_FIELDS) == [(Some(CONTENT_LENGTH), Decimal(2000))];
    assert MatchContentLength(CONTENT_LENGTH);
  }

  /** With the source's buffer sizes: this request, on a connection that has just been accepted in a node never used,
      followed by anything. */
  lemma LongRequestFails(fd: nat, heap: seq<seq<byte>>, store: Store, next: Event, k: Limits)
    requires k.recvBufLen == 1024 && |heap| == 2 && |heap[0]| == 6 * 1024 * 1024 && |heap[1]| == 1024
    requires next.app.Own? && next.raw.in_
    ensures var l := Local(NewConn(fd, HttpState(ReceivingHead, Image, 0, 0), 1, k), heap, store);
            Turned(l, Incoming(LONG_REQUEST, []), k).Going? &&
            Turns(l, [Incoming(LONG_REQUEST, []), next], k).AssertionFailed?
  {
    LongRequest();
    hide IsRequest, IsComplete, Turned, Turns;
    var l := Local(NewConn(fd, HttpState(ReceivingHead, Image, 0, 0), 1, k), heap, store);
    assert LONG_REQUEST[..46] == LONG_REQUEST;
    ParamFailsExactly(l, 0, LONG_REQUEST, 46, 2000, 46, next, k);
  }
}
