/** What becomes of a connection when more of a request arrives, request by request, over a whole turn of the loop
    with the own application. */
module Answers {
  import opened Bytes
  import opened Connection
  import opened HeadRoundTrip
  import opened Responses
  import opened EventLoop
  import opened ServerApp
  import opened AppSpec
  import opened World
  import opened Requests
  import opened Leftover
  import HeadReceive
  import HeadSpec
  import SendQueue

  const GET_VERB: seq<byte> := Ascii("GET")
  const POST_VERB: seq<byte> := Ascii("POST")
  const IMAGE_URI: seq<byte> := Ascii("/image")
  const PARAM_URI: seq<byte> := Ascii("/param")

  lemma Texts()
    ensures GET == GET_VERB != POST == POST_VERB && IMAGE_PATH == IMAGE_URI != PARAM_PATH == PARAM_URI
  {
    assert IMAGE_PATH[1] != PARAM_PATH[1];
  }

  /** An open connection that waits for a head, of which `n` bytes have arrived. */
  predicate IsReceiving(l: Local, stream: seq<byte>, n: nat) {
    && LocalBacked(l) && !l.conn.closed && l.conn.http.state == ReceivingHead && l.conn.recvIdx == n <= |stream|
    && !Overcommitted(l.conn) && l.heap[l.conn.buf][..n] == stream[..n]
  }

  /** recv() brings the bytes up to `m`. */
  predicate Brings(l: Local, bytes: seq<byte>, stream: seq<byte>, n: nat, m: nat) {
    n < m <= |stream| && m - n <= l.conn.toRecv && bytes == stream[n..m]
  }

  /** What is remembered is harmless for a head of `headLen` bytes. */
  ghost predicate IsHarmless(l: Local, bytes: seq<byte>, headLen: nat, n: nat, m: nat)
    requires LocalBacked(l) && m <= n + |bytes| <= l.conn.capacity
  {
    HeadReceive.Harmless(Written(l.heap[l.conn.buf], n, bytes), headLen, l.conn.http.prevBufLen, m)
  }

  /** `m` bytes of a request have arrived, with nothing in the way. */
  ghost predicate Comes(l: Local, bytes: seq<byte>, stream: seq<byte>, headLen: nat, n: nat, m: nat) {
    IsReceiving(l, stream, n) && Brings(l, bytes, stream, n, m) && IsHarmless(l, bytes, headLen, n, m)
  }

  /** The event: poll() reports input, and the application's own code looks at it. */
  function Input(bytes: seq<byte>, replies: seq<seq<byte>>, waits: bool): Event {
    Event(READABLE, Data(bytes), Own(replies, waits), WouldBlock)
  }

  /** What is in the receive buffer when the application is called. */
  lemma HoldsStream(l: Local, bytes: seq<byte>, stream: seq<byte>, headLen: nat, n: nat, m: nat)
    requires Comes(l, bytes, stream, headLen, n, m)
    ensures Got(l.conn, bytes) == bytes != []
    ensures var a := Arrived(l, bytes);
            && Sane(a) && a.conn == Received(l.conn, |bytes|) && a.conn.recvIdx == m && a.store == l.store
            && |a.heap| == |l.heap| && |a.heap[IMAGE_BUF]| == |l.heap[IMAGE_BUF]|
            && HeadReceive.Holds(a.heap[a.conn.buf], stream, m)
            && HeadReceive.Harmless(a.heap[a.conn.buf], headLen, l.conn.http.prevBufLen, m)
  {
    hide HeadReceive.Harmless, Written;
    ArrivedAtFront(l, bytes, stream, n);
  }

  /** A turn whose input brings a piece of a request. */
  lemma TurnOf(l: Local, e: Event, k: Limits)
    requires LocalBacked(l) && e.app.Own? && e.raw == READABLE && e.recv.Data? && Got(l.conn, e.recv.bytes) != []
    requires !Overcommitted(l.conn) && l.conn.http.state == ReceivingHead
    ensures var a := Arrived(l, Got(l.conn, e.recv.bytes));
            Defined(a, k) ==> Turned(l, e, k) == Going(OwnReact(a, e.app.replies, e.app.waits, k))
  {
    hide Defined, OwnReact, Written;
  }

  /** What has been decided when `m` bytes of a GET or POST are there. */
  lemma DecidedServed(l: Local, bytes: seq<byte>, stream: seq<byte>, verb: seq<byte>, path: seq<byte>, headLen: nat,
                      contentLen: nat, n: nat, m: nat)
    requires Comes(l, bytes, stream, headLen, n, m) && IsRequest(stream, verb, path, headLen, contentLen)
    ensures var a := Arrived(l, bytes);
            && Sane(a) && Decided(a) == Expected(verb, path, headLen, contentLen, m)
            && HeadSpec.Readable(a.heap[a.conn.buf], a.conn.recvIdx, a.conn.http.prevBufLen)
  {
    HoldsStream(l, bytes, stream, headLen, n, m);
    hide IsRequest, Decide, HeadReceive.Harmless, HeadSpec.Readable, Comes;
    var a := Arrived(l, bytes);
    DecideExactly(a.heap[a.conn.buf], stream, verb, path, headLen, contentLen, m, l.conn.http.prevBufLen);
  }

  // ---- Heads ----

  /** While the head is incomplete the connection goes on receiving it, and remembers how much the parser has seen. */
  lemma HeadIsAwaited(l: Local, bytes: seq<byte>, stream: seq<byte>, verb: seq<byte>, path: seq<byte>, headLen: nat,
                      contentLen: nat, n: nat, m: nat, replies: seq<seq<byte>>, waits: bool, k: Limits)
    returns (o: Local)
    requires LocalBacked(l) && Comes(l, bytes, stream, headLen, n, m)
    requires IsRequest(stream, verb, path, headLen, contentLen)
    requires m < headLen
    ensures Turned(l, Input(bytes, replies, waits), k) == Going(o)
    ensures IsReceiving(o, stream, m) && o.conn == Received(l.conn, m - n).(http := l.conn.http.(prevBufLen := m))
  {
    HoldsStream(l, bytes, stream, headLen, n, m);
    Texts();
    DecidedServed(l, bytes, stream, verb, path, headLen, contentLen, n, m);
    hide IsRequest, Decide, Comes, Written, HeadSpec.Readable;
    TurnOf(l, Input(bytes, replies, waits), k);
    o := Turned(l, Input(bytes, replies, waits), k).value;
  }

  /** A GET whose head is there is answered with what its handler writes, and begins to listen if the handler says so.
      */
  lemma GetIsAnswered(l: Local, bytes: seq<byte>, stream: seq<byte>, path: seq<byte>, headLen: nat, n: nat, m: nat,
                      replies: seq<seq<byte>>, waits: bool, k: Limits) returns (o: Local)
    requires LocalBacked(l) && Comes(l, bytes, stream, headLen, n, m)
    requires IsRequest(stream, GET_VERB, path, headLen, 0)
    requires m >= headLen
    ensures Turned(l, Input(bytes, replies, waits), k) == Going(o)
    ensures o.conn == Received(l.conn, m - n).(
              queue := SendQueue.PutAll(l.conn.queue, replies, k.sendBufLen),
              http := l.conn.http.(state := if waits then WaitSending else Sending))
  {
    HoldsStream(l, bytes, stream, headLen, n, m);
    Texts();
    DecidedServed(l, bytes, stream, GET, path, headLen, 0, n, m);
    hide IsRequest, Decide, Comes, Written, HeadSpec.Readable, SendQueue.PutAll;
    TurnOf(l, Input(bytes, replies, waits), k);
    o := Turned(l, Input(bytes, replies, waits), k).value;
  }

  /** A request of any other method, or a POST without a usable length, closes the connection as soon as its head is
      there; nothing is answered. */
  lemma UnservedIsClosed(l: Local, bytes: seq<byte>, stream: seq<byte>, headLen: nat, n: nat, m: nat,
                         replies: seq<seq<byte>>, waits: bool, k: Limits) returns (o: Local)
    requires LocalBacked(l) && Comes(l, bytes, stream, headLen, n, m) && IsUnserved(stream, headLen) && m >= headLen
    ensures Turned(l, Input(bytes, replies, waits), k) == Going(o)
    ensures o.conn == Received(l.conn, m - n).(closed := true)
  {
    HoldsStream(l, bytes, stream, headLen, n, m);
    hide IsUnserved, Decide, Comes, Written, HeadSpec.Readable, HeadReceive.Harmless;
    var a := Arrived(l, bytes);
    RefusesUnserved(a.heap[a.conn.buf], stream, headLen, m, l.conn.http.prevBufLen);
    TurnOf(l, Input(bytes, replies, waits), k);
    o := Turned(l, Input(bytes, replies, waits), k).value;
  }

  /** A request that arrives in one piece on a connection that remembers nothing, and more behind it perhaps. */
  lemma InOnePiece(l: Local, text: seq<byte>, more: seq<byte>, k: Limits)
    requires AwaitsRequest(l, 0, k) && text != [] && |text + more| <= k.recvBufLen
    ensures Comes(l, text + more, text + more, |text|, 0, |text + more|)
  {
    hide HeadSpec.IsComplete, HeadSpec.ScanComplete, Written;
    assert (text + more)[0..|text + more|] == text + more && l.heap[l.conn.buf][..0] == (text + more)[..0];
  }

  /** Every printed request of another method closes such a connection, and so does every printed POST without a
      Content-Length or with a first one that is not one to seven digits. */
  lemma PrintedUnservedIsClosed(l: Local, m: seq<byte>, path: seq<byte>, minor: nat, fields: seq<Field>,
                                more: seq<byte>, replies: seq<seq<byte>>, waits: bool, k: Limits) returns (o: Local)
    requires AwaitsRequest(l, 0, k)
    requires IsToken(m) && IsPath(path) && minor <= 9 && ValidFields(fields) && |fields| <= 20
    requires Unserved(m, FieldsBytes(fields)) && |PrintRequest(m, path, minor, fields) + more| <= k.recvBufLen
    ensures Turned(l, Input(PrintRequest(m, path, minor, fields) + more, replies, waits), k) == Going(o)
    ensures o.conn.closed && o.conn.queue == l.conn.queue
  {
    hide IsToken, IsPath, ValidFields, Unserved, FieldsBytes, Comes, IsUnserved, Turned;
    PrintedIsNotEmpty(m, path, minor, fields);
    hide PrintRequest;
    var text := PrintRequest(m, path, minor, fields);
    PrintedUnserved(m, path, minor, fields, more);
    InOnePiece(l, text, more, k);
    o := UnservedIsClosed(l, text + more, text + more, |text|, 0, |text + more|, replies, waits, k);
  }

  lemma PrintedIsNotEmpty(m: seq<byte>, path: seq<byte>, minor: nat, fields: seq<Field>)
    requires minor <= 9
    ensures PrintRequest(m, path, minor, fields) != []
  {
    assert |PrintRequestLine(m, path, minor)| >= 2;
  }

  /** Every printed GET is answered on such a connection, which then listens if its handler says so. */
  lemma PrintedGetIsAnswered(l: Local, path: seq<byte>, minor: nat, fields: seq<Field>, more: seq<byte>,
                             replies: seq<seq<byte>>, waits: bool, k: Limits) returns (o: Local)
    requires AwaitsRequest(l, 0, k)
    requires IsPath(path) && minor <= 9 && ValidFields(fields) && |fields| <= 20
    requires |PrintRequest(GET_VERB, path, minor, fields) + more| <= k.recvBufLen
    ensures Turned(l, Input(PrintRequest(GET_VERB, path, minor, fields) + more, replies, waits), k) == Going(o)
    ensures !o.conn.closed && o.conn.http.state == (if waits then WaitSending else Sending)
    ensures o.conn.queue == SendQueue.PutAll(l.conn.queue, replies, k.sendBufLen)
  {
    hide IsPath, ValidFields, Comes, IsRequest, Turned, SendQueue.PutAll;
    PrintedIsNotEmpty(GET_VERB, path, minor, fields);
    hide PrintRequest;
    Texts();
    var text := PrintRequest(GET_VERB, path, minor, fields);
    PrintedRequest(GET, path, minor, fields, more, 0);
    InOnePiece(l, text, more, k);
    o := GetIsAnswered(l, text + more, text + more, path, |text|, 0, |text + more|, replies, waits, k);
  }

  // ---- POST ----

  /** A POST that has arrived whole, to any other path than the image's, is answered with what its handler writes. */
  lemma PostIsAnswered(l: Local, bytes: seq<byte>, stream: seq<byte>, path: seq<byte>, headLen: nat, contentLen: nat,
                       n: nat, m: nat, replies: seq<seq<byte>>, waits: bool, k: Limits) returns (o: Local)
    requires LocalBacked(l) && Comes(l, bytes, stream, headLen, n, m)
    requires IsRequest(stream, POST_VERB, path, headLen, contentLen)
    requires m >= headLen + contentLen && path != IMAGE_URI
    ensures Turned(l, Input(bytes, replies, waits), k) == Going(o)
    ensures o.conn == Received(l.conn, m - n).(
              queue := SendQueue.PutAll(l.conn.queue, replies, k.sendBufLen),
              http := l.conn.http.(state := Sending))
  {
    HoldsStream(l, bytes, stream, headLen, n, m);
    Texts();
    DecidedServed(l, bytes, stream, POST, path, headLen, contentLen, n, m);
    hide IsRequest, Decide, Comes, Written, HeadSpec.Readable, SendQueue.PutAll;
    TurnOf(l, Input(bytes, replies, waits), k);
    o := Turned(l, Input(bytes, replies, waits), k).value;
  }

  /** One to the image's path is answered with 200 if the image has at least one byte and fits, else with 400; it needs
      what an earlier upload has left in the globals. */
  lemma ImageIsAnswered(l: Local, bytes: seq<byte>, stream: seq<byte>, headLen: nat, contentLen: nat, n: nat, m: nat,
                        replies: seq<seq<byte>>, waits: bool, k: Limits) returns (o: Local)
    requires LocalBacked(l) && Comes(l, bytes, stream, headLen, n, m)
    requires IsRequest(stream, POST_VERB, IMAGE_URI, headLen, contentLen) && m >= headLen + contentLen
    requires Resumable(Arrived(l, bytes), k)
    ensures Turned(l, Input(bytes, replies, waits), k) == Going(o)
    ensures var answer := if 1 <= contentLen <= |l.heap[IMAGE_BUF]| then Response200([]) else Response400([]);
            o.conn == Received(l.conn, m - n).(
              queue := SendQueue.Put(l.conn.queue, answer, k.sendBufLen),
              buf := l.store.gRecvBuf.value,
              capacity := k.recvBufLen,
              http := l.conn.http.(state := Sending))
  {
    HoldsStream(l, bytes, stream, headLen, n, m);
    Texts();
    DecidedServed(l, bytes, stream, POST, IMAGE_PATH, headLen, contentLen, n, m);
    hide IsRequest, Decide, Comes, Written, HeadSpec.Readable, SendQueue.Put, Resumable;
    TurnOf(l, Input(bytes, replies, waits), k);
    o := Turned(l, Input(bytes, replies, waits), k).value;
  }

  /** A POST whose body is not all there: an image of a valid length is received into the image buffer, parameters into
      the receive buffer, from its beginning; anything else closes the connection. */
  lemma BodyIsAwaited(l: Local, bytes: seq<byte>, stream: seq<byte>, path: seq<byte>, headLen: nat, contentLen: nat,
                      n: nat, m: nat, replies: seq<seq<byte>>, waits: bool, k: Limits) returns (o: Local)
    requires LocalBacked(l) && Comes(l, bytes, stream, headLen, n, m)
    requires IsRequest(stream, POST_VERB, path, headLen, contentLen)
    requires headLen <= m < headLen + contentLen
    ensures Turned(l, Input(bytes, replies, waits), k) == Going(o)
    ensures o.conn.queue == l.conn.queue
    ensures !o.conn.closed <==> path == PARAM_URI ||
                                (path == IMAGE_URI && 1 <= contentLen <= |l.heap[IMAGE_BUF]|)
    ensures !o.conn.closed ==>
              && o.conn.http.state == ReceivingBody && o.conn.http.contentLen == contentLen
              && o.conn.http.whichIncomplete == (if path == PARAM_URI then Param else Image)
              && o.conn.recvIdx == m - headLen && o.conn.toRecv == headLen + contentLen - m
              && o.conn.buf == (if path == PARAM_URI then l.conn.buf else IMAGE_BUF)
  {
    HoldsStream(l, bytes, stream, headLen, n, m);
    Texts();
    DecidedServed(l, bytes, stream, POST, path, headLen, contentLen, n, m);
    hide IsRequest, Decide, Comes, Written, HeadSpec.Readable, Filled;
    TurnOf(l, Input(bytes, replies, waits), k);
    o := Turned(l, Input(bytes, replies, waits), k).value;
  }

  // ---- Later input ----

  /** Parameters are answered once all of them are there; before that, nothing happens but that they are received. */
  lemma ParamIsAnswered(l: Local, bytes: seq<byte>, replies: seq<seq<byte>>, waits: bool, k: Limits) returns (o: Local)
    requires LocalBacked(l) && !Overcommitted(l.conn) && 0 < |bytes| <= l.conn.toRecv
    requires l.conn.http.state == ReceivingBody && l.conn.http.whichIncomplete == Param
    requires l.conn.recvIdx + l.conn.toRecv == l.conn.http.contentLen
    ensures Turned(l, Input(bytes, replies, waits), k) == Going(o)
    ensures o.conn == if |bytes| < l.conn.toRecv then Received(l.conn, |bytes|)
                      else Received(l.conn, |bytes|).(
                        queue := SendQueue.PutAll(l.conn.queue, replies, k.sendBufLen),
                        http := l.conn.http.(state := Sending))
  {
    hide Decide, Written, HeadSpec.Readable, SendQueue.PutAll, Resumable;
    assert Got(l.conn, bytes) == bytes;
    o := Turned(l, Input(bytes, replies, waits), k).value;
  }

  /** Data that arrives while an answer or periodic data is sent closes the connection. */
  lemma UnexpectedIsClosed(l: Local, bytes: seq<byte>, replies: seq<seq<byte>>, waits: bool, k: Limits)
    returns (o: Local)
    requires LocalBacked(l) && !Overcommitted(l.conn) && 0 < |bytes| <= l.conn.toRecv
    requires l.conn.http.state in {Sending, WaitSending}
    ensures Turned(l, Input(bytes, replies, waits), k) == Going(o)
    ensures o.conn == Received(l.conn, |bytes|).(closed := true)
  {
    hide Decide, Written, HeadSpec.Readable, SendQueue.PutAll, Resumable;
    assert Got(l.conn, bytes) == bytes;
    o := Turned(l, Input(bytes, replies, waits), k).value;
  }
}
