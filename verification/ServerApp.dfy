/** The HTTP application on top of a connection: fixed responses, receiving a head, and receiving an image straight
    into the image buffer. */
module ServerApp {
  import opened Bytes
  import opened SendQueue
  import opened Connection
  import opened Numbers
  import opened HeadSpec
  import opened HeadRoundTrip
  import opened Responses
  import HeadParser
  import HeadReceive

  const MAX_HDR_NUM: nat := 20

  // ---- Fixed responses through the send buffer ----

  function PutResponse(q: Queue, empty: seq<byte>, headLen: nat, body: seq<byte>, capacity: nat): Queue
    requires headLen <= |empty| && |body| <= 9999
  {
    if body == [] then Put(q, empty, capacity)
    else Put(Put(Put(q, empty[..headLen], capacity), Decimal(|body|) + CRLF + CRLF, capacity), body, capacity)
  }

  /** Send200 */
  function Put200(q: Queue, body: seq<byte>, capacity: nat): Queue
    requires |body| <= 9999
  {
    ResponseLengths();
    PutResponse(q, OK_CONTENT_LENGTH_RESPONSE, OK_CONTENT_LENGTH_LEN, body, capacity)
  }

  /** Send400 */
  function Put400(q: Queue, body: seq<byte>, capacity: nat): Queue
    requires |body| <= 9999
  {
    ResponseLengths();
    PutResponse(q, BAD_REQUEST_CONTENT_LENGTH_RESPONSE, BAD_REQUEST_CONTENT_LENGTH_LEN, body, capacity)
  }

  lemma ResponseLengths()
    ensures |OK_CONTENT_LENGTH_RESPONSE| == 70 && |BAD_REQUEST_CONTENT_LENGTH_RESPONSE| == 79
  {
  }

  /** The writes' results are ignored: the whole response is queued exactly when all of it fits. */
  lemma ResponseIsWholeOnlyIfItFits(q: Queue, empty: seq<byte>, headLen: nat, body: seq<byte>, capacity: nat)
    requires headLen <= |empty| && |body| <= 9999 && empty != [] && headLen > 0
    ensures var whole := if body == [] then empty else empty[..headLen] + (Decimal(|body|) + CRLF + CRLF) + body;
            PutResponse(q, empty, headLen, body, capacity).pending == q.pending + whole <==>
            q.sendIdx + |q.pending| + |whole| < capacity
  {
    if body != [] {
      var head, len := empty[..headLen], Decimal(|body|) + CRLF + CRLF;
      assert q.pending + head + len + body == q.pending + (head + len + body);
      assert q.sendIdx + |q.pending| + |head + len + body| >= capacity ==>
             |PutResponse(q, empty, headLen, body, capacity).pending| < |q.pending| + |head| + |len| + |body|;
    } else {
      assert |q.pending| < |q.pending + empty|;
    }
  }

  /** A response that fits is queued as the bytes a client can read back. */
  lemma ResponsesQueued(q: Queue, body: seq<byte>, capacity: nat)
    requires |body| <= 9999
    ensures Put200(q, body, capacity).pending == q.pending + Response200(body) <==>
            q.sendIdx + |q.pending| + |Response200(body)| < capacity
    ensures Put400(q, body, capacity).pending == q.pending + Response400(body) <==>
            q.sendIdx + |q.pending| + |Response400(body)| < capacity
  {
    hide Decimal, PutResponse;
    ResponseLengths();
    ResponseIsWholeOnlyIfItFits(q, OK_CONTENT_LENGTH_RESPONSE, OK_CONTENT_LENGTH_LEN, body, capacity);
    ResponseIsWholeOnlyIfItFits(q, BAD_REQUEST_CONTENT_LENGTH_RESPONSE, BAD_REQUEST_CONTENT_LENGTH_LEN, body, capacity);
  }

  /** A response shorter than the buffer, written when nothing waits, is queued whole. */
  lemma ResponseInEmptyBuffer(body: seq<byte>, totalSend: nat, capacity: nat)
    requires |body| <= 9999
    ensures |Response200(body)| < capacity ==>
              Put200(Queue([], 0, totalSend), body, capacity) == Queue(Response200(body), 0, totalSend)
    ensures |Response400(body)| < capacity ==>
              Put400(Queue([], 0, totalSend), body, capacity) == Queue(Response400(body), 0, totalSend)
  {
    hide Response200, Response400, Decimal;
    ResponseLengths();
    ResponsesQueued(Queue([], 0, totalSend), body, capacity);
    assert [] + Response200(body) == Response200(body) && [] + Response400(body) == Response400(body);
  }

  /** SendContentLength */
  method SendContentLength(c: ElConnection, len: nat)
    requires c.SendBounds() && len <= 9999
    modifies c`toSend, c.sendBuf
    ensures c.SendBounds()
    ensures c.Outgoing() == Put(old(c.Outgoing()), Decimal(len) + CRLF + CRLF, c.sendBuf.Length)
  {
    var s := new byte[8];
    var l := NumToFourChars(len, s);
    CopyInto(s, l, CRLF + CRLF);
    assert s[..l] == Decimal(len);
    assert s[..l + 4] == s[..l] + s[l..l + 4];
    assert Decimal(len) + CRLF + CRLF == Decimal(len) + (CRLF + CRLF);
    var _ := c.AddToSendBuffer(s[..l + 4]);
  }

  /** The common text of Send200 and Send400. */
  method SendResponse(c: ElConnection, empty: seq<byte>, headLen: nat, body: seq<byte>)
    requires c.SendBounds() && headLen <= |empty| && |body| <= 9999
    modifies c`toSend, c.sendBuf
    ensures c.SendBounds()
    ensures c.Outgoing() == PutResponse(old(c.Outgoing()), empty, headLen, body, c.sendBuf.Length)
  {
    if |body| > 0 {
      var _ := c.AddToSendBuffer(empty[..headLen]);
      SendContentLength(c, |body|);
      var _ := c.AddToSendBuffer(body);
    } else {
      var _ := c.AddToSendBuffer(empty);
    }
  }

  method Send200(c: ElConnection, body: seq<byte>)
    requires c.SendBounds() && |body| <= 9999
    modifies c`toSend, c.sendBuf
    ensures c.SendBounds() && c.Outgoing() == Put200(old(c.Outgoing()), body, c.sendBuf.Length)
  {
    ResponseLengths();
    SendResponse(c, OK_CONTENT_LENGTH_RESPONSE, OK_CONTENT_LENGTH_LEN, body);
  }

  method Send400(c: ElConnection, body: seq<byte>)
    requires c.SendBounds() && |body| <= 9999
    modifies c`toSend, c.sendBuf
    ensures c.SendBounds() && c.Outgoing() == Put400(old(c.Outgoing()), body, c.sendBuf.Length)
  {
    ResponseLengths();
    SendResponse(c, BAD_REQUEST_CONTENT_LENGTH_RESPONSE, BAD_REQUEST_CONTENT_LENGTH_LEN, body);
  }

  // ---- Receiving a head ----

  const GET: seq<byte> := Ascii("GET")
  const POST: seq<byte> := Ascii("POST")
  const IMAGE_PATH: seq<byte> := Ascii("/image")
  const PARAM_PATH: seq<byte> := Ascii("/param")

  /** What OnRecvHead and ProcessHead decide: wait for more, give up, answer, or receive the rest of a body. */
  datatype Decision =
    | NeedMore
    | Refuse
    | Get(path: seq<byte>)
    | Whole(path: seq<byte>, headLen: nat, contentLen: nat)
    | Begin(path: seq<byte>, headLen: nat, contentLen: nat)

  /** The first `n` bytes of the receive buffer `mem` have been received. */
  function Decide(mem: seq<byte>, n: nat, prevBufLen: nat): (d: Decision)
    requires n <= |mem|
    ensures d.Begin? ==> d.headLen <= n < d.headLen + d.contentLen
  {
    match RequestIn(mem, n, MAX_HDR_NUM, prevBufLen)
    case Partial => NeedMore
    case Bad => Refuse
    case Ok(headLen, head) => DecideHead(mem[..n], headLen, head)
  }

  function DecideHead(buf: seq<byte>, headLen: nat, head: Head<RequestLine>): Decision {
    var m, path := Slice(buf, head.line.method_), Slice(buf, head.line.path);
    if m == GET then Get(path)
    else if m == POST then
      var contentLen := FindContentLength(HeadersBytes(buf, head.headers));
      if contentLen < 0 then Refuse
      else if contentLen <= |buf| - headLen then Whole(path, headLen, contentLen)
      else Begin(path, headLen, contentLen)
    else Refuse
  }

  /** OnRecvHead with ProcessHead's branches; the parser's progress is remembered while the head is incomplete. */
  method OnRecvHead(sse: bool, c: ElConnection) returns (d: Decision)
    requires c.recvIdx <= c.recvBuf.Length && Readable(c.recvBuf[..], c.recvIdx, c.prevBufLen)
    modifies c`prevBufLen, c`state, c`contentLen
    ensures d == Decide(c.recvBuf[..], c.recvIdx, old(c.prevBufLen))
    ensures c.prevBufLen == if d.NeedMore? then c.recvIdx else old(c.prevBufLen)
    ensures if d.Begin? then c.state == ReceivingBody && c.contentLen == d.contentLen
            else c.state == old(c.state) && c.contentLen == old(c.contentLen)
  {
    var mem := c.recvBuf[..];
    var buf := mem[..c.recvIdx];
    var headers := new Header[MAX_HDR_NUM];
    var pret, line, numHeaders := HeadParser.ParseRequestInto(sse, mem, c.recvIdx, headers, c.prevBufLen);
    ghost var spec := RequestIn(mem, c.recvIdx, MAX_HDR_NUM, c.prevBufLen);
    if spec.Ok? {
      HeadReceive.NonEmpty(buf, MAX_HDR_NUM);
    }
    if pret > 0 {
      var m, path := Slice(buf, line.method_), Slice(buf, line.path);
      if m == GET {
        d := Get(path);
      } else if m == POST {
        var contentLen := FindContentLengthLoop(buf, headers, numHeaders);
        if contentLen < 0 {
          d := Refuse;
        } else if contentLen <= c.recvIdx - pret {
          d := Whole(path, pret, contentLen);
        } else {
          c.state := ReceivingBody;
          c.contentLen := contentLen;
          d := Begin(path, pret, contentLen);
        }
      } else {
        d := Refuse;
      }
    } else if pret == -2 {
      c.prevBufLen := c.recvIdx;
      d := NeedMore;
    } else {
      d := Refuse;
    }
  }
}
