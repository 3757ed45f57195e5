/** What the application of ServerApp.c makes of incoming data, on values: a connection, the receive buffers by their
    numbers, and the globals of an image upload. */
module AppSpec {
  import opened Bytes
  import opened SendQueue
  import opened Connection
  import opened EventLoop
  import opened Responses
  import opened ServerApp
  import HeadSpec

  const MIN_IMAGE_SIZE: nat := 1
  const FILLER: byte := 0xcc
  const IMAGE_BUF: nat := 0  // the number of g_imageBuffer

  /** g_recvBuf, by its number, g_headLen and g_bodyLen. */
  datatype Store = Store(gRecvBuf: Option<nat>, gHeadLen: nat, gBodyLen: nat)

  /** What a reaction reads and writes. */
  datatype Local = Local(conn: Conn, heap: seq<seq<byte>>, store: Store)

  /** The connection's receive buffer exists and holds what has been received. */
  predicate Sane(l: Local) {
    IMAGE_BUF < |l.heap| && l.conn.buf < |l.heap| && l.conn.recvIdx <= |l.heap[l.conn.buf]|
  }

  /** What has been decided about the head received so far. */
  function Decided(l: Local): (d: Decision)
    requires Sane(l)
    ensures d.Begin? ==> d.headLen <= l.conn.recvIdx < d.headLen + d.contentLen
  {
    Decide(l.heap[l.conn.buf], l.conn.recvIdx, l.conn.http.prevBufLen)
  }

  function ImageSize(l: Local): nat
    requires Sane(l)
  {
    |l.heap[IMAGE_BUF]|
  }

  /** OnPostImage will be called. */
  predicate FinishesImage(l: Local)
    requires Sane(l)
  {
    match l.conn.http.state
    case ReceivingHead => Decided(l).Whole? && Decided(l).path == IMAGE_PATH
    case ReceivingBody => l.conn.recvIdx >= l.conn.http.contentLen && l.conn.http.whichIncomplete == Image
    case _ => false
  }

  /** What OnPostImage copies and restores is there. */
  predicate Resumable(l: Local, k: Limits)
    requires Sane(l)
  {
    && l.store.gRecvBuf.Some? && IMAGE_BUF < l.store.gRecvBuf.value < |l.heap|
    && l.store.gHeadLen + l.store.gBodyLen <= |l.heap[l.store.gRecvBuf.value]|
    && k.recvBufLen <= |l.heap[l.store.gRecvBuf.value]|
    && l.store.gBodyLen <= ImageSize(l)
  }

  /** The code's behaviour is defined: no read outside a buffer, no buffer that does not exist. */
  predicate Defined(l: Local, k: Limits) {
    && Sane(l)
    && (l.conn.http.state == ReceivingHead ==>
          HeadSpec.Readable(l.heap[l.conn.buf], l.conn.recvIdx, l.conn.http.prevBufLen))
    && (FinishesImage(l) ==> Resumable(l, k))
  }

  /** OnRecvBody's assertion that there is more to receive fails. */
  predicate Starved(s: Conn) {
    s.http.state == ReceivingBody && s.recvIdx < s.http.contentLen && s.toRecv == 0
  }

  // ---- The handlers ----

  /** The writes of a handler that answers at once; they are inputs. */
  function Answered(s: Conn, replies: seq<seq<byte>>, state: HttpConnState, k: Limits): Conn {
    s.(queue := PutAll(s.queue, replies, k.sendBufLen), http := s.http.(state := state))
  }

  function Filled(n: nat): (image: seq<byte>)
    ensures |image| == n
  {
    seq(n, _ => FILLER)
  }

  /** OnPostImageIncomplete: from now on recv() writes into the image buffer, behind the bytes already here. */
  function BeginImage(l: Local, headLen: nat, contentLen: nat): Local
    requires Sane(l) && headLen <= l.conn.recvIdx < headLen + contentLen
  {
    var heap := l.heap[IMAGE_BUF := Filled(ImageSize(l))];
    if MIN_IMAGE_SIZE <= contentLen <= ImageSize(l) then
      var recvd := l.conn.recvIdx - headLen;
      Local(l.conn.(buf := IMAGE_BUF, recvIdx := recvd, toRecv := contentLen - recvd, capacity := ImageSize(l)), heap,
            Store(Some(l.conn.buf), headLen, recvd))
    else
      Local(l.conn.(closed := true), heap, l.store)
  }

  /** OnPostImage: fills the gap, answers, and gives the connection a buffer back. */
  function FinishImage(l: Local, contentLen: nat, k: Limits): Local
    requires Sane(l) && Resumable(l, k)
  {
    var g := l.store.gRecvBuf.value;
    var early := l.heap[g][l.store.gHeadLen..l.store.gHeadLen + l.store.gBodyLen];
    var queue := if MIN_IMAGE_SIZE <= contentLen <= ImageSize(l) then Put200(l.conn.queue, [], k.sendBufLen)
                 else Put400(l.conn.queue, [], k.sendBufLen);
    Local(l.conn.(queue := queue, buf := g, capacity := k.recvBufLen, http := l.conn.http.(state := Sending)),
          l.heap[IMAGE_BUF := Written(l.heap[IMAGE_BUF], 0, early)], l.store)
  }

  /** OnPostIncomplete */
  function PostIncomplete(l: Local, path: seq<byte>, headLen: nat, contentLen: nat): Local
    requires Sane(l) && headLen <= l.conn.recvIdx < headLen + contentLen
  {
    if path == IMAGE_PATH then
      BeginImage(l.(conn := l.conn.(http := l.conn.http.(whichIncomplete := Image))), headLen, contentLen)
    else if path == PARAM_PATH then
      var recvd := l.conn.recvIdx - headLen;
      l.(conn := l.conn.(http := l.conn.http.(whichIncomplete := Param),
                         recvIdx := recvd, toRecv := contentLen - recvd))
    else
      l.(conn := l.conn.(closed := true))
  }

  /** What OnRecvHead and ProcessHead note of a decision. */
  function Noted(s: Conn, d: Decision): Conn {
    match d
    case NeedMore => s.(http := s.http.(prevBufLen := s.recvIdx))
    case Begin(_, _, contentLen) => s.(http := s.http.(state := ReceivingBody, contentLen := contentLen))
    case _ => s
  }

  /** OnPostIncomplete, and what ProcessHead notes before it. */
  function BeginBody(l: Local, path: seq<byte>, headLen: nat, contentLen: nat): Local
    requires Sane(l) && headLen <= l.conn.recvIdx < headLen + contentLen
  {
    PostIncomplete(l.(conn := Noted(l.conn, Begin(path, headLen, contentLen))), path, headLen, contentLen)
  }

  /** AppOnRecv: `replies` is what the handler of a complete request writes, `waits` whether it begins to send periodic
      data. */
  function OwnReact(l: Local, replies: seq<seq<byte>>, waits: bool, k: Limits): Local
    requires Defined(l, k)
  {
    match l.conn.http.state
    case ReceivingHead =>
      (match Decided(l)
       case NeedMore => l.(conn := Noted(l.conn, NeedMore))
       case Refuse => l.(conn := l.conn.(closed := true))
       case Begin(path, headLen, contentLen) => BeginBody(l, path, headLen, contentLen)
       case Whole(path, _, contentLen) =>
         if path == IMAGE_PATH then FinishImage(l, contentLen, k)
         else l.(conn := Answered(l.conn, replies, Sending, k))
       case Get(_) => l.(conn := Answered(l.conn, replies, if waits then WaitSending else Sending, k)))
    case ReceivingBody =>
      if l.conn.recvIdx < l.conn.http.contentLen then l
      else if l.conn.http.whichIncomplete == Image then FinishImage(l, l.conn.http.contentLen, k)
      else l.(conn := Answered(l.conn, replies, Sending, k))
    case _ => l.(conn := l.conn.(closed := true))
  }

  // ---- The reaction as calls ----

  function Adds(replies: seq<seq<byte>>): (calls: seq<AppCall>)
    ensures |calls| == |replies| && forall i :: 0 <= i < |calls| ==> calls[i] == Add(replies[i])
  {
    seq(|replies|, i requires 0 <= i < |replies| => Add(replies[i]))
  }

  function FinishCalls(l: Local, contentLen: nat, k: Limits): seq<AppCall>
    requires Sane(l) && Resumable(l, k)
  {
    var answer := if MIN_IMAGE_SIZE <= contentLen <= ImageSize(l) then OK_CONTENT_LENGTH_RESPONSE
                  else BAD_REQUEST_CONTENT_LENGTH_RESPONSE;
    [Add(answer), Switch(l.store.gRecvBuf.value, k.recvBufLen), SetHttp(l.conn.http.(state := Sending))]
  }

  function BeginCalls(l: Local, path: seq<byte>, headLen: nat, contentLen: nat): seq<AppCall>
    requires Sane(l) && headLen <= l.conn.recvIdx < headLen + contentLen
  {
    var http := l.conn.http.(state := ReceivingBody, contentLen := contentLen);
    var recvd := l.conn.recvIdx - headLen;
    if path == IMAGE_PATH then
      if MIN_IMAGE_SIZE <= contentLen <= ImageSize(l) then
        [SetHttp(http.(whichIncomplete := Image)), Setup(contentLen, recvd), Switch(IMAGE_BUF, ImageSize(l))]
      else [SetHttp(http.(whichIncomplete := Image)), CloseConnection]
    else if path == PARAM_PATH then [SetHttp(http.(whichIncomplete := Param)), Setup(contentLen, recvd)]
    else [SetHttp(http), CloseConnection]
  }

  /** What AppOnRecv does to the connection, as calls the event loop knows. */
  function CallsOf(l: Local, replies: seq<seq<byte>>, waits: bool, k: Limits): seq<AppCall>
    requires Defined(l, k)
  {
    match l.conn.http.state
    case ReceivingHead =>
      (match Decided(l)
       case NeedMore => [SetHttp(l.conn.http.(prevBufLen := l.conn.recvIdx))]
       case Refuse => [CloseConnection]
       case Begin(path, headLen, contentLen) => BeginCalls(l, path, headLen, contentLen)
       case Whole(path, _, contentLen) =>
         if path == IMAGE_PATH then FinishCalls(l, contentLen, k)
         else Adds(replies) + [SetHttp(l.conn.http.(state := Sending))]
       case Get(_) => Adds(replies) + [SetHttp(l.conn.http.(state := if waits then WaitSending else Sending))])
    case ReceivingBody =>
      if l.conn.recvIdx < l.conn.http.contentLen then []
      else if l.conn.http.whichIncomplete == Image then FinishCalls(l, l.conn.http.contentLen, k)
      else Adds(replies) + [SetHttp(l.conn.http.(state := Sending))]
    case _ => [CloseConnection]
  }

  lemma LastCall(s: Conn, calls: seq<AppCall>, last: AppCall, k: Limits)
    ensures ApplyCalls(s, calls + [last], k) == ApplyCall(ApplyCalls(s, calls, k), last, k)
  {
    assert (calls + [last])[..|calls|] == calls;
  }

  lemma OneCall(s: Conn, a: AppCall, k: Limits)
    ensures ApplyCalls(s, [], k) == s && ApplyCalls(s, [a], k) == ApplyCall(s, a, k)
  {
    assert ApplyCalls(s, [], k) == s;
    assert [] + [a] == [a];
    LastCall(s, [], a, k);
  }

  lemma TwoCalls(s: Conn, a: AppCall, b: AppCall, k: Limits)
    ensures ApplyCalls(s, [a, b], k) == ApplyCall(ApplyCall(s, a, k), b, k)
  {
    assert [a, b] == [a] + [b];
    OneCall(s, a, k);
    LastCall(s, [a], b, k);
  }

  lemma ThreeCalls(s: Conn, a: AppCall, b: AppCall, c: AppCall, k: Limits)
    ensures ApplyCalls(s, [a, b, c], k) == ApplyCall(ApplyCall(ApplyCall(s, a, k), b, k), c, k)
  {
    assert [a, b, c] == [a, b] + [c];
    TwoCalls(s, a, b, k);
    LastCall(s, [a, b], c, k);
  }

  lemma {:induction false} AddCalls(s: Conn, replies: seq<seq<byte>>, k: Limits)
    ensures ApplyCalls(s, Adds(replies), k) == s.(queue := PutAll(s.queue, replies, k.sendBufLen))
    decreases |replies|
  {
    if replies != [] {
      var front, last := replies[..|replies| - 1], replies[|replies| - 1];
      AddCalls(s, front, k);
      assert Adds(replies) == Adds(front) + [Add(last)];
      LastCall(s, Adds(front), Add(last), k);
    }
  }

  lemma AnswerCalls(s: Conn, replies: seq<seq<byte>>, state: HttpConnState, k: Limits)
    ensures ApplyCalls(s, Adds(replies) + [SetHttp(s.http.(state := state))], k) == Answered(s, replies, state, k)
  {
    hide PutAll;
    AddCalls(s, replies, k);
    LastCall(s, Adds(replies), SetHttp(s.http.(state := state)), k);
  }

  lemma FinishIsCalls(l: Local, contentLen: nat, k: Limits)
    requires Sane(l) && Resumable(l, k)
    ensures ApplyCalls(l.conn, FinishCalls(l, contentLen, k), k) == FinishImage(l, contentLen, k).conn
  {
    var calls := FinishCalls(l, contentLen, k);
    hide Put, ApplyCalls;
    ThreeCalls(l.conn, calls[0], calls[1], calls[2], k);
  }

  lemma BeginIsCalls(l: Local, path: seq<byte>, headLen: nat, contentLen: nat, k: Limits)
    requires Sane(l) && headLen <= l.conn.recvIdx < headLen + contentLen
    ensures ApplyCalls(l.conn, BeginCalls(l, path, headLen, contentLen), k) ==
            BeginBody(l, path, headLen, contentLen).conn
  {
    var calls := BeginCalls(l, path, headLen, contentLen);
    hide ApplyCalls;
    if |calls| == 2 {
      TwoCalls(l.conn, calls[0], calls[1], k);
    } else {
      ThreeCalls(l.conn, calls[0], calls[1], calls[2], k);
    }
  }

  /** The application is one of those the event loop is proved for: its reaction is a sequence of calls. */
  lemma OwnReactionIsCalls(l: Local, replies: seq<seq<byte>>, waits: bool, k: Limits)
    requires Defined(l, k)
    ensures ApplyCalls(l.conn, CallsOf(l, replies, waits, k), k) == OwnReact(l, replies, waits, k).conn
  {
    hide Decide, ApplyCalls, PutAll, Put200, Put400, Resumable;
    var s := l.conn;
    OneCall(s, CloseConnection, k);
    match s.http.state {
      case ReceivingHead =>
        match Decided(l) {
          case NeedMore => OneCall(s, SetHttp(s.http.(prevBufLen := s.recvIdx)), k);
          case Refuse =>
          case Begin(path, headLen, contentLen) => BeginIsCalls(l, path, headLen, contentLen, k);
          case Whole(path, _, contentLen) =>
            if path == IMAGE_PATH {
              FinishIsCalls(l, contentLen, k);
            } else {
              AnswerCalls(s, replies, Sending, k);
            }
          case Get(_) => AnswerCalls(s, replies, if waits then WaitSending else Sending, k);
        }
      case ReceivingBody =>
        if s.recvIdx >= s.http.contentLen {
          if s.http.whichIncomplete == Image {
            FinishIsCalls(l, s.http.contentLen, k);
          } else {
            AnswerCalls(s, replies, Sending, k);
          }
        }
      case _ =>
    }
  }
}
