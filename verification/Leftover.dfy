/** What a connection remembers of an earlier request, and a node of an earlier connection: neither AppOnSend nor
    CheckToAccept resets it. When this matters for the next request, and that it does come about. */
module Leftover {
  import opened Bytes
  import opened HeadSpec
  import opened Connection
  import opened EventLoop
  import opened ServerApp
  import opened AppSpec
  import opened World
  import opened Requests
  import HeadReceive
  import HeadRefusal
  import HeadWindow
  import SendQueue

  // ---- Several turns of one connection ----

  function Turns(l: Local, events: seq<Event>, k: Limits): Outcome<Local>
    requires LocalBacked(l)
    decreases |events|
  {
    if events == [] then Going(l)
    else
      match Turned(l, events[0], k)
      case Going(m) =>
        TurnKeepsBacked(l, events[0], k);
        Turns(m, events[1..], k)
      case other => other
  }

  lemma NextTurnOf(l: Local, e: Event, rest: seq<Event>, k: Limits)
    requires LocalBacked(l) && Turned(l, e, k).Going?
    ensures LocalBacked(Turned(l, e, k).value)
    ensures Turns(l, [e] + rest, k) == Turns(Turned(l, e, k).value, rest, k)
  {
    TurnKeepsBacked(l, e, k);
    assert ([e] + rest)[1..] == rest;
  }

  lemma TwoTurns(l: Local, e: Event, next: Event, k: Limits)
    requires LocalBacked(l) && Turned(l, e, k).Going?
    ensures LocalBacked(Turned(l, e, k).value)
    ensures Turns(l, [e, next], k) == Turned(Turned(l, e, k).value, next, k)
  {
    hide Turned;
    TurnKeepsBacked(l, e, k);
    var m := Turned(l, e, k).value;
    assert [e, next][1..] == [next] && [next][1..] == [];
    assert [e, next][0] == e && [next][0] == next;
    if Turned(m, next, k).Going? {
      TurnKeepsBacked(m, next, k);
    }
    assert Turns(m, [next], k) == Turned(m, next, k);
  }

  const READABLE: Revents := Revents(false, true, false, false)
  const WRITABLE: Revents := Revents(false, false, true, false)

  /** recv() brings `bytes`, and the application's own code looks at them. */
  function Incoming(bytes: seq<byte>, replies: seq<seq<byte>>): Event {
    Event(READABLE, Data(bytes), Own(replies, false), WouldBlock)
  }

  /** send() takes `n` bytes. */
  function Outgoing(n: nat): Event {
    Event(WRITABLE, NothingYet, Own([], false), Count(n))
  }

  /** An open connection that waits for a request, with nothing received of it and nothing to send. It remembers `p`. */
  predicate AwaitsRequest(l: Local, p: nat, k: Limits) {
    && LocalBacked(l) && !l.conn.closed && l.conn.http.state == ReceivingHead && l.conn.http.prevBufLen == p
    && l.conn.recvIdx == 0 && l.conn.toRecv == k.recvBufLen <= l.conn.capacity && l.conn.queue.pending == []
  }

  /** `n` bytes of a head have arrived. */
  predicate HasReceived(l: Local, stream: seq<byte>, n: nat, k: Limits) {
    && LocalBacked(l) && !l.conn.closed && l.conn.http.state == ReceivingHead && l.conn.http.prevBufLen == n
    && l.conn.recvIdx == n <= |stream| && l.conn.toRecv == k.recvBufLen - n
    && k.recvBufLen <= l.conn.capacity && l.conn.queue.pending == []
    && l.heap[l.conn.buf][..n] == stream[..n]
  }

  lemma ArrivedAtFront(l: Local, got: seq<byte>, stream: seq<byte>, n: nat)
    requires LocalBacked(l) && l.conn.recvIdx == n && |got| <= l.conn.toRecv && !Overcommitted(l.conn)
    requires n + |got| <= |stream| && got == stream[n..n + |got|] && l.heap[l.conn.buf][..n] == stream[..n]
    ensures Arrived(l, got).heap[l.conn.buf][..n + |got|] == stream[..n + |got|]
  {
    var b := Written(l.heap[l.conn.buf], n, got);
    assert b[..n] == stream[..n];
    assert b[..n + |got|] == b[..n] + b[n..n + |got|];
    assert stream[..n + |got|] == stream[..n] + stream[n..n + |got|];
  }

  /** The connection's receive buffer. */
  function Mem(l: Local): seq<byte>
    requires LocalBacked(l)
  {
    l.heap[l.conn.buf]
  }

  /** The receive buffer with `got` at its front. */
  function MemWith(l: Local, got: seq<byte>): seq<byte>
    requires LocalBacked(l) && |got| <= l.conn.capacity
  {
    Written(l.heap[l.conn.buf], 0, got)
  }

  /** The first bytes of a head. */
  lemma FirstPiece(l: Local, p: nat, stream: seq<byte>, m: seq<byte>, path: seq<byte>, headLen: nat, contentLen: nat,
                   n: nat, k: Limits)
    requires AwaitsRequest(l, p, k) && IsRequest(stream, m, path, headLen, contentLen)
    requires 0 < n < headLen <= k.recvBufLen && headLen <= |stream|
    requires HeadReceive.Harmless(MemWith(l, stream[..n]), headLen, p, n)
    ensures var o := Turned(l, Incoming(stream[..n], []), k);
            && o.Going? && HasReceived(o.value, stream, n, k) && o.value.conn.queue == l.conn.queue
            && SameElsewhere(l, o.value) && Mem(o.value) == MemWith(l, stream[..n])
            && o.value.conn.capacity == l.conn.capacity
  {
    hide IsRequest, Decide, ParseRequest, HeadReceive.Harmless, Readable, Written;
    assert Got(l.conn, stream[..n]) == stream[..n];
    var a := Arrived(l, stream[..n]);
    assert l.heap[l.conn.buf][..0] == stream[..0] && stream[..n] == stream[0..n];
    ArrivedAtFront(l, stream[..n], stream, 0);
    DecideExactly(Mem(a), stream, m, path, headLen, contentLen, n, p);
    assert Decided(a) == NeedMore;
  }

  /** The same buffer, and nothing else has changed in the others and the globals. */
  predicate SameElsewhere(l: Local, m: Local)
    requires LocalBacked(l)
  {
    m.conn.buf == l.conn.buf && LocalBacked(m) && m.heap == l.heap[l.conn.buf := Mem(m)] && m.store == l.store
  }

  lemma ParsedLength(stream: seq<byte>, m: seq<byte>, path: seq<byte>, headLen: nat, contentLen: nat)
    requires IsRequest(stream, m, path, headLen, contentLen)
    ensures ParseRequest(stream, MAX_HDR_NUM).Ok? && ParseRequest(stream, MAX_HDR_NUM).pos == headLen
  {
  }

  /** The rest of the head: it is answered. */
  lemma LastPiece(l: Local, stream: seq<byte>, path: seq<byte>, headLen: nat, n: nat, replies: seq<seq<byte>>,
                  k: Limits)
    requires HasReceived(l, stream, n, k) && IsRequest(stream, GET, path, headLen, 0)
    requires n < headLen <= |stream| && headLen <= k.recvBufLen
    ensures var o := Turned(l, Incoming(stream[n..headLen], replies), k);
            && o.Going? && LocalBacked(o.value) && !o.value.conn.closed && o.value.conn.http.state == Sending
            && o.value.conn.http.prevBufLen == n && k.recvBufLen <= o.value.conn.capacity
            && o.value.conn.queue == SendQueue.PutAll(l.conn.queue, replies, k.sendBufLen)
            && SameElsewhere(l, o.value) && Mem(o.value) == Written(Mem(l), n, stream[n..headLen])
  {
    hide IsRequest, Decide, ParseRequest, IsComplete, Written, SendQueue.PutAll;
    var got := stream[n..headLen];
    assert Got(l.conn, got) == got;
    var a := Arrived(l, got);
    ArrivedAtFront(l, got, stream, n);
    ParsedLength(stream, GET, path, headLen, 0);
    DecideExactly(Mem(a), stream, GET, path, headLen, 0, headLen, n);
    assert Decided(a) == Get(path);
  }

  /** The answer is sent: what the parser had seen of the old request is still remembered. */
  lemma AnswerSent(l: Local, k: Limits)
    requires LocalBacked(l) && !l.conn.closed && l.conn.http.state == Sending && k.recvBufLen <= l.conn.capacity
    requires l.conn.queue.pending != []
    ensures var o := Turned(l, Outgoing(|l.conn.queue.pending|), k);
            && o.Going? && AwaitsRequest(o.value, l.conn.http.prevBufLen, k)
            && o.value.heap == l.heap && o.value.store == l.store && o.value.conn.buf == l.conn.buf
  {
  }

  /** A GET request: the first `n` bytes of its head, the others, and all of the answer. */
  function TwoPieceGet(l: Local, stream: seq<byte>, headLen: nat, n: nat, replies: seq<seq<byte>>, k: Limits)
    : seq<Event>
    requires n <= headLen <= |stream|
  {
    [Incoming(stream[..n], []), Incoming(stream[n..headLen], replies),
     Outgoing(|SendQueue.PutAll(l.conn.queue, replies, k.sendBufLen).pending|)]
  }

  /** Every GET request whose head arrives as its first `n` bytes and then the rest leaves `n` behind, once it is
      answered: the connection is ready for the next request, still remembers `n` bytes, and its receive buffer still
      holds the head. */
  lemma LeavesLeftover(l: Local, p: nat, stream: seq<byte>, path: seq<byte>, headLen: nat, n: nat,
                       replies: seq<seq<byte>>, k: Limits)
    requires AwaitsRequest(l, p, k) && IsRequest(stream, GET, path, headLen, 0)
    requires 0 < n < headLen <= k.recvBufLen && headLen <= |stream|
    requires HeadReceive.Harmless(MemWith(l, stream[..n]), headLen, p, n)
    requires SendQueue.PutAll(l.conn.queue, replies, k.sendBufLen).pending != []
    ensures var o := Turns(l, TwoPieceGet(l, stream, headLen, n, replies, k), k);
            && o.Going? && AwaitsRequest(o.value, n, k) && SameElsewhere(l, o.value)
            && Mem(o.value) == MemWith(l, stream[..headLen])
  {
    hide IsRequest, Turned, SendQueue.PutAll, HeadReceive.Harmless, Written;
    FirstPiece(l, p, stream, GET, path, headLen, 0, n, k);
    var e1 := Incoming(stream[..n], []);
    var l1 := Turned(l, e1, k).value;
    LastPiece(l1, stream, path, headLen, n, replies, k);
    var e2 := Incoming(stream[n..headLen], replies);
    var l2 := Turned(l1, e2, k).value;
    AnswerSent(l2, k);
    var e3 := Outgoing(|l2.conn.queue.pending|);
    var events := TwoPieceGet(l, stream, headLen, n, replies, k);
    assert events == [e1] + [e2, e3] && [e2, e3] == [e2] + [e3] && [e3] == [e3] + [];
    NextTurnOf(l, e1, [e2, e3], k);
    NextTurnOf(l1, e2, [e3], k);
    NextTurnOf(l2, e3, [], k);
    WrittenTwice(Mem(l), stream[..n], stream[n..headLen]);
    assert stream[..n] + stream[n..headLen] == stream[..headLen];
  }

  lemma WrittenTwice(mem: seq<byte>, a: seq<byte>, b: seq<byte>)
    requires |a| + |b| <= |mem|
    ensures Written(Written(mem, 0, a), |a|, b) == Written(mem, 0, a + b)
  {
  }

  /** Two memories that agree up to the end of a blank line. */
  lemma {:induction false} ScanAgrees(a: seq<byte>, b: seq<byte>, i: nat, lineEnds: nat, end: nat)
    requires ScanComplete(a, i, lineEnds).Ok? && ScanComplete(a, i, lineEnds).pos <= end <= |a| && end <= |b|
    requires forall x :: i <= x < end ==> a[x] == b[x]
    ensures ScanComplete(b, i, lineEnds) == ScanComplete(a, i, lineEnds)
    decreases |a| - i
  {
    var (next, isEnd) := (NewLine(a, i).pos, NewLine(a, i).val);
    assert NewLine(b, i) == NewLine(a, i);
    if !isEnd {
      ScanAgrees(a, b, i + 1, 0, end);
    } else if lineEnds + 1 != 2 {
      ScanAgrees(a, b, next, lineEnds + 1, end);
    }
  }

  /** A head of which less than the first `n` bytes have been overwritten still ends in its blank line for a scan that
      starts three bytes before `n`. */
  lemma OldHeadIsFound(mem: seq<byte>, stream: seq<byte>, headLen: nat, n: nat, over: nat, maxHeaders: nat)
    requires ParseRequest(stream, maxHeaders).Ok? && ParseRequest(stream, maxHeaders).pos == headLen <= |mem|
    requires over + 3 <= n < headLen && forall x :: over <= x < headLen ==> mem[x] == stream[x]
    ensures ScanComplete(mem, n - 3, 0).Ok?
  {
    hide ParseRequest, ScanComplete;
    HeadReceive.FromTheEnd(stream, headLen, n, maxHeaders);
    HeadWindow.ParsedHeadEndsAtBlankLine(stream, maxHeaders);
    HeadReceive.BeforeTheEnd(stream, n, n, maxHeaders);
    HeadWindow.WindowIsSound(stream, n);
    ScanAgrees(stream, mem, n - 3, 0, headLen);
  }

  // ---- The next request ----

  /** The next request on the connection, of which `n` bytes arrive first: the code stays inside its receive buffer and
      decides what it should if and only if what is remembered is harmless. It is undefined exactly when the scan starts
      behind these bytes and runs off the end of the buffer, or when OnPostImage is called in vain. */
  lemma NextRequest(l: Local, p: nat, stream: seq<byte>, m: seq<byte>, path: seq<byte>, headLen: nat, contentLen: nat,
                    n: nat, replies: seq<seq<byte>>, k: Limits)
    requires AwaitsRequest(l, p, k) && IsRequest(stream, m, path, headLen, contentLen)
    requires 0 < n <= |stream| && n <= k.recvBufLen
    ensures var a, mem := Arrived(l, stream[..n]), MemWith(l, stream[..n]);
            && Sane(a)
            && (Readable(mem, n, p) && Decided(a) == Expected(m, path, headLen, contentLen, n) <==>
                  HeadReceive.Harmless(mem, headLen, p, n))
            && (Turned(l, Incoming(stream[..n], replies), k).Undefined? <==>
                  (n + 3 < p && ScanComplete(Mem(l), p - 3, 0).Partial?) || (FinishesImage(a) && !Resumable(a, k)))
  {
    hide IsRequest, Decide, IsComplete, Resumable, HeadReceive.Harmless, Readable, Written, ScanComplete, Turned;
    assert l.heap[l.conn.buf][..0] == stream[..0] && stream[..n] == stream[0..n];
    ArrivedAtFront(l, stream[..n], stream, 0);
    DecideExactly(MemWith(l, stream[..n]), stream, m, path, headLen, contentLen, n, p);
    UndefinedExactly(l, p, stream[..n], replies, k);
  }

  lemma UndefinedExactly(l: Local, p: nat, got: seq<byte>, replies: seq<seq<byte>>, k: Limits)
    requires AwaitsRequest(l, p, k) && 0 < |got| <= k.recvBufLen
    ensures var a := Arrived(l, got);
            && Sane(a)
            && (Turned(l, Incoming(got, replies), k).Undefined? <==>
                  (|got| + 3 < p && ScanComplete(Mem(l), p - 3, 0).Partial?) || (FinishesImage(a) && !Resumable(a, k)))
  {
    hide Decide, Resumable, OwnReact, ScanComplete;
    assert Got(l.conn, got) == got;
    if |got| + 3 < p {
      SameTail(Mem(l), MemWith(l, got), p - 3, 0);
    }
  }

  /** A scan sees nothing of what stands before its start. */
  lemma {:induction false} SameTail(a: seq<byte>, b: seq<byte>, i: nat, lineEnds: nat)
    requires |a| == |b| && forall x :: i <= x < |a| ==> a[x] == b[x]
    ensures ScanComplete(b, i, lineEnds) == ScanComplete(a, i, lineEnds)
    decreases |a| - i
  {
    assert NewLine(b, i) == NewLine(a, i);
    if NewLine(a, i).Ok? {
      if !NewLine(a, i).val {
        SameTail(a, b, i + 1, 0);
      } else if lineEnds + 1 != 2 {
        SameTail(a, b, NewLine(a, i).pos, lineEnds + 1);
      }
    }
  }

  /** The second request after a GET whose head came in two pieces: as long as what comes first of it ends more than
      three bytes before where the first head was cut, is_complete starts behind it, in the old head, and finds the
      blank line of that; so the decision is the right one. */
  lemma SecondRequest(l: Local, p: nat, stream: seq<byte>, path: seq<byte>, headLen: nat, n: nat,
                      replies: seq<seq<byte>>, second: seq<byte>, m: seq<byte>, path2: seq<byte>, headLen2: nat,
                      contentLen2: nat, n2: nat, k: Limits)
    requires AwaitsRequest(l, p, k) && IsRequest(stream, GET, path, headLen, 0)
    requires 0 < n < headLen <= k.recvBufLen && headLen <= |stream|
    requires HeadReceive.Harmless(MemWith(l, stream[..n]), headLen, p, n)
    requires SendQueue.PutAll(l.conn.queue, replies, k.sendBufLen).pending != []
    requires IsRequest(second, m, path2, headLen2, contentLen2) && 0 < n2 <= |second| && n2 + 3 < n
    ensures var o := Turns(l, TwoPieceGet(l, stream, headLen, n, replies, k), k);
            && o.Going? && AwaitsRequest(o.value, n, k)
            && var a := Arrived(o.value, second[..n2]);
               Sane(a) && Readable(Mem(a), n2, n) && Decided(a) == Expected(m, path2, headLen2, contentLen2, n2)
  {
    LeavesLeftover(l, p, stream, path, headLen, n, replies, k);
    var o := Turns(l, TwoPieceGet(l, stream, headLen, n, replies, k), k);
    ParsedLength(stream, GET, path, headLen, 0);
    var mem := MemWith(o.value, second[..n2]);
    assert forall x :: n2 <= x < headLen ==> mem[x] == stream[x];
    OldHeadIsFound(mem, stream, headLen, n, n2, MAX_HDR_NUM);
    hide IsRequest, Turns, TwoPieceGet, Decide, ParseRequest, Written;
    NextRequest(o.value, n, second, m, path2, headLen2, contentLen2, n2, [], k);
  }

  /** The first request on a connection in a reused node that still holds `http`. It is read as a head if and only if
      the earlier connection ended while receiving one. Then it is decided upon as it should be if and only if what is
      remembered is harmless, and the code is undefined exactly when the scan starts behind what has arrived and runs
      off the end of the new buffer, or OnPostImage is called in vain. Otherwise the connection is closed, or its
      bytes are taken for those of a body. */
  lemma ReusedNode(fd: nat, http: HttpState, buf: nat, heap: seq<seq<byte>>, store: Store, stream: seq<byte>,
                   m: seq<byte>, path: seq<byte>, headLen: nat, contentLen: nat, n: nat, replies: seq<seq<byte>>,
                   k: Limits)
    requires IMAGE_BUF < |heap| && buf < |heap| && k.recvBufLen <= |heap[buf]|
    requires IsRequest(stream, m, path, headLen, contentLen) && 0 < n <= |stream| && n <= k.recvBufLen
    ensures var l := Local(NewConn(fd, http, buf, k), heap, store);
            var a, o := Arrived(l, stream[..n]), Turned(l, Incoming(stream[..n], replies), k);
            var mem, p := MemWith(l, stream[..n]), http.prevBufLen;
            match http.state
            case ReceivingHead =>
              && Sane(a)
              && (Readable(mem, n, p) && Decided(a) == Expected(m, path, headLen, contentLen, n) <==>
                    HeadReceive.Harmless(mem, headLen, p, n))
              && (o.Undefined? <==>
                    (n + 3 < p && ScanComplete(heap[buf], p - 3, 0).Partial?) || (FinishesImage(a) && !Resumable(a, k)))
            case ReceivingBody =>
              if n < http.contentLen then o == if n == k.recvBufLen then AssertionFailed else Going(a)
              else if http.whichIncomplete == Param then o == Going(a.(conn := Answered(a.conn, replies, Sending, k)))
              else o == if Resumable(a, k) then Going(FinishImage(a, http.contentLen, k)) else Undefined
            case _ => o == Going(a.(conn := a.conn.(closed := true)))
  {
    hide IsRequest, Decide, IsComplete, Written, Answered, FinishImage, Resumable, HeadReceive.Harmless, Readable;
    var l := Local(NewConn(fd, http, buf, k), heap, store);
    assert Got(l.conn, stream[..n]) == stream[..n];
    if http.state == ReceivingHead {
      assert AwaitsRequest(l, http.prevBufLen, k);
      NextRequest(l, http.prevBufLen, stream, m, path, headLen, contentLen, n, replies, k);
    }
  }

  // ---- After a body that came in parts ----

  /** A POST to /param: the first `n` bytes of its head, the rest of the head with `j` bytes of the body, the rest of
      the body, and all of the answer. */
  function ThreePieceParam(l: Local, stream: seq<byte>, headLen: nat, n: nat, j: nat, replies: seq<seq<byte>>,
                           k: Limits): seq<Event>
    requires n <= headLen <= headLen + j <= |stream|
  {
    [Incoming(stream[..n], []), Incoming(stream[n..headLen + j], []), Incoming(stream[headLen + j..], replies),
     Outgoing(|SendQueue.PutAll(l.conn.queue, replies, k.sendBufLen).pending|)]
  }

  lemma ParamBegins(l: Local, stream: seq<byte>, headLen: nat, contentLen: nat, n: nat, j: nat, k: Limits)
    requires HasReceived(l, stream, n, k) && IsRequest(stream, POST, PARAM_PATH, headLen, contentLen)
    requires |stream| == headLen + contentLen && n < headLen && j < contentLen <= k.recvBufLen
    requires headLen + j <= k.recvBufLen
    ensures var o := Turned(l, Incoming(stream[n..headLen + j], []), k);
            && o.Going? && SameElsewhere(l, o.value) && Mem(o.value) == Written(Mem(l), n, stream[n..headLen + j])
            && var s := o.value.conn;
               && !s.closed && s.http == HttpState(ReceivingBody, Param, n, contentLen) && s.queue == l.conn.queue
               && s.recvIdx == j && s.toRecv == contentLen - j && k.recvBufLen <= s.capacity
  {
    hide IsRequest, Decide, ParseRequest, IsComplete, Written;
    var got := stream[n..headLen + j];
    assert Got(l.conn, got) == got;
    var a := Arrived(l, got);
    ArrivedAtFront(l, got, stream, n);
    DecideExactly(Mem(a), stream, POST, PARAM_PATH, headLen, contentLen, headLen + j, n);
    assert POST != GET && IMAGE_PATH[1] != PARAM_PATH[1];
    assert Decided(a) == Begin(PARAM_PATH, headLen, contentLen);
  }

  lemma ParamEnds(l: Local, contentLen: nat, n: nat, j: nat, rest: seq<byte>, replies: seq<seq<byte>>, k: Limits)
    requires LocalBacked(l) && !l.conn.closed && l.conn.http == HttpState(ReceivingBody, Param, n, contentLen)
    requires l.conn.recvIdx == j && l.conn.toRecv == contentLen - j == |rest| > 0 && contentLen <= k.recvBufLen
    requires k.recvBufLen <= l.conn.capacity && l.conn.queue.pending == []
    ensures var o := Turned(l, Incoming(rest, replies), k);
            && o.Going? && SameElsewhere(l, o.value) && Mem(o.value) == Written(Mem(l), j, rest)
            && !o.value.conn.closed && o.value.conn.http.state == Sending && o.value.conn.http.prevBufLen == n
            && k.recvBufLen <= o.value.conn.capacity
            && o.value.conn.queue == SendQueue.PutAll(l.conn.queue, replies, k.sendBufLen)
  {
    hide Decide, Written, SendQueue.PutAll;
    assert Got(l.conn, rest) == rest;
  }

  /** Every such request leaves `n` behind too; but the body has been written over the front of the receive buffer,
      behind as many bytes of the head as had come of the body with the head. So the head may no longer be there. */
  lemma ParamLeavesBody(l: Local, p: nat, stream: seq<byte>, headLen: nat, contentLen: nat, n: nat, j: nat,
                        replies: seq<seq<byte>>, k: Limits)
    requires AwaitsRequest(l, p, k) && IsRequest(stream, POST, PARAM_PATH, headLen, contentLen)
    requires |stream| == headLen + contentLen && 0 < n < headLen && j < contentLen <= k.recvBufLen
    requires headLen + j <= k.recvBufLen && HeadReceive.Harmless(MemWith(l, stream[..n]), headLen, p, n)
    requires SendQueue.PutAll(l.conn.queue, replies, k.sendBufLen).pending != []
    ensures var o := Turns(l, ThreePieceParam(l, stream, headLen, n, j, replies, k), k);
            && o.Going? && AwaitsRequest(o.value, n, k)
            && Mem(o.value) == Written(MemWith(l, stream[..headLen + j]), j, stream[headLen + j..])
  {
    hide IsRequest, Turned, SendQueue.PutAll, HeadReceive.Harmless, Written;
    var e1, e2 := Incoming(stream[..n], []), Incoming(stream[n..headLen + j], []);
    var e3 := Incoming(stream[headLen + j..], replies);
    FirstPiece(l, p, stream, POST, PARAM_PATH, headLen, contentLen, n, k);
    var l1 := Turned(l, e1, k).value;
    ParamBegins(l1, stream, headLen, contentLen, n, j, k);
    var l2 := Turned(l1, e2, k).value;
    ParamEnds(l2, contentLen, n, j, stream[headLen + j..], replies, k);
    var l3 := Turned(l2, e3, k).value;
    AnswerSent(l3, k);
    var e4 := Outgoing(|l3.conn.queue.pending|);
    assert ThreePieceParam(l, stream, headLen, n, j, replies, k) == [e1] + ([e2] + ([e3] + ([e4] + [])));
    NextTurnOf(l, e1, [e2] + ([e3] + ([e4] + [])), k);
    NextTurnOf(l1, e2, [e3] + ([e4] + []), k);
    NextTurnOf(l2, e3, [e4] + [], k);
    NextTurnOf(l3, e4, [], k);
    WrittenTwice(Mem(l), stream[..n], stream[n..headLen + j]);
    assert stream[..n] + stream[n..headLen + j] == stream[..headLen + j];
  }

  /** Then the next request is undefined exactly when the scan starts behind what comes first of it, and what the body
      has left of the buffer holds neither a blank line nor a stray CR from there on. */
  lemma AfterParam(l: Local, p: nat, stream: seq<byte>, headLen: nat, contentLen: nat, n: nat, j: nat,
                   replies: seq<seq<byte>>, second: seq<byte>, path: seq<byte>, headLen2: nat, n2: nat, k: Limits)
    requires AwaitsRequest(l, p, k) && IsRequest(stream, POST, PARAM_PATH, headLen, contentLen)
    requires |stream| == headLen + contentLen && 0 < n < headLen && j < contentLen <= k.recvBufLen
    requires headLen + j <= k.recvBufLen && HeadReceive.Harmless(MemWith(l, stream[..n]), headLen, p, n)
    requires SendQueue.PutAll(l.conn.queue, replies, k.sendBufLen).pending != []
    requires IsRequest(second, GET, path, headLen2, 0) && 0 < n2 <= |second| && n2 <= k.recvBufLen
    ensures var o := Turns(l, ThreePieceParam(l, stream, headLen, n, j, replies, k), k);
            var left := Written(MemWith(l, stream[..headLen + j]), j, stream[headLen + j..]);
            && o.Going? && LocalBacked(o.value)
            && (Turned(o.value, Incoming(second[..n2], []), k).Undefined? <==>
                  n2 + 3 < n && ScanComplete(left, n - 3, 0).Partial?)
  {
    hide IsRequest, Turns, ThreePieceParam, SendQueue.PutAll, HeadReceive.Harmless, Written, Turned, Decide;
    hide ScanComplete;
    ParamLeavesBody(l, p, stream, headLen, contentLen, n, j, replies, k);
    var o := Turns(l, ThreePieceParam(l, stream, headLen, n, j, replies, k), k);
    NextRequest(o.value, n, second, GET, path, headLen2, 0, n2, [], k);
    GetIsNoImage(o.value, second, path, headLen2, n, n2, k);
  }

  /** As happens when the body fills the buffer and has no line end. */
  lemma BodyHidesHead(mem: seq<byte>, stream: seq<byte>, headLen: nat, n: nat, j: nat)
    requires j + 3 <= n && headLen + j <= |mem| && |stream| == headLen + |mem| && HeadRefusal.NoLineEnd(stream, headLen)
    ensures ScanComplete(Written(Written(mem, 0, stream[..headLen + j]), j, stream[headLen + j..]), n - 3, 0).Partial?
  {
    var left := Written(Written(mem, 0, stream[..headLen + j]), j, stream[headLen + j..]);
    var body := stream[headLen + j..];
    assert forall x :: j <= x < |left| ==> left[x] == left[j..j + |body|][x - j] == stream[headLen + x];
    HeadRefusal.ScanWithoutLineEnd(left, n - 3, 0);
  }

  lemma GetIsNoImage(l: Local, stream: seq<byte>, path: seq<byte>, headLen: nat, p: nat, n: nat, k: Limits)
    requires AwaitsRequest(l, p, k) && IsRequest(stream, GET, path, headLen, 0)
    requires 0 < n <= |stream| && n <= k.recvBufLen
    ensures Sane(Arrived(l, stream[..n])) && !FinishesImage(Arrived(l, stream[..n]))
  {
    hide IsRequest, HeadReceive.Harmless, RequestIn, ParseRequest;
    var mem := MemWith(l, stream[..n]);
    AcceptsParsed(mem, n, p);
    if RequestIn(mem, n, MAX_HDR_NUM, p).Ok? {
      HeadReceive.FromPrefix(stream, n, MAX_HDR_NUM);
      ParsedLength(stream, GET, path, headLen, 0);
      DecideParsed(stream, GET, path, headLen, 0, n);
    }
  }

  // ---- Which node is reused ----

  /** The HTTP state of the last connection that is closed. */
  function LastClosed(cs: seq<Conn>): Option<HttpState> {
    if cs == [] then None
    else if LastClosed(cs[1..]).Some? then LastClosed(cs[1..])
    else if cs[0].closed then Some(cs[0].http)
    else None
  }

  lemma {:induction false} ReleasedFirst(cs: seq<Conn>, stale: seq<HttpState>)
    ensures LastClosed(cs).Some? ==> Released(cs, stale) != [] && Released(cs, stale)[0] == LastClosed(cs).value
    ensures LastClosed(cs).None? ==> Released(cs, stale) == stale
    decreases |cs|
  {
    if cs != [] {
      ReleasedFirst(cs[1..], if cs[0].closed then [cs[0].http] + stale else stale);
    }
  }

  /** An accepted connection gets the node that was closed last, with the HTTP state it had then. */
  lemma GetsTheLastClosed(w: World, round: LoopRound, after: World, k: Limits)
    requires WorldStep(w, round, after, k) && AcceptedIn(round).Some?
    requires LastClosed(Happened(w, round, k).value.conns).Some?
    ensures |after.conns| > 0
    ensures after.conns[|after.conns| - 1] ==
            NewConn(AcceptedIn(round).value, LastClosed(Happened(w, round, k).value.conns).value, |w.heap|, k)
  {
    hide Happened, Released, KeepOpen, LastClosed;
    var v := Happened(w, round, k).value;
    ReleasedFirst(v.conns, v.stale);
    HeapGrows(w, round, k);
  }

  lemma HeapGrows(w: World, round: LoopRound, k: Limits)
    requires AllBacked(w) && !round.PollError? && Happened(w, round, k).Going?
    ensures SameSizes(w.heap, Happened(w, round, k).value.heap)
  {
  }
}
