/** The event loop with its own application, over whole runs: how much the connections may still receive, and when the
    assertion in DoRecv fails. */
module OwnRun {
  import opened Bytes
  import opened Connection
  import opened EventLoop
  import opened ServerApp
  import opened AppSpec
  import opened World
  import SendQueue

  /** What is still to come fits the receive buffer. The capacity is RECV_BUF_LEN, except during an upload. */
  predicate OwnFits(s: Conn, imageSize: nat, k: Limits) {
    && (|| s.capacity == k.recvBufLen
        || (s.capacity == imageSize && s.http.state == ReceivingBody && s.http.whichIncomplete == Image))
    && (|| s.toRecv == 0
        || s.recvIdx + s.toRecv <= k.recvBufLen
        || (s.http.state == ReceivingBody
            && s.recvIdx + s.toRecv <= s.http.contentLen && s.recvIdx + s.toRecv <= s.capacity))
  }

  /** A POST to /param has been begun whose body is longer than the receive buffer. */
  predicate AwaitsLongParam(s: Conn, k: Limits) {
    && s.http.state == ReceivingBody && s.http.whichIncomplete == Param
    && s.capacity == k.recvBufLen < s.http.contentLen
    && s.toRecv > 0 && s.recvIdx + s.toRecv == s.http.contentLen
  }

  /** There is more to receive as long as the body of a request is not complete. */
  predicate IsFed(s: Conn) {
    s.http.state == ReceivingBody ==> s.http.contentLen <= s.recvIdx + s.toRecv
  }

  /** The node was reused while its HTTP state said that a body longer than the receive buffer was being received. */
  predicate IsStale(s: Conn, k: Limits) {
    s.http.state == ReceivingBody && s.recvIdx + s.toRecv == k.recvBufLen < s.http.contentLen
  }

  /** What holds of a connection at every loop head. */
  predicate InHand(s: Conn, imageSize: nat, k: Limits) {
    (OwnFits(s, imageSize, k) || AwaitsLongParam(s, k)) && (IsFed(s) || IsStale(s, k))
  }

  /** The same when the connection has had its turn; it may be closed. */
  predicate Settled(s: Conn, imageSize: nat, k: Limits) {
    (OwnFits(s, imageSize, k) || AwaitsLongParam(s, k)) && (s.closed || IsFed(s) || IsStale(s, k))
  }

  /** Only such a request overcommits the buffer, and the two exclude each other. */
  lemma OverIffLong(s: Conn, imageSize: nat, k: Limits)
    requires k.recvBufLen <= imageSize && InHand(s, imageSize, k)
    ensures s.toRecv > 0 ==> (Overcommitted(s) <==> AwaitsLongParam(s, k))
    ensures !(OwnFits(s, imageSize, k) && AwaitsLongParam(s, k))
  {
  }

  /** Only a stale node can leave nothing to receive before the body is complete, when the buffer has been filled. */
  lemma StarvedIffStale(s: Conn, n: nat, imageSize: nat, k: Limits)
    requires InHand(s, imageSize, k) && n <= s.toRecv
    ensures Starved(Received(s, n)) <==> IsStale(s, k) && n == s.toRecv
  {
  }

  /** The data that has arrived completes the head of such a request. */
  predicate BeginsLongParam(a: Local, k: Limits)
    requires Sane(a)
  {
    && a.conn.http.state == ReceivingHead && Decided(a).Begin?
    && Decided(a).path == PARAM_PATH && Decided(a).contentLen > k.recvBufLen
  }

  lemma PathsDiffer()
    ensures IMAGE_PATH != PARAM_PATH
  {
    assert IMAGE_PATH[1] != PARAM_PATH[1];
  }

  /** A reaction to data keeps connections in hand, and begins such a request exactly when it looks so. */
  lemma ReactionInHand(a: Local, replies: seq<seq<byte>>, waits: bool, k: Limits)
    requires Defined(a, k) && k.recvBufLen <= ImageSize(a) && OwnFits(a.conn, ImageSize(a), k)
    ensures var m := OwnReact(a, replies, waits, k);
            && (OwnFits(m.conn, ImageSize(a), k) || AwaitsLongParam(m.conn, k))
            && (AwaitsLongParam(m.conn, k) <==> BeginsLongParam(a, k))
  {
    hide Decide, BeginBody, FinishImage, Resumable, Answered, OwnFits, AwaitsLongParam;
    var s, size := a.conn, ImageSize(a);
    match s.http.state {
      case ReceivingHead =>
        ClosedInHand(s, size, k);
        match Decided(a) {
          case NeedMore => StateInHand(s, s.(http := s.http.(prevBufLen := s.recvIdx)), size, k);
          case Refuse =>
          case Begin(path, headLen, contentLen) => BeginInHand(a, path, headLen, contentLen, k);
          case Whole(path, _, contentLen) =>
            FinishInHand(a, contentLen, k);
            AnswerInHand(s, replies, Sending, size, k);
          case Get(_) => AnswerInHand(s, replies, if waits then WaitSending else Sending, size, k);
        }
      case ReceivingBody =>
        if s.recvIdx < s.http.contentLen {
          StateInHand(s, s, size, k);
        } else if s.http.whichIncomplete == Image {
          FinishInHand(a, s.http.contentLen, k);
        } else {
          AnswerInHand(s, replies, Sending, size, k);
        }
      case _ => ClosedInHand(s, size, k);
    }
  }

  lemma StateInHand(s: Conn, t: Conn, imageSize: nat, k: Limits)
    requires OwnFits(s, imageSize, k) && t == s.(http := s.http.(prevBufLen := t.http.prevBufLen))
    ensures OwnFits(t, imageSize, k) && !AwaitsLongParam(t, k)
  {
  }

  lemma ClosedInHand(s: Conn, imageSize: nat, k: Limits)
    requires OwnFits(s, imageSize, k)
    ensures OwnFits(s.(closed := true), imageSize, k) && !AwaitsLongParam(s.(closed := true), k)
  {
  }

  lemma BeginInHand(a: Local, path: seq<byte>, headLen: nat, contentLen: nat, k: Limits)
    requires Sane(a) && headLen <= a.conn.recvIdx < headLen + contentLen && a.conn.http.state == ReceivingHead
    requires k.recvBufLen <= ImageSize(a) && OwnFits(a.conn, ImageSize(a), k)
    ensures var m := BeginBody(a, path, headLen, contentLen);
            && (OwnFits(m.conn, ImageSize(a), k) || AwaitsLongParam(m.conn, k))
            && (AwaitsLongParam(m.conn, k) <==> path == PARAM_PATH && contentLen > k.recvBufLen)
  {
    hide Filled;
    PathsDiffer();
  }

  /** What is asked for in the head state, or is complete, fits the connection's own buffer. */
  lemma FinishInHand(a: Local, contentLen: nat, k: Limits)
    requires Sane(a) && OwnFits(a.conn, ImageSize(a), k)
    requires a.conn.http.state == ReceivingBody ==> a.conn.recvIdx >= a.conn.http.contentLen
    ensures Resumable(a, k) ==>
              var m := FinishImage(a, contentLen, k);
              OwnFits(m.conn, ImageSize(a), k) && !AwaitsLongParam(m.conn, k)
  {
    hide Put200, Put400, Written;
  }

  lemma AnswerInHand(s: Conn, replies: seq<seq<byte>>, state: HttpConnState, imageSize: nat, k: Limits)
    requires OwnFits(s, imageSize, k) && state != ReceivingBody
    requires s.http.state == ReceivingBody ==> s.recvIdx >= s.http.contentLen && s.http.whichIncomplete == Param
    ensures OwnFits(Answered(s, replies, state, k), imageSize, k)
    ensures !AwaitsLongParam(Answered(s, replies, state, k), k)
  {
    hide SendQueue.PutAll;
  }

  lemma ReactionIsFed(a: Local, replies: seq<seq<byte>>, waits: bool, k: Limits)
    requires Defined(a, k) && (IsFed(a.conn) || IsStale(a.conn, k))
    ensures var m := OwnReact(a, replies, waits, k); m.conn.closed || IsFed(m.conn) || IsStale(m.conn, k)
  {
    hide Decide, SendQueue.PutAll, Put200, Put400, Resumable;
  }

  lemma ReceivedInHand(s: Conn, n: nat, imageSize: nat, k: Limits)
    requires InHand(s, imageSize, k) && n <= s.toRecv
    ensures OwnFits(s, imageSize, k) ==> OwnFits(Received(s, n), imageSize, k)
    ensures IsFed(Received(s, n)) || IsStale(Received(s, n), k)
  {
  }

  lemma FinishedInHand(s: Conn, r: Revents, send: IoResult, imageSize: nat, k: Limits)
    requires Settled(s, imageSize, k)
    ensures Settled(Finishing(s, r, send, k), imageSize, k)
    ensures AwaitsLongParam(Finishing(s, r, send, k), k) <==> AwaitsLongParam(s, k)
  {
    hide SendQueue.Take;
  }

  /** The event brings data that begins such a request. */
  predicate EventBegins(l: Local, e: Event, k: Limits)
    requires LocalBacked(l)
  {
    var r := Reported(l.conn, e.raw);
    var s := if r.err then l.conn.(closed := true) else l.conn;
    r.in_ && !Overcommitted(s) && e.recv.Data? && Got(s, e.recv.bytes) != [] &&
    BeginsLongParam(Arrived(l.(conn := s), Got(s, e.recv.bytes)), k)
  }

  /** The data fills the buffer of a stale node. */
  predicate FillsStale(s: Conn, recv: RecvResult, k: Limits) {
    IsStale(s, k) && recv.Data? && |Got(s, recv.bytes)| == s.toRecv
  }

  /** DoRecv alone. */
  lemma OwnReceiving(l: Local, recv: RecvResult, replies: seq<seq<byte>>, waits: bool, k: Limits)
    requires LocalBacked(l) && k.recvBufLen <= |l.heap[IMAGE_BUF]| && InHand(l.conn, |l.heap[IMAGE_BUF]|, k)
    requires l.conn.toRecv > 0
    ensures Receiving(l, recv, Own(replies, waits), k).AssertionFailed? <==>
            AwaitsLongParam(l.conn, k) || FillsStale(l.conn, recv, k)
    ensures Receiving(l, recv, Own(replies, waits), k).Going? ==>
              var m := Receiving(l, recv, Own(replies, waits), k).value;
              && Settled(m.conn, |l.heap[IMAGE_BUF]|, k)
              && (AwaitsLongParam(m.conn, k) <==>
                    && recv.Data? && Got(l.conn, recv.bytes) != []
                    && BeginsLongParam(Arrived(l, Got(l.conn, recv.bytes)), k))
  {
    var size := |l.heap[IMAGE_BUF]|;
    OverIffLong(l.conn, size, k);
    hide OwnReact, Defined, Written, BeginsLongParam, Starved;
    if !Overcommitted(l.conn) && recv.Data? && Got(l.conn, recv.bytes) != [] {
      var n := |Got(l.conn, recv.bytes)|;
      var a := Arrived(l, Got(l.conn, recv.bytes));
      StarvedIffStale(l.conn, n, size, k);
      ReceivedInHand(l.conn, n, size, k);
      if Defined(a, k) && !Starved(a.conn) {
        ReactionInHand(a, replies, waits, k);
        ReactionIsFed(a, replies, waits, k);
      }
    }
  }

  /** One turn: an assertion fails if and only if the body of such a request is to be received, or the buffer of a stale
      node has been filled; and the connection waits for such a body after the turn if and only if it did before or the
      turn has begun such a request. */
  lemma OwnTurn(l: Local, e: Event, k: Limits)
    requires LocalBacked(l) && k.recvBufLen <= |l.heap[IMAGE_BUF]| && e.app.Own?
    requires InHand(l.conn, |l.heap[IMAGE_BUF]|, k)
    ensures Turned(l, e, k).AssertionFailed? <==>
            Reported(l.conn, e.raw).in_ && (AwaitsLongParam(l.conn, k) || FillsStale(l.conn, e.recv, k))
    ensures Turned(l, e, k).Going? ==>
              var m := Turned(l, e, k).value;
              && Settled(m.conn, |l.heap[IMAGE_BUF]|, k)
              && (AwaitsLongParam(m.conn, k) <==> AwaitsLongParam(l.conn, k) || EventBegins(l, e, k))
  {
    var size := |l.heap[IMAGE_BUF]|;
    OverIffLong(l.conn, size, k);
    hide Receiving, Arrived, Finishing, BeginsLongParam;
    var r := Reported(l.conn, e.raw);
    var m := if r.err then l.(conn := l.conn.(closed := true)) else l;
    var afterIn := if r.in_ then Receiving(m, e.recv, e.app, k) else Going(m);
    if r.in_ {
      OwnReceiving(m, e.recv, e.app.replies, e.app.waits, k);
    }
    if afterIn.Going? {
      FinishedInHand(afterIn.value.conn, r, e.send, size, k);
    }
  }

  /** The same in terms of module EventLoop: after the calls that the application has made, the next incoming data is a
      fault if and only if those calls have begun such a request. */
  lemma NextDataFaults(l: Local, e: Event, next: Event, k: Limits)
    requires LocalBacked(l) && k.recvBufLen <= |l.heap[IMAGE_BUF]| && e.app.Own? && Turned(l, e, k).Going?
    requires InHand(l.conn, |l.heap[IMAGE_BUF]|, k) && OwnFits(l.conn, |l.heap[IMAGE_BUF]|, k)
    ensures var m := Turned(l, e, k).value;
            && LocalBacked(m) && m.conn == React(l.conn, InputOf(l, e, k), k)
            && (Faulty(m.conn, InputOf(m, next, k)) <==> Reported(m.conn, next.raw).in_ && EventBegins(l, e, k))
  {
    TurnKeepsBacked(l, e, k);
    hide Turned, React, EventBegins;
    var m := Turned(l, e, k).value;
    TurnIsReaction(l, e, k);
    OwnTurn(l, e, k);
    assert InputOf(m, next, k).raw == next.raw;
  }

  lemma TickedInHand(s: Conn, tick: Tick, imageSize: nat, k: Limits)
    requires InHand(s, imageSize, k)
    ensures InHand(Ticked(s, tick, k), imageSize, k)
  {
  }

  lemma NewInHand(fd: nat, http: HttpState, buf: nat, imageSize: nat, k: Limits)
    ensures InHand(NewConn(fd, http, buf, k), imageSize, k)
  {
  }

  // ---- Runs ----

  /** All data is handled by the server's own application. */
  ghost predicate OwnRound(round: LoopRound) {
    round.Ready? ==> forall j: nat :: round.events(j).app.Own?
  }

  ghost predicate AllInHand(w: World, imageSize: nat, k: Limits) {
    && AllBacked(w) && |w.heap[IMAGE_BUF]| == imageSize
    && forall j :: 0 <= j < |w.conns| ==> InHand(w.conns[j], imageSize, k)
  }

  ghost predicate AllSettled(w: World, imageSize: nat, k: Limits) {
    && IMAGE_BUF < |w.heap| && |w.heap[IMAGE_BUF]| == imageSize
    && forall j :: 0 <= j < |w.conns| ==> Settled(w.conns[j], imageSize, k)
  }

  lemma {:induction false} TurnsInHand(w: World, events: nat -> Event, i: nat, imageSize: nat, k: Limits)
    requires AllInHand(w, imageSize, k) && k.recvBufLen <= imageSize && i <= |w.conns|
    requires forall j: nat :: events(j).app.Own?
    ensures var o := TurnsUpTo(w, events, i, k);
            && (o.Going? ==> AllSettled(o.value, imageSize, k))
            && (o.Going? ==> forall j :: 0 <= j < i ==> !FailsAt(w, events, j, k))
            && (o.AssertionFailed? ==> exists j :: 0 <= j < i && FailsAt(w, events, j, k))
  {
    hide InHand, Settled, FailsAt, TurnAt;
    if i == 0 {
      forall j | 0 <= j < |w.conns| ensures Settled(w.conns[j], imageSize, k) {
        InHandIsSettled(w.conns[j], imageSize, k);
      }
    } else {
      TurnsInHand(w, events, i - 1, imageSize, k);
      var before := TurnsUpTo(w, events, i - 1, k);
      if before.Going? {
        TurnInHand(w, before.value, i - 1, events, imageSize, k);
      }
    }
  }

  lemma TurnInHand(w: World, v: World, i: nat, events: nat -> Event, imageSize: nat, k: Limits)
    requires AllInHand(w, imageSize, k) && k.recvBufLen <= imageSize && i < |w.conns| == |v.conns|
    requires AllBacked(v) && AllSettled(v, imageSize, k) && v.conns[i] == w.conns[i] && events(i).app.Own?
    ensures var o := TurnAt(v, i, events(i), k);
            && (o.AssertionFailed? <==> FailsAt(w, events, i, k))
            && (o.Going? ==> AllSettled(o.value, imageSize, k))
  {
    hide InHand, Settled, Turned, AwaitsLongParam, FillsStale;
    OwnTurn(LocalAt(v, i), events(i), k);
  }

  /** There is something to be received, and the connection waits for the body of such a request, or its node is stale
      and the data fills the buffer. */
  predicate FailsAt(w: World, events: nat -> Event, j: nat, k: Limits) {
    && j < |w.conns| && Reported(w.conns[j], events(j).raw).in_
    && (AwaitsLongParam(w.conns[j], k) || FillsStale(w.conns[j], events(j).recv, k))
  }

  lemma StepInHand(w: World, round: LoopRound, after: World, imageSize: nat, k: Limits)
    requires AllInHand(w, imageSize, k) && k.recvBufLen <= imageSize && OwnRound(round) && WorldStep(w, round, after, k)
    ensures AllInHand(after, imageSize, k)
  {
    hide InHand, Settled, TurnsUpTo, Released, KeepOpen, NewConn, Ticked;
    var v := Happened(w, round, k).value;
    match round {
      case Timeout(ticks) =>
        forall j | 0 <= j < |v.conns| ensures Settled(v.conns[j], imageSize, k) {
          TickedInHand(w.conns[j], ticks(j), imageSize, k);
          InHandIsSettled(v.conns[j], imageSize, k);
        }
      case Ready(_, _, events) => TurnsInHand(w, events, |w.conns|, imageSize, k);
    }
    SweptBacked(w, round, k);
    JoinedBacked(Swept(v), AcceptedIn(round), after, k);
    JoinedInHand(v, AcceptedIn(round), after, imageSize, k);
  }

  lemma InHandIsSettled(s: Conn, imageSize: nat, k: Limits)
    ensures InHand(s, imageSize, k) ==> Settled(s, imageSize, k)
    ensures Settled(s, imageSize, k) && !s.closed ==> InHand(s, imageSize, k)
  {
  }

  lemma JoinedInHand(v: World, accepted: Option<nat>, after: World, imageSize: nat, k: Limits)
    requires Joined(Swept(v), accepted, after, k) && AllSettled(v, imageSize, k)
    ensures forall j :: 0 <= j < |after.conns| ==> InHand(after.conns[j], imageSize, k)
    ensures IMAGE_BUF < |after.heap| && |after.heap[IMAGE_BUF]| == imageSize
  {
    hide InHand, Settled, Released, KeepOpen, NewConn;
    var kept := KeepOpen(v.conns);
    forall j | 0 <= j < |after.conns| ensures InHand(after.conns[j], imageSize, k) {
      if j < |kept| {
        var i := KeptFrom(v.conns, j);
        assert after.conns[j] == kept[j];
        InHandIsSettled(kept[j], imageSize, k);
      } else {
        NewInHand(accepted.value, Swept(v).stale[0], |v.heap|, imageSize, k);
      }
    }
    assert after.heap[..|v.heap|] == v.heap;
    assert after.heap[IMAGE_BUF] == after.heap[..|v.heap|][IMAGE_BUF];
  }

  /** Over every run with the server's own application, whatever the nodes hold at start-up, and however many uploads
      there are: every listed connection keeps within its buffer, or waits for the body of a POST to /param that does
      not fit. An assertion fails exactly when there is something to be received for one of the latter, or the data
      fills the buffer of a stale node; unless the code's behaviour is undefined before. */
  lemma {:induction false} OwnRunFailsExactly(history: seq<World>, rounds: seq<LoopRound>, imageSize: nat, k: Limits,
                                              r: nat)
    requires IsWorldRun(history, rounds, k) && r < |history|
    requires |history[0].heap[IMAGE_BUF]| == imageSize >= k.recvBufLen
    requires forall i :: 0 <= i <= r && i < |rounds| ==> OwnRound(rounds[i])
    ensures AllInHand(history[r], imageSize, k)
    ensures r < |rounds| && rounds[r].Ready? ==>
              var o := Happened(history[r], rounds[r], k);
              o.Undefined? ||
              (o.AssertionFailed? <==>
                 exists j :: 0 <= j < |history[r].conns| && FailsAt(history[r], rounds[r].events, j, k))
  {
    hide WorldStep, FailsAt, InHand;
    if r > 0 {
      OwnRunFailsExactly(history, rounds, imageSize, k, r - 1);
      StepInHand(history[r - 1], rounds[r - 1], history[r], imageSize, k);
    }
    if r < |rounds| && rounds[r].Ready? {
      TurnsInHand(history[r], rounds[r].events, |history[r].conns|, imageSize, k);
    }
  }
}
