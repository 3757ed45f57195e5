/** What EL_Close releases: AppOnClosing frees the receive buffer the connection points at then, which during an
    upload is the image buffer. */
module Closing {
  import opened Bytes
  import opened Connection
  import opened EventLoop
  import opened ServerApp
  import opened AppSpec
  import opened World
  import opened OwnRun
  import SendQueue

  /** Data has arrived, after which the connection's own application is called. */
  predicate Reads(l: Local, e: Event) {
    e.recv.Data? && Got(l.conn, e.recv.bytes) != []
  }

  /** The own application closes the connection: a refused head, a body of an invalid length or for another path, or
      data while a response is sent. */
  predicate OwnCloses(a: Local)
    requires Sane(a)
  {
    match a.conn.http.state
    case ReceivingHead =>
      var d := Decided(a);
      d.Refuse? || (d.Begin? && if d.path == IMAGE_PATH then !(MIN_IMAGE_SIZE <= d.contentLen <= ImageSize(a))
                                else d.path != PARAM_PATH)
    case ReceivingBody => false
    case _ => true
  }

  /** It does so exactly then. */
  lemma OwnClosesExactly(a: Local, replies: seq<seq<byte>>, waits: bool, k: Limits)
    requires Defined(a, k) && !a.conn.closed
    ensures OwnReact(a, replies, waits, k).conn.closed <==> OwnCloses(a)
  {
    hide Decide, SendQueue.PutAll, Put200, Put400, Resumable, Filled;
    assert IMAGE_PATH[1] != PARAM_PATH[1];
  }

  /** The buffers that the calls of EL_Close in DoRecv release. */
  function FreedInRecv(l: Local, e: Event): seq<nat>
    requires LocalBacked(l) && !Overcommitted(l.conn)
  {
    match e.recv
    case NothingYet => []
    case Data(bytes) =>
      if Reads(l, e) && !OwnCloses(Arrived(l, Got(l.conn, bytes))) then [] else [l.conn.buf]
    case _ => [l.conn.buf]
  }

  /** The buffers released in a turn, in order. */
  function Freed(l: Local, e: Event, k: Limits): seq<nat>
    requires LocalBacked(l) && Turned(l, e, k).Going?
  {
    var r := Reported(l.conn, e.raw);
    var m := if r.err then l.(conn := l.conn.(closed := true)) else l;
    var after := if r.in_ then Receiving(m, e.recv, e.app, k).value else m;
    (if r.err then [l.conn.buf] else []) +
    (if r.in_ then FreedInRecv(m, e) else []) +
    (if r.out && e.send.Error? then [after.conn.buf] else []) +
    (if r.hup then [after.conn.buf] else [])
  }

  /** Nothing is released in a turn that leaves the connection open, and something in one that does not. */
  lemma FreedExactly(l: Local, e: Event, k: Limits)
    requires LocalBacked(l) && Turned(l, e, k).Going? && e.app.Own? && !l.conn.closed
    ensures Freed(l, e, k) != [] <==> Turned(l, e, k).value.conn.closed
  {
    hide Defined, OwnReact, OwnCloses, Written, SendQueue.Take;
    var r := Reported(l.conn, e.raw);
    if r.in_ && !r.err && Reads(l, e) {
      OwnClosesExactly(Arrived(l, Got(l.conn, e.recv.bytes)), e.app.replies, e.app.waits, k);
    }
    if r.in_ && r.err && Reads(l, e) {
      var m := l.(conn := l.conn.(closed := true));
      StaysClosed(Arrived(m, Got(l.conn, e.recv.bytes)), e.app.replies, e.app.waits, k);
    }
  }

  lemma StaysClosed(a: Local, replies: seq<seq<byte>>, waits: bool, k: Limits)
    requires Defined(a, k) && a.conn.closed
    ensures OwnReact(a, replies, waits, k).conn.closed
  {
    hide Decide, SendQueue.PutAll, Put200, Put400, Resumable, Filled;
  }

  // ---- The image buffer ----

  /** Only a connection that is receiving an image points at the image buffer. */
  predicate PointsRight(s: Conn) {
    s.buf == IMAGE_BUF ==> s.http.state == ReceivingBody && s.http.whichIncomplete == Image
  }

  /** Incoming data completes the image, or begins a new one. */
  predicate CompletesImage(a: Local)
    requires Sane(a)
  {
    a.conn.http.state == ReceivingBody && a.conn.recvIdx >= a.conn.http.contentLen
  }

  predicate BeginsImage(a: Local)
    requires Sane(a)
  {
    && a.conn.http.state == ReceivingHead && Decided(a).Begin? && Decided(a).path == IMAGE_PATH
    && MIN_IMAGE_SIZE <= Decided(a).contentLen <= ImageSize(a)
  }

  lemma ReactionPoints(a: Local, replies: seq<seq<byte>>, waits: bool, k: Limits)
    requires Defined(a, k) && PointsRight(a.conn)
    ensures var m := OwnReact(a, replies, waits, k);
            && PointsRight(m.conn)
            && (m.conn.buf == IMAGE_BUF <==> (a.conn.buf == IMAGE_BUF && !CompletesImage(a)) || BeginsImage(a))
  {
    hide Decide, SendQueue.PutAll, Put200, Put400, Filled;
    assert IMAGE_PATH[1] != PARAM_PATH[1];
  }

  /** The connection points at the image buffer when POLLOUT and POLLHUP are dealt with. */
  predicate PointsAfterInput(l: Local, e: Event)
    requires LocalBacked(l) && !Overcommitted(l.conn)
  {
    var r := Reported(l.conn, e.raw);
    if r.in_ && Reads(l, e) then
      var a := Arrived(l, Got(l.conn, e.recv.bytes));
      (l.conn.buf == IMAGE_BUF && !CompletesImage(a)) || BeginsImage(a)
    else l.conn.buf == IMAGE_BUF
  }

  /** The image buffer, which is static, is released in a turn if and only if the connection is receiving an image and
      meets an error or the end of its input, or it is still, or just now, receiving one and then meets an error of
      send() or a hang-up. */
  lemma FreesImageExactly(l: Local, e: Event, k: Limits)
    requires LocalBacked(l) && !Overcommitted(l.conn) && Turned(l, e, k).Going? && e.app.Own?
    requires !l.conn.closed && PointsRight(l.conn)
    ensures var r := Reported(l.conn, e.raw);
            IMAGE_BUF in Freed(l, e, k) <==>
            || (l.conn.buf == IMAGE_BUF && (r.err || (r.in_ && !e.recv.NothingYet? && !Reads(l, e))))
            || (PointsAfterInput(l, e) && ((r.out && e.send.Error?) || r.hup))
  {
    hide Defined, OwnReact, Written, Decide, BeginsImage, CompletesImage;
    var r := Reported(l.conn, e.raw);
    var m := if r.err then l.(conn := l.conn.(closed := true)) else l;
    if r.in_ && Reads(l, e) {
      var a := Arrived(m, Got(l.conn, e.recv.bytes));
      ReactionPoints(a, e.app.replies, e.app.waits, k);
      SameLook(Arrived(l, Got(l.conn, e.recv.bytes)), a);
    }
  }

  /** Whether the connection has been closed does not matter for what the data is. */
  lemma SameLook(a: Local, b: Local)
    requires Sane(a) && (b == a || b == a.(conn := a.conn.(closed := true)))
    ensures Sane(b) && (CompletesImage(b) <==> CompletesImage(a)) && (BeginsImage(b) <==> BeginsImage(a))
  {
    hide Decide;
  }

  // ---- Runs ----

  lemma TurnPoints(l: Local, e: Event, k: Limits)
    requires LocalBacked(l) && Turned(l, e, k).Going? && e.app.Own? && PointsRight(l.conn)
    ensures PointsRight(Turned(l, e, k).value.conn)
  {
    hide Defined, OwnReact, Written;
    var r := Reported(l.conn, e.raw);
    var m := if r.err then l.(conn := l.conn.(closed := true)) else l;
    if r.in_ && Reads(m, e) {
      ReactionPoints(Arrived(m, Got(m.conn, e.recv.bytes)), e.app.replies, e.app.waits, k);
    }
  }

  ghost predicate AllPointRight(cs: seq<Conn>) {
    forall j :: 0 <= j < |cs| ==> PointsRight(cs[j])
  }

  lemma {:induction false} TurnsPoint(w: World, events: nat -> Event, i: nat, k: Limits)
    requires AllBacked(w) && AllPointRight(w.conns) && i <= |w.conns| && forall j: nat :: events(j).app.Own?
    requires TurnsUpTo(w, events, i, k).Going?
    ensures AllPointRight(TurnsUpTo(w, events, i, k).value.conns)
  {
    hide Turned, PointsRight;
    if i > 0 {
      TurnsPoint(w, events, i - 1, k);
      var v := TurnsUpTo(w, events, i - 1, k).value;
      TurnPoints(LocalAt(v, i - 1), events(i - 1), k);
    }
  }

  lemma StepPoints(w: World, round: LoopRound, after: World, k: Limits)
    requires AllPointRight(w.conns) && OwnRound(round) && WorldStep(w, round, after, k)
    ensures AllPointRight(after.conns)
  {
    hide TurnsUpTo, KeepOpen, Released, SendQueue.PutChunk;
    var v := Happened(w, round, k).value;
    match round {
      case Timeout(ticks) =>
        forall j | 0 <= j < |v.conns| ensures PointsRight(v.conns[j]) {
          assert v.conns[j] == Ticked(w.conns[j], ticks(j), k) && PointsRight(w.conns[j]);
        }
      case Ready(_, _, events) => TurnsPoint(w, events, |w.conns|, k);
    }
    var kept := KeepOpen(v.conns);
    forall j | 0 <= j < |after.conns| ensures PointsRight(after.conns[j]) {
      if j < |kept| {
        var i := KeptFrom(v.conns, j);
        assert after.conns[j] == kept[j];
      }
    }
  }

  /** Over every run with the own application, whatever the nodes hold: a listed connection points at the image buffer
      only while it is receiving an image; so in every round FreesImageExactly says whether its turn releases that
      buffer. */
  lemma {:induction false} OwnRunPoints(history: seq<World>, rounds: seq<LoopRound>, k: Limits, r: nat)
    requires IsWorldRun(history, rounds, k) && r < |history|
    requires forall i :: 0 <= i < r ==> OwnRound(rounds[i])
    ensures AllPointRight(history[r].conns)
  {
    hide WorldStep, OwnRound;
    if r > 0 {
      OwnRunPoints(history, rounds, k, r - 1);
      StepPoints(history[r - 1], rounds[r - 1], history[r], k);
    }
  }
}
