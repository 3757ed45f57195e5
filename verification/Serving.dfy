/** Connections on which no body is received in parts: whatever arrives on them, and over any number of requests, the
    code stays inside their receive buffers. */
module Serving {
  import opened Bytes
  import opened HeadSpec
  import opened Connection
  import opened EventLoop
  import opened ServerApp
  import opened AppSpec
  import opened World
  import opened Leftover
  import SendQueue
  import HeadFinality

  /** Wherever the scan starts behind what will have been received, it ends inside the buffer. */
  predicate Covered(mem: seq<byte>, p: nat) {
    p <= 4 || !ScanComplete(mem, p - 3, 0).Partial?
  }

  /** What holds between two turns of such a connection. */
  predicate IsServing(l: Local, k: Limits) {
    && LocalBacked(l) && k.recvBufLen <= l.conn.capacity
    && (l.conn.toRecv > 0 ==> l.conn.recvIdx + l.conn.toRecv <= l.conn.capacity)
    && match l.conn.http.state
       case ReceivingHead =>
         if l.conn.recvIdx == 0 then Covered(Mem(l), l.conn.http.prevBufLen)
         else l.conn.http.prevBufLen <= l.conn.recvIdx + 3
       case ReceivingBody => false
       case _ => Covered(Mem(l), l.conn.http.prevBufLen)
  }

  /** A body is begun that has not arrived yet, or an image is to be finished. */
  predicate TakesBody(a: Local)
    requires Sane(a)
  {
    a.conn.http.state == ReceivingHead && (Decided(a).Begin? || FinishesImage(a))
  }

  /** The own application is called with data that has to do with a body of several parts. */
  predicate EventTakesBody(l: Local, e: Event)
    requires LocalBacked(l)
  {
    var r := Reported(l.conn, e.raw);
    var m := if r.err then l.(conn := l.conn.(closed := true)) else l;
    && r.in_ && !Overcommitted(m.conn) && e.recv.Data? && Got(m.conn, e.recv.bytes) != []
    && TakesBody(Arrived(m, Got(m.conn, e.recv.bytes)))
  }

  /** What is remembered when data arrives keeps the scan inside the buffer. */
  lemma ArrivalIsReadable(l: Local, got: seq<byte>, k: Limits)
    requires IsServing(l, k) && got != [] && |got| <= l.conn.toRecv && l.conn.http.state == ReceivingHead
    ensures !Overcommitted(l.conn)
    ensures var a := Arrived(l, got);
            LocalBacked(a) && Sane(a) && Readable(Mem(a), a.conn.recvIdx, a.conn.http.prevBufLen)
  {
    hide ScanComplete;
    var a, p := Arrived(l, got), l.conn.http.prevBufLen;
    if l.conn.recvIdx == 0 && |got| + 3 < p {
      SameTail(Mem(l), Mem(a), p - 3, 0);
    }
  }

  /** An accepted head has been found complete by a scan that would find it again. */
  lemma AcceptedIsCovered(mem: seq<byte>, n: nat, p: nat)
    requires n <= |mem| && RequestIn(mem, n, MAX_HDR_NUM, p).Ok?
    ensures Covered(mem, p)
  {
    hide ParseRequest, ScanComplete;
    if p > 4 && InBounds(n, p) {
      assert mem == mem[..n] + mem[n..];
      HeadFinality.ScanFinal(mem[..n], mem[n..], p - 3, 0);
    }
  }

  lemma ReactionServes(a: Local, replies: seq<seq<byte>>, waits: bool, k: Limits)
    requires LocalBacked(a) && Sane(a) && k.recvBufLen <= a.conn.capacity && a.conn.recvIdx > 0
    requires a.conn.toRecv > 0 ==> a.conn.recvIdx + a.conn.toRecv <= a.conn.capacity
    requires a.conn.http.state != ReceivingBody && !TakesBody(a)
    requires a.conn.http.state == ReceivingHead ==> Readable(Mem(a), a.conn.recvIdx, a.conn.http.prevBufLen)
    ensures !Starved(a.conn) && Defined(a, k)
    ensures var m := OwnReact(a, replies, waits, k);
            && m.heap == a.heap && m.store == a.store && m.conn.buf == a.conn.buf && LocalBacked(m)
            && (m.conn.closed || IsServing(m, k))
  {
    hide ScanComplete, SendQueue.PutAll, RequestIn, DecideHead;
    var n, p := a.conn.recvIdx, a.conn.http.prevBufLen;
    if a.conn.http.state == ReceivingHead && RequestIn(Mem(a), n, MAX_HDR_NUM, p).Ok? {
      AcceptedIsCovered(Mem(a), n, p);
    }
  }

  /** What a turn leaves as it was: the other buffers and the globals. */
  predicate KeepsOthers(l: Local, m: Local) {
    && m.conn.buf == l.conn.buf < |l.heap| == |m.heap| && m.store == l.store
    && forall i :: 0 <= i < |l.heap| && i != l.conn.buf ==> m.heap[i] == l.heap[i]
  }

  lemma ReceivingServes(l: Local, recv: RecvResult, replies: seq<seq<byte>>, waits: bool, k: Limits)
    requires IsServing(l, k) && l.conn.toRecv > 0
    requires recv.Data? && Got(l.conn, recv.bytes) != [] ==> !TakesBody(Arrived(l, Got(l.conn, recv.bytes)))
    ensures var o := Receiving(l, recv, Own(replies, waits), k);
            && o.Going? && KeepsOthers(l, o.value) && LocalBacked(o.value)
            && (o.value.conn.closed || IsServing(o.value, k))
  {
    hide TakesBody, OwnReact, Defined, ScanComplete, Starved;
    if recv.Data? && Got(l.conn, recv.bytes) != [] {
      var got := Got(l.conn, recv.bytes);
      var a := Arrived(l, got);
      if l.conn.http.state == ReceivingHead {
        ArrivalIsReadable(l, got, k);
      }
      hide Written;
      ReactionServes(a, replies, waits, k);
    }
  }

  lemma FinishingServes(l: Local, r: Revents, send: IoResult, k: Limits)
    requires LocalBacked(l) && (l.conn.closed || IsServing(l, k))
    ensures var s := Finishing(l.conn, r, send, k);
            && s.buf == l.conn.buf && Backed(s, l.heap)
            && (s.closed || IsServing(l.(conn := s), k)) && (l.conn.closed ==> s.closed)
  {
    hide ScanComplete, SendQueue.Take;
  }

  /** One turn with the own application: nothing stops it. */
  lemma ServingTurn(l: Local, e: Event, k: Limits)
    requires IsServing(l, k) && e.app.Own? && !EventTakesBody(l, e)
    ensures var o := Turned(l, e, k);
            && o.Going? && KeepsOthers(l, o.value) && LocalBacked(o.value)
            && (o.value.conn.closed || IsServing(o.value, k))
  {
    hide TakesBody, Receiving, Finishing, ScanComplete;
    var r := Reported(l.conn, e.raw);
    var m := if r.err then l.(conn := l.conn.(closed := true)) else l;
    assert IsServing(m, k);
    if r.in_ {
      ReceivingServes(m, e.recv, e.app.replies, e.app.waits, k);
      m := Receiving(m, e.recv, e.app, k).value;
    }
    hide IsServing;
    FinishingServes(m, r, e.send, k);
  }

  /** The turns of a connection up to its end, with the own application and no body in parts. */
  ghost predicate NoBodies(l: Local, events: seq<Event>, k: Limits)
    requires LocalBacked(l)
    decreases |events|
  {
    events != [] ==>
      && !l.conn.closed && events[0].app.Own? && !EventTakesBody(l, events[0])
      && (Turned(l, events[0], k).Going? && LocalBacked(Turned(l, events[0], k).value) ==>
            NoBodies(Turned(l, events[0], k).value, events[1..], k))
  }

  /** Over any number of requests, whatever their bytes and however they arrive: no read outside a buffer, no failed
      assertion. */
  lemma {:induction false} KeepsServing(l: Local, events: seq<Event>, k: Limits)
    requires LocalBacked(l) && IsServing(l, k) && NoBodies(l, events, k)
    ensures var o := Turns(l, events, k); o.Going? && (o.value.conn.closed || IsServing(o.value, k))
    decreases |events|
  {
    hide Turned, IsServing, EventTakesBody;
    if events != [] {
      ServingTurn(l, events[0], k);
      var m := Turned(l, events[0], k).value;
      if !m.conn.closed {
        KeepsServing(m, events[1..], k);
      }
    }
  }

  // ---- Runs of the loop ----

  /** Every listed connection is such a connection, with a buffer of its own. */
  ghost predicate AllServing(w: World, k: Limits) {
    && AllBacked(w)
    && (forall j :: 0 <= j < |w.conns| ==> IsServing(LocalAt(w, j), k))
    && forall i, j :: 0 <= i < j < |w.conns| ==> w.conns[i].buf != w.conns[j].buf
  }

  /** The same between the turns of a round: connections that have had theirs may be closed. */
  ghost predicate AllServed(w: World, i: nat, k: Limits) {
    && AllBacked(w)
    && (forall j :: 0 <= j < |w.conns| ==> IsServing(LocalAt(w, j), k) || (j < i && w.conns[j].closed))
    && forall i, j :: 0 <= i < j < |w.conns| ==> w.conns[i].buf != w.conns[j].buf
  }

  /** Data for the own application only, and none of it has to do with a body in parts. */
  ghost predicate TurnsTakeNoBody(w: World, events: nat -> Event, k: Limits)
    requires AllBacked(w)
  {
    forall j :: 0 <= j < |w.conns| ==>
      events(j).app.Own? && !EventTakesBody(LocalAt(WorldAt(w, events, j, k), j), events(j))
  }

  /** Another connection's turn does not matter. */
  lemma OtherServes(l: Local, m: Local, s: Conn, k: Limits)
    requires IsServing(l.(conn := s), k) && KeepsOthers(l, m) && s.buf != l.conn.buf
    ensures IsServing(m.(conn := s), k)
  {
    hide ScanComplete;
  }

  lemma TurnServes(v: World, i: nat, e: Event, k: Limits)
    requires AllServed(v, i, k) && i < |v.conns| && e.app.Own? && !EventTakesBody(LocalAt(v, i), e)
    ensures var o := TurnAt(v, i, e, k); o.Going? && AllServed(o.value, i + 1, k)
  {
    hide Turned, IsServing, EventTakesBody, SameSizes;
    ServingTurn(LocalAt(v, i), e, k);
    var m := Turned(LocalAt(v, i), e, k).value;
    var after := WithLocal(v, i, m);
    forall j | 0 <= j < |after.conns| ensures IsServing(LocalAt(after, j), k) || (j < i + 1 && after.conns[j].closed) {
      if j != i && IsServing(LocalAt(v, j), k) {
        OtherServes(LocalAt(v, i), m, v.conns[j], k);
      }
    }
  }

  lemma {:induction false} TurnsServe(w: World, events: nat -> Event, i: nat, k: Limits)
    requires AllBacked(w) && AllServing(w, k) && TurnsTakeNoBody(w, events, k) && i <= |w.conns|
    ensures TurnsUpTo(w, events, i, k).Going? && AllServed(TurnsUpTo(w, events, i, k).value, i, k)
  {
    hide IsServing, EventTakesBody, TurnAt, AllServed, AllServing, SameSizes, TurnsTakeNoBody, AllBacked;
    if i == 0 {
      NoneServed(w, k);
    } else {
      TurnsServe(w, events, i - 1, k);
      var v := TurnsUpTo(w, events, i - 1, k).value;
      TakesNoBodyAt(w, events, i - 1, v, k);
      TurnServes(v, i - 1, events(i - 1), k);
    }
  }

  lemma NoneServed(w: World, k: Limits)
    requires AllServing(w, k)
    ensures AllServed(w, 0, k)
  {
    hide IsServing;
  }

  lemma TakesNoBodyAt(w: World, events: nat -> Event, i: nat, v: World, k: Limits)
    requires AllBacked(w) && TurnsTakeNoBody(w, events, k) && i < |w.conns| && TurnsUpTo(w, events, i, k) == Going(v)
    ensures i < |v.conns| && AllBacked(v) && events(i).app.Own? && !EventTakesBody(LocalAt(v, i), events(i))
  {
    hide EventTakesBody, TurnsUpTo;
    assert WorldAt(w, events, i, k) == v;
  }

  /** One round: it happens, and what it leaves is such a world again, if an accepted connection is such a connection
      in the node and with the buffer it gets. */
  lemma RoundServes(w: World, round: LoopRound, after: World, k: Limits)
    requires AllServing(w, k) && RoundTakesNoBody(w, round, k) && WorldStep(w, round, after, k)
    requires AcceptedServes(w, round, after, k)
    ensures AllServing(after, k)
  {
    hide IsServing, Happened, AllServed, EventTakesBody, Released, KeepOpen, NewConn;
    RoundHappens(w, round, k);
    var v := Happened(w, round, k).value;
    SweptBacked(w, round, k);
    JoinedBacked(Swept(v), AcceptedIn(round), after, k);
    JoinedServe(v, AcceptedIn(round), after, k);
  }

  ghost predicate RoundTakesNoBody(w: World, round: LoopRound, k: Limits)
    requires AllBacked(w)
  {
    round.Ready? ==> TurnsTakeNoBody(w, round.events, k)
  }

  /** The connection that has joined in this round, if there is one. */
  ghost predicate AcceptedServes(w: World, round: LoopRound, after: World, k: Limits)
    requires AllBacked(w) && WorldStep(w, round, after, k)
  {
    var kept := |KeepOpen(Happened(w, round, k).value.conns)|;
    |after.conns| > kept ==> IsServing(LocalAt(after, kept), k)
  }

  lemma RoundHappens(w: World, round: LoopRound, k: Limits)
    requires AllServing(w, k) && RoundTakesNoBody(w, round, k) && !round.PollError?
    ensures Happened(w, round, k).Going?
    ensures AllServed(Happened(w, round, k).value, |w.conns|, k)
  {
    hide IsServing, EventTakesBody, TurnsUpTo, Ticked;
    match round {
      case Timeout(ticks) => TicksServe(w, ticks, k);
      case Ready(_, _, events) => TurnsServe(w, events, |w.conns|, k);
    }
  }

  lemma TicksServe(w: World, ticks: nat -> Tick, k: Limits)
    requires AllServing(w, k)
    ensures AllServed(w.(conns := AllTicked(w.conns, ticks, k)), |w.conns|, k)
  {
    hide ScanComplete, SendQueue.PutChunk;
    var v := w.(conns := AllTicked(w.conns, ticks, k));
    forall j | 0 <= j < |v.conns| ensures IsServing(LocalAt(v, j), k) && Backed(v.conns[j], v.heap) {
      assert v.conns[j] == Ticked(w.conns[j], ticks(j), k) && IsServing(LocalAt(w, j), k);
    }
  }

  /** What is kept was there, in the same order. */
  lemma {:induction false} KeptInOrder(cs: seq<Conn>, i: nat, j: nat) returns (m: nat, n: nat)
    requires i < j < |KeepOpen(cs)|
    ensures m < n < |cs| && KeepOpen(cs)[i] == cs[m] && KeepOpen(cs)[j] == cs[n] && !cs[m].closed && !cs[n].closed
    decreases |cs|
  {
    var rest := KeepOpen(cs[1..]);
    if cs[0].closed {
      m, n := KeptInOrder(cs[1..], i, j);
      m, n := m + 1, n + 1;
    } else if i == 0 {
      n := KeptFrom(cs[1..], j - 1);
      m, n := 0, n + 1;
    } else {
      m, n := KeptInOrder(cs[1..], i - 1, j - 1);
      m, n := m + 1, n + 1;
    }
  }

  lemma JoinedServe(v: World, accepted: Option<nat>, after: World, k: Limits)
    requires AllServed(v, |v.conns|, k) && Joined(Swept(v), accepted, after, k) && AllBacked(after)
    requires |after.conns| > |KeepOpen(v.conns)| ==> IsServing(LocalAt(after, |KeepOpen(v.conns)|), k)
    ensures AllServing(after, k)
  {
    hide IsServing, KeepOpen, Released;
    var kept := KeepOpen(v.conns);
    assert after.heap[..|v.heap|] == v.heap;
    forall j | 0 <= j < |after.conns| ensures IsServing(LocalAt(after, j), k) {
      if j < |kept| {
        var i := KeptFrom(v.conns, j);
        assert after.conns[j] == kept[j] == v.conns[i];
        GrownServes(LocalAt(v, i), after.heap, k);
      }
    }
    forall i, j | 0 <= i < j < |after.conns| ensures after.conns[i].buf != after.conns[j].buf {
      if j < |kept| {
        var m, n := KeptInOrder(v.conns, i, j);
        assert after.conns[i] == kept[i] && after.conns[j] == kept[j];
      } else {
        var m := KeptFrom(v.conns, i);
        assert after.conns[i] == kept[i] == v.conns[m] && Backed(v.conns[m], v.heap);
      }
    }
  }

  lemma GrownServes(l: Local, heap: seq<seq<byte>>, k: Limits)
    requires IsServing(l, k) && |l.heap| <= |heap| && heap[..|l.heap|] == l.heap
    ensures IsServing(l.(heap := heap), k)
  {
    hide ScanComplete;
    assert heap[l.conn.buf] == heap[..|l.heap|][l.conn.buf];
  }

  /** Which nodes and buffers suit: the earlier connection has not ended in a body, and the scan for what is still
      remembered of it ends in the new buffer, whatever that holds. */
  lemma SuitsExactly(fd: nat, http: HttpState, buf: nat, heap: seq<seq<byte>>, store: Store, k: Limits)
    requires IMAGE_BUF < |heap| && buf < |heap| && k.recvBufLen <= |heap[buf]|
    ensures IsServing(Local(NewConn(fd, http, buf, k), heap, store), k) <==>
            http.state != ReceivingBody && Covered(heap[buf], http.prevBufLen)
  {
  }

  /** In every run of the loop with the own application in which no body comes in parts, and every accepted connection
      finds a node and a buffer that suit it: the loop goes on for ever. No assertion fails, and nothing is read outside
      a buffer, whatever bytes arrive. */
  lemma {:induction false} ServesForEver(history: seq<World>, rounds: seq<LoopRound>, k: Limits, r: nat)
    requires IsWorldRun(history, rounds, k) && r < |history| && forall i :: 0 <= i <= r ==> AllBacked(history[i])
    requires forall i :: 0 <= i <= r && i < |rounds| ==> RoundTakesNoBody(history[i], rounds[i], k)
    requires forall i :: 0 <= i < r && WorldStep(history[i], rounds[i], history[i + 1], k) ==>
               AcceptedServes(history[i], rounds[i], history[i + 1], k)
    ensures AllServing(history[r], k)
    ensures r < |rounds| && !rounds[r].PollError? ==> Happened(history[r], rounds[r], k).Going?
  {
    hide WorldStep, IsServing, RoundTakesNoBody, AcceptedServes, AllBacked;
    if r == 0 {
      NoneServing(history[0], k);
    } else {
      ServesForEver(history, rounds, k, r - 1);
      RoundServes(history[r - 1], rounds[r - 1], history[r], k);
    }
    if r < |rounds| && !rounds[r].PollError? {
      RoundHappens(history[r], rounds[r], k);
    }
  }

  lemma NoneServing(w: World, k: Limits)
    requires IsStart(w, k)
    ensures AllServing(w, k)
  {
  }
}
