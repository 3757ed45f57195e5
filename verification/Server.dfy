/** The event loop's code: connections are kept in the forward list in the order of the poll array. Closed connections
    stay in the list and new ones wait outside it until the round is over; then list and array are rebuilt together.
    Proved to do, round after round, what modules World and EventLoop say, with the application's own code. */
module Server {
  import opened Bytes
  import opened NodePool
  import opened ForwardList
  import opened Connection
  import opened EventLoop
  import opened ServerApp
  import opened AppSpec
  import opened ImageUpload
  import opened World
  import HeadSpec
  import SendQueue

  /** An entry of the poll array; POLLERR and POLLHUP need not be asked for. */
  datatype PollFd = PollFd(fd: int, wantIn: bool, wantOut: bool, revents: Revents)

  /** Why the loop stops early. `Hazard` is code whose behaviour is not defined. */
  datatype Stop = GoOn | Assertion | Hazard

  /** What stops the loop, and nothing else does. */
  predicate Stops<T>(stop: Stop, o: Outcome<T>) {
    && (stop.GoOn? <==> o.Going?) && (stop.Assertion? <==> o.AssertionFailed?) && (stop.Hazard? <==> o.Undefined?)
  }

  /** Why the loop has ended after the worlds `history`: the rounds are over, poll() has failed, or the next round
      stops. */
  predicate EndsWith(stop: Stop, history: seq<World>, rounds: seq<LoopRound>, k: Limits) {
    1 <= |history| <= |rounds| + 1 &&
    if |history| > |rounds| || rounds[|history| - 1].PollError? then stop.GoOn?
    else
      var last := history[|history| - 1];
      !stop.GoOn? && AllBacked(last) && Stops(stop, Happened(last, rounds[|history| - 1], k))
  }

  /** poll() reports requested events, errors and hang-ups. */
  function PollReports(p: PollFd, raw: Revents): Revents {
    raw.(in_ := raw.in_ && p.wantIn, out := raw.out && p.wantOut)
  }

  /** The entry is the one PushBackFds makes for the connection. */
  predicate Matches(p: PollFd, s: Conn) {
    p.fd == s.fd && (p.wantIn <==> s.toRecv > 0) && (p.wantOut <==> s.queue.pending != [])
  }

  /** Entry 1 + j is made for the j-th connection. */
  ghost predicate Entries(fds: array<PollFd>, values: seq<Conn>)
    reads fds
  {
    |values| < fds.Length && forall j :: 0 <= j < |values| ==> Matches(fds[1 + j], values[j])
  }

  ghost predicate AllOpen(values: seq<Conn>) {
    forall j :: 0 <= j < |values| ==> !values[j].closed
  }

  // ---- One connection ----

  /** One call of a scripted application. */
  method Call(c: ElConnection, call: AppCall, bufs: seq<array<byte>>, ghost k: Limits)
    requires c.SendBounds() && c.sendBuf.Length == k.sendBufLen && c.Points(bufs)
    requires call.Switch? ==> call.buf < |bufs|
    modifies c, c.sendBuf
    ensures c.SendBounds() && c.Points(bufs) && c.Snapshot() == ApplyCall(old(c.Snapshot()), call, k)
  {
    hide SendQueue.Put, SendQueue.Fits, ElConnection.Outgoing, ElConnection.SendBounds;
    match call
    case Add(data) => var _ := c.AddToSendBuffer(data);
    case Setup(totalToRecv, recvd) => c.SetupToRecv(totalToRecv, recvd);
    case SetHttp(h) =>
      c.state, c.whichIncompleteRequest := h.state, h.whichIncomplete;
      c.prevBufLen, c.contentLen := h.prevBufLen, h.contentLen;
    case Switch(buf, capacity) =>
      c.recvBuf, c.recvBufId := bufs[buf], buf;
      c.recvBufCapacity := capacity;
    case CloseConnection => c.Close();
  }

  /** AppOnRecv of an arbitrary application. */
  method RunScript(c: ElConnection, calls: seq<AppCall>, bufs: seq<array<byte>>, ghost k: Limits)
    requires c.SendBounds() && c.sendBuf.Length == k.sendBufLen && c.Points(bufs)
    requires forall i :: 0 <= i < |calls| && calls[i].Switch? ==> calls[i].buf < |bufs|
    modifies c, c.sendBuf
    ensures c.SendBounds() && c.Points(bufs) && c.Snapshot() == ApplyCalls(old(c.Snapshot()), calls, k)
  {
    hide ApplyCall, ElConnection.Snapshot;
    for i := 0 to |calls|
      invariant c.SendBounds() && c.Points(bufs) && c.Snapshot() == ApplyCalls(old(c.Snapshot()), calls[..i], k)
    {
      assert calls[..i + 1][..i] == calls[..i];
      Call(c, calls[i], bufs, k);
    }
    assert calls[..|calls|] == calls;
  }

  /** Every switch of a script names a buffer and a capacity it has. */
  predicate ScriptValid(calls: seq<AppCall>, bufs: seq<array<byte>>) {
    forall i :: 0 <= i < |calls| && calls[i].Switch? ==>
      calls[i].buf < |bufs| && calls[i].capacity <= bufs[calls[i].buf].Length
  }

  /** The application's code would read outside a buffer, or use one that is not there. */
  predicate Hazardous(store: ImageStore, c: ElConnection)
    reads store, c, c.recvBuf
    requires c.recvIdx <= c.recvBuf.Length
  {
    || (c.state == ReceivingHead && !HeadSpec.Readable(c.recvBuf[..], c.recvIdx, c.prevBufLen))
    || (CallsOnPostImage(c) &&
        (|| store.gRecvBuf == null || store.gRecvBuf == store.imageBuffer
         || store.gHeadLen + store.gBodyLen > store.gRecvBuf.Length || c.recvBufLen > store.gRecvBuf.Length
         || store.gBodyLen > store.imageBuffer.Length))
  }

  predicate CallsOnPostImage(c: ElConnection)
    reads c, c.recvBuf
    requires c.recvIdx <= c.recvBuf.Length
  {
    match c.state
    case ReceivingHead =>
      var d := Decide(c.recvBuf[..], c.recvIdx, c.prevBufLen);
      d.Whole? && d.path == IMAGE_PATH
    case ReceivingBody => c.recvIdx >= c.contentLen && c.whichIncompleteRequest == Image
    case _ => false
  }

  lemma HazardIsUndefined(store: ImageStore, c: ElConnection, bufs: seq<array<byte>>, l: Local, k: Limits)
    requires store.Shows(c, bufs, l, k) && Sane(l)
    ensures c.recvIdx <= c.recvBuf.Length && (Hazardous(store, c) <==> !Defined(l, k))
  {
    hide Decide, ElConnection.Outgoing, ElConnection.SendBounds;
    assert c.recvBuf[..] == l.heap[l.conn.buf];
    assert c.recvBuf[..c.recvIdx] == l.heap[l.conn.buf][..l.conn.recvIdx];
    if store.gRecvBuf != null {
      assert l.heap[l.store.gRecvBuf.value] == store.gRecvBuf[..];
      assert store.gRecvBuf == store.imageBuffer <==> l.store.gRecvBuf.value == IMAGE_BUF;
    }
  }

  lemma IsStarved(store: ImageStore, c: ElConnection, bufs: seq<array<byte>>, l: Local, k: Limits)
    requires store.Shows(c, bufs, l, k)
    ensures Starved(l.conn) <==> c.state == ReceivingBody && c.recvIdx < c.contentLen && c.toRecv == 0
  {
    c.SnapshotFields();
    hide ElConnection.Snapshot;
  }

  lemma ScriptIsValid(store: ImageStore, c: ElConnection, bufs: seq<array<byte>>, l: Local, calls: seq<AppCall>,
                      k: Limits)
    requires store.Shows(c, bufs, l, k)
    ensures ScriptValid(calls, bufs) <==> ValidCalls(calls, l.heap)
  {
    assert forall i :: 0 <= i < |bufs| ==> |l.heap[i]| == bufs[i].Length;
    hide ElConnection.Snapshot;
  }

  /** A script leaves buffers and globals alone. */
  method ScriptOnRecv(store: ImageStore, c: ElConnection, calls: seq<AppCall>, bufs: seq<array<byte>>,
                      ghost l: Local, ghost k: Limits)
    requires store.Shows(c, bufs, l, k) && ScriptValid(calls, bufs) && store.imageBuffer != c.sendBuf
    modifies c, c.sendBuf
    ensures store.Shows(c, bufs, l.(conn := ApplyCalls(l.conn, calls, k)), k)
  {
    assert c.sendBuf !in bufs;
    hide ElConnection.Snapshot, ApplyCalls;
    RunScript(c, calls, bufs, k);
  }

  /** The code does as the value says. */
  ghost predicate Reaches(stop: Stop, o: Outcome<Local>, store: ImageStore, c: ElConnection, bufs: seq<array<byte>>,
                          k: Limits)
    reads store, c, c.sendBuf, bufs
  {
    Stops(stop, o) && (o.Going? ==> store.Shows(c, bufs, o.value, k))
  }

  /** What is called when data has arrived. */
  method OnRecv(store: ImageStore, sse: bool, c: ElConnection, app: App, bufs: seq<array<byte>>,
                ghost l: Local, ghost k: Limits) returns (stop: Stop)
    requires store.Shows(c, bufs, l, k) && Sane(l) && store.imageBuffer != c.sendBuf
    modifies store, store.imageBuffer, c, c.sendBuf
    ensures Reaches(stop, Called(l, app, k), store, c, bufs, k)
  {
    hide ImageStore.Shows, Defined, Hazardous, ScriptValid, ValidCalls, ApplyCalls, OwnReact, Starved;
    match app {
      case Script(calls) =>
        ScriptIsValid(store, c, bufs, l, calls, k);
        if !ScriptValid(calls, bufs) {
          return Hazard;
        }
        ScriptOnRecv(store, c, calls, bufs, l, k);
      case Own(replies, waits) =>
        IsStarved(store, c, bufs, l, k);
        if c.state == ReceivingBody && c.recvIdx < c.contentLen && c.toRecv == 0 {
          return Assertion;
        }
        HazardIsUndefined(store, c, bufs, l, k);
        if Hazardous(store, c) {
          return Hazard;
        }
        store.AppOnRecv(sse, c, replies, waits, bufs, l, k);
    }
    stop := GoOn;
  }

  /** The other receive buffers stay as they were. */
  method ReceiveHeap(c: ElConnection, got: seq<byte>, ghost bufs: seq<array<byte>>, ghost heap: seq<seq<byte>>)
    requires NoAlias(bufs) && Holds(bufs, heap) && c.Points(bufs)
    requires 0 < |got| <= c.toRecv && c.recvIdx + c.toRecv <= c.recvBuf.Length
    modifies c`toRecv, c`recvIdx, c`totalRecv, c.recvBuf
    ensures Holds(bufs, heap[c.recvBufId := Written(heap[c.recvBufId], old(c.recvIdx), got)])
    ensures c.toRecv == old(c.toRecv) - |got| && c.recvIdx == old(c.recvIdx) + |got|
    ensures c.totalRecv == old(c.totalRecv) + |got|
  {
    ghost var was := c.recvBuf[..];
    c.Receive(got);
    WrittenExactly(was, c.recvBuf[..], old(c.recvIdx), got);
    hide Written;
  }

  /** recv() has put `got` into the receive buffer. */
  method ReceiveData(store: ImageStore, c: ElConnection, got: seq<byte>, ghost bufs: seq<array<byte>>,
                     ghost l: Local, ghost k: Limits)
    requires store.Shows(c, bufs, l, k) && LocalBacked(l) && !Overcommitted(l.conn) && 0 < |got| <= c.toRecv
    modifies c`toRecv, c`recvIdx, c`totalRecv, c.recvBuf
    ensures store.Shows(c, bufs, Arrived(l, got), k)
  {
    assert c.recvBuf.Length == |l.heap[c.recvBufId]| && c.recvBuf != c.sendBuf;
    c.SnapshotFields();
    hide ElConnection.Outgoing, ElConnection.SendBounds, Holds, Written;
    ReceiveHeap(c, got, bufs, l.heap);
  }

  /** DoRecv */
  method DoRecv(store: ImageStore, sse: bool, c: ElConnection, recv: RecvResult, app: App, bufs: seq<array<byte>>,
                ghost l: Local, ghost k: Limits) returns (stop: Stop)
    requires store.Shows(c, bufs, l, k) && LocalBacked(l) && c.toRecv > 0 && store.imageBuffer != c.sendBuf
    modifies store, store.imageBuffer, c, c.sendBuf, c.recvBuf
    ensures Reaches(stop, Receiving(l, recv, app, k), store, c, bufs, k)
  {
    c.SnapshotFields();
    hide ImageStore.Memory, Called, Arrived, ElConnection.Outgoing, ElConnection.SendBounds;
    if c.recvIdx + c.toRecv > c.recvBufCapacity {
      return Assertion;
    }
    stop := GoOn;
    match recv
    case NothingYet =>
    case RecvError => c.Close();
    case PeerClosed => c.Close();
    case Data(bytes) =>
      var got := if |bytes| <= c.toRecv then bytes else bytes[..c.toRecv];
      if |got| == 0 {
        c.Close();
      } else {
        hide ImageStore.Shows;
        ReceiveData(store, c, got, bufs, l, k);
        stop := OnRecv(store, sse, c, app, bufs, Arrived(l, got), k);
      }
  }

  /** The end of CheckConnections' turn: output, then hang-up. */
  method Finish(c: ElConnection, r: Revents, send: IoResult, ghost k: Limits)
    requires c.SendBounds() && c.recvBufLen == k.recvBufLen && (r.out ==> c.toSend > 0)
    modifies c`toSend, c`sendIdx, c`totalSend, c`state, c`recvIdx, c`toRecv, c`closed
    ensures c.SendBounds() && c.Snapshot() == Finishing(old(c.Snapshot()), r, send, k)
  {
    c.SnapshotFields();
    hide ElConnection.Snapshot, ElConnection.SendBounds, Sent;
    if r.out {
      var result := match send
        case Count(n) => Count(if n <= c.toSend then n else c.toSend)
        case other => other;
      c.DoSend(result);
    }
    if r.hup {
      c.Close();
    }
  }

  method FinishShown(store: ImageStore, c: ElConnection, r: Revents, send: IoResult, ghost bufs: seq<array<byte>>,
                     ghost l: Local, ghost k: Limits)
    requires store.Shows(c, bufs, l, k) && (r.out ==> c.toSend > 0)
    modifies c`toSend, c`sendIdx, c`totalSend, c`state, c`recvIdx, c`toRecv, c`closed
    ensures store.Shows(c, bufs, l.(conn := Finishing(l.conn, r, send, k)), k)
  {
    assert c.recvBufLen == k.recvBufLen;
    hide ElConnection.Snapshot, ElConnection.SendBounds, ImageStore.Memory, Finishing;
    Finish(c, r, send, k);
  }

  /** One turn of CheckConnections. */
  method CheckConnection(store: ImageStore, sse: bool, c: ElConnection, pfd: PollFd, e: Event, bufs: seq<array<byte>>,
                         ghost l: Local, ghost k: Limits) returns (stop: Stop)
    requires store.Shows(c, bufs, l, k) && LocalBacked(l) && store.imageBuffer != c.sendBuf
    requires Matches(pfd, l.conn) && pfd.revents == PollReports(pfd, e.raw)
    modifies store, store.imageBuffer, c, c.sendBuf, c.recvBuf
    ensures Reaches(stop, Turned(l, e, k), store, c, bufs, k)
  {
    c.SnapshotFields();
    hide ElConnection.Snapshot, ImageStore.Memory, Receiving, Finishing;
    ghost var m := l;
    if pfd.revents.err {
      c.Close();
      m := l.(conn := l.conn.(closed := true));
    }
    if pfd.revents.in_ {
      stop := DoRecv(store, sse, c, e.recv, e.app, bufs, m, k);
      if !stop.GoOn? {
        return;
      }
      ReceivingGrows(m, e.recv, e.app, k);
      m := Receiving(m, e.recv, e.app, k).value;
    }
    c.SnapshotFields();
    FinishShown(store, c, pfd.revents, e.send, bufs, m, k);
    stop := GoOn;
  }

  /** Receiving never shortens what waits to be sent, so a reported POLLOUT finds something to send. */
  lemma ReceivingGrows(l: Local, recv: RecvResult, app: App, k: Limits)
    requires LocalBacked(l) && Receiving(l, recv, app, k).Going?
    ensures |Receiving(l, recv, app, k).value.conn.queue.pending| >= |l.conn.queue.pending|
  {
    hide Defined, OwnReact, ApplyCalls, Written;
    if recv.Data? && Got(l.conn, recv.bytes) != [] {
      var a := Arrived(l, Got(l.conn, recv.bytes));
      match app {
        case Script(calls) => ApplyCallsGrow(a.conn, calls, k);
        case Own(replies, waits) =>
          OwnReactionIsCalls(a, replies, waits, k);
          ApplyCallsGrow(a.conn, CallsOf(a, replies, waits, k), k);
      }
    }
  }

  /** The body of AppOnPollTimeout's loop. */
  method SendTick(c: ElConnection, tick: Tick, ghost k: Limits)
    requires c.SendBounds() && c.sendBuf.Length == k.sendBufLen
    modifies c`toSend, c.sendBuf
    ensures c.SendBounds() && c.Snapshot() == Ticked(old(c.Snapshot()), tick, k)
  {
    hide SendQueue.PutChunk, ElConnection.Outgoing;
    if c.state == WaitSending {
      c.SendChunkWithData(tick);
    }
  }

  // ---- The list of connections ----

  /** The objects in the given nodes. */
  function ObjectsAt<T>(memory: seq<T>, nodes: seq<nat>): (objects: seq<T>)
    requires forall j :: 0 <= j < |nodes| ==> nodes[j] < |memory|
    ensures |objects| == |nodes| && forall j :: 0 <= j < |nodes| ==> objects[j] == memory[nodes[j]]
  {
    seq(|nodes|, j requires 0 <= j < |nodes| => memory[nodes[j]])
  }

  lemma ErasedObjects<T>(memory: seq<T>, p: Pool, i: nat)
    requires i < |p.active| && forall j :: 0 <= j < |p.active| ==> p.active[j] < |memory|
    ensures forall j :: 0 <= j < |p.active| - 1 ==> EraseAt(p, i).active[j] < |memory|
    ensures |EraseAt(p, i).active| == |p.active| - 1
    ensures ObjectsAt(memory, EraseAt(p, i).active) ==
            ObjectsAt(memory, p.active)[..i] + ObjectsAt(memory, p.active)[i + 1..]
    ensures (forall j :: 0 <= j < |p.free| ==> p.free[j] < |memory|) ==>
              && (forall j :: 0 <= j < |EraseAt(p, i).free| ==> EraseAt(p, i).free[j] < |memory|)
              && ObjectsAt(memory, EraseAt(p, i).free) == [memory[p.active[i]]] + ObjectsAt(memory, p.free)
  {
    assert forall j :: 0 <= j < |p.active| - 1 ==> EraseAt(p, i).active[j] == p.active[if j < i then j else j + 1];
  }

  class ElServer {
    const connections: FList<ElConnection>
    const store: ImageStore  // the globals of ServerApp.c
    const sendBufLen: nat    // SEND_BUF_LEN
    const recvBufLen: nat    // RECV_BUF_LEN
    var toAccept: int
    var bufs: seq<array<byte>>  // all receive buffers there have been, the image buffer first

    ghost var repr: set<object>                   // the connections in the nodes, the globals and all buffers
    ghost const owner: map<object, ElConnection>  // whose a send buffer is

    constructor (connections: FList<ElConnection>, store: ImageStore, sendBufLen: nat, recvBufLen: nat,
                 ghost repr: set<object>, ghost owner: map<object, ElConnection>)
      ensures this.connections == connections && this.store == store
      ensures this.sendBufLen == sendBufLen && this.recvBufLen == recvBufLen
      ensures this.repr == repr && this.owner == owner && this.bufs == [store.imageBuffer]
    {
      this.connections, this.store, this.sendBufLen, this.recvBufLen := connections, store, sendBufLen, recvBufLen;
      toAccept := -1;
      bufs := [store.imageBuffer];
      this.repr, this.owner := repr, owner;
    }

    ghost function Limit(): Limits {
      Limits(connections.maxNodeNum, sendBufLen, recvBufLen)
    }

    /** The node array holds one connection object per node, each with a send buffer of its own. */
    ghost predicate Memory()
      reads this`repr, connections, connections.memory
    {
      && connections.memory.Length == connections.maxNodeNum
      && (forall i, j :: 0 <= i < j < connections.memory.Length ==> connections.memory[i] != connections.memory[j])
      && (forall i :: 0 <= i < connections.memory.Length ==> Owned(connections.memory[i]))
      && this !in repr && connections !in repr && connections.memory !in repr && connections.next !in repr
      && store in repr
    }

    ghost predicate Owned(c: ElConnection)
      reads this`repr
    {
      && c in repr && c.sendBuf in repr && c.sendBuf in owner && owner[c.sendBuf] == c
      && c.sendBuf.Length == sendBufLen > 0 && c.recvBufLen == recvBufLen > 0
    }

    /** The receive buffers are known by their numbers, and none is a send buffer. */
    ghost predicate Buffers()
      reads this`repr, this`bufs, store, repr
    {
      && NoAlias(bufs) && store.GlobalsPoint(bufs)
      && forall i :: 0 <= i < |bufs| ==> bufs[i] in repr && bufs[i] !in owner
    }

    /** The listed connections, in the order of the list: one object each. */
    ghost function Listed(): (cs: seq<ElConnection>)
      reads this`repr, connections, connections.next, connections.memory
      requires Memory() && connections.Valid()
      ensures |cs| == |connections.pool.active| == connections.len
      ensures forall j :: 0 <= j < |cs| ==> Owned(cs[j])
      ensures forall j, k :: 0 <= j < k < |cs| ==> cs[j] != cs[k]
    {
      ObjectsAt(connections.memory[..], connections.pool.active)
    }

    /** The free nodes' objects, the next one to be handed out first. */
    ghost function Free(): (cs: seq<ElConnection>)
      reads this`repr, connections, connections.next, connections.memory
      requires Memory() && connections.Valid()
      ensures |cs| == |connections.pool.free|
      ensures forall j :: 0 <= j < |cs| ==> Owned(cs[j]) && cs[j] !in Listed()
    {
      FreeOrListed();
      ObjectsAt(connections.memory[..], connections.pool.free)
    }

    lemma FreeOrListed()
      requires Memory() && connections.Valid()
      ensures forall i, j :: 0 <= i < |connections.pool.free| && 0 <= j < |Listed()| ==>
                connections.memory[connections.pool.free[i]] != Listed()[j]
    {
    }

    lemma ListedAt(i: nat)
      requires Memory() && connections.Valid() && i < |Listed()|
      ensures var node := At(connections.pool, connections.maxNodeNum, i);
              && 0 <= node < connections.maxNodeNum == connections.memory.Length
              && connections.memory[node] == Listed()[i]
              && node == Before(connections.pool, connections.maxNodeNum, i + 1) == connections.pool.active[i]
    {
    }

    /** A listed connection has the given value. */
    ghost predicate IsShown(c: ElConnection, s: Conn)
      reads this`bufs, c, c.sendBuf
    {
      ShownIn(c, s, bufs)
    }

    static ghost predicate ShownIn(c: ElConnection, s: Conn, bufs: seq<array<byte>>)
      reads c, c.sendBuf
    {
      c.SendBounds() && c.Points(bufs) && c.Snapshot() == s
    }

    /** List, free nodes, receive buffers and globals are those of the world. */
    ghost predicate Shows(w: World)
      reads this`repr, this`bufs, connections, connections.next, connections.memory, repr
    {
      && Memory() && connections.Valid() && Buffers()
      && Holds(bufs, w.heap) && store.Globals() == w.store && AllBacked(w)
      && |w.conns| == |Listed()| && (forall j :: 0 <= j < |w.conns| ==> IsShown(Listed()[j], w.conns[j]))
      && |w.stale| == |Free()| && (forall j :: 0 <= j < |w.stale| ==> Free()[j].Http() == w.stale[j])
    }

    /** The lockstep: entry 1 + j is made for the j-th listed connection, and no listed connection is closed. */
    ghost predicate Lockstep(fds: array<PollFd>, nfds: nat, w: World)
      reads this`repr, this`bufs, connections, connections.next, connections.memory, repr, fds
    {
      && Shows(w)
      && fds.Length == 1 + connections.maxNodeNum && fds !in repr
      && nfds == 1 + |w.conns| && Entries(fds, w.conns) && AllOpen(w.conns)
    }

    /** The lockstep, spelled out for the objects. */
    lemma LockstepAt(fds: array<PollFd>, nfds: nat, w: World, j: nat)
      requires Lockstep(fds, nfds, w) && j < |Listed()|
      ensures 1 + j < nfds <= fds.Length
      ensures var c, p := Listed()[j], fds[1 + j];
              p.fd == c.fd && (p.wantIn <==> c.toRecv > 0) && (p.wantOut <==> c.toSend > 0) && !c.closed
    {
      hide Listed, Memory, FList.Valid;
      Listed()[j].SnapshotFields();
    }

    // ---- One connection of the list ----

    /** Two connections share no object, and their send buffers are no receive buffers. */
    lemma Apart(c: ElConnection, d: ElConnection)
      requires Memory() && Buffers() && Owned(c) && Owned(d) && c != d
      ensures c.sendBuf != d.sendBuf && c.sendBuf !in bufs && d.sendBuf !in bufs
    {
    }

    /** A listed connection by itself. */
    lemma Focus(w: World, i: nat)
      requires Shows(w) && i < |w.conns|
      ensures var c := Listed()[i];
              && store.Shows(c, bufs, LocalAt(w, i), Limit()) && LocalBacked(LocalAt(w, i))
              && store.imageBuffer != c.sendBuf && c.recvBuf in repr && store in repr && store.imageBuffer in repr
              && c in repr && c.sendBuf in repr
    {
      hide FList.Valid, Listed;
      var c := Listed()[i];
      assert IsShown(c, w.conns[i]) && Owned(c);
      hide ElConnection.Snapshot;
    }

    /** What a turn of `c` does not touch. */
    ghost predicate Untouched(c: ElConnection, d: ElConnection)
      reads this`bufs, store, c`recvBuf
    {
      && d != c && d.sendBuf != c.sendBuf && d.sendBuf != c.recvBuf && d.sendBuf != store.imageBuffer
      && c.sendBuf !in bufs && d.sendBuf !in bufs
    }

    lemma OthersUntouched(w: World, i: nat)
      requires Shows(w) && i < |w.conns|
      ensures forall j :: 0 <= j < |w.conns| && j != i ==> Untouched(Listed()[i], Listed()[j])
      ensures forall j :: 0 <= j < |w.stale| ==> Untouched(Listed()[i], Free()[j])
    {
      var c := Listed()[i];
      assert IsShown(c, w.conns[i]);
      forall j | 0 <= j < |w.conns| && j != i ensures Untouched(c, Listed()[j]) {
        Apart(c, Listed()[j]);
      }
      forall j | 0 <= j < |w.stale| ensures Untouched(c, Free()[j]) {
        Apart(c, Free()[j]);
      }
    }

    /** The world after the turn of a listed connection. */
    lemma Refocus(w: World, i: nat, l: Local)
      requires i < |w.conns| && Memory() && connections.Valid() && AllBacked(WithLocal(w, i, l))
      requires |w.conns| == |Listed()| && |w.stale| == |Free()|
      requires forall j :: 0 <= j < |bufs| ==> bufs[j] in repr && bufs[j] !in owner
      requires store.Shows(Listed()[i], bufs, l, Limit())
      requires forall j :: 0 <= j < |w.conns| && j != i ==> IsShown(Listed()[j], w.conns[j])
      requires forall j :: 0 <= j < |w.stale| ==> Free()[j].Http() == w.stale[j]
      ensures Shows(WithLocal(w, i, l))
    {
      assert IsShown(Listed()[i], l.conn);
      hide IsShown, FList.Valid, Memory, Listed, Free;
    }

    /** One turn of CheckConnections: `cs` are the listed connections, of which `c` is the `i`-th, `fs` the free ones.
        */
    method TurnListed(ghost i: nat, sse: bool, c: ElConnection, pfd: PollFd, e: Event, ghost w: World,
                      ghost cs: seq<ElConnection>, ghost fs: seq<ElConnection>) returns (stop: Stop)
      requires i < |w.conns| == |cs| && c == cs[i] && |fs| == |w.stale| && AllBacked(w)
      requires store.Shows(c, bufs, LocalAt(w, i), Limit()) && store.imageBuffer != c.sendBuf
      requires Matches(pfd, w.conns[i]) && pfd.revents == PollReports(pfd, e.raw)
      requires forall j :: 0 <= j < |cs| && j != i ==> Untouched(c, cs[j]) && IsShown(cs[j], w.conns[j])
      requires forall j :: 0 <= j < |fs| ==> Untouched(c, fs[j]) && fs[j].Http() == w.stale[j]
      modifies store, store.imageBuffer, c, c.sendBuf, c.recvBuf
      ensures Stops(stop, Turned(LocalAt(w, i), e, Limit()))
      ensures stop.GoOn? ==> store.Shows(c, bufs, Turned(LocalAt(w, i), e, Limit()).value, Limit())
      ensures forall j :: 0 <= j < |cs| && j != i ==> IsShown(cs[j], w.conns[j])
      ensures forall j :: 0 <= j < |fs| ==> fs[j].Http() == w.stale[j]
    {
      hide IsShown, Turned, ElConnection.Http, ImageStore.Shows;
      stop := CheckConnection(store, sse, c, pfd, e, bufs, LocalAt(w, i), Limit());
    }

    /** The same, seen from the list: the other connections and the order stay as they were. */
    method CheckListed(ghost i: nat, sse: bool, c: ElConnection, pfd: PollFd, e: Event, ghost w: World)
      returns (stop: Stop)
      requires Shows(w) && i < |w.conns| && c == Listed()[i]
      requires Matches(pfd, w.conns[i]) && pfd.revents == PollReports(pfd, e.raw)
      modifies store, store.imageBuffer, c, c.sendBuf, c.recvBuf
      ensures Memory() && connections.Valid() && Listed() == old(Listed())
      ensures Stops(stop, TurnAt(w, i, e, Limit()))
      ensures stop.GoOn? ==> Shows(TurnAt(w, i, e, Limit()).value)
    {
      hide FList.Valid, IsShown, Turned, ElConnection.Http, Shows, ImageStore.Shows, Untouched, Owned, Free, Listed;
      hide Memory, Buffers, Holds, ImageStore.Globals;
      Parts(w);
      OutOfRepr();
      ghost var cs, fs := Listed(), Free();
      Focus(w, i);
      OthersUntouched(w, i);
      stop := TurnListed(i, sse, c, pfd, e, w, cs, fs);
      assert Listed() == cs && Free() == fs;
      if stop.GoOn? {
        assert TurnAt(w, i, e, Limit()) == Going(WithLocal(w, i, Turned(LocalAt(w, i), e, Limit()).value));
        Refocus(w, i, Turned(LocalAt(w, i), e, Limit()).value);
      }
    }

    lemma Parts(w: World)
      requires Shows(w)
      ensures Memory() && connections.Valid() && |w.conns| == |Listed()| && |w.stale| == |Free()| && AllBacked(w)
      ensures forall j :: 0 <= j < |w.conns| ==> IsShown(Listed()[j], w.conns[j])
      ensures forall j :: 0 <= j < |w.stale| ==> Free()[j].Http() == w.stale[j]
      ensures forall j :: 0 <= j < |bufs| ==> bufs[j] in repr && bufs[j] !in owner
      ensures Buffers() && Holds(bufs, w.heap) && store.Globals() == w.store
    {
    }

    // ---- poll() and accept() ----

    /** poll(): only the reported events of the first `nfds` entries change. */
    method Poll(fds: array<PollFd>, nfds: nat, listenErr: bool, accepting: bool, events: nat -> Event)
      requires 1 <= nfds <= fds.Length
      modifies fds
      ensures fds[0].revents == Revents(listenErr, accepting, false, false)
      ensures forall j :: 0 <= j < nfds - 1 ==>
                fds[1 + j] == old(fds[1 + j]).(revents := PollReports(old(fds[1 + j]), events(j).raw))
    {
      fds[0] := fds[0].(revents := Revents(listenErr, accepting, false, false));
      for j := 0 to nfds - 1
        invariant fds[0].revents == Revents(listenErr, accepting, false, false)
        invariant forall k :: 1 + j <= k < nfds ==> fds[k] == old(fds[k])
        invariant forall k :: 0 <= k < j ==>
                    fds[1 + k] == old(fds[1 + k]).(revents := PollReports(old(fds[1 + k]), events(k).raw))
      {
        fds[1 + j] := fds[1 + j].(revents := PollReports(fds[1 + j], events(j).raw));
      }
    }

    /** CheckAccept and OnReadyAccept: a connection is remembered, not yet listed. */
    method CheckAccept(listening: PollFd, accepted: Option<nat>)
      modifies this`toAccept
      ensures toAccept == if !listening.revents.err && listening.revents.in_ && accepted.Some? then accepted.value
                          else old(toAccept)
    {
      if listening.revents.err {
        return;
      }
      if listening.revents.in_ {
        match accepted
        case None =>
        case Some(fd) => toAccept := fd;
      }
    }

    /** A walk along the list has reached the node of the `i`-th connection, or the end. */
    ghost predicate Walking(it: int, i: nat, w: World)
      reads this`repr, this`bufs, connections, connections.next, connections.memory, repr
    {
      Shows(w) && i <= |w.conns| && it == At(connections.pool, connections.maxNodeNum, i)
    }

    lemma WalkEnd(it: int, i: nat, w: World)
      requires Walking(it, i, w)
      ensures it == connections.AfterLast() <==> i == |w.conns|
      ensures i <= |w.conns| && Shows(w) && Memory() && connections.Valid() && AllBacked(w)
    {
      hide Free, Buffers, Holds, IsShown;
    }

    method StartWalk(ghost w: World) returns (it: int)
      requires Shows(w)
      ensures Walking(it, 0, w)
    {
      it := connections.Begin();
    }

    // ---- CheckConnections ----

    /** One turn of the walk. */
    method CheckNode(it: int, sse: bool, pfd: PollFd, ghost i: nat, e: Event, ghost w: World)
      returns (stop: Stop, next: int)
      requires Walking(it, i, w) && i < |w.conns| && AllBacked(w)
      requires Matches(pfd, w.conns[i]) && pfd.revents == PollReports(pfd, e.raw)
      modifies repr
      ensures Memory() && connections.Valid() && repr == old(repr)
      ensures Stops(stop, TurnAt(w, i, e, Limit()))
      ensures stop.GoOn? ==> Walking(next, i + 1, TurnAt(w, i, e, Limit()).value)
    {
      hide FList.Valid, Listed, Memory, TurnAt, Shows, Walking, At, Before;
      NodeAt(it, i, w);
      var c := connections.memory[it];
      assert c.fd == pfd.fd;  // Server.c:145
      stop := CheckListed(i, sse, c, pfd, e, w);
      next := it;
      if stop.GoOn? {
        ghost var v := TurnAt(w, i, e, Limit()).value;
        TurnKeepsCount(w, i, e);
        WalkStep(it, i, v);
        next := connections.Next(it, i + 1);
        WalkOn(next, i + 1, v);
      }
    }

    /** The node the walk has reached. */
    lemma NodeAt(it: int, i: nat, w: World)
      requires Walking(it, i, w) && i < |w.conns|
      ensures Memory() && connections.Valid() && Shows(w) && 0 <= it < connections.memory.Length && i < |Listed()|
      ensures it == Before(connections.pool, connections.maxNodeNum, i + 1)
      ensures var c := connections.memory[it];
              && c == Listed()[i] && c.fd == w.conns[i].fd && c.closed == w.conns[i].closed
              && c in repr && c.sendBuf in repr && c.recvBuf in repr
      ensures store in repr && store.imageBuffer in repr
      ensures this !in repr && connections !in repr && connections.next !in repr && connections.memory !in repr
    {
      ListedAt(i);
      Focus(w, i);
      assert IsShown(Listed()[i], w.conns[i]);
      Listed()[i].SnapshotFields();
    }

    lemma WalkStep(it: int, i: nat, w: World)
      requires Shows(w) && i < |w.conns| && it == Before(connections.pool, connections.maxNodeNum, i + 1)
      ensures connections.Valid() && i + 1 <= |connections.pool.active|
    {
    }

    lemma WalkOn(next: int, i: nat, w: World)
      requires Shows(w) && i <= |w.conns| && next == At(connections.pool, connections.maxNodeNum, i)
      ensures Walking(next, i, w)
    {
    }

    lemma TurnKeepsCount(w: World, i: nat, e: Event)
      requires AllBacked(w) && i < |w.conns| && TurnAt(w, i, e, Limit()).Going?
      ensures |TurnAt(w, i, e, Limit()).value.conns| == |w.conns|
    {
      hide Turned;
    }

    /** Every entry is made for its connection and reports what poll() found. */
    static ghost predicate Polled(fds: array<PollFd>, values: seq<Conn>, events: nat -> Event)
      reads fds
    {
      && |values| < fds.Length
      && forall j :: 0 <= j < |values| ==>
           Matches(fds[1 + j], values[j]) && fds[1 + j].revents == PollReports(fds[1 + j], events(j).raw)
    }

    /** CheckConnections: the list is walked in step with the poll array, and every connection takes its turn. The
        assertion that the descriptors agree never fails; the one in DoRecv exactly where module World says so. */
    method CheckConnections(fds: array<PollFd>, sse: bool, events: nat -> Event, ghost w: World)
      returns (stop: Stop, ghost v: World)
      requires Shows(w) && fds !in repr && Polled(fds, w.conns, events) && AllBacked(w)
      modifies repr
      ensures Memory() && connections.Valid() && repr == old(repr)
      ensures Stops(stop, TurnsUpTo(w, events, |w.conns|, Limit()))
      ensures stop.GoOn? ==> Shows(v) && TurnsUpTo(w, events, |w.conns|, Limit()) == Going(v)
    {
      hide FList.Valid, Listed, Memory, Matches, Shows, Walking, TurnsUpTo, TurnAt;
      var it := StartWalk(w);
      var i := 0;
      stop, v := GoOn, w;
      WalkEnd(it, i, v);
      NoTurn(w, events);
      while it != connections.AfterLast()
        invariant Walking(it, i, v) && Shows(v) && Memory() && connections.Valid() && repr == old(repr) && stop.GoOn?
        invariant i <= |w.conns| == |v.conns| && AllBacked(v) && TurnsUpTo(w, events, i, Limit()) == Going(v)
        invariant it == connections.AfterLast() <==> i == |w.conns|
        decreases |w.conns| - i
      {
        NextTurn(w, events, i, v);
        stop, it := CheckNode(it, sse, fds[1 + i], i, events(i), v);
        if !stop.GoOn? {
          StoppedEarly(w, events, i + 1);
          return;
        }
        v := TurnAt(v, i, events(i), Limit()).value;
        i := i + 1;
        WalkEnd(it, i, v);
      }
    }

    lemma NoTurn(w: World, events: nat -> Event)
      requires AllBacked(w)
      ensures TurnsUpTo(w, events, 0, Limit()) == Going(w)
    {
    }

    lemma NextTurn(w: World, events: nat -> Event, i: nat, v: World)
      requires AllBacked(w) && i < |w.conns| && TurnsUpTo(w, events, i, Limit()) == Going(v)
      ensures |v.conns| == |w.conns| && v.conns[i] == w.conns[i] && AllBacked(v)
      ensures TurnsUpTo(w, events, i + 1, Limit()) == TurnAt(v, i, events(i), Limit())
      ensures TurnAt(v, i, events(i), Limit()).Going? ==>
                var u := TurnAt(v, i, events(i), Limit()).value; AllBacked(u) && |u.conns| == |w.conns|
    {
      hide TurnAt;
    }

    /** What stops the loop at one connection stops it for good. */
    lemma {:induction false} StoppedEarly(w: World, events: nat -> Event, i: nat)
      requires AllBacked(w) && i <= |w.conns| && !TurnsUpTo(w, events, i, Limit()).Going?
      ensures TurnsUpTo(w, events, |w.conns|, Limit()) == TurnsUpTo(w, events, i, Limit())
      decreases |w.conns| - i
    {
      hide TurnAt;
      if i < |w.conns| {
        assert TurnsUpTo(w, events, i + 1, Limit()) == TurnsUpTo(w, events, i, Limit());
        StoppedEarly(w, events, i + 1);
      }
    }

    // ---- AppOnPollTimeout ----

    /** The `i`-th connection has got its tick. */
    static ghost function WithTick(w: World, i: nat, tick: Tick, k: Limits): World
      requires i < |w.conns|
    {
      w.(conns := w.conns[i := Ticked(w.conns[i], tick, k)])
    }

    method TickListed(ghost i: nat, c: ElConnection, tick: Tick, ghost w: World)
      requires Shows(w) && i < |w.conns| && c == Listed()[i]
      modifies c`toSend, c.sendBuf
      ensures Shows(WithTick(w, i, tick, Limit()))
    {
      ghost var cs, fs, heap := Listed(), Free(), w.heap;
      Focus(w, i);
      OthersUntouched(w, i);
      Parts(w);
      TickedBacked(w.conns[i], tick, w.heap, Limit());
      hide FList.Valid, IsShown, ElConnection.Http, Untouched, Free, Listed, Ticked;
      TickObject(i, c, tick, w, cs, fs);
      assert Listed() == cs && Free() == fs;
      Reticked(w, i, tick);
    }

    method TickObject(ghost i: nat, c: ElConnection, tick: Tick, ghost w: World,
                      ghost cs: seq<ElConnection>, ghost fs: seq<ElConnection>)
      requires i < |w.conns| == |cs| && c == cs[i] && |fs| == |w.stale| && IsShown(c, w.conns[i])
      requires c.sendBuf.Length == sendBufLen && Holds(bufs, w.heap) && store.Globals() == w.store && Buffers()
      requires forall j :: 0 <= j < |cs| && j != i ==> Untouched(c, cs[j]) && IsShown(cs[j], w.conns[j])
      requires forall j :: 0 <= j < |fs| ==> Untouched(c, fs[j]) && fs[j].Http() == w.stale[j]
      requires c.sendBuf !in bufs
      modifies c`toSend, c.sendBuf
      ensures IsShown(c, Ticked(w.conns[i], tick, Limit()))
      ensures Holds(bufs, w.heap) && store.Globals() == w.store && Buffers()
      ensures forall j :: 0 <= j < |cs| && j != i ==> IsShown(cs[j], w.conns[j])
      ensures forall j :: 0 <= j < |fs| ==> fs[j].Http() == w.stale[j]
    {
      hide ElConnection.Http, ElConnection.Snapshot, Ticked;
      SendTick(c, tick, Limit());
    }

    lemma Reticked(w: World, i: nat, tick: Tick)
      requires i < |w.conns| && Memory() && connections.Valid() && AllBacked(w) && Buffers()
      requires Holds(bufs, w.heap) && store.Globals() == w.store
      requires |w.conns| == |Listed()| && |w.stale| == |Free()|
      requires IsShown(Listed()[i], Ticked(w.conns[i], tick, Limit()))
      requires forall j :: 0 <= j < |w.conns| && j != i ==> IsShown(Listed()[j], w.conns[j])
      requires forall j :: 0 <= j < |w.stale| ==> Free()[j].Http() == w.stale[j]
      ensures Shows(WithTick(w, i, tick, Limit()))
    {
      TickedBacked(w.conns[i], tick, w.heap, Limit());
      hide IsShown, FList.Valid, Memory, Listed, Free, Ticked, Buffers, Holds;
    }

    method TimeoutNode(it: int, ghost i: nat, tick: Tick, ghost w: World) returns (next: int)
      requires Walking(it, i, w) && i < |w.conns|
      modifies repr
      ensures Walking(next, i + 1, WithTick(w, i, tick, Limit())) && repr == old(repr)
    {
      hide FList.Valid, Listed, Memory, Ticked, Shows, Walking, At, Before;
      NodeAt(it, i, w);
      TickListed(i, connections.memory[it], tick, w);
      ghost var v := WithTick(w, i, tick, Limit());
      WalkStep(it, i, v);
      next := connections.Next(it, i + 1);
      WalkOn(next, i + 1, v);
    }

    /** AppOnPollTimeout: every client that listens for periodic data gets one chunk. */
    method AppOnPollTimeout(ticks: nat -> Tick, ghost w: World) returns (ghost v: World)
      requires Shows(w)
      modifies repr
      ensures Shows(v) && repr == old(repr) && v == w.(conns := AllTicked(w.conns, ticks, Limit()))
    {
      hide FList.Valid, Listed, Memory, Ticked, Shows, Walking, AllTicked;
      v := w;
      var it := StartWalk(w);
      var i := 0;
      WalkEnd(it, i, v);
      while it != connections.AfterLast()
        invariant Walking(it, i, v) && Shows(v) && connections.Valid() && repr == old(repr)
        invariant i <= |w.conns| == |v.conns| && v == w.(conns := v.conns)
        invariant it == connections.AfterLast() <==> i == |w.conns|
        invariant forall j :: 0 <= j < i ==> v.conns[j] == Ticked(w.conns[j], ticks(j), Limit())
        invariant forall j :: i <= j < |w.conns| ==> v.conns[j] == w.conns[j]
        decreases |w.conns| - i
      {
        it := TimeoutNode(it, i, ticks(i), v);
        v := WithTick(v, i, ticks(i), Limit());
        i := i + 1;
        WalkEnd(it, i, v);
      }
      assert v.conns == AllTicked(w.conns, ticks, Limit());
    }

    // ---- Rebuilding list and poll array ----

    /** PushBackFds */
    static method PushBackFds(c: ElConnection, fds: array<PollFd>, i: nat)
      requires c.SendBounds() && i < fds.Length
      modifies fds
      ensures c.SendBounds() && Matches(fds[i], c.Snapshot())
      ensures forall k :: 0 <= k < fds.Length && k != i ==> fds[k] == old(fds[k])
    {
      c.SnapshotFields();
      fds[i] := PollFd(c.fd, c.toRecv > 0, c.toSend > 0, fds[i].revents);
      c.SnapshotFields();
    }

    /** The walk has kept the connections `kept`, which come first in the list and have their entries in the poll array;
        the connections `rest` are still to be looked at; `it` is the node before them. */
    ghost predicate Rebuilt(fds: array<PollFd>, w: World, kept: seq<Conn>, rest: seq<Conn>, it: int)
      reads this`repr, this`bufs, connections, connections.next, connections.memory, repr, fds
    {
      && Shows(w) && w.conns == kept + rest
      && it == Before(connections.pool, connections.maxNodeNum, |kept|)
      && fds.Length == 1 + connections.maxNodeNum && fds !in repr
      && Entries(fds, kept)
    }

    /** The same, with the node after `it`. */
    ghost predicate Rebuilding(fds: array<PollFd>, w: World, kept: seq<Conn>, rest: seq<Conn>, it: int, next: int)
      reads this`repr, this`bufs, connections, connections.next, connections.memory, repr, fds
    {
      Rebuilt(fds, w, kept, rest, it) && next == At(connections.pool, connections.maxNodeNum, |kept|)
    }

    lemma RebuildStart(fds: array<PollFd>, w: World)
      requires Shows(w) && fds.Length == 1 + connections.maxNodeNum && fds !in repr
      ensures Rebuilt(fds, w, [], w.conns, connections.BeforeFirst())
    {
      assert [] + w.conns == w.conns;
    }

    lemma RebuildEnd(fds: array<PollFd>, w: World, kept: seq<Conn>, rest: seq<Conn>, it: int, next: int)
      requires Rebuilding(fds, w, kept, rest, it, next)
      ensures Rebuilt(fds, w, kept, rest, it) && 0 < fds.Length
      ensures next == connections.AfterLast() <==> rest == []
    {
      hide IsShown, Free, Buffers, Holds;
      assert |kept + rest| == |connections.pool.active|;
    }

    lemma NextNode(fds: array<PollFd>, w: World, kept: seq<Conn>, rest: seq<Conn>, it: int, next: int)
      requires Rebuilding(fds, w, kept, rest, it, next) && rest != []
      ensures 0 <= next < connections.memory.Length && |kept| < connections.maxNodeNum
      ensures next == Before(connections.pool, connections.maxNodeNum, |kept| + 1)
      ensures var c := connections.memory[next];
              c.SendBounds() && c.Snapshot() == rest[0] && c.closed == rest[0].closed
    {
      var i := |kept|;
      assert (kept + rest)[i] == rest[0];
      ListedAt(i);
      assert IsShown(Listed()[i], w.conns[i]);
      connections.memory[next].SnapshotFields();
      hide ElConnection.Snapshot;
    }

    /** The `i`-th connection leaves the list; the others move up. Its node is the next one to be handed out. */
    method Unlist(it: int, ghost i: nat)
      requires Memory() && connections.Valid() && i < |Listed()|
      requires it == Before(connections.pool, connections.maxNodeNum, i)
      modifies connections, connections.next
      ensures Memory() && connections.Valid() && Listed() == old(Listed()[..i] + Listed()[i + 1..])
      ensures Free() == old([Listed()[i]] + Free())
      ensures it == Before(connections.pool, connections.maxNodeNum, i)
    {
      FreeNodes();
      ErasedObjects(connections.memory[..], connections.pool, i);
      hide FList.Valid, Before, EraseAt, ObjectsAt;
      BeforeNode(it, i);
      var _ := connections.EraseAfter(it, i);
    }

    lemma FreeNodes()
      requires Memory() && connections.Valid()
      ensures forall j :: 0 <= j < |connections.pool.free| ==> connections.pool.free[j] < connections.memory.Length
    {
    }

    lemma BeforeNode(it: int, i: nat)
      requires connections.Valid() && i < |connections.pool.active|
      requires it == Before(connections.pool, connections.maxNodeNum, i)
      ensures it != connections.AfterLast() && connections.len > 0
      ensures Before(EraseAt(connections.pool, i), connections.maxNodeNum, i) == it
    {
    }

    /** The world without its `i`-th connection, whose node is free now. */
    static ghost function Without(w: World, i: nat): World
      requires i < |w.conns|
    {
      w.(conns := w.conns[..i] + w.conns[i + 1..], stale := [w.conns[i].http] + w.stale)
    }

    /** A connection is taken out; the others are as they were. */
    method DropListed(it: int, ghost i: nat, ghost w: World)
      requires Shows(w) && i < |w.conns| && it == Before(connections.pool, connections.maxNodeNum, i)
      modifies connections, connections.next
      ensures Shows(Without(w, i)) && it == Before(connections.pool, connections.maxNodeNum, i)
    {
      hide FList.Valid, IsShown, Before, Listed, Free, Shows, Buffers, Holds, ElConnection.Http, Memory, Owned;
      hide ImageStore.Globals, AllBacked;
      Parts(w);
      ghost var cs, fs := Listed(), Free();
      InRepr(cs, fs);
      Unlist(it, i);
      ShowsWithout(cs, fs, i, w);
    }

    lemma InRepr(cs: seq<ElConnection>, fs: seq<ElConnection>)
      requires Memory() && connections.Valid() && cs == Listed() && fs == Free()
      ensures forall j :: 0 <= j < |cs| ==> cs[j] in repr && cs[j].sendBuf in repr
      ensures forall j :: 0 <= j < |fs| ==> fs[j] in repr
      ensures store in repr && connections !in repr && connections.next !in repr
    {
    }

    lemma OutOfRepr()
      requires Memory()
      ensures this !in repr && connections !in repr && connections.next !in repr && connections.memory !in repr
    {
    }

    lemma ShowsWithout(cs: seq<ElConnection>, fs: seq<ElConnection>, i: nat, w: World)
      requires |cs| == |w.conns| && i < |cs| && |fs| == |w.stale| && AllBacked(w)
      requires Memory() && connections.Valid() && Buffers() && Holds(bufs, w.heap) && store.Globals() == w.store
      requires forall j :: 0 <= j < |cs| ==> IsShown(cs[j], w.conns[j])
      requires forall j :: 0 <= j < |fs| ==> fs[j].Http() == w.stale[j]
      requires Listed() == cs[..i] + cs[i + 1..] && Free() == [cs[i]] + fs
      ensures Shows(Without(w, i))
    {
      assert IsShown(cs[i], w.conns[i]);
      cs[i].SnapshotFields();
      hide FList.Valid, IsShown, Listed, Free, Memory, Buffers, Holds, ElConnection.Http, ElConnection.Snapshot, Shows;
      hide Backed;
      OthersShown(cs, w.conns, i, w.heap);
      Whole(Without(w, i));
    }

    lemma OthersShown(cs: seq<ElConnection>, values: seq<Conn>, i: nat, heap: seq<seq<byte>>)
      requires i < |cs| == |values|
      requires forall j :: 0 <= j < |cs| ==> IsShown(cs[j], values[j]) && Backed(values[j], heap)
      ensures var cs', values' := cs[..i] + cs[i + 1..], values[..i] + values[i + 1..];
              && |cs'| == |values'|
              && forall j :: 0 <= j < |cs'| ==> IsShown(cs'[j], values'[j]) && Backed(values'[j], heap)
    {
      hide IsShown, Backed;
    }

    /** The converse of Parts. */
    lemma Whole(w: World)
      requires Memory() && connections.Valid() && Buffers() && Holds(bufs, w.heap) && store.Globals() == w.store
      requires |w.conns| == |Listed()| && |w.stale| == |Free()| && AllBacked(w)
      requires forall j :: 0 <= j < |w.conns| ==> IsShown(Listed()[j], w.conns[j])
      requires forall j :: 0 <= j < |w.stale| ==> Free()[j].Http() == w.stale[j]
      ensures Shows(w)
    {
    }

    /** A closed connection is taken out. */
    method DropNode(fds: array<PollFd>, ghost w: World, ghost kept: seq<Conn>, ghost rest: seq<Conn>, it: int)
      requires Rebuilt(fds, w, kept, rest, it) && rest != []
      modifies connections, connections.next
      ensures Rebuilt(fds, Without(w, |kept|), kept, rest[1..], it)
    {
      assert connections !in repr && connections.next !in repr;
      hide FList.Valid, Listed, Memory, Shows, Before, Matches;
      assert w.conns[..|kept|] + w.conns[|kept| + 1..] == kept + rest[1..];
      DropListed(it, |kept|, w);
    }

    /** Any other gets its entry in the poll array. */
    method KeepNode(fds: array<PollFd>, ghost w: World, ghost kept: seq<Conn>, ghost rest: seq<Conn>, ghost it: int,
                    i: nat, next: int)
      requires Rebuilding(fds, w, kept, rest, it, next) && rest != [] && i == |kept|
      modifies fds
      ensures Rebuilt(fds, w, kept + [rest[0]], rest[1..], next) && fds[0] == old(fds[0])
    {
      hide FList.Valid, Listed, Memory, Shows, ElConnection.Snapshot, Before, At, Matches;
      NextNode(fds, w, kept, rest, it, next);
      assert kept + rest == kept + [rest[0]] + rest[1..];
      AddEntry(connections.memory[next], rest[0], fds, 1 + i, kept);
    }

    /** The entry after those of the connections `kept`. */
    static method AddEntry(c: ElConnection, ghost s: Conn, fds: array<PollFd>, i: nat, ghost kept: seq<Conn>)
      requires c.SendBounds() && c.Snapshot() == s && i == 1 + |kept| < fds.Length && Entries(fds, kept)
      modifies fds
      ensures Entries(fds, kept + [s]) && fds[0] == old(fds[0])
    {
      hide ElConnection.Snapshot, Matches;
      PushBackFds(c, fds, i);
    }

    method Advance(fds: array<PollFd>, ghost w: World, ghost kept: seq<Conn>, ghost rest: seq<Conn>, it: int)
      returns (next: int)
      requires Rebuilt(fds, w, kept, rest, it)
      ensures Rebuilding(fds, w, kept, rest, it, next)
    {
      hide IsShown, Free, Buffers, Holds;
      assert |kept + rest| == |connections.pool.active|;
      next := connections.Next(it, |kept|);
    }

    lemma WalkFacts(fds: array<PollFd>, w: World, kept: seq<Conn>, rest: seq<Conn>, it: int, next: int)
      requires Rebuilding(fds, w, kept, rest, it, next) && rest != []
      ensures w.conns == kept + rest && w.conns[|kept|] == rest[0]
      ensures connections !in repr && connections.next !in repr && fds !in repr
    {
    }

    /** One turn of the walk. */
    method WalkNode(fds: array<PollFd>, ghost w: World, ghost kept: seq<Conn>, ghost rest: seq<Conn>, it: int, i: nat,
                    next: int)
      returns (it': int, i': nat, next': int, ghost w': World, ghost kept': seq<Conn>)
      requires Rebuilding(fds, w, kept, rest, it, next) && rest != [] && i == |kept|
      modifies connections, connections.next, fds
      ensures Rebuilding(fds, w', kept', rest[1..], it', next')
      ensures i' == |kept'| && 0 < fds.Length && fds[0] == old(fds[0])
      ensures kept' == if rest[0].closed then kept else kept + [rest[0]]
      ensures w' == w.(conns := kept' + rest[1..],
                       stale := if rest[0].closed then [rest[0].http] + w.stale else w.stale)
    {
      hide FList.Valid, Listed, Rebuilding, Rebuilt, Memory, Before, At, Shows, ElConnection.Snapshot;
      WalkFacts(fds, w, kept, rest, it, next);
      NextNode(fds, w, kept, rest, it, next);
      RebuildEnd(fds, w, kept, rest, it, next);
      it', i', w', kept' := it, i, w, kept;
      if connections.memory[next].closed {
        DropNode(fds, w, kept, rest, it);
        w' := Without(w, |kept|);
        assert w.conns[..|kept|] + w.conns[|kept| + 1..] == kept + rest[1..];
      } else {
        KeepNode(fds, w, kept, rest, it, i, next);
        it', i', kept' := next, i + 1, kept + [rest[0]];
        assert kept + rest == kept' + rest[1..];
      }
      next' := Advance(fds, w', kept', rest[1..], it');
    }

    static lemma {:induction false} KeepStep(kept: seq<Conn>, rest: seq<Conn>)
      requires rest != []
      ensures kept + KeepOpen(rest) ==
              (if rest[0].closed then kept else kept + [rest[0]]) + KeepOpen(rest[1..])
    {
      var later := KeepOpen(rest[1..]);
      assert KeepOpen(rest) == if rest[0].closed then later else [rest[0]] + later;
      hide KeepOpen;
      assert kept + ([rest[0]] + later) == kept + [rest[0]] + later;
    }

    /** The walk that drops closed connections and fills the poll array with the others. */
    method DropClosed(fds: array<PollFd>, ghost w: World) returns (it: int, i: nat)
      requires Shows(w) && fds.Length == 1 + connections.maxNodeNum && fds !in repr
      modifies connections, connections.next, fds
      ensures Rebuilt(fds, Swept(w), KeepOpen(w.conns), [], it) && i == |KeepOpen(w.conns)| && fds[0] == old(fds[0])
    {
      ghost var v, kept: seq<Conn>, rest := w, [], w.conns;
      RebuildStart(fds, w);
      assert [] + KeepOpen(rest) == KeepOpen(rest) && KeepOpen([]) == [];
      hide FList.Valid, Listed, Memory, Rebuilt, Before, At, Shows, Rebuilding, KeepOpen;
      it, i := connections.BeforeFirst(), 0;
      var next := Advance(fds, v, kept, rest, it);
      RebuildEnd(fds, v, kept, rest, it, next);
      while next != connections.AfterLast()
        invariant Rebuilding(fds, v, kept, rest, it, next) && i == |kept| && 0 < fds.Length && fds[0] == old(fds[0])
        invariant KeepOpen(w.conns) == kept + KeepOpen(rest)
        invariant Released(w.conns, w.stale) == Released(rest, v.stale)
        invariant v == w.(conns := kept + rest, stale := v.stale)
        invariant next == connections.AfterLast() <==> rest == []
        decreases |rest|
      {
        KeepStep(kept, rest);
        it, i, next, v, kept := WalkNode(fds, v, kept, rest, it, i, next);
        rest := rest[1..];
        RebuildEnd(fds, v, kept, rest, it, next);
      }
      RebuildEnd(fds, v, kept, rest, it, next);
      assert kept + [] == kept;
    }

    // ---- Accepting ----

    /** The first free node is appended to the list, if there is one. */
    method Enlist(beforeEnd: int) returns (node: int)
      requires Memory() && connections.Valid()
      requires beforeEnd == Before(connections.pool, connections.maxNodeNum, |Listed()|)
      modifies connections, connections.next
      ensures Memory() && connections.Valid()
      ensures node == NULL <==> old(Free()) == []
      ensures node == NULL ==> Listed() == old(Listed()) && Free() == old(Free())
      ensures node != NULL ==>
                && 0 <= node < connections.memory.Length && connections.memory[node] == old(Free()[0])
                && Listed() == old(Listed() + [Free()[0]]) && Free() == old(Free()[1..])
    {
      EmplaceAtEnd(connections.pool);
      FreeNodes();
      ListedNodes();
      hide FList.Valid;
      node := connections.EmplaceAfter(beforeEnd, |connections.pool.active|);
    }

    lemma ListedNodes()
      requires Memory() && connections.Valid()
      ensures forall j :: 0 <= j < |connections.pool.active| ==> connections.pool.active[j] < connections.memory.Length
      ensures Free() == [] <==> |Listed()| == connections.maxNodeNum
    {
    }

    /** AppOnAccepted: a receive buffer of its own, all of it to be filled. */
    method AppOnAccepted(c: ElConnection)
      requires recvBufLen > 0
      modifies c`recvBuf, c`recvBufId, c`recvBufCapacity, c`toRecv, c`recvIdx, this`repr, this`bufs
      ensures c.recvIdx == 0 && c.toRecv == c.recvBufCapacity == c.recvBuf.Length == recvBufLen
      ensures fresh(c.recvBuf) && bufs == old(bufs) + [c.recvBuf] && c.recvBufId == |old(bufs)|
      ensures repr == old(repr) + {c.recvBuf}
    {
      c.recvBuf, c.recvBufId := new byte[recvBufLen], |bufs|;
      c.recvBufCapacity := recvBufLen;
      c.SetupToRecv(recvBufLen, 0);
      bufs := bufs + [c.recvBuf];
      repr := repr + {c.recvBuf};
    }

    /** The fields CheckToAccept and AppOnAccepted set. The HTTP state of a reused node is not among them. */
    method Accept(c: ElConnection)
      requires Owned(c) && toAccept >= 0
      modifies c, this`repr, this`bufs
      ensures c.SendBounds() && c.Snapshot() == NewConn(toAccept, old(c.Http()), |old(bufs)|, Limit())
      ensures fresh(c.recvBuf) && c.recvBuf.Length == recvBufLen && bufs == old(bufs) + [c.recvBuf]
      ensures repr == old(repr) + {c.recvBuf}
    {
      c.fd := toAccept;
      c.toSend := 0;
      c.sendIdx := 0;
      c.toRecv := 0;
      c.recvIdx := 0;
      c.closed := false;
      c.totalRecv := 0;
      c.totalSend := 0;
      AppOnAccepted(c);
    }

    /** The connection that waits to be listed. */
    function Pending(): Option<nat>
      reads this`toAccept
    {
      if toAccept < 0 then None else Some(toAccept)
    }

    /** A world with one more connection. */
    ghost function With(w: World, contents: seq<byte>): World
      reads this`toAccept
      requires toAccept >= 0 && w.stale != []
    {
      World(w.conns + [NewConn(toAccept, w.stale[0], |w.heap|, Limit())], w.stale[1..], w.heap + [contents], w.store)
    }

    /** The node that has joined the list becomes a connection; nothing else changes. */
    method AcceptListed(c: ElConnection, ghost cs: seq<ElConnection>, ghost fs: seq<ElConnection>, ghost w: World)
      requires Memory() && connections.Valid() && Buffers() && Holds(bufs, w.heap) && store.Globals() == w.store
      requires toAccept >= 0 && AllBacked(w) && |cs| == |w.conns| && |fs| == |w.stale| > 0 && c == fs[0]
      requires Listed() == cs + [c] && Free() == fs[1..]
      requires forall j :: 0 <= j < |cs| ==> IsShown(cs[j], w.conns[j])
      requires forall j :: 0 <= j < |fs| ==> fs[j].Http() == w.stale[j]
      modifies this`repr, this`bufs, c
      ensures fresh(repr - old(repr)) && IsNew(c, w)
    {
      hide FList.Valid, Shows, ShownIn, Holds, NewConn, Buffers, ElConnection.Http, AllBacked, Listed, Free, Memory;
      ghost var was := bufs;
      AcceptInList(c, cs, fs, w);
      WorldWith(c, cs, fs, was, w);
      NewIs(c, w);
    }

    /** The list stays as it is. */
    method AcceptInList(c: ElConnection, ghost cs: seq<ElConnection>, ghost fs: seq<ElConnection>, ghost w: World)
      requires Memory() && connections.Valid() && Buffers() && Holds(bufs, w.heap) && store.Globals() == w.store
      requires toAccept >= 0 && |cs| == |w.conns| && |fs| == |w.stale| > 0 && c == fs[0]
      requires Listed() == cs + [c] && Free() == fs[1..]
      requires forall j :: 0 <= j < |cs| ==> IsShown(cs[j], w.conns[j])
      requires forall j :: 0 <= j < |fs| ==> fs[j].Http() == w.stale[j]
      modifies this`repr, this`bufs, c
      ensures fresh(repr - old(repr)) && c.recvBuf.Length == recvBufLen && bufs == old(bufs) + [c.recvBuf]
      ensures Memory() && connections.Valid() && Buffers() && Holds(old(bufs), w.heap) && store.Globals() == w.store
      ensures Listed() == cs + [c] && Free() == fs[1..]
      ensures ShownIn(c, NewConn(toAccept, w.stale[0], |w.heap|, Limit()), bufs)
      ensures forall j :: 0 <= j < |cs| ==> ShownIn(cs[j], w.conns[j], old(bufs))
      ensures forall j :: 1 <= j < |fs| ==> fs[j].Http() == w.stale[j]
    {
      assert |bufs| == |w.heap|;
      hide FList.Valid, ShownIn, Holds, NewConn, Buffers, ElConnection.Http;
      NewIsApart(c, cs, fs);
      AcceptApart(c, cs, fs, w);
    }

    lemma NewIs(c: ElConnection, w: World)
      requires toAccept >= 0 && w.stale != [] && c.recvBuf.Length == recvBufLen && Shows(With(w, c.recvBuf[..]))
      requires ShownIn(c, NewConn(toAccept, w.stale[0], |w.heap|, Limit()), bufs)
      ensures IsNew(c, w)
    {
      hide Shows;
    }

    lemma NewIsApart(c: ElConnection, cs: seq<ElConnection>, fs: seq<ElConnection>)
      requires Memory() && connections.Valid() && Buffers() && |fs| > 0 && c == fs[0]
      requires Listed() == cs + [c] && Free() == fs[1..]
      ensures Owned(c) && forall j :: 0 <= j < |cs| ==> cs[j] != c && cs[j] in repr && cs[j].sendBuf in repr
      ensures forall j :: 1 <= j < |fs| ==> fs[j] != c && fs[j] in repr
    {
      hide FList.Valid;
      forall j | 0 <= j < |cs| ensures cs[j] != c && Owned(cs[j]) {
        assert Listed()[j] == cs[j] && Listed()[|cs|] == c;
      }
      forall j | 1 <= j < |fs| ensures fs[j] != c && Owned(fs[j]) {
        assert Free()[j - 1] == fs[j] && Listed()[|cs|] == c;
      }
      assert Owned(Listed()[|cs|]);
    }

    method AcceptApart(c: ElConnection, ghost cs: seq<ElConnection>, ghost fs: seq<ElConnection>, ghost w: World)
      requires Owned(c) && toAccept >= 0 && Buffers() && Holds(bufs, w.heap) && store.Globals() == w.store
      requires |cs| == |w.conns| && |fs| == |w.stale| && forall j :: 0 <= j < |cs| ==> cs[j] != c
      requires forall j :: 0 <= j < |cs| ==> cs[j] in repr && cs[j].sendBuf in repr && ShownIn(cs[j], w.conns[j], bufs)
      requires forall j :: 1 <= j < |fs| ==> fs[j] != c && fs[j] in repr && fs[j].Http() == w.stale[j]
      modifies this`repr, this`bufs, c
      ensures fresh(c.recvBuf) && c.recvBuf.Length == recvBufLen
      ensures repr == old(repr) + {c.recvBuf} && bufs == old(bufs) + [c.recvBuf]
      ensures ShownIn(c, NewConn(toAccept, old(c.Http()), |old(bufs)|, Limit()), bufs)
      ensures Holds(old(bufs), w.heap) && store.Globals() == w.store && Buffers()
      ensures forall j :: 0 <= j < |cs| ==> ShownIn(cs[j], w.conns[j], old(bufs))
      ensures forall j :: 1 <= j < |fs| ==> fs[j].Http() == w.stale[j]
    {
      ghost var was, wasRepr := bufs, repr;
      assert Buffers();
      hide ElConnection.Http, ElConnection.Snapshot, NewConn, Owned;
      Accept(c);
      assert forall i :: 0 <= i < |was| ==> bufs[i] == was[i] && was[i] in wasRepr && was[i] != c.recvBuf;
    }

    lemma WorldWith(c: ElConnection, cs: seq<ElConnection>, fs: seq<ElConnection>, was: seq<array<byte>>, w: World)
      requires toAccept >= 0 && AllBacked(w) && |cs| == |w.conns| && |fs| == |w.stale| > 0
      requires Memory() && connections.Valid() && Buffers() && Holds(was, w.heap) && store.Globals() == w.store
      requires bufs == was + [c.recvBuf] && c.recvBuf.Length == recvBufLen
      requires Listed() == cs + [c] && Free() == fs[1..]
      requires forall j :: 0 <= j < |cs| ==> ShownIn(cs[j], w.conns[j], was)
      requires forall j :: 1 <= j < |fs| ==> fs[j].Http() == w.stale[j]
      requires ShownIn(c, NewConn(toAccept, w.stale[0], |w.heap|, Limit()), bufs)
      ensures Shows(With(w, c.recvBuf[..]))
    {
      var v := With(w, c.recvBuf[..]);
      forall j | 0 <= j < |v.conns| ensures IsShown(Listed()[j], v.conns[j]) && Backed(v.conns[j], v.heap) {
        if j < |w.conns| {
          assert Listed()[j] == cs[j] && v.conns[j] == w.conns[j];
          ShownLater(cs[j], w.conns[j], was, c.recvBuf);
        }
      }
      hide FList.Valid, Listed, Free, Shows, ShownIn, Memory, Buffers;
      Whole(v);
    }

    static lemma ShownLater(c: ElConnection, s: Conn, was: seq<array<byte>>, last: array<byte>)
      requires ShownIn(c, s, was)
      ensures ShownIn(c, s, was + [last])
    {
    }

    /** What this leaves as it was. */
    method EnlistApart(beforeEnd: int, ghost cs: seq<ElConnection>, ghost fs: seq<ElConnection>, ghost w: World)
      returns (node: int)
      requires Memory() && connections.Valid() && cs == Listed() && fs == Free()
      requires beforeEnd == Before(connections.pool, connections.maxNodeNum, |cs|)
      requires Buffers() && Holds(bufs, w.heap) && store.Globals() == w.store
      requires |cs| == |w.conns| && forall j :: 0 <= j < |cs| ==> IsShown(cs[j], w.conns[j])
      requires |fs| == |w.stale| && forall j :: 0 <= j < |fs| ==> fs[j].Http() == w.stale[j]
      modifies connections, connections.next
      ensures Memory() && connections.Valid() && (node == NULL <==> fs == [])
      ensures if node == NULL then Listed() == cs && Free() == fs
              else
                && 0 <= node < connections.memory.Length && connections.memory[node] == fs[0]
                && Listed() == cs + [fs[0]] && Free() == fs[1..]
      ensures Buffers() && Holds(bufs, w.heap) && store.Globals() == w.store
      ensures forall j :: 0 <= j < |cs| ==> IsShown(cs[j], w.conns[j])
      ensures forall j :: 0 <= j < |fs| ==> fs[j].Http() == w.stale[j]
    {
      InRepr(cs, fs);
      hide FList.Valid, Listed, Free, Buffers, Holds, IsShown, ElConnection.Http, ImageStore.Globals, Memory;
      node := Enlist(beforeEnd);
    }

    /** A node for the accepted connection, if there is one. */
    method TakeNode(beforeEnd: int, ghost w: World) returns (c: ElConnection?)
      requires Shows(w) && beforeEnd == Before(connections.pool, connections.maxNodeNum, |w.conns|) && toAccept >= 0
      modifies this`repr, this`bufs, connections, connections.next, repr
      ensures fresh(repr - old(repr))
      ensures c == null <==> w.stale == []
      ensures c == null ==> Shows(w)
      ensures c != null ==> IsNew(c, w)
    {
      hide FList.Valid, Shows, Listed, Free, Buffers, Holds, IsShown, ElConnection.Http, ImageStore.Globals, IsNew;
      hide ElConnection.Snapshot, Memory, AllBacked, Owned;
      Parts(w);
      OutOfRepr();
      ghost var cs, fs := Listed(), Free();
      InRepr(cs, fs);
      var node := EnlistApart(beforeEnd, cs, fs, w);
      c := null;
      if node == NULL {
        Whole(w);
      } else {
        c := connections.memory[node];
        AcceptListed(c, cs, fs, w);
      }
    }

    /** The object `c` is the connection that is new in the world. */
    ghost predicate IsNew(c: ElConnection, w: World)
      reads this`repr, this`bufs, this`toAccept, connections, connections.next, connections.memory, repr, c, c.sendBuf
      reads c.recvBuf
    {
      && toAccept >= 0 && w.stale != [] && c.recvBuf.Length == recvBufLen && Shows(With(w, c.recvBuf[..]))
      && c.SendBounds() && c.Snapshot() == NewConn(toAccept, w.stale[0], |w.heap|, Limit())
    }

    /** CheckToAccept: the new connection joins the end of the list, unless the list is full. */
    method CheckToAccept(beforeEnd: int, ghost w: World) returns (c: ElConnection?, ghost v: World)
      requires Shows(w) && beforeEnd == Before(connections.pool, connections.maxNodeNum, |w.conns|)
      modifies this`repr, this`bufs, connections, connections.next, repr
      ensures fresh(repr - old(repr)) && Shows(v) && Joined(w, Pending(), v, Limit())
      ensures c == null <==> Pending() == None || w.stale == []
      ensures c == null ==> v == w
      ensures c != null ==>
                && |v.conns| == |w.conns| + 1 && v.conns[..|w.conns|] == w.conns
                && c.SendBounds() && c.Snapshot() == v.conns[|w.conns|]
    {
      hide FList.Valid, Shows, NewConn, ElConnection.Snapshot, Memory;
      c, v := null, w;
      if toAccept >= 0 {
        c := TakeNode(beforeEnd, w);
        if c != null {
          v := With(w, c.recvBuf[..]);
          assert v.conns[..|w.conns|] == w.conns && v.heap[..|w.heap|] == w.heap;
        }
      }
    }

    method PushAccepted(c: ElConnection, fds: array<PollFd>, i: nat, ghost kept: seq<Conn>, ghost v: World)
      requires Shows(v) && |v.conns| == |kept| + 1 && v.conns[..|kept|] == kept && i == 1 + |kept|
      requires c.SendBounds() && c.Snapshot() == v.conns[|kept|] && !v.conns[|kept|].closed
      requires fds.Length == 1 + connections.maxNodeNum && fds !in repr && Entries(fds, kept) && AllOpen(kept)
      modifies fds
      ensures Lockstep(fds, 1 + i, v) && fds[0] == old(fds[0])
    {
      assert v.conns == kept + [v.conns[|kept|]];
      RoomInList(v);
      hide FList.Valid, Listed, Memory, Shows, ElConnection.Snapshot, Matches;
      AddEntry(c, v.conns[|kept|], fds, i, kept);
    }

    lemma RoomInList(w: World)
      requires Shows(w)
      ensures |w.conns| <= connections.maxNodeNum
    {
    }

    /** The end of the rebuild: room for the accepted connection, and its entry. */
    method AppendAccepted(fds: array<PollFd>, it: int, i: nat, ghost w: World) returns (n: nat, ghost v: World)
      requires Rebuilt(fds, w, w.conns, [], it) && i == |w.conns| && AllOpen(w.conns)
      modifies this`repr, this`bufs, connections, connections.next, repr, fds
      ensures Lockstep(fds, 1 + n, v) && fresh(repr - old(repr)) && fds[0] == old(fds[0])
      ensures Joined(w, Pending(), v, Limit())
    {
      ghost var entries := fds[..];
      hide FList.Valid, Listed, Memory, Shows, Before, ElConnection.Snapshot, Matches, Joined, NewConn;
      n := i;
      var c;
      c, v := CheckToAccept(it, w);
      assert fds[..] == entries && Entries(fds, w.conns);
      if c != null {
        LastIsOpen(w, v);
        PushAccepted(c, fds, 1 + n, w.conns, v);
        n := n + 1;
      }
    }

    lemma LastIsOpen(w: World, v: World)
      requires Joined(w, Pending(), v, Limit()) && |v.conns| == |w.conns| + 1
      ensures !v.conns[|w.conns|].closed
    {
    }

    /** UpdateConnectionListAndConstructPollFds: closed connections leave the list, the others keep their order and get
        their entries, and the accepted one joins at the end. */
    method UpdateConnectionListAndConstructPollFds(fds: array<PollFd>, ghost w: World) returns (n: nat, ghost v: World)
      requires Shows(w) && fds.Length == 1 + connections.maxNodeNum && fds !in repr
      modifies this`repr, this`bufs, connections, connections.next, repr, fds
      ensures Lockstep(fds, 1 + n, v) && fresh(repr - old(repr)) && fds[0] == old(fds[0])
      ensures Joined(Swept(w), Pending(), v, Limit())
    {
      hide FList.Valid, Listed, Memory, Rebuilt, Lockstep, KeepOpen, Released, Joined, Shows;
      var it, i := DropClosed(fds, w);
      KeptAreOpen(w.conns);
      n, v := AppendAccepted(fds, it, i, Swept(w));
    }

    static lemma KeptAreOpen(before: seq<Conn>)
      ensures AllOpen(KeepOpen(before))
    {
      hide KeepOpen;
      forall j | 0 <= j < |KeepOpen(before)| ensures !KeepOpen(before)[j].closed {
        var i := KeptFrom(before, j);
      }
    }

    // ---- The loop ----

    lemma LockstepLimits(fds: array<PollFd>, nfds: nat, w: World)
      requires Lockstep(fds, nfds, w)
      ensures nfds == 1 + |w.conns| <= fds.Length == 1 + connections.maxNodeNum && fds !in repr && this !in repr
      ensures Shows(w) && Entries(fds, w.conns) && AllBacked(w)
    {
    }

    /** The call of poll(), seen by the lockstep. */
    method PollListed(fds: array<PollFd>, nfds: nat, listenErr: bool, accepting: bool, events: nat -> Event,
                      ghost w: World)
      requires Lockstep(fds, nfds, w)
      modifies fds
      ensures Shows(w) && Polled(fds, w.conns, events) && AllBacked(w)
      ensures 0 < fds.Length && fds[0].revents == Revents(listenErr, accepting, false, false)
    {
      hide FList.Valid, Listed, Memory, Shows, Lockstep, AllBacked;
      LockstepLimits(fds, nfds, w);
      ghost var entries := fds[..];
      assert forall j :: 0 <= j < |w.conns| ==> Matches(entries[1 + j], w.conns[j]);
      Poll(fds, nfds, listenErr, accepting, events);
      forall j | 0 <= j < |w.conns|
        ensures Matches(fds[1 + j], w.conns[j]) && fds[1 + j].revents == PollReports(fds[1 + j], events(j).raw)
      {
        assert fds[1 + j] == entries[1 + j].(revents := PollReports(entries[1 + j], events(j).raw));
      }
    }

    /** The part of PollLoop after poll() has reported something. */
    method DispatchReady(fds: array<PollFd>, nfds: nat, sse: bool, listenErr: bool, accepted: Option<nat>,
                         events: nat -> Event, ghost w: World)
      returns (stop: Stop, ghost v: World)
      requires Lockstep(fds, nfds, w) && AllBacked(w) && toAccept == -1
      modifies this`toAccept, repr, fds
      ensures repr == old(repr)
      ensures Stops(stop, TurnsUpTo(w, events, |w.conns|, Limit()))
      ensures stop.GoOn? ==> Shows(v) && TurnsUpTo(w, events, |w.conns|, Limit()) == Going(v)
      ensures Pending() == if listenErr then None else accepted
    {
      hide FList.Valid, Listed, Memory, Shows, Polled, Lockstep, TurnsUpTo, AllBacked, Stops;
      LockstepLimits(fds, nfds, w);
      PollListed(fds, nfds, listenErr, accepted.Some?, events, w);
      CheckAccept(fds[0], accepted);
      stop, v := CheckConnections(fds, sse, events, w);
    }

    /** What happens between poll() and the rebuild. */
    method Dispatch(fds: array<PollFd>, nfds: nat, sse: bool, round: LoopRound, ghost w: World)
      returns (stop: Stop, ghost v: World)
      requires Lockstep(fds, nfds, w) && !round.PollError? && AllBacked(w)
      modifies this`toAccept, repr, fds
      ensures repr == old(repr)
      ensures Stops(stop, Happened(w, round, Limit()))
      ensures stop.GoOn? ==> Shows(v) && Happened(w, round, Limit()) == Going(v) && Pending() == AcceptedIn(round)
    {
      hide FList.Valid, Listed, Memory, Shows, Lockstep, AllTicked, TurnsUpTo, AllBacked, Stops, Happened;
      LockstepLimits(fds, nfds, w);
      HappenedIs(w, round);
      stop := GoOn;
      toAccept := -1;
      match round {
        case Timeout(ticks) => v := AppOnPollTimeout(ticks, w);
        case Ready(listenErr, accepted, events) =>
          stop, v := DispatchReady(fds, nfds, sse, listenErr, accepted, events, w);
      }
    }

    lemma HappenedIs(w: World, round: LoopRound)
      requires AllBacked(w) && !round.PollError?
      ensures round.Timeout? ==>
                && Happened(w, round, Limit()) == Going(w.(conns := AllTicked(w.conns, round.ticks, Limit())))
                && Stops(GoOn, Happened(w, round, Limit()))
      ensures round.Ready? ==> Happened(w, round, Limit()) == TurnsUpTo(w, round.events, |w.conns|, Limit())
    {
    }

    /** One turn of the loop: exactly one step of the world, or what stops it. */
    method OneRound(fds: array<PollFd>, nfds: nat, sse: bool, round: LoopRound, ghost w: World)
      returns (stop: Stop, nfds': nat, ghost after: World)
      requires Lockstep(fds, nfds, w) && !round.PollError? && AllBacked(w)
      modifies this`toAccept, this`repr, this`bufs, connections, connections.next, repr, fds
      ensures fresh(repr - old(repr))
      ensures Stops(stop, Happened(w, round, Limit()))
      ensures stop.GoOn? ==> Lockstep(fds, nfds', after) && WorldStep(w, round, after, Limit())
    {
      hide FList.Valid, Listed, Memory, Shows, Happened, Joined, Lockstep, AllBacked;
      hide AcceptedIn, Swept, WorldStep, Stops;
      LockstepLimits(fds, nfds, w);
      assert nfds <= fds.Length;  // Server.c:261
      nfds' := nfds;
      stop, after := Dispatch(fds, nfds, sse, round, w);
      GoesOn(stop, Happened(w, round, Limit()));
      if stop.GoOn? {
        var n;
        n, after := UpdateConnectionListAndConstructPollFds(fds, after);
        StepMade(w, round, Pending(), after);
        nfds' := 1 + n;
      }
    }

    static lemma GoesOn(stop: Stop, o: Outcome<World>)
      requires Stops(stop, o)
      ensures stop.GoOn? <==> o.Going?
    {
    }

    lemma StepMade(w: World, round: LoopRound, pending: Option<nat>, after: World)
      requires AllBacked(w) && !round.PollError? && Happened(w, round, Limit()).Going? && pending == AcceptedIn(round)
      requires Joined(Swept(Happened(w, round, Limit()).value), pending, after, Limit())
      ensures WorldStep(w, round, after, Limit())
    {
      hide Happened, Joined, Swept, AllBacked;
    }

    /** The loop head after the worlds `history`. */
    ghost predicate LoopHead(fds: array<PollFd>, nfds: nat, history: seq<World>)
      reads this`repr, this`bufs, connections, connections.next, connections.memory, repr, fds
    {
      |history| > 0 && Lockstep(fds, nfds, history[|history| - 1])
    }

    /** The run becomes longer by one step, or ends. */
    method NextRound(fds: array<PollFd>, nfds: nat, sse: bool, round: LoopRound, ghost rounds: seq<LoopRound>,
                     ghost history: seq<World>)
      returns (stop: Stop, nfds': nat, ghost history': seq<World>)
      requires IsWorldRun(history, rounds, Limit()) && |history| <= |rounds|
      requires round == rounds[|history| - 1] && !round.PollError? && LoopHead(fds, nfds, history)
      modifies this`toAccept, this`repr, this`bufs, connections, connections.next, repr, fds
      ensures fresh(repr - old(repr)) && IsWorldRun(history', rounds, Limit())
      ensures stop.GoOn? ==>
                |history'| == |history| + 1 && history'[0] == history[0] && LoopHead(fds, nfds', history')
      ensures !stop.GoOn? ==> history' == history && EndsWith(stop, history, rounds, Limit())
    {
      ghost var w, last := history[|history| - 1], |history| - 1;
      LockstepLimits(fds, nfds, w);
      EndsHere(history, rounds);
      hide FList.Valid, Listed, Memory, Lockstep, Happened, WorldStep, AllBacked, IsWorldRun, EndsWith, Stops;
      ghost var after;
      history' := history;
      stop, nfds', after := OneRound(fds, nfds, sse, round, w);
      if stop.GoOn? {
        ExtendWorldRun(history, rounds, after, Limit());
        history' := history + [after];
      }
    }

    lemma EndsHere(history: seq<World>, rounds: seq<LoopRound>)
      requires 1 <= |history| <= |rounds| && !rounds[|history| - 1].PollError? && AllBacked(history[|history| - 1])
      ensures forall stop: Stop ::
                !stop.GoOn? && Stops(stop, Happened(history[|history| - 1], rounds[|history| - 1], Limit())) ==>
                  EndsWith(stop, history, rounds, Limit())
    {
    }

    method StartLoop(fds: array<PollFd>, serverFd: int, ghost start: World)
      requires Shows(start) && IsStart(start, Limit()) && fds.Length == 1 + connections.maxNodeNum && fds !in repr
      modifies fds
      ensures LoopHead(fds, 1, [start]) && this !in repr && connections !in repr && connections.next !in repr
    {
      fds[0] := PollFd(serverFd, true, false, Revents(false, false, false, false));
    }

    /** PollLoop, from the freshly initialised list, over any sequence of rounds: the worlds at the successive loop
        heads are a run, and poll array and list are in lockstep at every one of them. The loop ends early when poll()
        fails, at the assertion in DoRecv, or with undefined behaviour, exactly when module World says so. */
    method PollLoop(fds: array<PollFd>, serverFd: int, sse: bool, rounds: seq<LoopRound>, ghost start: World)
      returns (stop: Stop, nfds: nat, ghost history: seq<World>)
      requires Shows(start) && IsStart(start, Limit()) && fds.Length == 1 + connections.maxNodeNum && fds !in repr
      modifies this`toAccept, this`repr, this`bufs, connections, connections.next, repr, fds
      ensures fresh(repr - old(repr)) && IsWorldRun(history, rounds, Limit())
      ensures |history| > 0 && history[0] == start && EndsWith(stop, history, rounds, Limit())
      ensures stop.GoOn? ==> LoopHead(fds, nfds, history)
    {
      hide FList.Valid, Listed, Memory, Shows, LoopHead, WorldStep, IsStart, Happened, AllBacked;
      StartLoop(fds, serverFd, start);
      nfds, stop, history := 1, GoOn, [start];
      for r := 0 to |rounds|
        invariant |history| == r + 1 && IsWorldRun(history, rounds, Limit()) && history[0] == start
        invariant LoopHead(fds, nfds, history) && fresh(repr - old(repr)) && stop.GoOn?
      {
        if rounds[r].PollError? {
          return;
        }
        stop, nfds, history := NextRound(fds, nfds, sse, rounds[r], rounds, history);
        if !stop.GoOn? {
          return;
        }
      }
    }
  }

  /** The memory for the nodes, each with a connection and its send buffer; their HTTP states are arbitrary. */
  method MakeNodes(stale: seq<HttpState>, sendBufLen: nat, recvBufLen: nat)
    returns (nodes: array<ElConnection>, ghost repr: set<object>, ghost owner: map<object, ElConnection>)
    requires |stale| > 0 && sendBufLen > 0 && recvBufLen > 0
    ensures fresh(nodes) && nodes.Length == |stale| && nodes !in repr && fresh(repr)
    ensures OwnBuffers(nodes[..], repr, owner, sendBufLen, recvBufLen)
    ensures forall i :: 0 <= i < |stale| ==> nodes[i].Http() == stale[i]
    ensures forall o :: o in owner ==> o in repr
  {
    var cs: seq<ElConnection> := [];
    repr, owner := {}, map[];
    for n := 0 to |stale|
      invariant |cs| == n && fresh(repr) && OwnBuffers(cs, repr, owner, sendBufLen, recvBufLen)
      invariant forall i :: 0 <= i < n ==> cs[i].Http() == stale[i]
      invariant forall o :: o in owner ==> o in repr
    {
      var c := new ElConnection(stale[n], sendBufLen, recvBufLen);
      cs := cs + [c];
      repr := repr + {c, c.sendBuf};
      owner := owner[c.sendBuf := c];
    }
    nodes := new ElConnection[|stale|](i requires 0 <= i < |cs| => cs[i]);
    assert nodes[..] == cs;
  }

  ghost predicate OwnBuffers(cs: seq<ElConnection>, repr: set<object>, owner: map<object, ElConnection>,
                             sendBufLen: nat, recvBufLen: nat) {
    && (forall i, j :: 0 <= i < j < |cs| ==> cs[i] != cs[j])
    && forall i :: 0 <= i < |cs| ==>
         var c := cs[i];
         && c in repr && c.sendBuf in repr && c.sendBuf in owner && owner[c.sendBuf] == c
         && c.sendBuf.Length == sendBufLen > 0 && c.recvBufLen == recvBufLen > 0
  }

  /** The part of main before the loop: an empty list over its nodes, and the image buffer. */
  method SetUp(stale: seq<HttpState>, imageSize: nat, sendBufLen: nat, recvBufLen: nat)
    returns (server: ElServer, ghost start: World)
    requires |stale| > 0 && sendBufLen > 0 && recvBufLen > 0
    ensures fresh(server) && fresh(server.connections) && fresh(server.connections.next) && fresh(server.repr)
    ensures server.Limit() == Limits(|stale|, sendBufLen, recvBufLen)
    ensures server.Shows(start) && IsStart(start, server.Limit())
    ensures start.stale == stale && |start.heap[IMAGE_BUF]| == imageSize
  {
    var nodes, repr, owner := MakeNodes(stale, sendBufLen, recvBufLen);
    var connections := new FList(nodes);
    var store := new ImageStore(imageSize);
    repr := repr + {store, store.imageBuffer};
    server := new ElServer(connections, store, sendBufLen, recvBufLen, repr, owner);
    start := World([], stale, [store.imageBuffer[..]], Store(None, 0, 0));
    assert forall i :: 0 <= i < nodes.Length ==> nodes[i] == nodes[..][i];
  }

  /** main: whatever the memory holds at start-up and whatever happens on its sockets, the server goes through a run of
      module World. It stops early only when poll() fails, at DoRecv's assertion or with undefined behaviour, exactly
      when the run does. */
  method Serve(serverFd: int, sse: bool, stale: seq<HttpState>, imageSize: nat, rounds: seq<LoopRound>, k: Limits)
    returns (stop: Stop, ghost history: seq<World>)
    requires k.maxClients == |stale| > 0 && k.sendBufLen > 0 && k.recvBufLen > 0
    ensures IsWorldRun(history, rounds, k) && EndsWith(stop, history, rounds, k)
    ensures |history| > 0 && history[0].stale == stale
    ensures |history[0].heap| > 0 && |history[0].heap[IMAGE_BUF]| == imageSize
  {
    hide IsWorldRun, EndsWith, ElServer.Shows, ElServer.LoopHead;
    var server;
    ghost var start;
    server, start := SetUp(stale, imageSize, k.sendBufLen, k.recvBufLen);
    var fds := new PollFd[1 + k.maxClients](_ => PollFd(-1, false, false, Revents(false, false, false, false)));
    var nfds;
    stop, nfds, history := server.PollLoop(fds, serverFd, sse, rounds, start);
  }
}
