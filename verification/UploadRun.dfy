/** An upload in the event loop, among the turns of the other connections. */
module UploadRun {
  import opened Bytes
  import opened Connection
  import opened EventLoop
  import opened ServerApp
  import opened AppSpec
  import opened World
  import opened Upload
  import opened Leftover
  import SendQueue

  /** A connection that waits for a request may begin an upload. */
  lemma StartUpload(l: Local, u: Job, p: nat, k: Limits)
    requires AwaitsRequest(l, p, k) && l.conn.capacity == k.recvBufLen && l.conn.buf == u.own && l.conn.queue == u.queue
    requires u.own < |l.heap| && l.heap[u.own] == u.mem
    requires IsUpload(u.stream, u.headLen, ContentLen(u)) && HasRoom(l, u, k)
    ensures Uploading(l, u, 0, p, k)
  {
    hide IsUpload;
  }

  // ---- The uploader's turn ----

  /** What the turn brings: data, or nothing. No error, no end of the connection. */
  predicate Brings(s: Conn, e: Event, piece: seq<byte>) {
    && !e.raw.err && !e.raw.hup && e.app.Own?
    && if e.raw.in_ && e.recv.Data? then Got(s, e.recv.bytes) == piece != []
       else piece == [] && (e.raw.in_ ==> e.recv.NothingYet?)
  }

  lemma UploadTurn(l: Local, u: Job, n: nat, p: nat, e: Event, piece: seq<byte>, k: Limits)
    requires LocalBacked(l) && Uploading(l, u, n, p, k) && n < |u.stream| && u.queue.pending == []
    requires Brings(l.conn, e, piece) && (piece != [] ==> Acceptable(u, n, p, piece, k))
    ensures Turned(l, e, k).Going? && Uploading(Turned(l, e, k).value, u, n + |piece|, p, k)
  {
    hide Uploading, Turned, Receiving, Acceptable, Reported, LocalBacked;
    UploaderFields(l, u, n, p, k);
    QuietTurn(l, e, k);
    SameData(l, e.recv, e.app, k);
    if piece != [] {
      UploadStep(l, u, n, p, piece, e.app.replies, e.app.waits, k);
    }
  }

  lemma QuietTurn(l: Local, e: Event, k: Limits)
    requires LocalBacked(l) && !e.raw.err && !e.raw.hup && l.conn.queue.pending == [] && l.conn.toRecv > 0
    ensures Turned(l, e, k) == if e.raw.in_ then Receiving(l, e.recv, e.app, k) else Going(l)
  {
    hide Receiving, Finishing;
    forall s: Conn ensures Finishing(s, Reported(l.conn, e.raw), e.send, k) == s {
      Quiet(s, Reported(l.conn, e.raw), e.send, k);
    }
  }

  lemma SameData(l: Local, recv: RecvResult, app: App, k: Limits)
    requires LocalBacked(l) && !Overcommitted(l.conn)
    ensures recv.Data? && Got(l.conn, recv.bytes) != [] ==>
              Receiving(l, recv, app, k) == Receiving(l, Data(Got(l.conn, recv.bytes)), app, k)
    ensures recv.NothingYet? ==> Receiving(l, recv, app, k) == Going(l)
  {
    hide Called, Arrived;
  }

  lemma Quiet(s: Conn, r: Revents, send: IoResult, k: Limits)
    requires !r.out && !r.hup
    ensures Finishing(s, r, send, k) == s
  {
  }

  lemma UploaderFields(l: Local, u: Job, n: nat, p: nat, k: Limits)
    requires Uploading(l, u, n, p, k) && n < |u.stream|
    ensures LocalBacked(l) && !Overcommitted(l.conn) && l.conn.queue == u.queue && l.conn.toRecv > 0
    ensures l.conn.http.state != WaitSending && !l.conn.closed
  {
    hide IsUpload;
  }

  // ---- The others' turns ----

  /** Incoming data makes the application call OnPostImage or OnPostImageIncomplete. */
  predicate TouchesImage(a: Local)
    requires Sane(a)
  {
    || FinishesImage(a)
    || (a.conn.http.state == ReceivingHead && Decided(a).Begin? && Decided(a).path == IMAGE_PATH)
  }

  /** The turn has nothing to do with images. */
  predicate IsBystander(l: Local, e: Event)
    requires LocalBacked(l)
  {
    var r := Reported(l.conn, e.raw);
    var m := if r.err then l.(conn := l.conn.(closed := true)) else l;
    && e.app.Own?
    && (r.in_ && !Overcommitted(m.conn) && e.recv.Data? && Got(m.conn, e.recv.bytes) != [] ==>
          !TouchesImage(Arrived(m, Got(m.conn, e.recv.bytes))))
  }

  /** Nothing an upload of another connection depends on has changed. */
  predicate SameImage(a: Local, b: Local, own: nat)
    requires IMAGE_BUF < |a.heap| && own < |a.heap|
  {
    && SameSizes(a.heap, b.heap) && b.store == a.store
    && b.heap[IMAGE_BUF] == a.heap[IMAGE_BUF] && b.heap[own] == a.heap[own]
  }

  lemma BystanderReacts(a: Local, replies: seq<seq<byte>>, waits: bool, own: nat, k: Limits)
    requires Defined(a, k) && !TouchesImage(a) && own < |a.heap|
    ensures var m := OwnReact(a, replies, waits, k); SameImage(a, m, own) && m.conn.buf == a.conn.buf
  {
    hide Decide, SendQueue.PutAll;
  }

  lemma BystanderTurn(l: Local, e: Event, own: nat, k: Limits)
    requires LocalBacked(l) && own < |l.heap| && l.conn.buf != IMAGE_BUF && l.conn.buf != own
    requires IsBystander(l, e) && Turned(l, e, k).Going?
    ensures var m := Turned(l, e, k).value; SameImage(l, m, own) && m.conn.buf == l.conn.buf
  {
    hide Defined, OwnReact, TouchesImage;
    var r := Reported(l.conn, e.raw);
    var m := if r.err then l.(conn := l.conn.(closed := true)) else l;
    if r.in_ && e.recv.Data? && Got(m.conn, e.recv.bytes) != [] {
      BystanderReacts(Arrived(m, Got(m.conn, e.recv.bytes)), e.app.replies, e.app.waits, own, k);
    }
  }

  /** The upload is where it was. */
  lemma StillUploading(a: Local, b: Local, u: Job, n: nat, p: nat, k: Limits)
    requires Uploading(a, u, n, p, k) && SameImage(a, b, u.own) && b.conn == a.conn && LocalBacked(b)
    ensures Uploading(b, u, n, p, k)
  {
    hide IsUpload;
  }

  // ---- One round ----

  /** The `j`-th connection is uploading; no other uses its buffer or the image buffer. */
  ghost predicate UploadAt(w: World, j: nat, u: Job, n: nat, p: nat, k: Limits) {
    && AllBacked(w) && j < |w.conns| && u.own < |w.heap| && Uploading(LocalAt(w, j), u, n, p, k)
    && forall i :: 0 <= i < |w.conns| && i != j ==> w.conns[i].buf != IMAGE_BUF && w.conns[i].buf != u.own
  }

  /** No other connection begins or ends an upload in this round. */
  ghost predicate OthersAreBystanders(w: World, events: nat -> Event, j: nat, k: Limits)
    requires AllBacked(w)
  {
    forall i :: 0 <= i < |w.conns| && i != j ==> IsBystander(LocalAt(WorldAt(w, events, i, k), i), events(i))
  }

  lemma OneTurn(v: World, i: nat, e: Event, j: nat, u: Job, n: nat, p: nat, piece: seq<byte>, k: Limits)
    requires UploadAt(v, j, u, n, p, k) && i < |v.conns| && TurnAt(v, i, e, k).Going?
    requires i != j ==> IsBystander(LocalAt(v, i), e)
    requires i == j ==>
               && n < |u.stream| && u.queue.pending == [] && Brings(v.conns[j], e, piece)
               && (piece != [] ==> Acceptable(u, n, p, piece, k))
    ensures UploadAt(TurnAt(v, i, e, k).value, j, u, if i == j then n + |piece| else n, p, k)
  {
    hide Turned, Uploading, Acceptable, Brings, IsBystander, SameSizes;
    var after := TurnAt(v, i, e, k).value;
    SizesLength(v.heap, after.heap);
    if i == j {
      UploadTurn(LocalAt(v, j), u, n, p, e, piece, k);
      assert LocalAt(after, j) == Turned(LocalAt(v, j), e, k).value;
    } else {
      BystanderTurn(LocalAt(v, i), e, u.own, k);
      StillUploading(LocalAt(v, j), LocalAt(after, j), u, n, p, k);
    }
  }

  lemma SizesLength(a: seq<seq<byte>>, b: seq<seq<byte>>)
    requires SameSizes(a, b)
    ensures |a| == |b|
  {
  }

  /** How far the upload is when the first `i` connections have had their turns. */
  function Progress(n: nat, j: nat, piece: seq<byte>, i: nat): nat {
    if j < i then n + |piece| else n
  }

  /** What these turns bring to the upload, and that no other interferes. */
  ghost predicate TurnsBring(w: World, events: nat -> Event, j: nat, u: Job, n: nat, p: nat, piece: seq<byte>,
                             k: Limits)
    requires AllBacked(w) && j < |w.conns|
  {
    && Brings(w.conns[j], events(j), piece) && (piece != [] ==> Acceptable(u, n, p, piece, k))
    && OthersAreBystanders(w, events, j, k)
  }

  ghost predicate Undisturbed(w: World, events: nat -> Event, j: nat, u: Job, n: nat, p: nat, piece: seq<byte>,
                              k: Limits) {
    UploadAt(w, j, u, n, p, k) && n < |u.stream| && u.queue.pending == [] && TurnsBring(w, events, j, u, n, p, piece, k)
  }

  lemma {:induction false} TurnsKeepUpload(w: World, events: nat -> Event, i: nat, v: World, j: nat, u: Job, n: nat,
                                           p: nat, piece: seq<byte>, k: Limits)
    requires AllBacked(w) && i <= |w.conns| && TurnsUpTo(w, events, i, k) == Going(v)
    requires Undisturbed(w, events, j, u, n, p, piece, k)
    ensures UploadAt(v, j, u, Progress(n, j, piece, i), p, k)
    decreases i
  {
    hide UploadAt, Acceptable, Brings, TurnAt, OthersAreBystanders, AllBacked, SameSizes;
    hide WorldAt, IsBystander, Progress;
    if i == 0 {
      assert UploadAt(v, j, u, n, p, k) && Progress(n, j, piece, 0) == n by { NoProgress(n, j, piece); }
    } else {
      var v0 := PreviousTurns(w, events, i, v, k);
      hide TurnsUpTo;
      TurnsKeepUpload(w, events, i - 1, v0, j, u, n, p, piece, k);
      if i - 1 != j {
        BystanderAt(w, events, i - 1, j, k);
      }
      MoreProgress(v0, i, events(i - 1), v, j, u, n, p, piece, k);
    }
  }

  lemma NoProgress(n: nat, j: nat, piece: seq<byte>)
    ensures Progress(n, j, piece, 0) == n
  {
  }

  lemma MoreProgress(v0: World, i: nat, e: Event, v: World, j: nat, u: Job, n: nat, p: nat, piece: seq<byte>, k: Limits)
    requires 0 < i <= |v0.conns| && UploadAt(v0, j, u, Progress(n, j, piece, i - 1), p, k)
    requires AllBacked(v0) && TurnAt(v0, i - 1, e, k) == Going(v) && u.queue.pending == []
    requires i - 1 != j ==> IsBystander(LocalAt(v0, i - 1), e)
    requires i - 1 == j ==>
               n < |u.stream| && Brings(v0.conns[j], e, piece) && (piece != [] ==> Acceptable(u, n, p, piece, k))
    ensures UploadAt(v, j, u, Progress(n, j, piece, i), p, k)
  {
    hide UploadAt, Acceptable, Brings, TurnAt, IsBystander, AllBacked;
    OneTurn(v0, i - 1, e, j, u, Progress(n, j, piece, i - 1), p, piece, k);
  }

  lemma UploadBounds(w: World, j: nat, u: Job, n: nat, p: nat, k: Limits)
    requires UploadAt(w, j, u, n, p, k)
    ensures AllBacked(w) && j < |w.conns| && n <= |u.stream|
  {
    hide IsUpload;
  }

  lemma PreviousTurns(w: World, events: nat -> Event, i: nat, v: World, k: Limits) returns (v0: World)
    requires AllBacked(w) && 0 < i <= |w.conns| && TurnsUpTo(w, events, i, k) == Going(v)
    ensures TurnsUpTo(w, events, i - 1, k) == Going(v0)
    ensures AllBacked(v0) && |v0.conns| == |w.conns| && v0 == WorldAt(w, events, i - 1, k)
    ensures forall m :: i - 1 <= m < |w.conns| ==> v0.conns[m] == w.conns[m]
    ensures TurnAt(v0, i - 1, events(i - 1), k) == Going(v)
  {
    hide TurnAt;
    v0 := TurnsUpTo(w, events, i - 1, k).value;
  }

  lemma BystanderAt(w: World, events: nat -> Event, i: nat, j: nat, k: Limits)
    requires AllBacked(w) && i < |w.conns| && i != j && OthersAreBystanders(w, events, j, k)
    ensures IsBystander(LocalAt(WorldAt(w, events, i, k), i), events(i))
  {
    hide IsBystander, WorldAt;
  }

  /** What a round brings to the upload, and that nothing interferes with it. */
  ghost predicate RoundBrings(w: World, round: LoopRound, j: nat, u: Job, n: nat, p: nat, piece: seq<byte>, k: Limits)
    requires AllBacked(w) && j < |w.conns|
  {
    match round
    case PollError => false
    case Timeout(_) => piece == []
    case Ready(_, _, events) => TurnsBring(w, events, j, u, n, p, piece, k)
  }

  lemma TicksKeepUpload(w: World, ticks: nat -> Tick, j: nat, u: Job, n: nat, p: nat, k: Limits)
    requires UploadAt(w, j, u, n, p, k) && n < |u.stream|
    ensures UploadAt(w.(conns := AllTicked(w.conns, ticks, k)), j, u, n, p, k)
  {
    hide Uploading, SendQueue.PutChunk;
    UploaderFields(LocalAt(w, j), u, n, p, k);
    var v := w.(conns := AllTicked(w.conns, ticks, k));
    assert v.conns[j] == w.conns[j] && LocalAt(v, j) == LocalAt(w, j);
    forall i | 0 <= i < |v.conns| ensures Backed(v.conns[i], v.heap) && v.conns[i].buf == w.conns[i].buf {
    }
  }

  lemma KeptAt(conns: seq<Conn>, j: nat)
    requires j < |conns| && !conns[j].closed
    ensures var j' := NewPlace(conns, j);
            && j' < |KeepOpen(conns)| && KeepOpen(conns)[j'] == conns[j]
            && forall i :: 0 <= i < |KeepOpen(conns)| && i != j' ==>
                 exists m :: 0 <= m < |conns| && m != j && KeepOpen(conns)[i] == conns[m]
  {
    var front, back := conns[..j], conns[j + 1..];
    assert conns == front + ([conns[j]] + back);
    KeepOpenConcat(front, [conns[j]] + back);
    KeepOpenConcat([conns[j]], back);
    assert [conns[j]][1..] == [];
    assert KeepOpen([conns[j]]) == [conns[j]];
    var kept, j' := KeepOpen(conns), NewPlace(conns, j);
    forall i | 0 <= i < |kept| && i != j' ensures exists m :: 0 <= m < |conns| && m != j && kept[i] == conns[m] {
      if i < j' {
        var m := KeptFrom(front, i);
        assert kept[i] == conns[m];
      } else {
        var m := KeptFrom(back, i - j' - 1);
        assert kept[i] == conns[j + 1 + m];
      }
    }
  }

  lemma RebuildKeepsUpload(v: World, accepted: Option<nat>, after: World, j: nat, u: Job, n: nat, p: nat, k: Limits)
    requires UploadAt(v, j, u, n, p, k) && Joined(Swept(v), accepted, after, k) && AllBacked(after)
    ensures UploadAt(after, NewPlace(v.conns, j), u, n, p, k)
  {
    assert !v.conns[j].closed;
    hide Uploading, KeepOpen, Released, NewConn;
    KeptAt(v.conns, j);
    var kept, j' := KeepOpen(v.conns), NewPlace(v.conns, j);
    assert after.heap[..|v.heap|] == v.heap;
    assert after.conns[j'] == v.conns[j];
    GrownHeap(LocalAt(v, j), after.heap, u, n, p, k);
    forall i | 0 <= i < |after.conns| && i != j'
      ensures after.conns[i].buf != IMAGE_BUF && after.conns[i].buf != u.own
    {
      if i < |kept| {
        assert after.conns[i] == kept[i];
      } else {
        NewBuffer(accepted.value, Swept(v).stale[0], |v.heap|, k);
      }
    }
  }

  lemma NewBuffer(fd: nat, http: HttpState, buf: nat, k: Limits)
    ensures NewConn(fd, http, buf, k).buf == buf
  {
  }

  lemma GrownHeap(l: Local, heap: seq<seq<byte>>, u: Job, n: nat, p: nat, k: Limits)
    requires Uploading(l, u, n, p, k) && |l.heap| <= |heap| && heap[..|l.heap|] == l.heap
    ensures Uploading(l.(heap := heap), u, n, p, k)
  {
    hide IsUpload;
    assert heap[IMAGE_BUF] == heap[..|l.heap|][IMAGE_BUF] && heap[u.own] == heap[..|l.heap|][u.own];
    assert heap[l.conn.buf] == heap[..|l.heap|][l.conn.buf];
  }

  /** One round of the loop: the upload goes on by what the round brings. */
  lemma UploadRound(w: World, round: LoopRound, after: World, j: nat, u: Job, n: nat, p: nat, piece: seq<byte>,
                    k: Limits)
    requires UploadAt(w, j, u, n, p, k) && n < |u.stream| && u.queue.pending == []
    requires WorldStep(w, round, after, k) && RoundBrings(w, round, j, u, n, p, piece, k)
    ensures UploadAt(after, NewPlace(Happened(w, round, k).value.conns, j), u, n + |piece|, p, k)
  {
    hide UploadAt, Acceptable, Brings, OthersAreBystanders, AllTicked, TurnsUpTo;
    UploadBounds(w, j, u, n, p, k);
    var v := Happened(w, round, k).value;
    assert |v.conns| == |w.conns|;
    match round {
      case Timeout(ticks) => TicksKeepUpload(w, ticks, j, u, n, p, k);
      case Ready(_, _, events) => TurnsKeepUpload(w, events, |w.conns|, v, j, u, n, p, piece, k);
    }
    SweptBacked(w, round, k);
    JoinedBacked(Swept(v), AcceptedIn(round), after, k);
    RebuildKeepsUpload(v, AcceptedIn(round), after, j, u, n + |piece|, p, k);
  }

  // ---- Many rounds ----

  /** From the `r`-th loop head on, the rounds bring the given pieces to the `j`-th connection, and nothing
      interferes. */
  ghost predicate RunBrings(history: seq<World>, rounds: seq<LoopRound>, r: nat, j: nat, u: Job, n: nat, p: nat,
                            pieces: seq<seq<byte>>, k: Limits)
    requires r + |pieces| < |history| <= |rounds| + 1
    decreases |pieces|
  {
    pieces != [] ==>
      && n < |u.stream| && AllBacked(history[r]) && j < |history[r].conns|
      && RoundBrings(history[r], rounds[r], j, u, n, p, pieces[0], k)
      && Happened(history[r], rounds[r], k).Going?
      && RunBrings(history, rounds, r + 1, NewPlace(Happened(history[r], rounds[r], k).value.conns, j), u,
                   n + |pieces[0]|, p, pieces[1..], k)
  }

  /** In every run of the loop in which no other connection begins or ends an upload meanwhile: whatever the others do,
      whoever comes and goes, and however the request is cut, the image buffer ends up with exactly the body, the answer
      is queued, and the connection is still listed and has its buffer and capacity back. */
  lemma {:induction false} UploadInTheLoop(history: seq<World>, rounds: seq<LoopRound>, r: nat, j: nat, u: Job, n: nat,
                                           p: nat, pieces: seq<seq<byte>>, k: Limits) returns (last: nat)
    requires IsWorldRun(history, rounds, k) && r + |pieces| < |history|
    requires UploadAt(history[r], j, u, n, p, k) && u.queue.pending == [] && n + |Flatten(pieces)| == |u.stream|
    requires RunBrings(history, rounds, r, j, u, n, p, pieces, k)
    ensures var w := history[r + |pieces|];
            && last < |w.conns| && AllBacked(w) && HasRoom(LocalAt(w, last), u, k) && Uploaded(LocalAt(w, last), u, k)
            && !w.conns[last].closed
    decreases |pieces|
  {
    hide UploadAt, RoundBrings, Happened, WorldStep, Uploaded, HasRoom, AllBacked;
    if pieces == [] {
      Complete(history[r], j, u, n, p, k);
      last := j;
    } else {
      UploadRound(history[r], rounds[r], history[r + 1], j, u, n, p, pieces[0], k);
      var j' := NewPlace(Happened(history[r], rounds[r], k).value.conns, j);
      last := UploadInTheLoop(history, rounds, r + 1, j', u, n + |pieces[0]|, p, pieces[1..], k);
    }
  }

  lemma Complete(w: World, j: nat, u: Job, n: nat, p: nat, k: Limits)
    requires UploadAt(w, j, u, n, p, k) && n == |u.stream|
    ensures j < |w.conns| && AllBacked(w) && HasRoom(LocalAt(w, j), u, k) && Uploaded(LocalAt(w, j), u, k)
    ensures !w.conns[j].closed
  {
    hide IsUpload, Uploaded;
  }

  // ---- Two uploads at a time ----

  /** The data completes the head of an upload of valid length. */
  predicate BeginsUpload(a: Local)
    requires Sane(a)
  {
    && a.conn.http.state == ReceivingHead && Decided(a).Begin? && Decided(a).path == IMAGE_PATH
    && MIN_IMAGE_SIZE <= Decided(a).contentLen <= ImageSize(a)
  }

  lemma BeginsAnother(a: Local, replies: seq<seq<byte>>, waits: bool, k: Limits)
    requires Defined(a, k) && BeginsUpload(a)
    ensures var m, d := OwnReact(a, replies, waits, k), Decided(a);
            && m.heap == a.heap[IMAGE_BUF := Filled(ImageSize(a))] && m.conn.buf == IMAGE_BUF
            && m.store == Store(Some(a.conn.buf), d.headLen, a.conn.recvIdx - d.headLen)
  {
    hide Decide, Filled;
  }

  /** Another connection begins an upload while one is going on: what had arrived of the first body is overwritten,
      and the globals are those of the second upload. Both connections receive into the image buffer, and the first
      does not notice: nothing of it has changed. */
  lemma SecondUpload(w: World, i: nat, got: seq<byte>, replies: seq<seq<byte>>, v: World, j: nat, u: Job, n: nat,
                     p: nat, k: Limits)
    requires AllBacked(w) && i < |w.conns| && i != j && BringsUpload(LocalAt(w, i), got)
    requires UploadAt(w, j, u, n, p, k) && u.headLen <= n < |u.stream|
    requires TurnAt(w, i, Incoming(got, replies), k) == Going(v)
    ensures |v.conns| == |w.conns| && v.conns[j] == w.conns[j] && v.conns[i].buf == v.conns[j].buf == IMAGE_BUF
    ensures |v.heap| == |w.heap| && v.heap[IMAGE_BUF] == Filled(|w.heap[IMAGE_BUF]|)
    ensures v.store.gRecvBuf == Some(w.conns[i].buf) != w.store.gRecvBuf && !UploadAt(v, j, u, n, p, k)
  {
    hide IsUpload, Filled, BringsUpload, Turned;
    AnotherBegins(LocalAt(w, i), got, replies, k);
  }

  /** Data arrives and completes the head of an upload of valid length. */
  predicate BringsUpload(l: Local, got: seq<byte>)
    requires LocalBacked(l)
  {
    0 < |got| <= l.conn.toRecv && !Overcommitted(l.conn) && BeginsUpload(Arrived(l, got))
  }

  lemma AnotherBegins(l: Local, got: seq<byte>, replies: seq<seq<byte>>, k: Limits)
    requires LocalBacked(l) && BringsUpload(l, got) && Turned(l, Incoming(got, replies), k).Going?
    requires l.conn.buf != IMAGE_BUF
    ensures var m := Turned(l, Incoming(got, replies), k).value;
            && |m.heap| == |l.heap| && m.heap[IMAGE_BUF] == Filled(|l.heap[IMAGE_BUF]|) && m.conn.buf == IMAGE_BUF
            && m.store.gRecvBuf == Some(l.conn.buf)
  {
    hide Decide, Filled, Defined, OwnReact, BeginsUpload;
    assert Got(l.conn, got) == got;
    var a := Arrived(l, got);
    BeginsAnother(a, replies, false, k);
    hide Written;
  }

  /** When the rest of the first body arrives then, the first connection is answered as usual. But it gets the receive
      buffer of the other connection, and the image buffer gets the early part of the other body, with what has
      arrived of the first one since. */
  lemma FirstIsConfused(l: Local, contentLen: nat, k: Limits, piece: seq<byte>, replies: seq<seq<byte>>, waits: bool)
    requires LocalBacked(l) && l.conn.http.state == ReceivingBody && l.conn.http.whichIncomplete == Image
    requires l.conn.buf == IMAGE_BUF && l.conn.capacity == |l.heap[IMAGE_BUF]| && l.conn.http.contentLen == contentLen
    requires l.conn.recvIdx + l.conn.toRecv == contentLen <= |l.heap[IMAGE_BUF]| && 0 < |piece| == l.conn.toRecv
    requires l.store.gRecvBuf.Some? && IMAGE_BUF < l.store.gRecvBuf.value < |l.heap|
    requires l.store.gHeadLen + l.store.gBodyLen <= |l.heap[l.store.gRecvBuf.value]|
    requires k.recvBufLen <= |l.heap[l.store.gRecvBuf.value]| && l.store.gBodyLen <= |l.heap[IMAGE_BUF]|
    ensures var o := Receiving(l, Data(piece), Own(replies, waits), k);
            var other := l.store.gRecvBuf.value;
            var early := l.heap[other][l.store.gHeadLen..l.store.gHeadLen + l.store.gBodyLen];
            && o.Going? && o.value.conn.buf == other && o.value.conn.http.state == Sending
            && o.value.heap[IMAGE_BUF] == Written(Written(l.heap[IMAGE_BUF], l.conn.recvIdx, piece), 0, early)
            && forall i :: 0 < i < |l.heap| ==> o.value.heap[i] == l.heap[i]
  {
    assert Got(l.conn, piece) == piece;
    hide Put200, Put400, Written;
  }
}
