/** The event loop together with its application: the listed connections, what the free nodes still hold, the contents
    of the receive buffers, and the globals of an image upload. Every round is a round of module EventLoop. */
module World {
  import opened Bytes
  import opened Connection
  import opened EventLoop
  import opened AppSpec
  import ServerApp
  import SendQueue

  /** What is called when data has arrived: any application, as the calls it makes, or the one of ServerApp.c, with what
      its handlers write. */
  datatype App = Script(calls: seq<AppCall>) | Own(replies: seq<seq<byte>>, waits: bool)

  /** What happens to one connection in one round. */
  datatype Event = Event(raw: Revents, recv: RecvResult, app: App, send: IoResult)

  datatype LoopRound =
    | PollError
    | Timeout(ticks: nat -> Tick)
    | Ready(listenErr: bool, accepted: Option<nat>, events: nat -> Event)

  /** `stale` are the HTTP states in the free nodes, the next one to be handed out first; `heap` are the receive buffers
      by their numbers. */
  datatype World = World(conns: seq<Conn>, stale: seq<HttpState>, heap: seq<seq<byte>>, store: Store)

  /** The outcome of a piece of the loop: it goes on, an assertion of the code fails, or its behaviour is undefined. */
  datatype Outcome<T> = Going(value: T) | AssertionFailed | Undefined

  // ---- One connection ----

  /** A script switches only to a buffer there is, and no further than it reaches. */
  predicate ValidCalls(calls: seq<AppCall>, heap: seq<seq<byte>>) {
    forall i :: 0 <= i < |calls| && calls[i].Switch? ==>
      calls[i].buf < |heap| && calls[i].capacity <= |heap[calls[i].buf]|
  }

  /** The capacity is no more than the buffer has. */
  predicate Backed(s: Conn, heap: seq<seq<byte>>) {
    s.buf < |heap| && s.capacity <= |heap[s.buf]|
  }

  predicate LocalBacked(l: Local) {
    IMAGE_BUF < |l.heap| && Backed(l.conn, l.heap)
  }

  /** recv() has brought `got`. */
  function Arrived(l: Local, got: seq<byte>): (a: Local)
    requires LocalBacked(l) && |got| <= l.conn.toRecv && !Overcommitted(l.conn)
    ensures Sane(a) && LocalBacked(a)
  {
    Local(Received(l.conn, |got|), l.heap[l.conn.buf := Written(l.heap[l.conn.buf], l.conn.recvIdx, got)], l.store)
  }

  function Called(l: Local, app: App, k: Limits): Outcome<Local> {
    match app
    case Script(calls) =>
      if ValidCalls(calls, l.heap) then Going(l.(conn := ApplyCalls(l.conn, calls, k))) else Undefined
    case Own(replies, waits) =>
      if Starved(l.conn) then AssertionFailed
      else if Defined(l, k) then Going(OwnReact(l, replies, waits, k))
      else Undefined
  }

  /** DoRecv */
  function Receiving(l: Local, recv: RecvResult, app: App, k: Limits): Outcome<Local>
    requires LocalBacked(l)
  {
    if Overcommitted(l.conn) then AssertionFailed
    else
      match recv
      case NothingYet => Going(l)
      case RecvError => Going(l.(conn := l.conn.(closed := true)))
      case PeerClosed => Going(l.(conn := l.conn.(closed := true)))
      case Data(bytes) =>
        var got := Got(l.conn, bytes);
        if got == [] then Going(l.(conn := l.conn.(closed := true))) else Called(Arrived(l, got), app, k)
  }

  /** The rest of CheckConnections' turn: output, then hang-up. */
  function Finishing(s: Conn, r: Revents, send: IoResult, k: Limits): Conn {
    var t := if r.out then Sent(s, Capped(send, |s.queue.pending|), k.recvBufLen) else s;
    if r.hup then t.(closed := true) else t
  }

  /** One turn of CheckConnections. */
  function Turned(l: Local, e: Event, k: Limits): Outcome<Local>
    requires LocalBacked(l)
  {
    var r := Reported(l.conn, e.raw);
    var afterErr := if r.err then l.(conn := l.conn.(closed := true)) else l;
    var afterIn := if r.in_ then Receiving(afterErr, e.recv, e.app, k) else Going(afterErr);
    match afterIn
    case Going(m) => Going(m.(conn := Finishing(m.conn, r, e.send, k)))
    case _ => afterIn
  }

  // ---- All connections ----

  predicate AllBacked(w: World) {
    IMAGE_BUF < |w.heap| && forall j :: 0 <= j < |w.conns| ==> Backed(w.conns[j], w.heap)
  }

  function LocalAt(w: World, j: nat): Local
    requires j < |w.conns|
  {
    Local(w.conns[j], w.heap, w.store)
  }

  function WithLocal(w: World, j: nat, l: Local): World
    requires j < |w.conns|
  {
    w.(conns := w.conns[j := l.conn], heap := l.heap, store := l.store)
  }

  /** No buffer ever changes its size. */
  predicate SameSizes(a: seq<seq<byte>>, b: seq<seq<byte>>) {
    |a| == |b| && forall i :: 0 <= i < |a| ==> |a[i]| == |b[i]|
  }

  lemma {:induction false} CallsKeepBacked(s: Conn, calls: seq<AppCall>, heap: seq<seq<byte>>, k: Limits)
    requires Backed(s, heap) && ValidCalls(calls, heap)
    ensures Backed(ApplyCalls(s, calls, k), heap)
    decreases |calls|
  {
    if calls != [] {
      CallsKeepBacked(s, calls[..|calls| - 1], heap, k);
    }
  }

  lemma OwnKeepsBacked(l: Local, replies: seq<seq<byte>>, waits: bool, k: Limits)
    requires LocalBacked(l) && Defined(l, k)
    ensures var m := OwnReact(l, replies, waits, k); LocalBacked(m) && SameSizes(l.heap, m.heap)
  {
    hide ServerApp.Decide, SendQueue.PutAll, ServerApp.Put200, ServerApp.Put400;
  }

  lemma ReceivingKeepsBacked(l: Local, recv: RecvResult, app: App, k: Limits)
    requires LocalBacked(l) && Receiving(l, recv, app, k).Going?
    ensures var m := Receiving(l, recv, app, k).value; LocalBacked(m) && SameSizes(l.heap, m.heap)
  {
    hide Defined, OwnReact, ApplyCalls;
    if recv.Data? && Got(l.conn, recv.bytes) != [] {
      var a := Arrived(l, Got(l.conn, recv.bytes));
      match app {
        case Script(calls) => CallsKeepBacked(a.conn, calls, a.heap, k);
        case Own(replies, waits) => OwnKeepsBacked(a, replies, waits, k);
      }
    }
  }

  lemma FinishingKeepsBacked(s: Conn, r: Revents, send: IoResult, heap: seq<seq<byte>>, k: Limits)
    requires Backed(s, heap)
    ensures Backed(Finishing(s, r, send, k), heap)
  {
  }

  lemma TurnKeepsBacked(l: Local, e: Event, k: Limits)
    requires LocalBacked(l) && Turned(l, e, k).Going?
    ensures var m := Turned(l, e, k).value; LocalBacked(m) && SameSizes(l.heap, m.heap)
  {
    var r := Reported(l.conn, e.raw);
    var afterErr := if r.err then l.(conn := l.conn.(closed := true)) else l;
    hide Receiving, Finishing, Reported;
    var afterIn := afterErr;
    if r.in_ {
      ReceivingKeepsBacked(afterErr, e.recv, e.app, k);
      afterIn := Receiving(afterErr, e.recv, e.app, k).value;
    }
    FinishingKeepsBacked(afterIn.conn, r, e.send, afterIn.heap, k);
  }

  function TurnAt(w: World, j: nat, e: Event, k: Limits): (o: Outcome<World>)
    requires AllBacked(w) && j < |w.conns|
    ensures o.Going? ==> AllBacked(o.value) && SameSizes(w.heap, o.value.heap) && o.value.stale == w.stale
    ensures o.Going? ==> |o.value.conns| == |w.conns|
    ensures o.Going? ==> forall i :: 0 <= i < |w.conns| && i != j ==> o.value.conns[i] == w.conns[i]
  {
    match Turned(LocalAt(w, j), e, k)
    case Going(l) =>
      TurnKeepsBacked(LocalAt(w, j), e, k);
      hide Turned;
      Going(WithLocal(w, j, l))
    case AssertionFailed => AssertionFailed
    case Undefined => Undefined
  }

  /** CheckConnections has dealt with the first `i` connections. */
  function TurnsUpTo(w: World, events: nat -> Event, i: nat, k: Limits): (o: Outcome<World>)
    requires AllBacked(w) && i <= |w.conns|
    ensures o.Going? ==> AllBacked(o.value) && |o.value.conns| == |w.conns| && o.value.stale == w.stale
    ensures o.Going? ==> SameSizes(w.heap, o.value.heap)
    ensures o.Going? ==> forall j :: i <= j < |w.conns| ==> o.value.conns[j] == w.conns[j]
  {
    if i == 0 then Going(w)
    else
      match TurnsUpTo(w, events, i - 1, k)
      case Going(v) =>
        hide TurnAt;
        TurnAt(v, i - 1, events(i - 1), k)
      case other => other
  }

  /** What happens between poll() and the rebuild. */
  function Happened(w: World, round: LoopRound, k: Limits): (o: Outcome<World>)
    requires AllBacked(w)
    ensures o.Going? ==> |o.value.conns| == |w.conns| && o.value.stale == w.stale
  {
    match round
    case PollError => Undefined
    case Timeout(ticks) => Going(w.(conns := AllTicked(w.conns, ticks, k)))
    case Ready(_, _, events) => TurnsUpTo(w, events, |w.conns|, k)
  }

  function AllTicked(cs: seq<Conn>, ticks: nat -> Tick, k: Limits): (after: seq<Conn>)
    ensures |after| == |cs| && forall j :: 0 <= j < |cs| ==> after[j] == Ticked(cs[j], ticks(j), k)
  {
    seq(|cs|, j requires 0 <= j < |cs| => Ticked(cs[j], ticks(j), k))
  }

  function AcceptedIn(round: LoopRound): Option<nat> {
    if round.Ready? && !round.listenErr then round.accepted else None
  }

  /** The free nodes after a rebuild: every closed connection's node is the next one to be handed out. */
  function Released(cs: seq<Conn>, stale: seq<HttpState>): seq<HttpState>
    decreases |cs|
  {
    if cs == [] then stale else Released(cs[1..], if cs[0].closed then [cs[0].http] + stale else stale)
  }

  /** A new connection in a node that held the HTTP state `http`. */
  function NewConn(fd: int, http: HttpState, buf: nat, k: Limits): Conn {
    Conn(fd, SendQueue.EMPTY, buf, k.recvBufLen, 0, k.recvBufLen, false, 0, http)
  }

  /** The accepted connection has joined the others, in the first free node and with a new receive buffer, if there was
      one and there was room. */
  ghost predicate Joined(w: World, accepted: Option<nat>, after: World, k: Limits) {
    if accepted.None? || w.stale == [] then after == w
    else
      && after.conns == w.conns + [NewConn(accepted.value, w.stale[0], |w.heap|, k)]
      && after.stale == w.stale[1..] && after.store == w.store
      && |after.heap| == |w.heap| + 1 && after.heap[..|w.heap|] == w.heap && |after.heap[|w.heap|]| == k.recvBufLen
  }

  function Swept(w: World): World {
    w.(conns := KeepOpen(w.conns), stale := Released(w.conns, w.stale))
  }

  /** One round of the loop. */
  ghost predicate WorldStep(w: World, round: LoopRound, after: World, k: Limits) {
    && AllBacked(w) && !round.PollError? && Happened(w, round, k).Going?
    && Joined(Swept(Happened(w, round, k).value), AcceptedIn(round), after, k)
  }

  /** At start-up there is the image buffer, and no upload; the nodes hold anything. */
  predicate IsStart(w: World, k: Limits) {
    w.conns == [] && |w.stale| == k.maxClients && |w.heap| == 1 && w.store == Store(None, 0, 0)
  }

  /** The worlds at the successive loop heads. */
  ghost predicate IsWorldRun(history: seq<World>, rounds: seq<LoopRound>, k: Limits) {
    && 1 <= |history| <= |rounds| + 1 && IsStart(history[0], k)
    && forall r :: 0 <= r < |history| - 1 ==> WorldStep(history[r], rounds[r], history[r + 1], k)
  }

  lemma ExtendWorldRun(history: seq<World>, rounds: seq<LoopRound>, after: World, k: Limits)
    requires IsWorldRun(history, rounds, k) && |history| <= |rounds|
    requires WorldStep(history[|history| - 1], rounds[|history| - 1], after, k)
    ensures IsWorldRun(history + [after], rounds, k) && (history + [after])[0] == history[0]
  {
    hide WorldStep, IsStart;
  }

  // ---- Every round is a round of module EventLoop ----

  /** The calls that an application makes in an event. */
  function CallsIn(l: Local, e: Event, k: Limits): seq<AppCall>
    requires LocalBacked(l)
  {
    var r := Reported(l.conn, e.raw);
    var afterErr := if r.err then l.(conn := l.conn.(closed := true)) else l;
    if r.in_ && !Overcommitted(l.conn) && e.recv.Data? && Got(afterErr.conn, e.recv.bytes) != [] then
      match e.app
      case Script(calls) => calls
      case Own(replies, waits) =>
        var a := Arrived(afterErr, Got(afterErr.conn, e.recv.bytes));
        if Defined(a, k) then CallsOf(a, replies, waits, k) else []
    else []
  }

  function InputOf(l: Local, e: Event, k: Limits): ConnInput
    requires LocalBacked(l)
  {
    ConnInput(e.raw, e.recv, CallsIn(l, e, k), e.send)
  }

  /** OnRecvBody's assertion fails in this turn. */
  predicate StarvesIn(l: Local, e: Event)
    requires LocalBacked(l)
  {
    && Reported(l.conn, e.raw).in_ && !Overcommitted(l.conn) && e.app.Own?
    && e.recv.Data? && Got(l.conn, e.recv.bytes) != [] && Starved(Received(l.conn, |Got(l.conn, e.recv.bytes)|))
  }

  /** A turn is the reaction of the connection to those calls. The assertion in DoRecv fails in the one if and only if
      it does in the other; the one in OnRecvBody is the application's own. */
  lemma TurnIsReaction(l: Local, e: Event, k: Limits)
    requires LocalBacked(l)
    ensures Turned(l, e, k).AssertionFailed? <==> Faulty(l.conn, InputOf(l, e, k)) || StarvesIn(l, e)
    ensures Turned(l, e, k).Going? ==>
              !Faulty(l.conn, InputOf(l, e, k)) && Turned(l, e, k).value.conn == React(l.conn, InputOf(l, e, k), k)
  {
    hide ApplyCalls, OwnReact, CallsOf, Defined, Written;
    var r := Reported(l.conn, e.raw);
    var afterErr := if r.err then l.(conn := l.conn.(closed := true)) else l;
    if r.in_ && !Overcommitted(l.conn) && e.recv.Data? && Got(afterErr.conn, e.recv.bytes) != [] {
      var a := Arrived(afterErr, Got(afterErr.conn, e.recv.bytes));
      if e.app.Own? && Defined(a, k) {
        OwnReactionIsCalls(a, e.app.replies, e.app.waits, k);
      }
    }
  }

  /** The world in which the `j`-th connection takes its turn. */
  function WorldAt(w: World, events: nat -> Event, j: nat, k: Limits): (v: World)
    requires AllBacked(w) && j <= |w.conns|
    ensures AllBacked(v) && |v.conns| == |w.conns| && forall i :: j <= i < |w.conns| ==> v.conns[i] == w.conns[i]
  {
    var o := TurnsUpTo(w, events, j, k);
    if o.Going? then o.value else w
  }

  function InputAt(w: World, events: nat -> Event, j: nat, k: Limits): ConnInput
    requires AllBacked(w)
  {
    if j < |w.conns| then InputOf(LocalAt(WorldAt(w, events, j, k), j), events(j), k)
    else ConnInput(Revents(false, false, false, false), NothingYet, [], WouldBlock)
  }

  /** The round that the application's calls make of it. */
  ghost function RoundOf(w: World, round: LoopRound, k: Limits): Round
    requires AllBacked(w)
  {
    match round
    case PollError => PollFailed
    case Timeout(ticks) => PollTimeout(ticks)
    case Ready(listenErr, accepted, events) => Events(listenErr, accepted, (j: nat) => InputAt(w, events, j, k))
  }

  lemma {:induction false} TurnsAreReactions(w: World, events: nat -> Event, i: nat, k: Limits)
    requires AllBacked(w) && i <= |w.conns| && TurnsUpTo(w, events, i, k).Going?
    ensures var v := TurnsUpTo(w, events, i, k).value;
            forall j :: 0 <= j < i ==>
              !Faulty(w.conns[j], InputAt(w, events, j, k)) &&
              v.conns[j] == React(w.conns[j], InputAt(w, events, j, k), k)
  {
    hide React, Faulty, InputAt, TurnsUpTo;
    if i > 0 {
      LastTurnReacts(w, events, i, k);
      TurnsAreReactions(w, events, i - 1, k);
    }
  }

  lemma LastTurnReacts(w: World, events: nat -> Event, i: nat, k: Limits)
    requires AllBacked(w) && 0 < i <= |w.conns| && TurnsUpTo(w, events, i, k).Going?
    ensures TurnsUpTo(w, events, i - 1, k).Going?
    ensures var u, v := TurnsUpTo(w, events, i - 1, k).value, TurnsUpTo(w, events, i, k).value;
            && |u.conns| == |w.conns| && v.conns == u.conns[i - 1 := v.conns[i - 1]]
            && !Faulty(w.conns[i - 1], InputAt(w, events, i - 1, k))
            && v.conns[i - 1] == React(w.conns[i - 1], InputAt(w, events, i - 1, k), k)
  {
    hide Turned, React, Faulty, InputOf;
    var u := TurnsUpTo(w, events, i - 1, k).value;
    TurnIsReaction(LocalAt(u, i - 1), events(i - 1), k);
  }

  /** Every node is in the list or free. */
  predicate AllNodes(w: World, k: Limits) {
    |w.conns| + |w.stale| == k.maxClients
  }

  lemma {:induction false} ReleasedCount(cs: seq<Conn>, stale: seq<HttpState>)
    ensures |KeepOpen(cs)| + |Released(cs, stale)| == |cs| + |stale|
    decreases |cs|
  {
    if cs != [] {
      ReleasedCount(cs[1..], if cs[0].closed then [cs[0].http] + stale else stale);
    }
  }

  /** Between poll() and the rebuild: the reactions of the round, or a fault exactly where the assertion fails. */
  lemma HappenedIsReacted(w: World, round: LoopRound, k: Limits)
    requires AllBacked(w) && !round.PollError? && Happened(w, round, k).Going?
    ensures !RoundFaults(w.conns, RoundOf(w, round, k))
    ensures Happened(w, round, k).value.conns == Reacted(w.conns, RoundOf(w, round, k), k)
  {
    hide React, Faulty, Ticked, InputAt, TurnsUpTo;
    if round.Ready? {
      TurnsAreReactions(w, round.events, |w.conns|, k);
    }
  }

  lemma {:induction false} FailureIsFault(w: World, events: nat -> Event, i: nat, k: Limits)
    requires AllBacked(w) && i <= |w.conns| && TurnsUpTo(w, events, i, k).AssertionFailed?
    requires forall j :: 0 <= j < |w.conns| ==> !StarvesIn(LocalAt(WorldAt(w, events, j, k), j), events(j))
    ensures exists j :: 0 <= j < i && Faulty(w.conns[j], InputAt(w, events, j, k))
  {
    hide Turned, Faulty, InputOf;
    if i > 0 {
      var before := TurnsUpTo(w, events, i - 1, k);
      if before.Going? {
        TurnIsReaction(LocalAt(before.value, i - 1), events(i - 1), k);
        assert Faulty(w.conns[i - 1], InputAt(w, events, i - 1, k));
      } else {
        FailureIsFault(w, events, i - 1, k);
      }
    }
  }

  /** One round of the loop is one round of module EventLoop, with the calls that the application makes. */
  lemma StepIsRound(w: World, round: LoopRound, after: World, k: Limits)
    requires WorldStep(w, round, after, k) && AllNodes(w, k)
    ensures RoundStep(w.conns, RoundOf(w, round, k), after.conns, k) && AllNodes(after, k) && AllBacked(after)
  {
    hide Happened, RoundFaults, Reacted, KeepOpen, Released, AllTicked, TurnsUpTo, NewConn;
    var v := Happened(w, round, k).value;
    HappenedIsReacted(w, round, k);
    ReleasedCount(v.conns, v.stale);
    SweptBacked(w, round, k);
    assert Accepted(RoundOf(w, round, k)) == AcceptedIn(round);
    JoinedIsStep(Swept(v), AcceptedIn(round), after, k);
    JoinedBacked(Swept(v), AcceptedIn(round), after, k);
  }

  /** The accepted connection joins as module EventLoop says. */
  lemma JoinedIsStep(swept: World, accepted: Option<nat>, after: World, k: Limits)
    requires Joined(swept, accepted, after, k) && AllNodes(swept, k)
    ensures AllNodes(after, k)
    ensures match accepted
            case None => after.conns == swept.conns
            case Some(fd) =>
              if |swept.conns| >= k.maxClients then after.conns == swept.conns
              else
                && |after.conns| == |swept.conns| + 1 && after.conns[..|swept.conns|] == swept.conns
                && JustAccepted(after.conns[|swept.conns|], fd, k)
  {
  }

  lemma SweptBacked(w: World, round: LoopRound, k: Limits)
    requires AllBacked(w) && !round.PollError? && Happened(w, round, k).Going?
    ensures AllBacked(Swept(Happened(w, round, k).value))
  {
    hide KeepOpen, Ticked, Released;
    var v := Happened(w, round, k).value;
    if round.Timeout? {
      forall j | 0 <= j < |v.conns| ensures Backed(v.conns[j], v.heap) {
        TickedBacked(w.conns[j], round.ticks(j), w.heap, k);
      }
    }
    forall i | 0 <= i < |KeepOpen(v.conns)| ensures Backed(KeepOpen(v.conns)[i], v.heap) {
      var j := KeptFrom(v.conns, i);
    }
  }

  lemma TickedBacked(s: Conn, tick: Tick, heap: seq<seq<byte>>, k: Limits)
    requires Backed(s, heap)
    ensures Backed(Ticked(s, tick, k), heap)
  {
  }

  lemma JoinedBacked(w: World, accepted: Option<nat>, after: World, k: Limits)
    requires AllBacked(w) && Joined(w, accepted, after, k)
    ensures AllBacked(after)
  {
    if accepted.Some? && w.stale != [] {
      forall j | 0 <= j < |after.conns| ensures Backed(after.conns[j], after.heap) {
        if j < |w.conns| {
          assert after.conns[j] == w.conns[j];
          assert after.heap[w.conns[j].buf] == after.heap[..|w.heap|][w.conns[j].buf];
        }
      }
    }
  }

  function ConnsOf(history: seq<World>): (all: seq<seq<Conn>>)
    ensures |all| == |history| && forall r :: 0 <= r < |history| ==> all[r] == history[r].conns
  {
    seq(|history|, r requires 0 <= r < |history| => history[r].conns)
  }

  lemma {:induction false} RunKeeps(history: seq<World>, rounds: seq<LoopRound>, k: Limits, r: nat)
    requires IsWorldRun(history, rounds, k) && r < |history|
    ensures AllBacked(history[r]) && AllNodes(history[r], k)
  {
    hide WorldStep, RoundStep;
    if r > 0 {
      RunKeeps(history, rounds, k, r - 1);
      StepIsRound(history[r - 1], rounds[r - 1], history[r], k);
    }
  }

  /** A run of the loop with any application is a run of module EventLoop, in which the application's calls are those it
      has made; all that is proved there holds of it. */
  lemma {:induction false} WorldRunIsRun(history: seq<World>, rounds: seq<LoopRound>, k: Limits)
    returns (own: seq<Round>)
    requires IsWorldRun(history, rounds, k)
    ensures |own| == |rounds| && IsRun(ConnsOf(history), own, k)
    ensures forall r :: 0 <= r < |history| && r < |rounds| ==>
              AllBacked(history[r]) && own[r] == RoundOf(history[r], rounds[r], k)
  {
    hide WorldStep, RoundStep, RoundOf;
    forall r | 0 <= r < |history| ensures AllBacked(history[r]) && AllNodes(history[r], k) {
      RunKeeps(history, rounds, k, r);
    }
    own := seq(|rounds|, r requires 0 <= r < |rounds| =>
      if r < |history| then RoundOf(history[r], rounds[r], k) else PollFailed);
    forall r | 0 <= r < |history| - 1
      ensures RoundStep(ConnsOf(history)[r], own[r], ConnsOf(history)[r + 1], k)
    {
      StepIsRound(history[r], rounds[r], history[r + 1], k);
    }
  }
}
