/** The event loop as a state machine on values: the listed connections in their order, what one round makes of each
    of them, and what that means over whole runs. What poll(), accept(), recv() and send() answer and what the
    application does are inputs of each round. */
module EventLoop {
  import opened Bytes
  import opened Connection
  import SendQueue
  import E = ChunkEncoder

  datatype Revents = Revents(err: bool, in_: bool, out: bool, hup: bool)

  datatype AnyCall =
    | Add(data: seq<byte>)
    | Setup(totalToRecv: nat, recvd: nat)
    | SetHttp(http: HttpState)
    | Switch(buf: nat, capacity: nat)
    | CloseConnection

  /** What an application may do with a connection it has received data for: call the functions of Server.h, and assign
      the fields of its own. `Switch` installs another receive buffer. EL_SetupToRecv asserts that something is left to
      receive. */
  type AppCall = c: AnyCall | c.Setup? ==> c.recvd < c.totalToRecv witness CloseConnection

  /** Four bytes of periodic data. */
  type Tick = s: seq<byte> | |s| == 4 witness [0, 0, 0, 0]

  datatype RecvResult = Data(bytes: seq<byte>) | NothingYet | RecvError | PeerClosed

  /** What happens to one connection in one round: `calls` is what the application does if data arrives. */
  datatype ConnInput = ConnInput(raw: Revents, recv: RecvResult, calls: seq<AppCall>, send: IoResult)

  datatype Round =
    | PollFailed
    | PollTimeout(ticks: nat -> Tick)
    | Events(listenErr: bool, accepted: Option<nat>, inputs: nat -> ConnInput)

  /** MAX_CLIENT_NUM, SEND_BUF_LEN and RECV_BUF_LEN. */
  datatype Limits = Limits(maxClients: nat, sendBufLen: nat, recvBufLen: nat)

  // ---- One connection in one round ----

  function ApplyCall(s: Conn, call: AppCall, k: Limits): Conn {
    match call
    case Add(data) => s.(queue := SendQueue.Put(s.queue, data, k.sendBufLen))
    case Setup(totalToRecv, recvd) => s.(toRecv := totalToRecv - recvd, recvIdx := recvd)
    case SetHttp(http) => s.(http := http)
    case Switch(buf, capacity) => s.(buf := buf, capacity := capacity)
    case CloseConnection => s.(closed := true)
  }

  function ApplyCalls(s: Conn, calls: seq<AppCall>, k: Limits): Conn {
    if calls == [] then s else ApplyCall(ApplyCalls(s, calls[..|calls| - 1], k), calls[|calls| - 1], k)
  }

  /** More is still to come than the receive buffer can hold: DoRecv's assertion fails. */
  predicate Overcommitted(s: Conn) {
    s.recvIdx + s.toRecv > s.capacity
  }

  /** recv() takes at most what was asked for. */
  function Got(s: Conn, bytes: seq<byte>): (got: seq<byte>)
    ensures |got| <= s.toRecv
  {
    if |bytes| <= s.toRecv then bytes else bytes[..s.toRecv]
  }

  /** DoRecv */
  function OnReadable(s: Conn, recv: RecvResult, calls: seq<AppCall>, k: Limits): Conn
    requires !Overcommitted(s)
  {
    match recv
    case NothingYet => s
    case RecvError => s.(closed := true)
    case PeerClosed => s.(closed := true)
    case Data(bytes) =>
      if Got(s, bytes) == [] then s.(closed := true) else ApplyCalls(Received(s, |Got(s, bytes)|), calls, k)
  }

  /** send() takes at most what was offered. */
  function Capped(result: IoResult, n: nat): IoResult {
    if result.Count? && result.n > n then Count(n) else result
  }

  /** The events poll() reports for a connection: those it asked for, errors and hang-ups. */
  function Reported(s: Conn, raw: Revents): Revents {
    raw.(in_ := raw.in_ && s.toRecv > 0, out := raw.out && s.queue.pending != [])
  }

  predicate Faulty(s: Conn, input: ConnInput) {
    Reported(s, input.raw).in_ && Overcommitted(s)
  }

  /** What CheckConnections makes of a connection: error, input, output, hang-up, in this order. */
  function React(s: Conn, input: ConnInput, k: Limits): Conn
    requires !Faulty(s, input)
  {
    var r := Reported(s, input.raw);
    var afterErr := if r.err then s.(closed := true) else s;
    var afterIn := if r.in_ then OnReadable(afterErr, input.recv, input.calls, k) else afterErr;
    var afterOut := if r.out then Sent(afterIn, Capped(input.send, |afterIn.queue.pending|), k.recvBufLen) else afterIn;
    if r.hup then afterOut.(closed := true) else afterOut
  }

  /** What AppOnPollTimeout makes of it: clients that listen for periodic data get one chunk. */
  function Ticked(s: Conn, tick: Tick, k: Limits): Conn {
    if s.http.state == WaitSending then s.(queue := SendQueue.PutChunk(s.queue, tick, k.sendBufLen)) else s
  }

  // ---- All connections in one round ----

  predicate RoundFaults(before: seq<Conn>, round: Round) {
    round.Events? && exists j :: 0 <= j < |before| && Faulty(before[j], round.inputs(j))
  }

  /** Each connection reacts to its own input, and to nothing else. */
  function Reacted(before: seq<Conn>, round: Round, k: Limits): (after: seq<Conn>)
    requires !RoundFaults(before, round)
    ensures |after| == |before|
  {
    match round
    case PollFailed => before
    case PollTimeout(ticks) => seq(|before|, j requires 0 <= j < |before| => Ticked(before[j], ticks(j), k))
    case Events(_, _, inputs) => seq(|before|, j requires 0 <= j < |before| => React(before[j], inputs(j), k))
  }

  function KeepOpen(cs: seq<Conn>): seq<Conn> {
    if cs == [] then [] else (if cs[0].closed then [] else [cs[0]]) + KeepOpen(cs[1..])
  }

  /** A new connection. Its HTTP state is whatever the reused node held. */
  predicate JustAccepted(s: Conn, fd: int, k: Limits) {
    && s.fd == fd && s.queue == SendQueue.EMPTY && !s.closed && s.totalRecv == 0
    && s.recvIdx == 0 && s.toRecv == s.capacity == k.recvBufLen
  }

  /** The connection this round has accepted. */
  function Accepted(round: Round): Option<nat> {
    if round.Events? && !round.listenErr then round.accepted else None
  }

  /** One round of the loop: every connection reacts, closed ones disappear, the others keep their order, and an
      accepted one joins at the end if there is room. */
  ghost predicate RoundStep(before: seq<Conn>, round: Round, after: seq<Conn>, k: Limits) {
    && !round.PollFailed? && !RoundFaults(before, round)
    && var kept := KeepOpen(Reacted(before, round, k));
       match Accepted(round)
       case None => after == kept
       case Some(fd) =>
         if |kept| >= k.maxClients then after == kept
         else |after| == |kept| + 1 && after[..|kept|] == kept && JustAccepted(after[|kept|], fd, k)
  }

  /** The connections at the successive loop heads, from an empty list on. */
  ghost predicate IsRun(history: seq<seq<Conn>>, rounds: seq<Round>, k: Limits) {
    && 1 <= |history| <= |rounds| + 1 && history[0] == []
    && forall r :: 0 <= r < |history| - 1 ==> RoundStep(history[r], rounds[r], history[r + 1], k)
  }

  // ---- What a round keeps ----

  lemma {:induction false} KeepOpenConcat(a: seq<Conn>, b: seq<Conn>)
    ensures KeepOpen(a + b) == KeepOpen(a) + KeepOpen(b)
    decreases |a|
  {
    if a == [] {
      assert a + b == b;
    } else {
      assert (a + b)[1..] == a[1..] + b;
      KeepOpenConcat(a[1..], b);
    }
  }

  /** Exactly the closed connections disappear. */
  lemma {:induction false} KeepOpenExactly(cs: seq<Conn>, s: Conn)
    ensures s in KeepOpen(cs) <==> s in cs && !s.closed
    decreases |cs|
  {
    if cs != [] {
      assert cs == [cs[0]] + cs[1..];
      KeepOpenExactly(cs[1..], s);
    }
  }

  /** Where the `i`-th connection stands after a rebuild, if it is open. */
  function NewPlace(cs: seq<Conn>, i: nat): nat
    requires i <= |cs|
  {
    |KeepOpen(cs[..i])|
  }

  /** What is kept was there, is open, and moves up by the connections that are closed before it. */
  lemma {:induction false} KeptFrom(cs: seq<Conn>, i: nat) returns (j: nat)
    requires i < |KeepOpen(cs)|
    ensures i <= j < |cs| && KeepOpen(cs)[i] == cs[j] && !cs[j].closed && i == NewPlace(cs, j)
    decreases |cs|
  {
    if !cs[0].closed && i == 0 {
      j := 0;
    } else {
      j := KeptFrom(cs[1..], if cs[0].closed then i else i - 1);
      j := j + 1;
      assert cs[..j][1..] == cs[1..][..j - 1];
    }
  }

  lemma {:induction false} KeepOpenShorter(cs: seq<Conn>)
    ensures |KeepOpen(cs)| <= |cs|
    decreases |cs|
  {
    if cs != [] {
      KeepOpenShorter(cs[1..]);
    }
  }

  /** Two connections that stay keep their order. */
  lemma KeepOpenOrder(cs: seq<Conn>, i: nat, j: nat)
    requires i < j < |cs| && !cs[i].closed && !cs[j].closed
    ensures exists m, n :: 0 <= m < n < |KeepOpen(cs)| && KeepOpen(cs)[m] == cs[i] && KeepOpen(cs)[n] == cs[j]
  {
    var front, middle, back := cs[..i], cs[i + 1..j], cs[j + 1..];
    assert cs == front + ([cs[i]] + (middle + ([cs[j]] + back)));
    KeepOpenConcat(front, [cs[i]] + (middle + ([cs[j]] + back)));
    KeepOpenConcat([cs[i]], middle + ([cs[j]] + back));
    KeepOpenConcat(middle, [cs[j]] + back);
    KeepOpenConcat([cs[j]], back);
    assert [cs[i]][1..] == [] && [cs[j]][1..] == [];
    var m := |KeepOpen(front)|;
    var n := m + 1 + |KeepOpen(middle)|;
    assert KeepOpen(cs)[m] == cs[i] && KeepOpen(cs)[n] == cs[j];
  }

  /** A reaction never shortens what waits to be sent, except by sending; so POLLOUT, reported before the data arrives,
      still finds something to send. */
  lemma {:induction false} ApplyCallsGrow(s: Conn, calls: seq<AppCall>, k: Limits)
    ensures |ApplyCalls(s, calls, k).queue.pending| >= |s.queue.pending|
    ensures s.closed ==> ApplyCalls(s, calls, k).closed
    decreases |calls|
  {
    if calls != [] {
      ApplyCallsGrow(s, calls[..|calls| - 1], k);
    }
  }

  // ---- Capacities ----

  /** What is still to come fits the receive buffer, and so does a whole head. */
  predicate Fits(s: Conn, k: Limits) {
    (s.toRecv > 0 ==> s.recvIdx + s.toRecv <= s.capacity) && k.recvBufLen <= s.capacity
  }

  ghost predicate AllFit(cs: seq<Conn>, k: Limits) {
    forall j :: 0 <= j < |cs| ==> Fits(cs[j], k)
  }

  /** The application asks for no more than the receive buffer holds, and installs none that is too small. */
  predicate ModestCall(s: Conn, call: AppCall, k: Limits) {
    match call
    case Setup(totalToRecv, _) => totalToRecv <= s.capacity
    case Switch(_, capacity) => k.recvBufLen <= capacity && (s.toRecv > 0 ==> s.recvIdx + s.toRecv <= capacity)
    case _ => true
  }

  predicate Modest(s: Conn, calls: seq<AppCall>, k: Limits) {
    calls != [] ==>
      && Modest(s, calls[..|calls| - 1], k)
      && ModestCall(ApplyCalls(s, calls[..|calls| - 1], k), calls[|calls| - 1], k)
  }

  /** The application's reaction to what arrives is modest, if anything arrives. */
  predicate ModestInput(s: Conn, input: ConnInput, k: Limits) {
    Reported(s, input.raw).in_ && input.recv.Data? && Got(s, input.recv.bytes) != [] ==>
      Modest(Received(s, |Got(s, input.recv.bytes)|), input.calls, k)
  }

  ghost predicate ModestRound(before: seq<Conn>, round: Round, k: Limits) {
    round.Events? ==> forall j :: 0 <= j < |before| ==> ModestInput(before[j], round.inputs(j), k)
  }

  lemma {:induction false} ApplyCallsFit(s: Conn, calls: seq<AppCall>, k: Limits)
    requires Fits(s, k) && Modest(s, calls, k)
    ensures Fits(ApplyCalls(s, calls, k), k)
    decreases |calls|
  {
    if calls != [] {
      ApplyCallsFit(s, calls[..|calls| - 1], k);
    }
  }

  /** Neither the calls nor their modesty depends on whether the connection has been closed. */
  lemma {:induction false} ClosedOrNot(s: Conn, calls: seq<AppCall>, k: Limits)
    ensures Modest(s.(closed := true), calls, k) <==> Modest(s, calls, k)
    ensures var t, u := ApplyCalls(s.(closed := true), calls, k), ApplyCalls(s, calls, k);
            t == u.(closed := true)
    decreases |calls|
  {
    if calls != [] {
      ClosedOrNot(s, calls[..|calls| - 1], k);
    }
  }

  lemma ReactFits(s: Conn, input: ConnInput, k: Limits)
    requires Fits(s, k) && ModestInput(s, input, k)
    ensures !Faulty(s, input) && Fits(React(s, input, k), k)
  {
    hide ApplyCalls, Modest;
    if Reported(s, input.raw).in_ && input.recv.Data? && Got(s, input.recv.bytes) != [] {
      var n := |Got(s, input.recv.bytes)|;
      ApplyCallsFit(Received(s, n), input.calls, k);
      ClosedOrNot(Received(s, n), input.calls, k);
    }
  }

  lemma RoundFits(before: seq<Conn>, round: Round, after: seq<Conn>, k: Limits)
    requires AllFit(before, k) && ModestRound(before, round, k) && RoundStep(before, round, after, k)
    ensures AllFit(after, k)
  {
    hide React, Ticked, KeepOpen;
    var reacted := Reacted(before, round, k);
    forall j | 0 <= j < |before| ensures Fits(reacted[j], k) {
      ReactedFits(before, round, k, j);
    }
    var kept := KeepOpen(reacted);
    forall i | 0 <= i < |kept| ensures Fits(kept[i], k) {
      var j := KeptFrom(reacted, i);
    }
  }

  lemma ReactedFits(before: seq<Conn>, round: Round, k: Limits, j: nat)
    requires AllFit(before, k) && ModestRound(before, round, k) && j < |before| && !RoundFaults(before, round)
    ensures Fits(Reacted(before, round, k)[j], k)
  {
    match round
    case PollFailed =>
    case PollTimeout(ticks) => assert Reacted(before, round, k)[j] == Ticked(before[j], ticks(j), k);
    case Events(_, _, inputs) =>
      ReactFits(before[j], inputs(j), k);
      assert Reacted(before, round, k)[j] == React(before[j], inputs(j), k);
  }

  /** As long as every reaction of the application is modest, every listed connection of the run keeps within its
      buffer, and DoRecv's assertion never fails. */
  lemma {:induction false} ModestRunNeverFaults(history: seq<seq<Conn>>, rounds: seq<Round>, k: Limits, r: nat)
    requires IsRun(history, rounds, k) && r < |history|
    requires forall i :: 0 <= i <= r && i < |rounds| ==> ModestRound(history[i], rounds[i], k)
    ensures AllFit(history[r], k) && (r < |rounds| ==> !RoundFaults(history[r], rounds[r]))
  {
    hide RoundStep, AllFit, RoundFaults, ModestRound;
    if r == 0 {
      assert AllFit(history[0], k) by { NoneFit(k); }
    } else {
      ModestRunNeverFaults(history, rounds, k, r - 1);
      RoundFits(history[r - 1], rounds[r - 1], history[r], k);
    }
    if r < |rounds| {
      FitWithoutFault(history[r], rounds[r], k);
    }
  }

  lemma NoneFit(k: Limits)
    ensures AllFit([], k)
  {
  }

  lemma FitWithoutFault(cs: seq<Conn>, round: Round, k: Limits)
    requires AllFit(cs, k)
    ensures !RoundFaults(cs, round)
  {
  }

  /** A single immodest call suffices: if the last thing the application does is to ask for `total` bytes, the next
      incoming data makes the assertion fail if and only if `total` exceeds what is installed. */
  lemma OvercommitFaultsNext(s: Conn, bytes: seq<byte>, calls: seq<AppCall>, next: ConnInput, k: Limits)
    requires Fits(s, k) && s.toRecv > 0 && bytes != [] && calls != [] && calls[|calls| - 1].Setup?
    ensures var input := ConnInput(Revents(false, true, false, false), Data(bytes), calls, WouldBlock);
            var front := ApplyCalls(Received(s, |Got(s, bytes)|), calls[..|calls| - 1], k);
            && !Faulty(s, input)
            && (Faulty(React(s, input, k), next) <==>
                  next.raw.in_ && calls[|calls| - 1].totalToRecv > front.capacity)
  {
  }

  /** At every loop head there is room for all listed connections in the poll array, and none of them is closed. */
  lemma {:induction false} RunWithinLimits(history: seq<seq<Conn>>, rounds: seq<Round>, k: Limits, r: nat)
    requires IsRun(history, rounds, k) && r < |history|
    ensures |history[r]| <= k.maxClients && forall j :: 0 <= j < |history[r]| ==> !history[r][j].closed
  {
    hide RoundStep;
    if r > 0 {
      RunWithinLimits(history, rounds, k, r - 1);
      RoundWithinLimits(history[r - 1], rounds[r - 1], history[r], k);
    }
  }

  lemma RoundWithinLimits(before: seq<Conn>, round: Round, after: seq<Conn>, k: Limits)
    requires RoundStep(before, round, after, k) && |before| <= k.maxClients
    ensures |after| <= k.maxClients && forall j :: 0 <= j < |after| ==> !after[j].closed
  {
    hide RoundFaults, Reacted, KeepOpen;
    var reacted := Reacted(before, round, k);
    var kept := KeepOpen(reacted);
    KeepOpenShorter(reacted);
    forall j | 0 <= j < |after| ensures !after[j].closed {
      if j < |kept| {
        assert after[j] == kept[j];
        var i := KeptFrom(reacted, j);
      }
    }
  }

  // ---- The life of one connection ----

  datatype Turn = Reaction(input: ConnInput) | Timer(tick: Tick)

  function TakeTurn(s: Conn, turn: Turn, k: Limits): Conn {
    match turn
    case Reaction(input) => if Faulty(s, input) then s else React(s, input, k)
    case Timer(tick) => Ticked(s, tick, k)
  }

  function Live(s: Conn, turns: seq<Turn>, k: Limits): Conn {
    if turns == [] then s else TakeTurn(Live(s, turns[..|turns| - 1], k), turns[|turns| - 1], k)
  }

  lemma LiveOn(s: Conn, turns: seq<Turn>, turn: Turn, k: Limits)
    ensures Live(s, turns + [turn], k) == TakeTurn(Live(s, turns, k), turn, k)
  {
    assert (turns + [turn])[..|turns|] == turns;
  }

  /** The turn of the `i`-th connection in a round. */
  function TurnIn(round: Round, i: nat): Turn {
    match round
    case Events(_, _, inputs) => Reaction(inputs(i))
    case PollTimeout(ticks) => Timer(ticks(i))
    case PollFailed => Timer([0, 0, 0, 0])
  }

  /** Where the `i`-th connection stands after a round, if it has stayed open. */
  function PlaceAfter(before: seq<Conn>, round: Round, k: Limits, i: nat): nat
    requires !RoundFaults(before, round) && i <= |before|
  {
    NewPlace(Reacted(before, round, k), i)
  }

  /** The life of a connection up to the `j`-th place of the `r`-th loop head: it was accepted in the round before the
      `born`-th loop head, as `start`, at the end of the list; since then it has stood at `places`, and has taken at
      each of them the turn that the round had for that place. At every loop head it was what these turns had made of
      it. */
  ghost predicate IsLife(history: seq<seq<Conn>>, rounds: seq<Round>, k: Limits, r: nat, j: nat, start: Conn, born: nat,
                         places: seq<nat>, turns: seq<Turn>)
    requires r < |history| <= |rounds| + 1
  {
    && 0 < born <= r && |turns| == r - born && |places| == |turns| + 1 && places[|turns|] == j
    && JustAccepted(start, start.fd, k) && Accepted(rounds[born - 1]) == Some(start.fd)
    && places[0] + 1 == |history[born]|
    && (forall m :: 0 <= m < |places| ==>
          places[m] < |history[born + m]| && history[born + m][places[m]] == Live(start, turns[..m], k))
    && forall m :: 0 <= m < |turns| ==>
         IsStepOfLife(history[born + m], rounds[born + m], k, places[m], turns[m], places[m + 1])
  }

  /** In this round the connection at place `i` has its turn, and then stands at place `j`. */
  ghost predicate IsStepOfLife(before: seq<Conn>, round: Round, k: Limits, i: nat, turn: Turn, j: nat) {
    && !RoundFaults(before, round) && i < |before|
    && turn == TurnIn(round, i) && j == PlaceAfter(before, round, k, i)
  }

  /** Whatever connection is listed at whatever loop head of whatever run has such a life: it is what its own turns,
      one in every round since it was accepted, have made of it; no other connection has had an influence. */
  lemma {:induction false} ConnectionLife(history: seq<seq<Conn>>, rounds: seq<Round>, k: Limits, r: nat, j: nat)
    returns (start: Conn, born: nat, places: seq<nat>, turns: seq<Turn>)
    requires IsRun(history, rounds, k) && r < |history| && j < |history[r]|
    ensures IsLife(history, rounds, k, r, j, start, born, places, turns)
    decreases r
  {
    hide RoundStep, IsLife;
    var before, round := history[r - 1], rounds[r - 1];
    assert RoundStep(before, round, history[r], k);
    var i := Origin(before, round, history[r], k, j);
    if i < |before| {
      start, born, places, turns := ConnectionLife(history, rounds, k, r - 1, i);
      LifeGoesOn(history, rounds, k, r - 1, i, j, start, born, places, turns);
      places, turns := places + [j], turns + [TurnIn(round, i)];
    } else {
      start, born, places, turns := history[r][j], r, [j], [];
      LifeBegins(history, rounds, k, r, j);
    }
  }

  lemma LifeBegins(history: seq<seq<Conn>>, rounds: seq<Round>, k: Limits, r: nat, j: nat)
    requires 0 < r < |history| <= |rounds| + 1 && j + 1 == |history[r]|
    requires Accepted(rounds[r - 1]).Some? && JustAccepted(history[r][j], Accepted(rounds[r - 1]).value, k)
    ensures IsLife(history, rounds, k, r, j, history[r][j], r, [j], [])
  {
    LiveNot(history[r][j], k);
  }

  lemma LifeGoesOn(history: seq<seq<Conn>>, rounds: seq<Round>, k: Limits, r: nat, i: nat, j: nat, start: Conn,
                   born: nat, places: seq<nat>, turns: seq<Turn>)
    requires r + 1 < |history| <= |rounds| + 1 && IsLife(history, rounds, k, r, i, start, born, places, turns)
    requires i < |history[r]| && j < |history[r + 1]| && !RoundFaults(history[r], rounds[r])
    requires history[r + 1][j] == TakeTurn(history[r][i], TurnIn(rounds[r], i), k)
    requires j == PlaceAfter(history[r], rounds[r], k, i)
    ensures IsLife(history, rounds, k, r + 1, j, start, born, places + [j], turns + [TurnIn(rounds[r], i)])
  {
    hide TakeTurn, RoundFaults, PlaceAfter, TurnIn, Live, JustAccepted;
    var n, turn := |turns|, TurnIn(rounds[r], i);
    var all, at := turns + [turn], places + [j];
    assert turns[..n] == turns && all[..n + 1] == all;
    LiveOn(start, turns, turn, k);
    forall m | 0 <= m < |at|
      ensures at[m] < |history[born + m]| && history[born + m][at[m]] == Live(start, all[..m], k)
    {
      if m <= n {
        assert all[..m] == turns[..m] && at[m] == places[m];
      }
    }
  }

  /** Where a connection comes from: it was the `i`-th one and has had its turn, or has just been accepted. */
  lemma Origin(before: seq<Conn>, round: Round, after: seq<Conn>, k: Limits, j: nat) returns (i: nat)
    requires RoundStep(before, round, after, k) && j < |after|
    ensures !RoundFaults(before, round)
    ensures i < |before| ==>
              after[j] == TakeTurn(before[i], TurnIn(round, i), k) && j == PlaceAfter(before, round, k, i)
    ensures i >= |before| ==>
              j + 1 == |after| && Accepted(round).Some? && JustAccepted(after[j], Accepted(round).value, k)
  {
    hide TakeTurn, JustAccepted, RoundFaults, Reacted, KeepOpen;
    var reacted := Reacted(before, round, k);
    var kept := KeepOpen(reacted);
    if j < |kept| {
      assert after[j] == kept[j];
      i := KeptFrom(reacted, j);
      TurnOf(before, round, k, i);
    } else {
      i := |before|;
    }
  }

  lemma LiveNot(s: Conn, k: Limits)
    ensures Live(s, [], k) == s
  {
  }

  lemma TurnOf(before: seq<Conn>, round: Round, k: Limits, i: nat)
    requires !round.PollFailed? && !RoundFaults(before, round) && i < |before|
    ensures Reacted(before, round, k)[i] == TakeTurn(before[i], TurnIn(round, i), k)
  {
    hide React, Ticked;
  }

  // ---- Its send buffer ----

  function Writes(calls: seq<AppCall>): seq<SendQueue.Op> {
    if calls == [] then []
    else Writes(calls[..|calls| - 1]) +
         match calls[|calls| - 1]
         case Add(data) => [SendQueue.Write(data)]
         case _ => []
  }

  /** What a turn does to the send buffer: the application's writes, then what send() takes. */
  function QueueOps(s: Conn, turn: Turn): seq<SendQueue.Op> {
    match turn
    case Timer(tick) =>
      if s.http.state == WaitSending then
        [SendQueue.Write(E.SizeLine(|tick|)), SendQueue.Write(tick), SendQueue.Write([CR, LF])]
      else []
    case Reaction(input) =>
      var r := Reported(s, input.raw);
      if Faulty(s, input) then []
      else
        (if r.in_ && input.recv.Data? && Got(s, input.recv.bytes) != [] then Writes(input.calls) else []) +
        (if r.out && input.send.Count? then [SendQueue.Send(input.send.n)] else [])
  }

  lemma {:induction false} WritesRun(s: Conn, calls: seq<AppCall>, k: Limits, h: SendQueue.History)
    requires h.queue == s.queue
    ensures SendQueue.Run(h, Writes(calls), k.sendBufLen).queue == ApplyCalls(s, calls, k).queue
    decreases |calls|
  {
    if calls != [] {
      var front, last := calls[..|calls| - 1], calls[|calls| - 1];
      WritesRun(s, front, k, h);
      match last {
        case Add(data) =>
          SendQueue.RunConcat(h, Writes(front), [SendQueue.Write(data)], k.sendBufLen);
          RunOne(SendQueue.Run(h, Writes(front), k.sendBufLen), SendQueue.Write(data), k);
        case _ =>
          assert Writes(front) + [] == Writes(front);
      }
    }
  }

  lemma RunOne(h: SendQueue.History, op: SendQueue.Op, k: Limits)
    ensures SendQueue.Run(h, [op], k.sendBufLen) == SendQueue.Step(h, op, k.sendBufLen)
  {
    assert [op][1..] == [];
  }

  /** A turn changes the send buffer as its writes and its send do. */
  lemma TurnRun(s: Conn, turn: Turn, k: Limits, h: SendQueue.History)
    requires h.queue == s.queue
    ensures SendQueue.Run(h, QueueOps(s, turn), k.sendBufLen).queue == TakeTurn(s, turn, k).queue
  {
    hide SendQueue.Run, SendQueue.Put, E.SizeLine, SendQueue.Take;
    match turn {
      case Timer(tick) =>
        RunNone(h, k);
        RunThree(h, E.SizeLine(4), tick, [CR, LF], k);
      case Reaction(input) =>
        if !Faulty(s, input) {
          ReactionRun(s, input, k, h);
        } else {
          RunNone(h, k);
        }
    }
  }

  lemma RunNone(h: SendQueue.History, k: Limits)
    ensures SendQueue.Run(h, [], k.sendBufLen) == h
  {
  }

  lemma RunThree(h: SendQueue.History, a: seq<byte>, b: seq<byte>, c: seq<byte>, k: Limits)
    ensures SendQueue.Run(h, [SendQueue.Write(a), SendQueue.Write(b), SendQueue.Write(c)], k.sendBufLen).queue ==
            SendQueue.Put(SendQueue.Put(SendQueue.Put(h.queue, a, k.sendBufLen), b, k.sendBufLen), c, k.sendBufLen)
  {
    hide SendQueue.Put, SendQueue.Fits;
    var ops := [SendQueue.Write(a), SendQueue.Write(b), SendQueue.Write(c)];
    assert ops[1..] == [ops[1], ops[2]] && ops[1..][1..] == [ops[2]] && ops[1..][1..][1..] == [];
    var h1 := SendQueue.Step(h, ops[0], k.sendBufLen);
    var h2 := SendQueue.Step(h1, ops[1], k.sendBufLen);
    assert SendQueue.Run(h2, [ops[2]], k.sendBufLen) == SendQueue.Step(h2, ops[2], k.sendBufLen);
    assert SendQueue.Run(h1, [ops[1], ops[2]], k.sendBufLen) == SendQueue.Run(h2, [ops[2]], k.sendBufLen);
  }

  lemma InputRun(s: Conn, recv: RecvResult, calls: seq<AppCall>, k: Limits, h: SendQueue.History)
    requires h.queue == s.queue && !Overcommitted(s)
    ensures var writes := if recv.Data? && Got(s, recv.bytes) != [] then Writes(calls) else [];
            SendQueue.Run(h, writes, k.sendBufLen).queue == OnReadable(s, recv, calls, k).queue
  {
    hide SendQueue.Run, ApplyCalls, Writes;
    RunNone(h, k);
    if recv.Data? && Got(s, recv.bytes) != [] {
      WritesRun(Received(s, |Got(s, recv.bytes)|), calls, k, h);
    }
  }

  lemma OutputRun(s: Conn, send: IoResult, k: Limits, h: SendQueue.History)
    requires h.queue == s.queue
    ensures SendQueue.Run(h, if send.Count? then [SendQueue.Send(send.n)] else [], k.sendBufLen).queue ==
            Sent(s, Capped(send, |s.queue.pending|), k.recvBufLen).queue
  {
    hide SendQueue.Run, SendQueue.Take;
    RunNone(h, k);
    RunOne(h, SendQueue.Send(if send.Count? then send.n else 0), k);
  }

  lemma ReactionRun(s: Conn, input: ConnInput, k: Limits, h: SendQueue.History)
    requires h.queue == s.queue && !Faulty(s, input)
    ensures SendQueue.Run(h, QueueOps(s, Reaction(input)), k.sendBufLen).queue == React(s, input, k).queue
  {
    var r := Reported(s, input.raw);
    var t := if r.err then s.(closed := true) else s;
    var arrives := r.in_ && input.recv.Data? && Got(s, input.recv.bytes) != [];
    var writes := if arrives then Writes(input.calls) else [];
    var sends := if r.out && input.send.Count? then [SendQueue.Send(input.send.n)] else [];
    hide SendQueue.Run, Writes, OnReadable, Sent, Capped, Reported;
    RunNone(h, k);
    if r.in_ {
      InputRun(t, input.recv, input.calls, k, h);
    }
    var h1 := SendQueue.Run(h, writes, k.sendBufLen);
    SendQueue.RunConcat(h, writes, sends, k.sendBufLen);
    RunNone(h1, k);
    var afterIn := if r.in_ then OnReadable(t, input.recv, input.calls, k) else t;
    assert h1.queue == afterIn.queue;
    OutputRun(afterIn, input.send, k, h1);
  }

  /** Everything a life has done to the send buffer. */
  function LifeOps(s: Conn, turns: seq<Turn>, k: Limits): seq<SendQueue.Op> {
    if turns == [] then []
    else
      var front := turns[..|turns| - 1];
      LifeOps(s, front, k) + QueueOps(Live(s, front, k), turns[|turns| - 1])
  }

  lemma {:induction false} LifeRun(s: Conn, turns: seq<Turn>, k: Limits, h: SendQueue.History)
    requires h.queue == s.queue
    ensures SendQueue.Run(h, LifeOps(s, turns, k), k.sendBufLen).queue == Live(s, turns, k).queue
    decreases |turns|
  {
    hide QueueOps, TakeTurn;
    if turns != [] {
      var front, last := turns[..|turns| - 1], turns[|turns| - 1];
      LifeRun(s, front, k, h);
      var h1 := SendQueue.Run(h, LifeOps(s, front, k), k.sendBufLen);
      TurnRun(Live(s, front, k), last, k, h1);
      SendQueue.RunConcat(h, LifeOps(s, front, k), QueueOps(Live(s, front, k), last), k.sendBufLen);
    }
  }

  const START: SendQueue.History := SendQueue.History(SendQueue.EMPTY, [], [])

  /** Over every run of the loop, for every connection at every loop head: what went out in the turns it has taken
      since it was accepted, followed by what waits in its send buffer, is the concatenation of the writes that were
      accepted in these turns. */
  lemma EveryConnectionIsFaithful(history: seq<seq<Conn>>, rounds: seq<Round>, k: Limits, r: nat, j: nat)
    returns (start: Conn, born: nat, places: seq<nat>, turns: seq<Turn>)
    requires IsRun(history, rounds, k) && r < |history| && j < |history[r]| && k.sendBufLen > 0
    ensures IsLife(history, rounds, k, r, j, start, born, places, turns)
    ensures var h := SendQueue.Run(START, LifeOps(start, turns, k), k.sendBufLen);
            h.queue == history[r][j].queue && SendQueue.Faithful(h, k.sendBufLen)
  {
    hide Live, RoundStep, LifeOps, SendQueue.Run, IsLife;
    start, born, places, turns := ConnectionLife(history, rounds, k, r, j);
    LifeIsNow(history, rounds, k, r, j, start, born, places, turns);
    LifeRun(start, turns, k, START);
    assert SendQueue.Faithful(START, k.sendBufLen);
    SendQueue.RunIsFaithful(START, LifeOps(start, turns, k), k.sendBufLen);
  }

  lemma LifeIsNow(history: seq<seq<Conn>>, rounds: seq<Round>, k: Limits, r: nat, j: nat, start: Conn, born: nat,
                  places: seq<nat>, turns: seq<Turn>)
    requires r < |history| <= |rounds| + 1 && j < |history[r]|
    requires IsLife(history, rounds, k, r, j, start, born, places, turns)
    ensures JustAccepted(start, start.fd, k) && history[r][j] == Live(start, turns, k)
  {
    hide Live, JustAccepted, PlaceAfter;
    assert turns[..|turns|] == turns && places[|turns|] == j;
  }
}
