/** A client that listens for periodic data, in every run of the event loop: what it is sent after the head of its
    response decodes to the ticks. */
module Periodic {
  import opened Bytes
  import opened Connection
  import opened EventLoop
  import opened AppSpec
  import W = World
  import OwnRun
  import SendQueue
  import E = ChunkEncoder
  import A = ChunkedAutomaton
  import D = ChunkedDecoder
  import S = ChunkedSession

  /** Data that arrives does no more than close the connection. */
  predicate IsQuiet(s: Conn, turn: Turn) {
    turn.Reaction? && !Faulty(s, turn.input) && Reported(s, turn.input.raw).in_ && turn.input.recv.Data? &&
    Got(s, turn.input.recv.bytes) != [] ==>
      turn.input.calls == [CloseConnection]
  }

  /** So it is in all of these turns, one after the other. */
  ghost predicate AllQuiet(s: Conn, turns: seq<Turn>, k: Limits) {
    forall m :: 0 <= m < |turns| ==> IsQuiet(Live(s, turns[..m], k), turns[m])
  }

  /** The stream of a connection that had `s` when it began to listen. */
  function Streamed(s: Conn, turns: seq<Turn>, k: Limits): SendQueue.Stream {
    if turns == [] then SendQueue.Stream(s.queue, [], [])
    else
      var front, last := turns[..|turns| - 1], turns[|turns| - 1];
      var before := Streamed(s, front, k);
      match last
      case Timer(tick) => SendQueue.StreamStep(before, SendQueue.Chunk(tick), k.sendBufLen)
      case Reaction(input) =>
        SendQueue.StreamStep(before, SendQueue.Flush(Sends(Live(s, front, k), input)), k.sendBufLen)
  }

  /** How many bytes send() has taken in this turn. */
  function Sends(s: Conn, input: ConnInput): nat {
    if !Faulty(s, input) && Reported(s, input.raw).out && input.send.Count? then input.send.n else 0
  }

  /** Every tick fits the send buffer when it is written. */
  ghost predicate TicksFit(s: Conn, turns: seq<Turn>, k: Limits) {
    turns != [] ==>
      var front, last := turns[..|turns| - 1], turns[|turns| - 1];
      && TicksFit(s, front, k)
      && (last.Timer? ==> SendQueue.Fits(Live(s, front, k).queue, |E.EncodeChunk(last.tick)|, k.sendBufLen))
  }

  function Ticks(turns: seq<Turn>): seq<seq<byte>> {
    if turns == [] then []
    else
      var front, last := turns[..|turns| - 1], turns[|turns| - 1];
      Ticks(front) + if last.Timer? then [last.tick] else []
  }

  /** A quiet turn keeps a listening client listening. */
  lemma QuietTurn(s: Conn, turn: Turn, k: Limits)
    requires s.http.state == WaitSending && IsQuiet(s, turn) && SendQueue.Sound(s.queue, k.sendBufLen)
    ensures var t := TakeTurn(s, turn, k);
            && t.http.state == WaitSending
            && t.queue == match turn
                          case Timer(tick) => SendQueue.PutChunk(s.queue, tick, k.sendBufLen)
                          case Reaction(input) => SendQueue.Take(s.queue, SendQueue.Taken(s.queue, Sends(s, input)))
  {
    hide SendQueue.PutChunk;
    if turn.Reaction? && turn.input.recv.Data? {
      var t := if Reported(s, turn.input.raw).err then s.(closed := true) else s;
      OneClose(Received(t, |Got(t, turn.input.recv.bytes)|), k);
    }
    assert s.queue.pending[0..] == s.queue.pending;
    hide ApplyCalls;
  }

  lemma OneClose(s: Conn, k: Limits)
    ensures ApplyCalls(s, [CloseConnection], k) == s.(closed := true)
  {
    OneCall(s, CloseConnection, k);
  }

  /** What went out and what waits is what waited when the client began to listen, then the chunks of all ticks. */
  lemma {:induction false} ListenerStreams(s: Conn, turns: seq<Turn>, k: Limits)
    requires s.http.state == WaitSending && SendQueue.Sound(s.queue, k.sendBufLen)
    requires AllQuiet(s, turns, k) && TicksFit(s, turns, k)
    ensures var t, m := Live(s, turns, k), Streamed(s, turns, k);
            && t.http.state == WaitSending && m.queue == t.queue && SendQueue.Sound(t.queue, k.sendBufLen)
            && m.payloads == Ticks(turns) && S.Substantial(m.payloads)
            && m.sent + m.queue.pending == s.queue.pending + E.EncodeAll(m.payloads)
    decreases |turns|
  {
    hide E.EncodeAll, E.EncodeChunk, SendQueue.PutChunk, TakeTurn;
    if turns == [] {
      NothingEncoded();
      assert s.queue.pending + [] == [] + s.queue.pending;
    } else {
      var front, last := turns[..|turns| - 1], turns[|turns| - 1];
      QuietBefore(s, turns, k);
      ListenerStreams(s, front, k);
      var before, t := Streamed(s, front, k), Live(s, front, k);
      QuietTurn(t, last, k);
      StepStreams(s.queue.pending, before, last, if last.Timer? then 0 else Sends(t, last.input), k);
    }
  }

  lemma QuietBefore(s: Conn, turns: seq<Turn>, k: Limits)
    requires AllQuiet(s, turns, k) && turns != []
    ensures AllQuiet(s, turns[..|turns| - 1], k)
    ensures IsQuiet(Live(s, turns[..|turns| - 1], k), turns[|turns| - 1])
  {
    hide IsQuiet, Live;
    var front := turns[..|turns| - 1];
    assert forall m :: 0 <= m < |front| ==> front[..m] == turns[..m] && front[m] == turns[m];
  }

  lemma NothingEncoded()
    ensures E.EncodeAll([]) == []
  {
  }

  lemma StepStreams(head: seq<byte>, m: SendQueue.Stream, turn: Turn, n: nat, k: Limits)
    requires SendQueue.Sound(m.queue, k.sendBufLen) && S.Substantial(m.payloads)
    requires m.sent + m.queue.pending == head + E.EncodeAll(m.payloads)
    requires turn.Timer? ==> SendQueue.Fits(m.queue, |E.EncodeChunk(turn.tick)|, k.sendBufLen)
    ensures var m' := SendQueue.StreamStep(m, if turn.Timer? then SendQueue.Chunk(turn.tick) else SendQueue.Flush(n),
                                           k.sendBufLen);
            && S.Substantial(m'.payloads) && m'.sent + m'.queue.pending == head + E.EncodeAll(m'.payloads)
            && SendQueue.Sound(m'.queue, k.sendBufLen)
  {
    hide E.EncodeAll, E.EncodeChunk, SendQueue.PutChunk, SendQueue.Sound, E.SizeLine;
    match turn {
      case Timer(tick) =>
        SendQueue.ChunkIsWholeOnlyIfItFits(m.queue, tick, k.sendBufLen);
        ChunkIsSound(m.queue, tick, k);
        E.EncodeAllSnoc(m.payloads, tick);
        assert m.sent + (m.queue.pending + E.EncodeChunk(tick)) == m.sent + m.queue.pending + E.EncodeChunk(tick);
        var all := E.EncodeAll(m.payloads);
        assert head + (all + E.EncodeChunk(tick)) == head + all + E.EncodeChunk(tick);
      case Reaction(_) =>
        RestIsSound(m.queue, n, k);
        var taken := SendQueue.Taken(m.queue, n);
        assert m.sent + m.queue.pending[..taken] + m.queue.pending[taken..] == m.sent + m.queue.pending;
    }
  }

  lemma ChunkIsSound(q: SendQueue.Queue, tick: Tick, k: Limits)
    requires SendQueue.Sound(q, k.sendBufLen)
    ensures SendQueue.Sound(SendQueue.PutChunk(q, tick, k.sendBufLen), k.sendBufLen)
  {
    hide E.SizeLine;
  }

  lemma RestIsSound(q: SendQueue.Queue, n: nat, k: Limits)
    requires SendQueue.Sound(q, k.sendBufLen)
    ensures SendQueue.Sound(SendQueue.Take(q, SendQueue.Taken(q, n)), k.sendBufLen)
  {
  }

  /** Once the head of the response is out, whatever the client has received after it, cut in any way, decodes to a
      prefix of the ticks, every call answering -2; and to all of them once the send buffer is empty. */
  lemma ListenerDecodes(s: Conn, turns: seq<Turn>, fragments: seq<seq<byte>>, consumeTrailer: bool, k: Limits)
    requires s.http.state == WaitSending && SendQueue.Sound(s.queue, k.sendBufLen)
    requires AllQuiet(s, turns, k) && TicksFit(s, turns, k)
    requires |s.queue.pending| <= |Streamed(s, turns, k).sent|
    requires Flatten(fragments) == Streamed(s, turns, k).sent[|s.queue.pending|..] && |Flatten(fragments)| < TWO_64
    ensures var c := S.Feed(D.Zeroed(consumeTrailer), fragments);
            && c.ret == D.RET_INCOMPLETE && c.out <= Flatten(Ticks(turns))
            && (Live(s, turns, k).queue.pending == [] ==>
                  c.out == Flatten(Ticks(turns)) && c.decoder.state == A.Initial(consumeTrailer))
  {
    hide Streamed, Live, E.EncodeAll, S.Feed, TicksFit, AllQuiet, Flatten;
    ListenerStreams(s, turns, k);
    var m, head := Streamed(s, turns, k), s.queue.pending;
    AfterHead(head, m.sent, m.queue.pending, E.EncodeAll(m.payloads));
    S.PartialStream(consumeTrailer, m.payloads, fragments);
    if m.queue.pending == [] {
      S.StreamRoundTrip(consumeTrailer, m.payloads, fragments);
    }
  }

  lemma AfterHead(head: seq<byte>, sent: seq<byte>, waiting: seq<byte>, encoded: seq<byte>)
    requires sent + waiting == head + encoded && |head| <= |sent|
    ensures sent[|head|..] <= encoded && (waiting == [] ==> sent[|head|..] == encoded)
  {
    assert sent + waiting == sent[..|head|] + (sent[|head|..] + waiting);
    assert (sent + waiting)[|head|..] == sent[|head|..] + waiting;
    assert (head + encoded)[|head|..] == encoded;
  }

  // ---- Runs ----

  lemma {:induction false} LiveConcat(s: Conn, a: seq<Turn>, b: seq<Turn>, k: Limits)
    ensures Live(s, a + b, k) == Live(Live(s, a, k), b, k)
    decreases |b|
  {
    hide TakeTurn;
    if b == [] {
      assert a + b == a;
    } else {
      var front, last := b[..|b| - 1], b[|b| - 1];
      assert a + b == a + front + [last] && b == front + [last];
      LiveConcat(s, a, front, k);
      LiveOn(s, a + front, last, k);
    }
  }

  /** After its first `i` turns the connection listens, and `fragments` are what its later turns have sent after the
      head of the response. Every tick has fitted. */
  ghost predicate Listens(start: Conn, turns: seq<Turn>, i: nat, fragments: seq<seq<byte>>, k: Limits)
    requires i <= |turns|
  {
    var s, later := Live(start, turns[..i], k), turns[i..];
    && s.http.state == WaitSending && TicksFit(s, later, k)
    && |s.queue.pending| <= |Streamed(s, later, k).sent|
    && Flatten(fragments) == Streamed(s, later, k).sent[|s.queue.pending|..] && |Flatten(fragments)| < TWO_64
  }

  /** What the client makes of it, when `s` is the connection now. */
  ghost predicate Decodes(ticks: seq<seq<byte>>, s: Conn, fragments: seq<seq<byte>>, consumeTrailer: bool) {
    var c := S.Feed(D.Zeroed(consumeTrailer), fragments);
    && c.ret == D.RET_INCOMPLETE && c.out <= Flatten(ticks)
    && (s.queue.pending == [] ==> c.out == Flatten(ticks) && c.decoder.state == A.Initial(consumeTrailer))
  }

  lemma OneListener(start: Conn, turns: seq<Turn>, i: nat, fragments: seq<seq<byte>>, consumeTrailer: bool, k: Limits)
    requires JustAccepted(start, start.fd, k) && k.sendBufLen > 0
    requires i <= |turns| && Listens(start, turns, i, fragments, k)
    requires AllQuiet(Live(start, turns[..i], k), turns[i..], k)
    ensures Decodes(Ticks(turns[i..]), Live(start, turns, k), fragments, consumeTrailer)
  {
    hide Live, S.Feed, Flatten, Streamed, TicksFit, AllQuiet, Ticks;
    assert turns == turns[..i] + turns[i..];
    LiveConcat(start, turns[..i], turns[i..], k);
    LifeIsSound(start, turns[..i], k);
    ListenerDecodes(Live(start, turns[..i], k), turns[i..], fragments, consumeTrailer, k);
  }

  lemma LifeIsSound(start: Conn, turns: seq<Turn>, k: Limits)
    requires JustAccepted(start, start.fd, k) && k.sendBufLen > 0
    ensures SendQueue.Sound(Live(start, turns, k).queue, k.sendBufLen)
  {
    hide Live, LifeOps, SendQueue.Run;
    LifeRun(start, turns, k, START);
    assert SendQueue.Faithful(START, k.sendBufLen);
    SendQueue.RunIsFaithful(START, LifeOps(start, turns, k), k.sendBufLen);
  }

  /** Over every run of the loop, with any application, for every connection at every loop head: if it has been
      listening since after the first `i` of the turns it has taken, was quiet in the others, and every tick has
      fitted, then what these have sent after the head of the response decodes to their ticks. */
  lemma EveryListenerDecodes(history: seq<seq<Conn>>, rounds: seq<Round>, k: Limits, r: nat, j: nat)
    returns (start: Conn, born: nat, places: seq<nat>, turns: seq<Turn>)
    requires IsRun(history, rounds, k) && r < |history| && j < |history[r]| && k.sendBufLen > 0
    ensures IsLife(history, rounds, k, r, j, start, born, places, turns)
    ensures forall i, fragments, consumeTrailer ::
              0 <= i <= |turns| && Listens(start, turns, i, fragments, k) &&
              AllQuiet(Live(start, turns[..i], k), turns[i..], k) ==>
                Decodes(Ticks(turns[i..]), history[r][j], fragments, consumeTrailer)
  {
    hide Live, RoundStep, IsLife, Listens, AllQuiet, Decodes, Ticks, JustAccepted;
    start, born, places, turns := ConnectionLife(history, rounds, k, r, j);
    LifeIsNow(history, rounds, k, r, j, start, born, places, turns);
    forall i, fragments, consumeTrailer |
      0 <= i <= |turns| && Listens(start, turns, i, fragments, k) && AllQuiet(Live(start, turns[..i], k), turns[i..], k)
      ensures Decodes(Ticks(turns[i..]), history[r][j], fragments, consumeTrailer)
    {
      OneListener(start, turns, i, fragments, consumeTrailer, k);
    }
  }

  // ---- With the server's own application ----

  /** The own application is quiet on such a connection: it closes it when data arrives. */
  lemma OwnIsQuiet(l: Local, e: W.Event, k: Limits)
    requires W.LocalBacked(l) && l.conn.http.state == WaitSending && e.app.Own?
    ensures IsQuiet(l.conn, Reaction(W.InputOf(l, e, k)))
  {
    hide Written;
  }

  /** The turn that a round has for a listening client is quiet. */
  lemma OwnTurnIsQuiet(w: W.World, round: W.LoopRound, i: nat, k: Limits)
    requires W.AllBacked(w) && OwnRun.OwnRound(round) && i < |w.conns| && w.conns[i].http.state == WaitSending
    ensures IsQuiet(w.conns[i], TurnIn(W.RoundOf(w, round, k), i))
  {
    hide W.InputOf, Faulty, Reported;
    if round.Ready? {
      var v := W.WorldAt(w, round.events, i, k);
      OwnIsQuiet(W.LocalAt(v, i), round.events(i), k);
    }
  }

  lemma OwnStepIsQuiet(history: seq<W.World>, rounds: seq<W.LoopRound>, own: seq<Round>, k: Limits, r: nat, j: nat,
                       start: Conn, born: nat, places: seq<nat>, turns: seq<Turn>, m: nat)
    requires IsOwnRun(history, rounds, own, k) && r < |history| && m < |turns|
    requires IsLife(W.ConnsOf(history), own, k, r, j, start, born, places, turns)
    requires Live(start, turns[..m], k).http.state == WaitSending
    ensures IsQuiet(Live(start, turns[..m], k), turns[m])
  {
    hide IsQuiet, Live, PlaceAfter, JustAccepted, OwnRun.OwnRound, W.RoundOf, TurnIn, RoundStep, W.WorldStep;
    hide RoundFaults;
    assert IsStepOfLife(W.ConnsOf(history)[born + m], own[born + m], k, places[m], turns[m], places[m + 1]);
    assert W.ConnsOf(history)[born + m][places[m]] == Live(start, turns[..m], k);
    OwnTurnIsQuiet(history[born + m], rounds[born + m], places[m], k);
  }

  /** A listening client goes on listening, and all its turns are quiet. */
  lemma {:induction false} OwnStaysQuiet(history: seq<W.World>, rounds: seq<W.LoopRound>, own: seq<Round>, k: Limits,
                                         r: nat, j: nat, start: Conn, born: nat, places: seq<nat>, turns: seq<Turn>,
                                         i: nat, m: nat)
    requires IsOwnRun(history, rounds, own, k) && r < |history| && k.sendBufLen > 0 && JustAccepted(start, start.fd, k)
    requires IsLife(W.ConnsOf(history), own, k, r, j, start, born, places, turns)
    requires i <= m <= |turns| && Live(start, turns[..i], k).http.state == WaitSending
    ensures Live(start, turns[..m], k).http.state == WaitSending
    ensures m < |turns| ==> IsQuiet(Live(start, turns[..m], k), turns[m])
    decreases m
  {
    hide IsQuiet, Live, TakeTurn, IsOwnRun, IsLife, JustAccepted;
    if m > i {
      OwnStaysQuiet(history, rounds, own, k, r, j, start, born, places, turns, i, m - 1);
      LifeIsSound(start, turns[..m - 1], k);
      QuietTurn(Live(start, turns[..m - 1], k), turns[m - 1], k);
      assert turns[..m] == turns[..m - 1] + [turns[m - 1]];
      LiveOn(start, turns[..m - 1], turns[m - 1], k);
    }
    if m < |turns| {
      OwnStepIsQuiet(history, rounds, own, k, r, j, start, born, places, turns, m);
    }
  }

  lemma AllOwnQuiet(history: seq<W.World>, rounds: seq<W.LoopRound>, own: seq<Round>, k: Limits, r: nat, j: nat,
                    start: Conn, born: nat, places: seq<nat>, turns: seq<Turn>, i: nat)
    requires IsOwnRun(history, rounds, own, k) && r < |history| && k.sendBufLen > 0 && JustAccepted(start, start.fd, k)
    requires IsLife(W.ConnsOf(history), own, k, r, j, start, born, places, turns)
    requires i <= |turns| && Live(start, turns[..i], k).http.state == WaitSending
    ensures AllQuiet(Live(start, turns[..i], k), turns[i..], k)
  {
    hide IsQuiet, Live, IsOwnRun, IsLife, JustAccepted;
    forall m | 0 <= m < |turns[i..]|
      ensures IsQuiet(Live(Live(start, turns[..i], k), turns[i..][..m], k), turns[i..][m])
    {
      OwnStaysQuiet(history, rounds, own, k, r, j, start, born, places, turns, i, i + m);
      assert turns[..i + m] == turns[..i] + turns[i..][..m];
      LiveConcat(start, turns[..i], turns[i..][..m], k);
    }
  }

  /** A run with the own application, and its rounds as those of module EventLoop. */
  ghost predicate IsOwnRun(history: seq<W.World>, rounds: seq<W.LoopRound>, own: seq<Round>, k: Limits) {
    && W.IsWorldRun(history, rounds, k) && |own| == |rounds| && IsRun(W.ConnsOf(history), own, k)
    && forall r :: 0 <= r < |history| && r < |rounds| ==>
         W.AllBacked(history[r]) && OwnRun.OwnRound(rounds[r]) && own[r] == W.RoundOf(history[r], rounds[r], k)
  }

  lemma OwnRounds(history: seq<W.World>, rounds: seq<W.LoopRound>, k: Limits) returns (own: seq<Round>)
    requires W.IsWorldRun(history, rounds, k) && forall q :: 0 <= q < |rounds| ==> OwnRun.OwnRound(rounds[q])
    ensures IsOwnRun(history, rounds, own, k) && IsRun(W.ConnsOf(history), own, k) && |history| <= |own| + 1
  {
    own := W.WorldRunIsRun(history, rounds, k);
    hide OwnRun.OwnRound, W.RoundOf, RoundStep, W.WorldStep;
  }

  lemma ListensThen(start: Conn, turns: seq<Turn>, i: nat, fragments: seq<seq<byte>>, k: Limits)
    requires i <= |turns| && Listens(start, turns, i, fragments, k)
    ensures Live(start, turns[..i], k).http.state == WaitSending
  {
  }

  /** Over every run of the loop with the server's own application, for every connection at every loop head that has
      been listening since after the first `i` of the turns it has taken: as long as every tick has fitted, what it
      was sent after the head of its response decodes to the ticks. */
  lemma EveryOwnListenerDecodes(history: seq<W.World>, rounds: seq<W.LoopRound>, k: Limits, r: nat, j: nat)
    returns (own: seq<Round>, start: Conn, born: nat, places: seq<nat>, turns: seq<Turn>)
    requires W.IsWorldRun(history, rounds, k) && r < |history| && j < |history[r].conns| && k.sendBufLen > 0
    requires forall q :: 0 <= q < |rounds| ==> OwnRun.OwnRound(rounds[q])
    ensures IsOwnRun(history, rounds, own, k)
    ensures IsLife(W.ConnsOf(history), own, k, r, j, start, born, places, turns)
    ensures forall i, fragments, consumeTrailer :: 0 <= i <= |turns| && Listens(start, turns, i, fragments, k) ==>
              Decodes(Ticks(turns[i..]), history[r].conns[j], fragments, consumeTrailer)
  {
    hide Live, IsLife, Decodes, Ticks, Listens, W.IsWorldRun, OwnRun.OwnRound, JustAccepted, AllQuiet, IsOwnRun, IsRun;
    own := OwnRounds(history, rounds, k);
    start, born, places, turns := ConnectionLife(W.ConnsOf(history), own, k, r, j);
    LifeIsNow(W.ConnsOf(history), own, k, r, j, start, born, places, turns);
    forall i, fragments, consumeTrailer | 0 <= i <= |turns| && Listens(start, turns, i, fragments, k)
      ensures Decodes(Ticks(turns[i..]), history[r].conns[j], fragments, consumeTrailer)
    {
      assert Live(start, turns[..i], k).http.state == WaitSending by { ListensThen(start, turns, i, fragments, k); }
      AllOwnQuiet(history, rounds, own, k, r, j, start, born, places, turns, i);
      OneListener(start, turns, i, fragments, consumeTrailer, k);
    }
  }
}
