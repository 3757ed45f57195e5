/** The send buffer as a value: what waits to be sent, where it starts in the buffer, how much went out. */
module SendQueue {
  import opened Bytes
  import opened ChunkEncoder
  import A = ChunkedAutomaton
  import D = ChunkedDecoder
  import S = ChunkedSession

  datatype Queue = Queue(pending: seq<byte>, sendIdx: nat, totalSend: nat)

  const EMPTY: Queue := Queue([], 0, 0)

  /** The buffer is never completely filled, and an empty buffer starts at its beginning. */
  predicate Sound(q: Queue, capacity: nat) {
    q.sendIdx + |q.pending| < capacity && (q.pending == [] ==> q.sendIdx == 0)
  }

  predicate Fits(q: Queue, len: nat, capacity: nat) {
    q.sendIdx + |q.pending| + len < capacity
  }

  /** EL_AddToSendBuffer: all of the data or none of it. */
  function Put(q: Queue, data: seq<byte>, capacity: nat): Queue {
    if Fits(q, |data|, capacity) then q.(pending := q.pending + data) else q
  }

  /** One write after the other. */
  function PutAll(q: Queue, writes: seq<seq<byte>>, capacity: nat): Queue {
    if writes == [] then q else Put(PutAll(q, writes[..|writes| - 1], capacity), writes[|writes| - 1], capacity)
  }

  /** send() has taken `n` bytes. */
  function Take(q: Queue, n: nat): Queue
    requires n <= |q.pending|
  {
    Queue(q.pending[n..], if n == |q.pending| then 0 else q.sendIdx + n, q.totalSend + n)
  }

  // ---- Any interleaving of writes and sends ----

  datatype Op = Write(data: seq<byte>) | Send(n: nat)

  /** `accepted` are the bytes of all writes that were accepted, `sent` the bytes that went out, in order. */
  datatype History = History(queue: Queue, accepted: seq<byte>, sent: seq<byte>)

  /** send() takes at most what was offered; nothing taken is "would block". */
  function Taken(q: Queue, n: nat): (m: nat)
    ensures m <= |q.pending|
  {
    if n <= |q.pending| then n else |q.pending|
  }

  function Step(h: History, op: Op, capacity: nat): History {
    match op
    case Write(data) =>
      History(Put(h.queue, data, capacity),
              if Fits(h.queue, |data|, capacity) then h.accepted + data else h.accepted, h.sent)
    case Send(n) =>
      var m := Taken(h.queue, n);
      History(Take(h.queue, m), h.accepted, h.sent + h.queue.pending[..m])
  }

  function Run(h: History, ops: seq<Op>, capacity: nat): History
    decreases |ops|
  {
    if ops == [] then h else Run(Step(h, ops[0], capacity), ops[1..], capacity)
  }

  lemma {:induction false} RunConcat(h: History, a: seq<Op>, b: seq<Op>, capacity: nat)
    ensures Run(h, a + b, capacity) == Run(Run(h, a, capacity), b, capacity)
    decreases |a|
  {
    if a == [] {
      assert a + b == b;
    } else {
      assert (a + b)[1..] == a[1..] + b;
      RunConcat(Step(h, a[0], capacity), a[1..], b, capacity);
    }
  }

  ghost predicate Faithful(h: History, capacity: nat) {
    && Sound(h.queue, capacity)
    && h.sent + h.queue.pending == h.accepted
    && h.queue.totalSend == |h.sent|
  }

  lemma StepIsFaithful(h: History, op: Op, capacity: nat)
    requires Faithful(h, capacity)
    ensures Faithful(Step(h, op, capacity), capacity)
  {
    match op
    case Write(data) =>
      assert h.sent + (h.queue.pending + data) == h.sent + h.queue.pending + data;
    case Send(n) =>
      var m := Taken(h.queue, n);
      assert h.queue.pending == h.queue.pending[..m] + h.queue.pending[m..];
  }

  /** The send buffer is a faithful FIFO: after any interleaving of writes and partial sends, what went out
      followed by what waits is the concatenation of the accepted writes. */
  lemma {:induction false} RunIsFaithful(h: History, ops: seq<Op>, capacity: nat)
    requires Faithful(h, capacity)
    ensures Faithful(Run(h, ops, capacity), capacity)
    decreases |ops|
  {
    if ops != [] {
      StepIsFaithful(h, ops[0], capacity);
      RunIsFaithful(Step(h, ops[0], capacity), ops[1..], capacity);
    }
  }

  // ---- Chunks through the send buffer ----

  /** SendChunkWithData: three writes whose results are ignored. */
  function PutChunk(q: Queue, payload: seq<byte>, capacity: nat): Queue
    requires 0 < |payload| <= MAX_CHUNK_LEN
  {
    Put(Put(Put(q, SizeLine(|payload|), capacity), payload, capacity), [CR, LF], capacity)
  }

  /** A chunk is framed correctly exactly when the whole of it fits. */
  lemma ChunkIsWholeOnlyIfItFits(q: Queue, payload: seq<byte>, capacity: nat)
    requires 0 < |payload| <= MAX_CHUNK_LEN
    ensures PutChunk(q, payload, capacity).pending == q.pending + EncodeChunk(payload) <==>
            q.sendIdx + |q.pending| + |EncodeChunk(payload)| < capacity
  {
    var line, end: seq<byte> := SizeLine(|payload|), [CR, LF];
    if Fits(q, |EncodeChunk(payload)|, capacity) {
      assert q.pending + line + payload + end == q.pending + EncodeChunk(payload);
    } else {
      assert |PutChunk(q, payload, capacity).pending| < |q.pending| + |line| + |payload| + |end|;
    }
  }

  /** A chunk shorter than the buffer, written when nothing waits, is queued whole. */
  lemma ChunkInEmptyBuffer(payload: seq<byte>, totalSend: nat, capacity: nat)
    requires 0 < |payload| <= MAX_CHUNK_LEN && |EncodeChunk(payload)| < capacity
    ensures PutChunk(Queue([], 0, totalSend), payload, capacity) == Queue(EncodeChunk(payload), 0, totalSend)
  {
    hide EncodeChunk;
    ChunkIsWholeOnlyIfItFits(Queue([], 0, totalSend), payload, capacity);
    assert [] + EncodeChunk(payload) == EncodeChunk(payload);
  }

  datatype StreamOp = Chunk(payload: seq<byte>) | Flush(n: nat)

  datatype Stream = Stream(queue: Queue, payloads: seq<seq<byte>>, sent: seq<byte>)

  /** Payloads of two bytes or more, each of which fits when it is written. */
  ghost predicate Roomy(s: Stream, ops: seq<StreamOp>, capacity: nat)
    decreases |ops|
  {
    ops != [] ==>
      && (ops[0].Chunk? ==>
            && 2 <= |ops[0].payload| <= MAX_CHUNK_LEN
            && Fits(s.queue, |EncodeChunk(ops[0].payload)|, capacity))
      && Roomy(StreamStep(s, ops[0], capacity), ops[1..], capacity)
  }

  function StreamStep(s: Stream, op: StreamOp, capacity: nat): Stream {
    match op
    case Chunk(p) =>
      if 0 < |p| <= MAX_CHUNK_LEN then Stream(PutChunk(s.queue, p, capacity), s.payloads + [p], s.sent) else s
    case Flush(n) =>
      var m := Taken(s.queue, n);
      Stream(Take(s.queue, m), s.payloads, s.sent + s.queue.pending[..m])
  }

  function StreamRun(s: Stream, ops: seq<StreamOp>, capacity: nat): Stream
    decreases |ops|
  {
    if ops == [] then s else StreamRun(StreamStep(s, ops[0], capacity), ops[1..], capacity)
  }

  /** What went out and what waits is exactly the encoding of all payloads so far. */
  ghost predicate Streams(s: Stream) {
    S.Substantial(s.payloads) && s.sent + s.queue.pending == EncodeAll(s.payloads)
  }

  lemma StreamStepKeeps(s: Stream, op: StreamOp, capacity: nat)
    requires Streams(s) && Roomy(s, [op], capacity)
    ensures Streams(StreamStep(s, op, capacity))
  {
    hide EncodeAll, EncodeChunk, PutChunk;
    match op {
      case Chunk(p) =>
        ChunkIsWholeOnlyIfItFits(s.queue, p, capacity);
        EncodeAllSnoc(s.payloads, p);
        assert s.sent + (s.queue.pending + EncodeChunk(p)) == s.sent + s.queue.pending + EncodeChunk(p);
      case Flush(n) =>
        var m := Taken(s.queue, n);
        assert s.sent + s.queue.pending[..m] + s.queue.pending[m..] == s.sent + s.queue.pending;
    }
  }

  lemma {:induction false} StreamRunKeeps(s: Stream, ops: seq<StreamOp>, capacity: nat)
    requires Streams(s) && Roomy(s, ops, capacity)
    ensures Streams(StreamRun(s, ops, capacity))
    decreases |ops|
  {
    hide Streams, PutChunk;
    if ops != [] {
      RoomyStep(s, ops, capacity);
      StreamStepKeeps(s, ops[0], capacity);
      StreamRunKeeps(StreamStep(s, ops[0], capacity), ops[1..], capacity);
    }
  }

  lemma RoomyStep(s: Stream, ops: seq<StreamOp>, capacity: nat)
    requires ops != [] && Roomy(s, ops, capacity)
    ensures Roomy(s, [ops[0]], capacity) && Roomy(StreamStep(s, ops[0], capacity), ops[1..], capacity)
  {
    assert [ops[0]][1..] == [];
  }

  /** From the server's payloads to the client: chunks written to the send buffer between partial sends, and the
      bytes that went out cut in any way, are decoded to a prefix of the payloads, every call answering -2; and to
      all of them once the buffer is empty. */
  lemma EndToEnd(ops: seq<StreamOp>, fragments: seq<seq<byte>>, capacity: nat, consumeTrailer: bool)
    requires Roomy(Stream(EMPTY, [], []), ops, capacity)
    requires Flatten(fragments) == StreamRun(Stream(EMPTY, [], []), ops, capacity).sent
    requires |Flatten(fragments)| < TWO_64
    ensures var s := StreamRun(Stream(EMPTY, [], []), ops, capacity);
            var c := S.Feed(D.Zeroed(consumeTrailer), fragments);
            && c.ret == D.RET_INCOMPLETE
            && c.out <= Flatten(s.payloads)
            && (s.queue.pending == [] ==> c.out == Flatten(s.payloads) && c.decoder.state == A.Initial(consumeTrailer))
  {
    var start := Stream(EMPTY, [], []);
    StreamRunKeeps(start, ops, capacity);
    var s := StreamRun(start, ops, capacity);
    hide StreamRun, Roomy, EncodeAll, S.Feed;
    S.PartialStream(consumeTrailer, s.payloads, fragments);
    if s.queue.pending == [] {
      S.StreamRoundTrip(consumeTrailer, s.payloads, fragments);
    }
  }
}
