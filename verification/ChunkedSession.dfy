/** Whole sessions: one decoder fed fragment after fragment, with the overhead guard in force. */
module ChunkedSession {
  import opened Bytes
  import opened ChunkedAutomaton
  import opened ChunkedDecoder
  import opened ChunkEncoder

  /** `ret` is -2 while every call returned -2, else the first other answer. */
  datatype Session = Session(ret: int, out: seq<byte>, decoder: Snapshot)

  /** The documented protocol: call the decoder again, with newly arrived data, while it answers -2. */
  function Feed(d: Snapshot, fragments: seq<seq<byte>>): Session
    decreases |fragments|
  {
    if fragments == [] then Session(RET_INCOMPLETE, [], d)
    else
      var c := Call(d, fragments[0]);
      if c.ret != RET_INCOMPLETE then Session(c.ret, c.out, c.decoder)
      else
        var rest := Feed(c.decoder, fragments[1..]);
        rest.(out := c.out + rest.out)
  }

  /** The decoder that has read exactly `stream` since it was zeroed, over calls that all answered -2. */
  ghost predicate HasRead(consumeTrailer: bool, stream: seq<byte>, d: Snapshot) {
    var r := Run(Initial(consumeTrailer), stream);
    && r.verdict == Incomplete
    && d == Snapshot(r.state, |stream|, |stream| - |r.out|)
  }

  /** The guard's condition, without 64-bit arithmetic: at least 100 KB of overhead, and less than a quarter of the
      bytes read, rounded down, was decoded. */
  predicate GuardFires(total: nat, decoded: nat)
    requires decoded <= total
  {
    total - decoded >= 102400 && 4 * (decoded + 1) <= total
  }

  /** One call keeps the books: bytes read are bytes decoded plus overhead, the answer is the automaton's
      unless the guard fires. */
  lemma CallAccounts(consumeTrailer: bool, stream: seq<byte>, d: Snapshot, input: seq<byte>)
    requires HasRead(consumeTrailer, stream, d) && |stream| + |input| < TWO_64
    ensures var whole := Run(Initial(consumeTrailer), stream + input);
            var c := Call(d, input);
            && Run(Initial(consumeTrailer), stream).out + c.out == whole.out
            && (whole.verdict == Incomplete ==>
                  && HasRead(consumeTrailer, stream + input, c.decoder)
                  && (c.ret == RET_INCOMPLETE <==> !GuardFires(|stream + input|, |whole.out|))
                  && (c.ret == RET_ERROR <==> GuardFires(|stream + input|, |whole.out|)))
            && (whole.verdict == Failed ==> c.ret == RET_ERROR)
            && (whole.verdict == Complete ==> c.ret == |stream + input| - whole.used)
  {
    hide Run;
    var read := Run(Initial(consumeTrailer), stream);
    var here := Run(d.state, input);
    RunConcat(Initial(consumeTrailer), stream, input);
    var total := |stream + input|;
    var overhead := total - |read.out + here.out|;
    assert d.totalRead + |input| == total && d.totalOverhead + (|input| - |here.out|) == overhead;
    NoWrap(total);
    NoWrap(overhead);
    hide TooMuchOverhead, GuardFires;
    GuardWithoutWrap(total, overhead);
  }

  lemma NoWrap(n: nat)
    requires n < TWO_64
    ensures n % TWO_64 == n
  {
  }

  /** Below 2^64 bytes the unsigned arithmetic of the guard does not wrap. */
  lemma GuardWithoutWrap(total: nat, overhead: nat)
    requires overhead <= total < TWO_64
    ensures TooMuchOverhead(total, overhead) <==> GuardFires(total, total - overhead)
  {
  }

  /** Over any run of -2 answers the decoder has read everything it was given, its overhead is everything that
      was not decoded, and either the overhead is below 100 KB or a quarter of the bytes read was decoded. */
  lemma {:induction false} SessionAccounts(consumeTrailer: bool, stream: seq<byte>, d: Snapshot,
                                           fragments: seq<seq<byte>>)
    requires HasRead(consumeTrailer, stream, d)
    requires !GuardFires(d.totalRead, d.totalRead - d.totalOverhead)
    requires |stream| + |Flatten(fragments)| < TWO_64
    ensures var s := Feed(d, fragments);
            var whole := stream + Flatten(fragments);
            s.ret == RET_INCOMPLETE ==>
              && HasRead(consumeTrailer, whole, s.decoder)
              && Run(Initial(consumeTrailer), stream).out + s.out == Run(Initial(consumeTrailer), whole).out
              && s.decoder.totalRead - s.decoder.totalOverhead == |Run(Initial(consumeTrailer), whole).out|
              && !GuardFires(s.decoder.totalRead, s.decoder.totalRead - s.decoder.totalOverhead)
    decreases |fragments|
  {
    hide Run, Call;
    if fragments == [] {
      assert stream + Flatten(fragments) == stream;
    } else {
      var c := Call(d, fragments[0]);
      CallAccounts(consumeTrailer, stream, d, fragments[0]);
      assert stream + fragments[0] + Flatten(fragments[1..]) == stream + Flatten(fragments);
      CallVerdict(consumeTrailer, stream, d, fragments[0]);
      if c.ret == RET_INCOMPLETE {
        SessionAccounts(consumeTrailer, stream + fragments[0], c.decoder, fragments[1..]);
      }
    }
  }

  lemma CallVerdict(consumeTrailer: bool, stream: seq<byte>, d: Snapshot, input: seq<byte>)
    requires HasRead(consumeTrailer, stream, d)
    ensures Call(d, input).ret == RET_INCOMPLETE ==> Run(Initial(consumeTrailer), stream + input).verdict == Incomplete
  {
    RunConcat(Initial(consumeTrailer), stream, input);
  }

  // ---- A stream on which the guard stays silent, however it is cut ----

  ghost predicate SilentAt(consumeTrailer: bool, read: seq<byte>) {
    var r := Run(Initial(consumeTrailer), read);
    r.verdict == Incomplete && !GuardFires(|read|, |r.out|)
  }

  ghost predicate Silent(consumeTrailer: bool, stream: seq<byte>) {
    forall read :: read <= stream ==> SilentAt(consumeTrailer, read)
  }

  lemma {:induction false} SilentFeed(consumeTrailer: bool, read: seq<byte>, d: Snapshot, fragments: seq<seq<byte>>)
    requires HasRead(consumeTrailer, read, d)
    requires Silent(consumeTrailer, read + Flatten(fragments)) && |read + Flatten(fragments)| < TWO_64
    ensures var s := Feed(d, fragments);
            && s.ret == RET_INCOMPLETE
            && HasRead(consumeTrailer, read + Flatten(fragments), s.decoder)
            && Run(Initial(consumeTrailer), read).out + s.out ==
                 Run(Initial(consumeTrailer), read + Flatten(fragments)).out
    decreases |fragments|
  {
    hide Run, Call, HasRead, GuardFires;
    if fragments == [] {
      assert read + Flatten(fragments) == read;
    } else {
      var now := read + fragments[0];
      assert now + Flatten(fragments[1..]) == read + Flatten(fragments);
      assert SilentAt(consumeTrailer, now);
      CallAccounts(consumeTrailer, read, d, fragments[0]);
      SilentFeed(consumeTrailer, now, Call(d, fragments[0]).decoder, fragments[1..]);
    }
  }

  // ---- Why the guard stays silent on the server's own stream ----

  /** Chunks long enough for the guard: two bytes of data at least. */
  predicate Substantial(payloads: seq<seq<byte>>) {
    forall i :: 0 <= i < |payloads| ==> 2 <= |payloads[i]| <= MAX_CHUNK_LEN
  }

  lemma OverheadGrows(s: State, a: seq<byte>, b: seq<byte>)
    requires Run(s, a + b).verdict == Incomplete
    ensures Run(s, a).verdict == Incomplete
    ensures |a| - |Run(s, a).out| <= |a + b| - |Run(s, a + b).out|
  {
    RunConcat(s, a, b);
  }

  lemma EncodedLength(payload: seq<byte>)
    requires 0 < |payload| <= MAX_CHUNK_LEN
    ensures |EncodeChunk(payload)| == |payload| + (if |payload| < 16 then 5 else if |payload| < 256 then 6 else 7)
  {
  }

  /** How many chunks are whole in the first `n` bytes of the stream. */
  function WholeChunks(payloads: seq<seq<byte>>, n: nat): nat
    requires Substantial(payloads)
  {
    if payloads == [] || n < |EncodeChunk(payloads[0])| then 0
    else 1 + WholeChunks(payloads[1..], n - |EncodeChunk(payloads[0])|)
  }

  /** At every point of the stream: at most 7 bytes of overhead a whole chunk and 7 more, and every whole chunk leaves a
      surplus of three times its data over its overhead. */
  lemma {:induction false} EncodedPrefix(consumeTrailer: bool, payloads: seq<seq<byte>>, read: seq<byte>)
    requires Substantial(payloads) && read <= EncodeAll(payloads)
    ensures var r, m := Run(Initial(consumeTrailer), read), WholeChunks(payloads, |read|);
            && r.verdict == Incomplete
            && r.out <= Flatten(payloads)
            && |read| - |r.out| <= 7 * m + 7
            && |read| - |r.out| + m <= 3 * |r.out| + 7
    decreases |payloads|
  {
    hide Run, EncodeChunk;
    var init := Initial(consumeTrailer);
    if payloads == [] {
      DecodesEncoded(consumeTrailer, payloads);
    } else {
      var first, rest := EncodeChunk(payloads[0]), EncodeAll(payloads[1..]);
      DecodesEncodedChunk(consumeTrailer, payloads[0]);
      EncodedLength(payloads[0]);
      if |read| < |first| {
        var unread := first[|read|..];
        assert first == read + unread;
        OverheadGrows(init, read, unread);
        RunConcat(init, read, unread);
      } else {
        var later := read[|first|..];
        assert read == first + later && later <= rest;
        EncodedPrefix(consumeTrailer, payloads[1..], later);
        RunConcat(init, first, later);
      }
    }
  }

  lemma EncodedIsSilent(consumeTrailer: bool, payloads: seq<seq<byte>>)
    requires Substantial(payloads)
    ensures Silent(consumeTrailer, EncodeAll(payloads))
  {
    forall read | read <= EncodeAll(payloads) ensures SilentAt(consumeTrailer, read) {
      EncodedPrefix(consumeTrailer, payloads, read);
    }
  }

  /** However much of the server's stream has arrived and however it was cut: every call answers -2 and what was
      decoded is a prefix of what was sent. */
  lemma PartialStream(consumeTrailer: bool, payloads: seq<seq<byte>>, fragments: seq<seq<byte>>)
    requires Substantial(payloads) && Flatten(fragments) <= EncodeAll(payloads)
    requires |Flatten(fragments)| < TWO_64
    ensures var s := Feed(Zeroed(consumeTrailer), fragments);
            s.ret == RET_INCOMPLETE && s.out <= Flatten(payloads)
  {
    hide Run, Call;
    EncodedIsSilent(consumeTrailer, payloads);
    StartOfSession(consumeTrailer);
    assert [] + Flatten(fragments) == Flatten(fragments);
    SilentFeed(consumeTrailer, [], Zeroed(consumeTrailer), fragments);
    EncodedPrefix(consumeTrailer, payloads, Flatten(fragments));
  }

  lemma StartOfSession(consumeTrailer: bool)
    ensures HasRead(consumeTrailer, [], Zeroed(consumeTrailer))
    ensures Run(Initial(consumeTrailer), []).out == []
  {
  }

  /** The streaming round trip: every cut of the server's stream is decoded to the concatenated payloads, every
      call answers -2 (the guard never fires), and the decoder ends at a chunk boundary. */
  lemma StreamRoundTrip(consumeTrailer: bool, payloads: seq<seq<byte>>, fragments: seq<seq<byte>>)
    requires Substantial(payloads) && Flatten(fragments) == EncodeAll(payloads)
    requires |EncodeAll(payloads)| < TWO_64
    ensures var s := Feed(Zeroed(consumeTrailer), fragments);
            && s.ret == RET_INCOMPLETE
            && s.out == Flatten(payloads)
            && s.decoder.state == Initial(consumeTrailer)
            && s.decoder.totalRead == |EncodeAll(payloads)|
            && s.decoder.totalRead - s.decoder.totalOverhead == |Flatten(payloads)|
  {
    hide Run, Call;
    EncodedIsSilent(consumeTrailer, payloads);
    StartOfSession(consumeTrailer);
    assert [] + Flatten(fragments) == EncodeAll(payloads);
    SilentFeed(consumeTrailer, [], Zeroed(consumeTrailer), fragments);
    DecodesEncoded(consumeTrailer, payloads);
  }

  // ---- One-byte chunks do trip the guard ----

  ghost predicate AllOneByte(payloads: seq<seq<byte>>) {
    forall i :: 0 <= i < |payloads| ==> |payloads[i]| == 1
  }

  lemma {:induction false} OneByteLengths(payloads: seq<seq<byte>>)
    requires AllOneByte(payloads)
    ensures |EncodeAll(payloads)| == 6 * |payloads| && |Flatten(payloads)| == |payloads|
    decreases |payloads|
  {
    if payloads != [] {
      OneByteLengths(payloads[1..]);
      EncodedLength(payloads[0]);
    }
  }

  /** A stream of one-byte chunks handed over in one call is refused exactly from 20480 chunks on. */
  lemma OneByteChunksTripTheGuard(consumeTrailer: bool, payloads: seq<seq<byte>>)
    requires AllOneByte(payloads) && 6 * |payloads| < TWO_64
    ensures Call(Zeroed(consumeTrailer), EncodeAll(payloads)).ret ==
            if |payloads| >= 20480 then RET_ERROR else RET_INCOMPLETE
  {
    hide Run, EncodeAll, Flatten, Call, HasRead;
    OneByteLengths(payloads);
    DecodesEncoded(consumeTrailer, payloads);
    StartOfSession(consumeTrailer);
    assert [] + EncodeAll(payloads) == EncodeAll(payloads);
    CallAccounts(consumeTrailer, [], Zeroed(consumeTrailer), EncodeAll(payloads));
  }
}
