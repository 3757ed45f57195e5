/** What the overhead guard, evaluated at the end of every call, changes: exactly which streams and cuts it refuses that
    the decoder without the guard would not. */
module ChunkedGuard {
  import opened Bytes
  import opened ChunkedAutomaton
  import opened ChunkedDecoder
  import opened ChunkEncoder
  import opened ChunkedSession
  import G = ChunkedGrammar

  /** One call of the decoder without the guard. */
  function CallUnguarded(d: Snapshot, input: seq<byte>): (c: CallResult) {
    var c := Call(d, input);
    if Run(d.state, input).verdict == Incomplete then c.(ret := RET_INCOMPLETE) else c
  }

  /** The documented protocol with it. */
  function FeedUnguarded(d: Snapshot, fragments: seq<seq<byte>>): Session
    decreases |fragments|
  {
    if fragments == [] then Session(RET_INCOMPLETE, [], d)
    else
      var c := CallUnguarded(d, fragments[0]);
      if c.ret != RET_INCOMPLETE then Session(c.ret, c.out, c.decoder)
      else
        var rest := FeedUnguarded(c.decoder, fragments[1..]);
        rest.(out := c.out + rest.out)
  }

  /** The bytes handed over up to and including the call that reaches a verdict. */
  function HandedOver(s: State, fragments: seq<seq<byte>>): nat
    decreases |fragments|
  {
    if fragments == [] then 0
    else
      var r := Run(s, fragments[0]);
      |fragments[0]| + if r.verdict == Incomplete then HandedOver(r.state, fragments[1..]) else 0
  }

  /** Without the guard the cut does not matter: verdict, output and final state are those of one run over the whole
      stream, and what is left over is what was handed over and not used. */
  lemma {:induction false} UnguardedIsRun(d: Snapshot, fragments: seq<seq<byte>>)
    ensures var s := FeedUnguarded(d, fragments);
            var r := Run(d.state, Flatten(fragments));
            && s.out == r.out && s.decoder.state == r.state
            && s.ret == match r.verdict
                        case Incomplete => RET_INCOMPLETE
                        case Failed => RET_ERROR
                        case Complete => HandedOver(d.state, fragments) - r.used
    decreases |fragments|
  {
    if fragments != [] {
      RunConcat(d.state, fragments[0], Flatten(fragments[1..]));
      UnguardedIsRun(CallUnguarded(d, fragments[0]).decoder, fragments[1..]);
      hide Run;
    } else {
      assert Flatten(fragments) == [];
    }
  }

  /** The guard is silent at every call boundary before the verdict; `read` was handed over before. */
  ghost predicate SilentAtBoundaries(consumeTrailer: bool, read: seq<byte>, fragments: seq<seq<byte>>)
    decreases |fragments|
  {
    fragments != [] ==>
      var now := read + fragments[0];
      Run(Initial(consumeTrailer), now).verdict == Incomplete ==>
        SilentAt(consumeTrailer, now) && SilentAtBoundaries(consumeTrailer, now, fragments[1..])
  }

  /** The answer of one call, with and without the guard. */
  lemma GuardedCall(consumeTrailer: bool, read: seq<byte>, d: Snapshot, input: seq<byte>)
    requires HasRead(consumeTrailer, read, d) && |read| + |input| < TWO_64
    ensures var now := read + input;
            var whole := Run(Initial(consumeTrailer), now);
            var c, u := Call(d, input), CallUnguarded(d, input);
            && c.out == u.out && c.decoder == u.decoder
            && (whole.verdict == Incomplete ==>
                  && u.ret == RET_INCOMPLETE && HasRead(consumeTrailer, now, c.decoder)
                  && c.ret == if SilentAt(consumeTrailer, now) then RET_INCOMPLETE else RET_ERROR)
            && (whole.verdict != Incomplete ==> c == u && c.ret != RET_INCOMPLETE)
  {
    hide Run, GuardFires, TooMuchOverhead;
    CallAccounts(consumeTrailer, read, d, input);
    RunConcat(Initial(consumeTrailer), read, input);
  }

  /** A rejection takes at least one byte. */
  lemma {:induction false} RejectionReads(d: Snapshot, fragments: seq<seq<byte>>)
    requires d.totalRead + |Flatten(fragments)| < TWO_64
    requires FeedUnguarded(d, fragments).ret == RET_ERROR
    ensures FeedUnguarded(d, fragments).decoder.totalRead > d.totalRead
    decreases |fragments|
  {
    hide CallUnguarded;
    var c := CallUnguarded(d, fragments[0]);
    CallReads(d, fragments[0]);
    if c.ret == RET_INCOMPLETE {
      RejectionReads(c.decoder, fragments[1..]);
    }
  }

  lemma CallReads(d: Snapshot, input: seq<byte>)
    requires d.totalRead + |input| < TWO_64
    ensures CallUnguarded(d, input).decoder.totalRead == d.totalRead + |input|
    ensures input == [] ==> CallUnguarded(d, input).ret == RET_INCOMPLETE
  {
    assert Run(d.state, []).verdict == Incomplete;
    hide Run;
  }

  /** The guard's theorem, for every stream and every cut, whatever the verdict: answers, output and decoder are those
      without the guard if and only if the guard is silent at every call boundary before the verdict; otherwise the
      stream is refused. */
  lemma {:induction false} GuardMatters(consumeTrailer: bool, read: seq<byte>, d: Snapshot, fragments: seq<seq<byte>>)
    requires HasRead(consumeTrailer, read, d) && |read| + |Flatten(fragments)| < TWO_64
    ensures Feed(d, fragments) == FeedUnguarded(d, fragments) <==> SilentAtBoundaries(consumeTrailer, read, fragments)
    ensures !SilentAtBoundaries(consumeTrailer, read, fragments) ==> Feed(d, fragments).ret == RET_ERROR
    decreases |fragments|
  {
    hide Run, Call, CallUnguarded, SilentAt, HasRead;
    if fragments != [] {
      var now := read + fragments[0];
      GuardedCall(consumeTrailer, read, d, fragments[0]);
      if Run(Initial(consumeTrailer), now).verdict == Incomplete {
        var next := Call(d, fragments[0]).decoder;
        assert next.totalRead == |now| by { ReadLength(consumeTrailer, now, next); }
        if SilentAt(consumeTrailer, now) {
          GuardMatters(consumeTrailer, now, next, fragments[1..]);
          SameTail(Call(d, fragments[0]).out, Feed(next, fragments[1..]), FeedUnguarded(next, fragments[1..]));
        } else if FeedUnguarded(next, fragments[1..]).ret == RET_ERROR {
          RejectionReads(next, fragments[1..]);
        }
      }
    }
  }

  lemma ReadLength(consumeTrailer: bool, read: seq<byte>, d: Snapshot)
    requires HasRead(consumeTrailer, read, d)
    ensures d.totalRead == |read|
  {
  }

  lemma SameTail(out: seq<byte>, s: Session, u: Session)
    ensures s.(out := out + s.out) == u.(out := out + u.out) <==> s == u
  {
    if out + s.out == out + u.out {
      assert s.out == (out + s.out)[|out|..] && u.out == (out + u.out)[|out|..];
    }
  }

  /** For a decoder that starts afresh: the answer over any cut is that of one run over the whole stream, if and only if
      the guard is silent at the boundaries. */
  lemma GuardedSession(consumeTrailer: bool, fragments: seq<seq<byte>>)
    requires |Flatten(fragments)| < TWO_64
    ensures var s, u := Feed(Zeroed(consumeTrailer), fragments), FeedUnguarded(Zeroed(consumeTrailer), fragments);
            && (s == u <==> SilentAtBoundaries(consumeTrailer, [], fragments))
            && (s != u ==> s.ret == RET_ERROR)
            && u.out == Run(Initial(consumeTrailer), Flatten(fragments)).out
  {
    hide Run, Call;
    StartOfSession(consumeTrailer);
    GuardMatters(consumeTrailer, [], Zeroed(consumeTrailer), fragments);
    UnguardedIsRun(Zeroed(consumeTrailer), fragments);
  }

  /** Every call answers -2, however the stream is cut. */
  ghost predicate NeverRefused(consumeTrailer: bool, stream: seq<byte>) {
    forall fragments: seq<seq<byte>> :: Flatten(fragments) == stream ==>
      Feed(Zeroed(consumeTrailer), fragments).ret == RET_INCOMPLETE
  }

  /** The streams on which the guard never matters, however they are cut, are exactly those on which it is silent at
      every point. */
  lemma SilentExactly(consumeTrailer: bool, stream: seq<byte>)
    requires |stream| < TWO_64
    ensures Silent(consumeTrailer, stream) <==> NeverRefused(consumeTrailer, stream)
  {
    hide Run, Call, SilentAt, Feed, HasRead;
    StartOfSession(consumeTrailer);
    if Silent(consumeTrailer, stream) {
      forall fragments: seq<seq<byte>> | Flatten(fragments) == stream
        ensures Feed(Zeroed(consumeTrailer), fragments).ret == RET_INCOMPLETE
      {
        assert [] + Flatten(fragments) == stream;
        SilentFeed(consumeTrailer, [], Zeroed(consumeTrailer), fragments);
      }
    }
    if NeverRefused(consumeTrailer, stream) {
      forall read | read <= stream ensures SilentAt(consumeTrailer, read) {
        SilentBefore(consumeTrailer, stream, read);
      }
    }
  }

  lemma SilentBefore(consumeTrailer: bool, stream: seq<byte>, read: seq<byte>)
    requires |stream| < TWO_64 && NeverRefused(consumeTrailer, stream) && read <= stream
    ensures SilentAt(consumeTrailer, read)
  {
    var cut: seq<seq<byte>> := [read, stream[|read|..]];
    CutInTwo(read, stream[|read|..]);
    assert Feed(Zeroed(consumeTrailer), cut).ret == RET_INCOMPLETE;
    FirstAnswer(consumeTrailer, cut);
  }

  lemma CutInTwo<T>(a: seq<T>, b: seq<T>)
    ensures Flatten([a, b]) == a + b
  {
    assert [a, b][1..] == [b] && [b][1..] == [];
    assert Flatten([b]) == b;
  }

  /** Only a first call that is answered by -2 is followed by others. */
  lemma FirstAnswer(consumeTrailer: bool, fragments: seq<seq<byte>>)
    requires fragments != [] && |fragments[0]| < TWO_64
    requires Feed(Zeroed(consumeTrailer), fragments).ret == RET_INCOMPLETE
    ensures SilentAt(consumeTrailer, fragments[0])
  {
    hide Run, Call;
    StartOfSession(consumeTrailer);
    assert [] + fragments[0] == fragments[0];
    GuardedCall(consumeTrailer, [], Zeroed(consumeTrailer), fragments[0]);
  }

  // ---- A stream whose cut matters ----

  const HEX_60000: seq<byte> := [69, 65, 54, 48]  // "EA60"

  /** A size line with an extension of 100 KB, and the data it announces. */
  ghost predicate LongExtension(ext: seq<byte>, data: seq<byte>) {
    |ext| == 102400 && ext[0] == SEMICOLON && NoByte(ext, LF) && |data| == 60000
  }

  /** In one call the data makes up for the size line; cut after the line, the same bytes are refused. */
  lemma CutMatters(consumeTrailer: bool, ext: seq<byte>, data: seq<byte>)
    requires LongExtension(ext, data)
    ensures var line := G.PrintSizeLine(HEX_60000, ext);
            && Flatten([line + data]) == Flatten([line, data]) == line + data
            && Feed(Zeroed(consumeTrailer), [line + data]).ret == RET_INCOMPLETE
            && Feed(Zeroed(consumeTrailer), [line, data]).ret == RET_ERROR
  {
    var line := G.PrintSizeLine(HEX_60000, ext);
    Hex60000();
    G.RunSizeLine(consumeTrailer, HEX_60000, ext);
    RunConcat(Initial(consumeTrailer), line, data);
    var inData := State(ChunkData, 60000, 0, consumeTrailer);
    RunData(inData, data);
    CutInTwo(line, data);
    CutInTwo(line + data, []);
    assert [line + data][1..] == [];
    assert |line| == 102405;
    hide Run, Call;
    StartOfSession(consumeTrailer);
    assert [] + (line + data) == line + data && [] + line == line;
    GuardedCall(consumeTrailer, [], Zeroed(consumeTrailer), line + data);
    GuardedCall(consumeTrailer, [], Zeroed(consumeTrailer), line);
  }

  lemma LongExtensionExists()
    ensures LongExtension(seq(102400, _ => SEMICOLON), seq(60000, _ => 0))
  {
  }

  lemma Hex60000()
    ensures G.ValidSize(HEX_60000) && HexValue(HEX_60000) == 60000
  {
    hide HexValue, IsHex, HexOf;
    DecodesHex(69);
    DecodesHex(65);
    DecodesHex(54);
    DecodesHex(48);
    HexSnoc([], 69);
    HexSnoc([69], 65);
    HexSnoc([69, 65], 54);
    HexSnoc([69, 65, 54], 48);
    assert [69] + [65] == [69, 65] && [69, 65] + [54] == [69, 65, 54] && [69, 65, 54] + [48] == HEX_60000;
  }

  // ---- One-byte chunks, however they are cut ----

  /** At every point of a stream of one-byte chunks: the fourth of every six bytes is data. */
  lemma {:induction false} OneBytePrefix(consumeTrailer: bool, payloads: seq<seq<byte>>, read: seq<byte>)
    requires AllOneByte(payloads) && read <= EncodeAll(payloads)
    ensures var r := Run(Initial(consumeTrailer), read);
            r.verdict == Incomplete && |r.out| == (|read| + 2) / 6
    decreases |payloads|
  {
    hide Run, EncodeChunk;
    var init := Initial(consumeTrailer);
    if payloads == [] {
      DecodesEncoded(consumeTrailer, payloads);
    } else {
      var first, rest := EncodeChunk(payloads[0]), EncodeAll(payloads[1..]);
      DecodesEncodedChunk(consumeTrailer, payloads[0]);
      EncodedLength(payloads[0]);
      if |read| < 6 {
        assert read == first[..|read|];
        OneByteChunk(consumeTrailer, payloads[0], |read|);
      } else {
        var later := read[6..];
        assert read == first + later && later <= rest;
        OneBytePrefix(consumeTrailer, payloads[1..], later);
        RunConcat(init, first, later);
      }
    }
  }

  lemma OneDigit()
    ensures AllHex([49]) && HexValue([49]) == 1
  {
    DecodesHex(49);
  }

  lemma OneByteChunk(consumeTrailer: bool, payload: seq<byte>, n: nat)
    requires |payload| == 1 && n < 6
    ensures |EncodeChunk(payload)| == 6
    ensures var r := Run(Initial(consumeTrailer), EncodeChunk(payload)[..n]);
            r.verdict == Incomplete && |r.out| == if n < 4 then 0 else 1
  {
    hide AllHex, HexValue;
    var first, init := EncodeChunk(payload), Initial(consumeTrailer);
    var line: seq<byte> := [49, CR, LF];
    assert first == [49, CR, LF, payload[0], CR, LF];
    var inData := State(ChunkData, 1, 0, consumeTrailer);
    OneDigit();
    G.RunSizeLine(consumeTrailer, [49], [CR]);
    assert G.PrintSizeLine([49], [CR]) == line;
    var part := first[..n];
    if n <= 3 {
      assert line == part + line[n..];
      RunConcat(init, part, line[n..]);
    } else {
      assert part == line + (if n == 4 then payload else payload + [CR]);
      RunConcat(init, line, part[3..]);
      RunData(inData, payload);
      RunConcat(inData, payload, [CR]);
      G.RunOne(State(ChunkCrlf, 0, 0, consumeTrailer), CR);
      assert part[3..] == if n == 4 then payload else payload + [CR];
    }
  }

  lemma OneByteSilent(consumeTrailer: bool, payloads: seq<seq<byte>>, read: seq<byte>)
    requires AllOneByte(payloads) && read <= EncodeAll(payloads)
    ensures SilentAt(consumeTrailer, read) <==> |read| < 6 * 20480
  {
    OneBytePrefix(consumeTrailer, payloads, read);
    hide Run;
  }

  lemma {:induction false} OneByteChunksFrom(consumeTrailer: bool, payloads: seq<seq<byte>>, read: seq<byte>,
                                             d: Snapshot, fragments: seq<seq<byte>>)
    requires AllOneByte(payloads) && read + Flatten(fragments) <= EncodeAll(payloads)
    requires HasRead(consumeTrailer, read, d) && SilentAt(consumeTrailer, read)
    requires |read| + |Flatten(fragments)| < TWO_64
    ensures Feed(d, fragments).ret ==
            if |read + Flatten(fragments)| >= 6 * 20480 then RET_ERROR else RET_INCOMPLETE
    decreases |fragments|
  {
    hide Run, Call, CallUnguarded, SilentAt, HasRead, EncodeAll;
    OneByteSilent(consumeTrailer, payloads, read);
    if fragments == [] {
      assert read + Flatten(fragments) == read;
    } else {
      var now := read + fragments[0];
      assert read + Flatten(fragments) == now + Flatten(fragments[1..]);
      OneByteSilent(consumeTrailer, payloads, now);
      OneBytePrefix(consumeTrailer, payloads, now);
      GuardedCall(consumeTrailer, read, d, fragments[0]);
      if SilentAt(consumeTrailer, now) {
        OneByteChunksFrom(consumeTrailer, payloads, now, Call(d, fragments[0]).decoder, fragments[1..]);
      }
    }
  }

  /** However much of a stream of one-byte chunks has arrived and however it is cut: it is refused exactly if 20480 of
      its chunks have arrived. */
  lemma OneByteChunksInAnyCut(consumeTrailer: bool, payloads: seq<seq<byte>>, fragments: seq<seq<byte>>)
    requires AllOneByte(payloads) && Flatten(fragments) <= EncodeAll(payloads) && |Flatten(fragments)| < TWO_64
    ensures Feed(Zeroed(consumeTrailer), fragments).ret ==
            if |Flatten(fragments)| >= 6 * 20480 then RET_ERROR else RET_INCOMPLETE
  {
    hide Feed, EncodeAll, SilentAt;
    StartOfSession(consumeTrailer);
    assert [] + Flatten(fragments) == Flatten(fragments);
    OneByteSilent(consumeTrailer, payloads, []);
    OneByteChunksFrom(consumeTrailer, payloads, [], Zeroed(consumeTrailer), fragments);
  }
}
