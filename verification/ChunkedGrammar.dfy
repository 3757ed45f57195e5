/** Which byte strings the decoder accepts: a grammar for chunked bodies, independent of the automaton, and the
    proof that the automaton accepts exactly the bodies of that grammar and yields exactly their data. */
module ChunkedGrammar {
  import opened Bytes
  import opened ChunkedAutomaton

  /** The decoder tolerates any number of carriage returns where the protocol has one, and bare line feeds.
      `ext` is everything between the size and the line feed, a final carriage return included. */
  datatype Chunk = Chunk(digits: seq<byte>, ext: seq<byte>, data: seq<byte>, crs: nat)

  /** A trailer line: `head` is its first byte that is not a carriage return. */
  datatype TrailerLine = TrailerLine(crs: nat, head: byte, rest: seq<byte>)

  datatype Body = Body(
    chunks: seq<Chunk>,
    lastDigits: seq<byte>,
    lastExt: seq<byte>,
    trailers: seq<TrailerLine>,
    endCrs: nat)

  function Crs(n: nat): (s: seq<byte>)
    ensures |s| == n
  {
    if n == 0 then [] else [CR] + Crs(n - 1)
  }

  ghost predicate ValidSize(digits: seq<byte>) {
    1 <= |digits| <= 16 && AllHex(digits)
  }

  ghost predicate ValidExt(ext: seq<byte>) {
    NoByte(ext, LF) && (ext == [] || ext[0] in {SP, HT, SEMICOLON, CR})
  }

  ghost predicate ValidChunk(c: Chunk) {
    ValidSize(c.digits) && ValidExt(c.ext) && HexValue(c.digits) == |c.data| > 0
  }

  ghost predicate ValidTrailer(t: TrailerLine) {
    t.head != CR && t.head != LF && NoByte(t.rest, LF)
  }

  ghost predicate ValidBody(b: Body) {
    && (forall i :: 0 <= i < |b.chunks| ==> ValidChunk(b.chunks[i]))
    && ValidSize(b.lastDigits) && HexValue(b.lastDigits) == 0 && ValidExt(b.lastExt)
    && (forall i :: 0 <= i < |b.trailers| ==> ValidTrailer(b.trailers[i]))
  }

  function PrintSizeLine(digits: seq<byte>, ext: seq<byte>): seq<byte> {
    digits + ext + [LF]
  }

  function PrintChunk(c: Chunk): seq<byte> {
    PrintSizeLine(c.digits, c.ext) + c.data + (Crs(c.crs) + [LF])
  }

  function PrintChunks(cs: seq<Chunk>): seq<byte> {
    if cs == [] then [] else PrintChunk(cs[0]) + PrintChunks(cs[1..])
  }

  function ChunkData(cs: seq<Chunk>): seq<byte> {
    if cs == [] then [] else cs[0].data + ChunkData(cs[1..])
  }

  function PrintTrailer(t: TrailerLine): seq<byte> {
    Crs(t.crs) + ([t.head] + (t.rest + [LF]))
  }

  function PrintTrailers(ts: seq<TrailerLine>): seq<byte> {
    if ts == [] then [] else PrintTrailer(ts[0]) + PrintTrailers(ts[1..])
  }

  /** What the decoder consumes: without consume_trailer it stops right after the last-chunk line. */
  function PrintBody(consumeTrailer: bool, b: Body): seq<byte> {
    PrintChunks(b.chunks) + (PrintSizeLine(b.lastDigits, b.lastExt) +
      if consumeTrailer then PrintTrailers(b.trailers) + (Crs(b.endCrs) + [LF]) else [])
  }

  // ---- Every body is accepted ----

  lemma {:induction false} RunToLineFeed(s: State, line: seq<byte>)
    requires s.phase == ChunkExt || s.phase == TrailersLineMiddle
    requires NoByte(line, LF)
    ensures Run(s, line) == Outcome(Incomplete, s, |line|, [])
    decreases |line|
  {
    if line != [] {
      RunToLineFeed(s, line[1..]);
    }
  }

  lemma {:induction false} RunCrs(s: State, n: nat)
    requires s.phase == ChunkCrlf || s.phase == TrailersLineHead
    ensures Run(s, Crs(n)) == Outcome(Incomplete, s, n, [])
  {
    if n > 0 {
      RunCrs(s, n - 1);
      assert Crs(n)[1..] == Crs(n - 1);
    }
  }

  lemma RunOne(s: State, ch: byte)
    ensures Run(s, [ch]) ==
            match Step(s, ch)
            case Reject => Outcome(Failed, s, 0, [])
            case Finish(next) => Outcome(Complete, next, 1, [])
            case Continue(next, emit) => Outcome(Incomplete, next, 1, emit)
  {
    assert [ch][1..] == [];
    if Step(s, ch).Continue? {
      assert Step(s, ch).emit + [] == Step(s, ch).emit;
    }
  }

  lemma SameFirstStep(s: State, e: State, input: seq<byte>)
    requires input != [] && Step(s, input[0]) == Step(e, input[0]) && Step(s, input[0]) != Reject
    ensures Run(s, input) == Run(e, input)
  {
  }

  /** After a chunk-size line the decoder expects exactly as much data as the line announces. */
  function AfterSizeLine(consumeTrailer: bool, digits: seq<byte>, ext: seq<byte>): Outcome {
    var n := |PrintSizeLine(digits, ext)|;
    if HexValue(digits) > 0 then
      Outcome(Incomplete, State(Phase.ChunkData, HexValue(digits), 0, consumeTrailer), n, [])
    else if consumeTrailer then Outcome(Incomplete, State(TrailersLineHead, 0, 0, true), n, [])
    else Outcome(Complete, State(ChunkExt, 0, 0, false), n, [])
  }

  lemma RunSizeLine(consumeTrailer: bool, digits: seq<byte>, ext: seq<byte>)
    requires ValidSize(digits) && ValidExt(ext)
    ensures Run(Initial(consumeTrailer), PrintSizeLine(digits, ext)) == AfterSizeLine(consumeTrailer, digits, ext)
  {
    hide HexValue, AllHex;
    RunDigits(consumeTrailer, digits);
    var s := State(ChunkSize, HexValue(digits), |digits|, consumeTrailer);
    var e := s.(phase := ChunkExt, hexCount := 0);
    SameFirstStep(s, e, ext + [LF]);
    hide Run;
    RunToLineFeed(e, ext);
    RunConcat(e, ext, [LF]);
    RunOne(e, LF);
    RunConcat(Initial(consumeTrailer), digits, ext + [LF]);
    assert PrintSizeLine(digits, ext) == digits + (ext + [LF]);
  }

  lemma RunChunk(consumeTrailer: bool, c: Chunk)
    requires ValidChunk(c)
    ensures Run(Initial(consumeTrailer), PrintChunk(c)) ==
            Outcome(Incomplete, Initial(consumeTrailer), |PrintChunk(c)|, c.data)
  {
    hide Run, HexValue, AllHex;
    var line, tail := PrintSizeLine(c.digits, c.ext), Crs(c.crs) + [LF];
    var inData := State(Phase.ChunkData, |c.data|, 0, consumeTrailer);
    var inCrlf := State(ChunkCrlf, 0, 0, consumeTrailer);
    RunSizeLine(consumeTrailer, c.digits, c.ext);
    RunConcat(Initial(consumeTrailer), line, c.data);
    RunData(inData, c.data);
    RunConcat(Initial(consumeTrailer), line + c.data, tail);
    RunConcat(inCrlf, Crs(c.crs), [LF]);
    RunCrs(inCrlf, c.crs);
    RunOne(inCrlf, LF);
  }

  lemma {:induction false} RunChunks(consumeTrailer: bool, cs: seq<Chunk>)
    requires forall i :: 0 <= i < |cs| ==> ValidChunk(cs[i])
    ensures Run(Initial(consumeTrailer), PrintChunks(cs)) ==
            Outcome(Incomplete, Initial(consumeTrailer), |PrintChunks(cs)|, ChunkData(cs))
    decreases |cs|
  {
    if cs != [] {
      RunChunk(consumeTrailer, cs[0]);
      RunChunks(consumeTrailer, cs[1..]);
      RunConcat(Initial(consumeTrailer), PrintChunk(cs[0]), PrintChunks(cs[1..]));
    }
  }

  lemma RunTrailer(s: State, t: TrailerLine)
    requires s.phase == TrailersLineHead && ValidTrailer(t)
    ensures Run(s, PrintTrailer(t)) == Outcome(Incomplete, s, |PrintTrailer(t)|, [])
  {
    hide Run;
    var middle := s.(phase := TrailersLineMiddle);
    RunCrs(s, t.crs);
    RunConcat(s, Crs(t.crs), [t.head] + (t.rest + [LF]));
    RunOne(s, t.head);
    RunConcat(s, [t.head], t.rest + [LF]);
    RunToLineFeed(middle, t.rest);
    RunConcat(middle, t.rest, [LF]);
    RunOne(middle, LF);
  }

  lemma {:induction false} RunTrailers(s: State, ts: seq<TrailerLine>)
    requires s.phase == TrailersLineHead
    requires forall i :: 0 <= i < |ts| ==> ValidTrailer(ts[i])
    ensures Run(s, PrintTrailers(ts)) == Outcome(Incomplete, s, |PrintTrailers(ts)|, [])
    decreases |ts|
  {
    if ts != [] {
      RunTrailer(s, ts[0]);
      RunTrailers(s, ts[1..]);
      RunConcat(s, PrintTrailer(ts[0]), PrintTrailers(ts[1..]));
    }
  }

  /** What follows the last chunk, when it is consumed. */
  lemma RunTrailerPart(s: State, ts: seq<TrailerLine>, endCrs: nat)
    requires s.phase == TrailersLineHead
    requires forall i :: 0 <= i < |ts| ==> ValidTrailer(ts[i])
    ensures var part := PrintTrailers(ts) + (Crs(endCrs) + [LF]);
            Run(s, part) == Outcome(Complete, s, |part|, [])
  {
    hide Run;
    RunTrailers(s, ts);
    RunCrs(s, endCrs);
    RunOne(s, LF);
    RunConcat(s, Crs(endCrs), [LF]);
    RunConcat(s, PrintTrailers(ts), Crs(endCrs) + [LF]);
  }

  /** Every body of the grammar, whatever follows it, is decoded to exactly its data, and exactly its bytes
      are consumed. */
  lemma BodyIsDecoded(consumeTrailer: bool, b: Body, rest: seq<byte>)
    requires ValidBody(b)
    ensures var r := Run(Initial(consumeTrailer), PrintBody(consumeTrailer, b) + rest);
            && r.verdict == Complete
            && r.used == |PrintBody(consumeTrailer, b)|
            && r.out == ChunkData(b.chunks)
  {
    hide Run;
    var init := Initial(consumeTrailer);
    var last := PrintSizeLine(b.lastDigits, b.lastExt);
    var tail := if consumeTrailer then PrintTrailers(b.trailers) + (Crs(b.endCrs) + [LF]) else [];
    RunChunks(consumeTrailer, b.chunks);
    RunSizeLine(consumeTrailer, b.lastDigits, b.lastExt);
    if consumeTrailer {
      RunTrailerPart(State(TrailersLineHead, 0, 0, true), b.trailers, b.endCrs);
    }
    RunConcat(init, last, tail);
    RunConcat(init, PrintChunks(b.chunks), last + tail);
    RunConcat(init, PrintBody(consumeTrailer, b), rest);
  }

  // ---- Only bodies are accepted ----

  lemma CompletedStep(s: State, input: seq<byte>)
    requires Run(s, input).verdict == Complete
    ensures input != [] && Step(s, input[0]) != Reject
    ensures Step(s, input[0]).Continue? ==> Run(Step(s, input[0]).next, input[1..]).verdict == Complete
  {
  }

  /** A completed run stays completed when the input is looked at in two parts. */
  lemma CompletedRest(s: State, a: seq<byte>, b: seq<byte>)
    requires Run(s, a + b).verdict == Complete && Run(s, a).verdict == Incomplete
    ensures Run(Run(s, a).state, b).verdict == Complete
  {
    RunConcat(s, a, b);
  }

  lemma {:induction false} SplitAtLineFeed(s: State, input: seq<byte>) returns (line: seq<byte>, rest: seq<byte>)
    requires s.phase == ChunkExt || s.phase == TrailersLineMiddle
    requires Run(s, input).verdict == Complete
    ensures NoByte(line, LF) && input == line + [LF] + rest
    decreases |input|
  {
    if input[0] == LF {
      line, rest := [], input[1..];
    } else {
      line, rest := SplitAtLineFeed(s, input[1..]);
      line := [input[0]] + line;
    }
  }

  lemma {:induction false} SplitAfterCrs(s: State, input: seq<byte>) returns (n: nat, rest: seq<byte>)
    requires s.phase == ChunkCrlf || s.phase == TrailersLineHead
    requires Run(s, input).verdict == Complete
    ensures input == Crs(n) + rest && rest != [] && rest[0] != CR
    decreases |input|
  {
    if input[0] == CR {
      n, rest := SplitAfterCrs(s, input[1..]);
      n := n + 1;
    } else {
      n, rest := 0, input;
    }
  }

  lemma {:induction false} SplitSizeLine(s: State, input: seq<byte>)
    returns (digits: seq<byte>, ext: seq<byte>, rest: seq<byte>)
    requires s.phase == ChunkSize && s.hexCount <= 16
    requires Run(s, input).verdict == Complete
    ensures AllHex(digits) && 1 <= s.hexCount + |digits| <= 16 && ValidExt(ext)
    ensures input == PrintSizeLine(digits, ext) + rest
    decreases |input|
  {
    hide Run, Step, IsHex;
    CompletedStep(s, input);
    var ch := input[0];
    SizeStep(s, ch);
    if IsHex(ch) {
      digits, ext, rest := SplitSizeLine(Step(s, ch).next, input[1..]);
      digits := [ch] + digits;
    } else if ch == LF {
      digits, ext, rest := [], [], input[1..];
    } else {
      ext, rest := SplitAtLineFeed(Step(s, ch).next, input[1..]);
      digits, ext := [], [ch] + ext;
    }
    assert input == [ch] + input[1..];
  }

  lemma SizeStep(s: State, ch: byte)
    requires s.phase == ChunkSize && s.hexCount <= 16 && Step(s, ch) != Reject
    ensures IsHex(ch) ==> Step(s, ch).Continue? && Step(s, ch).next.phase == ChunkSize
    ensures IsHex(ch) ==> Step(s, ch).next.hexCount == s.hexCount + 1 <= 16
    ensures !IsHex(ch) ==> s.hexCount > 0 && ch in {SP, HT, SEMICOLON, CR, LF}
    ensures !IsHex(ch) && ch != LF ==> Step(s, ch).Continue? && Step(s, ch).next.phase == ChunkExt
  {
    hide DecodeHex, IsHex;
    DecodesHex(ch);
  }

  /** A completed run that starts at a chunk with data starts with a whole chunk. */
  lemma SplitChunk(consumeTrailer: bool, digits: seq<byte>, ext: seq<byte>, afterLine: seq<byte>)
    returns (c: Chunk, rest: seq<byte>)
    requires ValidSize(digits) && ValidExt(ext) && HexValue(digits) > 0
    requires Run(State(Phase.ChunkData, HexValue(digits), 0, consumeTrailer), afterLine).verdict == Complete
    ensures ValidChunk(c) && PrintSizeLine(digits, ext) + afterLine == PrintChunk(c) + rest
  {
    hide Run, HexValue, IsHex;
    var n := HexValue(digits);
    var inData, inCrlf := State(Phase.ChunkData, n, 0, consumeTrailer), State(ChunkCrlf, 0, 0, consumeTrailer);
    if |afterLine| < n {
      RunData(inData, afterLine);
      assert false;
    }
    var data, tail := afterLine[..n], afterLine[n..];
    assert afterLine == data + tail;
    RunData(inData, data);
    CompletedRest(inData, data, tail);
    var crs, fromLf := SplitAfterCrs(inCrlf, tail);
    RunCrs(inCrlf, crs);
    CompletedRest(inCrlf, Crs(crs), fromLf);
    CompletedStep(inCrlf, fromLf);
    c, rest := Chunk(digits, ext, data, crs), fromLf[1..];
    RejoinChunk(c, rest);
    assert tail == Crs(crs) + ([LF] + rest);
  }

  lemma RejoinChunk(c: Chunk, rest: seq<byte>)
    ensures PrintChunk(c) + rest == PrintSizeLine(c.digits, c.ext) + (c.data + (Crs(c.crs) + ([LF] + rest)))
  {
  }

  lemma {:induction false} SplitTrailers(s: State, input: seq<byte>)
    returns (ts: seq<TrailerLine>, endCrs: nat, rest: seq<byte>)
    requires s.phase == TrailersLineHead
    requires Run(s, input).verdict == Complete
    ensures forall i :: 0 <= i < |ts| ==> ValidTrailer(ts[i])
    ensures input == PrintTrailers(ts) + (Crs(endCrs) + [LF]) + rest
    decreases |input|
  {
    hide Run, Crs;
    var crs, line := SplitAfterCrs(s, input);
    RunCrs(s, crs);
    CompletedRest(s, Crs(crs), line);
    CompletedStep(s, line);
    assert line == [line[0]] + line[1..];
    if line[0] == LF {
      ts, endCrs, rest := [], crs, line[1..];
    } else {
      var text, afterLine := SplitAtLineFeed(s.(phase := TrailersLineMiddle), line[1..]);
      var t := TrailerLine(crs, line[0], text);
      RejoinTrailer(t, afterLine);
      RunTrailer(s, t);
      CompletedRest(s, PrintTrailer(t), afterLine);
      ts, endCrs, rest := SplitTrailers(s, afterLine);
      RejoinTrailers(t, ts, Crs(endCrs) + [LF], rest);
      ts := [t] + ts;
    }
  }

  lemma RejoinTrailer(t: TrailerLine, rest: seq<byte>)
    ensures PrintTrailer(t) + rest == Crs(t.crs) + ([t.head] + (t.rest + [LF] + rest))
  {
  }

  lemma RejoinTrailers(t: TrailerLine, ts: seq<TrailerLine>, end: seq<byte>, rest: seq<byte>)
    ensures PrintTrailers([t] + ts) + end + rest == PrintTrailer(t) + (PrintTrailers(ts) + end + rest)
  {
    assert ([t] + ts)[1..] == ts;
  }

  /** Whatever the decoder accepts is a body of the grammar. */
  lemma {:induction false} AcceptedIsBody(consumeTrailer: bool, input: seq<byte>) returns (b: Body, rest: seq<byte>)
    requires Run(Initial(consumeTrailer), input).verdict == Complete
    ensures ValidBody(b) && input == PrintBody(consumeTrailer, b) + rest
    decreases |input|
  {
    hide Run, HexValue;
    var init := Initial(consumeTrailer);
    var digits, ext, afterLine := SplitSizeLine(init, input);
    RunSizeLine(consumeTrailer, digits, ext);
    if HexValue(digits) > 0 {
      CompletedRest(init, PrintSizeLine(digits, ext), afterLine);
      var c, tail := SplitChunk(consumeTrailer, digits, ext, afterLine);
      RunChunk(consumeTrailer, c);
      CompletedRest(init, PrintChunk(c), tail);
      b, rest := AcceptedIsBody(consumeTrailer, tail);
      RejoinBody(consumeTrailer, c, b, rest);
      b := b.(chunks := [c] + b.chunks);
    } else if consumeTrailer {
      CompletedRest(init, PrintSizeLine(digits, ext), afterLine);
      var ts, endCrs, tail := SplitTrailers(State(TrailersLineHead, 0, 0, true), afterLine);
      b, rest := Body([], digits, ext, ts, endCrs), tail;
    } else {
      b, rest := Body([], digits, ext, [], 0), afterLine;
    }
  }

  lemma RejoinBody(consumeTrailer: bool, c: Chunk, b: Body, rest: seq<byte>)
    ensures PrintBody(consumeTrailer, b.(chunks := [c] + b.chunks)) + rest ==
            PrintChunk(c) + (PrintBody(consumeTrailer, b) + rest)
  {
    assert ([c] + b.chunks)[1..] == b.chunks;
  }

  ghost predicate BeginsWithBody(consumeTrailer: bool, input: seq<byte>) {
    exists b :: ValidBody(b) && PrintBody(consumeTrailer, b) <= input
  }

  /** The decoder completes on exactly the inputs that start with a body of the grammar. */
  lemma AcceptsExactlyBodies(consumeTrailer: bool, input: seq<byte>)
    ensures Run(Initial(consumeTrailer), input).verdict == Complete <==> BeginsWithBody(consumeTrailer, input)
  {
    hide Run, ValidBody, PrintBody;
    if Run(Initial(consumeTrailer), input).verdict == Complete {
      var b, rest := AcceptedIsBody(consumeTrailer, input);
      assert PrintBody(consumeTrailer, b) <= input;
    }
    if b :| ValidBody(b) && PrintBody(consumeTrailer, b) <= input {
      BodyIsDecoded(consumeTrailer, b, input[|PrintBody(consumeTrailer, b)|..]);
      assert input == PrintBody(consumeTrailer, b) + input[|PrintBody(consumeTrailer, b)|..];
    }
  }

  // ---- When it refuses ----

  /** Some bytes may follow after which there is a body. */
  ghost predicate MayBecomeBody(consumeTrailer: bool, input: seq<byte>) {
    exists stream :: input <= stream && BeginsWithBody(consumeTrailer, stream)
  }

  /** One way to end a body from a line feed on. */
  function Ending(s: State): seq<byte>
    requires WellFormed(s)
  {
    match s.phase
    case ChunkSize => if s.hexCount == 0 then [48, LF, LF] else [LF] + DataEnding(s.bytesLeft)
    case ChunkExt => [LF] + DataEnding(s.bytesLeft)
    case ChunkData => DataEnding(s.bytesLeft)
    case ChunkCrlf => [LF, 48, LF, LF]
    case TrailersLineHead => [LF]
    case TrailersLineMiddle => [LF, LF]
  }

  function DataEnding(n: nat): seq<byte> {
    if n == 0 then [LF] else seq(n, _ => 0) + [LF, 48, LF, LF]
  }

  lemma RunFirst(s: State, ch: byte, rest: seq<byte>)
    ensures Step(s, ch).Continue? ==> Run(s, [ch] + rest).verdict == Run(Step(s, ch).next, rest).verdict
    ensures Step(s, ch).Finish? ==> Run(s, [ch] + rest).verdict == Complete
  {
    assert ([ch] + rest)[1..] == rest;
  }

  lemma EndsTrailers(s: State)
    requires s.phase == TrailersLineHead
    ensures Run(s, [LF]).verdict == Complete
  {
    RunOne(s, LF);
  }

  /** From the last chunk's size on. */
  lemma EndsBody(s: State)
    requires s.phase == ChunkSize && s.hexCount == 0 && s.bytesLeft == 0
    ensures Run(s, [48, LF, LF]).verdict == Complete
  {
    hide Run;
    var zero := s.(hexCount := 1);
    assert Step(s, 48) == Continue(zero, []);
    RunFirst(s, 48, [LF, LF]);
    RunFirst(zero, LF, [LF]);
    if s.consumeTrailer {
      EndsTrailers(State(TrailersLineHead, 0, 0, true));
    }
    assert [48] + [LF, LF] == [48, LF, LF] && [LF] + [LF] == [LF, LF];
  }

  lemma EndsCrlf(s: State)
    requires s.phase == ChunkCrlf && WellFormed(s)
    ensures Run(s, [LF, 48, LF, LF]).verdict == Complete
  {
    hide Run;
    RunFirst(s, LF, [48, LF, LF]);
    EndsBody(s.(phase := ChunkSize));
    assert [LF] + [48, LF, LF] == [LF, 48, LF, LF];
  }

  lemma EndsData(s: State)
    requires s.phase == Phase.ChunkData && WellFormed(s)
    ensures Run(s, DataEnding(s.bytesLeft)).verdict == Complete
  {
    hide Run;
    var data: seq<byte> := seq(s.bytesLeft, _ => 0);
    RunData(s, data);
    EndsCrlf(AfterData(s, |data|));
    RunConcat(s, data, [LF, 48, LF, LF]);
  }

  /** From the line feed of a size line on. */
  lemma EndsSizeLine(s: State)
    requires WellFormed(s) && (s.phase == ChunkExt || (s.phase == ChunkSize && s.hexCount > 0))
    ensures Run(s, [LF] + DataEnding(s.bytesLeft)).verdict == Complete
  {
    hide Run;
    RunFirst(s, LF, DataEnding(s.bytesLeft));
    if s.bytesLeft > 0 {
      EndsData(s.(phase := Phase.ChunkData, hexCount := 0));
    } else if s.consumeTrailer {
      EndsTrailers(s.(phase := TrailersLineHead, hexCount := 0));
    }
  }

  /** No reachable state is a dead end. */
  lemma EndingCompletes(s: State)
    requires WellFormed(s)
    ensures Run(s, Ending(s)).verdict == Complete
  {
    hide Run, DataEnding;
    match s.phase
    case ChunkSize =>
      assert s.hexCount == 0 ==> s.bytesLeft < Pow16(0) == 1;
      if s.hexCount == 0 { EndsBody(s); } else { EndsSizeLine(s); }
    case ChunkExt => EndsSizeLine(s);
    case ChunkData => EndsData(s);
    case ChunkCrlf => EndsCrlf(s);
    case TrailersLineHead => EndsTrailers(s);
    case TrailersLineMiddle =>
      RunFirst(s, LF, [LF]);
      EndsTrailers(s.(phase := TrailersLineHead));
      assert [LF] + [LF] == [LF, LF];
  }

  /** The decoder refuses exactly what no bytes could complete to a body, and asks for more exactly when some could. */
  lemma RefusesExactly(consumeTrailer: bool, input: seq<byte>)
    ensures Run(Initial(consumeTrailer), input).verdict == Failed <==> !MayBecomeBody(consumeTrailer, input)
    ensures Run(Initial(consumeTrailer), input).verdict == Incomplete <==>
            MayBecomeBody(consumeTrailer, input) && !BeginsWithBody(consumeTrailer, input)
  {
    hide Run, BeginsWithBody, Ending;
    var init := Initial(consumeTrailer);
    var r := Run(init, input);
    AcceptsExactlyBodies(consumeTrailer, input);
    assert WellFormed(init) by { assert Pow16(0) == 1; }
    RunKeepsWellFormed(init, input);
    if r.verdict == Incomplete {
      EndingCompletes(r.state);
      RunConcat(init, input, Ending(r.state));
      AcceptsExactlyBodies(consumeTrailer, input + Ending(r.state));
      assert MayBecomeBody(consumeTrailer, input);
    }
    if MayBecomeBody(consumeTrailer, input) {
      var stream :| input <= stream && BeginsWithBody(consumeTrailer, stream);
      AcceptsExactlyBodies(consumeTrailer, stream);
      assert stream == input + stream[|input|..];
      RunConcat(init, input, stream[|input|..]);
    }
    if r.verdict == Complete {
      assert input <= input;
    }
  }

  // ---- The protocol's own grammar ----

  /** A chunk of section 4.1 of RFC 7230; `ext` is empty or starts with a semicolon. */
  datatype RfcChunk = RfcChunk(digits: seq<byte>, ext: seq<byte>, data: seq<byte>)

  /** Trailer fields are non-empty lines. */
  datatype RfcBody = RfcBody(chunks: seq<RfcChunk>, lastDigits: seq<byte>, lastExt: seq<byte>, trailers: seq<seq<byte>>)

  ghost predicate RfcLine(line: seq<byte>) {
    NoByte(line, LF) && NoByte(line, CR)
  }

  ghost predicate ValidRfcExt(ext: seq<byte>) {
    RfcLine(ext) && (ext == [] || ext[0] == SEMICOLON)
  }

  ghost predicate ValidRfcChunk(c: RfcChunk) {
    ValidSize(c.digits) && ValidRfcExt(c.ext) && HexValue(c.digits) == |c.data| > 0
  }

  ghost predicate ValidRfcBody(b: RfcBody) {
    && (forall i :: 0 <= i < |b.chunks| ==> ValidRfcChunk(b.chunks[i]))
    && ValidSize(b.lastDigits) && HexValue(b.lastDigits) == 0 && ValidRfcExt(b.lastExt)
    && (forall i :: 0 <= i < |b.trailers| ==> b.trailers[i] != [] && RfcLine(b.trailers[i]))
  }

  function PrintRfcChunks(cs: seq<RfcChunk>): seq<byte> {
    if cs == [] then [] else cs[0].digits + cs[0].ext + CRLF + cs[0].data + CRLF + PrintRfcChunks(cs[1..])
  }

  function RfcData(cs: seq<RfcChunk>): seq<byte> {
    if cs == [] then [] else cs[0].data + RfcData(cs[1..])
  }

  function PrintRfcTrailers(ts: seq<seq<byte>>): seq<byte> {
    if ts == [] then [] else ts[0] + CRLF + PrintRfcTrailers(ts[1..])
  }

  /** chunked-body without its trailer-part and final CRLF. */
  function PrintRfcThroughLastChunk(b: RfcBody): seq<byte> {
    PrintRfcChunks(b.chunks) + (b.lastDigits + b.lastExt + CRLF)
  }

  /** chunked-body = *chunk last-chunk trailer-part CRLF */
  function PrintRfcBody(b: RfcBody): seq<byte> {
    PrintRfcThroughLastChunk(b) + (PrintRfcTrailers(b.trailers) + CRLF)
  }

  function LenientChunks(cs: seq<RfcChunk>): (r: seq<Chunk>) {
    if cs == [] then [] else [Chunk(cs[0].digits, cs[0].ext + [CR], cs[0].data, 1)] + LenientChunks(cs[1..])
  }

  function LenientTrailers(ts: seq<seq<byte>>): (r: seq<TrailerLine>)
    requires forall i :: 0 <= i < |ts| ==> ts[i] != []
  {
    if ts == [] then [] else [TrailerLine(0, ts[0][0], ts[0][1..] + [CR])] + LenientTrailers(ts[1..])
  }

  lemma {:induction false} LenientChunksAgree(cs: seq<RfcChunk>)
    requires forall i :: 0 <= i < |cs| ==> ValidRfcChunk(cs[i])
    ensures forall i :: 0 <= i < |LenientChunks(cs)| ==> ValidChunk(LenientChunks(cs)[i])
    ensures PrintChunks(LenientChunks(cs)) == PrintRfcChunks(cs) && ChunkData(LenientChunks(cs)) == RfcData(cs)
    decreases |cs|
  {
    hide HexValue, AllHex;
    if cs != [] {
      LenientChunksAgree(cs[1..]);
      var c := Chunk(cs[0].digits, cs[0].ext + [CR], cs[0].data, 1);
      assert LenientChunks(cs)[1..] == LenientChunks(cs[1..]);
      assert Crs(1) == [CR];
      assert PrintChunk(c) == cs[0].digits + cs[0].ext + CRLF + cs[0].data + CRLF;
    }
  }

  lemma {:induction false} LenientTrailersAgree(ts: seq<seq<byte>>)
    requires forall i :: 0 <= i < |ts| ==> ts[i] != [] && RfcLine(ts[i])
    ensures forall i :: 0 <= i < |LenientTrailers(ts)| ==> ValidTrailer(LenientTrailers(ts)[i])
    ensures PrintTrailers(LenientTrailers(ts)) == PrintRfcTrailers(ts)
    decreases |ts|
  {
    if ts != [] {
      LenientTrailersAgree(ts[1..]);
      var t := TrailerLine(0, ts[0][0], ts[0][1..] + [CR]);
      assert LenientTrailers(ts)[1..] == LenientTrailers(ts[1..]);
      assert PrintTrailer(t) == ts[0] + CRLF;
    }
  }

  function Lenient(b: RfcBody): Body
    requires forall i :: 0 <= i < |b.trailers| ==> b.trailers[i] != []
  {
    Body(LenientChunks(b.chunks), b.lastDigits, b.lastExt + [CR], LenientTrailers(b.trailers), 1)
  }

  lemma LenientAgrees(b: RfcBody)
    requires ValidRfcBody(b)
    ensures ValidBody(Lenient(b)) && ChunkData(Lenient(b).chunks) == RfcData(b.chunks)
    ensures PrintBody(true, Lenient(b)) == PrintRfcBody(b)
    ensures PrintBody(false, Lenient(b)) == PrintRfcThroughLastChunk(b)
    ensures PrintRfcBody(b) == PrintRfcThroughLastChunk(b) + (PrintRfcTrailers(b.trailers) + CRLF)
  {
    hide HexValue, AllHex;
    LenientChunksAgree(b.chunks);
    LenientTrailersAgree(b.trailers);
    LenientExt(b.lastExt);
    hide LenientChunks, LenientTrailers, PrintRfcTrailers, PrintTrailers, PrintRfcChunks, PrintChunks;
    assert PrintSizeLine(b.lastDigits, b.lastExt + [CR]) == b.lastDigits + b.lastExt + CRLF;
    assert Crs(1) + [LF] == CRLF;
    hide Crs, PrintSizeLine, ValidChunk, ValidTrailer;
    Regroup(PrintRfcChunks(b.chunks), b.lastDigits + b.lastExt + CRLF, PrintRfcTrailers(b.trailers) + CRLF);
  }

  lemma Regroup(a: seq<byte>, b: seq<byte>, c: seq<byte>)
    ensures a + (b + c) == a + b + c && b + [] == b
  {
  }

  lemma LenientExt(ext: seq<byte>)
    requires ValidRfcExt(ext)
    ensures ValidExt(ext + [CR])
  {
  }

  /** Every chunked body of section 4.1 of RFC 7230 with sizes of at most 16 digits is decoded to its data.
      With consume_trailer all of it is consumed, without it the decoder stops right after the last-chunk line. */
  lemma RfcBodyIsDecoded(consumeTrailer: bool, b: RfcBody, rest: seq<byte>)
    requires ValidRfcBody(b)
    ensures var r := Run(Initial(consumeTrailer), PrintRfcBody(b) + rest);
            && r.verdict == Complete
            && r.out == RfcData(b.chunks)
            && r.used == |if consumeTrailer then PrintRfcBody(b) else PrintRfcThroughLastChunk(b)|
  {
    hide Run, Lenient, PrintBody, PrintRfcThroughLastChunk, ValidBody, HexValue, AllHex;
    LenientAgrees(b);
    var tail := PrintRfcTrailers(b.trailers) + CRLF;
    assert PrintRfcBody(b) + rest == PrintRfcThroughLastChunk(b) + (tail + rest);
    BodyIsDecoded(consumeTrailer, Lenient(b), if consumeTrailer then rest else tail + rest);
  }
}
