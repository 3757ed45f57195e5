/** The chunked transfer decoder as a pure automaton that reads one byte at a time
    (section 4.1 of RFC 7230), and what holds of every run of it. */
module ChunkedAutomaton {
  import opened Bytes

  datatype Phase =
    | ChunkSize
    | ChunkExt
    | ChunkData
    | ChunkCrlf
    | TrailersLineHead
    | TrailersLineMiddle

  /** The part of the decoder that decides what the next byte means. */
  datatype State = State(phase: Phase, bytesLeft: nat, hexCount: nat, consumeTrailer: bool)

  const MAX_HEX_DIGITS: nat := 16  // sizeof(size_t) * 2

  /** A zero-filled decoder, with the caller's choice of consume_trailer. */
  function Initial(consumeTrailer: bool): State {
    State(ChunkSize, 0, 0, consumeTrailer)
  }

  datatype StepResult =
    | Continue(next: State, emit: seq<byte>)
    | Finish(next: State)
    | Reject

  /** The value of a hex digit of either case, or -1. */
  function DecodeHex(ch: byte): (v: int)
    ensures -1 <= v < 16
  {
    if 48 <= ch <= 57 then ch - 48
    else if 65 <= ch <= 70 then ch - 65 + 10
    else if 97 <= ch <= 102 then ch - 97 + 10
    else -1
  }

  /** The bytes that may follow the chunk size. */
  predicate EndsSize(ch: byte) {
    ch == SP || ch == HT || ch == SEMICOLON || ch == LF || ch == CR
  }

  /** The line feed that ends a chunk-size line has been read. */
  function EndOfSizeLine(s: State): StepResult {
    if s.bytesLeft == 0 then
      if s.consumeTrailer then Continue(s.(phase := TrailersLineHead, hexCount := 0), [])
      else Finish(s.(phase := ChunkExt, hexCount := 0))
    else
      Continue(s.(phase := ChunkData, hexCount := 0), [])
  }

  function Step(s: State, ch: byte): StepResult {
    match s.phase
    case ChunkSize =>
      var v := DecodeHex(ch);
      if v == -1 then
        if s.hexCount == 0 || !EndsSize(ch) then Reject
        else if ch == LF then EndOfSizeLine(s)
        else Continue(s.(phase := ChunkExt, hexCount := 0), [])
      else if s.hexCount == MAX_HEX_DIGITS then Reject
      else Continue(s.(bytesLeft := (s.bytesLeft * 16 + v) % TWO_64, hexCount := s.hexCount + 1), [])
    case ChunkExt =>
      if ch == LF then EndOfSizeLine(s) else Continue(s, [])
    case ChunkData =>
      if s.bytesLeft <= 1 then Continue(s.(phase := ChunkCrlf, bytesLeft := 0), [ch])
      else Continue(s.(bytesLeft := s.bytesLeft - 1), [ch])
    case ChunkCrlf =>
      if ch == CR then Continue(s, [])
      else if ch == LF then Continue(s.(phase := ChunkSize), [])
      else Reject
    case TrailersLineHead =>
      if ch == CR then Continue(s, [])
      else if ch == LF then Finish(s)
      else Continue(s.(phase := TrailersLineMiddle), [])
    case TrailersLineMiddle =>
      if ch == LF then Continue(s.(phase := TrailersLineHead), []) else Continue(s, [])
  }

  datatype Verdict = Incomplete | Complete | Failed

  /** `used` bytes were consumed and `out` was decoded before the verdict fell. */
  datatype Outcome = Outcome(verdict: Verdict, state: State, used: nat, out: seq<byte>)

  function Run(s: State, input: seq<byte>): (r: Outcome)
    ensures r.used <= |input|
    ensures r.verdict == Incomplete ==> r.used == |input|
    ensures |r.out| <= r.used
    ensures r.state.consumeTrailer == s.consumeTrailer
    decreases |input|
  {
    if input == [] then Outcome(Incomplete, s, 0, [])
    else
      match Step(s, input[0])
      case Reject => Outcome(Failed, s, 0, [])
      case Finish(next) => Outcome(Complete, next, 1, [])
      case Continue(next, emit) => Prefixed(1, emit, Run(next, input[1..]))
  }

  /** The outcome `r` of the rest of the input, seen from `n` bytes earlier. */
  function Prefixed(n: nat, emitted: seq<byte>, r: Outcome): Outcome {
    r.(used := n + r.used, out := emitted + r.out)
  }

  lemma PrefixedTwice(n1: nat, o1: seq<byte>, n2: nat, o2: seq<byte>, r: Outcome)
    ensures Prefixed(n1, o1, Prefixed(n2, o2, r)) == Prefixed(n1 + n2, o1 + o2, r)
  {
    assert o1 + (o2 + r.out) == o1 + o2 + r.out;
  }

  // ---- Fragmentation ----

  /** Decoding `a` and then `b` is decoding `a + b`: after an incomplete `a` the verdict, the state and the
      concatenated output agree; a verdict reached inside `a` stands, with |b| more bytes left over. */
  lemma {:induction false} RunConcat(s: State, a: seq<byte>, b: seq<byte>)
    ensures var ra := Run(s, a);
            Run(s, a + b) ==
              if ra.verdict == Incomplete then Prefixed(|a|, ra.out, Run(ra.state, b)) else ra
    decreases |a|
  {
    if a == [] {
      assert a + b == b;
      assert Run(s, b).out == [] + Run(s, b).out;
    } else {
      assert (a + b)[1..] == a[1..] + b;
      match Step(s, a[0])
      case Reject =>
      case Finish(_) =>
      case Continue(next, emit) =>
        RunConcat(next, a[1..], b);
        var rest := Run(next, a[1..]);
        PrefixedTwice(1, emit, |a| - 1, rest.out, Run(rest.state, b));
    }
  }

  /** Calls that hand the automaton one fragment after the other, stopping at the first verdict. */
  function RunFragments(s: State, fragments: seq<seq<byte>>): (r: Outcome)
    decreases |fragments|
  {
    if fragments == [] then Outcome(Incomplete, s, 0, [])
    else
      var first := Run(s, fragments[0]);
      if first.verdict != Incomplete then first
      else Prefixed(first.used, first.out, RunFragments(first.state, fragments[1..]))
  }

  /** However the stream is cut into fragments, the outcome is that of the whole stream. */
  lemma {:induction false} FragmentationIndependence(s: State, fragments: seq<seq<byte>>)
    ensures RunFragments(s, fragments) == Run(s, Flatten(fragments))
    decreases |fragments|
  {
    if fragments != [] {
      var first := Run(s, fragments[0]);
      RunConcat(s, fragments[0], Flatten(fragments[1..]));
      FragmentationIndependence(first.state, fragments[1..]);
    }
  }

  // ---- Hex digits ----

  const HEX_LOWER: seq<byte> := Ascii("0123456789abcdef")
  const HEX_UPPER: seq<byte> := Ascii("0123456789ABCDEF")

  /** The first place of `x` in a sequence. */
  function Place<T(==)>(s: seq<T>, x: T): (i: nat)
    requires x in s
    ensures i < |s| && s[i] == x && x !in s[..i]
  {
    if s[0] == x then 0 else 1 + Place(s[1..], x)
  }

  /** A hex digit of either case. */
  predicate IsHex(ch: byte) {
    ch in HEX_LOWER || ch in HEX_UPPER
  }

  /** Its value: its place in the row of digits of its case. */
  function HexOf(ch: byte): nat
    requires IsHex(ch)
  {
    if ch in HEX_LOWER then Place(HEX_LOWER, ch) else Place(HEX_UPPER, ch)
  }

  lemma HexRows()
    ensures |HEX_LOWER| == 16 == |HEX_UPPER|
    ensures forall v :: 0 <= v < 16 ==>
              HEX_LOWER[v] == (if v < 10 then 48 + v else 87 + v) && HEX_UPPER[v] == if v < 10 then 48 + v else 55 + v
  {
    assert HEX_LOWER == [48, 49, 50, 51, 52, 53, 54, 55, 56, 57, 97, 98, 99, 100, 101, 102];
    assert HEX_UPPER == [48, 49, 50, 51, 52, 53, 54, 55, 56, 57, 65, 66, 67, 68, 69, 70];
  }

  /** The decoder's value of a byte is `v` if and only if the byte is the v-th digit of either case, and -1 for every
      other byte. */
  lemma DecodeHexExactly(ch: byte)
    ensures |HEX_LOWER| == 16 == |HEX_UPPER|
    ensures forall v :: 0 <= v < 16 ==> (DecodeHex(ch) == v <==> ch == HEX_LOWER[v] || ch == HEX_UPPER[v])
    ensures DecodeHex(ch) == -1 <==> ch !in HEX_LOWER && ch !in HEX_UPPER
  {
    HexRows();
    hide Ascii;
    if ch in HEX_LOWER {
      var i :| 0 <= i < 16 && HEX_LOWER[i] == ch;
    }
    if ch in HEX_UPPER {
      var i :| 0 <= i < 16 && HEX_UPPER[i] == ch;
    }
    if DecodeHex(ch) != -1 {
      assert HEX_LOWER[DecodeHex(ch)] == ch || HEX_UPPER[DecodeHex(ch)] == ch;
    }
  }

  lemma DecodesHex(ch: byte)
    ensures IsHex(ch) <==> DecodeHex(ch) != -1
    ensures IsHex(ch) ==> DecodeHex(ch) == HexOf(ch)
  {
    DecodeHexExactly(ch);
  }

  // ---- Arithmetic ----

  function Pow16(n: nat): (p: nat)
    ensures p > 0
  {
    if n == 0 then 1 else 16 * Pow16(n - 1)
  }

  lemma {:induction false} Pow16Monotone(m: nat, n: nat)
    requires m <= n
    ensures Pow16(m) <= Pow16(n)
    decreases n
  {
    if m < n {
      Pow16Monotone(m, n - 1);
    }
  }

  lemma Pow16Max()
    ensures Pow16(16) == TWO_64
  {
    assert Pow16(4) == 0x1_0000;
    assert Pow16(8) == 0x1_0000_0000;
    assert Pow16(12) == 0x1_0000_0000_0000;
  }

  /** What every reachable decoder state satisfies. */
  predicate WellFormed(s: State) {
    && s.bytesLeft < TWO_64
    && (s.phase == ChunkSize ==> s.hexCount <= 16 && s.bytesLeft < Pow16(s.hexCount))
    && (s.phase != ChunkSize ==> s.hexCount == 0)
    && (s.phase == ChunkData ==> s.bytesLeft > 0)
    && (s.phase in {ChunkCrlf, TrailersLineHead, TrailersLineMiddle} ==> s.bytesLeft == 0)
  }

  /** Reading one more size digit never wraps around 64 bits. */
  lemma SizeNeverWraps(s: State, ch: byte)
    requires WellFormed(s) && s.phase == ChunkSize && IsHex(ch) && s.hexCount < 16
    ensures s.bytesLeft * 16 + HexOf(ch) < Pow16(s.hexCount + 1) <= TWO_64
    ensures Step(s, ch) == Continue(s.(bytesLeft := s.bytesLeft * 16 + HexOf(ch), hexCount := s.hexCount + 1), [])
  {
    DecodesHex(ch);
    hide DecodeHex, HexOf, IsHex;
    assert s.bytesLeft * 16 + 16 <= Pow16(s.hexCount) * 16;
    Pow16Monotone(s.hexCount + 1, MAX_HEX_DIGITS);
    Pow16Max();
  }

  lemma StepKeepsWellFormed(s: State, ch: byte)
    requires WellFormed(s)
    ensures Step(s, ch).Continue? ==> WellFormed(Step(s, ch).next)
    ensures Step(s, ch).Finish? ==> WellFormed(Step(s, ch).next)
  {
    DecodesHex(ch);
    hide DecodeHex, HexOf, IsHex;
    if s.phase == ChunkSize && IsHex(ch) && s.hexCount < MAX_HEX_DIGITS {
      SizeNeverWraps(s, ch);
    }
    assert Pow16(0) == 1;
  }

  /** Every state of every run is well formed, so no run ever wraps a chunk size. */
  lemma {:induction false} RunKeepsWellFormed(s: State, input: seq<byte>)
    requires WellFormed(s)
    ensures WellFormed(Run(s, input).state)
    decreases |input|
  {
    if input != [] {
      StepKeepsWellFormed(s, input[0]);
      if Step(s, input[0]).Continue? {
        RunKeepsWellFormed(Step(s, input[0]).next, input[1..]);
      }
    }
  }

  /** The state after `n` more bytes of chunk data. */
  function AfterData(s: State, n: nat): State
    requires n <= s.bytesLeft
  {
    if n < s.bytesLeft then s.(bytesLeft := s.bytesLeft - n) else s.(phase := ChunkCrlf, bytesLeft := 0)
  }

  /** Chunk data is passed on as it is, up to the announced length. */
  lemma {:induction false} RunData(s: State, data: seq<byte>)
    requires s.phase == ChunkData && 0 < s.bytesLeft && |data| <= s.bytesLeft
    ensures Run(s, data) == Outcome(Incomplete, AfterData(s, |data|), |data|, data)
    decreases |data|
  {
    if data != [] {
      assert [data[0]] + data[1..] == data;
      if s.bytesLeft > 1 {
        RunData(s.(bytesLeft := s.bytesLeft - 1), data[1..]);
      }
    }
  }

  /** The number written by a sequence of hex digits. */
  function HexValue(digits: seq<byte>): nat {
    if digits == [] then 0
    else
      var last := digits[|digits| - 1];
      16 * HexValue(digits[..|digits| - 1]) + (if IsHex(last) then HexOf(last) else 0)
  }

  ghost predicate AllHex(digits: seq<byte>) {
    forall i :: 0 <= i < |digits| ==> IsHex(digits[i])
  }

  /** After up to 16 hex digits the decoder holds exactly the number they write. */
  lemma {:induction false} RunDigits(consumeTrailer: bool, digits: seq<byte>)
    requires AllHex(digits) && |digits| <= 16
    ensures var s := State(ChunkSize, HexValue(digits), |digits|, consumeTrailer);
            WellFormed(s) && Run(Initial(consumeTrailer), digits) == Outcome(Incomplete, s, |digits|, [])
  {
    hide DecodeHex, IsHex, HexOf;
    if digits != [] {
      var front, last := digits[..|digits| - 1], digits[|digits| - 1];
      RunDigits(consumeTrailer, front);
      assert digits == front + [last];
      RunConcat(Initial(consumeTrailer), front, [last]);
      SizeNeverWraps(State(ChunkSize, HexValue(front), |front|, consumeTrailer), last);
    }
  }
}
