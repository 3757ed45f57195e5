/** The in-place, resumable chunked decoder: loops over a caller's buffer that refine the automaton,
    and the overhead guard evaluated at the end of every call. */
module ChunkedDecoder {
  import opened Bytes
  import opened ChunkedAutomaton

  const RET_ERROR: int := -1
  const RET_INCOMPLETE: int := -2

  const MIN_GUARDED_OVERHEAD: nat := 100 * 1024

  /** All fields of the decoder as a value. */
  datatype Snapshot = Snapshot(state: State, totalRead: nat, totalOverhead: nat)

  /** A zero-filled decoder, with the caller's choice of consume_trailer. */
  function Zeroed(consumeTrailer: bool): Snapshot {
    Snapshot(Initial(consumeTrailer), 0, 0)
  }

  /** The overhead is at least 100 KB, and less than a quarter of the bytes read was decoded (in 64-bit arithmetic). The
      source's comment says more than 80%; it is more than 75%. */
  predicate TooMuchOverhead(totalRead: nat, totalOverhead: nat) {
    totalOverhead >= MIN_GUARDED_OVERHEAD && (totalRead - totalOverhead) % TWO_64 < totalRead / 4
  }

  /** What one call returns: `ret` (the number of undecoded bytes, -1 or -2), the decoded bytes, the bytes
      that follow them in the buffer, and the new decoder. */
  datatype CallResult = CallResult(ret: int, out: seq<byte>, undecoded: seq<byte>, decoder: Snapshot)

  /** One call of the decoder on the bytes `input`. */
  function Call(d: Snapshot, input: seq<byte>): (c: CallResult) {
    var r := Run(d.state, input);
    var totalRead := (d.totalRead + |input|) % TWO_64;
    var undecoded := input[r.used..];
    match r.verdict
    case Complete => CallResult(|undecoded|, r.out, undecoded, Snapshot(r.state, totalRead, d.totalOverhead))
    case Failed => CallResult(RET_ERROR, r.out, undecoded, Snapshot(r.state, totalRead, d.totalOverhead))
    case Incomplete =>
      var totalOverhead := (d.totalOverhead + (|input| - |r.out|)) % TWO_64;
      var ret := if TooMuchOverhead(totalRead, totalOverhead) then RET_ERROR else RET_INCOMPLETE;
      CallResult(ret, r.out, undecoded, Snapshot(r.state, totalRead, totalOverhead))
  }

  /** After `src` bytes of `input` the decoder is in state `cur` and has written `out`. */
  ghost predicate Tracks(start: State, input: seq<byte>, cur: State, src: nat, out: seq<byte>) {
    && src <= |input|
    && |out| <= src
    && WellFormed(cur)
    && Run(start, input) == Prefixed(src, out, Run(cur, input[src..]))
  }

  lemma TrackStep(start: State, input: seq<byte>, cur: State, src: nat, out: seq<byte>)
    requires Tracks(start, input, cur, src, out) && src < |input|
    ensures match Step(cur, input[src])
            case Continue(next, emit) => Tracks(start, input, next, src + 1, out + emit)
            case Finish(next) => WellFormed(next) && Run(start, input) == Outcome(Complete, next, src + 1, out)
            case Reject => Run(start, input) == Outcome(Failed, cur, src, out)
  {
    hide Run, Step, WellFormed, Prefixed;
    var rest := input[src..];
    assert rest[0] == input[src] && rest[1..] == input[src + 1..];
    StepKeepsWellFormed(cur, input[src]);
    RunStep(cur, rest);
    match Step(cur, input[src]) {
      case Continue(next, emit) => PrefixedTwice(src, out, 1, emit, Run(next, rest[1..]));
      case Finish(next) => PrefixedEnd(src, out, Outcome(Complete, next, 1, []));
      case Reject => PrefixedEnd(src, out, Outcome(Failed, cur, 0, []));
    }
  }

  lemma PrefixedEnd(n: nat, emitted: seq<byte>, r: Outcome)
    requires r.out == []
    ensures Prefixed(n, emitted, r) == Outcome(r.verdict, r.state, n + r.used, emitted)
  {
    assert emitted + [] == emitted;
  }

  lemma RunStep(s: State, input: seq<byte>)
    requires input != []
    ensures Run(s, input) == match Step(s, input[0])
                             case Reject => Outcome(Failed, s, 0, [])
                             case Finish(next) => Outcome(Complete, next, 1, [])
                             case Continue(next, emit) => Prefixed(1, emit, Run(next, input[1..]))
    ensures Step(s, input[0]).Continue? ==> |Step(s, input[0]).emit| <= 1
  {
  }

  lemma TrackEnd(start: State, input: seq<byte>, cur: State, out: seq<byte>)
    requires Tracks(start, input, cur, |input|, out)
    ensures Run(start, input) == Outcome(Incomplete, cur, |input|, out)
  {
    assert input[|input|..] == [];
    assert out + [] == out;
  }

  /** The last byte of the chunk size is read: the delimiter is looked at again as part of the extension. */
  lemma TrackEndOfSize(start: State, input: seq<byte>, cur: State, src: nat, out: seq<byte>)
    requires Tracks(start, input, cur, src, out) && src < |input|
    requires cur.phase == ChunkSize && cur.hexCount > 0 && EndsSize(input[src])
    ensures Tracks(start, input, cur.(phase := ChunkExt, hexCount := 0), src, out)
  {
    assert Step(cur, input[src]) == Step(cur.(phase := ChunkExt, hexCount := 0), input[src]);
  }

  /** Chunk data is copied in one go. */
  lemma TrackData(start: State, input: seq<byte>, cur: State, src: nat, out: seq<byte>, n: nat)
    requires Tracks(start, input, cur, src, out) && src + n <= |input|
    requires cur.phase == ChunkData && n <= cur.bytesLeft
    ensures Tracks(start, input, AfterData(cur, n), src + n, out + input[src..src + n])
  {
    hide Run;
    var data, rest := input[src..src + n], input[src + n..];
    assert input[src..] == data + rest;
    RunData(cur, data);
    RunConcat(cur, data, rest);
    PrefixedTwice(src, out, n, data, Run(AfterData(cur, n), rest));
  }

  /** buf[src..end] is moved up to `dst`, unless it is there already. */
  method MoveUp(buf: array<byte>, dst: nat, src: nat, end: nat)
    requires dst <= src <= end <= buf.Length
    modifies buf
    ensures buf[..dst + (end - src)] == old(buf[..dst]) + old(buf[src..end])
    ensures forall i :: end <= i < buf.Length ==> buf[i] == old(buf[i])
  {
    if dst != src {
      MemMove(buf, dst, src, end - src);
    }
    assert buf[..dst] == old(buf[..dst]);
    assert buf[..dst + (end - src)] == buf[..dst] + buf[dst..dst + (end - src)];
  }

  /** The bytes from `src` on have not been overwritten yet. */
  ghost predicate Untouched(buf: array<byte>, input: seq<byte>, src: nat)
    reads buf
  {
    |input| <= buf.Length && forall i :: src <= i < |input| ==> buf[i] == input[i]
  }

  /** `n` bytes of the input are moved up behind what was decoded. */
  method MoveData(buf: array<byte>, dst: nat, start: nat, n: nat, ghost input: seq<byte>)
    requires dst <= start && start + n <= |input| && Untouched(buf, input, start)
    modifies buf
    ensures buf[..dst + n] == old(buf[..dst]) + input[start..start + n]
    ensures Untouched(buf, input, start + n)
    ensures forall i :: |input| <= i < buf.Length ==> buf[i] == old(buf[i])
  {
    assert buf[start..start + n] == input[start..start + n];
    MoveUp(buf, dst, start, start + n);
  }

  class Decoder {
    var bytesLeftInChunk: nat
    var consumeTrailer: bool
    var hexCount: nat
    var phase: Phase
    var totalRead: nat
    var totalOverhead: nat

    function Core(): State
      reads this
    {
      State(phase, bytesLeftInChunk, hexCount, consumeTrailer)
    }

    function Fields(): Snapshot
      reads this
    {
      Snapshot(Core(), totalRead, totalOverhead)
    }

    constructor (consumeTrailer: bool)
      ensures Fields() == Zeroed(consumeTrailer)
    {
      bytesLeftInChunk, hexCount, phase := 0, 0, ChunkSize;
      this.consumeTrailer := consumeTrailer;
      totalRead, totalOverhead := 0, 0;
    }

    /** case CHUNKED_IN_CHUNK_SIZE */
    method ScanSize(buf: array<byte>, bufsz: nat, start: nat,
                    ghost s0: State, ghost input: seq<byte>, ghost out: seq<byte>)
      returns (src: nat, done: bool, verdict: Verdict)
      requires start <= bufsz <= buf.Length && bufsz == |input| && Untouched(buf, input, start)
      requires Tracks(s0, input, Core(), start, out) && phase == ChunkSize
      modifies this`bytesLeftInChunk, this`hexCount, this`phase
      ensures start <= src <= bufsz
      ensures done ==> Run(s0, input) == Outcome(verdict, Core(), src, out) && verdict != Complete
      ensures !done ==> Tracks(s0, input, Core(), src, out) && phase == ChunkExt
    {
      hide Run, WellFormed;
      src, done, verdict := start, false, Incomplete;
      while true
        invariant start <= src <= bufsz
        invariant phase == ChunkSize && Tracks(s0, input, Core(), src, out)
        invariant consumeTrailer == old(consumeTrailer)
        decreases bufsz - src
      {
        if src == bufsz {
          TrackEnd(s0, input, Core(), out);
          return src, true, Incomplete;
        }
        var v := DecodeHex(buf[src]);
        if v == -1 {
          if hexCount == 0 || !EndsSize(buf[src]) {
            TrackStep(s0, input, Core(), src, out);
            return src, true, Failed;
          }
          break;
        }
        TrackStep(s0, input, Core(), src, out);
        if hexCount == MAX_HEX_DIGITS {
          return src, true, Failed;
        }
        assert out + [] == out;
        bytesLeftInChunk := (bytesLeftInChunk * 16 + v) % TWO_64;
        hexCount := hexCount + 1;
        src := src + 1;
      }
      TrackEndOfSize(s0, input, Core(), src, out);
      hexCount := 0;
      phase := ChunkExt;
    }

    /** case CHUNKED_IN_CHUNK_EXT */
    method ScanExt(buf: array<byte>, bufsz: nat, start: nat,
                   ghost s0: State, ghost input: seq<byte>, ghost out: seq<byte>)
      returns (src: nat, done: bool, verdict: Verdict)
      requires start <= bufsz <= buf.Length && bufsz == |input| && Untouched(buf, input, start)
      requires Tracks(s0, input, Core(), start, out) && phase == ChunkExt
      modifies this`phase
      ensures start <= src <= bufsz
      ensures done ==> Run(s0, input) == Outcome(verdict, Core(), src, out)
      ensures !done ==> Tracks(s0, input, Core(), src, out) && start < src && phase in {TrailersLineHead, ChunkData}
    {
      hide Run;
      src, done, verdict := start, false, Incomplete;
      while true
        invariant start <= src <= bufsz
        invariant phase == ChunkExt && Tracks(s0, input, Core(), src, out)
        invariant consumeTrailer == old(consumeTrailer)
        decreases bufsz - src
      {
        if src == bufsz {
          TrackEnd(s0, input, Core(), out);
          return src, true, Incomplete;
        }
        TrackStep(s0, input, Core(), src, out);
        assert out + [] == out;
        if buf[src] == LF {
          break;
        }
        src := src + 1;
      }
      src := src + 1;
      if bytesLeftInChunk == 0 {
        if consumeTrailer {
          phase := TrailersLineHead;
          return;
        } else {
          return src, true, Complete;
        }
      }
      phase := ChunkData;
    }

    /** case CHUNKED_IN_CHUNK_DATA: the only case that writes to the buffer */
    method CopyData(buf: array<byte>, bufsz: nat, dst0: nat, start: nat,
                    ghost s0: State, ghost input: seq<byte>)
      returns (dst: nat, src: nat, done: bool)
      requires dst0 <= start <= bufsz <= buf.Length && bufsz == |input| && Untouched(buf, input, start)
      requires Tracks(s0, input, Core(), start, buf[..dst0]) && phase == ChunkData
      modifies this`bytesLeftInChunk, this`phase, buf
      ensures dst <= src <= bufsz && start <= src
      ensures Untouched(buf, input, src)
      ensures forall i :: bufsz <= i < buf.Length ==> buf[i] == old(buf[i])
      ensures done ==> Run(s0, input) == Outcome(Incomplete, Core(), src, buf[..dst])
      ensures !done ==> Tracks(s0, input, Core(), src, buf[..dst]) && phase == ChunkCrlf
    {
      hide Run, WellFormed, Tracks, Untouched;
      ghost var out, cur := buf[..dst0], Core();
      var avail := bufsz - start;
      if avail < bytesLeftInChunk {
        TrackData(s0, input, cur, start, out, avail);
        MoveData(buf, dst0, start, avail, input);
        bytesLeftInChunk := bytesLeftInChunk - avail;
        TrackEnd(s0, input, Core(), buf[..dst0 + avail]);
        return dst0 + avail, start + avail, true;
      }
      TrackData(s0, input, cur, start, out, bytesLeftInChunk);
      MoveData(buf, dst0, start, bytesLeftInChunk, input);
      dst, src, done := dst0 + bytesLeftInChunk, start + bytesLeftInChunk, false;
      bytesLeftInChunk := 0;
      phase := ChunkCrlf;
    }

    /** case CHUNKED_IN_CHUNK_CRLF */
    method ScanCrlf(buf: array<byte>, bufsz: nat, start: nat,
                    ghost s0: State, ghost input: seq<byte>, ghost out: seq<byte>)
      returns (src: nat, done: bool, verdict: Verdict)
      requires start <= bufsz <= buf.Length && bufsz == |input| && Untouched(buf, input, start)
      requires Tracks(s0, input, Core(), start, out) && phase == ChunkCrlf
      modifies this`phase
      ensures start <= src <= bufsz
      ensures done ==> Run(s0, input) == Outcome(verdict, Core(), src, out) && verdict != Complete
      ensures !done ==> Tracks(s0, input, Core(), src, out) && start < src
    {
      hide Run;
      src, done, verdict := start, false, Incomplete;
      while true
        invariant start <= src <= bufsz
        invariant phase == ChunkCrlf && Tracks(s0, input, Core(), src, out)
        invariant consumeTrailer == old(consumeTrailer)
        decreases bufsz - src
      {
        if src == bufsz {
          TrackEnd(s0, input, Core(), out);
          return src, true, Incomplete;
        }
        TrackStep(s0, input, Core(), src, out);
        assert out + [] == out;
        if buf[src] != CR {
          break;
        }
        src := src + 1;
      }
      if buf[src] != LF {
        return src, true, Failed;
      }
      src := src + 1;
      phase := ChunkSize;
    }

    /** case CHUNKED_IN_TRAILERS_LINE_HEAD */
    method ScanTrailerHead(buf: array<byte>, bufsz: nat, start: nat,
                           ghost s0: State, ghost input: seq<byte>, ghost out: seq<byte>)
      returns (src: nat, done: bool, verdict: Verdict)
      requires start <= bufsz <= buf.Length && bufsz == |input| && Untouched(buf, input, start)
      requires Tracks(s0, input, Core(), start, out) && phase == TrailersLineHead
      modifies this`phase
      ensures start <= src <= bufsz
      ensures done ==> Run(s0, input) == Outcome(verdict, Core(), src, out)
      ensures !done ==> Tracks(s0, input, Core(), src, out) && start < src && phase == TrailersLineMiddle
    {
      hide Run;
      src, done, verdict := start, false, Incomplete;
      while true
        invariant start <= src <= bufsz
        invariant phase == TrailersLineHead && Tracks(s0, input, Core(), src, out)
        invariant consumeTrailer == old(consumeTrailer)
        decreases bufsz - src
      {
        if src == bufsz {
          TrackEnd(s0, input, Core(), out);
          return src, true, Incomplete;
        }
        TrackStep(s0, input, Core(), src, out);
        assert out + [] == out;
        if buf[src] != CR {
          break;
        }
        src := src + 1;
      }
      src := src + 1;
      if buf[src - 1] == LF {
        return src, true, Complete;
      }
      phase := TrailersLineMiddle;
    }

    /** case CHUNKED_IN_TRAILERS_LINE_MIDDLE */
    method ScanTrailerMiddle(buf: array<byte>, bufsz: nat, start: nat,
                             ghost s0: State, ghost input: seq<byte>, ghost out: seq<byte>)
      returns (src: nat, done: bool, verdict: Verdict)
      requires start <= bufsz <= buf.Length && bufsz == |input| && Untouched(buf, input, start)
      requires Tracks(s0, input, Core(), start, out) && phase == TrailersLineMiddle
      modifies this`phase
      ensures start <= src <= bufsz
      ensures done ==> Run(s0, input) == Outcome(verdict, Core(), src, out)
      ensures !done ==> Tracks(s0, input, Core(), src, out) && start < src
    {
      hide Run;
      src, done, verdict := start, false, Incomplete;
      while true
        invariant start <= src <= bufsz
        invariant phase == TrailersLineMiddle && Tracks(s0, input, Core(), src, out)
        invariant consumeTrailer == old(consumeTrailer)
        decreases bufsz - src
      {
        if src == bufsz {
          TrackEnd(s0, input, Core(), out);
          return src, true, Incomplete;
        }
        TrackStep(s0, input, Core(), src, out);
        assert out + [] == out;
        if buf[src] == LF {
          break;
        }
        src := src + 1;
      }
      src := src + 1;
      phase := TrailersLineHead;
    }

    /** The switch with its fall-throughs, up to the next break or jump to Exit or Complete. A pass that does not end
        the call consumes at least one byte. */
    method DecodePhases(buf: array<byte>, bufsz: nat, dst0: nat, src0: nat, ghost s0: State, ghost input: seq<byte>)
      returns (dst: nat, src: nat, done: bool, verdict: Verdict)
      requires dst0 <= src0 <= bufsz <= buf.Length && |input| == bufsz && Untouched(buf, input, src0)
      requires Tracks(s0, input, Core(), src0, buf[..dst0])
      modifies this`bytesLeftInChunk, this`hexCount, this`phase, buf
      ensures dst <= src <= bufsz && Untouched(buf, input, src) && (done || src > src0)
      ensures forall i :: bufsz <= i < buf.Length ==> buf[i] == old(buf[i])
      ensures done ==> Run(s0, input) == Outcome(verdict, Core(), src, buf[..dst])
      ensures !done ==> Tracks(s0, input, Core(), src, buf[..dst])
    {
      hide Run, Tracks;
      dst, src, done, verdict := dst0, src0, false, Incomplete;
      if phase in {ChunkSize, ChunkExt, ChunkData, ChunkCrlf} {
        if phase == ChunkSize {
          src, done, verdict := ScanSize(buf, bufsz, src, s0, input, buf[..dst]);
        }
        if !done && phase == ChunkExt {
          src, done, verdict := ScanExt(buf, bufsz, src, s0, input, buf[..dst]);
        }
        if !done && phase == ChunkData {
          dst, src, done := CopyData(buf, bufsz, dst, src, s0, input);
          verdict := Incomplete;
        }
        if !done && phase == ChunkCrlf {
          src, done, verdict := ScanCrlf(buf, bufsz, src, s0, input, buf[..dst]);
        }
      } else {
        if phase == TrailersLineHead {
          src, done, verdict := ScanTrailerHead(buf, bufsz, src, s0, input, buf[..dst]);
        }
        if !done {
          src, done, verdict := ScanTrailerMiddle(buf, bufsz, src, s0, input, buf[..dst]);
        }
      }
    }

    /** The loop around the switch: decodes buf[..bufsz] in place until the input ends or a verdict falls. */
    method DecodeLoop(buf: array<byte>, bufsz: nat) returns (dst: nat, src: nat, verdict: Verdict)
      requires bufsz <= buf.Length && WellFormed(Core())
      modifies this`bytesLeftInChunk, this`hexCount, this`phase, buf
      ensures dst <= src <= bufsz
      ensures Run(old(Core()), old(buf[..bufsz])) == Outcome(verdict, Core(), src, buf[..dst])
      ensures forall i :: src <= i < buf.Length ==> buf[i] == old(buf[i])
    {
      ghost var s0, input := Core(), buf[..bufsz];
      assert Tracks(s0, input, Core(), 0, []);
      hide Run, Tracks;
      var done := false;
      dst, src, verdict := 0, 0, Incomplete;
      assert buf[..0] == [];
      while !done
        invariant dst <= src <= bufsz && Untouched(buf, input, src)
        invariant forall i :: bufsz <= i < buf.Length ==> buf[i] == old(buf[i])
        invariant done ==> Run(s0, input) == Outcome(verdict, Core(), src, buf[..dst])
        invariant !done ==> Tracks(s0, input, Core(), src, buf[..dst])
        decreases bufsz - src, !done
      {
        dst, src, done, verdict := DecodePhases(buf, bufsz, dst, src, s0, input);
      }
    }

    /** The loop, and the move of what it has not decoded. */
    method DecodeAndMove(buf: array<byte>, bufsz: nat) returns (verdict: Verdict, decoded: nat, left: nat)
      requires bufsz <= buf.Length && WellFormed(Core())
      modifies this`bytesLeftInChunk, this`hexCount, this`phase, buf
      ensures var r := Run(old(Core()), old(buf[..bufsz]));
              && verdict == r.verdict && Core() == r.state && decoded == |r.out| && left == bufsz - r.used
              && decoded + left <= bufsz && buf[..decoded + left] == r.out + old(buf[..bufsz])[r.used..]
      ensures forall i :: bufsz <= i < buf.Length ==> buf[i] == old(buf[i])
    {
      ghost var input := buf[..bufsz];
      hide Run, WellFormed;
      var dst, src;
      dst, src, verdict := DecodeLoop(buf, bufsz);
      assert buf[src..bufsz] == input[src..];
      MoveUp(buf, dst, src, bufsz);
      decoded, left := dst, bufsz - src;
    }

    /** phr_decode_chunked: buf[..bufsz] is replaced by the decoded bytes, followed by the undecoded ones. */
    method DecodeChunked(buf: array<byte>, bufsz: nat) returns (ret: int, decoded: nat)
      requires bufsz <= buf.Length && WellFormed(Core())
      modifies this, buf
      ensures var c := Call(old(Fields()), old(buf[..bufsz]));
              && ret == c.ret && Fields() == c.decoder
              && decoded == |c.out| && decoded + |c.undecoded| <= bufsz
              && buf[..decoded + |c.undecoded|] == c.out + c.undecoded
      ensures WellFormed(Core()) && forall i :: bufsz <= i < buf.Length ==> buf[i] == old(buf[i])
    {
      ghost var input := buf[..bufsz];
      RunKeepsWellFormed(Core(), input);
      hide Run, WellFormed, TooMuchOverhead;
      totalRead := (totalRead + bufsz) % TWO_64;
      var verdict, left;
      verdict, decoded, left := DecodeAndMove(buf, bufsz);
      ret := match verdict
        case Complete => left
        case Failed => RET_ERROR
        case Incomplete => RET_INCOMPLETE;
      if ret == RET_INCOMPLETE {
        totalOverhead := (totalOverhead + (bufsz - decoded)) % TWO_64;
        if TooMuchOverhead(totalRead, totalOverhead) {
          ret := RET_ERROR;
        }
      }
    }
  }
}
