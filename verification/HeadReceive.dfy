/** Receiving a head piece by piece, as OnRecvHead does: parse what is there, and remember how much was there. */
module HeadReceive {
  import opened Bytes
  import opened HeadSpec
  import HeadFinality
  import HeadLocality
  import HeadWindow

  type RequestHead = Head<RequestLine>

  /** Nothing before the last byte of the head is answered with anything but -2, whatever was remembered. */
  lemma BeforeTheEnd(stream: seq<byte>, k: nat, lastLen: nat, maxHeaders: nat)
    requires ParseRequest(stream, maxHeaders).Ok? && k < ParseRequest(stream, maxHeaders).pos && InBounds(k, lastLen)
    ensures ParseRequest(stream[..k], maxHeaders).Partial?
    ensures ScanComplete(stream[..k], 0, 0).Partial?
    ensures PhrParseRequest(stream[..k], maxHeaders, lastLen).Partial?
  {
    hide ParseRequest, ScanComplete;
    var buf := stream[..k];
    assert stream == buf + stream[k..];
    HeadFinality.RequestFinal(buf, stream[k..], maxHeaders);
    HeadWindow.ParsedHeadEndsAtBlankLine(stream, maxHeaders);
    HeadFinality.ScanFinal(buf, stream[k..], 0, 0);
    HeadWindow.ScanOfRest(buf, 0, if lastLen < 3 then 0 else lastLen - 3, 0);
  }

  /** From the last byte of the head on, the answer is the one-shot parse if and only if what was remembered is not
      longer than the head, or the window that it leaves holds a blank line all the same. */
  lemma FromTheEnd(stream: seq<byte>, k: nat, lastLen: nat, maxHeaders: nat)
    requires ParseRequest(stream, maxHeaders).Ok? && ParseRequest(stream, maxHeaders).pos <= k <= |stream|
    ensures ParseRequest(stream[..k], maxHeaders) == ParseRequest(stream, maxHeaders)
    ensures PhrParseRequest(stream[..k], maxHeaders, lastLen) == ParseRequest(stream, maxHeaders) <==>
            lastLen <= ParseRequest(stream, maxHeaders).pos || IsComplete(stream[..k], lastLen).Ok?
  {
    hide ParseRequest, ScanComplete;
    var buf, pret := stream[..k], ParseRequest(stream, maxHeaders).pos;
    assert stream == buf + stream[k..];
    HeadLocality.RequestLocal(buf, stream[k..], maxHeaders);
    HeadWindow.ParsedHeadEndsAtBlankLine(buf, maxHeaders);
    if lastLen < pret {
      BeforeTheEnd(buf, lastLen, lastLen, maxHeaders);
      HeadWindow.WindowIsSound(buf, lastLen);
    } else if lastLen == pret {
      LongEnough(stream, maxHeaders);
      HeadWindow.BlankLineFrom(buf, 0, 0, pret);
    }
  }

  lemma LongEnough(buf: seq<byte>, maxHeaders: nat)
    requires ParseRequest(buf, maxHeaders).Ok?
    ensures ParseRequest(buf, maxHeaders).pos > 3
  {
  }

  /** The calls' outcome: how many answered -2, and the first other answer if there was one. */
  datatype Received = Received(partials: nat, answer: Parse<RequestHead>)

  /** One call for every length received so far; `prevBufLen` is what the connection remembers. */
  function Receive(stream: seq<byte>, lengths: seq<nat>, prevBufLen: nat, maxHeaders: nat): (r: Received)
    requires forall i :: 0 <= i < |lengths| ==> lengths[i] <= |stream|
    ensures r.partials <= |lengths|
    decreases |lengths|
  {
    if lengths == [] then Received(0, Partial)
    else
      var answer := PhrParseRequest(stream[..lengths[0]], maxHeaders, prevBufLen);
      if answer.Partial? then
        var rest := Receive(stream, lengths[1..], lengths[0], maxHeaders);
        rest.(partials := rest.partials + 1)
      else Received(0, answer)
  }

  /** A schedule of received lengths. */
  ghost predicate Schedule(lengths: seq<nat>, from: nat, limit: nat) {
    && (forall i :: 0 <= i < |lengths| ==> from <= lengths[i] <= limit)
    && (forall i, j :: 0 <= i < j < |lengths| ==> lengths[i] <= lengths[j])
  }

  /** Every answer is right: -2 until the last byte of the head is there, then the one-shot answer with the same method,
      path, version and headers. */
  ghost predicate Right(r: Received, stream: seq<byte>, lengths: seq<nat>, maxHeaders: nat)
    requires ParseRequest(stream, maxHeaders).Ok? && r.partials <= |lengths|
  {
    && (forall i :: 0 <= i < r.partials ==> lengths[i] < ParseRequest(stream, maxHeaders).pos)
    && (r.partials < |lengths| ==>
          lengths[r.partials] >= ParseRequest(stream, maxHeaders).pos && r.answer == ParseRequest(stream, maxHeaders))
  }

  /** However a head arrives, with nothing remembered but a part of it: every answer is right. */
  lemma {:induction false} ReceiveHead(stream: seq<byte>, lengths: seq<nat>, prevBufLen: nat, maxHeaders: nat)
    requires ParseRequest(stream, maxHeaders).Ok? && prevBufLen < ParseRequest(stream, maxHeaders).pos
    requires Schedule(lengths, prevBufLen, |stream|)
    ensures Right(Receive(stream, lengths, prevBufLen, maxHeaders), stream, lengths, maxHeaders)
    decreases |lengths|
  {
    hide ParseRequest, PhrParseRequest;
    if lengths != [] {
      var pret, len := ParseRequest(stream, maxHeaders).pos, lengths[0];
      if len < pret {
        BeforeTheEnd(stream, len, prevBufLen, maxHeaders);
        ReceiveHead(stream, lengths[1..], len, maxHeaders);
      } else {
        FromTheEnd(stream, len, prevBufLen, maxHeaders);
      }
    }
  }

  /** The same, when the first call finds `p` bytes remembered, of an earlier request, say. `mem` is the receive
      buffer then, with the first bytes of the stream at its front. */
  function ReceiveIn(mem: seq<byte>, stream: seq<byte>, lengths: seq<nat>, p: nat, maxHeaders: nat): (r: Received)
    requires lengths != [] && forall i :: 0 <= i < |lengths| ==> lengths[i] <= |stream|
    requires lengths[0] <= |mem|
    ensures r.partials <= |lengths|
  {
    var answer := RequestIn(mem, lengths[0], maxHeaders, p);
    if answer.Partial? then
      var rest := Receive(stream, lengths[1..], lengths[0], maxHeaders);
      rest.(partials := rest.partials + 1)
    else Received(0, answer)
  }

  /** The receive buffer begins with the first `n` bytes of the stream. */
  predicate Holds(mem: seq<byte>, stream: seq<byte>, n: nat) {
    n <= |mem| && n <= |stream| && mem[..n] == stream[..n]
  }

  /** What makes a leftover of `p` bytes harmless for a request of which `n` bytes arrive first: the scan starts among
      these, and they do not complete the head, or no more than the head is remembered, or the window that is left
      holds a blank line all the same; or the scan starts behind them, and finds a blank line there, such as that of
      an earlier head. */
  predicate Harmless(mem: seq<byte>, pret: nat, p: nat, n: nat)
    requires n <= |mem|
  {
    if InBounds(n, p) then n < pret || p <= pret || IsComplete(mem[..n], p).Ok? else ScanComplete(mem, p - 3, 0).Ok?
  }

  /** A call whose scan starts among the bytes received does not see the others. */
  lemma InWindow(mem: seq<byte>, n: nat, p: nat, maxHeaders: nat)
    requires n <= |mem| && InBounds(n, p)
    ensures RequestIn(mem, n, maxHeaders, p) == PhrParseRequest(mem[..n], maxHeaders, p)
  {
  }

  /** One call: it stays inside the receive buffer and answers with the one-shot parse of what has been received if
      and only if what is remembered is harmless. */
  lemma AnswerExactly(mem: seq<byte>, stream: seq<byte>, n: nat, p: nat, maxHeaders: nat)
    requires ParseRequest(stream, maxHeaders).Ok? && Holds(mem, stream, n)
    ensures Readable(mem, n, p) && RequestIn(mem, n, maxHeaders, p) == ParseRequest(stream[..n], maxHeaders) <==>
            Harmless(mem, ParseRequest(stream, maxHeaders).pos, p, n)
    ensures n < ParseRequest(stream, maxHeaders).pos ==> ParseRequest(stream[..n], maxHeaders).Partial?
    ensures n >= ParseRequest(stream, maxHeaders).pos ==>
              ParseRequest(stream[..n], maxHeaders) == ParseRequest(stream, maxHeaders)
  {
    hide ParseRequest, PhrParseRequest, ScanComplete;
    if n < ParseRequest(stream, maxHeaders).pos {
      BeforeTheEnd(stream, n, 0, maxHeaders);
      if InBounds(n, p) {
        InWindow(mem, n, p, maxHeaders);
        BeforeTheEnd(stream, n, p, maxHeaders);
      }
    } else {
      FromTheEnd(stream, n, p, maxHeaders);
      if InBounds(n, p) {
        InWindow(mem, n, p, maxHeaders);
      }
    }
  }

  /** What is parsed of a part of the stream is what is parsed of the whole, and the head is there. */
  lemma FromPrefix(stream: seq<byte>, n: nat, maxHeaders: nat)
    requires n <= |stream| && ParseRequest(stream[..n], maxHeaders).Ok?
    ensures ParseRequest(stream, maxHeaders) == ParseRequest(stream[..n], maxHeaders)
    ensures ParseRequest(stream, maxHeaders).pos <= n
  {
    hide ParseRequest;
    assert stream == stream[..n] + stream[n..];
    HeadFinality.RequestFinal(stream[..n], stream[n..], maxHeaders);
  }

  /** A connection that still remembers `p` bytes: the code stays inside its receive buffer and every answer is right if
      and only if the leftover is harmless. */
  lemma LeftoverExactly(mem: seq<byte>, stream: seq<byte>, lengths: seq<nat>, p: nat, maxHeaders: nat)
    requires ParseRequest(stream, maxHeaders).Ok? && lengths != [] && Schedule(lengths, 1, |stream|)
    requires Holds(mem, stream, lengths[0])
    ensures Readable(mem, lengths[0], p) &&
            Right(ReceiveIn(mem, stream, lengths, p, maxHeaders), stream, lengths, maxHeaders) <==>
            Harmless(mem, ParseRequest(stream, maxHeaders).pos, p, lengths[0])
  {
    hide ParseRequest, RequestIn, IsComplete, Readable, Harmless;
    var pret, n := ParseRequest(stream, maxHeaders).pos, lengths[0];
    AnswerExactly(mem, stream, n, p, maxHeaders);
    var r := ReceiveIn(mem, stream, lengths, p, maxHeaders);
    if n < pret {
      ReceiveHead(stream, lengths[1..], n, maxHeaders);
      assert r.partials > 0 ==> lengths[0] < pret;
    } else {
      assert r.partials == 0 || lengths[0] >= pret;
    }
  }

  /** An accepted head is always the one-shot parse of all that has arrived. */
  lemma {:induction false} AcceptedIsParsed(stream: seq<byte>, lengths: seq<nat>, prevBufLen: nat, maxHeaders: nat)
    requires forall i :: 0 <= i < |lengths| ==> lengths[i] <= |stream|
    requires Receive(stream, lengths, prevBufLen, maxHeaders).answer.Ok?
    ensures Receive(stream, lengths, prevBufLen, maxHeaders).answer == ParseRequest(stream, maxHeaders)
    decreases |lengths|
  {
    hide ParseRequest;
    var buf := stream[..lengths[0]];
    if PhrParseRequest(buf, maxHeaders, prevBufLen).Partial? {
      AcceptedIsParsed(stream, lengths[1..], lengths[0], maxHeaders);
    } else {
      assert stream == buf + stream[lengths[0]..];
      HeadFinality.RequestFinal(buf, stream[lengths[0]..], maxHeaders);
    }
  }

  /** On arbitrary bytes: a connection that starts with nothing remembered accepts, over any schedule that ends
      with the whole stream, exactly when the one-shot parse of the stream accepts, and with the same fields. */
  lemma AcceptsExactlyParsable(stream: seq<byte>, lengths: seq<nat>, maxHeaders: nat)
    requires lengths != [] && Schedule(lengths, 0, |stream|) && lengths[|lengths| - 1] == |stream|
    ensures var answer := Receive(stream, lengths, 0, maxHeaders).answer;
            && (answer.Ok? <==> ParseRequest(stream, maxHeaders).Ok?)
            && (answer.Ok? ==> answer == ParseRequest(stream, maxHeaders))
  {
    hide ParseRequest, PhrParseRequest;
    var r := Receive(stream, lengths, 0, maxHeaders);
    if r.answer.Ok? {
      AcceptedIsParsed(stream, lengths, 0, maxHeaders);
    }
    if ParseRequest(stream, maxHeaders).Ok? {
      NonEmpty(stream, maxHeaders);
      ReceiveHead(stream, lengths, 0, maxHeaders);
      assert r.partials < |lengths|;
    }
  }

  /** The calls after one that has overlooked the whole head: they look no further back than three bytes before `z`. */
  lemma {:induction false} AfterOverlooking(stream: seq<byte>, lengths: seq<nat>, prev: nat, z: nat, maxHeaders: nat)
    requires ParseRequest(stream, maxHeaders).Ok? && ParseRequest(stream, maxHeaders).pos <= z <= prev <= |stream|
    requires Schedule(lengths, prev, |stream|) && z > 3
    requires lengths != [] ==> lengths[|lengths| - 1] == |stream|
    requires lengths == [] ==> prev == |stream|
    requires prev == z || ScanComplete(stream[..prev], z - 3, 0).Partial?
    ensures Receive(stream, lengths, prev, maxHeaders).answer.Ok? <==>
            lengths != [] && ScanComplete(stream, z - 3, 0).Ok?
    decreases |lengths|
  {
    hide ParseRequest, ScanComplete;
    assert stream[..|stream|] == stream;
    if lengths != [] {
      var n := lengths[0];
      SameWindow(stream, prev, z, n);
      assert stream == stream[..n] + stream[n..];
      HeadFinality.ScanFinal(stream[..n], stream[n..], z - 3, 0);
      FromTheEnd(stream, n, 0, maxHeaders);
      if ScanComplete(stream[..n], z - 3, 0).Partial? {
        AfterOverlooking(stream, lengths[1..], n, z, maxHeaders);
      }
    }
  }

  lemma SameWindow(stream: seq<byte>, prev: nat, z: nat, n: nat)
    requires 3 < z <= prev <= n <= |stream|
    requires prev == z || ScanComplete(stream[..prev], z - 3, 0).Partial?
    ensures IsComplete(stream[..n], prev) == ScanComplete(stream[..n], z - 3, 0)
  {
    if prev != z {
      assert stream[..n][..prev] == stream[..prev];
      HeadWindow.WindowFrom(stream[..n], prev, z - 3, 0);
    }
  }

  /** Any bytes, any schedule, and any leftover with which the code stays inside the buffer: accepted if and only if the
      one-shot parse accepts and the leftover is harmless, or a later blank line comes to the rescue. */
  lemma AcceptsExactlyWithLeftover(mem: seq<byte>, stream: seq<byte>, lengths: seq<nat>, p: nat, maxHeaders: nat)
    requires lengths != [] && Schedule(lengths, 1, |stream|) && lengths[|lengths| - 1] == |stream|
    requires Holds(mem, stream, lengths[0]) && Readable(mem, lengths[0], p)
    ensures ReceiveIn(mem, stream, lengths, p, maxHeaders).answer.Ok? <==>
            && ParseRequest(stream, maxHeaders).Ok?
            && (|| Harmless(mem, ParseRequest(stream, maxHeaders).pos, p, lengths[0])
                || (InBounds(lengths[0], p) && IsComplete(stream[..lengths[0]], p).Partial? && |lengths| > 1 &&
                    ScanComplete(stream, lengths[0] - 3, 0).Ok?))
    ensures ReceiveIn(mem, stream, lengths, p, maxHeaders).answer.Ok? ==>
              ReceiveIn(mem, stream, lengths, p, maxHeaders).answer == ParseRequest(stream, maxHeaders)
  {
    hide ParseRequest, ScanComplete, IsComplete, PhrParseRequest;
    var r, n := ReceiveIn(mem, stream, lengths, p, maxHeaders), lengths[0];
    if r.answer.Ok? {
      AcceptedInIsParsed(mem, stream, lengths, p, maxHeaders);
    }
    if ParseRequest(stream, maxHeaders).Ok? {
      var pret := ParseRequest(stream, maxHeaders).pos;
      LeftoverExactly(mem, stream, lengths, p, maxHeaders);
      if Harmless(mem, pret, p, n) {
        assert r.partials < |lengths|;
      } else if InBounds(n, p) {
        InWindow(mem, n, p, maxHeaders);
        LongEnough(stream, maxHeaders);
        Overlooked(stream, n, p, maxHeaders);
        if IsComplete(stream[..n], p).Partial? {
          AfterOverlooking(stream, lengths[1..], n, n, maxHeaders);
        }
      }
    }
  }

  /** The answer of a scan that finds no blank line. */
  lemma Overlooked(stream: seq<byte>, n: nat, p: nat, maxHeaders: nat)
    requires n <= |stream| && p > 0 && !IsComplete(stream[..n], p).Ok?
    ensures PhrParseRequest(stream[..n], maxHeaders, p) == if IsComplete(stream[..n], p).Bad? then Bad else Partial
  {
    hide IsComplete;
  }

  lemma AcceptedInIsParsed(mem: seq<byte>, stream: seq<byte>, lengths: seq<nat>, p: nat, maxHeaders: nat)
    requires lengths != [] && (forall i :: 0 <= i < |lengths| ==> lengths[i] <= |stream|)
    requires Holds(mem, stream, lengths[0]) && ReceiveIn(mem, stream, lengths, p, maxHeaders).answer.Ok?
    ensures ReceiveIn(mem, stream, lengths, p, maxHeaders).answer == ParseRequest(stream, maxHeaders)
  {
    hide ParseRequest, CompleteIn;
    var n := lengths[0];
    if RequestIn(mem, n, maxHeaders, p).Partial? {
      AcceptedIsParsed(stream, lengths[1..], n, maxHeaders);
    } else {
      assert stream == stream[..n] + stream[n..];
      HeadFinality.RequestFinal(stream[..n], stream[n..], maxHeaders);
    }
  }

  lemma NonEmpty(buf: seq<byte>, maxHeaders: nat)
    requires ParseRequest(buf, maxHeaders).Ok?
    ensures ParseRequest(buf, maxHeaders).pos > 0
  {
  }

  // ---- What the shortcut does not promise ----

  /** "GET / H" and two line feeds: the scan finds the end of a head, but the parser wants nine bytes of version
      before it looks at any. */
  const SHORT_VERSION: seq<byte> := [71, 69, 84, 32, 47, 32, 72, 10, 10]

  lemma CompleteIsNotParsable(maxHeaders: nat)
    ensures IsComplete(SHORT_VERSION, 1) == Ok(9, ())
    ensures PhrParseRequest(SHORT_VERSION, maxHeaders, 1) == Partial
  {
    var b := SHORT_VERSION;
    assert ScanComplete(b, 8, 1) == Ok(9, ());
    assert ScanComplete(b, 7, 0) == Ok(9, ());
    assert ScanComplete(b, 4, 0) == ScanComplete(b, 5, 0) == ScanComplete(b, 6, 0) == Ok(9, ());
    assert ScanComplete(b, 2, 0) == ScanComplete(b, 3, 0) == ScanComplete(b, 4, 0);
    assert ScanComplete(b, 0, 0) == ScanComplete(b, 1, 0) == ScanComplete(b, 2, 0);
    assert ScanToken(b, 2, SP) == ScanToken(b, 3, SP) == Ok(3, ());
    assert ScanToken(b, 0, SP) == ScanToken(b, 1, SP) == Ok(3, ());
    assert SkipSpaces(b, 4) == Ok(4, ());
    assert ScanPath(b, 4) == ScanPath(b, 5) == Ok(5, ());
    assert SkipSpaces(b, 6) == Ok(6, ());
  }

  /** "GET / H", two line feeds and six more bytes: no version, so malformed. */
  const NO_VERSION: seq<byte> := SHORT_VERSION + [97, 98, 99, 100, 101, 102]

  /** Rejection, unlike acceptance, does depend on the schedule: a malformed head that the one-shot parse refuses is
      waited for, if what has been seen is beyond its blank line when the ninth byte of the version arrives. */
  lemma MalformedMayLinger(maxHeaders: nat)
    ensures ParseRequest(NO_VERSION, maxHeaders) == Bad
    ensures Receive(NO_VERSION, [12, 15], 0, maxHeaders) == Received(2, Partial)
  {
    var b, early := NO_VERSION, NO_VERSION[..12];
    TargetOfNoVersion(b);
    TargetOfNoVersion(early);
    NoBlankLineLater();
    assert b[6..13][1] == 10 && b[..15] == b;
    hide ParseTarget, ScanComplete;
    assert [12, 15][1..] == [15] && [15][1..] == [];
  }

  lemma NoBlankLineLater()
    ensures ScanComplete(NO_VERSION, 9, 0) == Partial
  {
    var b := NO_VERSION;
    assert ScanComplete(b, 15, 0) == Partial;
    assert ScanComplete(b, 13, 0) == ScanComplete(b, 14, 0) == ScanComplete(b, 15, 0);
    assert ScanComplete(b, 11, 0) == ScanComplete(b, 12, 0) == ScanComplete(b, 13, 0);
    assert ScanComplete(b, 9, 0) == ScanComplete(b, 10, 0) == ScanComplete(b, 11, 0);
  }

  lemma TargetOfNoVersion(b: seq<byte>)
    requires 9 <= |b| && b[..9] == SHORT_VERSION
    ensures ParseTarget(b).Ok? && ParseTarget(b).pos == 6
  {
    assert forall k :: 0 <= k < 9 ==> b[k] == b[..9][k];
    assert ScanToken(b, 2, SP) == ScanToken(b, 3, SP) == Ok(3, ());
    assert ScanToken(b, 0, SP) == ScanToken(b, 1, SP) == Ok(3, ());
    assert SkipSpaces(b, 4) == Ok(4, ());
    assert ScanPath(b, 4) == ScanPath(b, 5) == Ok(5, ());
    assert SkipSpaces(b, 6) == Ok(6, ());
  }
}
