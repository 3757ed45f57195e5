/** When a head that arrives piece by piece is refused. Once the scan for the blank line has reached a verdict, the
    parser can only still want more bytes for one reason: it looks at no version before it has nine bytes of it. */
module HeadRefusal {
  import opened Bytes
  import opened HeadSpec
  import opened HeadReceive
  import HeadFinality
  import HeadLocality
  import HeadWindow

  // ---- What wants more bytes has seen no line end ----

  /** No line end stands in the buffer from `i` on. */
  ghost predicate NoLineEnd(buf: seq<byte>, i: nat) {
    forall k :: i <= k < |buf| ==> buf[k] != CR && buf[k] != LF
  }

  lemma {:induction false} ScanWithoutLineEnd(buf: seq<byte>, i: nat, lineEnds: nat)
    requires NoLineEnd(buf, i)
    ensures ScanComplete(buf, i, lineEnds).Partial?
    decreases |buf| - i
  {
    if i < |buf| {
      ScanWithoutLineEnd(buf, i + 1, 0);
    }
  }

  lemma {:induction false} TokenPartial(buf: seq<byte>, i: nat, delim: byte)
    requires ScanToken(buf, i, delim).Partial?
    ensures NoLineEnd(buf, i)
    decreases |buf| - i
  {
    if i < |buf| {
      TokenPartial(buf, i + 1, delim);
    }
  }

  lemma {:induction false} PathPartial(buf: seq<byte>, i: nat)
    requires ScanPath(buf, i).Partial?
    ensures NoLineEnd(buf, i)
    decreases |buf| - i
  {
    if i < |buf| {
      PathPartial(buf, i + 1);
    }
  }

  lemma {:induction false} SpacesPartial(buf: seq<byte>, i: nat)
    requires SkipSpaces(buf, i).Partial?
    ensures NoLineEnd(buf, i)
    decreases |buf| - i
  {
    if i < |buf| {
      SpacesPartial(buf, i + 1);
    }
  }

  lemma {:induction false} BlanksPartial(buf: seq<byte>, i: nat)
    requires SkipBlanks(buf, i).Partial?
    ensures NoLineEnd(buf, i)
    decreases |buf| - i
  {
    if i < |buf| {
      BlanksPartial(buf, i + 1);
    }
  }

  /** The rest of a line may also stop between the two bytes of its end. */
  lemma {:induction false} EolPartial(buf: seq<byte>, i: nat, lineEnds: nat)
    requires ScanEol(buf, i).Partial?
    ensures ScanComplete(buf, i, lineEnds).Partial?
    decreases |buf| - i
  {
    if i < |buf| && !IsControl(buf[i]) {
      EolPartial(buf, i + 1, 0);
    }
  }

  lemma NamePartial(buf: seq<byte>, i: nat, first: bool)
    requires i < |buf| && ParseName(buf, i, first).Partial?
    ensures NoLineEnd(buf, i)
  {
    var token := ParseToken(buf, i, COLON);
    if token.Ok? {
      HeadWindow.TokenText(buf, i, COLON);
      BlanksPartial(buf, token.pos + 1);
    } else {
      TokenPartial(buf, i, COLON);
    }
    hide ScanToken, SkipBlanks;
  }

  lemma HeaderPartial(buf: seq<byte>, i: nat, first: bool)
    requires i < |buf| && NewLine(buf, i) == Ok(i, false) && ParseHeader(buf, i, first).Partial?
    ensures ScanComplete(buf, i, 1).Partial?
  {
    var name := ParseName(buf, i, first);
    if name.Ok? {
      var start := name.pos;
      HeadWindow.NameText(buf, i, first);
      assert ScanEol(buf, start).Partial?;
      EolPartial(buf, start, 0);
      EolPartial(buf, start, 1);
      hide ScanComplete, ScanEol, ParseName;
      if i < start {
        HeadWindow.ScanAcrossText(buf, i, start, 1);
      }
    } else {
      NamePartial(buf, i, first);
      ScanWithoutLineEnd(buf, i, 1);
    }
  }

  lemma {:induction false} HeadersPartial(buf: seq<byte>, i: nat, parsed: seq<Header>, maxHeaders: nat)
    requires ParseHeaders(buf, i, parsed, maxHeaders).Partial?
    ensures ScanComplete(buf, i, 1).Partial?
    decreases |buf| - i
  {
    hide ParseHeader;
    if NewLine(buf, i).Ok? {
      var h := ParseHeader(buf, i, |parsed| == 0);
      if h.Ok? {
        HeadWindow.ScanAcrossHeader(buf, i, |parsed| == 0, 1);
        HeadersPartial(buf, h.pos, parsed + [h.val], maxHeaders);
      } else {
        HeaderPartial(buf, i, |parsed| == 0);
      }
    }
  }

  lemma TargetPartial(buf: seq<byte>)
    requires ParseTarget(buf).Partial?
    ensures ScanComplete(buf, 0, 0).Partial?
  {
    var blank := NewLine(buf, 0);
    if blank.Ok? {
      TargetNoLineEnd(buf);
      hide ParseTarget;
      ScanWithoutLineEnd(buf, blank.pos, 0);
      ScanWithoutLineEnd(buf, blank.pos, 1);
    }
  }

  lemma TargetNoLineEnd(buf: seq<byte>)
    requires NewLine(buf, 0).Ok? && ParseTarget(buf).Partial?
    ensures NoLineEnd(buf, NewLine(buf, 0).pos)
  {
    var start := NewLine(buf, 0).pos;
    var m := ParseToken(buf, start, SP);
    if !m.Ok? {
      TokenPartial(buf, start, SP);
      return;
    }
    HeadWindow.TokenText(buf, start, SP);
    hide ScanToken;
    var p := SkipSpaces(buf, m.pos + 1);
    if !p.Ok? {
      SpacesPartial(buf, m.pos + 1);
      return;
    }
    var e := ScanPath(buf, p.pos);
    if !e.Ok? {
      PathPartial(buf, p.pos);
      return;
    }
    HeadWindow.PathText(buf, p.pos);
    SpacesPartial(buf, e.pos + 1);
  }

  /** Once the scan has reached a verdict - a blank line or a stray CR - the parser wants more bytes if and only if the
      version has begun and less than nine bytes of it are there. */
  lemma DecidedPartial(buf: seq<byte>, maxHeaders: nat)
    requires !ScanComplete(buf, 0, 0).Partial?
    ensures ParseRequest(buf, maxHeaders).Partial? <==>
            ParseTarget(buf).Ok? && |buf| < ParseTarget(buf).pos + 9
  {
    var target := ParseTarget(buf);
    if target.Partial? {
      TargetPartial(buf);
    }
    if ParseRequest(buf, maxHeaders).Partial? && target.Ok? && |buf| >= target.pos + 9 {
      VersionThere(buf, maxHeaders);
    }
    hide ParseTarget, ParseHeaders, ScanComplete;
  }

  lemma VersionThere(buf: seq<byte>, maxHeaders: nat)
    requires ParseRequest(buf, maxHeaders).Partial? && ParseTarget(buf).Ok? && |buf| >= ParseTarget(buf).pos + 9
    ensures ScanComplete(buf, 0, 0).Partial?
  {
    var line := ParseRequestLine(buf);
    if line.Ok? {
      HeadersPartial(buf, line.pos, [], maxHeaders);
      HeadWindow.ScanAcrossRequestLine(buf);
    } else {
      LinePartial(buf);
    }
  }

  lemma LinePartial(buf: seq<byte>)
    requires ParseRequestLine(buf).Partial? && ParseTarget(buf).Ok? && |buf| >= ParseTarget(buf).pos + 9
    ensures ScanComplete(buf, 0, 0).Partial?
  {
    var start, end := NewLine(buf, 0).pos, ParseTarget(buf).pos + 8;
    assert ParseVersion(buf, end - 8).Ok? && NewLine(buf, end).Partial?;
    hide ParseTarget, ParseVersion, ParseRequestLine;
    LineText(buf);
    assert ScanComplete(buf, end, 0).Partial?;
    assert start == 0 || ScanComplete(buf, 0, 0) == ScanComplete(buf, start, 1);
    hide NewLine, ScanComplete;
    HeadWindow.ScanAcrossText(buf, start, end, 0);
    HeadWindow.ScanAcrossText(buf, start, end, 1);
  }

  lemma LineText(buf: seq<byte>)
    requires ParseTarget(buf).Ok? && ParseVersion(buf, ParseTarget(buf).pos).Ok?
    ensures NewLine(buf, 0).Ok? && NewLine(buf, 0).pos < ParseTarget(buf).pos
    ensures forall k :: NewLine(buf, 0).pos <= k < ParseTarget(buf).pos + 8 ==> buf[k] != CR && buf[k] != LF
  {
    HeadWindow.TargetText(buf);
    HeadWindow.VersionText(buf, ParseTarget(buf).pos);
    hide ParseTarget, ParseVersion, NewLine;
  }

  // ---- Responses ----

  /** Nothing is looked at before nine bytes are there, and no status code before three digits and one more byte. */
  predicate AwaitsStatus(buf: seq<byte>) {
    || |buf| < 9
    || (ParseVersion(buf, 0).Ok? && buf[8] == SP && SkipSpaces(buf, 9).Ok? && |buf| < SkipSpaces(buf, 9).pos + 4)
  }

  /** The same for responses: once the scan has reached a verdict, that is the only reason to want more bytes. */
  lemma DecidedPartialResponse(buf: seq<byte>, maxHeaders: nat)
    requires !ScanComplete(buf, 0, 0).Partial?
    ensures ParseResponse(buf, maxHeaders).Partial? <==> AwaitsStatus(buf)
  {
    if ParseResponse(buf, maxHeaders).Partial? && !AwaitsStatus(buf) {
      StatusPartial(buf, maxHeaders);
    }
    hide ParseHeaders, ScanComplete, GetTokenToEol;
  }

  lemma StatusPartial(buf: seq<byte>, maxHeaders: nat)
    requires ParseResponse(buf, maxHeaders).Partial? && !AwaitsStatus(buf)
    ensures ScanComplete(buf, 0, 0).Partial?
  {
    hide ScanComplete, ParseHeaders, ScanEol;
    if SkipSpaces(buf, 9).Partial? {
      HeadWindow.VersionText(buf, 0);
      SpacesPartial(buf, 9);
      ScanWithoutLineEnd(buf, 0, 0);
    } else {
      var i := SkipSpaces(buf, 9).pos + 3;
      StatusText(buf);
      hide ParseVersion, ParseStatus;
      if ScanEol(buf, i).Partial? {
        EolPartial(buf, i, 0);
        HeadWindow.ScanAcrossText(buf, 0, i, 0);
      } else {
        ReasonEnds(buf, i);
        HeadersPartial(buf, ScanEol(buf, i).pos, [], maxHeaders);
        HeadWindow.ScanAcrossLine(buf, 0, i, 0);
      }
    }
  }

  lemma StatusText(buf: seq<byte>)
    requires |buf| >= 9 && ParseVersion(buf, 0).Ok? && buf[8] == SP && SkipSpaces(buf, 9).Ok?
    requires ParseStatus(buf, SkipSpaces(buf, 9).pos).Ok?
    ensures forall k :: 0 <= k < SkipSpaces(buf, 9).pos + 3 ==> buf[k] != CR && buf[k] != LF
  {
    HeadWindow.VersionText(buf, 0);
    var c := SkipSpaces(buf, 9).pos;
    hide ParseVersion, SkipSpaces;
    assert IsDigit(buf[c]) && IsDigit(buf[c + 1]) && IsDigit(buf[c + 2]);
    forall k | 8 <= k < c + 3 ensures buf[k] != CR && buf[k] != LF {
      if k >= c {
        assert k == c || k == c + 1 || k == c + 2;
      }
    }
  }

  /** The spaces before a reason end in its line. */
  lemma {:induction false} ReasonEnds(buf: seq<byte>, i: nat)
    requires ScanEol(buf, i).Ok?
    ensures SkipSpaces(buf, i).Ok?
    decreases |buf| - i
  {
    if buf[i] == SP {
      ReasonEnds(buf, i + 1);
    }
  }

  // ---- Which schedules of lengths end in a refusal ----

  predicate Decided(buf: seq<byte>) {
    !ScanComplete(buf, 0, 0).Partial?
  }

  /** The scan has reached a verdict, but less than nine bytes of the version are there. */
  predicate InZone(buf: seq<byte>) {
    Decided(buf) && ParseTarget(buf).Ok? && |buf| < ParseTarget(buf).pos + 9
  }

  /** What is parsed later is what is parsed earlier, unless that wanted more bytes. */
  lemma Later(stream: seq<byte>, m: nat, n: nat, maxHeaders: nat)
    requires m <= n <= |stream|
    ensures HeadFinality.Stands(ParseRequest(stream[..m], maxHeaders), ParseRequest(stream[..n], maxHeaders))
    ensures HeadFinality.Stands(ScanComplete(stream[..m], 0, 0), ScanComplete(stream[..n], 0, 0))
  {
    var a, b := stream[..m], stream[m..n];
    assert stream[..n] == a + b;
    HeadFinality.RequestFinal(a, b, maxHeaders);
    HeadFinality.ScanFinal(a, b, 0, 0);
  }

  lemma ScanLater(stream: seq<byte>, n: nat, i: nat)
    requires n <= |stream|
    ensures HeadFinality.Stands(ScanComplete(stream[..n], i, 0), ScanComplete(stream, i, 0))
  {
    assert stream == stream[..n] + stream[n..];
    HeadFinality.ScanFinal(stream[..n], stream[n..], i, 0);
  }

  /** While the scan has not reached a verdict, the windowed scan is the full one. */
  lemma WindowOf(stream: seq<byte>, prev: nat, n: nat)
    requires prev <= n <= |stream| && !Decided(stream[..prev])
    ensures IsComplete(stream[..n], prev) == ScanComplete(stream[..n], 0, 0)
  {
    assert stream[..n][..prev] == stream[..prev];
    HeadWindow.WindowIsSound(stream[..n], prev);
  }

  /** Outside the zone a scan with a verdict goes with a parse with a verdict, and a stray CR with a refusal. */
  lemma DecidedOutside(buf: seq<byte>, maxHeaders: nat)
    requires Decided(buf) && !InZone(buf)
    ensures !ParseRequest(buf, maxHeaders).Partial?
    ensures ScanComplete(buf, 0, 0).Bad? ==> ParseRequest(buf, maxHeaders).Bad?
  {
    DecidedPartial(buf, maxHeaders);
    hide ParseRequest, ScanComplete, ParseTarget;
    if ParseRequest(buf, maxHeaders).Ok? {
      HeadWindow.ParsedHeadEndsAtBlankLine(buf, maxHeaders);
    }
  }

  ghost predicate OutsideZone(stream: seq<byte>, lengths: seq<nat>) {
    forall i :: 0 <= i < |lengths| && lengths[i] <= |stream| ==> !InZone(stream[..lengths[i]])
  }

  /** The last length, or what was there before. */
  function Last(lengths: seq<nat>, before: nat): nat {
    if lengths == [] then before else lengths[|lengths| - 1]
  }

  lemma {:induction false} UndecidedOutside(stream: seq<byte>, lengths: seq<nat>, prev: nat, maxHeaders: nat)
    requires Schedule(lengths, prev, |stream|) && Last(lengths, prev) == |stream| && 1 <= prev <= |stream|
    requires !Decided(stream[..prev]) && OutsideZone(stream, lengths)
    ensures Receive(stream, lengths, prev, maxHeaders).answer.Bad? <==>
            ParseRequest(stream, maxHeaders).Bad? && Decided(stream)
    decreases |lengths|
  {
    hide ParseRequest, ParseTarget, ScanComplete, IsComplete, InZone;
    assert stream[..|stream|] == stream;
    if lengths != [] {
      var n := lengths[0];
      WindowOf(stream, prev, n);
      if Decided(stream[..n]) {
        DecidedOutside(stream[..n], maxHeaders);
        Later(stream, n, |stream|, maxHeaders);
      } else {
        UndecidedOutside(stream, lengths[1..], n, maxHeaders);
      }
    }
  }

  /** Any bytes, any schedule that avoids the zone: refused if and only if the one-shot parse refuses, and either the
      scan has reached a verdict by the end or the first call has refused already. */
  lemma RefusedOutsideZone(stream: seq<byte>, lengths: seq<nat>, maxHeaders: nat)
    requires lengths != [] && Schedule(lengths, 1, |stream|) && Last(lengths, 0) == |stream|
    requires OutsideZone(stream, lengths)
    ensures Receive(stream, lengths, 0, maxHeaders).answer.Bad? <==>
            && ParseRequest(stream, maxHeaders).Bad?
            && (Decided(stream) || ParseRequest(stream[..lengths[0]], maxHeaders).Bad?)
  {
    hide ParseRequest, ParseTarget, ScanComplete, IsComplete, InZone;
    var n := lengths[0];
    assert stream[..|stream|] == stream;
    Later(stream, n, |stream|, maxHeaders);
    if ParseRequest(stream[..n], maxHeaders).Partial? {
      if Decided(stream[..n]) {
        DecidedOutside(stream[..n], maxHeaders);
      }
      UndecidedOutside(stream, lengths[1..], n, maxHeaders);
    }
  }

  // ---- Schedules with a length in the zone ----

  lemma ZoneIsPartial(stream: seq<byte>, m: nat, z: nat, maxHeaders: nat)
    requires m <= z <= |stream| && InZone(stream[..z])
    ensures z > 3 && ParseRequest(stream[..z], maxHeaders).Partial? && ParseRequest(stream[..m], maxHeaders).Partial?
    ensures Decided(stream[..m]) ==> InZone(stream[..m])
  {
    DecidedPartial(stream[..z], maxHeaders);
    HeadWindow.TargetText(stream[..z]);
    hide ParseRequest, ParseTarget, ScanComplete;
    Later(stream, m, z, maxHeaders);
    if Decided(stream[..m]) {
      DecidedPartial(stream[..m], maxHeaders);
    }
  }

  /** What lay in the zone once is never accepted. */
  lemma ZoneIsRefused(stream: seq<byte>, z: nat, n: nat, maxHeaders: nat)
    requires z <= n <= |stream| && InZone(stream[..z]) && !InZone(stream[..n])
    ensures ParseRequest(stream[..n], maxHeaders).Bad?
  {
    hide ParseRequest, ParseTarget, ScanComplete;
    ZoneIsPartial(stream, z, z, maxHeaders);
    Later(stream, z, n, maxHeaders);
    DecidedOutside(stream[..n], maxHeaders);
    if ParseRequest(stream[..n], maxHeaders).Ok? {
      HeadWindow.ParsedHeadEndsAtBlankLine(stream[..n], maxHeaders);
      BlankLineSeen(stream, z, n);
      assert stream[..n] == stream[..z] + stream[z..n];
      HeadLocality.RequestLocal(stream[..z], stream[z..n], maxHeaders);
    }
  }

  lemma BlankLineSeen(stream: seq<byte>, z: nat, n: nat)
    requires z <= n <= |stream| && Decided(stream[..z]) && ScanComplete(stream[..n], 0, 0).Ok?
    ensures ScanComplete(stream[..n], 0, 0).pos <= z
  {
    hide ScanComplete;
    Later(stream, z, n, 0);
    ScanWithin(stream[..z]);
  }

  lemma ScanWithin(buf: seq<byte>)
    ensures ScanComplete(buf, 0, 0).Ok? ==> ScanComplete(buf, 0, 0).pos <= |buf|
  {
  }

  /** Beyond the zone only what the window still sees can bring a refusal: `z` was the last length in the zone. */
  lemma {:induction false} BeyondZone(stream: seq<byte>, lengths: seq<nat>, prev: nat, z: nat, maxHeaders: nat)
    requires z <= prev <= |stream| && Schedule(lengths, prev, |stream|) && Last(lengths, prev) == |stream|
    requires InZone(stream[..z]) && OutsideZone(stream, lengths) && z > 3
    requires prev == z || ScanComplete(stream[..prev], z - 3, 0).Partial?
    ensures Receive(stream, lengths, prev, maxHeaders).answer.Bad? <==>
            lengths != [] && !ScanComplete(stream, z - 3, 0).Partial?
    decreases |lengths|
  {
    hide ParseRequest, ParseTarget, ScanComplete, InZone;
    assert stream[..|stream|] == stream;
    if lengths != [] {
      var n := lengths[0];
      SameWindow(stream, prev, z, n);
      ScanLater(stream, n, z - 3);
      if ScanComplete(stream[..n], z - 3, 0).Partial? {
        BeyondZone(stream, lengths[1..], n, z, maxHeaders);
      } else {
        ZoneIsRefused(stream, z, n, maxHeaders);
      }
    }
  }

  function Before(lengths: seq<nat>, first: nat, k: nat): nat
    requires k <= |lengths|
  {
    if k == 0 then first else lengths[k - 1]
  }

  /** A call in the zone, up to the `i`-th one, has seen a stray CR. */
  ghost predicate StrayInZone(stream: seq<byte>, lengths: seq<nat>, prev: nat, i: nat)
    requires forall k :: 0 <= k < |lengths| ==> lengths[k] <= |stream|
  {
    exists k :: 0 <= k <= i && k < |lengths| && InZone(stream[..lengths[k]]) &&
                IsComplete(stream[..lengths[k]], Before(lengths, prev, k)).Bad?
  }

  lemma StrayLater(stream: seq<byte>, lengths: seq<nat>, prev: nat, i: nat)
    requires 0 < i < |lengths| && forall k :: 0 <= k < |lengths| ==> lengths[k] <= |stream|
    requires !(InZone(stream[..lengths[0]]) && IsComplete(stream[..lengths[0]], prev).Bad?)
    ensures StrayInZone(stream, lengths, prev, i) <==> StrayInZone(stream, lengths[1..], lengths[0], i - 1)
  {
    hide InZone, IsComplete;
    if StrayInZone(stream, lengths, prev, i) {
      var k :| 0 <= k <= i && k < |lengths| && InZone(stream[..lengths[k]]) &&
               IsComplete(stream[..lengths[k]], Before(lengths, prev, k)).Bad?;
      assert lengths[1..][k - 1] == lengths[k];
      assert Before(lengths[1..], lengths[0], k - 1) == Before(lengths, prev, k);
    }
    if StrayInZone(stream, lengths[1..], lengths[0], i - 1) {
      var k :| 0 <= k <= i - 1 && k < |lengths[1..]| && InZone(stream[..lengths[1..][k]]) &&
               IsComplete(stream[..lengths[1..][k]], Before(lengths[1..], lengths[0], k)).Bad?;
      assert lengths[1..][k] == lengths[k + 1];
      assert Before(lengths[1..], lengths[0], k) == Before(lengths, prev, k + 1);
    }
  }

  lemma ReceiveStep(stream: seq<byte>, lengths: seq<nat>, prev: nat, maxHeaders: nat)
    requires lengths != [] && forall i :: 0 <= i < |lengths| ==> lengths[i] <= |stream|
    ensures var answer := PhrParseRequest(stream[..lengths[0]], maxHeaders, prev);
            Receive(stream, lengths, prev, maxHeaders).answer ==
            if answer.Partial? then Receive(stream, lengths[1..], lengths[0], maxHeaders).answer else answer
  {
    hide PhrParseRequest;
  }

  /** A call in the zone refuses only for a stray CR. */
  lemma AnswerInZone(buf: seq<byte>, prev: nat, maxHeaders: nat)
    requires prev > 0 && ParseRequest(buf, maxHeaders).Partial?
    ensures PhrParseRequest(buf, maxHeaders, prev) == if IsComplete(buf, prev).Bad? then Bad else Partial
  {
    hide ParseRequest, IsComplete;
  }

  lemma {:induction false} ThroughZone(stream: seq<byte>, lengths: seq<nat>, prev: nat, i: nat, maxHeaders: nat)
    requires 1 <= prev <= |stream| && Schedule(lengths, prev, |stream|) && Last(lengths, prev) == |stream|
    requires i < |lengths| && InZone(stream[..lengths[i]]) && OutsideZone(stream, lengths[i + 1..])
    ensures Receive(stream, lengths, prev, maxHeaders).answer.Bad? <==>
            || StrayInZone(stream, lengths, prev, i)
            || (i + 1 < |lengths| && !ScanComplete(stream, lengths[i] - 3, 0).Partial?)
    decreases |lengths|
  {
    hide ParseRequest, ParseTarget, ScanComplete, InZone, Receive, PhrParseRequest, IsComplete;
    var n := lengths[0];
    ReceiveStep(stream, lengths, prev, maxHeaders);
    ZoneIsPartial(stream, n, lengths[i], maxHeaders);
    AnswerInZone(stream[..n], prev, maxHeaders);
    ZoneIsPartial(stream, prev, lengths[i], maxHeaders);
    if !Decided(stream[..n]) {
      NotYet(stream, prev, n);
    }
    if InZone(stream[..n]) && IsComplete(stream[..n], prev).Bad? {
      assert StrayInZone(stream, lengths, prev, i) by { assert Before(lengths, prev, 0) == prev; }
    } else if i == 0 {
      assert lengths[1..] == lengths[i + 1..];
      BeyondZone(stream, lengths[1..], n, n, maxHeaders);
    } else {
      StrayLater(stream, lengths, prev, i);
      assert lengths[1..][i - 1 + 1..] == lengths[i + 1..];
      ThroughZone(stream, lengths[1..], n, i - 1, maxHeaders);
    }
  }

  lemma NotYet(stream: seq<byte>, prev: nat, n: nat)
    requires prev <= n <= |stream| && !Decided(stream[..n])
    ensures IsComplete(stream[..n], prev).Partial?
  {
    hide ScanComplete;
    Later(stream, prev, n, 0);
    WindowOf(stream, prev, n);
  }

  /** Any bytes, any schedule of which the `i`-th length is the last one in the zone: refused if and only if a call in
      the zone sees a stray CR, or a later call, looking no further back than three bytes before that length, sees a
      blank line or a stray CR. */
  lemma RefusedAfterZone(stream: seq<byte>, lengths: seq<nat>, i: nat, maxHeaders: nat)
    requires Schedule(lengths, 1, |stream|) && Last(lengths, 0) == |stream|
    requires i < |lengths| && InZone(stream[..lengths[i]]) && OutsideZone(stream, lengths[i + 1..])
    ensures Receive(stream, lengths, 0, maxHeaders).answer.Bad? <==>
            || (i > 0 && StrayInZone(stream, lengths[1..], lengths[0], i - 1))
            || (i + 1 < |lengths| && !ScanComplete(stream, lengths[i] - 3, 0).Partial?)
  {
    hide ParseRequest, ParseTarget, ScanComplete, IsComplete, InZone;
    ZoneIsPartial(stream, lengths[0], lengths[i], maxHeaders);
    if i == 0 {
      assert lengths[1..] == lengths[i + 1..];
      BeyondZone(stream, lengths[1..], lengths[0], lengths[0], maxHeaders);
    } else {
      assert lengths[1..][i - 1 + 1..] == lengths[i + 1..];
      ThroughZone(stream, lengths[1..], lengths[0], i - 1, maxHeaders);
    }
  }

  // ---- With something remembered ----

  /** Where a scan restarts that remembers `z` bytes. */
  function Restart(z: nat): nat {
    if z < 3 then 0 else z - 3
  }

  /** The calls after one that has overlooked a verdict of the scan; `z` was the length then. */
  lemma {:induction false} OverlookedOutside(stream: seq<byte>, lengths: seq<nat>, prev: nat, z: nat, maxHeaders: nat)
    requires 1 <= z <= prev <= |stream| && Schedule(lengths, prev, |stream|) && Last(lengths, prev) == |stream|
    requires Decided(stream[..z]) && OutsideZone(stream, lengths)
    requires prev == z || (z > 3 && ScanComplete(stream[..prev], Restart(z), 0).Partial?)
    ensures Receive(stream, lengths, prev, maxHeaders).answer.Bad? <==>
            && lengths != [] && !ScanComplete(stream, Restart(z), 0).Partial?
            && (ScanComplete(stream, Restart(z), 0).Bad? || ParseRequest(stream, maxHeaders).Bad?)
    decreases |lengths|
  {
    hide ParseRequest, ParseTarget, ScanComplete, InZone;
    assert stream[..|stream|] == stream;
    if lengths != [] {
      var n := lengths[0];
      Later(stream, z, n, maxHeaders);
      Later(stream, n, |stream|, maxHeaders);
      ScanLater(stream, n, Restart(z));
      if z > 3 {
        SameWindow(stream, prev, z, n);
      }
      if ScanComplete(stream[..n], Restart(z), 0).Partial? {
        OverlookedOutside(stream, lengths[1..], n, z, maxHeaders);
      } else {
        DecidedOutside(stream[..n], maxHeaders);
      }
    }
  }

  /** Whether the calls refuse that come after one with which `prev` bytes have been received. */
  ghost predicate RefusesLater(stream: seq<byte>, lengths: seq<nat>, prev: nat, maxHeaders: nat)
    requires prev <= |stream| && forall i :: 0 <= i < |lengths| ==> lengths[i] <= |stream|
  {
    if OutsideZone(stream, lengths) then
      var again := ScanComplete(stream, Restart(prev), 0);
      if Decided(stream[..prev]) then
        lengths != [] && !again.Partial? && (again.Bad? || ParseRequest(stream, maxHeaders).Bad?)
      else Decided(stream) && ParseRequest(stream, maxHeaders).Bad?
    else
      exists i :: 0 <= i < |lengths| && InZone(stream[..lengths[i]]) && OutsideZone(stream, lengths[i + 1..]) &&
                  (|| StrayInZone(stream, lengths, prev, i)
                   || (i + 1 < |lengths| && !ScanComplete(stream, lengths[i] - 3, 0).Partial?))
  }

  lemma {:induction false} LastInZone(stream: seq<byte>, lengths: seq<nat>) returns (i: nat)
    requires (forall k :: 0 <= k < |lengths| ==> lengths[k] <= |stream|) && !OutsideZone(stream, lengths)
    ensures i < |lengths| && InZone(stream[..lengths[i]]) && OutsideZone(stream, lengths[i + 1..])
    decreases |lengths|
  {
    hide InZone;
    if OutsideZone(stream, lengths[1..]) {
      i := 0;
      assert forall k :: 1 <= k < |lengths| ==> lengths[k] == lengths[1..][k - 1];
    } else {
      i := LastInZone(stream, lengths[1..]);
      assert lengths[1..][i + 1..] == lengths[i + 2..];
      assert forall k :: 1 <= k < |lengths| ==> lengths[k] == lengths[1..][k - 1];
      i := i + 1;
    }
  }

  lemma LaterRefusals(stream: seq<byte>, lengths: seq<nat>, prev: nat, maxHeaders: nat)
    requires 1 <= prev <= |stream| && Schedule(lengths, prev, |stream|) && Last(lengths, prev) == |stream|
    ensures Receive(stream, lengths, prev, maxHeaders).answer.Bad? <==> RefusesLater(stream, lengths, prev, maxHeaders)
  {
    hide ParseRequest, ParseTarget, ScanComplete, IsComplete, InZone, Receive;
    if OutsideZone(stream, lengths) {
      if Decided(stream[..prev]) {
        OverlookedOutside(stream, lengths, prev, prev, maxHeaders);
      } else {
        UndecidedOutside(stream, lengths, prev, maxHeaders);
      }
    } else {
      var i := LastInZone(stream, lengths);
      ThroughZone(stream, lengths, prev, i, maxHeaders);
      OnlyLast(stream, lengths, i);
    }
  }

  lemma OnlyLast(stream: seq<byte>, lengths: seq<nat>, i: nat)
    requires (forall k :: 0 <= k < |lengths| ==> lengths[k] <= |stream|) && i < |lengths|
    requires InZone(stream[..lengths[i]]) && OutsideZone(stream, lengths[i + 1..])
    ensures forall k :: 0 <= k < |lengths| && InZone(stream[..lengths[k]]) && OutsideZone(stream, lengths[k + 1..]) ==>
              k == i
  {
    hide InZone;
    forall k | 0 <= k < |lengths| && InZone(stream[..lengths[k]]) && OutsideZone(stream, lengths[k + 1..])
      ensures k == i
    {
      AfterLast(stream, lengths, k);
      AfterLast(stream, lengths, i);
    }
  }

  lemma AfterLast(stream: seq<byte>, lengths: seq<nat>, i: nat)
    requires (forall k :: 0 <= k < |lengths| ==> lengths[k] <= |stream|) && i < |lengths|
    requires OutsideZone(stream, lengths[i + 1..])
    ensures forall k :: i < k < |lengths| ==> !InZone(stream[..lengths[k]])
  {
    hide InZone;
    forall k | i < k < |lengths| ensures !InZone(stream[..lengths[k]]) {
      assert lengths[i + 1..][k - i - 1] == lengths[k];
    }
  }

  /** Any bytes, any schedule, and any leftover with which the code stays inside the buffer: refused if and only if
      the first call refuses, or waits and a later one refuses. */
  lemma RefusedWithLeftover(mem: seq<byte>, stream: seq<byte>, lengths: seq<nat>, p: nat, maxHeaders: nat)
    requires lengths != [] && Schedule(lengths, 1, |stream|) && Last(lengths, 0) == |stream|
    requires HeadReceive.Holds(mem, stream, lengths[0]) && Readable(mem, lengths[0], p)
    ensures var n := lengths[0];
            var scan, parse := CompleteIn(mem, n, p), ParseRequest(stream[..n], maxHeaders);
            HeadReceive.ReceiveIn(mem, stream, lengths, p, maxHeaders).answer.Bad? <==>
            || (p != 0 && scan.Bad?)
            || ((p == 0 || scan.Ok?) && parse.Bad?)
            || (((p != 0 && scan.Partial?) || ((p == 0 || scan.Ok?) && parse.Partial?)) &&
                RefusesLater(stream, lengths[1..], n, maxHeaders))
  {
    hide ParseRequest, CompleteIn, Receive, RefusesLater, Readable;
    LaterRefusals(stream, lengths[1..], lengths[0], maxHeaders);
  }
}
