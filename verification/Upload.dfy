/** A whole upload: POST /image, received straight into the image buffer behind a gap that is filled at the end with the
    part of the body that had arrived together with the head. */
module Upload {
  import opened Bytes
  import opened SendQueue
  import opened Numbers
  import opened HeadRoundTrip
  import opened Responses
  import opened Connection
  import opened EventLoop
  import opened ServerApp
  import opened AppSpec
  import opened World
  import opened Requests
  import HeadSpec
  import HeadReceive

  /** A POST to /image: a head, and as many bytes of body as it announces. */
  ghost predicate IsUpload(stream: seq<byte>, headLen: nat, contentLen: nat) {
    IsRequest(stream, POST, IMAGE_PATH, headLen, contentLen) && |stream| == headLen + contentLen && contentLen > 0
  }

  /** Any printed POST to /image with a body of up to 9999999 bytes is such an upload, if its first Content-Length, in
      any case, is the decimal length of the body. */
  lemma PrintedUpload(minor: nat, before: seq<Field>, length: Field, after: seq<Field>, body: seq<byte>)
    requires minor <= 9 && ValidFields(before + [length] + after) && |before| + 1 + |after| <= 20
    requires (forall k :: 0 <= k < |before| ==> !MatchContentLength(before[k].name)) && MatchContentLength(length.name)
    requires length.value == Decimal(|body|) && 1 <= |body| <= 9999999
    ensures var text := PrintRequest(POST, IMAGE_PATH, minor, before + [length] + after);
            IsUpload(text + body, |text|, |body|)
  {
    hide IsRequest, PrintRequest, FieldsBytes, FindContentLength, IsPath, ValidFields, MatchContentLength, Decimal;
    MethodsAreTokens();
    FindsPrinted(before, length, after, |body|);
    PrintedRequest(POST, IMAGE_PATH, minor, before + [length] + after, body, |body|);
  }

  /** What is fixed while an upload goes on: the number of the connection's own buffer and what it held before, the
      stream, the length of its head, and what waited to be sent before. */
  datatype AnyJob = Job(own: nat, mem: seq<byte>, stream: seq<byte>, headLen: nat, queue: Queue)

  type Job = u: AnyJob | u.headLen <= |u.stream| witness Job(0, [], [], 0, EMPTY)

  function ContentLen(u: Job): nat {
    |u.stream| - u.headLen
  }

  /** `n` bytes of the request have arrived, the head is not complete. Of an earlier request `p` bytes are remembered.
      */
  predicate HeadPhase(l: Local, u: Job, n: nat, p: nat, k: Limits)
    requires HasRoom(l, u, k)
  {
    && l.conn.http.state == ReceivingHead && l.conn.http.prevBufLen == (if n == 0 then p else n)
    && l.conn.buf == u.own && l.conn.recvIdx == n <= |u.stream| && n <= k.recvBufLen == l.conn.capacity
    && l.conn.toRecv == k.recvBufLen - n && l.heap[u.own][..n] == u.stream[..n] && l.conn.queue == u.queue
    && (n == 0 ==> l.heap[u.own] == u.mem)
  }

  /** The head and gBodyLen bytes of the body are in the connection's own buffer; what came later is in the image
      buffer, in its place. Behind the body nothing has been written. */
  predicate BodyPhase(l: Local, u: Job, n: nat, k: Limits)
    requires HasRoom(l, u, k)
  {
    var g, img := l.store.gBodyLen, l.heap[IMAGE_BUF];
    && l.conn.http.state == ReceivingBody && l.conn.http.whichIncomplete == Image
    && l.conn.http.contentLen == ContentLen(u) && l.conn.buf == IMAGE_BUF && l.conn.capacity == |img|
    && l.store == Store(Some(u.own), u.headLen, g) && u.headLen + g <= k.recvBufLen && u.headLen + g <= n <= |u.stream|
    && l.conn.recvIdx == n - u.headLen && l.conn.toRecv == |u.stream| - n && l.conn.queue == u.queue
    && l.heap[u.own][u.headLen..u.headLen + g] == u.stream[u.headLen..u.headLen + g]
    && img[g..n - u.headLen] == u.stream[u.headLen + g..n]
    && forall i :: ContentLen(u) <= i < |img| ==> img[i] == 0xcc
  }

  /** The image buffer holds the body and nothing else, the connection has its own buffer and capacity back, and the
      answer has been queued. */
  predicate Uploaded(l: Local, u: Job, k: Limits)
    requires HasRoom(l, u, k)
  {
    var img := l.heap[IMAGE_BUF];
    && l.conn.http.state == Sending && l.conn.buf == u.own && l.conn.capacity == k.recvBufLen
    && l.conn.queue == Put200(u.queue, [], k.sendBufLen)
    && img[..ContentLen(u)] == u.stream[u.headLen..]
    && forall i :: ContentLen(u) <= i < |img| ==> img[i] == 0xcc
  }

  /** The buffers are there and large enough. */
  predicate HasRoom(l: Local, u: Job, k: Limits) {
    && LocalBacked(l) && IMAGE_BUF < u.own < |l.heap| && k.recvBufLen <= |l.heap[u.own]|
    && 0 < u.headLen <= k.recvBufLen && ContentLen(u) <= |l.heap[IMAGE_BUF]|
  }

  /** `n` bytes of the upload have been dealt with. */
  ghost predicate Uploading(l: Local, u: Job, n: nat, p: nat, k: Limits) {
    && IsUpload(u.stream, u.headLen, ContentLen(u)) && HasRoom(l, u, k) && !l.conn.closed && n <= |u.stream|
    && if n < u.headLen then HeadPhase(l, u, n, p, k)
       else if n < |u.stream| then BodyPhase(l, u, n, k)
       else Uploaded(l, u, k)
  }

  /** The piece that may come next: not empty, and if it completes the head, then with less than the whole body and no
      more than the receive buffer holds. What is remembered of an earlier request must be harmless for the first one.
      */
  ghost predicate Acceptable(u: Job, n: nat, p: nat, piece: seq<byte>, k: Limits) {
    && piece != [] && n + |piece| <= |u.stream| && piece == u.stream[n..n + |piece|]
    && (n < u.headLen ==> n + |piece| < |u.stream| && n + |piece| <= k.recvBufLen)
    && (n == 0 ==>
          |piece| <= |u.mem| && HeadReceive.Harmless(Written(u.mem, 0, piece), u.headLen, p, |piece|))
  }

  // ---- The head ----

  lemma HeadArrives(l: Local, u: Job, n: nat, p: nat, piece: seq<byte>, k: Limits)
    requires HasRoom(l, u, k) && HeadPhase(l, u, n, p, k) && n < u.headLen
    requires piece != [] && n + |piece| <= |u.stream| && n + |piece| <= k.recvBufLen
    requires piece == u.stream[n..n + |piece|]
    ensures Got(l.conn, piece) == piece && !Overcommitted(l.conn)
    ensures var a, m := Arrived(l, piece), n + |piece|;
            && a.conn == Received(l.conn, |piece|) && a.store == l.store && |a.heap| == |l.heap|
            && a.heap[IMAGE_BUF] == l.heap[IMAGE_BUF] && |a.heap[u.own]| == |l.heap[u.own]|
            && a.heap[u.own][..m] == u.stream[..m]
  {
    var b, m := Written(l.heap[u.own], n, piece), n + |piece|;
    assert b[..n] == u.stream[..n];
    assert b[..m] == b[..n] + b[n..m] && u.stream[..m] == u.stream[..n] + u.stream[n..m];
  }

  lemma HeadDecided(u: Job, mem: seq<byte>, n: nat, remembered: nat)
    requires IsUpload(u.stream, u.headLen, ContentLen(u)) && 0 < n < |u.stream| && HeadReceive.Holds(mem, u.stream, n)
    requires HeadReceive.Harmless(mem, u.headLen, remembered, n)
    ensures HeadSpec.Readable(mem, n, remembered)
    ensures Decide(mem, n, remembered) ==
            if n < u.headLen then NeedMore else Begin(IMAGE_PATH, u.headLen, ContentLen(u))
  {
    hide IsRequest, Decide, HeadReceive.Harmless, HeadSpec.Readable;
    assert POST != GET;
    DecideExactly(mem, u.stream, POST, IMAGE_PATH, u.headLen, ContentLen(u), n, remembered);
  }

  lemma HeadStep(l: Local, u: Job, n: nat, p: nat, piece: seq<byte>, replies: seq<seq<byte>>, waits: bool, k: Limits)
    requires Uploading(l, u, n, p, k) && n < u.headLen && Acceptable(u, n, p, piece, k)
    ensures var o := Receiving(l, Data(piece), Own(replies, waits), k);
            o.Going? && Uploading(o.value, u, n + |piece|, p, k)
  {
    hide IsUpload, Decide, HeadReceive.Harmless, Written, HeadSpec.Readable, OwnReact;
    HeadArrives(l, u, n, p, piece, k);
    var a, m := Arrived(l, piece), n + |piece|;
    StillHarmless(u, a.heap[u.own], n, p, piece, k);
    HeadDecided(u, a.heap[u.own], m, l.conn.http.prevBufLen);
    if m < u.headLen {
      HeadWaits(a, u, m, p, replies, waits, k);
    } else {
      BodyBegins(a, u, m, p, replies, waits, k);
    }
  }

  /** `m` bytes of the head have arrived, and the application is to look at them. */
  predicate HeadIsHere(a: Local, u: Job, m: nat, k: Limits) {
    && HasRoom(a, u, k) && !a.conn.closed && a.conn.http.state == ReceivingHead && a.conn.buf == u.own
    && 0 < a.conn.recvIdx == m < |u.stream| && m <= k.recvBufLen == a.conn.capacity
    && a.conn.toRecv == k.recvBufLen - m && a.conn.queue == u.queue && a.heap[u.own][..m] == u.stream[..m]
  }

  lemma HeadWaits(a: Local, u: Job, m: nat, p: nat, replies: seq<seq<byte>>, waits: bool, k: Limits)
    requires IsUpload(u.stream, u.headLen, ContentLen(u)) && HeadIsHere(a, u, m, k) && m < u.headLen
    requires Defined(a, k) && Decided(a) == NeedMore
    ensures Uploading(OwnReact(a, replies, waits, k), u, m, p, k)
  {
    hide IsUpload, Decide;
  }

  lemma BodyBegins(a: Local, u: Job, m: nat, p: nat, replies: seq<seq<byte>>, waits: bool, k: Limits)
    requires IsUpload(u.stream, u.headLen, ContentLen(u)) && HeadIsHere(a, u, m, k) && m >= u.headLen
    requires Defined(a, k) && Decided(a) == Begin(IMAGE_PATH, u.headLen, ContentLen(u))
    ensures Uploading(OwnReact(a, replies, waits, k), u, m, p, k)
  {
    hide IsUpload, Decide;
    var own := a.heap[u.own];
    assert own[u.headLen..m] == own[..m][u.headLen..] && u.stream[u.headLen..m] == u.stream[..m][u.headLen..];
  }

  lemma StillHarmless(u: Job, mem: seq<byte>, n: nat, p: nat, piece: seq<byte>, k: Limits)
    requires n < u.headLen && Acceptable(u, n, p, piece, k) && n + |piece| <= |mem|
    requires n == 0 ==> mem == Written(u.mem, 0, piece)
    ensures HeadReceive.Harmless(mem, u.headLen, if n == 0 then p else n, n + |piece|)
  {
    hide HeadSpec.IsComplete, HeadSpec.ScanComplete, Written;
  }

  /** An upload whose body arrives together with the end of its head: OnPostImage is called, for an upload that has
      not been begun. The code's behaviour is undefined unless an earlier upload has left usable globals behind; then
      it copies the early part of that one, and answers. */
  lemma WholeAtOnce(l: Local, u: Job, n: nat, p: nat, piece: seq<byte>, replies: seq<seq<byte>>, waits: bool, k: Limits)
    requires Uploading(l, u, n, p, k) && n < u.headLen && piece == u.stream[n..] && |u.stream| <= k.recvBufLen
    requires n == 0 ==> |piece| <= |u.mem| && HeadReceive.Harmless(Written(u.mem, 0, piece), u.headLen, p, |piece|)
    ensures var a := Arrived(l, piece);
            && Sane(a)
            && Receiving(l, Data(piece), Own(replies, waits), k) ==
               if Resumable(a, k) then Going(FinishImage(a, ContentLen(u), k)) else Undefined
    ensures l.store.gRecvBuf.None? ==> Receiving(l, Data(piece), Own(replies, waits), k).Undefined?
  {
    hide IsUpload, Decide, HeadReceive.Harmless, Written, FinishImage, HeadSpec.Readable;
    HeadArrives(l, u, n, p, piece, k);
    var a := Arrived(l, piece);
    WholeDecided(u, a.heap[u.own], if n == 0 then p else n);
    hide Resumable;
    if Resumable(a, k) {
      NeedsGlobals(a, k);
    }
  }

  lemma NeedsGlobals(l: Local, k: Limits)
    requires Sane(l) && Resumable(l, k)
    ensures l.store.gRecvBuf.Some?
  {
  }

  lemma WholeDecided(u: Job, mem: seq<byte>, remembered: nat)
    requires IsUpload(u.stream, u.headLen, ContentLen(u)) && HeadReceive.Holds(mem, u.stream, |u.stream|)
    requires remembered < u.headLen || HeadReceive.Harmless(mem, u.headLen, remembered, |u.stream|)
    ensures HeadSpec.Readable(mem, |u.stream|, remembered)
    ensures Decide(mem, |u.stream|, remembered) == Whole(IMAGE_PATH, u.headLen, ContentLen(u))
  {
    hide IsRequest, Decide, HeadSpec.IsComplete, HeadSpec.ScanComplete;
    assert POST != GET && u.stream[..|u.stream|] == u.stream;
    DecideExactly(mem, u.stream, POST, IMAGE_PATH, u.headLen, ContentLen(u), |u.stream|, remembered);
  }

  // ---- The body ----

  lemma BodyArrives(l: Local, u: Job, n: nat, piece: seq<byte>, k: Limits)
    requires HasRoom(l, u, k) && BodyPhase(l, u, n, k)
    requires piece != [] && n + |piece| <= |u.stream| && piece == u.stream[n..n + |piece|]
    ensures Got(l.conn, piece) == piece && !Overcommitted(l.conn)
    ensures var a, m := Arrived(l, piece), n + |piece|;
            && a.conn == Received(l.conn, |piece|) && a.store == l.store && |a.heap| == |l.heap|
            && a.heap[u.own] == l.heap[u.own] && BodyPhase(a, u, m, k)
  {
    var g, img, k', m := l.store.gBodyLen, l.heap[IMAGE_BUF], n - u.headLen, n + |piece|;
    var b := Written(img, k', piece);
    assert b[g..k'] == img[g..k'];
    assert b[g..m - u.headLen] == b[g..k'] + b[k'..m - u.headLen];
    assert u.stream[u.headLen + g..m] == u.stream[u.headLen + g..n] + u.stream[n..m];
  }

  lemma BodyStep(l: Local, u: Job, n: nat, p: nat, piece: seq<byte>, replies: seq<seq<byte>>, waits: bool, k: Limits)
    requires Uploading(l, u, n, p, k) && u.headLen <= n < |u.stream| && Acceptable(u, n, p, piece, k)
    ensures var o := Receiving(l, Data(piece), Own(replies, waits), k);
            o.Going? && Uploading(o.value, u, n + |piece|, p, k)
  {
    hide IsRequest, HeadReceive.Harmless, Written, BodyPhase, Uploaded, FinishImage;
    assert l.conn.http.state == ReceivingBody by { BodyFields(l, u, n, k); }
    BodyArrives(l, u, n, piece, k);
    var a, m := Arrived(l, piece), n + |piece|;
    BodyFields(l, u, n, k);
    BodyFields(a, u, m, k);
    if m == |u.stream| {
      Finishes(a, u, k);
    }
  }

  lemma BodyFields(l: Local, u: Job, n: nat, k: Limits)
    requires HasRoom(l, u, k) && BodyPhase(l, u, n, k)
    ensures l.conn.http.state == ReceivingBody && l.conn.http.whichIncomplete == Image
    ensures l.conn.http.contentLen == ContentLen(u) && l.conn.recvIdx == n - u.headLen && l.conn.buf == IMAGE_BUF
    ensures Sane(l) && Resumable(l, k)
  {
  }

  /** OnPostImage puts the early part of the body into its gap. */
  lemma Finishes(l: Local, u: Job, k: Limits)
    requires HasRoom(l, u, k) && BodyPhase(l, u, |u.stream|, k) && Sane(l) && Resumable(l, k) && ContentLen(u) > 0
    ensures var r := FinishImage(l, ContentLen(u), k);
            Uploaded(r, u, k) && HasRoom(r, u, k) && r.conn.closed == l.conn.closed
  {
    hide Put200, Put400, Written;
    var g, img := l.store.gBodyLen, l.heap[IMAGE_BUF];
    GapFilled(img, l.heap[u.own][u.headLen..u.headLen + g], u.stream, u.headLen);
  }

  lemma GapFilled(img: seq<byte>, early: seq<byte>, stream: seq<byte>, headLen: nat)
    requires headLen + |early| <= |stream| && |stream| - headLen <= |img|
    requires early == stream[headLen..headLen + |early|]
    requires img[|early|..|stream| - headLen] == stream[headLen + |early|..]
    ensures var r := Written(img, 0, early);
            r[..|stream| - headLen] == stream[headLen..] && r[|stream| - headLen..] == img[|stream| - headLen..]
  {
    var r, len := Written(img, 0, early), |stream| - headLen;
    assert r[..|early|] == r[0..0 + |early|] == early;
    assert r[|early|..len] == img[|early|..len];
    assert r[..len] == r[..|early|] + r[|early|..len];
    assert stream[headLen..] == early + stream[headLen + |early|..];
  }

  /** One recv() of an upload and the application's reaction to it: head and early body in the connection's own
      buffer, the rest in its place in the image buffer, and at the end the whole body. */
  lemma UploadStep(l: Local, u: Job, n: nat, p: nat, piece: seq<byte>, replies: seq<seq<byte>>, waits: bool, k: Limits)
    requires Uploading(l, u, n, p, k) && n < |u.stream| && Acceptable(u, n, p, piece, k)
    ensures var o := Receiving(l, Data(piece), Own(replies, waits), k);
            o.Going? && Uploading(o.value, u, n + |piece|, p, k)
  {
    hide Uploading, Acceptable, Receiving;
    if n < u.headLen {
      HeadStep(l, u, n, p, piece, replies, waits, k);
    } else {
      BodyStep(l, u, n, p, piece, replies, waits, k);
    }
  }
}
