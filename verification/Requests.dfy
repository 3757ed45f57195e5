/** Whole requests, and what OnRecvHead decides however much of one has arrived and whatever it remembers. */
module Requests {
  import opened Bytes
  import opened HeadSpec
  import opened HeadRoundTrip
  import opened Responses
  import opened ServerApp
  import HeadReceive
  import HeadSpans

  /** The stream begins with a head of `headLen` bytes: a GET, or a POST that announces `contentLen` bytes. */
  ghost predicate IsRequest(stream: seq<byte>, m: seq<byte>, path: seq<byte>, headLen: nat, contentLen: nat) {
    var r := ParseRequest(stream, MAX_HDR_NUM);
    && r.Ok? && r.pos == headLen && m in {GET, POST}
    && Slice(stream, r.val.line.method_) == m
    && Slice(stream, r.val.line.path) == path
    && (m == POST ==> FindContentLength(HeadersBytes(stream, r.val.headers)) == contentLen)
  }

  /** What the application should decide when `n` bytes of the request are there. */
  function Expected(m: seq<byte>, path: seq<byte>, headLen: nat, contentLen: nat, n: nat): Decision {
    if n < headLen then NeedMore
    else if m == GET then Get(path)
    else if contentLen <= n - headLen then Whole(path, headLen, contentLen)
    else Begin(path, headLen, contentLen)
  }

  lemma SliceOfPrefix(stream: seq<byte>, n: nat, s: Span)
    requires s.start + s.len <= n <= |stream|
    ensures Slice(stream[..n], s) == Slice(stream, s)
  {
  }

  lemma {:induction false} OrderedWithin(hs: seq<Header>, from: nat, limit: nat)
    requires HeadSpans.Ordered(hs, from, limit)
    ensures from <= limit
    ensures hs != [] ==>
              && hs[0].value.start + hs[0].value.len <= limit
              && (hs[0].name.Some? ==> hs[0].name.value.start + hs[0].name.value.len <= limit)
    decreases |hs|
  {
    if hs != [] {
      OrderedWithin(hs[1..], hs[0].value.start + hs[0].value.len + 1, limit);
    }
  }

  lemma {:induction false} HeadersOfPrefix(stream: seq<byte>, n: nat, hs: seq<Header>, from: nat)
    requires n <= |stream| && HeadSpans.Ordered(hs, from, n)
    ensures HeadersBytes(stream[..n], hs) == HeadersBytes(stream, hs)
    decreases |hs|
  {
    if hs != [] {
      OrderedWithin(hs, from, n);
      SliceOfPrefix(stream, n, hs[0].value);
      if hs[0].name.Some? {
        SliceOfPrefix(stream, n, hs[0].name.value);
      }
      HeadersOfPrefix(stream, n, hs[1..], hs[0].value.start + hs[0].value.len + 1);
    }
  }

  lemma {:induction false} OrderedLater(hs: seq<Header>, from: nat, limit: nat, later: nat)
    requires HeadSpans.Ordered(hs, from, limit) && limit <= later
    ensures HeadSpans.Ordered(hs, from, later)
    decreases |hs|
  {
    if hs != [] {
      OrderedLater(hs[1..], hs[0].value.start + hs[0].value.len + 1, limit, later);
    }
  }

  /** However much of a request has arrived, and whatever the connection remembers: the decision is the expected one if
      and only if the leftover is harmless. */
  lemma DecideExactly(mem: seq<byte>, stream: seq<byte>, m: seq<byte>, path: seq<byte>, headLen: nat, contentLen: nat,
                      n: nat, p: nat)
    requires IsRequest(stream, m, path, headLen, contentLen) && HeadReceive.Holds(mem, stream, n)
    ensures Readable(mem, n, p) && Decide(mem, n, p) == Expected(m, path, headLen, contentLen, n) <==>
            HeadReceive.Harmless(mem, headLen, p, n)
  {
    hide ParseRequest, RequestIn, HeadersBytes, FindContentLength, Slice, IsComplete, Readable;
    hide HeadReceive.Harmless;
    HeadReceive.AnswerExactly(mem, stream, n, p, MAX_HDR_NUM);
    AcceptsParsed(mem, n, p);
    if n >= headLen {
      DecideParsed(stream, m, path, headLen, contentLen, n);
    }
  }

  lemma AcceptsParsed(mem: seq<byte>, n: nat, p: nat)
    requires n <= |mem|
    ensures RequestIn(mem, n, MAX_HDR_NUM, p).Ok? ==>
              RequestIn(mem, n, MAX_HDR_NUM, p) == ParseRequest(mem[..n], MAX_HDR_NUM)
  {
    hide CompleteIn, ParseRequest;
  }

  /** Method, path and fields do not depend on how much follows the head. */
  lemma SameParts(stream: seq<byte>, n: nat)
    requires ParseRequest(stream, MAX_HDR_NUM).Ok? && ParseRequest(stream, MAX_HDR_NUM).pos <= n <= |stream|
    ensures var head := ParseRequest(stream, MAX_HDR_NUM).val;
            && Slice(stream[..n], head.line.method_) == Slice(stream, head.line.method_)
            && Slice(stream[..n], head.line.path) == Slice(stream, head.line.path)
            && HeadersBytes(stream[..n], head.headers) == HeadersBytes(stream, head.headers)
  {
    hide ParseRequest, HeadersBytes, Slice;
    var r := ParseRequest(stream, MAX_HDR_NUM);
    var head := r.val;
    HeadSpans.RequestSpans(stream, MAX_HDR_NUM);
    var from := head.line.path.start + head.line.path.len + 1;
    OrderedLater(head.headers, from, r.pos, n);
    OrderedWithin(head.headers, from, n);
    HeadersOfPrefix(stream, n, head.headers, from);
    SliceOfPrefix(stream, n, head.line.method_);
    SliceOfPrefix(stream, n, head.line.path);
  }

  lemma DecideParsed(stream: seq<byte>, m: seq<byte>, path: seq<byte>, headLen: nat, contentLen: nat, n: nat)
    requires IsRequest(stream, m, path, headLen, contentLen) && headLen <= n <= |stream|
    ensures DecideHead(stream[..n], headLen, ParseRequest(stream, MAX_HDR_NUM).val) ==
            Expected(m, path, headLen, contentLen, n)
  {
    hide ParseRequest, HeadersBytes, FindContentLength, Slice;
    SameParts(stream, n);
    assert POST != GET;
  }

  // ---- Requests that are not served ----

  /** The stream begins with a head of `headLen` bytes of another method, or of a POST without a usable length. */
  ghost predicate IsUnserved(stream: seq<byte>, headLen: nat) {
    var r := ParseRequest(stream, MAX_HDR_NUM);
    && r.Ok? && r.pos == headLen && Unserved(Slice(stream, r.val.line.method_), HeadersBytes(stream, r.val.headers))
  }

  predicate Unserved(m: seq<byte>, fields: seq<(Option<seq<byte>>, seq<byte>)>) {
    m != Ascii("GET") && (m == Ascii("POST") ==> NoUsableLength(fields))
  }

  /** Such a request is refused as soon as its head is there, however much of it has arrived, if the leftover is
      harmless. */
  lemma RefusesUnserved(mem: seq<byte>, stream: seq<byte>, headLen: nat, n: nat, p: nat)
    requires IsUnserved(stream, headLen) && HeadReceive.Holds(mem, stream, n)
    requires HeadReceive.Harmless(mem, headLen, p, n)
    ensures Readable(mem, n, p) && Decide(mem, n, p) == if n < headLen then NeedMore else Refuse
  {
    hide ParseRequest, RequestIn, HeadersBytes, FindContentLength, Slice, IsComplete, Readable, NoUsableLength;
    hide HeadReceive.Harmless;
    HeadReceive.AnswerExactly(mem, stream, n, p, MAX_HDR_NUM);
    AcceptsParsed(mem, n, p);
    if n >= headLen {
      SameParts(stream, n);
      FindsNoneExactly(HeadersBytes(stream, ParseRequest(stream, MAX_HDR_NUM).val.headers));
    }
  }

  /** Every printed request of another method is such a request, and every printed POST whose fields have no
      Content-Length or a first one that is not one to seven digits. */
  lemma PrintedUnserved(m: seq<byte>, path: seq<byte>, minor: nat, fields: seq<Field>, more: seq<byte>)
    requires IsToken(m) && IsPath(path) && minor <= 9 && ValidFields(fields) && |fields| <= 20
    requires Unserved(m, FieldsBytes(fields))
    ensures var text := PrintRequest(m, path, minor, fields);
            IsUnserved(text + more, |text|)
  {
    hide ParseRequest, PrintRequest, HeadersBytes, FieldsBytes, Slice, IsToken, IsPath, ValidFields, Unserved;
    RequestRoundTrip(m, path, minor, fields, more, MAX_HDR_NUM);
  }

  lemma HeadIsNotEmpty(stream: seq<byte>, m: seq<byte>, path: seq<byte>, headLen: nat, contentLen: nat)
    requires IsRequest(stream, m, path, headLen, contentLen)
    ensures 3 < headLen <= |stream|
  {
    hide Slice, HeadersBytes, FindContentLength;
    HeadReceive.LongEnough(stream, MAX_HDR_NUM);
    HeadSpans.RequestSpans(stream, MAX_HDR_NUM);
  }

  /** Every printed GET or POST is such a request, whatever follows it. */
  lemma PrintedRequest(m: seq<byte>, path: seq<byte>, minor: nat, fields: seq<Field>, more: seq<byte>, contentLen: nat)
    requires m in {GET, POST} && IsPath(path) && minor <= 9 && ValidFields(fields) && |fields| <= 20
    requires m == POST ==> FindContentLength(FieldsBytes(fields)) == contentLen
    ensures var text := PrintRequest(m, path, minor, fields);
            IsRequest(text + more, m, path, |text|, contentLen)
  {
    hide ParseRequest, PrintRequest, HeadersBytes, FieldsBytes, FindContentLength, Slice, IsToken, IsPath, ValidFields;
    MethodsAreTokens();
    RequestRoundTrip(m, path, minor, fields, more, MAX_HDR_NUM);
  }

  lemma MethodsAreTokens()
    ensures IsToken(GET) && IsToken(POST) && IsPath(IMAGE_PATH) && IsPath(PARAM_PATH)
  {
  }
}
