/** Where the spans of a parsed request lie, and what bytes they hold. */
module HeadSpans {
  import opened Bytes
  import opened HeadSpec
  import opened HeadWindow

  ghost predicate AllBytes(buf: seq<byte>, s: Span, p: byte -> bool) {
    s.start + s.len <= |buf| && forall k :: s.start <= k < s.start + s.len ==> p(buf[k])
  }

  /** A header name is a non-empty token; a value holds no control character but HT and ends in no blank. */
  ghost predicate HeaderContents(buf: seq<byte>, h: Header) {
    && (h.name.Some? ==> h.name.value.len > 0 && AllBytes(buf, h.name.value, (c: byte) => IsTokenChar(c)))
    && AllBytes(buf, h.value, (c: byte) => !IsControl(c))
    && (h.value.len > 0 ==> !IsBlank(buf[h.value.start + h.value.len - 1]))
  }

  /** The slices follow one another inside [from, limit): names before values, header after header. */
  ghost predicate Ordered(hs: seq<Header>, from: nat, limit: nat)
    decreases |hs|
  {
    if hs == [] then from <= limit
    else
      var h := hs[0];
      && (match h.name
          case Some(n) => from <= n.start && n.start + n.len < h.value.start
          case None => from <= h.value.start)
      && Ordered(hs[1..], h.value.start + h.value.len + 1, limit)
  }

  ghost predicate HeadersFit(buf: seq<byte>, hs: seq<Header>, from: nat, limit: nat) {
    Ordered(hs, from, limit) && forall i :: 0 <= i < |hs| ==> HeaderContents(buf, hs[i])
  }

  lemma {:induction false} TrimmedEnd(buf: seq<byte>, start: nat, end: nat)
    requires start <= end <= |buf|
    ensures TrimEnd(buf, start, end) > start ==> !IsBlank(buf[TrimEnd(buf, start, end) - 1])
    decreases end
  {
    if end > start && IsBlank(buf[end - 1]) {
      TrimmedEnd(buf, start, end - 1);
    }
  }

  lemma {:induction false} LineText(buf: seq<byte>, i: nat)
    requires ScanEol(buf, i).Ok?
    ensures forall k :: i <= k < ScanEol(buf, i).val ==> !IsControl(buf[k])
    decreases |buf| - i
  {
    if !IsControl(buf[i]) {
      LineText(buf, i + 1);
    }
  }

  lemma HeaderFits(buf: seq<byte>, i: nat, first: bool)
    requires i < |buf| && ParseHeader(buf, i, first).Ok?
    ensures var r := ParseHeader(buf, i, first);
            && HeaderContents(buf, r.val)
            && (first ==> r.val.name.Some?)
            && r.val.value.start + r.val.value.len < r.pos
            && match r.val.name
               case Some(n) => i == n.start && n.start + n.len < r.val.value.start
               case None => i == r.val.value.start
  {
    NameText(buf, i, first);
    var start := ParseName(buf, i, first).pos;
    hide ParseName, ScanEol;
    LineText(buf, start);
    TrimmedEnd(buf, start, ScanEol(buf, start).val);
  }

  lemma {:induction false} HeadersFitFrom(buf: seq<byte>, i: nat, parsed: seq<Header>, maxHeaders: nat)
    returns (hs: seq<Header>)
    requires ParseHeaders(buf, i, parsed, maxHeaders).Ok? && |parsed| <= maxHeaders
    ensures ParseHeaders(buf, i, parsed, maxHeaders).val == parsed + hs
    ensures |parsed + hs| <= maxHeaders
    ensures HeadersFit(buf, hs, i, ParseHeaders(buf, i, parsed, maxHeaders).pos)
    ensures parsed == [] && hs != [] ==> hs[0].name.Some?
    decreases |buf| - i
  {
    hide ParseHeader, HeaderContents;
    var line := NewLine(buf, i);
    hide NewLine;
    if line.val {
      hs := [];
      assert parsed + hs == parsed;
    } else {
      var r := ParseHeader(buf, i, |parsed| == 0);
      HeaderFits(buf, i, |parsed| == 0);
      var rest := HeadersFitFrom(buf, r.pos, parsed + [r.val], maxHeaders);
      hs := [r.val] + rest;
      assert parsed + hs == parsed + [r.val] + rest;
      assert hs[1..] == rest;
      var limit := ParseHeaders(buf, i, parsed, maxHeaders).pos;
      OrderedFromEarlier(rest, r.pos, r.val.value.start + r.val.value.len + 1, limit);
    }
  }

  lemma OrderedFromEarlier(hs: seq<Header>, from: nat, earlier: nat, limit: nat)
    requires Ordered(hs, from, limit) && earlier <= from
    ensures Ordered(hs, earlier, limit)
  {
  }

  /** Every successful parse: method, path, header names and values are ordered, disjoint slices inside the consumed
      bytes; method and names are non-empty tokens, the path is non-empty without SP, control characters and DEL;
      only a header after the first may continue another; there are at most `maxHeaders`. */
  lemma RequestSpans(buf: seq<byte>, maxHeaders: nat)
    requires ParseRequest(buf, maxHeaders).Ok?
    ensures var r := ParseRequest(buf, maxHeaders);
            var line, hs := r.val.line, r.val.headers;
            && line.method_.len > 0 && AllBytes(buf, line.method_, (c: byte) => IsTokenChar(c))
            && line.path.len > 0 && AllBytes(buf, line.path, (c: byte) => c > 32 && c != DEL)
            && line.method_.start + line.method_.len < line.path.start
            && line.minorVersion <= 9
            && HeadersFit(buf, hs, line.path.start + line.path.len + 1, r.pos)
            && (hs != [] ==> hs[0].name.Some?)
            && |hs| <= maxHeaders
  {
    RequestLineSpans(buf);
    var first := ParseRequestLine(buf);
    hide ParseRequestLine, ParseHeaders;
    var hs := HeadersFitFrom(buf, first.pos, [], maxHeaders);
    assert [] + hs == hs;
    OrderedFromEarlier(hs, first.pos, first.val.path.start + first.val.path.len + 1, ParseRequest(buf, maxHeaders).pos);
  }

  lemma RequestLineSpans(buf: seq<byte>)
    requires ParseRequestLine(buf).Ok?
    ensures var r := ParseRequestLine(buf);
            var line := r.val;
            && line.method_.len > 0 && AllBytes(buf, line.method_, (c: byte) => IsTokenChar(c))
            && line.path.len > 0 && AllBytes(buf, line.path, (c: byte) => c > 32 && c != DEL)
            && line.method_.start + line.method_.len < line.path.start
            && line.path.start + line.path.len + 1 < r.pos && line.minorVersion <= 9
  {
    TargetText(buf);
    hide ParseTarget, ParseVersion;
  }
}
