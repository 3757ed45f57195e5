/** A scan that passes over acceptable bytes is the scan of what follows them. */
module HeadSkips {
  import opened Bytes
  import opened HeadSpec

  lemma {:induction false} SkipTokenBytes(buf: seq<byte>, i: nat, j: nat, delim: byte)
    requires i <= j <= |buf|
    requires forall k :: i <= k < j ==> IsTokenChar(buf[k]) && buf[k] != delim
    ensures ScanToken(buf, i, delim) == ScanToken(buf, j, delim)
    decreases j - i
  {
    if i < j {
      SkipTokenBytes(buf, i + 1, j, delim);
    }
  }

  lemma {:induction false} SkipPathBytes(buf: seq<byte>, i: nat, j: nat)
    requires i <= j <= |buf|
    requires forall k :: i <= k < j ==> buf[k] > 32 && buf[k] != DEL
    ensures ScanPath(buf, i) == ScanPath(buf, j)
    decreases j - i
  {
    if i < j {
      SkipPathBytes(buf, i + 1, j);
    }
  }

  lemma {:induction false} SkipTextBytes(buf: seq<byte>, i: nat, j: nat)
    requires i <= j <= |buf|
    requires forall k :: i <= k < j ==> !IsControl(buf[k])
    ensures ScanEol(buf, i) == ScanEol(buf, j)
    decreases j - i
  {
    if i < j {
      SkipTextBytes(buf, i + 1, j);
    }
  }

  lemma {:induction false} SkipBlankBytes(buf: seq<byte>, i: nat, j: nat)
    requires i <= j <= |buf|
    requires forall k :: i <= k < j ==> IsBlank(buf[k])
    ensures SkipBlanks(buf, i) == SkipBlanks(buf, j)
    decreases j - i
  {
    if i < j {
      SkipBlankBytes(buf, i + 1, j);
    }
  }

  lemma {:induction false} TrimBlankBytes(buf: seq<byte>, start: nat, end: nat, last: nat)
    requires start <= end <= last <= |buf|
    requires forall k :: end <= k < last ==> IsBlank(buf[k])
    ensures TrimEnd(buf, start, last) == TrimEnd(buf, start, end)
    decreases last
  {
    if end < last {
      TrimBlankBytes(buf, start, end, last - 1);
    }
  }
}
