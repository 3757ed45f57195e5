/** One connection of the server: its send and receive buffers and what the event loop and the application do
    to them. */
module Connection {
  import opened Bytes
  import opened SendQueue
  import opened ChunkEncoder

  datatype HttpConnState = ReceivingHead | ReceivingBody | Sending | WaitSending

  datatype PostRequest = Image | Param

  /** The result of send() or recv() on a non-blocking socket: a count, "would block", or another error. */
  datatype IoResult = Count(n: nat) | WouldBlock | Error

  /** What the application keeps of a request in progress. */
  datatype HttpState = HttpState(state: HttpConnState, whichIncomplete: PostRequest, prevBufLen: nat, contentLen: nat)

  /** A connection as a value. Receive buffers are known by their numbers: `buf` is the one recv() writes to. */
  datatype Conn = Conn(fd: int, queue: Queue, buf: nat, toRecv: nat, recvIdx: nat, capacity: nat, closed: bool,
                       totalRecv: nat, http: HttpState)

  /** recv() has put `n` bytes behind what was there. */
  function Received(s: Conn, n: nat): Conn
    requires n <= s.toRecv
  {
    s.(toRecv := s.toRecv - n, recvIdx := s.recvIdx + n, totalRecv := s.totalRecv + n)
  }

  /** A buffer into which `data` has been written. */
  function Written(buffer: seq<byte>, at: nat, data: seq<byte>): (r: seq<byte>)
    requires at + |data| <= |buffer|
    ensures |r| == |buffer| && r[at..at + |data|] == data
    ensures forall i :: 0 <= i < at || at + |data| <= i < |buffer| ==> r[i] == buffer[i]
  {
    buffer[..at] + data + buffer[at + |data|..]
  }

  lemma WrittenExactly(a: seq<byte>, b: seq<byte>, at: nat, data: seq<byte>)
    requires |a| == |b| && at + |data| <= |a| && b[at..at + |data|] == data
    requires forall i :: 0 <= i < at || at + |data| <= i < |a| ==> b[i] == a[i]
    ensures b == Written(a, at, data)
  {
    assert b == b[..at] + b[at..at + |data|] + b[at + |data|..];
  }

  /** The contents of all receive buffers. */
  ghost predicate Holds(bufs: seq<array<byte>>, heap: seq<seq<byte>>)
    reads bufs
  {
    |bufs| == |heap| && forall i :: 0 <= i < |bufs| ==> bufs[i][..] == heap[i]
  }

  /** Different numbers are different buffers. */
  ghost predicate NoAlias(bufs: seq<array<byte>>) {
    forall i, j :: 0 <= i < j < |bufs| ==> bufs[i] != bufs[j]
  }

  /** send() has answered `result`. Once everything is sent, a finished response makes room for the next request; the
      number of bytes the parser had seen is not reset. */
  function Sent(s: Conn, result: IoResult, recvBufLen: nat): Conn
    requires result.Count? ==> result.n <= |s.queue.pending|
  {
    match result
    case WouldBlock => s
    case Error => s.(closed := true)
    case Count(n) =>
      var t := s.(queue := Take(s.queue, n));
      if t.queue.pending == [] && s.http.state == Sending then
        t.(http := t.http.(state := ReceivingHead), recvIdx := 0, toRecv := recvBufLen)
      else t
  }

  class ElConnection {
    var fd: int
    const sendBuf: array<byte>
    var toSend: nat
    var sendIdx: nat
    var recvBuf: array<byte>
    ghost var recvBufId: nat  // the number of recvBuf
    var toRecv: nat
    var recvIdx: nat
    var recvBufCapacity: nat
    var closed: bool
    var totalRecv: nat
    var totalSend: nat
    var state: HttpConnState
    var whichIncompleteRequest: PostRequest
    var prevBufLen: nat
    var contentLen: nat
    const recvBufLen: nat  // RECV_BUF_LEN

    /** The bounds of the send buffer; SEND_BUF_LEN is the length of the array. */
    predicate SendBounds()
      reads this`toSend, this`sendIdx
    {
      sendIdx + toSend < sendBuf.Length && (toSend == 0 ==> sendIdx == 0)
    }

    /** What waits to be sent, as a queue. */
    function Outgoing(): Queue
      reads this`toSend, this`sendIdx, this`totalSend, sendBuf
      requires SendBounds()
    {
      Queue(sendBuf[sendIdx..sendIdx + toSend], sendIdx, totalSend)
    }

    ghost function Snapshot(): Conn
      reads this, sendBuf
      requires SendBounds()
    {
      Conn(fd, Outgoing(), recvBufId, toRecv, recvIdx, recvBufCapacity, closed, totalRecv, Http())
    }

    function Http(): HttpState
      reads this`state, this`whichIncompleteRequest, this`prevBufLen, this`contentLen
    {
      HttpState(state, whichIncompleteRequest, prevBufLen, contentLen)
    }

    /** recvBuf is the buffer of its number. */
    ghost predicate Points(bufs: seq<array<byte>>)
      reads this`recvBuf, this`recvBufId
    {
      recvBufId < |bufs| && bufs[recvBufId] == recvBuf
    }

    lemma SnapshotFields()
      requires SendBounds()
      ensures var s := Snapshot();
              && s.fd == fd && |s.queue.pending| == toSend && s.toRecv == toRecv && s.closed == closed
              && s.recvIdx == recvIdx && s.capacity == recvBufCapacity && s.buf == recvBufId && s.http == Http()
    {
    }

    /** A connection object that is not in use yet: its HTTP state is whatever the memory held. */
    constructor (http: HttpState, sendBufLen: nat, recvBufLen: nat)
      ensures fresh(sendBuf) && sendBuf.Length == sendBufLen && this.recvBufLen == recvBufLen && Http() == http
    {
      this.fd, this.recvBufLen := -1, recvBufLen;
      sendBuf := new byte[sendBufLen];
      recvBuf := new byte[0];
      recvBufId := 0;
      toSend, sendIdx, totalSend, totalRecv, closed := 0, 0, 0, 0, false;
      toRecv, recvIdx, recvBufCapacity := 0, 0, 0;
      state, whichIncompleteRequest := http.state, http.whichIncomplete;
      prevBufLen, contentLen := http.prevBufLen, http.contentLen;
    }

    /** EL_Close */
    method Close()
      modifies this`closed
      ensures closed
      ensures SendBounds() ==> Snapshot() == old(Snapshot()).(closed := true)
    {
      closed := true;
    }

    /** EL_SetupToRecv */
    method SetupToRecv(totalToRecv: nat, recvd: nat)
      requires recvd < totalToRecv
      modifies this`toRecv, this`recvIdx
      ensures toRecv == totalToRecv - recvd && recvIdx == recvd
    {
      toRecv := totalToRecv - recvd;
      recvIdx := recvd;
    }

    /** EL_AddToSendBuffer: all of the data is appended to what waits if it ends before the end of the buffer, else none
        of it. */
    method AddToSendBuffer(data: seq<byte>) returns (sufficient: bool)
      requires SendBounds()
      modifies this`toSend, sendBuf
      ensures SendBounds() && (sufficient <==> old(sendIdx) + old(toSend) + |data| < sendBuf.Length)
      ensures sendBuf[sendIdx..sendIdx + toSend] ==
              old(sendBuf[sendIdx..sendIdx + toSend]) + (if sufficient then data else [])
      ensures Outgoing() == Put(old(Outgoing()), data, sendBuf.Length)
      ensures toSend == old(toSend) + (if sufficient then |data| else 0)
    {
      var sendBufUsed := sendIdx + toSend;
      sufficient := sendBufUsed + |data| < sendBuf.Length;
      if sufficient {
        ghost var waiting := sendBuf[sendIdx..sendBufUsed];
        CopyInto(sendBuf, sendBufUsed, data);
        toSend := toSend + |data|;
        assert sendBuf[sendIdx..sendBufUsed] == waiting;
        assert sendBuf[sendIdx..sendIdx + toSend] == waiting + sendBuf[sendBufUsed..sendBufUsed + |data|];
        if |data| == 0 {
          assert waiting + data == waiting;
        }
      }
    }

    /** AppOnSend, when everything has been sent: a finished response makes room for the next request. The number of
        bytes the parser had seen is not reset. */
    method AppOnSend()
      modifies this`state, this`recvIdx, this`toRecv
      ensures if toSend == 0 && old(state) == Sending
              then state == ReceivingHead && recvIdx == 0 && toRecv == recvBufLen
              else state == old(state) && recvIdx == old(recvIdx) && toRecv == old(toRecv)
    {
      if toSend == 0 && state == Sending {
        state := ReceivingHead;
        recvIdx := 0;
        toRecv := recvBufLen;
      }
    }

    /** The part of DoSend after send() has taken `r` bytes: they leave the queue; an emptied buffer is rewound. */
    method OnSent(r: nat)
      requires SendBounds() && 0 < toSend && r <= toSend
      modifies this`toSend, this`sendIdx, this`totalSend, this`state, this`recvIdx, this`toRecv
      ensures SendBounds() && Outgoing() == Take(old(Outgoing()), r)
      ensures if r == old(toSend) && old(state) == Sending
              then state == ReceivingHead && recvIdx == 0 && toRecv == recvBufLen
              else state == old(state) && recvIdx == old(recvIdx) && toRecv == old(toRecv)
    {
      ghost var waiting := sendBuf[sendIdx..sendIdx + toSend];
      toSend := toSend - r;
      totalSend := totalSend + r;
      if toSend == 0 {
        AppOnSend();
        sendIdx := 0;
      } else {
        sendIdx := sendIdx + r;
      }
      assert sendBuf[sendIdx..sendIdx + toSend] == waiting[r..];
    }

    /** DoSend */
    method DoSend(result: IoResult)
      requires SendBounds() && toSend > 0
      requires result.Count? ==> result.n <= toSend
      modifies this`toSend, this`sendIdx, this`totalSend, this`state, this`recvIdx, this`toRecv, this`closed
      ensures SendBounds() && Snapshot() == Sent(old(Snapshot()), result, recvBufLen)
    {
      hide Outgoing, Take;
      match result
      case WouldBlock =>
      case Error => Close();
      case Count(r) =>
        SentFields(r);
        OnSent(r);
    }

    lemma SentFields(r: nat)
      requires SendBounds() && r <= toSend
      ensures |Outgoing().pending| == toSend
      ensures Take(Outgoing(), r).pending == [] <==> r == toSend
    {
    }

    /** The successful part of DoRecv: recv() has put `data` behind what was there. */
    method Receive(data: seq<byte>)
      requires 0 < |data| <= toRecv && recvIdx + toRecv <= recvBuf.Length
      modifies this`toRecv, this`recvIdx, this`totalRecv, recvBuf
      ensures toRecv == old(toRecv) - |data| && recvIdx == old(recvIdx) + |data|
      ensures totalRecv == old(totalRecv) + |data|
      ensures recvBuf[old(recvIdx)..recvIdx] == data
      ensures forall i :: 0 <= i < old(recvIdx) || recvIdx <= i < recvBuf.Length ==> recvBuf[i] == old(recvBuf[i])
    {
      CopyInto(recvBuf, recvIdx, data);
      toRecv := toRecv - |data|;
      recvIdx := recvIdx + |data|;
      totalRecv := totalRecv + |data|;
    }

    /** SendChunkWithData: the size line, the data and the line end; the three results are ignored. */
    method SendChunkWithData(chunk: seq<byte>)
      requires SendBounds() && 0 < |chunk| <= MAX_CHUNK_LEN
      modifies this`toSend, sendBuf
      ensures SendBounds() && Outgoing() == PutChunk(old(Outgoing()), chunk, sendBuf.Length)
      ensures toSend >= old(toSend)
    {
      var len := |chunk|;
      var line;
      if len <= 0xf {
        line := [HexDigit(len), CR, LF];
      } else if len <= 0xff {
        line := [HexDigit(len / 16), HexDigit(len % 16), CR, LF];
      } else {
        line := [HexDigit(len / 256), HexDigit(len / 16 % 16), HexDigit(len % 16), CR, LF];
      }
      assert line == SizeLine(len);
      var _ := AddToSendBuffer(line);
      var _ := AddToSendBuffer(chunk);
      var _ := AddToSendBuffer([CR, LF]);
    }
  }

  /** Writing into one of the receive buffers leaves the others alone. */
  method WriteBuffer(a: array<byte>, at: nat, data: seq<byte>, ghost bufs: seq<array<byte>>, ghost id: nat,
                     ghost heap: seq<seq<byte>>)
    requires NoAlias(bufs) && id < |bufs| && bufs[id] == a && Holds(bufs, heap) && at + |data| <= a.Length
    modifies a
    ensures Holds(bufs, heap[id := Written(heap[id], at, data)])
  {
    ghost var was := a[..];
    CopyInto(a, at, data);
    WrittenExactly(was, a[..], at, data);
    hide Written;
  }

  /** memcpy from a value into an array. */
  method CopyInto(a: array<byte>, start: nat, data: seq<byte>)
    requires start + |data| <= a.Length
    modifies a
    ensures a[start..start + |data|] == data
    ensures forall i :: 0 <= i < start || start + |data| <= i < a.Length ==> a[i] == old(a[i])
  {
    var n := 0;
    while n < |data|
      invariant 0 <= n <= |data|
      invariant a[start..start + n] == data[..n]
      invariant forall i :: 0 <= i < start || start + n <= i < a.Length ==> a[i] == old(a[i])
    {
      a[start + n] := data[n];
      n := n + 1;
    }
  }
}
