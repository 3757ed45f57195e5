/** The application's code: it receives heads, answers, and receives the body of a POST to /image straight into the
    image buffer, behind a gap that is filled at the end with the part of the body that had arrived together with the
    head. Every method is proved against its specification on values in module AppSpec. */
module ImageUpload {
  import opened Bytes
  import opened SendQueue
  import opened Connection
  import opened EventLoop
  import opened ServerApp
  import opened AppSpec
  import HeadSpec

  /** memset */
  method Fill(a: array<byte>, value: byte)
    modifies a
    ensures a[..] == seq(a.Length, _ => value)
  {
    for i := 0 to a.Length
      invariant forall k :: 0 <= k < i ==> a[k] == value
    {
      a[i] := value;
    }
  }

  /** The globals of the upload: the image buffer, and what must be put back and copied at the end. */
  class ImageStore {
    const imageBuffer: array<byte>
    var gRecvBuf: array?<byte>
    ghost var gRecvBufId: nat  // its number
    var gHeadLen: nat
    var gBodyLen: nat

    constructor (maxImageSize: nat)
      ensures fresh(imageBuffer) && imageBuffer.Length == maxImageSize && Globals() == Store(None, 0, 0)
    {
      imageBuffer := new byte[maxImageSize];
      gRecvBuf, gRecvBufId, gHeadLen, gBodyLen := null, 0, 0, 0;
    }

    ghost function Globals(): Store
      reads this
    {
      Store(if gRecvBuf == null then None else Some(gRecvBufId), gHeadLen, gBodyLen)
    }

    /** The globals point at the buffers of their numbers. */
    ghost predicate GlobalsPoint(bufs: seq<array<byte>>)
      reads this
    {
      && IMAGE_BUF < |bufs| && bufs[IMAGE_BUF] == imageBuffer
      && (gRecvBuf != null ==> gRecvBufId < |bufs| && bufs[gRecvBufId] == gRecvBuf)
    }

    /** Receive buffers and globals have the given values, and the connection points at one of the buffers. */
    ghost predicate Memory(c: ElConnection, bufs: seq<array<byte>>, heap: seq<seq<byte>>, globals: Store, k: Limits)
      reads this, c`recvBuf, c`recvBufId, bufs
    {
      && NoAlias(bufs) && Holds(bufs, heap) && c.sendBuf !in bufs
      && c.sendBuf.Length == k.sendBufLen && c.recvBufLen == k.recvBufLen
      && c.Points(bufs) && GlobalsPoint(bufs) && Globals() == globals
    }

    /** Connection, receive buffers and globals are those of the value `l`. */
    ghost predicate Shows(c: ElConnection, bufs: seq<array<byte>>, l: Local, k: Limits)
      reads this, c, c.sendBuf, bufs
    {
      Memory(c, bufs, l.heap, l.store, k) && c.SendBounds() && c.Snapshot() == l.conn
    }

    /** The memset of OnPostImageIncomplete. */
    method ClearImage(ghost bufs: seq<array<byte>>, ghost heap: seq<seq<byte>>)
      requires NoAlias(bufs) && IMAGE_BUF < |bufs| && bufs[IMAGE_BUF] == imageBuffer && Holds(bufs, heap)
      modifies imageBuffer
      ensures Holds(bufs, heap[IMAGE_BUF := Filled(|heap[IMAGE_BUF]|)])
    {
      assert |heap[IMAGE_BUF]| == imageBuffer.Length;
      Fill(imageBuffer, FILLER);
      assert imageBuffer[..] == Filled(imageBuffer.Length);
    }

    /** The rest of OnPostImageIncomplete: from now on recv() writes into the image buffer. */
    method PointAtImage(c: ElConnection, headLen: nat, contentLen: nat, recvdBodyLen: nat, ghost l: Local)
      requires Sane(l) && ImageSize(l) == imageBuffer.Length
      requires c.SendBounds() && c.Snapshot() == l.conn && Globals() == l.store
      requires headLen <= c.recvIdx < headLen + contentLen && recvdBodyLen == c.recvIdx - headLen
      modifies this, c`recvBuf, c`recvBufId, c`toRecv, c`recvIdx, c`recvBufCapacity, c`closed
      ensures c.SendBounds() && c.Snapshot() == BeginImage(l, headLen, contentLen).conn
      ensures Globals() == BeginImage(l, headLen, contentLen).store
      ensures if MIN_IMAGE_SIZE <= contentLen <= imageBuffer.Length
              then gRecvBuf == old(c.recvBuf) && c.recvBuf == imageBuffer
              else gRecvBuf == old(gRecvBuf) && c.recvBuf == old(c.recvBuf)
    {
      assert l.conn.recvIdx == c.recvIdx && l.conn.buf == c.recvBufId;
      hide ElConnection.Outgoing, ElConnection.SendBounds, Filled, Written;
      if MIN_IMAGE_SIZE <= contentLen <= imageBuffer.Length {
        gRecvBuf, gRecvBufId := c.recvBuf, c.recvBufId;
        gHeadLen := headLen;
        gBodyLen := recvdBodyLen;
        SwitchToImage(c, contentLen, recvdBodyLen);
      } else {
        c.Close();
      }
    }

    method SwitchToImage(c: ElConnection, contentLen: nat, recvdBodyLen: nat)
      requires c.SendBounds() && recvdBodyLen < contentLen
      modifies c`recvBuf, c`recvBufId, c`toRecv, c`recvIdx, c`recvBufCapacity
      ensures c.SendBounds() && c.recvBuf == imageBuffer
      ensures c.Snapshot() == old(c.Snapshot()).(buf := IMAGE_BUF, recvIdx := recvdBodyLen,
                                                 toRecv := contentLen - recvdBodyLen, capacity := imageBuffer.Length)
    {
      hide ElConnection.Outgoing, ElConnection.SendBounds;
      c.recvBuf, c.recvBufId := imageBuffer, IMAGE_BUF;
      c.SetupToRecv(contentLen, recvdBodyLen);
      c.recvBufCapacity := imageBuffer.Length;
    }

    /** OnPostImageIncomplete */
    method OnPostImageIncomplete(c: ElConnection, headLen: nat, contentLen: nat, recvdBodyLen: nat,
                                 ghost bufs: seq<array<byte>>, ghost l: Local, ghost k: Limits)
      requires Shows(c, bufs, l, k) && Sane(l)
      requires headLen <= c.recvIdx < headLen + contentLen && recvdBodyLen == c.recvIdx - headLen
      modifies this, imageBuffer, c`recvBuf, c`recvBufId, c`toRecv, c`recvIdx, c`recvBufCapacity, c`closed
      ensures Shows(c, bufs, BeginImage(l, headLen, contentLen), k)
    {
      assert imageBuffer.Length == ImageSize(l);
      c.SnapshotFields();
      ClearImage(bufs, l.heap);
      hide ElConnection.Snapshot, Filled;
      PointAtImage(c, headLen, contentLen, recvdBodyLen, l);
      BeginFields(l, headLen, contentLen);
      c.SnapshotFields();
    }

    static lemma BeginFields(l: Local, headLen: nat, contentLen: nat)
      requires Sane(l) && headLen <= l.conn.recvIdx < headLen + contentLen
      ensures var r := BeginImage(l, headLen, contentLen);
              && r.heap == l.heap[IMAGE_BUF := Filled(ImageSize(l))]
              && if MIN_IMAGE_SIZE <= contentLen <= ImageSize(l)
                 then r.conn.buf == IMAGE_BUF && r.store.gRecvBuf == Some(l.conn.buf)
                 else r.conn.buf == l.conn.buf && r.store == l.store
    {
    }

    /** The rest of OnPostImage: the answer, the connection's own buffer, and the new state. */
    method Answer(c: ElConnection, contentLen: nat, ghost l: Local, ghost k: Limits)
      requires Sane(l) && Resumable(l, k) && ImageSize(l) == imageBuffer.Length && gRecvBuf != null
      requires c.SendBounds() && c.Snapshot() == l.conn && Globals() == l.store
      requires c.sendBuf.Length == k.sendBufLen && c.recvBufLen == k.recvBufLen
      modifies c`recvBuf, c`recvBufId, c`recvBufCapacity, c`toSend, c`state, c.sendBuf
      ensures c.SendBounds() && c.Snapshot() == FinishImage(l, contentLen, k).conn && c.recvBuf == gRecvBuf
    {
      hide Put200, Put400, ElConnection.Outgoing, ElConnection.SendBounds, Written;
      if MIN_IMAGE_SIZE <= contentLen <= imageBuffer.Length {
        Send200(c, []);
      } else {
        Send400(c, []);
      }
      c.recvBuf, c.recvBufId := gRecvBuf, gRecvBufId;
      c.recvBufCapacity := c.recvBufLen;
      c.state := Sending;
    }

    /** OnPostImage, with what AppOnRecv does after it. */
    method OnPostImage(c: ElConnection, contentLen: nat, ghost bufs: seq<array<byte>>, ghost l: Local, ghost k: Limits)
      requires Shows(c, bufs, l, k) && Sane(l) && Resumable(l, k)
      modifies imageBuffer, c`recvBuf, c`recvBufId, c`recvBufCapacity, c`toSend, c`state, c.sendBuf
      ensures Shows(c, bufs, FinishImage(l, contentLen, k), k)
    {
      FinishFields(l, contentLen, k);
      assert gRecvBuf != null && imageBuffer.Length == ImageSize(l);
      assert gRecvBuf[gHeadLen..gHeadLen + gBodyLen] == Early(l, k);
      hide ElConnection.Snapshot, FinishImage;
      WriteBuffer(imageBuffer, 0, gRecvBuf[gHeadLen..gHeadLen + gBodyLen], bufs, IMAGE_BUF, l.heap);
      Answer(c, contentLen, l, k);
      c.SnapshotFields();
    }

    static ghost function Early(l: Local, k: Limits): (early: seq<byte>)
      requires Sane(l) && Resumable(l, k)
      ensures |early| <= ImageSize(l)
    {
      l.heap[l.store.gRecvBuf.value][l.store.gHeadLen..l.store.gHeadLen + l.store.gBodyLen]
    }

    static lemma FinishFields(l: Local, contentLen: nat, k: Limits)
      requires Sane(l) && Resumable(l, k)
      ensures var r := FinishImage(l, contentLen, k);
              && r.heap == l.heap[IMAGE_BUF := Written(l.heap[IMAGE_BUF], 0, Early(l, k))]
              && r.conn.buf == l.store.gRecvBuf.value && r.store == l.store
    {
    }

    /** OnRecvHead, on what the value of the connection says has arrived. */
    method DecideHead(sse: bool, c: ElConnection, ghost bufs: seq<array<byte>>, ghost l: Local, ghost k: Limits)
      returns (d: Decision)
      requires Shows(c, bufs, l, k) && Sane(l) && c.recvIdx <= c.recvBuf.Length
      requires HeadSpec.Readable(c.recvBuf[..], c.recvIdx, c.prevBufLen)
      modifies c`prevBufLen, c`state, c`contentLen
      ensures d == Decided(l) && Shows(c, bufs, l.(conn := Noted(l.conn, d)), k)
    {
      assert c.recvBuf[..] == l.heap[l.conn.buf];
      assert c.recvBuf[..c.recvIdx] == l.heap[l.conn.buf][..l.conn.recvIdx];
      hide Decide, Memory, ElConnection.Outgoing, ElConnection.SendBounds;
      d := OnRecvHead(sse, c);
    }

    /** OnPostIncomplete */
    method OnPostIncomplete(c: ElConnection, path: seq<byte>, headLen: nat, contentLen: nat,
                            ghost bufs: seq<array<byte>>, ghost l: Local, ghost k: Limits)
      requires Shows(c, bufs, l, k) && Sane(l) && headLen <= c.recvIdx < headLen + contentLen
      modifies this, imageBuffer, c`recvBuf, c`recvBufId, c`toRecv, c`recvIdx, c`recvBufCapacity, c`closed
      modifies c`whichIncompleteRequest
      ensures l.conn.recvIdx == old(c.recvIdx)
      ensures Shows(c, bufs, PostIncomplete(l, path, headLen, contentLen), k)
    {
      hide Memory, BeginImage, ElConnection.Outgoing, ElConnection.SendBounds;
      var recvdBodyLen := c.recvIdx - headLen;
      if path == IMAGE_PATH {
        c.whichIncompleteRequest := Image;
        OnPostImageIncomplete(c, headLen, contentLen, recvdBodyLen, bufs, l.(conn := c.Snapshot()), k);
      } else if path == PARAM_PATH {
        c.whichIncompleteRequest := Param;
        c.SetupToRecv(contentLen, recvdBodyLen);
      } else {
        c.Close();
      }
    }

    /** The writes of a handler that answers at once, and the state AppOnRecv enters after it. */
    method Reply(c: ElConnection, replies: seq<seq<byte>>, state: HttpConnState,
                 ghost bufs: seq<array<byte>>, ghost l: Local, ghost k: Limits)
      requires Shows(c, bufs, l, k)
      modifies c`toSend, c`state, c.sendBuf
      ensures Shows(c, bufs, l.(conn := Answered(l.conn, replies, state, k)), k)
    {
      assert c.sendBuf !in bufs && c.sendBuf.Length == k.sendBufLen;
      hide Memory, PutAll, ElConnection.Outgoing, ElConnection.SendBounds;
      WriteAll(c, replies);
      c.state := state;
    }

    static method WriteAll(c: ElConnection, replies: seq<seq<byte>>)
      requires c.SendBounds()
      modifies c`toSend, c.sendBuf
      ensures c.SendBounds() && c.Outgoing() == PutAll(old(c.Outgoing()), replies, c.sendBuf.Length)
    {
      hide Put, ElConnection.Outgoing;
      for k := 0 to |replies|
        invariant c.SendBounds() && c.Outgoing() == PutAll(old(c.Outgoing()), replies[..k], c.sendBuf.Length)
      {
        assert replies[..k + 1][..k] == replies[..k];
        var _ := c.AddToSendBuffer(replies[k]);
      }
      assert replies[..|replies|] == replies;
    }

    /** AppOnRecv while a head is received. */
    method OnHeadData(sse: bool, c: ElConnection, replies: seq<seq<byte>>, waits: bool,
                      ghost bufs: seq<array<byte>>, ghost l: Local, ghost k: Limits)
      requires Shows(c, bufs, l, k) && Defined(l, k) && c.state == ReceivingHead
      modifies this, imageBuffer, c, c.sendBuf
      ensures Shows(c, bufs, OwnReact(l, replies, waits, k), k)
    {
      c.SnapshotFields();
      hide Decide, Memory, PutAll, PostIncomplete, FinishImage, Resumable;
      hide ElConnection.Outgoing, ElConnection.SendBounds;
      var d := DecideHead(sse, c, bufs, l, k);
      ghost var noted := l.(conn := Noted(l.conn, d));
      match d {
        case NeedMore =>
        case Refuse => c.Close();
        case Begin(path, headLen, contentLen) =>
          OnPostIncomplete(c, path, headLen, contentLen, bufs, noted, k);
        case Whole(path, headLen, contentLen) =>
          if path == IMAGE_PATH {
            OnPostImage(c, contentLen, bufs, l, k);
          } else {
            Reply(c, replies, Sending, bufs, l, k);
          }
        case Get(_) => Reply(c, replies, if waits then WaitSending else Sending, bufs, l, k);
      }
    }

    /** OnRecvBody, and AppOnRecv's reaction. */
    method OnBodyData(c: ElConnection, replies: seq<seq<byte>>, waits: bool,
                      ghost bufs: seq<array<byte>>, ghost l: Local, ghost k: Limits)
      requires Shows(c, bufs, l, k) && Defined(l, k) && c.state == ReceivingBody && !Starved(l.conn)
      modifies this, imageBuffer, c, c.sendBuf
      ensures Shows(c, bufs, OwnReact(l, replies, waits, k), k)
    {
      c.SnapshotFields();
      if c.recvIdx < c.contentLen {
        assert c.toRecv > 0;  // ServerApp.c:459
        return;
      }
      hide Decide, Memory, PutAll, FinishImage, Resumable, ElConnection.Outgoing, ElConnection.SendBounds;
      match c.whichIncompleteRequest {
        case Image => OnPostImage(c, c.contentLen, bufs, l, k);
        case Param => Reply(c, replies, Sending, bufs, l, k);
      }
    }

    /** AppOnRecv: data that arrives while a response is sent closes the connection. */
    method AppOnRecv(sse: bool, c: ElConnection, replies: seq<seq<byte>>, waits: bool,
                     ghost bufs: seq<array<byte>>, ghost l: Local, ghost k: Limits)
      requires Shows(c, bufs, l, k) && Defined(l, k) && !Starved(l.conn)
      modifies this, imageBuffer, c, c.sendBuf
      ensures Shows(c, bufs, OwnReact(l, replies, waits, k), k)
    {
      c.SnapshotFields();
      match c.state {
        case ReceivingHead => OnHeadData(sse, c, replies, waits, bufs, l, k);
        case ReceivingBody => OnBodyData(c, replies, waits, bufs, l, k);
        case _ =>
          hide Memory, Decide, ElConnection.Outgoing, ElConnection.SendBounds;
          c.Close();
      }
    }
  }
}
