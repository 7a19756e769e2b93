/**
 The QDA packets of src/qda/qda_packets.h and the exchanges of src/qda/qda.c: a request
 is built in a static buffer and sent as one XMODEM package, and the answer is received
 into the same buffer.
 */
module QdaPackets {
  import opened Words

  const DNLOAD_REQ: u32 := 0x4D550101
  const UPLOAD_REQ: u32 := 0x4D550102
  const GETSTATUS_REQ: u32 := 0x4D550103
  const ACKNOWLEDGED: u32 := 0x4D558003
  const UPLOAD_RESP: u32 := 0x4D558102
  const GETSTATUS_RESP: u32 := 0x4D558103

  const BUF_SIZE := 8192
  const MAX_DOWNLOAD := 8184   // what the buffer holds besides a DNLOAD header
  const MAX_UPLOAD := 8186     // what it holds besides an UPLOAD_RESP header

  // A package of at least four bytes begins with its type.
  function TypeOf(b: seq<byte>): u32
    requires |b| >= 4
  {
    Word32(b[..4])
  }

  function DownloadRequest(blockNum: u16, data: seq<byte>): (b: seq<byte>)
    requires |data| <= MAX_DOWNLOAD
    ensures |b| == 8 + |data|
  {
    Le32(DNLOAD_REQ) + Le16(|data|) + Le16(blockNum) + data
  }

  function UploadRequest(maxLen: u16, blockNum: u16): (b: seq<byte>)
    ensures |b| == 8
  {
    Le32(UPLOAD_REQ) + Le16(maxLen) + Le16(blockNum)
  }

  function StatusRequest(): (b: seq<byte>)
    ensures |b| == 4
  {
    Le32(GETSTATUS_REQ)
  }

  function UploadResponse(data: seq<byte>): (b: seq<byte>)
    requires |data| <= MAX_UPLOAD
    ensures |b| == 6 + |data|
  {
    Le32(UPLOAD_RESP) + Le16(|data|) + data
  }

  function StatusResponse(pollTimeout: u32, status: byte, state: byte): (b: seq<byte>)
    ensures |b| == 10
  {
    Le32(GETSTATUS_RESP) + Le32(pollTimeout) + [status, state]
  }

  // ----- the far end's view of a request -----

  datatype Block = Block(no: u16, data: seq<byte>)
  datatype Decoded = DownloadOf(block: Block) | UploadOf(maxLen: u16, no: u16) | StatusAsked | Other

  function Decode(b: seq<byte>): Decoded {
    if |b| < 4 then Other
    else if TypeOf(b) == GETSTATUS_REQ then StatusAsked
    else if |b| < 8 then Other
    else if TypeOf(b) == UPLOAD_REQ then UploadOf(Word16(b[4], b[5]), Word16(b[6], b[7]))
    else if TypeOf(b) == DNLOAD_REQ then
      var len := Word16(b[4], b[5]) as nat;
      if |b| < 8 + len then Other else DownloadOf(Block(Word16(b[6], b[7]), b[8..8 + len]))
    else Other
  }

  lemma TypeSurvives(t: u32, rest: seq<byte>)
    ensures TypeOf(Le32(t) + rest) == t
  {
    hide Le32, Word32;
    assert (Le32(t) + rest)[..4] == Le32(t);
    Word32OfLe32(Le32(t), t);
  }

  /** A download request comes out of any package it begins, whatever pads it. */
  lemma DownloadSurvivesPadding(blockNum: u16, data: seq<byte>, padding: seq<byte>)
    requires |data| <= MAX_DOWNLOAD
    ensures Decode(DownloadRequest(blockNum, data) + padding) == DownloadOf(Block(blockNum, data))
  {
    hide Le32, TypeOf;
    var b := DownloadRequest(blockNum, data) + padding;
    assert b == Le32(DNLOAD_REQ) + (Le16(|data|) + Le16(blockNum) + data + padding);
    TypeSurvives(DNLOAD_REQ, Le16(|data|) + Le16(blockNum) + data + padding);
    Word16OfLe16(|data|);
    Word16OfLe16(blockNum);
    assert b[8..8 + |data|] == data;
  }

  /** So does an upload request, with its length and its number. */
  lemma UploadSurvivesPadding(maxLen: u16, blockNum: u16, padding: seq<byte>)
    ensures Decode(UploadRequest(maxLen, blockNum) + padding) == UploadOf(maxLen, blockNum)
  {
    hide Le32, TypeOf;
    var b := UploadRequest(maxLen, blockNum) + padding;
    assert b == Le32(UPLOAD_REQ) + (Le16(maxLen) + Le16(blockNum) + padding);
    TypeSurvives(UPLOAD_REQ, Le16(maxLen) + Le16(blockNum) + padding);
    Word16OfLe16(maxLen);
    Word16OfLe16(blockNum);
  }

  /** And a status request. */
  lemma StatusSurvivesPadding(padding: seq<byte>)
    ensures Decode(StatusRequest() + padding) == StatusAsked
  {
    hide Le32, Word32;
    TypeSurvives(GETSTATUS_REQ, padding);
  }

  /** The requests byte by byte, as the device's side of the protocol fixes them. */
  lemma RequestBytes(len: u16, blockNum: u16, data: seq<byte>)
    requires |data| <= MAX_DOWNLOAD
    ensures DownloadRequest(blockNum, data)
      == [0x01, 0x01, 0x55, 0x4D, |data| % 256, |data| / 256, blockNum % 256, blockNum / 256] + data
    ensures UploadRequest(len, blockNum)
      == [0x02, 0x01, 0x55, 0x4D, len % 256, len / 256, blockNum % 256, blockNum / 256]
    ensures StatusRequest() == [0x03, 0x01, 0x55, 0x4D]
  {
  }
}

module QdaLink {
  import opened Words
  import opened QdaPackets
  import opened XmodemProtocol

  // The host's end: qda_buf, the packet buffer, the script to come and what has been sent.
  datatype Link = Link(buf: seq<byte>, packet: Packet, script: Script, sent: seq<byte>)
  {
    ghost predicate Valid() {
      |buf| == BUF_SIZE
    }
  }

  function Overlay(front: seq<byte>, buf: seq<byte>): (r: seq<byte>)
    requires |front| <= |buf|
    ensures |r| == |buf| && front <= r
  {
    front + buf[|front|..]
  }

  // The send callback on the first n bytes of the buffer, and what it returns.
  function SendFront(l: Link, n: nat): (int, Link)
    requires n <= |l.buf|
  {
    var run := Transmit(SenderStart(l.buf[..n], l.packet), l.script);
    (if run.final.phase.Sent? then run.final.phase.ret else -1,
     l.(packet := run.final.packet, script := run.rest, sent := l.sent + run.sent))
  }

  // The receive callback into the whole buffer; its result is ignored.
  function ReceiveAll(l: Link): (l': Link)
    requires l.Valid()
    ensures l'.Valid() && |l'.script| <= |l.script|
  {
    var run := Receive(ReceiverStart(BUF_SIZE, l.packet), l.script);
    ReceiveBounds(ReceiverStart(BUF_SIZE, l.packet), l.script);
    ReceiveShrinks(ReceiverStart(BUF_SIZE, l.packet), l.script);
    l.(buf := Overlay(run.final.data, l.buf), packet := run.final.packet, script := run.rest, sent := l.sent + run.sent)
  }

  // Whether the request was sent, and the link afterwards; after a failure the buffer still holds the request.
  datatype Exchanged = Exchanged(ok: bool, link: Link)

  function Exchange(l: Link, request: seq<byte>): (e: Exchanged)
    requires l.Valid() && |request| <= BUF_SIZE
    ensures e.link.Valid() && |e.link.script| <= |l.script|
    ensures e.ok ==> |e.link.script| < |l.script|
  {
    var (rc, sent) := SendFront(l.(buf := Overlay(request, l.buf)), |request|);
    TransmitShrinks(SenderStart(request, l.packet), l.script);
    assert Overlay(request, l.buf)[..|request|] == request;
    if rc < 0 then Exchanged(false, sent) else Exchanged(true, ReceiveAll(sent))
  }

  lemma {:induction false} ReceiveShrinks(r: Receiver, script: Script)
    ensures |Receive(r, script).rest| <= |script|
    decreases |script|, if r.running && r.errors < MAX_RX_ERRORS then MAX_RX_ERRORS - r.errors + 1
      else if r.running then 1 else 0
  {
    hide ReadPkt;
    if r.running {
      ReadPktShrinks(r.packet, r.exp, r.room, script);
      var (r', rest) := ReceiverStep(r, script);
      ReceiveShrinks(r', rest);
    }
  }

  // A sender that succeeds has heard something.
  lemma {:induction false} TransmitShrinks(s: Sender, script: Script)
    requires s.left < MAX_RETRANSMIT
    ensures var run := Transmit(s, script);
      |run.rest| <= |script| && (run.final.phase.Sent? && !s.phase.Sent? ==> |run.rest| < |script|)
    decreases Effort(s)
  {
    hide Framed;
    if !s.Done() {
      TransmitShrinks(React(s, Response(script)), Tail(script));
    }
  }

  // ----- the calls -----

  datatype DfuStatus = Unread | DfuStatus(state: byte, status: byte, pollTimeout: u32)

  // What a request's answer, or the lack of one, means to each call.
  predicate Acknowledged(reply: Exchanged)
    requires reply.link.Valid()
  {
    reply.ok && TypeOf(reply.link.buf) == ACKNOWLEDGED
  }

  function StatusOf(reply: Exchanged): DfuStatus
    requires reply.link.Valid()
  {
    var b := reply.link.buf;
    if reply.ok && TypeOf(b) == GETSTATUS_RESP then DfuStatus.DfuStatus(b[9], b[8], Word32(b[4..8])) else Unread
  }

  // The bytes an upload yields, or none at all; or it reads on beyond the end of the buffer.
  datatype Uploaded = Failed | Uploaded(data: seq<byte>) | Overread

  function UploadedBy(reply: Exchanged, maxLen: u16): Uploaded
    requires reply.link.Valid()
  {
    var b := reply.link.buf;
    if !reply.ok || TypeOf(b) != UPLOAD_RESP then Failed
    else if Word16(b[4], b[5]) > maxLen then Failed
    else if Word16(b[4], b[5]) > MAX_UPLOAD then Overread
    else Uploaded(b[6..6 + Word16(b[4], b[5]) as nat])
  }

  // qda_dfu_download: a block that does not fit the buffer is refused before anything is
  // sent, but its header has been written.
  function DownloadCall(l: Link, blockNum: u16, data: seq<byte>): (e: Exchanged)
    requires l.Valid() && |data| < 0x1_0000
    ensures e.link.Valid() && |e.link.script| <= |l.script|
    ensures e.ok ==> |e.link.script| < |l.script|
  {
    if |data| > MAX_DOWNLOAD then
      Exchanged(false, l.(buf := Overlay(Le32(DNLOAD_REQ) + Le16(|data|) + Le16(blockNum), l.buf)))
    else Exchange(l, DownloadRequest(blockNum, data))
  }
}

module Qda {
  import opened Words
  import opened QdaPackets
  import opened QdaLink
  import opened XmodemProtocol
  import opened Xmodem

  class Session {
    const buf: array<byte>
    const port: Port

    ghost predicate Valid()
      reads this
    {
      buf.Length == BUF_SIZE && port.Valid() && buf != port.pktBuf
    }

    ghost function Link(): (l: Link)
      requires Valid()
      reads this, buf, port, port.pktBuf
      ensures l.Valid()
    {
      QdaLink.Link.Link(buf[..], port.pktBuf[..], port.input, port.output)
    }

    constructor (port: Port)
      requires port.Valid()
      ensures Valid() && this.port == port && fresh(buf)
    {
      this.port := port;
      buf := new byte[BUF_SIZE](_ => 0);
    }

    // Sends the first n bytes of the buffer and, if that worked, receives the answer.
    method SendAndReceive(n: nat) returns (ok: bool)
      requires Valid() && n <= BUF_SIZE
      modifies buf, port, port.pktBuf
      ensures Exchange(old(Link()), old(buf[..n])) == Exchanged(ok, Link())
    {
      ghost var l := Link();
      assert Overlay(buf[..n], l.buf) == l.buf && l.buf[..n] == buf[..n];
      var rc := port.TransmitPackage(buf[..n]);
      if rc < 0 {
        return false;
      }
      var _ := port.ReceivePackage(buf, BUF_SIZE);
      return true;
    }

    method PutWord16(at: nat, x: u16)
      requires Valid() && at + 2 <= BUF_SIZE
      modifies buf
      ensures buf[..] == old(buf[..at]) + Le16(x) + old(buf[at + 2..])
    {
      buf[at], buf[at + 1] := x % 0x100, x / 0x100;
    }

    method PutType(t: u32)
      requires Valid()
      modifies buf
      ensures buf[..] == Overlay(Le32(t), old(buf[..]))
    {
      buf[0], buf[1], buf[2], buf[3] := t % 0x100, t / 0x100 % 0x100, t / 0x1_0000 % 0x100, t / 0x100_0000;
    }

    // The first three fields of a request with a block number.
    method PutHeader(t: u32, len: u16, blockNum: u16)
      requires Valid()
      modifies buf
      ensures buf[..] == Overlay(Le32(t) + Le16(len) + Le16(blockNum), old(buf[..]))
    {
      hide Le32, Le16;
      ghost var b := buf[..];
      PutType(t);
      assert buf[..] == Le32(t) + b[4..];
      PutWord16(4, len);
      assert buf[..] == Le32(t) + Le16(len) + b[6..];
      PutWord16(6, blockNum);
      assert buf[..] == Le32(t) + Le16(len) + Le16(blockNum) + b[8..];
    }

    method Download(blockNum: u16, data: seq<byte>) returns (ret: int)
      requires Valid() && |data| < 0x1_0000
      modifies buf, port, port.pktBuf
      ensures var e := DownloadCall(old(Link()), blockNum, data);
        Link() == e.link && ret == if Acknowledged(e) then 0 else -1
    {
      hide Exchange, Le32, Le16, TypeOf;
      ghost var l := Link();
      PutHeader(DNLOAD_REQ, |data|, blockNum);
      if |data| > MAX_DOWNLOAD {
        return -1;
      }
      forall i | 0 <= i < |data| {
        buf[8 + i] := data[i];
      }
      ghost var request := DownloadRequest(blockNum, data);
      assert buf[..] == request + l.buf[8 + |data|..];
      ExchangeSame(l, Link(), request);
      var ok := SendAndReceive(8 + |data|);
      if !ok {
        return -1;
      }
      var t := GetType();
      return if t == ACKNOWLEDGED then 0 else -1;
    }

    method GetType() returns (t: u32)
      requires Valid()
      ensures t == TypeOf(buf[..])
    {
      t := Word32(buf[..4]);
    }

    method GetStatus() returns (status: DfuStatus)
      requires Valid()
      modifies buf, port, port.pktBuf
      ensures var e := Exchange(old(Link()), StatusRequest());
        Link() == e.link && status == StatusOf(e)
    {
      hide Exchange, TypeOf, Le32;
      ghost var l := Link();
      PutType(GETSTATUS_REQ);
      ExchangeSame(l, Link(), StatusRequest());
      var ok := SendAndReceive(4);
      if !ok {
        return Unread;
      }
      var t := GetType();
      return if t == GETSTATUS_RESP then DfuStatus.DfuStatus(buf[9], buf[8], Word32(buf[4..8])) else Unread;
    }

    // What the copy of a length the buffer cannot hold would yield is not said.
    method Upload(maxLen: u16, blockNum: u16) returns (result: Uploaded)
      requires Valid()
      modifies buf, port, port.pktBuf
      ensures var e := Exchange(old(Link()), UploadRequest(maxLen, blockNum));
        Link() == e.link && result == UploadedBy(e, maxLen)
    {
      hide Exchange, TypeOf, Le32, Le16, Word16;
      ghost var l := Link();
      PutHeader(UPLOAD_REQ, maxLen, blockNum);
      ghost var request := UploadRequest(maxLen, blockNum);
      ExchangeSame(l, Link(), request);
      var ok := SendAndReceive(8);
      if !ok {
        return Failed;
      }
      var t := GetType();
      if t != UPLOAD_RESP {
        return Failed;
      }
      var retv := Word16(buf[4], buf[5]);
      if retv > maxLen {
        return Failed;
      }
      if retv > MAX_UPLOAD {
        return Overread;
      }
      return Uploaded(buf[6..6 + retv as nat]);
    }
  }

  // A request already in the buffer.
  lemma ExchangeSame(l: Link, m: Link, request: seq<byte>)
    requires l.Valid() && |request| <= BUF_SIZE && m == l.(buf := Overlay(request, l.buf))
    ensures m.Valid() && Exchange(m, request) == Exchange(l, request)
    ensures m.buf[..|request|] == request
  {
    hide Transmit, Receive;
    assert Overlay(request, m.buf) == m.buf;
  }
}
