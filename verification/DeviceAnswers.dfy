/**
 What the calls and the download loop make of the device's answers, in terms of the bytes of
 the answer that the host has taken, of whatever kind the answer is.
 */
module DeviceAnswers {
  import opened Words
  import opened XmodemProtocol
  import opened StopAndWait
  import opened QdaPackets
  import opened QdaLink
  import opened DfuTransfer
  import opened EndToEnd
  import opened UploadEndToEnd

  // ----- types of answers -----

  predicate IsAck(a: seq<byte>) {
    a != [] && |a| >= 4 && a[..4] == [0x03, 0x80, 0x55, 0x4D]
  }

  predicate IsStatus(a: seq<byte>) {
    |a| >= 10 && a[..4] == [0x03, 0x81, 0x55, 0x4D]
  }

  predicate IsData(a: seq<byte>) {
    |a| >= 6 && a[..4] == [0x02, 0x81, 0x55, 0x4D]
  }

  lemma TypesAsBytes()
    ensures Le32(ACKNOWLEDGED) == [0x03, 0x80, 0x55, 0x4D] && Le32(GETSTATUS_RESP) == [0x03, 0x81, 0x55, 0x4D]
    ensures Le32(UPLOAD_RESP) == [0x02, 0x81, 0x55, 0x4D] && Le32(GETSTATUS_REQ) == [0x03, 0x01, 0x55, 0x4D]
    ensures Le32(DNLOAD_REQ) == [0x01, 0x01, 0x55, 0x4D] && Le32(UPLOAD_REQ) == [0x02, 0x01, 0x55, 0x4D]
  {
  }

  // What a buffer with part of an answer over a request shows as its type.
  lemma TypeInBuffer(buf: seq<byte>, request: seq<byte>, taken: seq<byte>, b: seq<byte>, t: u32)
    requires |buf| == BUF_SIZE && 4 <= |request| <= BUF_SIZE && |taken| <= BUF_SIZE && |taken| % BLOCK == 0
    requires b == Overlay(taken, Overlay(request, buf)) && request[..4] != Le32(t)
    ensures TypeOf(b) == t <==> taken != [] && taken[..4] == Le32(t)
    ensures taken != [] ==> |taken| >= BLOCK && b[..BLOCK] == taken[..BLOCK]
  {
    hide Le32, Word32;
    Word32OfLe32(b[..4], t);
    if taken == [] {
      assert b[..4] == request[..4];
    } else {
      assert |taken| >= BLOCK;
      assert b[..4] == taken[..4];
    }
  }

  // ----- the answer of a leg -----

  // What the host has taken of the answer when it stops listening.
  function Taken(request: seq<byte>, p: Packet, room: nat, leg: Leg): seq<byte> {
    Receive(ReceiverStart(BUF_SIZE, Line(request, p, room, leg).s.packet), leg.reply).final.data
  }

  function IsSent(request: seq<byte>, p: Packet, room: nat, leg: Leg): bool {
    Line(request, p, room, leg).s.phase.Sent?
  }

  lemma AnswerLands(l: Link, request: seq<byte>, room: nat, leg: Leg)
    requires l.Valid() && 0 < |request| <= BUF_SIZE && PossibleLeg(request, l.packet, room, leg)
    ensures var e := Exchange(WithScript(l, LegScript(request, l.packet, room, leg)), request);
      var a := Taken(request, l.packet, room, leg);
      && |a| <= BUF_SIZE && |a| % BLOCK == 0 && (e.ok <==> IsSent(request, l.packet, room, leg))
      && (e.ok ==> e.link.buf == Overlay(a, Overlay(request, l.buf)))
  {
    hide Exchange, LegScript, Line, PossibleLeg, Receive;
    ExchangeOnLeg(l, request, room, leg, []);
    ReceiveBounds(ReceiverStart(BUF_SIZE, Line(request, l.packet, room, leg).s.packet), leg.reply);
  }

  /**
   qda_dfu_download on a leg returns 0 exactly if the request was sent, a frame of the answer
   was taken, and it begins with the four bytes of an acknowledgement.
   */
  lemma DownloadReturnsZeroIff(l: Link, no: u16, data: seq<byte>, room: nat, leg: Leg)
    requires l.Valid() && |data| <= MAX_DOWNLOAD && PossibleLeg(DownloadRequest(no, data), l.packet, room, leg)
    ensures var request := DownloadRequest(no, data);
      Acknowledged(DownloadCall(WithScript(l, LegScript(request, l.packet, room, leg)), no, data))
      <==> IsSent(request, l.packet, room, leg) && IsAck(Taken(request, l.packet, room, leg))
  {
    hide Exchange, LegScript, PossibleLeg, Taken, IsSent, TypeOf, Le32;
    var request := DownloadRequest(no, data);
    AnswerLands(l, request, room, leg);
    TypesAsBytes();
    assert request[..4] == Le32(DNLOAD_REQ);
    var e := Exchange(WithScript(l, LegScript(request, l.packet, room, leg)), request);
    if e.ok {
      TypeInBuffer(l.buf, request, Taken(request, l.packet, room, leg), e.link.buf, ACKNOWLEDGED);
    }
  }

  /**
   qda_dfu_getstatus on a leg succeeds exactly if a status answer's first frame was taken, and
   then state, status and poll timeout are its bytes 9, 8 and 4 to 7.
   */
  lemma StatusReadIff(l: Link, room: nat, leg: Leg)
    requires l.Valid() && PossibleLeg(StatusRequest(), l.packet, room, leg)
    ensures var request := StatusRequest();
      var a := Taken(request, l.packet, room, leg);
      StatusOf(Exchange(WithScript(l, LegScript(request, l.packet, room, leg)), request))
      == if IsSent(request, l.packet, room, leg) && IsStatus(a) then
           DfuStatus.DfuStatus(
             a[9], a[8], a[4] as int + 0x100 * a[5] as int + 0x1_0000 * a[6] as int + 0x100_0000 * a[7] as int)
         else Unread
  {
    hide Exchange, LegScript, PossibleLeg, Taken, IsSent, TypeOf, Le32;
    var request := StatusRequest();
    var a := Taken(request, l.packet, room, leg);
    AnswerLands(l, request, room, leg);
    TypesAsBytes();
    assert request[..4] == Le32(GETSTATUS_REQ);
    var e := Exchange(WithScript(l, LegScript(request, l.packet, room, leg)), request);
    if e.ok {
      var b := e.link.buf;
      TypeInBuffer(l.buf, request, a, b, GETSTATUS_RESP);
      if a != [] {
        forall i | 0 <= i < BLOCK ensures b[i] == a[i] {
          assert b[..BLOCK][i] == a[..BLOCK][i];
        }
      }
    }
  }

  /** A status answer built from its fields comes back with all three. */
  lemma StatusComesBack(
      l: Link, room: nat, leg: Leg, pollTimeout: u32, status: byte, state: byte, padding: seq<byte>)
    requires l.Valid() && PossibleLeg(StatusRequest(), l.packet, room, leg)
    requires IsSent(StatusRequest(), l.packet, room, leg)
    requires Taken(StatusRequest(), l.packet, room, leg) == StatusResponse(pollTimeout, status, state) + padding
    ensures StatusOf(Exchange(WithScript(l, LegScript(StatusRequest(), l.packet, room, leg)), StatusRequest()))
      == DfuStatus.DfuStatus(state, status, pollTimeout)
  {
    hide Exchange, LegScript, PossibleLeg, Taken, IsSent, Le32, Word32, StatusOf;
    var a := Taken(StatusRequest(), l.packet, room, leg);
    StatusReadIff(l, room, leg);
    TypesAsBytes();
    assert a[..4] == Le32(GETSTATUS_RESP) && a[4..8] == Le32(pollTimeout);
    Word32OfLe32(a[4..8], pollTimeout);
    FourBytesOf(a, a[4..8]);
  }

  lemma FourBytesOf(a: seq<byte>, w: seq<byte>)
    requires |a| >= 8 && w == a[4..8]
    ensures Word32(w) as int == a[4] as int + 0x100 * a[5] as int + 0x1_0000 * a[6] as int + 0x100_0000 * a[7] as int
  {
  }

  // ----- the upload call -----

  /**
   qda_dfu_upload on any answer: it yields data exactly if a frame of the answer was taken,
   that begins as an UPLOAD answer and announces no more bytes than were asked for, nor than
   the buffer holds; the data are that many bytes from the sixth, those that were not taken
   being the buffer's old ones. Else it fails, or reads beyond the buffer.
   */
  lemma UploadOnAnyAnswer(l: Link, maxLen: u16, no: u16, answer: seq<byte>, room: nat, v: Serving, rest: Script)
    requires l.Valid() && PossibleServing(UploadRequest(maxLen, no), answer, l.packet, room, v)
    ensures var request := UploadRequest(maxLen, no);
      var leg := AsLeg(request, answer, l.packet, room, v);
      var got := UploadedBy(Exchange(WithScript(l, LegScript(request, l.packet, room, leg) + rest), request), maxLen);
      var a := Taking(request, answer, l.packet, room, v);
      && a <= Total(answer, v.sp) && answer <= Total(answer, v.sp)
      && if !IsData(a) || AnnouncedBy(a) > maxLen then got == Failed
         else if AnnouncedBy(a) > MAX_UPLOAD then got == Overread
         else
           && got.Uploaded? && |got.data| == AnnouncedBy(a)
           && forall i :: 0 <= i < |got.data| ==> got.data[i] == if 6 + i < |a| then a[6 + i] else l.buf[6 + i]
  {
    hide Exchange, LegScript, Taking, AsLeg, PossibleServing, UploadRequest, Total, TypeOf, Le32, Word16;
    var request := UploadRequest(maxLen, no);
    var a := Taking(request, answer, l.packet, room, v);
    var leg := AsLeg(request, answer, l.packet, room, v);
    var e := Exchange(WithScript(l, LegScript(request, l.packet, room, leg) + rest), request);
    var b := e.link.buf;
    AnswerLandsInBuffer(l, request, answer, room, v, rest);
    TakingIsPrefix(request, answer, l.packet, room, v);
    TakingIsBlocks(request, answer, l.packet, room, v);
    TypesAsBytes();
    RequestBytes(maxLen, no, []);
    assert request[..4] == Le32(UPLOAD_REQ);
    TypeInBuffer(l.buf, request, a, b, UPLOAD_RESP);
    if a != [] {
      forall i | 0 <= i < BUF_SIZE ensures b[i] == if i < |a| then a[i] else l.buf[i] {
        assert |request| == 8 && |a| >= BLOCK;
      }
      AnnouncedIsWord(a, b);
    }
  }

  function AnnouncedBy(a: seq<byte>): nat
    requires IsData(a)
  {
    a[4] as nat + 256 * a[5] as nat
  }

  lemma AnnouncedIsWord(a: seq<byte>, b: seq<byte>)
    requires |a| >= 6 && |b| >= 6 && a[4] == b[4] && a[5] == b[5]
    ensures Word16(b[4], b[5]) as int == a[4] as int + 256 * a[5] as int
  {
  }

  // ----- the download loop -----

  /** Sessions may be cut anywhere: what comes later goes on from where the first part has led. */
  lemma {:induction false} SessionSplit(j: Job, h: Host, l: Link, room: nat, legs: seq<Leg>, later: seq<Leg>)
    requires l.Valid() && j.Fitting(h) && PossibleLegs(j, h, l, room, legs + later)
    ensures PossibleLegs(j, h, l, room, legs)
    ensures var p := Session(j, h, l, room, legs);
      && PossibleLegs(j, p.host, p.link, room, later)
      && var q, whole := Session(j, p.host, p.link, room, later), Session(j, h, l, room, legs + later);
         && whole.host == q.host && whole.requests == p.requests + q.requests && whole.blocks == p.blocks + q.blocks
    decreases |legs|
  {
    hide Call, After, Line, Delivered, LegScript, Request, Settled, PossibleLeg;
    if legs == [] {
      assert legs + later == later;
      ScriptIsReplaced(j, h, l, room, later);
    } else if !h.Done() && !Refused(j, h) {
      assert (legs + later)[0] == legs[0] && (legs + later)[1..] == legs[1..] + later;
      var e := Call(j, h, Before(j, h, l, room, legs[0]));
      SessionSplit(j, After(j, h, e), e.link, room, legs[1..], later);
    } else if Refused(j, h) && !h.Done() {
      RefusedCall(j, h, l, []);
    }
  }

  lemma ScriptIsReplaced(j: Job, h: Host, l: Link, room: nat, legs: seq<Leg>)
    requires l.Valid() && j.Fitting(h) && PossibleLegs(j, h, l, room, legs)
    ensures PossibleLegs(j, h, WithScript(l, []), room, legs)
    ensures Session(j, h, WithScript(l, []), room, legs) == Session(j, h, l, room, legs)
  {
    hide Call, After, Line, Delivered, LegScript, Request, Settled, PossibleLeg;
  }

  // Where a request and the bytes of its answer lead the host.
  function Led(j: Job, h: Host, sent: bool, a: seq<byte>): Host
    requires j.Fitting(h) && !h.Done()
  {
    match h.stage
    case Blocks =>
      if sent && IsAck(a) then Host(Polling, h.bytes + j.Chunk(h.bytes), (h.no as int + 1) % 65536)
      else Host(Aborted, h.bytes, h.no)
    case Polling =>
      if !sent || !IsStatus(a) then Host(Exited, h.bytes, h.no)
      else if a[9] != 5 && a[9] != 10 then h
      else if a[8] != 0 then Host(Aborted, h.bytes, h.no)
      else Host(if h.bytes < |j.image| then Blocks else Closing, h.bytes, h.no)
    case Closing => Host(if sent && IsAck(a) then Manifesting else Exited, h.bytes, h.no)
    case _ => if sent && IsStatus(a) && (a[9] == 6 || a[9] == 7) then h else Host(Completed, h.bytes, h.no)
  }

  /**
   One request of a download and its answer, byte for byte. A block counts as sent exactly if
   it is acknowledged; without that the download returns the bytes sent before, or
   leaves through errx if it was the completion request. After a block the device is polled
   until it reports dfuDNLOAD-IDLE or dfuERROR, and after the completion request
   while it reports one of the manifestation states.
   */
  lemma LegLeads(j: Job, h: Host, l: Link, room: nat, leg: Leg)
    requires l.Valid() && j.Fitting(h) && !h.Done() && !Refused(j, h)
    requires PossibleLeg(Request(j, h), l.packet, room, leg)
    ensures PossibleLegs(j, h, l, room, [leg])
    ensures var p, request := Session(j, h, l, room, [leg]), Request(j, h);
      && p.requests == [request]
      && p.host == Led(j, h, IsSent(request, l.packet, room, leg), Taken(request, l.packet, room, leg))
  {
    hide Exchange, LegScript, PossibleLeg, Taken, IsSent, StatusOf, StatusRequest, DownloadRequest, IsAck, IsStatus,
      DownloadCall, Line;
    assert [leg][1..] == [];
    match h.stage {
      case Blocks =>
        DownloadReturnsZeroIff(l, h.no, j.Passed(h.bytes), room, leg);
        CallIsDownload(l, h.no, j.Passed(h.bytes), room, leg);
      case Closing =>
        DownloadReturnsZeroIff(l, h.no, [], room, leg);
        CallIsDownload(l, h.no, [], room, leg);
      case _ =>
        StatusReadIff(l, room, leg);
    }
  }

  lemma CallIsDownload(l: Link, no: u16, data: seq<byte>, room: nat, leg: Leg)
    requires l.Valid() && |data| <= MAX_DOWNLOAD
    ensures var m := WithScript(l, LegScript(DownloadRequest(no, data), l.packet, room, leg));
      DownloadCall(m, no, data) == Exchange(m, DownloadRequest(no, data))
  {
    hide Exchange, LegScript;
  }

  // A status answer that keeps the host where it is.
  predicate Waits(h: Host, a: seq<byte>) {
    && IsStatus(a)
    && match h.stage
       case Polling => a[9] != 5 && a[9] != 10
       case Manifesting => a[9] == 6 || a[9] == 7
       case _ => false
  }

  ghost predicate AllWait(h: Host, l: Link, room: nat, legs: seq<Leg>)
    requires l.Valid()
    decreases |legs|
  {
    legs == []
    || (var request := StatusRequest();
        && PossibleLeg(request, l.packet, room, legs[0])
        && IsSent(request, l.packet, room, legs[0]) && Waits(h, Taken(request, l.packet, room, legs[0]))
        && var e := Exchange(WithScript(l, LegScript(request, l.packet, room, legs[0])), request);
           AllWait(h, e.link, room, legs[1..]))
  }

  function Times(n: nat, request: seq<byte>): (r: seq<seq<byte>>)
    ensures |r| == n
  {
    seq(n, _ => request)
  }

  /** While the device is busy, or manifests, the host asks for the status and nothing else. */
  lemma {:induction false} WaitingStays(j: Job, h: Host, l: Link, room: nat, legs: seq<Leg>)
    requires l.Valid() && j.Fitting(h) && (h.stage.Polling? || h.stage.Manifesting?) && AllWait(h, l, room, legs)
    ensures PossibleLegs(j, h, l, room, legs)
    ensures var p := Session(j, h, l, room, legs);
      p.host == h && p.requests == Times(|legs|, StatusRequest()) && p.link.Valid()
    decreases |legs|
  {
    hide Exchange, LegScript, PossibleLeg, Taken, IsSent, StatusRequest, Line, After, Delivered;
    if legs != [] {
      LegLeads(j, h, l, room, legs[0]);
      FirstLeg(j, h, l, room, legs);
      var e := Call(j, h, Before(j, h, l, room, legs[0]));
      WaitingStays(j, h, e.link, room, legs[1..]);
      assert Times(|legs|, StatusRequest()) == [StatusRequest()] + Times(|legs| - 1, StatusRequest());
    }
  }

  lemma FirstLeg(j: Job, h: Host, l: Link, room: nat, legs: seq<Leg>)
    requires l.Valid() && j.Fitting(h) && !h.Done() && !Refused(j, h) && legs != []
    ensures Session(j, h, l, room, [legs[0]]).host == After(j, h, Call(j, h, Before(j, h, l, room, legs[0])))
  {
    hide Call, After, LegScript, Request, Line, Delivered;
    assert [legs[0]][1..] == [];
  }

  // The host once an answer has ended the waiting.
  function Woken(j: Job, h: Host, a: seq<byte>): Host
    requires j.Fitting(h) && |a| >= 10
  {
    if h.stage.Manifesting? then Host(Completed, h.bytes, h.no)
    else if a[8] != 0 then Host(Aborted, h.bytes, h.no)
    else Host(if h.bytes < |j.image| then Blocks else Closing, h.bytes, h.no)
  }

  /**
   After a block, k waiting answers and then one that ends the waiting mean exactly k + 1
   status requests before anything else is asked; with status OK that is the next block or
   the completion request, and else nothing more, the bytes sent being what they were.
   The same after the completion request, with nothing more in any case.
   */
  lemma WaitingEnds(j: Job, h: Host, l: Link, room: nat, waits: seq<Leg>, last: Leg, later: seq<Leg>)
    requires l.Valid() && j.Fitting(h) && (h.stage.Polling? || h.stage.Manifesting?) && AllWait(h, l, room, waits)
    requires var m, request := Session(j, h, l, room, waits).link, StatusRequest();
      var a := Taken(request, m.packet, room, last);
      && m.Valid() && PossibleLegs(j, h, l, room, waits + ([last] + later))
      && IsSent(request, m.packet, room, last) && IsStatus(a) && !Waits(h, a)
    ensures var whole := Session(j, h, l, room, waits + ([last] + later));
      var m, request := Session(j, h, l, room, waits).link, StatusRequest();
      var h' := Woken(j, h, Taken(request, m.packet, room, last));
      var m' := Session(j, h, m, room, [last]).link;
      && j.Fitting(h') && m'.Valid()
      && whole.host == Session(j, h', m', room, later).host
      && whole.requests == Times(|waits| + 1, request) + Session(j, h', m', room, later).requests
      && (h'.Done() ==> whole.host == h' && whole.requests == Times(|waits| + 1, request))
  {
    hide Exchange, LegScript, PossibleLeg, Taken, IsSent, StatusRequest, Line, Session, PossibleLegs, AllWait;
    WaitingStays(j, h, l, room, waits);
    SessionSplit(j, h, l, room, waits, [last] + later);
    var m := Session(j, h, l, room, waits).link;
    SessionSplit(j, h, m, room, [last], later);
    PossibleFirst(j, h, m, room, [last]);
    LegLeads(j, h, m, room, last);
    assert Times(|waits| + 1, StatusRequest()) == Times(|waits|, StatusRequest()) + [StatusRequest()];
    var p := Session(j, h, m, room, [last]);
    DoneAsksNothing(j, p.host, p.link, room, later);
  }

  lemma PossibleFirst(j: Job, h: Host, l: Link, room: nat, legs: seq<Leg>)
    requires l.Valid() && j.Fitting(h) && !h.Done() && !Refused(j, h) && legs != [] && PossibleLegs(j, h, l, room, legs)
    ensures PossibleLeg(Request(j, h), l.packet, room, legs[0])
  {
    hide Call, After, LegScript, Request, Line, PossibleLeg;
  }

  lemma DoneAsksNothing(j: Job, h: Host, l: Link, room: nat, legs: seq<Leg>)
    requires l.Valid() && j.Fitting(h)
    ensures var p := Session(j, h, l, room, legs);
      h.Done() ==> p.host == h && p.requests == [] && p.blocks == []
  {
    hide Call, After, LegScript, Request, Line, Delivered;
  }

  /**
   A whole round of the loop: an acknowledged block, k busy answers and one that reports
   dfuDNLOAD-IDLE or dfuERROR with status OK make the requests for the block and for k + 1
   statuses, and then those from the next block, or the completion request, on.
   */
  lemma BlockRound(j: Job, h: Host, l: Link, room: nat, block: Leg, waits: seq<Leg>, last: Leg, later: seq<Leg>)
    requires l.Valid() && j.xfer > 0 && j.Fitting(h) && h.stage.Blocks? && !Refused(j, h)
    requires PossibleLegs(j, h, l, room, [block] + (waits + ([last] + later)))
    requires var request := DownloadRequest(h.no, j.Passed(h.bytes));
      IsSent(request, l.packet, room, block) && IsAck(Taken(request, l.packet, room, block))
    requires var p := Session(j, h, l, room, [block]);
      && p.link.Valid() && AllWait(p.host, p.link, room, waits) && j.Fitting(p.host)
      && var m := Session(j, p.host, p.link, room, waits).link;
         var a := Taken(StatusRequest(), m.packet, room, last);
         && m.Valid() && IsSent(StatusRequest(), m.packet, room, last)
         && IsStatus(a) && (a[9] == 5 || a[9] == 10) && a[8] == 0
    ensures var whole := Session(j, h, l, room, [block] + (waits + ([last] + later)));
      var bytes := h.bytes + j.Chunk(h.bytes);
      var h' := Host(if bytes < |j.image| then Blocks else Closing, bytes, (h.no as int + 1) % 65536);
      exists m: Link :: m.Valid() && j.Fitting(h')
        && whole.host == Session(j, h', m, room, later).host
        && whole.requests == [DownloadRequest(h.no, j.Passed(h.bytes))] + Times(|waits| + 1, StatusRequest())
           + Session(j, h', m, room, later).requests
  {
    hide Exchange, LegScript, PossibleLeg, Taken, IsSent, StatusRequest, DownloadRequest, Line, Session, PossibleLegs,
      AllWait;
    SessionSplit(j, h, l, room, [block], waits + ([last] + later));
    PossibleFirst(j, h, l, room, [block]);
    LegLeads(j, h, l, room, block);
    var p := Session(j, h, l, room, [block]);
    WaitingEnds(j, p.host, p.link, room, waits, last, later);
    var m := Session(j, p.host, p.link, room, waits).link;
    var m' := Session(j, p.host, m, room, [last]).link;
    assert Woken(j, p.host, Taken(StatusRequest(), m.packet, room, last)) == Host(
      if p.host.bytes < |j.image| then Blocks else Closing, p.host.bytes, (h.no as int + 1) % 65536);
  }
}
