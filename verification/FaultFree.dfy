/**
 Transfers on a line without faults: with a device that acknowledges every block and reports
 itself ready, a download completes, and a device that answers every request serves an
 upload to its end.
 */
module FaultFree {
  import opened Words
  import opened XmodemProtocol
  import opened StopAndWait
  import opened QdaPackets
  import opened QdaLink
  import opened DfuTransfer
  import opened EndToEnd
  import opened UploadEndToEnd

  const DFU_IDLE: byte := 2

  // What a device answers that has no complaint but the status `last` it reports for the
  // last block, and where that leads the host.
  function Reported(j: Job, h: Host, last: byte): byte {
    if h.bytes == |j.image| then last else STATUS_OK
  }

  function Given(j: Job, h: Host, last: byte): (b: seq<byte>)
    ensures |b| <= 10
  {
    match h.stage
    case Polling => StatusResponse(0, Reported(j, h, last), DNLOAD_IDLE)
    case Manifesting => StatusResponse(0, STATUS_OK, DFU_IDLE)
    case _ => Le32(ACKNOWLEDGED)
  }

  function Onward(j: Job, h: Host, last: byte): (h': Host)
    requires j.Fitting(h) && !h.Done()
    ensures j.Fitting(h')
  {
    match h.stage
    case Blocks => Host(Polling, h.bytes + j.Chunk(h.bytes), NextBlock(h.no))
    case Polling => if Reported(j, h, last) == STATUS_OK then j.Resume(h.bytes, h.no) else h.(stage := Aborted)
    case Closing => h.(stage := Manifesting)
    case _ => h.(stage := Completed)
  }

  lemma GivenLeadsOn(j: Job, h: Host, last: byte, e: Exchanged)
    requires j.Fitting(h) && !h.Done() && e.ok && e.link.Valid() && Given(j, h, last) <= e.link.buf
    ensures After(j, h, e) == Onward(j, h, last)
  {
    hide TypeOf, Le32;
    var b, given := e.link.buf, Given(j, h, last);
    var t := if h.stage.Polling? || h.stage.Manifesting? then GETSTATUS_RESP else ACKNOWLEDGED;
    assert b[..4] == given[..4] == Le32(t);
    assert b == Le32(t) + b[4..];
    TypeSurvives(t, b[4..]);
    if t == GETSTATUS_RESP {
      assert b[8] == given[8] && b[9] == given[9];
    }
  }

  // Stages before the end, for the same bytes sent.
  function Rank(h: Host): nat {
    match h.stage
    case Polling => 3
    case Blocks => 2
    case Closing => 2
    case Manifesting => 1
    case _ => 0
  }

  // The stages a host passes through on its way with such a device.
  predicate OnCourse(j: Job, h: Host, last: byte) {
    match h.stage
    case Blocks => true
    case Polling => true
    case Aborted => last != STATUS_OK && h.bytes == |j.image|
    case Exited => false
    case _ => last == STATUS_OK && h.bytes == |j.image|
  }

  /**
   A download of which no further block is refused can complete from every stage; and it can
   end with the same bytes sent, but without a completion request, where the device
   reports an error for the last block.
   */
  lemma {:induction false} DownloadEnds(j: Job, h: Host, last: byte, l: Link, room: nat) returns (legs: seq<Leg>)
    requires l.Valid() && j.xfer > 0 && j.Fitting(h) && OnCourse(j, h, last) && room >= BUF_SIZE
    requires Sendable(j, h.bytes)
    ensures PossibleLegs(j, h, l, room, legs)
    ensures var end := Session(j, h, l, room, legs).host;
      end.bytes == |j.image| && end.stage == if last == STATUS_OK then Completed else Aborted
    decreases |j.image| - h.bytes, Rank(h)
  {
    hide PossibleLeg, Line, LegScript, Exchange, Settled, Delivered, Request, Before, After, Given, Call, Receive;
    if h.Done() {
      legs := [];
    } else {
      var leg := CleanLeg(Request(j, h), l.packet, room, Given(j, h, last));
      var e := Call(j, h, Before(j, h, l, room, leg));
      AnswerInBuffer(j, h, l, room, leg, Given(j, h, last));
      GivenLeadsOn(j, h, last, e);
      var later := DownloadEnds(j, Onward(j, h, last), last, e.link, room);
      legs := [leg] + later;
      assert legs[1..] == later;
    }
  }

  lemma AnswerInBuffer(j: Job, h: Host, l: Link, room: nat, leg: Leg, answer: seq<byte>)
    requires l.Valid() && j.Fitting(h) && !Refused(j, h) && !h.Done()
    requires PossibleLeg(Request(j, h), l.packet, room, leg) && Line(Request(j, h), l.packet, room, leg).s.phase.Sent?
    requires answer <= Receive(ReceiverStart(BUF_SIZE, Line(Request(j, h), l.packet, room, leg).s.packet),
      leg.reply).final.data
    ensures var e := Call(j, h, Before(j, h, l, room, leg)); e.ok && answer <= e.link.buf
  {
    hide Exchange, LegScript, Line, PossibleLeg, DownloadRequest, StatusRequest, TypeOf, Receive;
    ExchangeOnLeg(l, Request(j, h), room, leg, []);
  }

  /** Every image can be served. */
  lemma {:induction false} UploadServes(xfer: nat, image: seq<byte>, off: nat, no: u16, l: Link, room: nat)
      returns (vs: seq<Serving>)
    requires 0 < xfer <= MAX_UPLOAD && off <= |image| && l.Valid() && room >= BUF_SIZE
    ensures Serves(xfer, image, off, no, l, room, vs)
    decreases |image| - off
  {
    hide UploadServed, PossibleServing, Taking, UploadRequest, UploadResponse;
    var data := Part(xfer, image, off);
    var v := CleanServing(UploadRequest(xfer, no), UploadResponse(data), l.packet, room);
    vs := [v];
    if |data| == xfer {
      var later := UploadServes(xfer, image, off + xfer, NextBlock(no),
        UploadServed(l, xfer, no, data, room, v, []).link, room);
      vs := [v] + later;
      assert vs[1..] == later;
    }
  }

  lemma CleanServing(request: seq<byte>, answer: seq<byte>, p: Packet, room: nat) returns (v: Serving)
    requires |request| <= BUF_SIZE <= room && |answer| <= BUF_SIZE
    ensures PossibleServing(request, answer, p, room, v) && answer <= Taking(request, answer, p, room, v)
  {
    hide Run, Open, Total;
    var rounds := CleanTransfer(request, p, room, p);
    v := Serving(p, Through, rounds, p, Through, []);
    var answerRounds := CleanTransfer(answer, p, BUF_SIZE, Asked(request, p, room, v).s.packet);
    v := v.(answerRounds := answerRounds);
  }
}
