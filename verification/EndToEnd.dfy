/**
 Downloads and uploads over the faulty line: the machines of DfuTransfer, each of whose
 exchanges is a run of the sender and receiver of StopAndWait.
 */
module EndToEnd {
  import opened Words
  import opened XmodemProtocol
  import opened StopAndWait
  import opened QdaPackets
  import opened QdaLink
  import opened DfuTransfer
  import opened DfuBlocks

  // One exchange: the far end's packet buffer, what the line does to the request, and
  // what the host hears when it listens for the answer.
  datatype Leg = Leg(rp: Packet, back: Backward, rounds: seq<Round>, reply: Script)

  // The two parties after the request's rounds; the far end has `room` bytes for it.
  function Line(request: seq<byte>, p: Packet, room: nat, leg: Leg): System {
    Run(Open(request, p, room, leg.rp, leg.back), leg.rounds)
  }

  // The host's listening ends just where the script does.
  ghost predicate Settled(p: Packet, reply: Script) {
    forall rest: Script {:trigger reply + rest} ::
      Receive(ReceiverStart(BUF_SIZE, p), reply + rest) == Receive(ReceiverStart(BUF_SIZE, p), reply).(rest := rest)
  }

  ghost predicate PossibleLeg(request: seq<byte>, p: Packet, room: nat, leg: Leg) {
    && PossibleBack(leg.back) && AllPossible(leg.rounds)
    && Line(request, p, room, leg).s.Done()
    && Settled(Line(request, p, room, leg).s.packet, leg.reply)
  }

  function LegScript(request: seq<byte>, p: Packet, room: nat, leg: Leg): Script {
    SenderScript(request, p, room, leg.rp, leg.back, leg.rounds) + leg.reply
  }

  function WithScript(l: Link, script: Script): Link {
    l.(script := script)
  }

  // What the far end has in hand after a leg.
  function Delivered(x: System): seq<Block> {
    if !x.r.running && x.r.ret >= 0 && Decode(x.r.data).DownloadOf? then [Decode(x.r.data).block] else []
  }

  // An exchange on a leg: it works exactly if the sender ends in success, and goes on the
  // same way whatever the line delivers later.
  lemma ExchangeOnLeg(l: Link, request: seq<byte>, room: nat, leg: Leg, rest: Script)
    requires l.Valid() && 0 < |request| <= BUF_SIZE && PossibleLeg(request, l.packet, room, leg)
    ensures var e := Exchange(WithScript(l, LegScript(request, l.packet, room, leg)), request);
      && (e.ok <==> Line(request, l.packet, room, leg).s.phase.Sent?) && (e.ok ==> e.link.script == [])
      && Exchange(WithScript(l, LegScript(request, l.packet, room, leg) + rest), request)
         == Exchanged(e.ok, WithScript(e.link, e.link.script + rest))
      && var reply := Receive(ReceiverStart(BUF_SIZE, Line(request, l.packet, room, leg).s.packet), leg.reply);
         |reply.final.data| <= BUF_SIZE && (e.ok ==> e.link.buf == Overlay(reply.final.data, Overlay(request, l.buf)))
  {
    hide Run, Open, SenderScript, Transmit, Receive;
    var x := Line(request, l.packet, room, leg);
    var script := SenderScript(request, l.packet, room, leg.rp, leg.back, leg.rounds);
    RoundsAreRuns(request, l.packet, room, leg.rp, leg.back, leg.rounds, leg.reply);
    RoundsAreRuns(request, l.packet, room, leg.rp, leg.back, leg.rounds, leg.reply + rest);
    SenderReturns8K(request, l.packet, room, leg);
    assert (script + leg.reply) + rest == script + (leg.reply + rest);
    assert Overlay(request, l.buf)[..|request|] == request;
    assert leg.reply + [] == leg.reply;
    ReceiveBounds(ReceiverStart(BUF_SIZE, Line(request, l.packet, room, leg).s.packet), leg.reply);
  }

  // A request fits in 64 frames, so a sender that succeeds returns no negative number.
  lemma SenderReturns8K(request: seq<byte>, p: Packet, room: nat, leg: Leg)
    requires |request| <= BUF_SIZE && PossibleBack(leg.back) && AllPossible(leg.rounds)
    ensures Frames(|request|) <= 64
    ensures Line(request, p, room, leg).s.phase.Sent?
      ==> Line(request, p, room, leg).s.phase.ret == BLOCK * Frames(|request|)
  {
    hide Run, Open;
    if Line(request, p, room, leg).s.phase.Sent? {
      SenderReturns(request, p, room, leg.rp, leg.back, leg.rounds);
    }
  }

  /** A request fits a buffer of 8192 bytes and stays clear of the sequence wrap, so it is never answered with CAN. */
  lemma RequestNeverCancelled(request: seq<byte>, p: Packet, room: nat, leg: Leg)
    requires |request| <= BUF_SIZE <= room && PossibleBack(leg.back) && AllPossible(leg.rounds)
    ensures Line(request, p, room, leg).r.cmd != CAN
  {
    hide Run, Open;
    FramesFit(request);
    NeverCancelsIff(request, p, room, leg.rp);
  }

  // ----- a download, leg by leg -----

  // The request of a stage, unless qda_dfu_download refuses the block for its length.
  predicate Refused(j: Job, h: Host)
    requires j.Fitting(h)
  {
    h.stage.Blocks? && |j.Passed(h.bytes)| > MAX_DOWNLOAD
  }

  // None of the blocks from a position on is refused.
  predicate Sendable(j: Job, bytes: nat)
    requires j.xfer > 0 && bytes <= |j.image|
    decreases |j.image| - bytes
  {
    bytes == |j.image| || (|j.Passed(bytes)| <= MAX_DOWNLOAD && Sendable(j, bytes + j.Chunk(bytes)))
  }

  function Request(j: Job, h: Host): (b: seq<byte>)
    requires j.Fitting(h) && !Refused(j, h)
    ensures 0 < |b| <= BUF_SIZE
  {
    match h.stage
    case Blocks => DownloadRequest(h.no, j.Passed(h.bytes))
    case Closing => DownloadRequest(h.no, [])
    case _ => StatusRequest()
  }

  // The host before a leg, with the leg's script ahead of it.
  function Before(j: Job, h: Host, l: Link, room: nat, leg: Leg): (b: Link)
    requires l.Valid() && j.Fitting(h) && !Refused(j, h)
    ensures b.Valid()
  {
    WithScript(l, LegScript(Request(j, h), l.packet, room, leg))
  }

  ghost predicate PossibleLegs(j: Job, h: Host, l: Link, room: nat, legs: seq<Leg>)
    requires l.Valid() && j.Fitting(h)
    decreases |legs|
  {
    legs == [] || h.Done() || Refused(j, h)
    || (&& PossibleLeg(Request(j, h), l.packet, room, legs[0])
        && var e := Call(j, h, Before(j, h, l, room, legs[0]));
           PossibleLegs(j, After(j, h, e), e.link, room, legs[1..]))
  }

  // The host after the legs, with its link, what it has read, the blocks that have reached
  // the far end and the requests that were made, in their order.
  datatype Progress = Progress(host: Host, link: Link, script: Script, blocks: seq<Block>, requests: seq<seq<byte>>)

  function Session(j: Job, h: Host, l: Link, room: nat, legs: seq<Leg>): (p: Progress)
    requires l.Valid() && j.Fitting(h)
    ensures p.link.Valid() && j.Fitting(p.host)
    decreases |legs|
  {
    if legs == [] || h.Done() then Progress(h, WithScript(l, []), [], [], [])
    else if Refused(j, h) then
      var e := Call(j, h, WithScript(l, []));
      Progress(After(j, h, e), e.link, [], [], [])
    else
      var leg := legs[0];
      var e := Call(j, h, Before(j, h, l, room, leg));
      var later := Session(j, After(j, h, e), e.link, room, legs[1..]);
      later.(script := LegScript(Request(j, h), l.packet, room, leg) + later.script,
             blocks := Delivered(Line(Request(j, h), l.packet, room, leg)) + later.blocks,
             requests := [Request(j, h)] + later.requests)
  }

  // One leg is one call, whatever follows it.
  lemma LegIsCall(j: Job, h: Host, l: Link, room: nat, leg: Leg, rest: Script)
    requires l.Valid() && j.Fitting(h) && !Refused(j, h) && !h.Done()
    requires PossibleLeg(Request(j, h), l.packet, room, leg)
    ensures var e := Call(j, h, Before(j, h, l, room, leg));
      var e' := Call(j, h, WithScript(l, LegScript(Request(j, h), l.packet, room, leg) + rest));
      && (e.ok <==> Line(Request(j, h), l.packet, room, leg).s.phase.Sent?)
      && e'.ok == e.ok && After(j, h, e') == After(j, h, e)
      && e'.link == WithScript(e.link, e.link.script + rest) && (e.ok ==> e.link.script == [])
  {
    hide Exchange, LegScript, Line, PossibleLeg, DownloadRequest, StatusRequest, TypeOf;
    ExchangeOnLeg(l, Request(j, h), room, leg, rest);
  }

  /** A session is a run of dfuload_do_dnload on the scripts of its legs, whatever follows them. */
  lemma {:induction false} SessionIsRun(j: Job, h: Host, l: Link, room: nat, legs: seq<Leg>, rest: Script)
    requires l.Valid() && j.Fitting(h) && PossibleLegs(j, h, l, room, legs)
    ensures var p := Session(j, h, l, room, legs);
      Download(j, h, WithScript(l, p.script + rest)).0 == Download(j, p.host, WithScript(p.link, rest)).0
    decreases |legs|
  {
    hide Exchange, LegScript, Line, PossibleLeg, DfuTransfer.Download, Run, Call, After, Before, Request, Delivered,
      Settled;
    var p := Session(j, h, l, room, legs);
    if legs == [] || h.Done() {
      assert [] + rest == rest;
    } else if Refused(j, h) {
      assert [] + rest == rest;
      RefusedCall(j, h, l, rest);
    } else {
      var leg := legs[0];
      var request := Request(j, h);
      var e := Call(j, h, Before(j, h, l, room, leg));
      var h' := After(j, h, e);
      var later := Session(j, h', e.link, room, legs[1..]);
      assert p.script + rest == LegScript(request, l.packet, room, leg) + (later.script + rest);
      LegIsCall(j, h, l, room, leg, later.script + rest);
      DownloadStep(j, h, WithScript(l, p.script + rest));
      if e.ok {
        assert [] + (later.script + rest) == later.script + rest;
        SessionIsRun(j, h', e.link, room, legs[1..], rest);
      } else {
        DownloadEnd(j, h', WithScript(e.link, e.link.script + (later.script + rest)));
        DownloadEnd(j, h', WithScript(p.link, rest));
      }
    }
  }

  lemma RefusedCall(j: Job, h: Host, l: Link, rest: Script)
    requires l.Valid() && j.Fitting(h) && Refused(j, h)
    ensures var e := Call(j, h, WithScript(l, []));
      && After(j, h, e).stage.Aborted? && !e.ok
      && Download(j, h, WithScript(l, rest)).0 == Download(j, After(j, h, e), WithScript(e.link, rest)).0
  {
    var e := Call(j, h, WithScript(l, []));
    DownloadStep(j, h, WithScript(l, rest));
    DownloadEnd(j, After(j, h, e), Call(j, h, WithScript(l, rest)).link);
    DownloadEnd(j, After(j, h, e), WithScript(e.link, rest));
  }

  // ----- what has reached the far end -----

  // What is still to come is what the far end lacks; or, when the host has stopped at a
  // request that got through unanswered, all of that but the first block.
  ghost predicate Sync(j: Job, h: Host, blocks: seq<Block>)
    requires j.xfer > 0 && j.Fitting(h)
  {
    match h.stage
    case Manifesting => blocks == AllBlocks(j) && h.bytes == |j.image|
    case Completed => blocks == AllBlocks(j) && h.bytes == |j.image|
    case Aborted => InTime(j, h, blocks) || OneAhead(j, h, blocks)
    case Exited => InTime(j, h, blocks) || OneAhead(j, h, blocks)
    case _ => InTime(j, h, blocks)
  }

  ghost predicate InTime(j: Job, h: Host, blocks: seq<Block>)
    requires j.xfer > 0 && j.Fitting(h)
  {
    AllBlocks(j) == blocks + BlocksFrom(j, h.bytes, h.no)
  }

  ghost predicate OneAhead(j: Job, h: Host, blocks: seq<Block>)
    requires j.xfer > 0 && j.Fitting(h)
  {
    var next := BlocksFrom(j, h.bytes, h.no);
    blocks != [] && InTime(j, h, blocks[..|blocks| - 1]) && blocks[|blocks| - 1] == next[0]
  }

  // A package arrives as what was sent, padded, or not at all; and it has arrived if the
  // host was told so.
  lemma RequestArrives(request: seq<byte>, p: Packet, room: nat, leg: Leg)
    requires PossibleBack(leg.back) && AllPossible(leg.rounds)
    ensures var x := Line(request, p, room, leg);
      && (x.s.phase.Sent? ==> !x.r.running && x.r.ret >= 0)
      && (x.r.ret >= 0 ==> request <= x.r.data)
  {
    hide Run, Open, Padded;
    Agreement(request, p, room, leg.rp, leg.back, leg.rounds);
  }

  lemma BlockArrives(no: u16, data: seq<byte>, p: Packet, room: nat, leg: Leg)
    requires |data| <= MAX_DOWNLOAD && PossibleBack(leg.back) && AllPossible(leg.rounds)
    ensures var x := Line(DownloadRequest(no, data), p, room, leg);
      && (Delivered(x) == [] || Delivered(x) == [Block(no, data)])
      && (x.s.phase.Sent? ==> Delivered(x) == [Block(no, data)])
  {
    hide Line, Decode, DownloadRequest;
    var request := DownloadRequest(no, data);
    RequestArrives(request, p, room, leg);
    var x := Line(request, p, room, leg);
    if x.r.ret >= 0 {
      var padding := x.r.data[|request|..];
      assert x.r.data == request + padding;
      DownloadSurvivesPadding(no, data, padding);
    }
  }

  lemma StatusArrives(p: Packet, room: nat, leg: Leg)
    requires PossibleBack(leg.back) && AllPossible(leg.rounds)
    ensures Delivered(Line(StatusRequest(), p, room, leg)) == []
  {
    hide Line, Decode, StatusRequest;
    RequestArrives(StatusRequest(), p, room, leg);
    var x := Line(StatusRequest(), p, room, leg);
    if x.r.ret >= 0 {
      var padding := x.r.data[|StatusRequest()|..];
      assert x.r.data == StatusRequest() + padding;
      StatusSurvivesPadding(padding);
    }
  }

  // What one request may deliver: the next block, which it has if the host was told so.
  ghost predicate Next(j: Job, h: Host, ok: bool, d: seq<Block>)
    requires j.xfer > 0 && j.Fitting(h)
  {
    if h.stage.Blocks? || h.stage.Closing? then
      (d == [] && !ok) || d == [BlocksFrom(j, h.bytes, h.no)[0]]
    else d == []
  }

  lemma DeliveredNext(j: Job, h: Host, p: Packet, room: nat, leg: Leg)
    requires j.xfer > 0 && j.Fitting(h) && !Refused(j, h) && (h.stage.Blocks? ==> j.Chunk(h.bytes) < 0x1_0000)
    requires PossibleBack(leg.back) && AllPossible(leg.rounds)
    ensures var x := Line(Request(j, h), p, room, leg);
      Next(j, h, x.s.phase.Sent?, Delivered(x))
  {
    hide Line, Delivered, DownloadRequest, StatusRequest;
    match h.stage {
      case Blocks => BlockArrives(h.no, j.Passed(h.bytes), p, room, leg);
      case Closing => BlockArrives(h.no, [], p, room, leg);
      case _ => StatusArrives(p, room, leg);
    }
  }

  lemma SyncAfter(j: Job, h: Host, e: Exchanged, blocks: seq<Block>, d: seq<Block>)
    requires j.xfer > 0 && j.Fitting(h) && !h.Done() && e.link.Valid()
    requires Sync(j, h, blocks) && Next(j, h, e.ok, d)
    ensures Sync(j, After(j, h, e), blocks + d)
  {
    hide StatusOf, AllBlocks;
    var next := BlocksFrom(j, h.bytes, h.no);
    if d == [] {
      assert blocks + d == blocks;
    } else {
      assert (blocks + d)[..|blocks + d| - 1] == blocks;
      assert (blocks + d) + next[1..] == blocks + next;
    }
  }

  lemma {:induction false} SessionSync(j: Job, h: Host, l: Link, room: nat, legs: seq<Leg>, blocks: seq<Block>)
    requires l.Valid() && j.xfer > 0 && j.Fitting(h) && PossibleLegs(j, h, l, room, legs)
    requires j.Chunk(0) < 0x1_0000 && Sync(j, h, blocks)
    ensures var p := Session(j, h, l, room, legs); Sync(j, p.host, blocks + p.blocks)
    decreases |legs|
  {
    hide Call, After, Line, Delivered, LegScript, Sync, Request, Next, Before, Settled;
    if legs == [] || h.Done() {
      assert blocks + [] == blocks;
    } else if Refused(j, h) {
      var e := Call(j, h, WithScript(l, []));
      RefusedCall(j, h, l, []);
      assert Next(j, h, e.ok, []) by { RefusedDelivers(j, h); }
      SyncAfter(j, h, e, blocks, []);
    } else {
      var e := Call(j, h, Before(j, h, l, room, legs[0]));
      var d := Delivered(Line(Request(j, h), l.packet, room, legs[0]));
      LegIsCall(j, h, l, room, legs[0], []);
      DeliveredNext(j, h, l.packet, room, legs[0]);
      SyncAfter(j, h, e, blocks, d);
      SessionSync(j, After(j, h, e), e.link, room, legs[1..], blocks + d);
      assert blocks + (d + Session(j, After(j, h, e), e.link, room, legs[1..]).blocks)
          == (blocks + d) + Session(j, After(j, h, e), e.link, room, legs[1..]).blocks;
    }
  }

  lemma RefusedDelivers(j: Job, h: Host)
    requires j.xfer > 0 && j.Fitting(h) && Refused(j, h)
    ensures Next(j, h, false, [])
  {
  }

  // ----- the theorem -----

  // The first block keeps its length through uint16_t, or is refused as too long without it.
  predicate Sound(j: Job) {
    j.Chunk(0) < 0x1_0000 || j.Chunk(0) % 0x1_0000 > MAX_DOWNLOAD
  }

  // dfuload_do_dnload's first loop iteration.
  function First(j: Job): (h: Host)
    ensures j.Fitting(h)
  {
    j.Resume(0, 0)
  }

  /**
   End-to-end download. Over every session the blocks that reach the far end are a prefix of
   the image's block list; put together they are the bytes the host has counted, or those
   and one block more; and they are the whole list if the completion request succeeded.
   */
  lemma DownloadDelivers(j: Job, l: Link, room: nat, legs: seq<Leg>)
    requires l.Valid() && j.xfer > 0 && Sound(j) && PossibleLegs(j, First(j), l, room, legs)
    ensures var p := Session(j, First(j), l, room, legs);
      && p.blocks <= AllBlocks(j)
      && (|| Image(p.blocks) == j.image[..p.host.bytes]
          || (p.host.Done() && Image(p.blocks) == j.image[..p.host.bytes + j.Chunk(p.host.bytes)]))
      && (p.host.stage.Manifesting? || p.host.stage.Completed? ==>
          p.blocks == AllBlocks(j) && Image(p.blocks) == j.image)
  {
    hide Call, After, Line, Delivered, LegScript, Sync, Next, Before, Settled, PossibleLegs, AllBlocks;
    var p := Session(j, First(j), l, room, legs);
    assert Sync(j, First(j), []) by { SyncAtFirst(j); }
    if j.Chunk(0) < 0x1_0000 {
      SessionSync(j, First(j), l, room, legs, []);
      assert [] + p.blocks == p.blocks;
    } else {
      NothingSent(j, l, room, legs);
    }
    SyncMeans(j, p.host, p.blocks);
  }

  /** What dfuload_do_dnload comes to on the script of a session that has ended. */
  lemma DownloadReturns(j: Job, l: Link, room: nat, legs: seq<Leg>, rest: Script)
    requires l.Valid() && PossibleLegs(j, First(j), l, room, legs)
    requires Session(j, First(j), l, room, legs).host.Done()
    ensures var p := Session(j, First(j), l, room, legs);
      Download(j, First(j), WithScript(l, p.script + rest)).0 == p.host
  {
    hide Session, PossibleLegs, DfuTransfer.Download;
    var p := Session(j, First(j), l, room, legs);
    SessionIsRun(j, First(j), l, room, legs, rest);
    DownloadEnd(j, p.host, WithScript(p.link, rest));
  }

  lemma SyncAtFirst(j: Job)
    requires j.xfer > 0
    ensures Sync(j, First(j), [])
  {
    assert [] + BlocksFrom(j, 0, 0) == BlocksFrom(j, 0, 0);
  }

  lemma NothingSent(j: Job, l: Link, room: nat, legs: seq<Leg>)
    requires l.Valid() && j.xfer > 0 && Sound(j) && j.Chunk(0) >= 0x1_0000
    ensures var p := Session(j, First(j), l, room, legs);
      p.blocks == [] && Sync(j, p.host, [])
  {
    SyncAtFirst(j);
    assert Refused(j, First(j));
    RefusedCall(j, First(j), l, []);
  }

  lemma SyncMeans(j: Job, h: Host, blocks: seq<Block>)
    requires j.xfer > 0 && j.Fitting(h) && Sync(j, h, blocks)
    ensures blocks <= AllBlocks(j)
    ensures || Image(blocks) == j.image[..h.bytes]
            || (h.Done() && Image(blocks) == j.image[..h.bytes + j.Chunk(h.bytes)])
    ensures h.stage.Manifesting? || h.stage.Completed? ==> blocks == AllBlocks(j) && Image(blocks) == j.image
  {
    hide AllBlocks, BlocksFrom;
    if h.stage.Manifesting? || h.stage.Completed? {
      ImageOfBlocks(j, 0, 0);
      assert AllBlocks(j) == BlocksFrom(j, 0, 0) by { AllBlocksIs(j); }
    } else if InTime(j, h, blocks) {
      InTimeMeans(j, h, blocks);
    } else {
      OneAheadMeans(j, h, blocks);
    }
  }

  lemma AllBlocksIs(j: Job)
    requires j.xfer > 0
    ensures AllBlocks(j) == BlocksFrom(j, 0, 0)
  {
  }

  lemma InTimeMeans(j: Job, h: Host, blocks: seq<Block>)
    requires j.xfer > 0 && j.Fitting(h) && InTime(j, h, blocks)
    ensures blocks <= AllBlocks(j) && Image(blocks) == j.image[..h.bytes]
  {
    hide BlocksFrom, Image;
    var next := BlocksFrom(j, h.bytes, h.no);
    ImageOfBlocks(j, 0, 0);
    ImageOfBlocks(j, h.bytes, h.no);
    ImageAppend(blocks, next);
    assert |Image(blocks)| == h.bytes;
    assert Image(blocks) == (Image(blocks) + j.image[h.bytes..])[..h.bytes];
  }

  lemma OneAheadMeans(j: Job, h: Host, blocks: seq<Block>)
    requires j.xfer > 0 && j.Fitting(h) && OneAhead(j, h, blocks)
    ensures blocks <= AllBlocks(j) && Image(blocks) == j.image[..h.bytes + j.Chunk(h.bytes)]
  {
    var next := BlocksFrom(j, h.bytes, h.no);
    var before := blocks[..|blocks| - 1];
    InTimeMeans(j, h, before);
    assert blocks == before + [next[0]];
    ImageAppend(before, [next[0]]);
    assert Image([next[0]]) == next[0].data;
    assert AllBlocks(j) == blocks + next[1..];
    assert next[0].data == j.image[h.bytes..h.bytes + j.Chunk(h.bytes)];
    assert j.image[..h.bytes] + j.image[h.bytes..h.bytes + j.Chunk(h.bytes)] == j.image[..h.bytes + j.Chunk(h.bytes)];
  }

  // ----- where the theorem stops -----

  ghost predicate AlwaysPrefix(j: Job, l: Link, room: nat)
    requires l.Valid() && j.xfer > 0
  {
    forall legs | PossibleLegs(j, First(j), l, room, legs) :: Session(j, First(j), l, room, legs).blocks <= AllBlocks(j)
  }

  /**
   Exactly when every session delivers a prefix of the block list: a first block of 65536
   bytes or more loses its length in a uint16_t, and what is left of it is sent unless it
   is still too long for the buffer. For blocks of 65536 bytes the first request is the
   empty one that ends a download.
   */
  lemma AlwaysPrefixIffSound(j: Job, l: Link, room: nat)
    requires l.Valid() && j.xfer > 0 && room >= BUF_SIZE
    ensures AlwaysPrefix(j, l, room) <==> Sound(j)
  {
    hide Session, PossibleLegs, AllBlocks, Image;
    if Sound(j) {
      forall legs | PossibleLegs(j, First(j), l, room, legs)
        ensures Session(j, First(j), l, room, legs).blocks <= AllBlocks(j)
      {
        DownloadDelivers(j, l, room, legs);
      }
    } else {
      var legs := Truncated(j, l, room);
      assert PossibleLegs(j, First(j), l, room, legs);
    }
  }

  // A session whose one block is not in the list.
  lemma Truncated(j: Job, l: Link, room: nat) returns (legs: seq<Leg>)
    requires l.Valid() && j.xfer > 0 && room >= BUF_SIZE && !Sound(j)
    ensures PossibleLegs(j, First(j), l, room, legs)
    ensures !(Session(j, First(j), l, room, legs).blocks <= AllBlocks(j))
  {
    hide PossibleLeg, Line, LegScript, Exchange, Settled, Delivered, DownloadRequest;
    var h := First(j);
    var request := Request(j, h);
    var leg := CleanLeg(request, l.packet, room, []);
    BlockArrives(0, j.Passed(0), l.packet, room, leg);
    legs := [leg];
    assert legs[1..] == [];
    assert Delivered(Line(request, l.packet, room, leg)) == [Block(0, j.Passed(0))];
    assert AllBlocks(j)[0] == Block(0, j.image[0..j.Chunk(0)]);
  }

  // A leg without a fault, on which the far end gives an answer.
  lemma CleanLeg(request: seq<byte>, p: Packet, room: nat, answer: seq<byte>) returns (leg: Leg)
    requires 0 < |request| <= BUF_SIZE <= room && |answer| <= BUF_SIZE
    ensures PossibleLeg(request, p, room, leg) && Line(request, p, room, leg).s.phase.Sent?
    ensures PossibleBack(leg.back) && AllPossible(leg.rounds)
    ensures answer <= Receive(ReceiverStart(BUF_SIZE, Line(request, p, room, leg).s.packet), leg.reply).final.data
  {
    hide Run, Open, Total, Frames, Settled, ReceiverHears, Receive;
    var rounds := CleanTransfer(request, p, room, p);
    leg := Leg(p, Through, rounds, []);
    var q := Line(request, p, room, leg).s.packet;
    var answerRounds := CleanTransfer(answer, p, BUF_SIZE, q);
    HeardIsSettled(answer, p, q, Through, answerRounds);
    leg := leg.(reply := ReceiverHears(Open(answer, p, BUF_SIZE, q, Through), answerRounds));
  }

  // A package that meets no fault.
  lemma CleanTransfer(data: seq<byte>, sp: Packet, room: nat, rp: Packet) returns (rounds: seq<Round>)
    requires |data| <= BUF_SIZE <= room
    ensures AllPossible(rounds)
    ensures var x := Run(Open(data, sp, room, rp, Through), rounds);
      x.s.phase.Sent? && !x.r.running && data <= x.r.data && x.r.data == Total(data, sp)
  {
    hide Run, Open, Total, Flatten, Frames;
    var frames := seq(Frames(|data|), i requires 0 <= i < Frames(|data|) => [CLEAN]);
    rounds := [] + (Flatten(frames) + [CLEAN]);
    assert Tries([CLEAN], MAX_RETRANSMIT) && FirstArrival([CLEAN], MAX_RETRANSMIT);
    FramesFit(data);
    SureSuccess(data, sp, room, rp, Through, [], frames, [CLEAN]);
    CleanRounds(frames);
  }

  lemma FramesFit(request: seq<byte>)
    requires |request| <= BUF_SIZE
    ensures Frames(|request|) <= 64
  {
  }

  lemma {:induction false} CleanRounds(frames: seq<seq<Round>>)
    requires forall i :: 0 <= i < |frames| ==> frames[i] == [CLEAN]
    ensures AllPossible(Flatten(frames))
    decreases |frames|
  {
    if frames != [] {
      CleanRounds(frames[1..]);
    }
  }

  /** What the host hears in the rounds of an answer is settled once they have ended it. */
  lemma HeardIsSettled(answer: seq<byte>, sp: Packet, p: Packet, back: Backward, rounds: seq<Round>)
    requires PossibleBack(back) && AllPossible(rounds)
    requires !Run(Open(answer, sp, BUF_SIZE, p, back), rounds).r.running
    ensures var reply := ReceiverHears(Open(answer, sp, BUF_SIZE, p, back), rounds);
      && Settled(p, reply)
      && Receive(ReceiverStart(BUF_SIZE, p), reply).final == Run(Open(answer, sp, BUF_SIZE, p, back), rounds).r
  {
    hide Run, Open, ReceiverHears, Receive;
    var reply := ReceiverHears(Open(answer, sp, BUF_SIZE, p, back), rounds);
    RoundsAreRuns(answer, sp, BUF_SIZE, p, back, rounds, []);
    assert reply + [] == reply;
    forall rest: Script
      ensures Receive(ReceiverStart(BUF_SIZE, p), reply + rest)
        == Receive(ReceiverStart(BUF_SIZE, p), reply).(rest := rest)
    {
      RoundsAreRuns(answer, sp, BUF_SIZE, p, back, rounds, rest);
    }
  }
}
