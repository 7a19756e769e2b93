/**
 Uploads over the faulty line, from a device that serves an image in blocks of the
 transfer size up to the first short one.
 */
module UploadEndToEnd {
  import opened Words
  import opened XmodemProtocol
  import opened StopAndWait
  import opened QdaPackets
  import opened QdaLink
  import opened DfuTransfer
  import opened EndToEnd

  // One request and the device's answer to it: how the request fares, the device's packet
  // buffer when it answers, and how the answer fares.
  datatype Serving = Serving(rp: Packet, back: Backward, rounds: seq<Round>, sp: Packet, answerBack: Backward,
    answerRounds: seq<Round>)

  // The request's rounds, of which the far end's are not looked at further.
  function Asked(request: seq<byte>, p: Packet, room: nat, v: Serving): System {
    Line(request, p, room, Leg(v.rp, v.back, v.rounds, []))
  }

  // The device as the sender and the host as the receiver, after the answer's rounds.
  function AnswerOpen(answer: seq<byte>, p: Packet, v: Serving): System {
    Open(answer, v.sp, BUF_SIZE, p, v.answerBack)
  }

  function Answered(answer: seq<byte>, p: Packet, v: Serving): System {
    Run(AnswerOpen(answer, p, v), v.answerRounds)
  }

  function AsLeg(request: seq<byte>, answer: seq<byte>, p: Packet, room: nat, v: Serving): Leg {
    Leg(v.rp, v.back, v.rounds,
        ReceiverHears(AnswerOpen(answer, Asked(request, p, room, v).s.packet, v), v.answerRounds))
  }

  // The request is sent, and the host's listening to the answer comes to an end.
  ghost predicate PossibleServing(request: seq<byte>, answer: seq<byte>, p: Packet, room: nat, v: Serving) {
    && PossibleBack(v.back) && AllPossible(v.rounds) && PossibleBack(v.answerBack) && AllPossible(v.answerRounds)
    && Asked(request, p, room, v).s.phase.Sent?
    && !Answered(answer, Asked(request, p, room, v).s.packet, v).r.running
  }

  // What the host has taken of the answer.
  function Taking(request: seq<byte>, answer: seq<byte>, p: Packet, room: nat, v: Serving): seq<byte> {
    Answered(answer, Asked(request, p, room, v).s.packet, v).r.data
  }

  lemma TakingIsPrefix(request: seq<byte>, answer: seq<byte>, p: Packet, room: nat, v: Serving)
    requires PossibleServing(request, answer, p, room, v)
    ensures var taken, total := Taking(request, answer, p, room, v), Total(answer, v.sp);
      && taken <= total && |taken| <= BUF_SIZE && answer <= total
      && (Answered(answer, Asked(request, p, room, v).s.packet, v).r.ret >= 0 ==> taken == total)
  {
    hide Run, Open, Total, Line;
    var p' := Asked(request, p, room, v).s.packet;
    Reachable(answer, v.sp, BUF_SIZE, p', v.answerBack, v.answerRounds);
    Agreement(answer, v.sp, BUF_SIZE, p', v.answerBack, v.answerRounds);
  }

  /** An exchange with a device that answers: the answer, as far as it was taken, over the request. */
  lemma AnswerLandsInBuffer(l: Link, request: seq<byte>, answer: seq<byte>, room: nat, v: Serving, rest: Script)
    requires l.Valid() && 0 < |request| <= BUF_SIZE && PossibleServing(request, answer, l.packet, room, v)
    ensures var leg := AsLeg(request, answer, l.packet, room, v);
      var e := Exchange(WithScript(l, LegScript(request, l.packet, room, leg) + rest), request);
      && e.ok
      && e.link
         == WithScript(Exchange(WithScript(l, LegScript(request, l.packet, room, leg) + []), request).link, rest)
      && |Taking(request, answer, l.packet, room, v)| <= BUF_SIZE
      && e.link.buf == Overlay(Taking(request, answer, l.packet, room, v), Overlay(request, l.buf))
  {
    hide Run, Open, Exchange, LegScript, ReceiverHears, Receive, Settled, AllPossible;
    var p := Asked(request, l.packet, room, v).s.packet;
    var leg := AsLeg(request, answer, l.packet, room, v);
    HeardIsSettled(answer, v.sp, p, v.answerBack, v.answerRounds);
    TakingIsPrefix(request, answer, l.packet, room, v);
    ExchangeOnLeg(l, request, room, leg, rest);
    assert [] + rest == rest;
    assert LegScript(request, l.packet, room, leg) + [] == LegScript(request, l.packet, room, leg);
  }

  function UploadServed(l: Link, maxLen: u16, no: u16, data: seq<byte>, room: nat, v: Serving, rest: Script)
      : (e: Exchanged)
    requires l.Valid() && |data| <= MAX_UPLOAD
    ensures e.link.Valid()
  {
    Exchange(WithScript(l, UploadScript(l, maxLen, no, data, room, v) + rest), UploadRequest(maxLen, no))
  }

  function UploadScript(l: Link, maxLen: u16, no: u16, data: seq<byte>, room: nat, v: Serving): Script
    requires |data| <= MAX_UPLOAD
  {
    var request := UploadRequest(maxLen, no);
    LegScript(request, l.packet, room, AsLeg(request, UploadResponse(data), l.packet, room, v))
  }

  ghost predicate PossibleUpload(l: Link, maxLen: u16, no: u16, data: seq<byte>, room: nat, v: Serving)
    requires |data| <= MAX_UPLOAD
  {
    PossibleServing(UploadRequest(maxLen, no), UploadResponse(data), l.packet, room, v)
  }

  function UploadTaking(l: Link, maxLen: u16, no: u16, data: seq<byte>, room: nat, v: Serving): seq<byte>
    requires |data| <= MAX_UPLOAD
  {
    Taking(UploadRequest(maxLen, no), UploadResponse(data), l.packet, room, v)
  }

  // What an upload call yields when it has taken k bytes of the answer that carries data,
  // and qda_buf held buf before.
  ghost predicate Yields(got: Uploaded, k: nat, data: seq<byte>, buf: seq<byte>)
    requires |buf| == BUF_SIZE && |data| <= MAX_UPLOAD
  {
    if k == 0 then got.Failed?
    else
      && got.Uploaded? && |got.data| == |data|
      && forall i :: 0 <= i < |data| ==> got.data[i] == if 6 + i < k then data[i] else buf[6 + i]
  }

  /**
   What an upload call makes of an answer whose transfer may have broken off, for its result
   is ignored: without a first frame it fails, and with one it yields the announced number
   of bytes, where those that did not come are what qda_buf held before.
   */
  lemma UploadYields(l: Link, maxLen: u16, no: u16, data: seq<byte>, room: nat, v: Serving, rest: Script)
    requires l.Valid() && |data| <= maxLen <= MAX_UPLOAD && PossibleUpload(l, maxLen, no, data, room, v)
    ensures var e := UploadServed(l, maxLen, no, data, room, v, rest);
      && e.link == WithScript(UploadServed(l, maxLen, no, data, room, v, []).link, rest)
      && Yields(UploadedBy(e, maxLen), |UploadTaking(l, maxLen, no, data, room, v)|, data, l.buf)
  {
    hide Exchange, LegScript, Taking, AsLeg, PossibleServing, UploadedBy, Yields, UploadRequest, UploadResponse, Total;
    var request, answer := UploadRequest(maxLen, no), UploadResponse(data);
    var taken := Taking(request, answer, l.packet, room, v);
    AnswerLandsInBuffer(l, request, answer, room, v, rest);
    TakingIsPrefix(request, answer, l.packet, room, v);
    TakingIsBlocks(request, answer, l.packet, room, v);
    Landed(UploadServed(l, maxLen, no, data, room, v, rest), l.buf, maxLen, no, data, taken, Total(answer, v.sp));
  }

  lemma TakingIsBlocks(request: seq<byte>, answer: seq<byte>, p: Packet, room: nat, v: Serving)
    requires PossibleServing(request, answer, p, room, v)
    ensures |Taking(request, answer, p, room, v)| % BLOCK == 0
  {
    hide Run, Open, Total, Line;
    Reachable(answer, v.sp, BUF_SIZE, Asked(request, p, room, v).s.packet, v.answerBack, v.answerRounds);
  }

  // The buffer as an answer with its type and length, or as the request still.
  lemma Landed(e: Exchanged, buf: seq<byte>, maxLen: u16, no: u16, data: seq<byte>, taken: seq<byte>, total: seq<byte>)
    requires |buf| == BUF_SIZE && |data| <= maxLen <= MAX_UPLOAD && e.ok && e.link.Valid()
    requires taken <= total && UploadResponse(data) <= total && |taken| <= BUF_SIZE && |taken| % BLOCK == 0
    requires e.link.buf == Overlay(taken, Overlay(UploadRequest(maxLen, no), buf))
    ensures Yields(UploadedBy(e, maxLen), |taken|, data, buf)
  {
    hide TypeOf, Word16, Le32, Le16;
    var b, answer, k := e.link.buf, UploadResponse(data), |taken|;
    if k == 0 {
      TypeSurvives(UPLOAD_REQ, b[4..]);
      assert b == Le32(UPLOAD_REQ) + b[4..];
      assert TypeOf(b) == UPLOAD_REQ;
    } else {
      assert k >= BLOCK;
      assert b[..6] == taken[..6] == total[..6] == answer[..6];
      TypeSurvives(UPLOAD_RESP, b[4..]);
      assert b == Le32(UPLOAD_RESP) + b[4..];
      assert b[4..6] == answer[4..6] == Le16(|data|);
      assert b[4] == b[4..6][0] && b[5] == b[4..6][1];
      Word16OfLe16(|data|);
      var got := b[6..6 + |data|];
      assert UploadedBy(e, maxLen) == Uploaded(got);
      forall i | 0 <= i < |data| ensures got[i] == if 6 + i < k then data[i] else buf[6 + i] {
        if 6 + i < k {
          assert got[i] == taken[6 + i] == total[6 + i] == answer[6 + i] == data[i];
        } else {
          assert got[i] == Overlay(UploadRequest(maxLen, no), buf)[6 + i] == buf[6 + i];
        }
      }
    }
  }

  // ----- the device that serves an image -----

  function Part(xfer: nat, image: seq<byte>, off: nat): (data: seq<byte>)
    requires off <= |image|
    ensures |data| <= xfer
  {
    image[off..if |image| - off < xfer then |image| else off + xfer]
  }

  // The answers serve the image from off on, and each arrives whole.
  ghost predicate Serves(xfer: nat, image: seq<byte>, off: nat, no: u16, l: Link, room: nat, vs: seq<Serving>)
    requires 0 < xfer <= MAX_UPLOAD && off <= |image| && l.Valid()
    decreases |vs|
  {
    var data := Part(xfer, image, off);
    && vs != [] && PossibleUpload(l, xfer, no, data, room, vs[0])
    && UploadResponse(data) <= UploadTaking(l, xfer, no, data, room, vs[0])
    && if |data| < xfer then |vs| == 1
       else Serves(xfer, image, off + xfer, NextBlock(no), UploadServed(l, xfer, no, data, room, vs[0], []).link,
         room, vs[1..])
  }

  function ServedScript(xfer: nat, image: seq<byte>, off: nat, no: u16, l: Link, room: nat, vs: seq<Serving>): Script
    requires 0 < xfer <= MAX_UPLOAD && off <= |image| && l.Valid()
    decreases |vs|
  {
    var data := Part(xfer, image, off);
    if vs == [] then []
    else
      UploadScript(l, xfer, no, data, room, vs[0])
      + (if |data| < xfer then []
         else ServedScript(xfer, image, off + xfer, NextBlock(no),
           UploadServed(l, xfer, no, data, room, vs[0], []).link, room, vs[1..]))
  }

  lemma WholeAnswer(l: Link, xfer: nat, no: u16, data: seq<byte>, room: nat, v: Serving, rest: Script)
    requires l.Valid() && |data| <= xfer <= MAX_UPLOAD && PossibleUpload(l, xfer, no, data, room, v)
    requires UploadResponse(data) <= UploadTaking(l, xfer, no, data, room, v)
    ensures var e := UploadServed(l, xfer, no, data, room, v, rest);
      && UploadedBy(e, xfer) == Uploaded(data)
      && e.link == WithScript(UploadServed(l, xfer, no, data, room, v, []).link, rest)
  {
    hide UploadServed, UploadTaking, UploadedBy, PossibleUpload;
    UploadYields(l, xfer, no, data, room, v, rest);
  }

  // The upload from a state on ends in another with just rest left to read.
  ghost predicate EndsIn(xfer: nat, f: Fetch, l: Link, end: Fetch, rest: Script)
    requires xfer <= MAX_UPLOAD && l.Valid()
  {
    Upload(xfer, f, l).0 == end && Upload(xfer, f, l).1.script == rest
  }

  // One call that gets the next part whole.
  lemma PartArrives(xfer: nat, image: seq<byte>, off: nat, no: u16, l: Link, e: Exchanged, end: Fetch, rest: Script)
    requires 0 < xfer <= MAX_UPLOAD && |image| < 0x8000_0000 && off <= |image| && l.Valid() && e.link.Valid()
    requires Exchange(l, UploadRequest(xfer, no)) == e && UploadedBy(e, xfer) == Uploaded(Part(xfer, image, off))
    requires var last := |image| - off < xfer;
      EndsIn(xfer, Fetch(if last then Finished(0) else Fetching, NextBlock(no),
        image[..if last then |image| else off + xfer]), e.link, end, rest)
    ensures EndsIn(xfer, Fetch(Fetching, no, image[..off]), l, end, rest)
  {
    hide Exchange, UploadedBy, UploadRequest, Upload;
    UploadStep(xfer, Fetch(Fetching, no, image[..off]), l);
    assert image[..off] + Part(xfer, image, off) == image[..off + |Part(xfer, image, off)|];
  }

  // One call for each full stretch, and one for what is left.
  function Calls(n: nat, xfer: nat): nat
    requires xfer > 0
  {
    n / xfer + 1
  }

  /**
   Upload inverts chunking: from a device that serves an image in stretches of xfer bytes up
   to the first short one, dfuload_do_upload writes exactly the image and returns 0, after
   one call more than the image has full stretches, also where the image is an exact
   multiple of xfer and where the block numbers wrap.
   */
  lemma {:induction false} UploadInverts(
      xfer: nat, image: seq<byte>, off: nat, no: u16, l: Link, room: nat, vs: seq<Serving>, rest: Script)
    requires 0 < xfer <= MAX_UPLOAD && |image| < 0x8000_0000 && off <= |image|
    requires l.Valid() && Serves(xfer, image, off, no, l, room, vs)
    ensures |vs| == Calls(|image| - off, xfer)
    ensures EndsIn(xfer, Fetch(Fetching, no, image[..off]),
      WithScript(l, ServedScript(xfer, image, off, no, l, room, vs) + rest),
      Fetch(Finished(0), (no + |vs|) % 0x1_0000, image), rest)
    decreases |vs|
  {
    hide UploadServed, UploadTaking, UploadedBy, PossibleUpload, EndsIn, UploadScript, UploadResponse, UploadRequest,
      Exchange, Upload, Part, Serves, ServedScript, NextBlock, Calls;
    ServesNow(xfer, image, off, no, l, room, vs);
    var data := Part(xfer, image, off);
    var next := UploadServed(l, xfer, no, data, room, vs[0], []).link;
    var script := UploadScript(l, xfer, no, data, room, vs[0]);
    var end := Fetch(Finished(0), (no + |vs|) % 0x1_0000, image);
    OneLess(|image| - off, xfer);
    if |image| - off < xfer {
      AtEnd(xfer, end, WithScript(next, rest));
      assert image[..|image|] == image;
      PartServed(xfer, image, off, no, l, room, vs[0], rest, end, rest);
    } else {
      var later := ServedScript(xfer, image, off + xfer, NextBlock(no), next, room, vs[1..]);
      UploadInverts(xfer, image, off + xfer, NextBlock(no), next, room, vs[1..], rest);
      NumberWraps(no, |vs[1..]|);
      assert (script + later) + rest == script + (later + rest);
      PartServed(xfer, image, off, no, l, room, vs[0], later + rest, end, rest);
    }
  }

  lemma NumberWraps(no: u16, n: nat)
    ensures (NextBlock(no) + n) % 0x1_0000 == (no + n + 1) % 0x1_0000
  {
  }

  lemma PartServed(xfer: nat, image: seq<byte>, off: nat, no: u16, l: Link, room: nat, v: Serving, later: Script,
      end: Fetch, rest: Script)
    requires 0 < xfer <= MAX_UPLOAD && |image| < 0x8000_0000 && off <= |image| && l.Valid()
    requires var data := Part(xfer, image, off);
      PossibleUpload(l, xfer, no, data, room, v) && UploadResponse(data) <= UploadTaking(l, xfer, no, data, room, v)
    requires var last, next := |image| - off < xfer,
      UploadServed(l, xfer, no, Part(xfer, image, off), room, v, []).link;
      EndsIn(xfer, Fetch(if last then Finished(0) else Fetching, NextBlock(no),
        image[..if last then |image| else off + xfer]),
             WithScript(next, later), end, rest)
    ensures EndsIn(xfer, Fetch(Fetching, no, image[..off]),
      WithScript(l, UploadScript(l, xfer, no, Part(xfer, image, off), room, v) + later), end, rest)
  {
    hide UploadServed, UploadTaking, UploadedBy, PossibleUpload, EndsIn, UploadScript, UploadResponse, UploadRequest,
      Exchange, Upload, Part, NextBlock;
    var data := Part(xfer, image, off);
    WholeAnswer(l, xfer, no, data, room, v, later);
    ServedIsExchange(l, xfer, no, data, room, v, later);
    PartArrives(xfer, image, off, no, WithScript(l, UploadScript(l, xfer, no, data, room, v) + later),
      UploadServed(l, xfer, no, data, room, v, later), end, rest);
  }

  // The predicate and its script, unfolded once.
  lemma ServesNow(xfer: nat, image: seq<byte>, off: nat, no: u16, l: Link, room: nat, vs: seq<Serving>)
    requires 0 < xfer <= MAX_UPLOAD && off <= |image| && l.Valid() && Serves(xfer, image, off, no, l, room, vs)
    ensures var data, last := Part(xfer, image, off), |image| - off < xfer;
      && |vs| > 0 && (|data| < xfer <==> last) && PossibleUpload(l, xfer, no, data, room, vs[0])
      && UploadResponse(data) <= UploadTaking(l, xfer, no, data, room, vs[0])
      && (last ==>
          && |vs| == 1
          && ServedScript(xfer, image, off, no, l, room, vs) == UploadScript(l, xfer, no, data, room, vs[0]))
      && (!last ==>
          var next := UploadServed(l, xfer, no, data, room, vs[0], []).link;
          && Serves(xfer, image, off + xfer, NextBlock(no), next, room, vs[1..])
          && ServedScript(xfer, image, off, no, l, room, vs) == UploadScript(l, xfer, no, data, room, vs[0])
             + ServedScript(xfer, image, off + xfer, NextBlock(no), next, room, vs[1..]))
    ensures NextBlock(no) as int == (no + 1) % 0x1_0000
  {
    hide UploadServed, UploadTaking, PossibleUpload, UploadScript, UploadResponse;
    assert UploadScript(l, xfer, no, Part(xfer, image, off), room, vs[0]) + []
      == UploadScript(l, xfer, no, Part(xfer, image, off), room, vs[0]);
  }

  lemma ServedIsExchange(l: Link, xfer: nat, no: u16, data: seq<byte>, room: nat, v: Serving, rest: Script)
    requires l.Valid() && |data| <= xfer <= MAX_UPLOAD
    ensures UploadServed(l, xfer, no, data, room, v, rest)
      == Exchange(WithScript(l, UploadScript(l, xfer, no, data, room, v) + rest), UploadRequest(xfer, no))
  {
  }

  lemma AtEnd(xfer: nat, f: Fetch, l: Link)
    requires xfer <= MAX_UPLOAD && l.Valid() && !f.stage.Fetching?
    ensures EndsIn(xfer, f, l, f, l.script)
  {
    UploadEnd(xfer, f, l);
  }

  lemma OneLess(n: nat, xfer: nat)
    requires 0 < xfer
    ensures Calls(n, xfer) == if n < xfer then 1 else Calls(n - xfer, xfer) + 1
  {
    if n >= xfer {
      DivideUnique(n, xfer, (n - xfer) / xfer + 1, (n - xfer) % xfer);
    }
  }
}
