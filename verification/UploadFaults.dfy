/** Uploads whose answers break off or announce too much. */
module UploadFaults {
  import opened Words
  import opened XmodemProtocol
  import opened StopAndWait
  import opened QdaPackets
  import opened QdaLink
  import opened DfuTransfer
  import opened EndToEnd
  import opened UploadEndToEnd
  import opened FaultFree

  // ----- answers that break off -----

  // The line falls silent until the receiver gives up.
  lemma {:induction false} Starve(x: System, total: seq<byte>, size: nat) returns (rounds: seq<Round>)
    requires Inv(x, total, size) && x.r.running
    ensures AllPossible(rounds)
    ensures var r := Run(x, rounds).r; !r.running && r.data == x.r.data
    decreases MAX_RX_ERRORS - x.r.errors
  {
    hide Inv, Step, BadArrival, ReceiverAfter;
    var silent := Round(Disturbed([Timeout]), Lost);
    assert BadArrival([Timeout]) by { SilenceIsBad(); }
    assert x.r.errors < MAX_RX_ERRORS by { RunningErrors(x, total, size); }
    var p := ReadsBad(x, silent.out);
    StepKeeps(x, total, size, silent);
    var x' := Step(x, silent);
    assert x'.r == Take(x.r, Bad, p) by { StepReceives(x, silent); }
    if x'.r.running {
      var later := Starve(x', total, size);
      rounds := [silent] + later;
      assert rounds[1..] == later;
    } else {
      rounds := [silent];
      RunOne(x, silent);
    }
  }

  lemma RunningErrors(x: System, total: seq<byte>, size: nat)
    requires Inv(x, total, size) && x.r.running
    ensures x.r.errors < MAX_RX_ERRORS
  {
  }

  lemma StepReceives(x: System, round: Round)
    ensures Step(x, round).r == ReceiverAfter(x, round.out)
  {
  }

  // One frame arrives, and then nothing.
  lemma BreakOff(answer: seq<byte>, sp: Packet, p: Packet) returns (rounds: seq<Round>)
    requires BLOCK < |answer| <= BUF_SIZE
    ensures AllPossible(rounds)
    ensures var r := Run(Open(answer, sp, BUF_SIZE, p, Through), rounds).r; !r.running && |r.data| == BLOCK
  {
    hide Inv, Run, Open, Padded, Pending, AllPossible;
    var x, total := Open(answer, sp, BUF_SIZE, p, Through), Total(answer, sp);
    PaddedShape(answer, Payload(sp));
    FreshAtOpen(answer, sp, BUF_SIZE, p);
    FreshEnding(x, total, BUF_SIZE);
    var first := CleanFrames(x, total, BUF_SIZE, 1);
    var y := Run(x, first);
    var later := Starve(y, total, BUF_SIZE);
    RunAppend(x, first, later);
    rounds := first + later;
    BothPossible(first, later);
  }

  lemma BothPossible(a: seq<Round>, b: seq<Round>)
    requires AllPossible(a) && AllPossible(b)
    ensures AllPossible(a + b)
  {
  }

  // A call whose request is sent fails or yields the device's bytes, whatever becomes of the answer.
  ghost predicate AlwaysRight(l: Link, maxLen: u16, no: u16, data: seq<byte>, room: nat)
    requires l.Valid() && |data| <= maxLen <= MAX_UPLOAD
  {
    forall v, rest | PossibleUpload(l, maxLen, no, data, room, v) ::
      var got := UploadedBy(UploadServed(l, maxLen, no, data, room, v, rest), maxLen);
      got.Failed? || got == Uploaded(data)
  }

  /**
   That holds exactly if qda_buf already holds the bytes of the answer beyond its first frame:
   the result of receive is ignored, so an answer that breaks off after a frame is completed
   from the buffer. Up to 122 bytes it always holds.
   */
  lemma AlwaysRightIff(l: Link, maxLen: u16, no: u16, data: seq<byte>, room: nat)
    requires l.Valid() && |data| <= maxLen <= MAX_UPLOAD && room >= BUF_SIZE
    ensures AlwaysRight(l, maxLen, no, data, room)
      <==> forall i :: BLOCK - 6 <= i < |data| ==> l.buf[6 + i] == data[i]
  {
    hide UploadServed, PossibleUpload, UploadedBy, UploadTaking;
    if forall i :: BLOCK - 6 <= i < |data| ==> l.buf[6 + i] == data[i] {
      forall v, rest | PossibleUpload(l, maxLen, no, data, room, v)
        ensures var got := UploadedBy(UploadServed(l, maxLen, no, data, room, v, rest), maxLen);
          got.Failed? || got == Uploaded(data)
      {
        UploadYields(l, maxLen, no, data, room, v, rest);
        UploadTakesBlocks(l, maxLen, no, data, room, v);
      }
    } else {
      var i :| BLOCK - 6 <= i < |data| && l.buf[6 + i] != data[i];
      var v := BrokenServing(l, maxLen, no, data, room);
      UploadYields(l, maxLen, no, data, room, v, []);
      var got := UploadedBy(UploadServed(l, maxLen, no, data, room, v, []), maxLen);
      assert got.Uploaded? && got.data[i] != data[i];
    }
  }

  lemma UploadTakesBlocks(l: Link, maxLen: u16, no: u16, data: seq<byte>, room: nat, v: Serving)
    requires |data| <= MAX_UPLOAD && PossibleUpload(l, maxLen, no, data, room, v)
    ensures |UploadTaking(l, maxLen, no, data, room, v)| % BLOCK == 0
  {
    hide UploadRequest, UploadResponse, Taking, PossibleServing;
    TakingIsBlocks(UploadRequest(maxLen, no), UploadResponse(data), l.packet, room, v);
  }

  // The request gets through, and of the answer the first frame.
  lemma BrokenServing(l: Link, maxLen: u16, no: u16, data: seq<byte>, room: nat) returns (v: Serving)
    requires l.Valid() && BLOCK - 6 < |data| <= MAX_UPLOAD && room >= BUF_SIZE
    ensures PossibleUpload(l, maxLen, no, data, room, v)
    ensures |UploadTaking(l, maxLen, no, data, room, v)| == BLOCK
  {
    hide Run, Open, Total, UploadRequest, UploadResponse;
    var request, answer := UploadRequest(maxLen, no), UploadResponse(data);
    var rounds := CleanTransfer(request, l.packet, room, l.packet);
    v := Serving(l.packet, Through, rounds, l.packet, Through, []);
    var answerRounds := BreakOff(answer, l.packet, Asked(request, l.packet, room, v).s.packet);
    v := v.(answerRounds := answerRounds);
  }

  // ----- whole uploads with answers that may break off -----

  // The device serves the image from off on, until a call fails or a part is short.
  ghost predicate Attempts(xfer: nat, image: seq<byte>, off: nat, no: u16, l: Link, room: nat, vs: seq<Serving>)
    requires 0 < xfer <= MAX_UPLOAD && off <= |image| && l.Valid()
    decreases |vs|
  {
    var data := Part(xfer, image, off);
    && vs != [] && PossibleUpload(l, xfer, no, data, room, vs[0])
    && var e := UploadServed(l, xfer, no, data, room, vs[0], []);
       if UploadedBy(e, xfer).Failed? || |data| < xfer then |vs| == 1
       else Attempts(xfer, image, off + xfer, NextBlock(no), e.link, room, vs[1..])
  }

  // The script of the attempts, and what they have written at the end.
  datatype Attempted = Attempted(script: Script, end: Fetch)

  function Attempt(
      xfer: nat, image: seq<byte>, off: nat, no: u16, file: seq<byte>, l: Link, room: nat, vs: seq<Serving>): Attempted
    requires 0 < xfer <= MAX_UPLOAD && off <= |image| && l.Valid()
    decreases |vs|
  {
    if vs == [] then Attempted([], Fetch(Fetching, no, file))
    else
      var data := Part(xfer, image, off);
      var e := UploadServed(l, xfer, no, data, room, vs[0], []);
      var f := FetchAfter(Fetch(Fetching, no, file), xfer, UploadedBy(e, xfer));
      var script := UploadScript(l, xfer, no, data, room, vs[0]);
      if f.stage.Fetching? && |data| == xfer then
        var later := Attempt(xfer, image, off + xfer, f.no, f.file, e.link, room, vs[1..]);
        later.(script := script + later.script)
      else Attempted(script, f)
  }

  /** Attempts are a run of dfuload_do_upload, whatever follows them. */
  lemma {:induction false} AttemptsAreRun(
      xfer: nat, image: seq<byte>, off: nat, no: u16, file: seq<byte>, l: Link, room: nat, vs: seq<Serving>,
      rest: Script)
    requires 0 < xfer <= MAX_UPLOAD && off <= |image| < 0x8000_0000 && l.Valid() && |file| == off
    requires Attempts(xfer, image, off, no, l, room, vs)
    ensures var a := Attempt(xfer, image, off, no, file, l, room, vs);
      !a.end.stage.Fetching? && EndsIn(xfer, Fetch(Fetching, no, file), WithScript(l, a.script + rest), a.end, rest)
    decreases |vs|
  {
    hide UploadServed, UploadedBy, UploadTaking, PossibleUpload, EndsIn, UploadScript, Yields, Exchange,
      UploadRequest, Upload;
    var data := Part(xfer, image, off);
    var e := UploadServed(l, xfer, no, data, room, vs[0], []);
    var got := UploadedBy(e, xfer);
    var script := UploadScript(l, xfer, no, data, room, vs[0]);
    var f := FetchAfter(Fetch(Fetching, no, file), xfer, got);
    Answers(l, xfer, no, data, room, vs[0], []);
    var later: Script := [];
    var end := f;
    if f.stage.Fetching? {
      var a := Attempt(xfer, image, off + xfer, f.no, f.file, e.link, room, vs[1..]);
      later, end := a.script, a.end;
      AttemptsAreRun(xfer, image, off + xfer, f.no, f.file, e.link, room, vs[1..], rest);
      assert (script + later) + rest == script + (later + rest);
    } else {
      AtEnd(xfer, f, WithScript(e.link, rest));
      assert later + rest == rest;
    }
    Answers(l, xfer, no, data, room, vs[0], later + rest);
    ServedIsExchange(l, xfer, no, data, room, vs[0], later + rest);
    OneCall(xfer, Fetch(Fetching, no, file), WithScript(l, script + (later + rest)), end, rest);
  }

  // An answer yields as many bytes as the device has sent, or none, whatever follows it.
  lemma Answers(l: Link, xfer: nat, no: u16, data: seq<byte>, room: nat, v: Serving, rest: Script)
    requires l.Valid() && |data| <= xfer <= MAX_UPLOAD && PossibleUpload(l, xfer, no, data, room, v)
    ensures var e, e' := UploadServed(l, xfer, no, data, room, v, []), UploadServed(l, xfer, no, data, room, v, rest);
      && e'.link == WithScript(e.link, rest) && UploadedBy(e', xfer) == UploadedBy(e, xfer)
      && var got := UploadedBy(e, xfer);
         got.Failed? || (got.Uploaded? && |got.data| == |data|)
  {
    hide UploadServed, UploadedBy, UploadTaking, PossibleUpload;
    UploadYields(l, xfer, no, data, room, v, []);
    UploadYields(l, xfer, no, data, room, v, rest);
  }

  lemma OneCall(xfer: nat, f: Fetch, l: Link, end: Fetch, rest: Script)
    requires xfer <= MAX_UPLOAD && l.Valid() && f.stage.Fetching?
    requires var e := Exchange(l, UploadRequest(xfer, f.no));
      EndsIn(xfer, FetchAfter(f, xfer, UploadedBy(e, xfer)), e.link, end, rest)
    ensures EndsIn(xfer, f, l, end, rest)
  {
    hide Exchange, UploadedBy, UploadRequest, Upload;
    UploadStep(xfer, f, l);
  }

  // An upload that returns 0 has written the image, for every image, start and fate of the answers.
  ghost predicate UploadsRight(xfer: nat, room: nat)
    requires 0 < xfer <= MAX_UPLOAD
  {
    forall image, l: Link, vs | |image| < 0x8000_0000 && l.Valid() && Attempts(xfer, image, 0, 0, l, room, vs) ::
      var f := Attempt(xfer, image, 0, 0, [], l, room, vs).end;
      f.stage == Finished(0) ==> f.file == image
  }

  /**
   Exactly for transfer sizes of at most 122 bytes, where each answer is one frame, does
   dfuload_do_upload return 0 only with the image in the file, however the answers fare.
   */
  lemma UploadsRightIff(xfer: nat, room: nat)
    requires 0 < xfer <= MAX_UPLOAD && room >= BUF_SIZE
    ensures UploadsRight(xfer, room) <==> xfer <= BLOCK - 6
  {
    hide Attempts, Attempt;
    if xfer <= BLOCK - 6 {
      forall image, l: Link, vs | |image| < 0x8000_0000 && l.Valid() && Attempts(xfer, image, 0, 0, l, room, vs)
        ensures var f := Attempt(xfer, image, 0, 0, [], l, room, vs).end;
          f.stage == Finished(0) ==> f.file == image
      {
        assert image[..0] == [];
        OneFrameIsRight(xfer, image, 0, 0, l, room, vs);
      }
    } else {
      var image, l, vs := WrongUpload(xfer, room);
    }
  }

  lemma {:induction false} OneFrameIsRight(
      xfer: nat, image: seq<byte>, off: nat, no: u16, l: Link, room: nat, vs: seq<Serving>)
    requires 0 < xfer <= BLOCK - 6 && off <= |image| < 0x8000_0000 && l.Valid() && room >= BUF_SIZE
    requires Attempts(xfer, image, off, no, l, room, vs)
    ensures var f := Attempt(xfer, image, off, no, image[..off], l, room, vs).end;
      f.file <= image && (f.stage == Finished(0) ==> f.file == image)
    decreases |vs|
  {
    hide UploadServed, UploadedBy, UploadTaking, PossibleUpload, UploadScript;
    var data := Part(xfer, image, off);
    var e := UploadServed(l, xfer, no, data, room, vs[0], []);
    AlwaysRightIff(l, xfer, no, data, room);
    assert UploadedBy(e, xfer).Failed? || UploadedBy(e, xfer) == Uploaded(data);
    assert image[..off] + data == image[..off + |data|];
    if !UploadedBy(e, xfer).Failed? && |data| == xfer {
      OneFrameIsRight(xfer, image, off + xfer, NextBlock(no), e.link, room, vs[1..]);
    }
  }

  // A block of 123 bytes, all 1, whose last byte does not arrive.
  lemma WrongUpload(xfer: nat, room: nat) returns (image: seq<byte>, l: Link, vs: seq<Serving>)
    requires BLOCK - 6 < xfer <= MAX_UPLOAD && room >= BUF_SIZE
    ensures |image| < 0x8000_0000 && l.Valid() && Attempts(xfer, image, 0, 0, l, room, vs)
    ensures var f := Attempt(xfer, image, 0, 0, [], l, room, vs).end; f.stage == Finished(0) && f.file != image
  {
    hide UploadServed, UploadedBy, UploadTaking, PossibleUpload, UploadScript, Part, Attempt, Attempts;
    image := seq(BLOCK - 5, _ => 1);
    l := Link.Link(seq(BUF_SIZE, _ => 0), seq(PACKET, _ => 0), [], []);
    PartAt(xfer, image, 0);
    var v, file := WrongBlock(l, xfer, image, room);
    var e := UploadServed(l, xfer, 0, image, room, v, []);
    vs := [v];
    if xfer == BLOCK - 5 {
      PartAt(xfer, image, |image|);
      var w := LastServing(e.link, xfer, 1, room);
      LastAttempt(xfer, image, file, e.link, room, w);
      vs := [v, w];
      assert vs[1..] == [w];
    }
    FirstAttempt(xfer, image, l, room, vs, file);
  }

  lemma PartAt(xfer: nat, image: seq<byte>, off: nat)
    requires off <= |image| <= xfer && (off == 0 || off == |image|)
    ensures Part(xfer, image, off) == image[off..]
    ensures off == 0 ==> Part(xfer, image, off) == image
  {
  }

  lemma WrongBlock(l: Link, xfer: nat, data: seq<byte>, room: nat) returns (v: Serving, file: seq<byte>)
    requires l.Valid() && |data| == BLOCK - 5 <= xfer <= MAX_UPLOAD && room >= BUF_SIZE
    requires l.buf[BLOCK] != data[BLOCK - 6]
    ensures PossibleUpload(l, xfer, 0, data, room, v) && |file| == |data| && file != data
    ensures UploadedBy(UploadServed(l, xfer, 0, data, room, v, []), xfer) == Uploaded(file)
  {
    hide UploadServed, UploadedBy, UploadTaking, PossibleUpload;
    v := BrokenServing(l, xfer, 0, data, room);
    UploadYields(l, xfer, 0, data, room, v, []);
    file := UploadedBy(UploadServed(l, xfer, 0, data, room, v, []), xfer).data;
    assert file[BLOCK - 6] != data[BLOCK - 6];
  }

  lemma FirstAttempt(xfer: nat, image: seq<byte>, l: Link, room: nat, vs: seq<Serving>, file: seq<byte>)
    requires |image| == |file| == BLOCK - 5 <= xfer <= MAX_UPLOAD && l.Valid() && vs != []
    requires Part(xfer, image, 0) == image && PossibleUpload(l, xfer, 0, image, room, vs[0])
    requires var e := UploadServed(l, xfer, 0, image, room, vs[0], []);
      && UploadedBy(e, xfer) == Uploaded(file)
      && if xfer == |image| then
           && Attempts(xfer, image, xfer, 1, e.link, room, vs[1..])
           && Attempt(xfer, image, xfer, 1, file, e.link, room, vs[1..]).end.stage == Finished(0)
           && Attempt(xfer, image, xfer, 1, file, e.link, room, vs[1..]).end.file == file
         else |vs| == 1
    ensures Attempts(xfer, image, 0, 0, l, room, vs)
    ensures var f := Attempt(xfer, image, 0, 0, [], l, room, vs).end; f.stage == Finished(0) && f.file == file
  {
    hide UploadServed, UploadedBy, PossibleUpload, UploadScript, Part;
    assert [] + file == file;
  }

  lemma LastAttempt(xfer: nat, image: seq<byte>, file: seq<byte>, l: Link, room: nat, w: Serving)
    requires |image| == |file| == xfer == BLOCK - 5 && l.Valid()
    requires Part(xfer, image, xfer) == [] && PossibleUpload(l, xfer, 1, [], room, w)
    requires UploadedBy(UploadServed(l, xfer, 1, [], room, w, []), xfer) == Uploaded([])
    ensures Attempts(xfer, image, xfer, 1, l, room, [w])
    ensures var f := Attempt(xfer, image, xfer, 1, file, l, room, [w]).end; f.stage == Finished(0) && f.file == file
  {
    hide UploadServed, UploadedBy, PossibleUpload, UploadScript, Part;
    assert file + [] == file;
  }

  lemma LastServing(l: Link, xfer: nat, no: u16, room: nat) returns (v: Serving)
    requires l.Valid() && xfer <= MAX_UPLOAD && room >= BUF_SIZE
    ensures PossibleUpload(l, xfer, no, [], room, v)
    ensures UploadedBy(UploadServed(l, xfer, no, [], room, v, []), xfer) == Uploaded([])
  {
    hide UploadServed, UploadedBy, UploadRequest, UploadResponse, PossibleServing, Taking;
    v := CleanServing(UploadRequest(xfer, no), UploadResponse([]), l.packet, room);
    WholeAnswer(l, xfer, no, [], room, v, []);
  }

  // ----- answers that announce too much -----

  // Nothing that the line delivers makes qda_dfu_upload copy from beyond the end of qda_buf.
  ghost predicate StaysInBuffer(l: Link, maxLen: u16, no: u16)
    requires l.Valid()
  {
    forall reply: Script ::
      !UploadedBy(Exchange(WithScript(l, reply), UploadRequest(maxLen, no)), maxLen).Overread?
  }

  /** Exactly so for lengths of at most 8186: the call compares an answer's length with its caller's only. */
  lemma StaysInBufferIff(l: Link, maxLen: u16, no: u16)
    requires l.Valid()
    ensures StaysInBuffer(l, maxLen, no) <==> maxLen <= MAX_UPLOAD
  {
    hide Exchange, UploadRequest, Le16, Le32, Word16, TypeOf;
    if maxLen > MAX_UPLOAD {
      var reply := AnnouncesTooMuch(l, maxLen, no);
      assert UploadedBy(Exchange(WithScript(l, reply), UploadRequest(maxLen, no)), maxLen).Overread?;
    }
  }

  lemma AnnouncesTooMuch(l: Link, maxLen: u16, no: u16) returns (reply: Script)
    requires l.Valid() && maxLen > MAX_UPLOAD
    ensures UploadedBy(Exchange(WithScript(l, reply), UploadRequest(maxLen, no)), maxLen).Overread?
  {
    hide Exchange, UploadRequest, Le16, Le32, Word16, TypeOf, LegScript, Taking, PossibleServing, Total;
    var request, answer := UploadRequest(maxLen, no), Le32(UPLOAD_RESP) + Le16(maxLen);
    var v := CleanServing(request, answer, l.packet, BUF_SIZE);
    var leg := AsLeg(request, answer, l.packet, BUF_SIZE, v);
    reply := LegScript(request, l.packet, BUF_SIZE, leg) + [];
    AnswerLandsInBuffer(l, request, answer, BUF_SIZE, v, []);
    var e := Exchange(WithScript(l, reply), request);
    var b := e.link.buf;
    var taken := Taking(request, answer, l.packet, BUF_SIZE, v);
    assert b[..6] == taken[..6] == answer;
    assert b == Le32(UPLOAD_RESP) + b[4..];
    TypeSurvives(UPLOAD_RESP, b[4..]);
    assert b[4] == Le16(maxLen)[0] && b[5] == Le16(maxLen)[1];
    Word16OfLe16(maxLen);
  }
}
