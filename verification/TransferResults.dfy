/** What the results of the two transfer loops tell their caller. */
module DownloadResult {
  import opened Words
  import opened XmodemProtocol
  import opened StopAndWait
  import opened QdaPackets
  import opened QdaLink
  import opened DfuTransfer
  import opened EndToEnd
  import opened FaultFree

  // A return of the image's length means that the completion request was acknowledged.
  ghost predicate ReturnTells(j: Job, l: Link, room: nat)
    requires l.Valid()
  {
    forall legs | PossibleLegs(j, First(j), l, room, legs) ::
      var h := Session(j, First(j), l, room, legs).host;
      h.Done() && !h.stage.Exited? && h.bytes == |j.image| ==> h.stage.Completed?
  }

  // Hosts from which no return without completion counts all the bytes: the image is empty,
  // or a block still to come is refused.
  predicate Telling(j: Job, h: Host)
    requires j.xfer > 0 && j.Fitting(h)
  {
    if j.image == [] then h.stage.Closing? || h.stage.Manifesting? || h.stage.Completed? || h.stage.Exited?
    else
      && !Sendable(j, h.bytes)
      && (h.stage.Blocks? || h.stage.Polling? || h.stage.Aborted? || h.stage.Exited?)
  }

  lemma TellingAfter(j: Job, h: Host, e: Exchanged)
    requires j.xfer > 0 && j.Fitting(h) && e.link.Valid() && !h.Done() && Telling(j, h)
    requires Refused(j, h) ==> !e.ok
    ensures Telling(j, After(j, h, e))
  {
    hide StatusOf, TypeOf;
  }

  lemma {:induction false} SessionTells(j: Job, h: Host, l: Link, room: nat, legs: seq<Leg>)
    requires l.Valid() && j.xfer > 0 && j.Fitting(h) && PossibleLegs(j, h, l, room, legs) && Telling(j, h)
    ensures Telling(j, Session(j, h, l, room, legs).host)
    decreases |legs|
  {
    hide Call, After, Line, Delivered, LegScript, Request, Before, Settled, Telling;
    if legs != [] && !h.Done() {
      if Refused(j, h) {
        RefusedCall(j, h, l, []);
        TellingAfter(j, h, Call(j, h, WithScript(l, [])));
      } else {
        var e := Call(j, h, Before(j, h, l, room, legs[0]));
        TellingAfter(j, h, e);
        SessionTells(j, After(j, h, e), e.link, room, legs[1..]);
      }
    }
  }

  /**
   dfuload_do_dnload's result tells that a download completed exactly if the image is empty or
   one of its blocks is refused for its length, so that it cannot: a status error after
   the last block leaves the same count. For blocks below 64 KiB that is the first.
   */
  lemma ReturnTellsIff(j: Job, l: Link, room: nat)
    requires l.Valid() && j.xfer > 0 && room >= BUF_SIZE
    ensures ReturnTells(j, l, room) <==> j.image == [] || !Sendable(j, 0)
    ensures j.Chunk(0) < 0x1_0000 ==>
      (ReturnTells(j, l, room) <==> j.image == [] || j.Chunk(0) > MAX_DOWNLOAD)
  {
    hide Session, PossibleLegs, Telling, Sendable;
    if j.image == [] || !Sendable(j, 0) {
      forall legs | PossibleLegs(j, First(j), l, room, legs)
        ensures var h := Session(j, First(j), l, room, legs).host;
          h.Done() && !h.stage.Exited? && h.bytes == |j.image| ==> h.stage.Completed?
      {
        FirstTells(j);
        SessionTells(j, First(j), l, room, legs);
        TellingMeans(j, Session(j, First(j), l, room, legs).host);
      }
    } else {
      var legs := DownloadEnds(j, First(j), 1, l, room);
      assert PossibleLegs(j, First(j), l, room, legs);
    }
    if j.Chunk(0) < 0x1_0000 {
      SendableIff(j, 0);
    }
  }

  lemma FirstTells(j: Job)
    requires j.xfer > 0 && (j.image == [] || !Sendable(j, 0))
    ensures Telling(j, First(j))
  {
  }

  lemma TellingMeans(j: Job, h: Host)
    requires j.xfer > 0 && j.Fitting(h) && Telling(j, h)
    ensures h.Done() && !h.stage.Exited? && h.bytes == |j.image| ==> h.stage.Completed?
  {
  }

  // No block is longer than the one before it.
  lemma {:induction false} SendableIff(j: Job, bytes: nat)
    requires j.xfer > 0 && bytes <= |j.image| && j.Chunk(bytes) < 0x1_0000
    ensures Sendable(j, bytes) <==> j.Chunk(bytes) <= MAX_DOWNLOAD
    decreases |j.image| - bytes
  {
    if bytes < |j.image| {
      SendableIff(j, bytes + j.Chunk(bytes));
    }
  }
}

module UploadResult {
  import opened Words
  import opened XmodemProtocol
  import opened QdaPackets
  import opened QdaLink
  import opened DfuTransfer

  // One of the calls of an upload fails.
  ghost predicate SomeCallFails(xfer: nat, f: Fetch, l: Link)
    requires l.Valid()
    decreases |l.script|, if f.stage.Fetching? then 1 else 0
  {
    f.stage.Fetching?
    && var e := Exchange(l, UploadRequest(xfer % 0x1_0000, f.no));
       var got := UploadedBy(e, xfer % 0x1_0000);
       got.Failed? || SomeCallFails(xfer, FetchAfter(f, xfer, got), e.link)
  }

  lemma {:induction false} UploadReturnsFrom(xfer: nat, f: Fetch, l: Link)
    requires l.Valid() && f.stage.Fetching?
    ensures var end := Upload(xfer, f, l).0;
      end.stage.Finished? ==> end.stage.ret == if SomeCallFails(xfer, f, l) then -1 else 0
    decreases |l.script|
  {
    hide Exchange, UploadRequest, UploadedBy, Upload, SomeCallFails;
    var e := Exchange(l, UploadRequest(xfer % 0x1_0000, f.no));
    var got := UploadedBy(e, xfer % 0x1_0000);
    var f' := FetchAfter(f, xfer, got);
    UploadStep(xfer, f, l);
    if f'.stage.Fetching? {
      UploadReturnsFrom(xfer, f', e.link);
    } else {
      UploadEnd(xfer, f', e.link);
    }
    FailsNowOrLater(xfer, f, l);
  }

  lemma FailsNowOrLater(xfer: nat, f: Fetch, l: Link)
    requires l.Valid() && f.stage.Fetching?
    ensures var e := Exchange(l, UploadRequest(xfer % 0x1_0000, f.no));
      var got := UploadedBy(e, xfer % 0x1_0000);
      var f' := FetchAfter(f, xfer, got);
      SomeCallFails(xfer, f, l) <==> got.Failed? || (f'.stage.Fetching? && SomeCallFails(xfer, f', e.link))
  {
    hide Exchange, UploadRequest, UploadedBy;
  }

  /**
   dfuload_do_upload's result, where it returns one: -1 if a call failed and 0 if none did;
   so it is the number of bytes written only for an upload of nothing.
   */
  lemma UploadReturns(xfer: nat, l: Link)
    requires l.Valid()
    ensures var start := Fetch(Fetching, 0, []);
      var end := Upload(xfer, start, l).0;
      end.stage.Finished? ==>
        && end.stage.ret == (if SomeCallFails(xfer, start, l) then -1 else 0)
        && (end.stage.ret == |end.file| <==> end.file == [] && !SomeCallFails(xfer, start, l))
  {
    hide Upload, SomeCallFails;
    UploadReturnsFrom(xfer, Fetch(Fetching, 0, []), l);
  }

  /**
   One call of an upload and where it leads: what it yields is appended, and only a block of
   the full transfer size, below 2 GiB in all, leads to the next call.
   */
  lemma CallLeads(xfer: nat, f: Fetch, l: Link)
    requires l.Valid() && f.stage.Fetching?
    ensures var e := Exchange(l, UploadRequest(xfer % 65536, f.no));
      var end := Upload(xfer, f, l);
      match UploadedBy(e, xfer % 65536)
      case Failed => end.0.stage == Finished(-1) && end.0.file == f.file && end.1 == e.link
      case Overread => end.0.stage == Beyond && end.0.file == f.file && end.1 == e.link
      case Uploaded(data) =>
        if |f.file| + |data| < 0x8000_0000 && |data| >= xfer then
          end == Upload(xfer, Fetch(Fetching, (f.no as int + 1) % 65536, f.file + data), e.link)
        else
          && end.0.stage == (if |f.file| + |data| < 0x8000_0000 then Finished(0) else TooMany)
          && end.0.file == f.file + data && end.1 == e.link
  {
    hide Exchange, UploadRequest, UploadedBy, Upload;
    var e := Exchange(l, UploadRequest(xfer % 65536, f.no));
    UploadStep(xfer, f, l);
    var f' := FetchAfter(f, xfer, UploadedBy(e, xfer % 65536));
    if !f'.stage.Fetching? {
      UploadEnd(xfer, f', e.link);
    }
  }

  /**
   With a transfer size of 65536 or more the device is asked for the size modulo 65536, so
   every block is short: an upload is one call, however long the image.
   */
  lemma HugeTransferIsOneCall(xfer: nat, l: Link)
    requires l.Valid() && xfer >= 0x1_0000
    ensures var start := Fetch(Fetching, 0, []);
      var end := Upload(xfer, start, l);
      && end.1 == Exchange(l, UploadRequest(xfer % 0x1_0000, 0)).link && |end.0.file| < 0x1_0000
      && (end.0.stage == Finished(0) || end.0.stage == Finished(-1) || end.0.stage.Beyond?)
  {
    hide Exchange, UploadRequest, UploadedBy, Upload;
    CallLeads(xfer, Fetch(Fetching, 0, []), l);
    UploadYieldsAtMost(Exchange(l, UploadRequest(xfer % 0x1_0000, 0)), xfer % 0x1_0000);
  }

  lemma {:induction false} UploadBoundsFrom(xfer: nat, f: Fetch, l: Link)
    requires l.Valid() && f.stage.Fetching? && |f.file| < 0x8000_0000
    ensures var end := Upload(xfer, f, l).0;
      && f.file <= end.file && |end.file| < 0x8000_0000 + BUF_SIZE
      && (end.stage.TooMany? <==> |end.file| >= 0x8000_0000) && !end.stage.Fetching?
    decreases |l.script|
  {
    hide Exchange, UploadRequest, UploadedBy, Upload;
    var e := Exchange(l, UploadRequest(xfer % 0x1_0000, f.no));
    var f' := FetchAfter(f, xfer, UploadedBy(e, xfer % 0x1_0000));
    UploadStep(xfer, f, l);
    UploadYieldsAtMost(e, xfer % 0x1_0000);
    if f'.stage.Fetching? {
      UploadBoundsFrom(xfer, f', e.link);
    } else {
      UploadEnd(xfer, f', e.link);
    }
  }

  lemma UploadYieldsAtMost(e: Exchanged, maxLen: u16)
    requires e.link.Valid()
    ensures var got := UploadedBy(e, maxLen); got.Uploaded? ==> |got.data| <= maxLen && |got.data| <= MAX_UPLOAD
  {
  }

  /**
   Every upload ends, and it leaves through errx for its size exactly if it has written 2 GiB
   or more, which is by less than a block.
   */
  lemma UploadBounds(xfer: nat, l: Link)
    requires l.Valid()
    ensures var end := Upload(xfer, Fetch(Fetching, 0, []), l).0;
      && !end.stage.Fetching? && (end.stage.TooMany? <==> |end.file| >= 0x8000_0000)
      && |end.file| < 0x8000_0000 + BUF_SIZE
  {
    hide Upload;
    UploadBoundsFrom(xfer, Fetch(Fetching, 0, []), l);
  }
}
