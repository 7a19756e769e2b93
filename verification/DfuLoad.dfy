/**
 The download and upload loops of src/dfu_load.c over QDA exchanges: the block
 transfers of sections 6.1 and 6.2 of USB DFU 1.1, as machines that make one call
 after the other.
 */
module DfuTransfer {
  import opened Words
  import opened QdaPackets
  import opened QdaLink

  const STATUS_OK: byte := 0
  const DNLOAD_IDLE: byte := 5
  const MANIFEST_SYNC: byte := 6
  const MANIFEST: byte := 7
  const DFU_ERROR: byte := 10

  // ----- download -----

  // Where the loop is, or how it was left: by a return after an error, by a return after
  // the completion request, or through errx.
  datatype Stage = Blocks | Polling | Closing | Manifesting | Aborted | Completed | Exited

  // `bytes` is bytes_sent, `no` the transaction number of the next block.
  datatype Host = Host(stage: Stage, bytes: nat, no: u16)
  {
    predicate Done() {
      stage.Aborted? || stage.Completed? || stage.Exited?
    }
  }

  datatype Job = Job(image: seq<byte>, xfer: nat)
  {
    function Chunk(bytes: nat): nat
      requires bytes <= |image|
    {
      if |image| - bytes < xfer then |image| - bytes else xfer
    }

    // The block as it is passed on: its length goes through a uint16_t.
    function Passed(bytes: nat): (data: seq<byte>)
      requires bytes <= |image|
      ensures |data| < 0x1_0000
    {
      image[bytes..bytes + Chunk(bytes) % 0x1_0000]
    }

    function Resume(bytes: nat, no: u16): Host {
      Host(if bytes < |image| then Blocks else Closing, bytes, no)
    }

    ghost predicate Fitting(h: Host) {
      h.bytes <= |image| && (h.stage.Blocks? ==> h.bytes < |image|) && (h.stage.Closing? ==> h.bytes == |image|)
    }
  }

  function NextBlock(no: u16): u16 {
    (no as int + 1) % 0x1_0000
  }

  // The call made at a stage, and where its answer leads.
  function Call(j: Job, h: Host, l: Link): (e: Exchanged)
    requires l.Valid() && j.Fitting(h)
    ensures e.link.Valid() && |e.link.script| <= |l.script|
    ensures e.ok ==> |e.link.script| < |l.script|
  {
    match h.stage
    case Blocks => DownloadCall(l, h.no, j.Passed(h.bytes))
    case Closing => DownloadCall(l, h.no, [])
    case _ => Exchange(l, StatusRequest())
  }

  function After(j: Job, h: Host, e: Exchanged): (h': Host)
    requires e.link.Valid() && j.Fitting(h)
    ensures j.Fitting(h') && (!e.ok && !h.Done() ==> h'.Done())
  {
    match h.stage
    case Blocks =>
      if Acknowledged(e) then Host(Polling, h.bytes + j.Chunk(h.bytes), NextBlock(h.no)) else h.(stage := Aborted)
    case Polling =>
      (match StatusOf(e)
       case Unread => h.(stage := Exited)
       case DfuStatus(state, status, _) =>
         if state != DNLOAD_IDLE && state != DFU_ERROR then h
         else if status != STATUS_OK then h.(stage := Aborted)
         else j.Resume(h.bytes, h.no))
    case Closing => h.(stage := if Acknowledged(e) then Manifesting else Exited)
    case Manifesting =>
      (match StatusOf(e)
       case Unread => h.(stage := Completed)
       case DfuStatus(state, _, _) =>
         if state == MANIFEST_SYNC || state == MANIFEST then h else h.(stage := Completed))
    case _ => h
  }

  /** dfuload_do_dnload from a stage on. */
  function Download(j: Job, h: Host, l: Link): (Host, Link)
    requires l.Valid() && j.Fitting(h)
    decreases |l.script|, if h.Done() then 0 else 1
  {
    if h.Done() then (h, l)
    else
      var e := Call(j, h, l);
      Download(j, After(j, h, e), e.link)
  }

  lemma DownloadStep(j: Job, h: Host, l: Link)
    requires l.Valid() && j.Fitting(h) && !h.Done()
    ensures var e := Call(j, h, l);
      Download(j, h, l) == Download(j, After(j, h, e), e.link)
  {
  }

  lemma DownloadEnd(j: Job, h: Host, l: Link)
    requires l.Valid() && j.Fitting(h) && h.Done()
    ensures Download(j, h, l) == (h, l)
  {
  }

  // ----- upload -----

  // Going on, left by a return or through errx, or reading beyond the end of qda_buf.
  datatype Fetching = Fetching | Finished(ret: int) | TooMany | Beyond

  datatype Fetch = Fetch(stage: Fetching, no: u16, file: seq<byte>)

  function FetchAfter(f: Fetch, xfer: nat, got: Uploaded): Fetch {
    match got
    case Failed => f.(stage := Finished(-1))
    case Overread => f.(stage := Beyond)
    case Uploaded(data) =>
      var file := f.file + data;
      if |file| >= 0x8000_0000 then Fetch(TooMany, NextBlock(f.no), file)
      else if |data| < xfer then Fetch(Finished(0), NextBlock(f.no), file)
      else Fetch(Fetching, NextBlock(f.no), file)
  }

  /** The loop of dfuload_do_upload from a state on; file is what has been written. */
  function Upload(xfer: nat, f: Fetch, l: Link): (Fetch, Link)
    requires l.Valid()
    decreases |l.script|, if f.stage.Fetching? then 1 else 0
  {
    if !f.stage.Fetching? then (f, l)
    else
      var e := Exchange(l, UploadRequest(xfer % 0x1_0000, f.no));
      Upload(xfer, FetchAfter(f, xfer, UploadedBy(e, xfer % 0x1_0000)), e.link)
  }

  lemma UploadStep(xfer: nat, f: Fetch, l: Link)
    requires l.Valid() && f.stage.Fetching?
    ensures var e := Exchange(l, UploadRequest(xfer % 0x1_0000, f.no));
      Upload(xfer, f, l) == Upload(xfer, FetchAfter(f, xfer, UploadedBy(e, xfer % 0x1_0000)), e.link)
    ensures var e := Exchange(l, UploadRequest(xfer % 0x1_0000, f.no));
      !UploadedBy(e, xfer % 0x1_0000).Failed? ==> |e.link.script| < |l.script|
  {
    hide Exchange, UploadRequest;
  }

  lemma UploadEnd(xfer: nat, f: Fetch, l: Link)
    requires l.Valid() && !f.stage.Fetching?
    ensures Upload(xfer, f, l) == (f, l)
  {
  }
}

module DfuLoad {
  import opened Words
  import opened QdaPackets
  import opened QdaLink
  import T = DfuTransfer
  import opened DfuTransfer
  import DfuFiles
  import Qda

  /**
   dfuload_do_dnload on the firmware up to its suffix. It returns bytes_sent after success
   and failure alike; `exited` says that it left through errx instead.
   */
  method DoDnload(q: Qda.Session, xferSize: nat, firmware: seq<byte>, suffix: nat)
      returns (exited: bool, bytesSent: nat)
    requires q.Valid() && suffix <= |firmware|
    modifies q.buf, q.port, q.port.pktBuf
    ensures var j := Job(firmware[..|firmware| - suffix], xferSize);
      var (h, l) := T.Download(j, j.Resume(0, 0), old(q.Link()));
      bytesSent == h.bytes && (exited <==> h.stage.Exited?) && q.Link() == l
  {
    hide Exchange, DownloadCall, T.Download;
    var expectedSize := |firmware| - suffix;
    ghost var j := Job(firmware[..expectedSize], xferSize);
    ghost var l0 := q.Link();
    ghost var h := j.Resume(0, 0);
    bytesSent := 0;
    var transaction: u16 := 0;
    exited := false;
    while bytesSent < expectedSize
      invariant bytesSent <= expectedSize && h == j.Resume(bytesSent, transaction)
      invariant T.Download(j, h, q.Link()) == T.Download(j, j.Resume(0, 0), l0)
      decreases |q.Link().script|, expectedSize - bytesSent
    {
      var bytesLeft := expectedSize - bytesSent;
      var chunkSize := if bytesLeft < xferSize then bytesLeft else xferSize;
      var len := chunkSize % 0x1_0000;
      assert firmware[bytesSent..bytesSent + len] == j.Passed(bytesSent);
      DownloadStep(j, h, q.Link());
      ghost var e := Call(j, h, q.Link());
      h := After(j, h, e);
      var ret := q.Download(transaction, firmware[bytesSent..bytesSent + len]);
      if ret < 0 {
        DownloadEnd(j, h, q.Link());
        return;
      }
      transaction := NextBlock(transaction);
      bytesSent := bytesSent + chunkSize;
      var dst := PollDownload(q, j, h);
      match dst {
        case Unread =>
          h := h.(stage := Exited);
          DownloadEnd(j, h, q.Link());
          return true, bytesSent;
        case DfuStatus(_, status, _) =>
          if status != STATUS_OK {
            h := h.(stage := Aborted);
            DownloadEnd(j, h, q.Link());
            return;
          }
          h := j.Resume(bytesSent, transaction);
      }
    }
    DownloadStep(j, h, q.Link());
    h := After(j, h, Call(j, h, q.Link()));
    var ret := q.Download(transaction, []);
    if ret < 0 {
      DownloadEnd(j, h, q.Link());
      return true, bytesSent;
    }
    AwaitManifest(q, j, h);
    DownloadEnd(j, h.(stage := Completed), q.Link());
  }

  // The loop that waits while the device executes flashing.
  method PollDownload(q: Qda.Session, ghost j: Job, ghost h: Host) returns (dst: DfuStatus)
    requires q.Valid() && j.Fitting(h) && h.stage.Polling?
    modifies q.buf, q.port, q.port.pktBuf
    ensures |q.Link().script| <= old(|q.Link().script|)
    ensures T.Download(j, h, old(q.Link())) == T.Download(j,
      match dst
      case Unread => h.(stage := Exited)
      case DfuStatus(_, status, _) => if status != STATUS_OK then h.(stage := Aborted) else j.Resume(h.bytes, h.no),
      q.Link())
  {
    hide Exchange, T.Download;
    ghost var l0 := q.Link();
    while true
      invariant T.Download(j, h, q.Link()) == T.Download(j, h, l0)
      invariant |q.Link().script| <= |l0.script|
      decreases |q.Link().script|
    {
      DownloadStep(j, h, q.Link());
      dst := q.GetStatus();
      match dst {
        case Unread => return;
        case DfuStatus(state, _, _) =>
          if state == DNLOAD_IDLE || state == DFU_ERROR {
            return;
          }
      }
    }
  }

  // The loop after the completion request.
  method AwaitManifest(q: Qda.Session, ghost j: Job, ghost h: Host)
    requires q.Valid() && j.Fitting(h) && h.stage.Manifesting?
    modifies q.buf, q.port, q.port.pktBuf
    ensures T.Download(j, h, old(q.Link())) == T.Download(j, h.(stage := Completed), q.Link())
  {
    hide Exchange, T.Download;
    ghost var l0 := q.Link();
    while true
      invariant T.Download(j, h, q.Link()) == T.Download(j, h, l0)
      decreases |q.Link().script|
    {
      DownloadStep(j, h, q.Link());
      var dst := q.GetStatus();
      match dst {
        case Unread => return;
        case DfuStatus(state, _, _) =>
          if state != MANIFEST_SYNC && state != MANIFEST {
            return;
          }
      }
    }
  }

  // How an upload is left.
  datatype Ending = Returned(ret: int) | LeftByErrx | ReadBeyond

  /**
   dfuload_do_upload into the open file. What it returns after any upload that reaches a
   short block is 0, not the number of bytes.
   */
  method DoUpload(q: Qda.Session, xferSize: nat, expectedSize: nat, fd: DfuFiles.Output)
    returns (ending: Ending, totalBytes: nat)
    requires q.Valid() && fd.contents == []
    modifies q.buf, q.port, q.port.pktBuf, fd
    ensures var (f, l) := T.Upload(xferSize, Fetch(Fetching, 0, []), old(q.Link()));
      && fd.contents == f.file && totalBytes == |f.file| && q.Link() == l
      && ending == match f.stage
         case Finished(ret) => if expectedSize != 0 && totalBytes != expectedSize then LeftByErrx else Returned(ret)
         case Beyond => ReadBeyond
         case _ => LeftByErrx
  {
    hide Exchange, T.Upload, UploadedBy;
    ghost var l0 := q.Link();
    ghost var f := Fetch(Fetching, 0, []);
    ghost var f0 := f;
    totalBytes := 0;
    var ret := 0;
    var transaction: u16 := 0;
    var more := true;
    while more
      invariant more ==> f == Fetch(Fetching, transaction, fd.contents)
      invariant !more ==> f.stage == Finished(ret) && f.file == fd.contents
      invariant totalBytes == |fd.contents|
      invariant T.Upload(xferSize, f, q.Link()) == T.Upload(xferSize, f0, l0)
      decreases |q.Link().script|, more
    {
      UploadStep(xferSize, f, q.Link());
      ghost var e := Exchange(q.Link(), UploadRequest(xferSize % 0x1_0000, transaction));
      f := FetchAfter(f, xferSize, UploadedBy(e, xferSize % 0x1_0000));
      var got := q.Upload(xferSize % 0x1_0000, transaction);
      transaction := NextBlock(transaction);
      match got {
        case Failed =>
          ret := -1;
          more := false;
        case Overread =>
          UploadEnd(xferSize, f, q.Link());
          return ReadBeyond, totalBytes;
        case Uploaded(data) =>
          var _ := DfuFiles.WriteCrc(fd, 0, data);
          totalBytes := totalBytes + |data|;
          if totalBytes >= 0x8000_0000 {
            UploadEnd(xferSize, f, q.Link());
            return LeftByErrx, totalBytes;
          }
          if |data| < xferSize {
            ret := 0;
            more := false;
          }
      }
    }
    UploadEnd(xferSize, f, q.Link());
    ending := if expectedSize != 0 && totalBytes != expectedSize then LeftByErrx else Returned(ret);
  }
}
