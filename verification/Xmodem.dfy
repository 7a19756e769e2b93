/** The functions of src/qda/xmodem.c on their static packet buffer, proved against XmodemProtocol. */
module Xmodem {
  import opened Gf2
  import opened Words
  import opened XmodemProtocol
  import Crc16

  // The loops of crc_xmodem.
  method CrcXmodem(pktBuf: array<byte>) returns (crc: u16)
    requires pktBuf.Length == PACKET
    ensures crc == Crc16.Crc(Payload(pktBuf[..]))
  {
    hide Crc16.ShiftIn, Crc16.ShiftZero, HighBits;
    var payload := pktBuf[3..3 + BLOCK];
    assert payload == Payload(pktBuf[..]);
    var c: u32 := 0;
    for i := 0 to BLOCK
      invariant Crc16.Absorb(0, Crc16.DataBits(payload)) == Crc16.Absorb(c, Crc16.DataBits(payload[i..]))
    {
      assert payload[i..][0] == payload[i] && payload[i..][1..] == payload[i + 1..];
      c := AbsorbByte(c, pktBuf[3 + i], Crc16.DataBits(payload[i + 1..]));
    }
    assert payload[BLOCK..] == [];
    ghost var absorbed := c;
    for i := 0 to 16
      invariant Crc16.Flushed(absorbed, 16) == Crc16.Flushed(c, 16 - i)
    {
      c := Crc16.ShiftZero(c);
    }
    return c % 0x1_0000;
  }

  // The inner loop: eight bits, highest first.
  method AbsorbByte(crc: u32, byt: byte, ghost later: Bits) returns (c: u32)
    ensures Crc16.Absorb(crc, HighBits(byt, 8) + later) == Crc16.Absorb(c, later)
  {
    hide Crc16.ShiftIn, HighBits;
    c := crc;
    var data := byt;
    assert HighBits(byt, 8)[..8] == HighBits(byt, 8);
    for b := 0 to 8
      invariant Crc16.Absorb(crc, HighBits(byt, 8) + later) == Crc16.Absorb(c, HighBits(data, 8)[..8 - b] + later)
    {
      ghost var bits := HighBits(data, 8)[..8 - b] + later;
      NextBit(data);
      var next: byte := 2 * data as int % 0x100;
      assert bits[0] == (data >= 0x80);
      assert bits[1..] == HighBits(next, 8)[..7 - b] + later;
      c := Crc16.ShiftIn(c, data >= 0x80);
      data := next;
    }
    assert HighBits(data, 8)[..0] + later == later;
  }

  lemma NextBit(data: byte)
    ensures HighBits(data, 8)[0] == (data >= 0x80)
    ensures HighBits(data, 8)[1..] == HighBits(2 * data as nat % 0x100, 8)[..7]
  {
    hide HighBits, Pow2;
    Pow2Values();
    var next := 2 * data as nat % 0x100;
    HighBitsTop(data, 8);
    HighBitsSplit(next, 8);
    HighBitsMod(data, 7, 7);
    assert next / 2 == data % 0x80;
  }

  class Port {
    const pktBuf: array<byte>
    var input: Script        // what the line has yet to deliver
    var output: seq<byte>    // what has been put on it
    ghost var asked: nat     // how often a byte has been waited for

    ghost predicate Valid() {
      pktBuf.Length == PACKET
    }

    constructor (script: Script)
      ensures Valid() && fresh(pktBuf) && input == script && output == [] && asked == 0
    {
      pktBuf := new byte[PACKET](_ => 0);
      input := script;
      output := [];
      asked := 0;
    }

    // xmodem_getc: leaves ch alone on a timeout.
    method Getc(ch: byte) returns (ok: bool, c: byte)
      modifies this`input, this`asked
      ensures asked == old(asked) + 1 && input == Tail(old(input))
      ensures ok <==> old(input) != [] && old(input)[0].Byte?
      ensures c == if ok then old(input)[0].b else ch
    {
      asked := asked + 1;
      if input == [] {
        return false, ch;
      }
      var event := input[0];
      input := input[1..];
      match event
      case Timeout => return false, ch;
      case Byte(b) => return true, b;
    }

    method Putc(ch: byte)
      modifies this`output
      ensures output == old(output) + [ch]
    {
      output := output + [ch];
    }

    method SendPkt(data: seq<byte>, no: byte)
      requires Valid() && |data| <= BLOCK
      modifies pktBuf, this`output
      ensures pktBuf[..] == Framed(old(pktBuf[..]), data, no)
      ensures output == old(output) + pktBuf[..]
    {
      hide Crc16.Crc;
      ghost var before := pktBuf[..];
      pktBuf[0] := SOH;
      forall i | 0 <= i < |data| {
        pktBuf[3 + i] := data[i];
      }
      assert Payload(pktBuf[..]) == data + Payload(before)[|data|..];
      var crc := CrcXmodem(pktBuf);
      pktBuf[131] := crc / 0x100;
      pktBuf[132] := crc % 0x100;
      pktBuf[1] := no;
      pktBuf[2] := 0xFF - no as int;
      assert pktBuf[..] == Framed(before, data, no);
      ghost var o := output;
      for i := 0 to PACKET
        invariant output == o + pktBuf[..i]
        invariant pktBuf[..] == Framed(before, data, no)
      {
        Putc(pktBuf[i]);
      }
      assert pktBuf[..PACKET] == pktBuf[..];
    }

    // What is left of the run of the sender `s` from script `i` on, after output `o` and
    // `n` reads, is what is left of the run of `s'` now.
    ghost predicate Continues(s: Sender, i: Script, o: seq<byte>, n: nat, s': Sender)
      requires s.left < MAX_RETRANSMIT && s'.left < MAX_RETRANSMIT
      reads this
    {
      var run, now := Transmit(s, i), Transmit(s', input);
      run.final == now.final && run.rest == now.rest && o + run.sent == output + now.sent
        && n + run.asked == asked + now.asked
    }

    method SendPktWithRetry(data: seq<byte>, no: byte, ghost todo: seq<byte>) returns (ok: bool)
      requires Valid() && todo != [] && data == todo[..ChunkLength(todo)]
      modifies this, pktBuf
      ensures Continues(Begin(todo, no, old(pktBuf[..])), old(input), old(output), old(asked),
        if ok then Begin(todo[ChunkLength(todo)..], NextNo(no), pktBuf[..])
        else Sender(GivenUp, 0, no, todo, pktBuf[..]))
    {
      hide Framed, Transmit;
      var retransmit := MAX_RETRANSMIT;
      ghost var s := Begin(todo, no, pktBuf[..]);
      ghost var s0 := s;
      while retransmit > 0
        invariant retransmit <= MAX_RETRANSMIT
        invariant s == if retransmit > 0 then Sender(Sending, retransmit - 1, no, todo, Framed(pktBuf[..], data, no))
                       else Sender(GivenUp, 0, no, todo, pktBuf[..])
        invariant Continues(s0, old(input), old(output), old(asked), s)
      {
        retransmit := retransmit - 1;
        TransmitStep(s, input);
        FramedTwice(pktBuf[..], data, no);
        SendPkt(data, no);
        s := React(s, Response(input));
        var _, rsp := Getc(ERR);
        if rsp == ACK {
          return true;
        }
      }
      return false;
    }

    method SendByteWithRetry(cmd: byte, ghost no: byte) returns (ok: bool)
      requires Valid() && cmd == EOT
      modifies this`input, this`output, this`asked
      ensures Continues(Begin([], no, pktBuf[..]), old(input), old(output), old(asked),
        Sender(if ok then Sent((no as int - 1) * BLOCK) else GivenUp, 0, no, [], pktBuf[..]))
    {
      hide Transmit;
      var retransmit := MAX_RETRANSMIT;
      ghost var s := Begin([], no, pktBuf[..]);
      ghost var s0 := s;
      while retransmit > 0
        invariant retransmit <= MAX_RETRANSMIT
        invariant s == if retransmit > 0 then Sender(Ending, retransmit - 1, no, [], pktBuf[..])
                       else Sender(GivenUp, 0, no, [], pktBuf[..])
        invariant Continues(s0, old(input), old(output), old(asked), s)
      {
        retransmit := retransmit - 1;
        TransmitStep(s, input);
        Putc(cmd);
        s := React(s, Response(input));
        var _, rsp := Getc(ERR);
        if rsp == ACK {
          return true;
        }
      }
      return false;
    }

    /** xmodem_transmit_package runs the sender machine to its end. */
    method TransmitPackage(data: seq<byte>) returns (ret: int)
      requires Valid()
      modifies this, pktBuf
      ensures var run := Transmit(SenderStart(data, old(pktBuf[..])), old(input));
        && ret == (if run.final.phase.Sent? then run.final.phase.ret else -1)
        && output == old(output) + run.sent && input == run.rest && asked == old(asked) + run.asked
        && pktBuf[..] == run.final.packet
    {
      hide Framed, Transmit;
      ghost var s0 := SenderStart(data, pktBuf[..]);
      ghost var s := s0;
      var retransmit := MAX_RETRANSMIT;
      var started := false;
      while retransmit > 0 && !started
        invariant retransmit <= MAX_RETRANSMIT
        invariant pktBuf[..] == old(pktBuf[..])
        invariant s == if started then Begin(data, 1, pktBuf[..])
                       else if retransmit > 0 then Sender(Waiting, retransmit - 1, 1, data, pktBuf[..])
                       else Sender(GivenUp, 0, 1, data, pktBuf[..])
        invariant Continues(s0, old(input), old(output), old(asked), s)
      {
        retransmit := retransmit - 1;
        TransmitStep(s, input);
        s := React(s, Response(input));
        var _, rsp := Getc(ERR);
        started := rsp == START;
      }
      if !started {
        TransmitDone(s, input);
        return -1;
      }
      var pktNo: byte := 1;
      var off := 0;
      while off < |data|
        invariant 0 <= off <= |data|
        invariant Continues(s0, old(input), old(output), old(asked), Begin(data[off..], pktNo, pktBuf[..]))
      {
        ghost var todo := data[off..];
        var mlen := if |data| - off >= BLOCK then BLOCK else |data| - off;
        assert data[off..off + mlen] == todo[..ChunkLength(todo)] && todo[ChunkLength(todo)..] == data[off + mlen..];
        var ok := SendPktWithRetry(data[off..off + mlen], pktNo, todo);
        if !ok {
          TransmitDone(Sender(GivenUp, 0, pktNo, todo, pktBuf[..]), input);
          return -1;
        }
        off := off + mlen;
        pktNo := NextNo(pktNo);
      }
      assert data[off..] == [];
      var ok := SendByteWithRetry(EOT, pktNo);
      TransmitDone(Sender(if ok then Sent((pktNo as int - 1) * BLOCK) else GivenUp, 0, pktNo, [], pktBuf[..]), input);
      if !ok {
        return -1;
      }
      return (pktNo as int - 1) * BLOCK;
    }

    // The loop that lets a bad frame pass by.
    method DrainLine(ch: byte)
      modifies this`input, this`asked
      ensures input == Drain(old(input))
    {
      var more, cmd := true, ch;
      while more
        invariant if more then Drain(input) == Drain(old(input)) else input == Drain(old(input))
        decreases |input|, more
      {
        more, cmd := Getc(cmd);
      }
    }

    // The loop that reads the rest of a packet after SOH.
    method FillPacket() returns (complete: bool)
      requires Valid()
      modifies this`input, this`asked, pktBuf
      ensures Fill(old(pktBuf[..]), 1, old(input)) == Filling(pktBuf[..], complete, input)
    {
      var pos := 1;
      while pos < PACKET
        invariant 1 <= pos <= PACKET
        invariant Fill(pktBuf[..], pos, input) == Fill(old(pktBuf[..]), 1, old(input))
      {
        ghost var before := pktBuf[..];
        var got, ch := Getc(pktBuf[pos]);
        pktBuf[pos] := ch;
        assert pktBuf[..] == before[pos := ch];
        if !got {
          assert before[pos := ch] == before;
          return false;
        }
        pos := pos + 1;
      }
      return true;
    }

    /**
     xmodem_read_pkt, with the payload going to buf from off on, where len bytes are free.
     */
    method ReadPacket(exp: byte, buf: array<byte>, off: nat, len: nat) returns (status: Status)
      requires Valid() && buf != pktBuf && off + len <= buf.Length
      modifies this`input, this`asked, pktBuf, buf
      ensures ReadPkt(old(pktBuf[..]), exp, len, old(input)) == Reading(status, pktBuf[..], input)
      ensures if status.Received?
        then len >= BLOCK && buf[..] == old(buf[..off]) + Payload(pktBuf[..]) + old(buf[off + BLOCK..])
        else buf[..] == old(buf[..])
    {
      hide Crc16.Checks, Crc16.Crc, Crc16.Word, Fill, Drain;
      var ok, cmd := Getc(ERR);
      if !ok {
        return Bad;
      }
      if cmd == EOT {
        return End;
      }
      if cmd != SOH {
        DrainLine(cmd);
        return Bad;
      }
      ok := FillPacket();
      if !ok {
        return Bad;
      }
      var crcComp := CrcXmodem(pktBuf);
      var crcRecv := Crc16.Word(pktBuf[131], pktBuf[132]);
      CheckField(pktBuf[..]);
      if pktBuf[1] as int != 0xFF - pktBuf[2] as int || crcRecv != crcComp {
        return Bad;
      }
      if pktBuf[1] as int == exp as int - 1 {
        return Duplicate;
      }
      if pktBuf[1] != exp {
        return Cancel;
      }
      if len < BLOCK {
        return Cancel;
      }
      CopyPayload(buf, off);
      return Received;
    }

    method CopyPayload(buf: array<byte>, off: nat)
      requires Valid() && buf != pktBuf && off + BLOCK <= buf.Length
      modifies buf
      ensures buf[..] == old(buf[..off]) + Payload(pktBuf[..]) + old(buf[off + BLOCK..])
    {
      forall i | 0 <= i < BLOCK {
        buf[off + i] := pktBuf[3 + i];
      }
    }

    // What is left of the run of the receiver `r` from script `i` on, after output `o`, is
    // what is left of the run of `r'` now.
    ghost predicate Remains(r: Receiver, i: Script, o: seq<byte>, r': Receiver)
      reads this
    {
      var run, now := Receive(r, i), Receive(r', input);
      run.final == now.final && run.rest == now.rest && o + run.sent == output + now.sent
    }

    /**
     xmodem_receive_package runs the receiver machine to its end. Nothing outside the
     bytes received is written, and none of those lies outside the bufLen bytes.
     */
    method ReceivePackage(buf: array<byte>, bufLen: nat) returns (ret: int)
      requires Valid() && buf != pktBuf && bufLen <= buf.Length
      modifies this, pktBuf, buf
      ensures var run := Receive(ReceiverStart(bufLen, old(pktBuf[..])), old(input));
        && ret == run.final.ret && output == old(output) + run.sent && input == run.rest
        && pktBuf[..] == run.final.packet
        && |run.final.data| <= bufLen
        && buf[..] == run.final.data + old(buf[|run.final.data|..])
    {
      hide ReadPkt, Receive;
      var expSeqNo: byte := 1;
      var cmd := START;
      var nak := START;
      var errCnt := 0;
      var dataCnt := 0;
      var room := bufLen;
      ret := -1;
      ghost var r0 := ReceiverStart(bufLen, pktBuf[..]);
      ghost var r := r0;
      var exit := false;
      while errCnt < MAX_RX_ERRORS && !exit
        invariant r.running <==> errCnt < MAX_RX_ERRORS && !exit
        invariant r == Receiver(r.running, ret, cmd, nak, expSeqNo, errCnt, room, r.data, pktBuf[..])
        invariant !exit ==> ret == -1
        invariant |r.data| == dataCnt && dataCnt + room == bufLen
        invariant buf[..] == r.data + old(buf[..])[dataCnt..]
        invariant Remains(r0, old(input), old(output), r)
        decreases |input|, MAX_RX_ERRORS - errCnt, !exit
      {
        ReceiveStep(r, input);
        ghost var script := input;
        Putc(cmd);
        var status := ReadPacket(expSeqNo, buf, dataCnt, room);
        match status {
          case Received =>
            nak := NAK;
            dataCnt := dataCnt + BLOCK;
            room := room - BLOCK;
            expSeqNo := NextNo(expSeqNo);
            errCnt := 0;
            cmd := ACK;
          case Duplicate =>
            cmd := ACK;
          case End =>
            cmd := ACK;
            ret := dataCnt;
            exit := true;
          case Cancel =>
            cmd := CAN;
            exit := true;
          case Bad =>
            errCnt := errCnt + 1;
            cmd := nak;
        }
        r := ReceiverStep(r, script).0;
      }
      ReceiveDone(r, input);
      Putc(cmd);
    }
  }

  lemma CheckField(p: Packet)
    ensures Crc16.Checks(Checked(p)) <==> Crc16.Word(p[131], p[132]) == Crc16.Crc(Payload(p))
  {
    hide Crc16.Crc;
    assert Checked(p)[..BLOCK] == Payload(p);
  }

  lemma ReceiveStep(r: Receiver, i: Script)
    requires r.running
    ensures var (r', rest) := ReceiverStep(r, i);
      var run, next := Receive(r, i), Receive(r', rest);
      run.final == next.final && run.rest == next.rest && run.sent == [r.cmd] + next.sent
    ensures var read := ReadPkt(r.packet, r.exp, r.room, i);
      if i == [] then read.rest == [] && read.status.Bad? else |read.rest| < |i|
  {
    ReadPktShrinks(r.packet, r.exp, r.room, i);
  }

  lemma ReceiveDone(r: Receiver, i: Script)
    requires !r.running
    ensures Receive(r, i) == ReceiverRun(r, [r.cmd], i)
  {
  }

  lemma FramedTwice(p: Packet, chunk: seq<byte>, no: byte)
    requires |chunk| <= BLOCK
    ensures Framed(Framed(p, chunk, no), chunk, no) == Framed(p, chunk, no)
  {
    var q := Framed(p, chunk, no);
    assert Payload(q) == chunk + Payload(p)[|chunk|..];
    assert chunk + Payload(q)[|chunk|..] == Payload(q);
  }

  lemma TransmitStep(s: Sender, i: Script)
    requires s.left < MAX_RETRANSMIT && !s.Done()
    ensures var s' := React(s, Response(i));
      && s'.left < MAX_RETRANSMIT
      && var run, next := Transmit(s, i), Transmit(s', Tail(i));
         run.final == next.final && run.rest == next.rest && run.sent == s.Emitted() + next.sent
           && run.asked == next.asked + 1
  {
  }

  lemma TransmitDone(s: Sender, i: Script)
    requires s.left < MAX_RETRANSMIT && s.Done()
    ensures Transmit(s, i) == SenderRun(s, [], 0, i)
  {
  }
}
