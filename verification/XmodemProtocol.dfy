/**
 XMODEM-CRC as src/qda/xmodem.c speaks it: the frames, the receiver's reading of one
 frame, and each party as a machine that takes one reply or one frame at a time.

 What a party reads is a script of bytes and timeouts; after the script the line
 stays silent. Whatever the peer does is some script.
 */
module XmodemProtocol {
  import opened Words
  import Crc16

  const MAX_RX_ERRORS := 5
  const MAX_RETRANSMIT := 3
  const BLOCK := 128
  const PACKET := 133

  const SOH: byte := 0x01
  const EOT: byte := 0x04
  const ACK: byte := 0x06
  const NAK: byte := 0x15
  const CAN: byte := 0x18
  const ERR: byte := 0xFF
  const START: byte := 0x43   // 'C'

  datatype Event = Byte(b: byte) | Timeout

  type Script = seq<Event>

  // ----- frames -----

  // A packet buffer: SOH, number, its complement, 128 bytes of payload, CRC high and low.
  type Packet = p: seq<byte> | |p| == PACKET witness seq(PACKET, _ => 0)

  function Payload(p: Packet): (d: seq<byte>)
    ensures |d| == BLOCK
  {
    p[3..3 + BLOCK]
  }

  // Payload and check field.
  function Checked(p: Packet): (d: seq<byte>)
    ensures |d| == BLOCK + 2
  {
    p[3..]
  }

  predicate Intact(p: Packet) {
    p[1] as int == 0xFF - p[2] as int && Crc16.Checks(Checked(p))
  }

  // xmodem_send_pkt: the buffer after filling in a chunk; what the chunk does not
  // cover keeps its old bytes.
  function Framed(p: Packet, chunk: seq<byte>, no: byte): (q: Packet)
    requires |chunk| <= BLOCK
  {
    var data := chunk + Payload(p)[|chunk|..];
    var crc := Crc16.Crc(data);
    [SOH, no, 0xFF - no as int] + data + [crc / 0x100, crc % 0x100]
  }

  lemma FramedIsIntact(p: Packet, chunk: seq<byte>, no: byte)
    requires |chunk| <= BLOCK
    ensures var q := Framed(p, chunk, no);
      Intact(q) && q[0] == SOH && q[1] == no && Payload(q) == chunk + Payload(p)[|chunk|..]
  {
    hide Crc16.Crc;
    var q := Framed(p, chunk, no);
    var c := Checked(q);
    assert c[..BLOCK] == chunk + Payload(p)[|chunk|..];
  }

  // ----- the receiver -----

  datatype Status = Received | Duplicate | Bad | Cancel | End

  // The checks made on a complete packet, in their order.
  function Classify(p: Packet, exp: byte, room: nat): Status {
    if !Intact(p) then Bad
    else if p[1] as int == exp as int - 1 then Duplicate
    else if p[1] != exp then Cancel
    else if room < BLOCK then Cancel
    else Received
  }

  datatype Filling = Filling(packet: Packet, complete: bool, rest: Script)

  // Reading bytes into the buffer from position pos on, until it is full or a timeout.
  function Fill(p: Packet, pos: nat, script: Script): Filling
    requires pos <= PACKET
    decreases PACKET - pos
  {
    if pos == PACKET then Filling(p, true, script)
    else if script == [] then Filling(p, false, [])
    else match script[0]
      case Timeout => Filling(p, false, script[1..])
      case Byte(b) => Fill(p[pos := b], pos + 1, script[1..])
  }

  // Discarding bytes until a timeout.
  function Drain(script: Script): Script
    decreases |script|
  {
    if script == [] then []
    else match script[0]
      case Timeout => script[1..]
      case Byte(b) => Drain(script[1..])
  }

  datatype Reading = Reading(status: Status, packet: Packet, rest: Script)

  /** xmodem_read_pkt: its status, the buffer afterwards and what is left of the script. */
  function ReadPkt(p: Packet, exp: byte, room: nat, script: Script): Reading {
    if script == [] then Reading(Bad, p, [])
    else match script[0]
      case Timeout => Reading(Bad, p, script[1..])
      case Byte(cmd) =>
        if cmd == EOT then Reading(End, p, script[1..])
        else if cmd != SOH then Reading(Bad, p, Drain(script[1..]))
        else
          var f := Fill(p, 1, script[1..]);
          Reading(if f.complete then Classify(f.packet, exp, room) else Bad, f.packet, f.rest)
  }

  // The receiver between two packets. While it runs it sends cmd and then reads; once
  // it is done it has only cmd left to send, and ret to return.
  datatype Receiver = Receiver(
    running: bool, ret: int, cmd: byte, nak: byte, exp: byte, errors: nat, room: nat, data: seq<byte>, packet: Packet)

  function ReceiverStart(room: nat, p: Packet): Receiver {
    Receiver(true, -1, START, START, 1, 0, room, [], p)
  }

  function NextNo(no: byte): byte {
    (no as int + 1) % 0x100
  }

  function Take(r: Receiver, status: Status, p: Packet): (r': Receiver)
    requires status.Received? ==> r.room >= BLOCK
  {
    match status
    case Received =>
      r.(cmd := ACK, nak := NAK, exp := NextNo(r.exp), errors := 0, room := r.room - BLOCK,
         data := r.data + Payload(p), packet := p)
    case Duplicate => r.(cmd := ACK, packet := p)
    case End => r.(running := false, ret := |r.data|, cmd := ACK, packet := p)
    case Cancel => r.(running := false, cmd := CAN, packet := p)
    case Bad => r.(running := r.errors + 1 < MAX_RX_ERRORS, errors := r.errors + 1, cmd := r.nak, packet := p)
  }

  // One round of the receive loop, after cmd has been sent.
  function ReceiverStep(r: Receiver, script: Script): (Receiver, Script) {
    var read := ReadPkt(r.packet, r.exp, r.room, script);
    (Take(r, read.status, read.packet), read.rest)
  }

  datatype ReceiverRun = ReceiverRun(final: Receiver, sent: seq<byte>, rest: Script)

  /** xmodem_receive_package from a state on: the last state, the bytes sent, the script left over. */
  function Receive(r: Receiver, script: Script): ReceiverRun
    decreases |script|, if r.running && r.errors < MAX_RX_ERRORS then MAX_RX_ERRORS - r.errors + 1
      else if r.running then 1 else 0
  {
    if !r.running then ReceiverRun(r, [r.cmd], script)
    else
      var (r', rest) := ReceiverStep(r, script);
      ReadPktShrinks(r.packet, r.exp, r.room, script);
      var run := Receive(r', rest);
      run.(sent := [r.cmd] + run.sent)
  }

  lemma {:induction false} FillShrinks(p: Packet, pos: nat, script: Script)
    requires pos <= PACKET
    ensures |Fill(p, pos, script).rest| <= |script|
    ensures pos < PACKET && script == [] ==> !Fill(p, pos, script).complete
    ensures Fill(p, pos, script).complete ==> |Fill(p, pos, script).rest| == |script| - (PACKET - pos)
    decreases PACKET - pos
  {
    if pos < PACKET && script != [] && script[0].Byte? {
      FillShrinks(p[pos := script[0].b], pos + 1, script[1..]);
    }
  }

  lemma {:induction false} DrainShrinks(script: Script)
    ensures |Drain(script)| <= |script|
    decreases |script|
  {
    if script != [] && script[0].Byte? {
      DrainShrinks(script[1..]);
    }
  }

  lemma ReadPktShrinks(p: Packet, exp: byte, room: nat, script: Script)
    ensures var r := ReadPkt(p, exp, room, script);
      && (if script == [] then r.rest == [] && r.status.Bad? else |r.rest| < |script|)
      && (r.status.Received? || r.status.Duplicate? ==> |r.rest| == |script| - PACKET)
  {
    if script != [] && script[0].Byte? {
      FillShrinks(p, 1, script[1..]);
      DrainShrinks(script[1..]);
    }
  }

  // ----- the sender -----

  // The sender while it waits for a reply. `left` is how many tries remain after the
  // one under way; `todo` is the data not yet acknowledged.
  datatype Phase = Waiting | Sending | Ending | Sent(ret: int) | GivenUp

  datatype Sender = Sender(phase: Phase, left: nat, no: byte, todo: seq<byte>, packet: Packet)
  {
    predicate Done() {
      phase.Sent? || phase.GivenUp?
    }

    // What it has just put on the line.
    function Emitted(): seq<byte> {
      match phase
      case Sending => packet
      case Ending => [EOT]
      case _ => []
    }
  }

  function SenderStart(data: seq<byte>, p: Packet): Sender {
    Sender(Waiting, MAX_RETRANSMIT - 1, 1, data, p)
  }

  function ChunkLength(todo: seq<byte>): nat {
    if |todo| >= BLOCK then BLOCK else |todo|
  }

  // The next packet, or the end of transmission.
  function Begin(todo: seq<byte>, no: byte, p: Packet): Sender {
    if todo == [] then Sender(Ending, MAX_RETRANSMIT - 1, no, todo, p)
    else Sender(Sending, MAX_RETRANSMIT - 1, no, todo, Framed(p, todo[..ChunkLength(todo)], no))
  }

  function Retry(s: Sender): Sender {
    if s.left > 0 then s.(left := s.left - 1) else s.(phase := GivenUp)
  }

  // What the sender does with the byte it finds after waiting; ERR stands for none.
  function React(s: Sender, rsp: byte): Sender {
    match s.phase
    case Waiting => if rsp == START then Begin(s.todo, 1, s.packet) else Retry(s)
    case Sending => if rsp == ACK then Begin(s.todo[ChunkLength(s.todo)..], NextNo(s.no), s.packet) else Retry(s)
    case Ending => if rsp == ACK then s.(phase := Sent((s.no as int - 1) * BLOCK), left := 0) else Retry(s)
    case _ => s
  }

  function Response(script: Script): byte {
    if script != [] && script[0].Byte? then script[0].b else ERR
  }

  function Tail(script: Script): Script {
    if script == [] then [] else script[1..]
  }

  function Effort(s: Sender): nat {
    match s.phase
    case Waiting => 4 * (|s.todo| + 3) + s.left
    case Sending => 4 * (|s.todo| + 2) + s.left
    case Ending => 4 + s.left
    case _ => 0
  }

  datatype SenderRun = SenderRun(final: Sender, sent: seq<byte>, asked: nat, rest: Script)

  /** xmodem_transmit_package from a state on: the last state, the bytes sent, the reads made, the script left over. */
  function Transmit(s: Sender, script: Script): SenderRun
    requires s.left < MAX_RETRANSMIT
    decreases Effort(s)
  {
    if s.Done() then SenderRun(s, [], 0, script)
    else
      var run := Transmit(React(s, Response(script)), Tail(script));
      run.(sent := s.Emitted() + run.sent, asked := run.asked + 1)
  }

  // ----- on any script at all -----

  // How a receiver has come from another.
  ghost predicate Follows(r: Receiver, f: Receiver) {
    && r.data <= f.data && |f.data| + f.room == |r.data| + r.room
    && (|f.data| - |r.data|) % BLOCK == 0
    && f.exp as int == (r.exp as int + (|f.data| - |r.data|) / BLOCK) % 0x100
  }

  lemma FollowsOn(r: Receiver, s: Receiver, f: Receiver)
    requires Follows(r, s) && Follows(s, f)
    ensures Follows(r, f)
  {
    var x, y := |s.data| - |r.data|, |f.data| - |s.data|;
    BlocksAdd(x, y);
    NumberAdds(r.exp, x / BLOCK, y / BLOCK);
  }

  lemma BlocksAdd(x: nat, y: nat)
    requires x % BLOCK == 0 && y % BLOCK == 0
    ensures (x + y) % BLOCK == 0 && (x + y) / BLOCK == x / BLOCK + y / BLOCK
  {
  }

  lemma NumberAdds(e: nat, a: nat, b: nat)
    ensures ((e + a) % 0x100 + b) % 0x100 == (e + (a + b)) % 0x100
  {
  }

  /**
   The receiver on every script: the buffer is used up by exactly what is received, what
   was received stays, and the expected number counts the frames modulo 256, past the
   wrap too. It stops, after no more rounds than there are events and errors to allow.
   */
  lemma {:induction false} ReceiveBounds(r: Receiver, script: Script)
    requires r.errors < MAX_RX_ERRORS || !r.running
    ensures var run := Receive(r, script);
      && !run.final.running && Follows(r, run.final)
      && (r.running && r.ret == -1 ==> run.final.ret == -1 || run.final.ret == |run.final.data|)
      && |run.sent| <= |script| + (if r.running then MAX_RX_ERRORS - r.errors else 0) + 1
    decreases |script|, if r.running && r.errors < MAX_RX_ERRORS then MAX_RX_ERRORS - r.errors + 1 else 0
  {
    hide ReadPkt;
    if r.running {
      var (r', rest) := ReceiverStep(r, script);
      ReadPktShrinks(r.packet, r.exp, r.room, script);
      assert Follows(r, r');
      hide Follows;
      ReceiveBounds(r', rest);
      FollowsOn(r, r', Receive(r', rest).final);
    }
  }

  // The most the sender can still write and read.
  function Frames(len: nat): nat {
    (len + BLOCK - 1) / BLOCK
  }

  function MostSent(s: Sender): nat {
    match s.phase
    case Waiting => 3 * (PACKET * Frames(|s.todo|) + 1)
    case Sending => PACKET * (s.left + 1) + 3 * (PACKET * Frames(|s.todo| - ChunkLength(s.todo)) + 1)
    case Ending => s.left + 1
    case _ => 0
  }

  function MostAsked(s: Sender): nat {
    match s.phase
    case Waiting => s.left + 1 + 3 * (Frames(|s.todo|) + 1)
    case Sending => s.left + 1 + 3 * (Frames(|s.todo| - ChunkLength(s.todo)) + 1)
    case Ending => s.left + 1
    case _ => 0
  }

  lemma {:induction false} TransmitCost(s: Sender, script: Script)
    requires s.left < MAX_RETRANSMIT && (s.phase.Sending? ==> s.todo != [])
    ensures |Transmit(s, script).sent| <= MostSent(s) && Transmit(s, script).asked <= MostAsked(s)
    decreases Effort(s)
  {
    hide MostSent, MostAsked, React, Begin, Framed;
    if !s.Done() {
      ReactCost(s, Response(script));
      EffortFalls(s, Response(script));
      TransmitCost(React(s, Response(script)), Tail(script));
    }
  }

  lemma EffortFalls(s: Sender, rsp: byte)
    requires s.left < MAX_RETRANSMIT && !s.Done()
    ensures Effort(React(s, rsp)) < Effort(s) && React(s, rsp).left < MAX_RETRANSMIT
  {
    hide Framed;
  }

  lemma ReactCost(s: Sender, rsp: byte)
    requires s.left < MAX_RETRANSMIT && !s.Done() && (s.phase.Sending? ==> s.todo != [])
    ensures var s' := React(s, rsp);
      && (s'.phase.Sending? ==> s'.todo != [])
      && |s.Emitted()| + MostSent(s') <= MostSent(s) && 1 + MostAsked(s') <= MostAsked(s)
  {
    hide Begin, Framed, Frames;
    BeginCost(s.todo, 1, s.packet);
    BeginCost(s.todo[ChunkLength(s.todo)..], NextNo(s.no), s.packet);
  }

  lemma BeginCost(todo: seq<byte>, no: byte, p: Packet)
    ensures MostSent(Begin(todo, no, p)) <= 3 * (PACKET * Frames(|todo|) + 1)
    ensures MostAsked(Begin(todo, no, p)) <= 3 * (Frames(|todo|) + 1)
    ensures Begin(todo, no, p).phase.Sending? ==> Begin(todo, no, p).todo != []
    ensures !Begin(todo, no, p).Done()
  {
    hide Framed;
    if todo != [] {
      assert Frames(|todo|) == 1 + Frames(|todo| - ChunkLength(todo));
    }
  }

  /** A transfer of any length, against any peer, costs at most three tries an item. */
  lemma TransmitBounds(data: seq<byte>, p: Packet, script: Script)
    ensures var run := Transmit(SenderStart(data, p), script);
      && run.final.Done()
      && |run.sent| <= 3 * (PACKET * Frames(|data|) + 1)
      && run.asked <= 3 * (Frames(|data|) + 2)
  {
    TransmitCost(SenderStart(data, p), script);
    TransmitEnds(SenderStart(data, p), script);
  }

  lemma {:induction false} TransmitEnds(s: Sender, script: Script)
    requires s.left < MAX_RETRANSMIT
    ensures Transmit(s, script).final.Done()
    decreases Effort(s)
  {
    hide Framed;
    if !s.Done() {
      TransmitEnds(React(s, Response(script)), Tail(script));
    }
  }
}
