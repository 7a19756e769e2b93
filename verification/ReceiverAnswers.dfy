/**
 What xmodem_receive_package makes of each thing that arrives: which frames it stores,
 which it only acknowledges, on which it cancels, and when it gives up.
 */
module ReceiverAnswers {
  import opened Words
  import opened XmodemProtocol
  import opened StopAndWait

  // A receiver somewhere in its loop: it answers errors with 'C' before the first frame and
  // with NAK from then on, and its number is that of the next frame.
  ghost predicate Genuine(r: Receiver) {
    && r.running && r.ret == -1 && r.errors < MAX_RX_ERRORS
    && r.nak == Complaint(r.data) && |r.data| % BLOCK == 0
    && r.exp as int == (1 + |r.data| / BLOCK) % 0x100
  }

  function Complaint(data: seq<byte>): byte {
    if data == [] then 'C' as int else 0x15
  }

  lemma StartIsGenuine(room: nat, p: Packet)
    ensures Genuine(ReceiverStart(room, p))
  {
  }

  ghost predicate Proper(q: Packet) {
    q[0] == SOH && Intact(q)
  }

  function Sends(cmd: byte, later: ReceiverRun): ReceiverRun {
    later.(sent := [cmd] + later.sent)
  }

  /** The frame that is expected is stored and acknowledged, and the errors are forgotten. */
  lemma ExpectedIsStored(r: Receiver, q: Packet, rest: Script) returns (next: Receiver)
    requires Genuine(r) && Proper(q) && q[1] == r.exp && r.room >= BLOCK
    ensures Genuine(next) && next.data == r.data + Payload(q) && next.room == r.room - BLOCK
    ensures next.cmd == 0x06 && next.errors == 0
    ensures Receive(r, Bytes(q) + rest) == Sends(r.cmd, Receive(next, rest))
  {
    hide Intact, ReadPkt;
    PacketArrives(r.packet, r.exp, r.room, q, rest);
    next := ReceiverStep(r, Bytes(q) + rest).0;
  }

  /** The frame before it is acknowledged; data, number and error count stay. */
  lemma RepeatIsAcknowledged(r: Receiver, q: Packet, rest: Script) returns (next: Receiver)
    requires Genuine(r) && Proper(q) && q[1] as int == r.exp as int - 1
    ensures Genuine(next) && next.data == r.data && next.room == r.room && next.exp == r.exp
    ensures next.cmd == 0x06 && next.errors == r.errors
    ensures Receive(r, Bytes(q) + rest) == Sends(r.cmd, Receive(next, rest))
  {
    hide Intact, ReadPkt;
    PacketArrives(r.packet, r.exp, r.room, q, rest);
    next := ReceiverStep(r, Bytes(q) + rest).0;
  }

  /** Every other number, or an expected frame there is no room for, ends the transfer with CAN. */
  lemma OtherIsCancelled(r: Receiver, q: Packet, rest: Script)
    requires Genuine(r) && Proper(q) && q[1] as int != r.exp as int - 1 && (q[1] != r.exp || r.room < BLOCK)
    ensures var run := Receive(r, Bytes(q) + rest);
      run.final.ret == -1 && run.final.data == r.data && run.sent == [r.cmd, 0x18] && run.rest == rest
  {
    hide Intact, ReadPkt;
    PacketArrives(r.packet, r.exp, r.room, q, rest);
    var next := ReceiverStep(r, Bytes(q) + rest).0;
    assert Receive(next, rest).sent == [0x18];
  }

  /** EOT is acknowledged and ends the transfer with the length of what was stored. */
  lemma EndIsAcknowledged(r: Receiver, rest: Script)
    requires Genuine(r)
    ensures var run := Receive(r, Bytes([0x04]) + rest);
      run.final.ret == |r.data| && run.final.data == r.data && run.sent == [r.cmd, 0x06] && run.rest == rest
  {
    hide ReadPkt;
    EndArrives(r.packet, r.exp, r.room, rest);
    var next := ReceiverStep(r, Bytes([EOT]) + rest).0;
    assert Receive(next, rest).sent == [0x06];
  }

  /**
   A bad arrival is answered with 'C' before the first frame and with NAK from then on; the
   fifth ends the transfer.
   */
  lemma BadIsComplainedOf(r: Receiver, e: Script, rest: Script) returns (next: Receiver)
    requires Genuine(r) && BadArrival(e)
    ensures next.data == r.data && next.room == r.room && next.exp == r.exp
    ensures next.cmd == Complaint(r.data) && next.errors == r.errors + 1
    ensures Receive(r, e + rest) == Sends(r.cmd, Receive(next, rest))
    ensures if r.errors < 4 then Genuine(next)
      else Receive(next, rest) == ReceiverRun(next, [next.cmd], rest) && next.ret == -1
  {
    hide BadArrival, ReadPkt;
    BadArrivalIsBad(r.packet, r.exp, r.room, e, rest);
    next := ReceiverStep(r, e + rest).0;
  }

  // ----- what a cut-off packet leaves behind -----

  lemma {:induction false} FillLeaves(p: Packet, pos: nat, bytes: seq<byte>, rest: Script)
    requires pos + |bytes| < PACKET
    ensures Fill(p, pos, Bytes(bytes) + ([Timeout] + rest))
      == Filling(p[..pos] + bytes + p[pos + |bytes|..], false, rest)
    decreases |bytes|
  {
    if bytes == [] {
      assert Bytes(bytes) + ([Timeout] + rest) == [Timeout] + rest;
      assert p[..pos] + bytes + p[pos..] == p;
    } else {
      var e := Bytes(bytes) + ([Timeout] + rest);
      assert e[0] == Byte(bytes[0]) && e[1..] == Bytes(bytes[1..]) + ([Timeout] + rest);
      var p' := p[pos := bytes[0]];
      FillLeaves(p', pos + 1, bytes[1..], rest);
      assert p'[..pos + 1] + bytes[1..] + p'[pos + |bytes|..] == p[..pos] + bytes + p[pos + |bytes|..];
    }
  }

  /**
   A packet cut off by a timeout leaves its bytes in the packet buffer, behind its first
   byte, where they can become the padding of the next package that is sent.
   */
  lemma CutOffLeavesItsBytes(p: Packet, exp: byte, room: nat, bytes: seq<byte>, rest: Script)
    requires 1 + |bytes| < PACKET
    ensures ReadPkt(p, exp, room, Bytes([0x01] + bytes) + ([Timeout] + rest))
      == Reading(Bad, p[..1] + bytes + p[1 + |bytes|..], rest)
  {
    hide Fill;
    var e := Bytes([SOH] + bytes) + ([Timeout] + rest);
    assert e[0] == Byte(SOH) && e[1..] == Bytes(bytes) + ([Timeout] + rest);
    FillLeaves(p, 1, bytes, rest);
  }

  // ----- giving up -----

  // What arrives while no new frame does.
  datatype Arrival = Repeat(q: Packet) | Noise(e: Script)

  ghost predicate Fruitless(a: Arrival, exp: byte) {
    match a
    case Repeat(q) => Proper(q) && q[1] as int == exp as int - 1
    case Noise(e) => BadArrival(e)
  }

  function ScriptOf(a: Arrival): Script {
    match a
    case Repeat(q) => Bytes(q)
    case Noise(e) => e
  }

  function Heard(arrivals: seq<Arrival>): Script {
    if arrivals == [] then [] else ScriptOf(arrivals[0]) + Heard(arrivals[1..])
  }

  predicate EndsWith(s: seq<byte>, tail: seq<byte>) {
    |tail| <= |s| && s[|s| - |tail|..] == tail
  }

  function Noises(arrivals: seq<Arrival>): nat {
    if arrivals == [] then 0 else (if arrivals[0].Noise? then 1 else 0) + Noises(arrivals[1..])
  }

  lemma OneFruitless(r: Receiver, a: Arrival, rest: Script) returns (next: Receiver)
    requires Genuine(r) && Fruitless(a, r.exp)
    ensures next.data == r.data && next.exp == r.exp && next.errors == r.errors + (if a.Noise? then 1 else 0)
    ensures Receive(r, ScriptOf(a) + rest) == Sends(r.cmd, Receive(next, rest))
    ensures if next.errors < 5 then Genuine(next)
      else
        && a.Noise? && next.errors == 5 && next.ret == -1
        && Receive(next, rest) == ReceiverRun(next, [Complaint(r.data)], rest)
  {
    hide BadArrival, Receive, Bytes, Proper;
    match a {
      case Repeat(q) => next := RepeatIsAcknowledged(r, q, rest);
      case Noise(e) => next := BadIsComplainedOf(r, e, rest);
    }
  }

  /**
   The fifth bad arrival since a frame was stored ends the transfer with -1, and none before
   it does, however many repeats come between them: a repeat is not forgiveness.
   */
  lemma {:induction false} GivesUpAtFive(r: Receiver, arrivals: seq<Arrival>, rest: Script) returns (next: Receiver)
    requires Genuine(r) && forall i :: 0 <= i < |arrivals| ==> Fruitless(arrivals[i], r.exp)
    requires r.errors + Noises(arrivals) <= 5
    requires r.errors + Noises(arrivals) == 5 ==> arrivals != [] && arrivals[|arrivals| - 1].Noise?
    ensures next.data == r.data && next.errors == r.errors + Noises(arrivals)
    ensures var run, later := Receive(r, Heard(arrivals) + rest), Receive(next, rest);
      && run.final == later.final && run.rest == later.rest && EndsWith(run.sent, later.sent)
      && if next.errors < 5 then Genuine(next)
         else next.ret == -1 && later == ReceiverRun(next, [Complaint(r.data)], rest)
    decreases |arrivals|
  {
    hide Genuine, Fruitless, Receive, ScriptOf, Complaint;
    if arrivals == [] {
      assert Heard(arrivals) + rest == rest;
      next := r;
    } else {
      var more := arrivals[1..];
      assert Heard(arrivals) + rest == ScriptOf(arrivals[0]) + (Heard(more) + rest);
      var r' := OneFruitless(r, arrivals[0], Heard(more) + rest);
      if r'.errors == 5 {
        NoMoreNoise(more);
        assert Heard(more) + rest == rest;
        next := r';
      } else {
        next := GivesUpAtFive(r', more, rest);
      }
    }
  }

  lemma NoMoreNoise(arrivals: seq<Arrival>)
    requires Noises(arrivals) == 0 && (arrivals != [] ==> arrivals[|arrivals| - 1].Noise?)
    ensures arrivals == []
  {
  }
}
