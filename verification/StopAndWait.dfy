/**
 The sender and the receiver of XmodemProtocol joined by a faulty line.

 In every round the line passes what the sender has put on it, or hands the receiver
 something it reads as a bad packet; then it passes the receiver's answer, loses it, or
 turns it into another byte. The assumptions are: no answer arrives after the sender has
 stopped waiting for it, damage is of the kind the receiver notices, and a garbled
 answer is never an ACK.
 */
module StopAndWait {
  import opened Words
  import opened XmodemProtocol
  import Crc16

  // ----- what the receiver reads as a bad packet -----

  function Bytes(s: seq<byte>): (e: Script)
    ensures |e| == |s|
  {
    seq(|s|, i requires 0 <= i < |s| => Byte(s[i]))
  }

  ghost predicate BytesThenTimeout(e: Script) {
    e != [] && e[|e| - 1] == Timeout && forall i :: 0 <= i < |e| - 1 ==> e[i].Byte?
  }

  // Silence; a stray byte and what follows it; a packet cut short; a packet that fails the checks.
  ghost predicate BadArrival(e: Script) {
    || e == [Timeout]
    || (|e| > 1 && BytesThenTimeout(e) && e[0] != Byte(SOH) && e[0] != Byte(EOT))
    || (1 < |e| <= PACKET && BytesThenTimeout(e) && e[0] == Byte(SOH))
    || exists q: Packet :: q[0] == SOH && e == Bytes(q) && !Intact(q)
  }

  lemma {:induction false} DrainTimeout(e: Script, rest: Script)
    requires BytesThenTimeout(e)
    ensures Drain(e + rest) == rest
    decreases |e|
  {
    if |e| > 1 {
      assert (e + rest)[1..] == e[1..] + rest;
      DrainTimeout(e[1..], rest);
    } else {
      assert (e + rest)[1..] == rest;
    }
  }

  lemma {:induction false} FillTimeout(p: Packet, pos: nat, e: Script, rest: Script)
    requires BytesThenTimeout(e) && pos + |e| <= PACKET
    ensures Fill(p, pos, e + rest) == Fill(p, pos, e).(rest := rest) && !Fill(p, pos, e).complete
    decreases |e|
  {
    if |e| > 1 {
      assert (e + rest)[1..] == e[1..] + rest;
      FillTimeout(p[pos := e[0].b], pos + 1, e[1..], rest);
    } else {
      assert (e + rest)[1..] == rest;
    }
  }

  lemma {:induction false} FillBytes(p: Packet, pos: nat, q: Packet, rest: Script)
    requires pos <= PACKET
    ensures Fill(p, pos, Bytes(q[pos..]) + rest) == Filling(p[..pos] + q[pos..], true, rest)
    decreases PACKET - pos
  {
    if pos == PACKET {
      assert Bytes(q[pos..]) + rest == rest && p[..pos] + q[pos..] == p;
    } else {
      var e := Bytes(q[pos..]) + rest;
      assert e[0] == Byte(q[pos]) && e[1..] == Bytes(q[pos + 1..]) + rest;
      var p' := p[pos := q[pos]];
      FillBytes(p', pos + 1, q, rest);
      assert p'[..pos + 1] + q[pos + 1..] == p[..pos] + q[pos..];
    }
  }

  // A packet that arrives whole is judged by its own bytes.
  lemma PacketArrives(p: Packet, exp: byte, room: nat, q: Packet, rest: Script)
    requires q[0] == SOH
    ensures ReadPkt(p, exp, room, Bytes(q) + rest) == Reading(Classify(q, exp, room), p[..1] + q[1..], rest)
  {
    hide Intact, Fill;
    var e := Bytes(q) + rest;
    assert e[0] == Byte(SOH) && e[1..] == Bytes(q[1..]) + rest;
    FillBytes(p, 1, q, rest);
    var t := p[..1] + q[1..];
    assert t[1..] == q[1..] && t[1] == q[1];
    FirstByteIsFree(t, q);
  }

  lemma BadArrivalIsBad(p: Packet, exp: byte, room: nat, e: Script, rest: Script)
    requires BadArrival(e)
    ensures ReadPkt(p, exp, room, e + rest) == ReadPkt(p, exp, room, e).(rest := rest)
    ensures ReadPkt(p, exp, room, e).status.Bad? && e != []
  {
    hide Crc16.Checks;
    assert (e + rest)[1..] == e[1..] + rest;
    if e == [Timeout] {
      assert e[1..] + rest == rest;
    } else if exists q: Packet :: q[0] == SOH && e == Bytes(q) && !Intact(q) {
      var q: Packet :| q[0] == SOH && e == Bytes(q) && !Intact(q);
      PacketArrives(p, exp, room, q, rest);
      PacketArrives(p, exp, room, q, []);
      assert Bytes(q) + [] == e;
    } else if e[0] == Byte(SOH) {
      FillTimeout(p, 1, e[1..], rest);
    } else {
      DrainTimeout(e[1..], rest);
      DrainTimeout(e[1..], []);
      assert e[1..] + [] == e[1..];
    }
  }

  lemma EndArrives(p: Packet, exp: byte, room: nat, rest: Script)
    ensures ReadPkt(p, exp, room, Bytes([EOT]) + rest) == Reading(End, p, rest)
  {
    assert (Bytes([EOT]) + rest)[1..] == rest;
  }

  // ----- the line -----

  datatype Forward = Passed | Disturbed(arrival: Script)
  datatype Backward = Through | Lost | Garbled(b: byte)
  datatype Round = Round(out: Forward, back: Backward)

  ghost predicate PossibleBack(back: Backward) {
    back.Garbled? ==> back.b != ACK
  }

  ghost predicate Possible(round: Round) {
    (round.out.Disturbed? ==> BadArrival(round.out.arrival)) && PossibleBack(round.back)
  }

  ghost predicate AllPossible(rounds: seq<Round>) {
    forall i :: 0 <= i < |rounds| ==> Possible(rounds[i])
  }

  datatype System = System(s: Sender, r: Receiver)

  // What the receiver reads in a round, and what the sender reads.
  function Arrival(s: Sender, out: Forward): Script {
    match out
    case Passed => if s.Emitted() == [] then [Timeout] else Bytes(s.Emitted())
    case Disturbed(arrival) => arrival
  }

  function Answer(r: Receiver, answered: bool, back: Backward): (a: Script)
    ensures |a| == 1
  {
    match back
    case Through => if answered then [Byte(r.cmd)] else [Timeout]
    case Lost => [Timeout]
    case Garbled(b) => [Byte(b)]
  }

  function ReceiverAfter(x: System, out: Forward): Receiver {
    if x.r.running then ReceiverStep(x.r, Arrival(x.s, out)).0 else x.r
  }

  function Step(x: System, round: Round): System {
    var r := ReceiverAfter(x, round.out);
    System(React(x.s, Response(Answer(r, x.r.running, round.back))), r)
  }

  function Run(x: System, rounds: seq<Round>): System
    decreases |rounds|
  {
    if rounds == [] then x else Run(Step(x, rounds[0]), rounds[1..])
  }

  // The receiver opens with a 'C', which meets its own fate.
  function Open(data: seq<byte>, sp: Packet, room: nat, rp: Packet, back: Backward): System {
    var r := ReceiverStart(room, rp);
    System(React(SenderStart(data, sp), Response(Answer(r, true, back))), r)
  }

  lemma {:induction false} RunAppend(x: System, a: seq<Round>, b: seq<Round>)
    ensures Run(x, a + b) == Run(Run(x, a), b)
    decreases |a|
  {
    hide Step;
    if a == [] {
      assert a + b == b;
    } else {
      assert (a + b)[0] == a[0] && (a + b)[1..] == a[1..] + b;
      RunAppend(Step(x, a[0]), a[1..], b);
    }
  }

  // ----- the bytes the frames carry -----

  // The payloads of the frames for todo, one after the other; where the last is not
  // filled it repeats what the buffer held before.
  function Padded(todo: seq<byte>, before: seq<byte>): seq<byte>
    requires |before| == BLOCK
    decreases |todo|
  {
    if todo == [] then []
    else
      var m := ChunkLength(todo);
      var p := todo[..m] + before[m..];
      p + Padded(todo[m..], p)
  }

  lemma {:induction false} PaddedShape(todo: seq<byte>, before: seq<byte>)
    requires |before| == BLOCK
    ensures |Padded(todo, before)| == BLOCK * Frames(|todo|)
    ensures todo <= Padded(todo, before)
    decreases |todo|
  {
    if todo != [] {
      var m := ChunkLength(todo);
      var p := todo[..m] + before[m..];
      PaddedShape(todo[m..], p);
      assert Frames(|todo|) == 1 + Frames(|todo| - m);
      assert todo == todo[..m] + todo[m..];
    }
  }

  // ----- the invariant -----

  function Rest(s: Sender): seq<byte> {
    s.todo[ChunkLength(s.todo)..]
  }

  // What the current frame and those after it will deliver.
  function Coming(s: Sender): seq<byte> {
    Padded(Rest(s), Payload(s.packet))
  }

  ghost predicate Pending(x: System, total: seq<byte>) {
    x.r.exp == x.s.no && total == x.r.data + Payload(x.s.packet) + Coming(x.s)
  }

  ghost predicate Taken(x: System, total: seq<byte>) {
    x.r.exp == NextNo(x.s.no) && x.r.nak == NAK && total == x.r.data + Coming(x.s)
  }

  // How many errors the receiver may carry into an item of the sender.
  function Carried(r: Receiver): nat {
    if r.nak == START then 2 else 1
  }

  // The parties while the receiver runs: where they are, and that its error budget
  // outlasts the tries the sender has left.
  ghost predicate InStep(x: System, total: seq<byte>) {
    && x.r.ret == -1 && x.r.errors < MAX_RX_ERRORS && x.r.cmd != CAN
    && (x.r.nak == START || x.r.nak == NAK)
    && match x.s.phase
       case Waiting =>
         && x.r.data == [] && x.r.exp == 1 && x.s.no == 1 && x.r.nak == START && x.r.errors + x.s.left <= 1
         && total == Padded(x.s.todo, Payload(x.s.packet))
       case Sending =>
         && x.s.todo != [] && x.s.packet[0] == SOH && x.s.packet[1] == x.s.no && Intact(x.s.packet)
         && (|| (Pending(x, total) && x.r.errors + x.s.left <= Carried(x.r) + 2)
             || (Taken(x, total) && x.r.errors + x.s.left <= 1))
       case Ending =>
         && x.r.data == total && x.s.todo == [] && x.r.exp == x.s.no
         && x.r.errors + x.s.left <= Carried(x.r) + 2
       case Sent(_) => false
       case GivenUp => InNumber(x)
  }

  // The receiver expects the packet the sender is at, or has it and expects the next.
  predicate InNumber(x: System) {
    x.r.exp == x.s.no || x.r.exp == NextNo(x.s.no)
  }

  ghost predicate Inv(x: System, total: seq<byte>, size: nat) {
    && x.s.left < MAX_RETRANSMIT
    && |x.r.data| + x.r.room == size && |x.r.data| % BLOCK == 0
    && x.r.exp as int == (1 + |x.r.data| / BLOCK) % 0x100
    && x.r.data <= total
    && if x.r.running then InStep(x, total)
       else if x.r.ret >= 0 then
         && x.r.data == total && x.r.ret == |total|
         && x.s.no == x.r.exp
         && (x.s.phase.Ending? || x.s.phase.GivenUp? || x.s.phase == Sent((x.r.exp as int - 1) * BLOCK))
       else
         && x.r.ret == -1 && (x.s.phase.Sending? || x.s.phase.GivenUp?) && InNumber(x)
         && (x.r.cmd == CAN || x.s.phase.GivenUp?)
  }

  lemma BeginKeeps(todo: seq<byte>, no: byte, p: Packet, r: Receiver, total: seq<byte>)
    requires r.running && r.ret == -1 && r.errors < MAX_RX_ERRORS && r.cmd != CAN && (r.nak == START || r.nak == NAK)
    requires r.exp == no && total == r.data + Padded(todo, Payload(p)) && r.errors <= Carried(r)
    ensures InStep(System(Begin(todo, no, p), r), total)
  {
    hide Framed, Intact;
    if todo == [] {
      assert r.data + [] == r.data;
    } else {
      FramedIsIntact(p, todo[..ChunkLength(todo)], no);
      assert r.data + (Payload(Begin(todo, no, p).packet) + Coming(Begin(todo, no, p)))
          == r.data + Payload(Begin(todo, no, p).packet) + Coming(Begin(todo, no, p));
    }
  }

  // How a round reads to the receiver.
  lemma ReadsBad(x: System, out: Forward) returns (p: Packet)
    requires x.r.running
    requires (out.Disturbed? && BadArrival(out.arrival)) || (out.Passed? && x.s.Emitted() == [])
    ensures ReceiverAfter(x, out) == Take(x.r, Bad, p)
  {
    hide BadArrival, ReadPkt;
    var e := Arrival(x.s, out);
    assert BadArrival(e) by { SilenceIsBad(); }
    BadArrivalIsBad(x.r.packet, x.r.exp, x.r.room, e, []);
    assert e + [] == e;
    p := ReadPkt(x.r.packet, x.r.exp, x.r.room, e).packet;
  }

  lemma SilenceIsBad()
    ensures BadArrival([Timeout])
  {
  }

  lemma ReadsFrame(x: System) returns (p: Packet)
    requires x.r.running && x.s.phase.Sending? && x.s.packet[0] == SOH
    ensures var status := Classify(x.s.packet, x.r.exp, x.r.room);
      ReceiverAfter(x, Passed) == Take(x.r, status, p)
    ensures Payload(p) == Payload(x.s.packet)
  {
    hide ReadPkt, Intact;
    var e := Bytes(x.s.packet);
    PacketArrives(x.r.packet, x.r.exp, x.r.room, x.s.packet, []);
    assert e + [] == e;
    p := x.r.packet[..1] + x.s.packet[1..];
  }

  lemma ReadsEnd(x: System)
    requires x.r.running && x.s.phase.Ending?
    ensures ReceiverAfter(x, Passed) == Take(x.r, End, x.r.packet)
  {
    hide ReadPkt;
    EndArrives(x.r.packet, x.r.exp, x.r.room, []);
    assert Bytes([EOT]) + [] == Bytes([EOT]);
  }

  // Only a good reading is answered with an ACK, and only an ACK reads as one.
  lemma NoAck(r: Receiver, answered: bool, back: Backward)
    requires PossibleBack(back) && (!answered || r.cmd != ACK || !back.Through?)
    ensures Response(Answer(r, answered, back)) != ACK
  {
  }

  // ----- every round keeps the invariant -----

  lemma StepWhileStopped(x: System, total: seq<byte>, size: nat, round: Round)
    requires Inv(x, total, size) && !x.r.running && Possible(round)
    ensures Inv(Step(x, round), total, size)
  {
    hide BadArrival, Framed, InStep;
    NoAck(x.r, false, round.back);
  }

  lemma StepBad(x: System, total: seq<byte>, size: nat, round: Round)
    requires Inv(x, total, size) && x.r.running && Possible(round)
    requires round.out.Disturbed? || x.s.Emitted() == []
    ensures Inv(Step(x, round), total, size)
  {
    hide BadArrival, Framed, Intact, ReceiverAfter, Answer, Response, Padded;
    var p := ReadsBad(x, round.out);
    var r := Take(x.r, Bad, p);
    var rsp := Response(Answer(r, true, round.back));
    assert rsp != ACK by { NoAck(r, true, round.back); }
    if x.s.phase.Waiting? && rsp == START {
      BeginKeeps(x.s.todo, 1, x.s.packet, r, total);
    }
  }

  lemma StepEnding(x: System, total: seq<byte>, size: nat, round: Round)
    requires Inv(x, total, size) && x.r.running && Possible(round)
    requires round.out.Passed? && x.s.phase.Ending?
    ensures Inv(Step(x, round), total, size)
  {
    hide BadArrival, Framed, Intact, ReceiverAfter, Padded;
    ReadsEnd(x);
  }

  lemma StepFrame(x: System, total: seq<byte>, size: nat, round: Round)
    requires Inv(x, total, size) && x.r.running && Possible(round)
    requires round.out.Passed? && x.s.phase.Sending?
    ensures Inv(Step(x, round), total, size)
  {
    hide BadArrival, Framed, Intact, ReceiverAfter, Answer, Response, Padded;
    var p := ReadsFrame(x);
    var r := Take(x.r, Classify(x.s.packet, x.r.exp, x.r.room), p);
    var rsp := Response(Answer(r, true, round.back));
    if r.cmd != ACK {
      NoAck(r, true, round.back);
    } else if rsp == ACK {
      BeginKeeps(Rest(x.s), NextNo(x.s.no), x.s.packet, r, total);
    }
  }

  /** Every possible round keeps the invariant. */
  lemma StepKeeps(x: System, total: seq<byte>, size: nat, round: Round)
    requires Inv(x, total, size) && Possible(round)
    ensures Inv(Step(x, round), total, size)
  {
    hide Inv, Step, BadArrival, Framed;
    if !x.r.running {
      StepWhileStopped(x, total, size, round);
    } else if round.out.Disturbed? || x.s.Emitted() == [] {
      StepBad(x, total, size, round);
    } else if x.s.phase.Ending? {
      StepEnding(x, total, size, round);
    } else {
      StepFrame(x, total, size, round);
    }
  }

  lemma {:induction false} RunKeeps(x: System, total: seq<byte>, size: nat, rounds: seq<Round>)
    requires Inv(x, total, size) && AllPossible(rounds)
    ensures Inv(Run(x, rounds), total, size)
    decreases |rounds|
  {
    hide Inv, Step, Possible;
    if rounds != [] {
      StepKeeps(x, total, size, rounds[0]);
      RunKeeps(Step(x, rounds[0]), total, size, rounds[1..]);
    }
  }

  function Total(data: seq<byte>, sp: Packet): seq<byte> {
    Padded(data, Payload(sp))
  }

  lemma OpenKeeps(data: seq<byte>, sp: Packet, size: nat, rp: Packet, back: Backward)
    requires PossibleBack(back)
    ensures Inv(Open(data, sp, size, rp, back), Total(data, sp), size)
  {
    hide Framed, Intact, Padded;
    var r := ReceiverStart(size, rp);
    var rsp := Response(Answer(r, true, back));
    assert [] + Total(data, sp) == Total(data, sp);
    if rsp == START {
      BeginKeeps(data, 1, sp, r, Total(data, sp));
    }
  }

  /**
   The invariant holds in every reachable state, for every transfer and every fate of the
   line; and in every one the receiver expects the sender's packet or the next.
   */
  lemma Reachable(data: seq<byte>, sp: Packet, size: nat, rp: Packet, back: Backward, rounds: seq<Round>)
    requires PossibleBack(back) && AllPossible(rounds)
    ensures var x := Run(Open(data, sp, size, rp, back), rounds);
      Inv(x, Total(data, sp), size) && InNumber(x)
  {
    hide Inv, Open, Run;
    OpenKeeps(data, sp, size, rp, back);
    RunKeeps(Open(data, sp, size, rp, back), Total(data, sp), size, rounds);
    InvNumbers(Run(Open(data, sp, size, rp, back), rounds), Total(data, sp), size);
  }

  lemma InvNumbers(x: System, total: seq<byte>, size: nat)
    requires Inv(x, total, size)
    ensures InNumber(x)
  {
    hide Intact, Padded;
  }

  // ----- what the parties agree on -----

  /**
   Agreement. If either side returns success, the receiver holds the sender's data, padded
   to whole frames with what the sender's buffer held, and has returned that length; and if
   the sender does, the receiver has. Until then it holds a prefix of it.
   */
  lemma Agreement(data: seq<byte>, sp: Packet, size: nat, rp: Packet, back: Backward, rounds: seq<Round>)
    requires PossibleBack(back) && AllPossible(rounds)
    ensures var x, total := Run(Open(data, sp, size, rp, back), rounds), Total(data, sp);
      && data <= total && |total| == BLOCK * Frames(|data|) && x.r.data <= total
      && (x.s.phase.Sent? ==> !x.r.running && x.r.ret >= 0)
      && (x.r.ret >= 0 ==> x.r.data == total && x.r.ret == |total|)
  {
    hide Run, Open, Padded;
    Reachable(data, sp, size, rp, back, rounds);
    PaddedShape(data, Payload(sp));
  }

  /**
   The value a successful sender returns: its 8-bit packet number makes it the number of
   bytes sent exactly up to 254 frames, and negative at 255 and every 256 frames from there.
   */
  lemma SenderReturns(data: seq<byte>, sp: Packet, size: nat, rp: Packet, back: Backward, rounds: seq<Round>)
    requires PossibleBack(back) && AllPossible(rounds)
    requires Run(Open(data, sp, size, rp, back), rounds).s.phase.Sent?
    ensures var ret, n := Run(Open(data, sp, size, rp, back), rounds).s.phase.ret, Frames(|data|);
      && (ret == BLOCK * n <==> n <= 254)
      && (ret < 0 <==> n % 0x100 == 255)
  {
    hide Run, Open, Padded;
    Reachable(data, sp, size, rp, back, rounds);
    PaddedShape(data, Payload(sp));
    ReturnArithmetic(Frames(|data|), (1 + Frames(|data|)) % 0x100);
  }

  lemma ReturnArithmetic(n: nat, no: nat)
    requires no == (1 + n) % 0x100
    ensures (no - 1) * BLOCK == BLOCK * n <==> n <= 254
    ensures (no - 1) * BLOCK < 0 <==> n % 0x100 == 255
  {
  }

  /**
   The error budgets fit together: the receiver never gives up counting errors while the
   sender has a try left; if it stops without the data, either it has cancelled or the
   sender has given up. While it runs, its errors are those carried into the current frame
   or EOT and at most one for each failed try of it.
   */
  lemma BudgetsFit(data: seq<byte>, sp: Packet, size: nat, rp: Packet, back: Backward, rounds: seq<Round>)
    requires PossibleBack(back) && AllPossible(rounds)
    ensures var x := Run(Open(data, sp, size, rp, back), rounds);
      && (!x.r.running && x.r.ret < 0 && x.r.cmd != CAN ==> x.s.phase.GivenUp?)
      && (x.r.running ==> x.r.errors < MAX_RX_ERRORS)
      && (x.r.running && x.s.phase.Waiting? ==> x.r.errors < MAX_RETRANSMIT - 1 - x.s.left)
      && (x.r.running && x.s.phase.Sending? ==>
          x.r.errors <= Carried(x.r) + (MAX_RETRANSMIT - 1 - x.s.left))
      && (x.r.running && x.s.phase.Ending? ==>
          x.r.errors <= Carried(x.r) + (MAX_RETRANSMIT - 1 - x.s.left))
  {
    hide Run, Open, Padded;
    Reachable(data, sp, size, rp, back, rounds);
  }

  // ----- when the receiver cancels -----

  // 8-bit numbers do not wrap and the buffer is large enough.
  ghost predicate Fits(total: seq<byte>, size: nat) {
    |total| <= BLOCK * 254 && |total| <= size
  }

  lemma PendingFits(x: System, total: seq<byte>, size: nat)
    requires Inv(x, total, size) && Fits(total, size) && x.r.running && x.s.phase.Sending?
    ensures Pending(x, total) ==> Classify(x.s.packet, x.r.exp, x.r.room).Received?
    ensures Taken(x, total) ==> Classify(x.s.packet, x.r.exp, x.r.room).Duplicate?
  {
    hide Intact, Padded;
    if Pending(x, total) {
      assert |x.r.data| + BLOCK <= |total|;
    }
    if Taken(x, total) {
      assert |x.r.data| <= |total|;
      assert x.r.exp != 0;
    }
  }

  lemma StepNeverCancels(x: System, total: seq<byte>, size: nat, round: Round)
    requires Inv(x, total, size) && Possible(round) && Fits(total, size) && x.r.cmd != CAN
    ensures Step(x, round).r.cmd != CAN
  {
    hide BadArrival, Framed, Intact, ReceiverAfter, Answer, Response, Padded, Classify, React, Fits;
    if x.r.running {
      if round.out.Disturbed? || x.s.Emitted() == [] {
        var p := ReadsBad(x, round.out);
      } else if x.s.phase.Ending? {
        ReadsEnd(x);
      } else {
        PendingFits(x, total, size);
        var p := ReadsFrame(x);
      }
    } else {
      assert ReceiverAfter(x, round.out) == x.r by { StoppedStays(x, round.out); }
    }
  }

  lemma StoppedStays(x: System, out: Forward)
    requires !x.r.running
    ensures ReceiverAfter(x, out) == x.r
  {
  }

  lemma {:induction false} RunNeverCancels(x: System, total: seq<byte>, size: nat, rounds: seq<Round>)
    requires Inv(x, total, size) && AllPossible(rounds) && Fits(total, size) && x.r.cmd != CAN
    ensures Run(x, rounds).r.cmd != CAN
    decreases |rounds|
  {
    hide Inv, Step, Possible, Fits;
    if rounds != [] {
      StepKeeps(x, total, size, rounds[0]);
      StepNeverCancels(x, total, size, rounds[0]);
      RunNeverCancels(Step(x, rounds[0]), total, size, rounds[1..]);
    }
  }

  // ----- rounds without a fault -----

  const CLEAN := Round(Passed, Through)

  // An item about to be sent for the first time.
  ghost predicate Fresh(x: System, total: seq<byte>, size: nat) {
    && Inv(x, total, size) && x.r.running && x.s.left == MAX_RETRANSMIT - 1
    && ((x.s.phase.Sending? && Pending(x, total)) || x.s.phase.Ending?)
  }

  // The frame under way gets through, with its acknowledgement, now.
  lemma CleanFrame(x: System, total: seq<byte>, size: nat)
    requires Inv(x, total, size) && x.r.running && x.s.phase.Sending?
    requires var status := Classify(x.s.packet, x.r.exp, x.r.room); status.Received? || status.Duplicate?
    ensures var x' := Step(x, CLEAN);
      && Fresh(x', total, size) && x'.s.todo == Rest(x.s)
      && |x'.r.data| == |x.r.data| + (if Classify(x.s.packet, x.r.exp, x.r.room).Received? then BLOCK else 0)
  {
    hide BadArrival, Framed, Intact, ReceiverAfter, Padded, Classify, InStep;
    StepKeeps(x, total, size, CLEAN);
    FrameShape(x, total, size);
    var p := ReadsFrame(x);
    var x' := Step(x, CLEAN);
    assert x'.s == Begin(Rest(x.s), NextNo(x.s.no), x.s.packet);
    FreshFromInv(x', total, size);
  }

  lemma FrameShape(x: System, total: seq<byte>, size: nat)
    requires Inv(x, total, size) && x.r.running && x.s.phase.Sending?
    ensures x.s.packet[0] == SOH
  {
  }

  lemma FreshFromInv(x: System, total: seq<byte>, size: nat)
    requires Inv(x, total, size) && x.r.running && x.s.left == MAX_RETRANSMIT - 1
    requires x.s.phase.Sending? || x.s.phase.Ending?
    ensures Fresh(x, total, size)
  {
    hide Intact, Padded;
  }

  lemma PendingRoom(x: System, total: seq<byte>, size: nat)
    requires Inv(x, total, size) && x.r.running && x.s.phase.Sending? && Pending(x, total)
    ensures Classify(x.s.packet, x.r.exp, x.r.room) == if x.r.room >= BLOCK then Received else Cancel
  {
    hide Intact, Padded;
  }

  // k frames, one clean round each.
  lemma {:induction false} CleanFrames(x: System, total: seq<byte>, size: nat, k: nat) returns (rounds: seq<Round>)
    requires Fresh(x, total, size) && x.s.phase.Sending?
    requires |x.r.data| + BLOCK * k < |total| && |x.r.data| + BLOCK * k <= size
    ensures AllPossible(rounds)
    ensures var x' := Run(x, rounds);
      Fresh(x', total, size) && x'.s.phase.Sending? && |x'.r.data| == |x.r.data| + BLOCK * k
    decreases k
  {
    hide Inv, Step, Pending, Classify;
    if k == 0 {
      rounds := [];
    } else {
      FreshRoom(x, total, size);
      PendingRoom(x, total, size);
      CleanFrame(x, total, size);
      var x' := Step(x, CLEAN);
      FreshEnding(x', total, size);
      var later := CleanFrames(x', total, size, k - 1);
      rounds := [CLEAN] + later;
      assert rounds[1..] == later;
    }
  }

  lemma FreshRoom(x: System, total: seq<byte>, size: nat)
    requires Fresh(x, total, size)
    ensures |x.r.data| + x.r.room == size
  {
  }

  lemma FreshEnding(x: System, total: seq<byte>, size: nat)
    requires Fresh(x, total, size) && |x.r.data| < |total|
    ensures x.s.phase.Sending?
  {
  }

  /** Answered CAN in no run at all. */
  ghost predicate NeverCancels(data: seq<byte>, sp: Packet, size: nat, rp: Packet) {
    forall back, rounds :: PossibleBack(back) && AllPossible(rounds)
      ==> Run(Open(data, sp, size, rp, back), rounds).r.cmd != CAN
  }

  // Clean rounds up to the first frame that does not fit.
  lemma CancelsWhenFull(x: System, total: seq<byte>, size: nat) returns (rounds: seq<Round>)
    requires Fresh(x, total, size) && x.r.data == [] && size < |total|
    ensures AllPossible(rounds) && Run(x, rounds).r.cmd == CAN
  {
    hide Inv, Step, Run, Pending, Classify;
    FreshEnding(x, total, size);
    var k := size / BLOCK;
    rounds := CleanFrames(x, total, size, k);
    var y := Run(x, rounds);
    FreshRoom(y, total, size);
    PendingRoom(y, total, size);
    FrameShape(y, total, size);
    CancelNow(y);
    RunAppend(x, rounds, [CLEAN]);
    RunOne(y, CLEAN);
    rounds := rounds + [CLEAN];
  }

  lemma RunOne(x: System, round: Round)
    ensures Run(x, [round]) == Step(x, round)
  {
    assert [round][1..] == [];
  }

  lemma CancelNow(x: System)
    requires x.r.running && x.s.phase.Sending? && x.s.packet[0] == SOH
      && Classify(x.s.packet, x.r.exp, x.r.room).Cancel?
    ensures Step(x, CLEAN).r.cmd == CAN
  {
    hide Classify, ReceiverAfter;
    var p := ReadsFrame(x);
  }

  // Clean rounds up to frame 255; its acknowledgement is lost, and it comes again.
  lemma CancelsAtWrap(x: System, total: seq<byte>, size: nat) returns (rounds: seq<Round>)
    requires Fresh(x, total, size) && x.r.data == [] && |total| >= BLOCK * 255 && size >= BLOCK * 255
    ensures AllPossible(rounds) && Run(x, rounds).r.cmd == CAN
  {
    hide Inv, Step, Run, Pending, Classify;
    FreshEnding(x, total, size);
    rounds := CleanFrames(x, total, size, 254);
    var y := Run(x, rounds);
    FreshRoom(y, total, size);
    PendingRoom(y, total, size);
    var lost := Round(Passed, Lost);
    WrapNow(y, total, size);
    var z := Step(y, lost);
    CancelNow(z);
    RunTwo(y, lost, CLEAN);
    RunAppend(x, rounds, [lost, CLEAN]);
    rounds := rounds + [lost, CLEAN];
  }

  lemma RunTwo(x: System, a: Round, b: Round)
    ensures Run(x, [a, b]) == Step(Step(x, a), b)
  {
    assert [a, b][1..] == [b];
    RunOne(Step(x, a), b);
  }

  lemma WrapNow(y: System, total: seq<byte>, size: nat)
    requires Fresh(y, total, size) && y.s.phase.Sending? && |y.r.data| == BLOCK * 254
    requires Classify(y.s.packet, y.r.exp, y.r.room).Received?
    ensures var z := Step(y, Round(Passed, Lost));
      && z.r.running && z.s.phase.Sending? && z.s.packet[0] == SOH && Classify(z.s.packet, z.r.exp, z.r.room).Cancel?
  {
    hide ReceiverAfter, Padded, Checked, Crc16.Checks;
    var p := ReadsFrame(y);
  }

  lemma FreshAtOpen(data: seq<byte>, sp: Packet, size: nat, rp: Packet)
    ensures Fresh(Open(data, sp, size, rp, Through), Total(data, sp), size)
    ensures Open(data, sp, size, rp, Through).r.data == []
  {
    hide Framed, Padded, Intact, InStep;
    OpenKeeps(data, sp, size, rp, Through);
    FreshFromInv(Open(data, sp, size, rp, Through), Total(data, sp), size);
  }

  /**
   The receiver cancels in no run exactly when there are at most 254 frames and its buffer
   has room for all of them: from 255 frames on, the repeat of frame 255 is taken for
   a frame out of order.
   */
  lemma NeverCancelsIff(data: seq<byte>, sp: Packet, size: nat, rp: Packet)
    ensures NeverCancels(data, sp, size, rp) <==> Frames(|data|) <= 254 && BLOCK * Frames(|data|) <= size
  {
    hide Run, Open, Padded, Fresh;
    var total := Total(data, sp);
    PaddedShape(data, Payload(sp));
    if Frames(|data|) <= 254 && BLOCK * Frames(|data|) <= size {
      forall back, rounds | PossibleBack(back) && AllPossible(rounds)
        ensures Run(Open(data, sp, size, rp, back), rounds).r.cmd != CAN
      {
        OpenKeeps(data, sp, size, rp, back);
        OpenAnswers(data, sp, size, rp, back);
        RunNeverCancels(Open(data, sp, size, rp, back), total, size, rounds);
      }
    } else {
      var x := Open(data, sp, size, rp, Through);
      FreshAtOpen(data, sp, size, rp);
      var rounds;
      if size < |total| {
        rounds := CancelsWhenFull(x, total, size);
      } else {
        rounds := CancelsAtWrap(x, total, size);
      }
      assert PossibleBack(Through) && Run(x, rounds).r.cmd == CAN;
    }
  }

  lemma OpenAnswers(data: seq<byte>, sp: Packet, size: nat, rp: Packet, back: Backward)
    ensures Open(data, sp, size, rp, back).r.cmd == START
  {
  }

  // ----- when the transfer is sure to succeed -----

  // Up to three tries at a frame, of which the last is free of faults.
  ghost predicate Tries(a: seq<Round>, limit: nat) {
    && 1 <= |a| <= limit && AllPossible(a) && a[|a| - 1] == CLEAN
    && forall i :: 0 <= i < |a| - 1 ==> a[i] != CLEAN
  }

  // Up to three tries at EOT, of which the last is the first to arrive.
  ghost predicate FirstArrival(a: seq<Round>, limit: nat) {
    && 1 <= |a| <= limit && AllPossible(a) && a[|a| - 1] == CLEAN
    && forall i :: 0 <= i < |a| - 1 ==> a[i].out.Disturbed?
  }

  predicate Starts(back: Backward) {
    back.Through? || back == Garbled(START)
  }

  // One of the three 'C's the sender waits for arrives: the opening one or that of a round.
  ghost predicate StartArrives(back: Backward, waits: seq<Round>) {
    && PossibleBack(back) && AllPossible(waits) && |waits| < MAX_RETRANSMIT
    && (waits == [] <==> Starts(back))
    && forall i :: 0 <= i < |waits| ==> (Starts(waits[i].back) <==> i == |waits| - 1)
  }

  function Flatten(a: seq<seq<Round>>): seq<Round> {
    if a == [] then [] else a[0] + Flatten(a[1..])
  }

  lemma FaultyRoundRetries(x: System, total: seq<byte>, size: nat, round: Round)
    requires Inv(x, total, size) && Fits(total, size) && x.r.running && x.s.left > 0 && Possible(round)
    requires (x.s.phase.Sending? && round != CLEAN) || (x.s.phase.Ending? && round.out.Disturbed?)
    ensures var x' := Step(x, round); x'.r.running && x'.s == x.s.(left := x.s.left - 1)
  {
    hide BadArrival, Framed, Intact, ReceiverAfter, Answer, Response, Padded, Classify, Fits;
    if round.out.Disturbed? {
      var p := ReadsBad(x, round.out);
      NoAck(Take(x.r, Bad, p), true, round.back);
    } else {
      PendingFits(x, total, size);
      var p := ReadsFrame(x);
      NoAck(ReceiverAfter(x, Passed), true, round.back);
    }
  }

  lemma {:induction false} FrameGetsThrough(x: System, total: seq<byte>, size: nat, a: seq<Round>)
    requires Inv(x, total, size) && Fits(total, size) && x.r.running && x.s.phase.Sending?
    requires Tries(a, x.s.left + 1)
    ensures var y := Run(x, a); Fresh(y, total, size) && y.s.todo == Rest(x.s)
    decreases |a|
  {
    hide Fits, Step, Classify, InStep;
    if |a| == 1 {
      assert a == [CLEAN];
      RunOne(x, CLEAN);
      FrameInStep(x, total, size);
      PendingFits(x, total, size);
      CleanFrame(x, total, size);
    } else {
      FaultyRoundRetries(x, total, size, a[0]);
      StepKeeps(x, total, size, a[0]);
      FrameGetsThrough(Step(x, a[0]), total, size, a[1..]);
    }
  }

  lemma FrameInStep(x: System, total: seq<byte>, size: nat)
    requires Inv(x, total, size) && x.r.running && x.s.phase.Sending?
    ensures Pending(x, total) || Taken(x, total)
  {
  }

  ghost predicate Finished(y: System, total: seq<byte>) {
    && y.s.phase == Sent(((1 + |total| / BLOCK) % 0x100 - 1) * BLOCK)
    && !y.r.running && y.r.data == total && y.r.ret == |total|
  }

  lemma CleanEnd(x: System, total: seq<byte>, size: nat)
    requires Inv(x, total, size) && x.r.running && x.s.phase.Ending?
    ensures var y := Step(x, CLEAN); Finished(y, total)
  {
    hide ReceiverAfter, Padded;
    ReadsEnd(x);
  }

  lemma {:induction false} EndGetsThrough(x: System, total: seq<byte>, size: nat, a: seq<Round>)
    requires Inv(x, total, size) && Fits(total, size) && x.r.running && x.s.phase.Ending?
    requires FirstArrival(a, x.s.left + 1)
    ensures var y := Run(x, a); Finished(y, total)
    decreases |a|
  {
    hide Fits, Step, InStep;
    if |a| == 1 {
      assert a == [CLEAN];
      RunOne(x, CLEAN);
      CleanEnd(x, total, size);
    } else {
      FaultyRoundRetries(x, total, size, a[0]);
      StepKeeps(x, total, size, a[0]);
      EndGetsThrough(Step(x, a[0]), total, size, a[1..]);
    }
  }

  lemma {:induction false} FramesGetThrough(x: System, total: seq<byte>, size: nat, frames: seq<seq<Round>>)
    requires Fresh(x, total, size) && Fits(total, size)
    requires |frames| == Frames(|x.s.todo|)
    requires forall i :: 0 <= i < |frames| ==> Tries(frames[i], MAX_RETRANSMIT)
    ensures var y := Run(x, Flatten(frames)); Fresh(y, total, size) && y.s.phase.Ending?
    decreases |frames|
  {
    hide Inv, Fits, Step, Run, Pending, Tries;
    if frames == [] {
      EmptyRun(x);
      FreshTodo(x, total, size);
    } else {
      FreshTodo(x, total, size);
      FrameGetsThrough(x, total, size, frames[0]);
      var y := Run(x, frames[0]);
      RunAppend(x, frames[0], Flatten(frames[1..]));
      FreshTodo(y, total, size);
      FramesOfRest(x.s.todo);
      FramesGetThrough(y, total, size, frames[1..]);
    }
  }

  lemma EmptyRun(x: System)
    ensures Run(x, []) == x
  {
  }

  lemma FreshTodo(x: System, total: seq<byte>, size: nat)
    requires Fresh(x, total, size)
    ensures x.s.phase.Sending? <==> x.s.todo != []
    ensures x.s.phase.Sending? || x.s.phase.Ending?
    ensures Inv(x, total, size) && x.r.running
  {
  }

  lemma FramesOfRest(todo: seq<byte>)
    requires todo != []
    ensures Frames(|todo|) == 1 + Frames(|todo| - ChunkLength(todo))
  {
  }

  lemma WaitRound(x: System, total: seq<byte>, size: nat, round: Round)
    requires Inv(x, total, size) && x.r.running && x.s.phase.Waiting? && Possible(round)
    requires x.s.left > 0 || Starts(round.back)
    ensures var x' := Step(x, round);
      && x'.r.running && x'.s.todo == x.s.todo
      && if Starts(round.back) then x'.s == Begin(x.s.todo, 1, x.s.packet) else x'.s == x.s.(left := x.s.left - 1)
  {
    hide BadArrival, Framed, Intact, ReceiverAfter, Padded;
    var p := ReadsBad(x, round.out);
  }

  lemma {:induction false} StartGetsThrough(x: System, total: seq<byte>, size: nat, waits: seq<Round>)
    requires Inv(x, total, size) && x.r.running && x.s.phase.Waiting?
    requires 1 <= |waits| <= x.s.left + 1 && AllPossible(waits)
    requires forall i :: 0 <= i < |waits| ==> (Starts(waits[i].back) <==> i == |waits| - 1)
    ensures var y := Run(x, waits); Fresh(y, total, size) && y.s.todo == x.s.todo
    decreases |waits|
  {
    hide Step, InStep, Possible, Starts, Framed;
    var x' := Step(x, waits[0]);
    WaitRound(x, total, size, waits[0]);
    StepKeeps(x, total, size, waits[0]);
    if |waits| == 1 {
      FreshFromInv(x', total, size);
      EmptyRun(x');
    } else {
      StartGetsThrough(x', total, size, waits[1..]);
    }
  }

  lemma WaitsGetThrough(data: seq<byte>, sp: Packet, size: nat, rp: Packet, back: Backward, waits: seq<Round>)
    requires StartArrives(back, waits)
    ensures var y := Run(Open(data, sp, size, rp, back), waits);
      Fresh(y, Total(data, sp), size) && y.s.todo == data
  {
    hide Padded, Inv, Fresh, Possible, Framed;
    var x := Open(data, sp, size, rp, back);
    OpenKeeps(data, sp, size, rp, back);
    if waits == [] {
      EmptyRun(x);
      FreshFromInv(x, Total(data, sp), size);
    } else {
      StartGetsThrough(x, Total(data, sp), size, waits);
    }
  }

  /**
   Liveness. If one of the three 'C's arrives, each frame has one try among three free of
   faults, and EOT arrives within three tries with its first acknowledgement, both sides
   end in success with all the data, however the other rounds go.
   */
  lemma SureSuccess(data: seq<byte>, sp: Packet, size: nat, rp: Packet, back: Backward, waits: seq<Round>,
                    frames: seq<seq<Round>>, ending: seq<Round>)
    requires Frames(|data|) <= 254 && BLOCK * Frames(|data|) <= size
    requires StartArrives(back, waits)
    requires |frames| == Frames(|data|) && forall i :: 0 <= i < |frames| ==> Tries(frames[i], MAX_RETRANSMIT)
    requires FirstArrival(ending, MAX_RETRANSMIT)
    ensures var y, total := Run(Open(data, sp, size, rp, back), waits + (Flatten(frames) + ending)), Total(data, sp);
      && y.s.phase == Sent(BLOCK * Frames(|data|))
      && !y.r.running && y.r.ret == BLOCK * Frames(|data|) && y.r.data == total && data <= total
  {
    hide Run, Open, Padded, Inv, Tries, StartArrives, FirstArrival, Possible, Pending;
    var total := Total(data, sp);
    PaddedShape(data, Payload(sp));
    WaitsGetThrough(data, sp, size, rp, back, waits);
    var x := Open(data, sp, size, rp, back);
    var y := Run(x, waits);
    RunAppend(x, waits, Flatten(frames) + ending);
    FramesGetThrough(y, total, size, frames);
    RunAppend(y, Flatten(frames), ending);
    EndGetsThrough(Run(y, Flatten(frames)), total, size, ending);
    ReturnArithmetic(Frames(|data|), (1 + Frames(|data|)) % 0x100);
  }

  // ----- what the sender returns -----

  // Clean rounds to the end, however many frames there are.
  lemma CleanRun(data: seq<byte>, sp: Packet, size: nat, rp: Packet) returns (rounds: seq<Round>)
    requires BLOCK * Frames(|data|) <= size
    ensures AllPossible(rounds)
    ensures Run(Open(data, sp, size, rp, Through), rounds).s.phase
      == Sent(((1 + Frames(|data|)) % 0x100 - 1) * BLOCK)
  {
    hide Inv, Step, Run, Open, Pending, Classify, Padded;
    var x, total := Open(data, sp, size, rp, Through), Total(data, sp);
    PaddedShape(data, Payload(sp));
    FreshAtOpen(data, sp, size, rp);
    rounds := [];
    EmptyRun(x);
    if data != [] {
      FreshEnding(x, total, size);
      rounds := CleanFrames(x, total, size, Frames(|data|) - 1);
      var y := Run(x, rounds);
      FreshRoom(y, total, size);
      PendingRoom(y, total, size);
      CleanFrame(y, total, size);
      RunAppend(x, rounds, [CLEAN]);
      RunOne(y, CLEAN);
      rounds := rounds + [CLEAN];
    }
    var z := Run(x, rounds);
    FreshFull(z, total, size);
    CleanEnd(z, total, size);
    RunAppend(x, rounds, [CLEAN]);
    RunOne(z, CLEAN);
    rounds := rounds + [CLEAN];
  }

  lemma FreshFull(x: System, total: seq<byte>, size: nat)
    requires Fresh(x, total, size) && |x.r.data| == |total|
    ensures x.s.phase.Ending?
  {
    hide Inv, Padded;
  }

  // A sender that succeeds returns the number of bytes it has sent, in every run.
  ghost predicate ReturnsLength(data: seq<byte>, sp: Packet, size: nat, rp: Packet) {
    forall back, rounds | PossibleBack(back) && AllPossible(rounds) ::
      var x := Run(Open(data, sp, size, rp, back), rounds);
      x.s.phase.Sent? ==> x.s.phase.ret == BLOCK * Frames(|data|)
  }

  /**
   That holds exactly up to 254 frames, or where the receiver has no room for them and no
   sender succeeds: with room, a run without faults reaches the wrong value for every
   greater number, and -128 for 255.
   */
  lemma ReturnsLengthIff(data: seq<byte>, sp: Packet, size: nat, rp: Packet)
    ensures ReturnsLength(data, sp, size, rp) <==> Frames(|data|) <= 254 || size < BLOCK * Frames(|data|)
  {
    hide Run, Open, Padded, PossibleBack;
    var n := Frames(|data|);
    assert PossibleBack(Through) by { ThroughIsPossible(); }
    if n <= 254 || size < BLOCK * n {
      forall back, rounds | PossibleBack(back) && AllPossible(rounds)
        ensures var x := Run(Open(data, sp, size, rp, back), rounds);
          x.s.phase.Sent? ==> x.s.phase.ret == BLOCK * n
      {
        if Run(Open(data, sp, size, rp, back), rounds).s.phase.Sent? {
          SenderReturns(data, sp, size, rp, back, rounds);
          SuccessHasRoom(data, sp, size, rp, back, rounds);
        }
      }
    } else {
      var rounds := CleanRun(data, sp, size, rp);
      ReturnArithmetic(n, (1 + n) % 0x100);
      assert Run(Open(data, sp, size, rp, Through), rounds).s.phase.ret != BLOCK * n;
    }
  }

  lemma ThroughIsPossible()
    ensures PossibleBack(Through)
  {
  }

  lemma SuccessHasRoom(data: seq<byte>, sp: Packet, size: nat, rp: Packet, back: Backward, rounds: seq<Round>)
    requires PossibleBack(back) && AllPossible(rounds)
    requires Run(Open(data, sp, size, rp, back), rounds).s.phase.Sent?
    ensures BLOCK * Frames(|data|) <= size
  {
    hide Run, Open, Padded;
    Reachable(data, sp, size, rp, back, rounds);
    Agreement(data, sp, size, rp, back, rounds);
  }

  // ----- the runs of the code -----

  // What each party has read after some rounds, as a script.
  function SenderHears(x: System, rounds: seq<Round>): Script
    decreases |rounds|
  {
    if rounds == [] || x.s.Done() then []
    else
      Answer(ReceiverAfter(x, rounds[0].out), x.r.running, rounds[0].back)
      + SenderHears(Step(x, rounds[0]), rounds[1..])
  }

  function ReceiverHears(x: System, rounds: seq<Round>): Script
    decreases |rounds|
  {
    if rounds == [] || !x.r.running then []
    else Arrival(x.s, rounds[0].out) + ReceiverHears(Step(x, rounds[0]), rounds[1..])
  }

  // What each party has put on the line in them.
  function SenderSays(x: System, rounds: seq<Round>): seq<byte>
    decreases |rounds|
  {
    if rounds == [] || x.s.Done() then [] else x.s.Emitted() + SenderSays(Step(x, rounds[0]), rounds[1..])
  }

  function ReceiverSays(x: System, rounds: seq<Round>): seq<byte>
    decreases |rounds|
  {
    if rounds == [] || !x.r.running then [] else [x.r.cmd] + ReceiverSays(Step(x, rounds[0]), rounds[1..])
  }

  lemma {:induction false} DoneStays(x: System, rounds: seq<Round>)
    ensures x.s.Done() ==> Run(x, rounds).s == x.s
    ensures !x.r.running ==> Run(x, rounds).r == x.r
    decreases |rounds|
  {
    if rounds != [] {
      DoneStays(Step(x, rounds[0]), rounds[1..]);
    }
  }

  lemma {:induction false} SenderTrace(x: System, rounds: seq<Round>, rest: Script)
    requires x.s.left < MAX_RETRANSMIT
    ensures Run(x, rounds).s.left < MAX_RETRANSMIT
    ensures var run, now := Transmit(x.s, SenderHears(x, rounds) + rest), Transmit(Run(x, rounds).s, rest);
      run.final == now.final && run.rest == now.rest && run.sent == SenderSays(x, rounds) + now.sent
    decreases |rounds|
  {
    hide ReceiverAfter, Answer, React, Response, Transmit;
    if rounds == [] || x.s.Done() {
      DoneStays(x, rounds);
      if x.s.Done() {
        StaysDone(x.s, rest);
      }
      assert SenderHears(x, rounds) + rest == rest;
    } else {
      var a := Answer(ReceiverAfter(x, rounds[0].out), x.r.running, rounds[0].back);
      var later := SenderHears(Step(x, rounds[0]), rounds[1..]);
      assert (a + later) + rest == a + (later + rest);
      TransmitOne(x.s, a, later + rest);
      SenderTrace(Step(x, rounds[0]), rounds[1..], rest);
    }
  }

  lemma StaysDone(s: Sender, rest: Script)
    requires s.Done() && s.left < MAX_RETRANSMIT
    ensures Transmit(s, rest) == SenderRun(s, [], 0, rest)
  {
  }

  lemma TransmitOne(s: Sender, a: Script, rest: Script)
    requires !s.Done() && s.left < MAX_RETRANSMIT && |a| == 1
    ensures React(s, Response(a)).left < MAX_RETRANSMIT
    ensures var run, later := Transmit(s, a + rest), Transmit(React(s, Response(a)), rest);
      run.final == later.final && run.rest == later.rest && run.sent == s.Emitted() + later.sent
  {
    hide Framed;
    assert (a + rest)[0] == a[0] && (a + rest)[1..] == rest;
  }

  lemma ArrivalReads(x: System, total: seq<byte>, size: nat, round: Round, rest: Script)
    requires Inv(x, total, size) && x.r.running && Possible(round)
    ensures ReceiverStep(x.r, Arrival(x.s, round.out) + rest) == (ReceiverAfter(x, round.out), rest)
  {
    hide ReadPkt, Intact, BadArrival, Padded, Take;
    var e := Arrival(x.s, round.out);
    if round.out.Disturbed? || x.s.Emitted() == [] {
      assert BadArrival(e) by { SilenceIsBad(); }
      BadArrivalIsBad(x.r.packet, x.r.exp, x.r.room, e, rest);
    } else if x.s.phase.Ending? {
      EndArrives(x.r.packet, x.r.exp, x.r.room, rest);
      EndArrives(x.r.packet, x.r.exp, x.r.room, []);
      assert e + [] == e;
    } else {
      FrameShape(x, total, size);
      PacketArrives(x.r.packet, x.r.exp, x.r.room, x.s.packet, rest);
      PacketArrives(x.r.packet, x.r.exp, x.r.room, x.s.packet, []);
      assert e + [] == e;
    }
  }

  lemma {:induction false} ReceiverTrace(x: System, total: seq<byte>, size: nat, rounds: seq<Round>, rest: Script)
    requires Inv(x, total, size) && AllPossible(rounds)
    ensures var run, now := Receive(x.r, ReceiverHears(x, rounds) + rest), Receive(Run(x, rounds).r, rest);
      run.final == now.final && run.rest == now.rest && run.sent == ReceiverSays(x, rounds) + now.sent
    decreases |rounds|
  {
    hide Inv, Possible, ReceiverAfter, Arrival, ReceiverStep;
    if rounds == [] || !x.r.running {
      DoneStays(x, rounds);
      assert ReceiverHears(x, rounds) + rest == rest;
    } else {
      var e := Arrival(x.s, rounds[0].out);
      var x' := Step(x, rounds[0]);
      var later := ReceiverHears(x', rounds[1..]);
      assert (e + later) + rest == e + (later + rest);
      ArrivalReads(x, total, size, rounds[0], later + rest);
      StepKeeps(x, total, size, rounds[0]);
      ReceiverTrace(x', total, size, rounds[1..], rest);
    }
  }

  // The sender's whole script, with the fate of the opening 'C' in front.
  function SenderScript(data: seq<byte>, sp: Packet, size: nat, rp: Packet, back: Backward,
      rounds: seq<Round>): Script {
    Answer(ReceiverStart(size, rp), true, back) + SenderHears(Open(data, sp, size, rp, back), rounds)
  }

  /**
   The rounds are runs of the two functions: given the scripts of what it hears in them,
   each function ends in the state its party ends in, having read exactly its script and
   put exactly its side of the rounds on the line.
   */
  lemma RoundsAreRuns(data: seq<byte>, sp: Packet, size: nat, rp: Packet, back: Backward, rounds: seq<Round>,
      rest: Script)
    requires PossibleBack(back) && AllPossible(rounds)
    ensures var x := Run(Open(data, sp, size, rp, back), rounds);
      && (x.s.Done() ==>
          var run := Transmit(SenderStart(data, sp), SenderScript(data, sp, size, rp, back, rounds) + rest);
          run.final == x.s && run.rest == rest && run.sent == SenderSays(Open(data, sp, size, rp, back), rounds))
      && (!x.r.running ==>
          var run := Receive(ReceiverStart(size, rp), ReceiverHears(Open(data, sp, size, rp, back), rounds) + rest);
          run.final == x.r && run.rest == rest
          && run.sent == ReceiverSays(Open(data, sp, size, rp, back), rounds) + [x.r.cmd])
  {
    hide Inv, Run, SenderHears, ReceiverHears, SenderSays, ReceiverSays, Framed;
    var x := Open(data, sp, size, rp, back);
    OpenKeeps(data, sp, size, rp, back);
    var a := Answer(ReceiverStart(size, rp), true, back);
    var later := SenderHears(x, rounds);
    assert ((a + later) + rest)[0] == a[0] && ((a + later) + rest)[1..] == later + rest;
    OpenLeft(data, sp, size, rp, back);
    SenderTrace(x, rounds, rest);
    ReceiverTrace(x, Total(data, sp), size, rounds, rest);
  }

  lemma OpenLeft(data: seq<byte>, sp: Packet, size: nat, rp: Packet, back: Backward)
    ensures Open(data, sp, size, rp, back).s.left < MAX_RETRANSMIT
  {
  }

  // ----- what the receiver reads as bad, on any script -----

  // Draining takes the bytes up to the first timeout, or everything.
  lemma {:induction false} DrainedShape(script: Script)
    ensures |Drain(script)| <= |script|
    ensures var k := |script| - |Drain(script)|;
      && script[k..] == Drain(script)
      && (BytesThenTimeout(script[..k]) || (Drain(script) == [] && BytesThenTimeout(script + [Timeout])))
    decreases |script|
  {
    if script != [] && script[0].Byte? {
      var tail := script[1..];
      DrainedShape(tail);
      var k := |tail| - |Drain(tail)|;
      assert script[..k + 1] == [script[0]] + tail[..k];
      assert script + [Timeout] == [script[0]] + (tail + [Timeout]);
    }
  }

  // Filling stops at the first timeout, at the end of the script, or when it is full.
  ghost predicate Consumed(pos: nat, script: Script, rest: Script) {
    && |rest| <= |script| && script[|script| - |rest|..] == rest
    && (|| (|script| - |rest| + pos <= PACKET && BytesThenTimeout(script[..|script| - |rest|]))
        || (rest == [] && |script| + 1 + pos <= PACKET && BytesThenTimeout(script + [Timeout])))
  }

  lemma {:induction false} CutShort(p: Packet, pos: nat, script: Script)
    requires pos <= PACKET && !Fill(p, pos, script).complete
    ensures Consumed(pos, script, Fill(p, pos, script).rest)
    decreases PACKET - pos
  {
    if script != [] && script[0].Byte? {
      var tail := script[1..];
      var p' := p[pos := script[0].b];
      CutShort(p', pos + 1, tail);
      ConsumedMore(pos, script, Fill(p', pos + 1, tail).rest);
    } else if script != [] {
      assert script[..1] == [Timeout];
    }
  }

  lemma ConsumedMore(pos: nat, script: Script, rest: Script)
    requires script != [] && script[0].Byte? && Consumed(pos + 1, script[1..], rest)
    ensures Consumed(pos, script, rest)
  {
    var tail := script[1..];
    var k := |tail| - |rest|;
    assert script[..k + 1] == [script[0]] + tail[..k];
    assert script + [Timeout] == [script[0]] + (tail + [Timeout]);
  }

  lemma {:induction false} FilledUp(p: Packet, pos: nat, script: Script)
    requires pos <= PACKET && Fill(p, pos, script).complete
    ensures var f := Fill(p, pos, script);
      script == Bytes(f.packet[pos..]) + f.rest && f.packet[..pos] == p[..pos]
    decreases PACKET - pos
  {
    if pos < PACKET {
      var f := Fill(p, pos, script);
      FilledUp(p[pos := script[0].b], pos + 1, script[1..]);
      assert f.packet[pos] == f.packet[..pos + 1][pos] == script[0].b;
      assert Bytes(f.packet[pos..]) == [script[0]] + Bytes(f.packet[pos + 1..]);
      assert f.packet[..pos] == f.packet[..pos + 1][..pos] == p[..pos];
      assert script == [script[0]] + script[1..];
    } else {
      assert Bytes(p[pos..]) + script == script;
    }
  }

  lemma DrainedConsumed(script: Script)
    requires script != [] && script[0].Byte? && script[0] != Byte(SOH) && script[0] != Byte(EOT)
    ensures BadHead(script, Drain(script[1..]))
  {
    hide Intact;
    var tail := script[1..];
    DrainedShape(tail);
    var k := |tail| - |Drain(tail)|;
    assert script[..k + 1] == [script[0]] + tail[..k];
    assert script + [Timeout] == [script[0]] + (tail + [Timeout]);
  }

  // The script begins with a bad arrival and goes on with rest, or it is one with the
  // silence after its end.
  ghost predicate BadHead(script: Script, rest: Script) {
    && |rest| <= |script| && script[|script| - |rest|..] == rest
    && (BadArrival(script[..|script| - |rest|]) || (rest == [] && BadArrival(script + [Timeout])))
  }

  lemma CutShortIsBad(script: Script, rest: Script)
    requires script != [] && script[0] == Byte(SOH) && Consumed(1, script[1..], rest)
    ensures BadHead(script, rest)
  {
    hide Intact;
    var tail := script[1..];
    var k := |tail| - |rest|;
    assert script[..k + 1] == [script[0]] + tail[..k];
    assert script + [Timeout] == [script[0]] + (tail + [Timeout]);
  }

  lemma FirstByteIsFree(p: Packet, q: Packet)
    requires p[1..] == q[1..]
    ensures Intact(p) == Intact(q)
  {
    hide Crc16.Checks;
    assert p[1] == p[1..][0] && p[2] == p[1..][1] && q[1] == q[1..][0] && q[2] == q[1..][1];
    assert Checked(p) == p[1..][2..] && Checked(q) == q[1..][2..];
  }

  lemma FailedIsBad(script: Script, q: Packet, rest: Script)
    requires script != [] && script[0] == Byte(SOH) && q[0] == SOH && !Intact(q) && script[1..] == Bytes(q[1..]) + rest
    ensures BadHead(script, rest)
  {
    hide Intact;
    assert script == Bytes(q) + rest;
    assert script[..|script| - |rest|] == Bytes(q);
  }

  /**
   The converse: on any script, whatever the receiver reads as a bad packet is one of
   these arrivals, or would be with the silence after the script's end.
   */
  lemma BadIsBadArrival(p: Packet, exp: byte, room: nat, script: Script)
    requires ReadPkt(p, exp, room, script).status.Bad?
    ensures BadHead(script, ReadPkt(p, exp, room, script).rest)
  {
    hide Intact, Consumed, Drain;
    if script != [] && script[0] == Byte(SOH) {
      var f := Fill(p, 1, script[1..]);
      if f.complete {
        FilledUp(p, 1, script[1..]);
        var q := [SOH] + f.packet[1..];
        assert q[1..] == f.packet[1..];
        FirstByteIsFree(f.packet, q);
        FailedIsBad(script, q, f.rest);
      } else {
        CutShort(p, 1, script[1..]);
        CutShortIsBad(script, f.rest);
      }
    } else if script != [] && script[0].Byte? {
      DrainedConsumed(script);
    } else if script != [] {
      assert script[..1] == [Timeout];
    }
  }
}
