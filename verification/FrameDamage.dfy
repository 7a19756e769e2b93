/**
 Which damage to a frame the receiver of src/qda/xmodem.c notices. The two number bytes
 are checked against each other, payload and check field by the CRC, and no check covers
 both.
 */
module FrameDamage {
  import opened Gf2
  import opened Words
  import opened XmodemProtocol
  import opened StopAndWait
  import Crc16

  // What changes one byte into another.
  function Pattern(a: byte, b: byte): (p: Bits)
    ensures |p| == 8
  {
    Xor(HighBits(a, 8), HighBits(b, 8))
  }

  // What changes payload and check field of one frame into those of another.
  function CheckedPattern(sent: Packet, got: Packet): (p: Bits)
    ensures |p| == 8 * (BLOCK + 2)
  {
    Xor(Crc16.DataBits(Checked(sent)), Crc16.DataBits(Checked(got)))
  }

  lemma NumbersAgreeIff(s1: byte, s2: byte, g1: byte, g2: byte)
    requires s1 as int == 0xFF - s2 as int
    ensures g1 as int == 0xFF - g2 as int <==> Pattern(s1, g1) == Pattern(s2, g2)
  {
    hide HighBits, Pow2;
    Pow2Values();
    HighBitsOfComplement(s2, 8);
    HighBitsOfComplement(g2, 8);
    var x, y, z := HighBits(g1, 8), HighBits(g2, 8), HighBits(0xFF - g2 as nat, 8);
    if Pattern(s1, g1) == Pattern(s2, g2) {
      forall i | 0 <= i < 8 ensures x[i] == z[i] {
        assert Pattern(s1, g1)[i] == Pattern(s2, g2)[i];
      }
      assert x == z;
      HighBitsInjective(g1, 0xFF - g2 as nat, 8);
    }
  }

  lemma CheckPassesIff(sent: Packet, got: Packet)
    requires Crc16.Checks(Checked(sent))
    ensures Crc16.Checks(Checked(got)) <==> Divide(Crc16.Poly(), Zeros(16), CheckedPattern(sent, got)) == Zeros(16)
  {
    hide Crc16.Poly, Crc16.Checks, Crc16.DataBits, Divide;
    Crc16.ChecksIffDivides(Checked(sent));
    Crc16.ChecksIffDivides(Checked(got));
    SumDividesIffSame(Crc16.Poly(), Crc16.DataBits(Checked(sent)), Crc16.DataBits(Checked(got)));
  }

  // Among the bad arrivals, those of 133 bytes without a timeout are the packets that fail the checks.
  lemma WholePacketIsBadIff(got: Packet)
    requires got[0] == SOH
    ensures BadArrival(Bytes(got)) <==> !Intact(got)
  {
    hide Intact;
    var e := Bytes(got);
    assert |e| == PACKET && e[|e| - 1].Byte?;
    if q: Packet :| q[0] == SOH && e == Bytes(q) && !Intact(q) {
      forall i | 0 <= i < PACKET ensures q[i] == got[i] {
        assert Bytes(q)[i] == Byte(q[i]) && e[i] == Byte(got[i]);
      }
      assert q == got;
    }
  }

  /**
   What the receiver notices, exactly: a frame with its SOH reads as bad if and only if
   its two number bytes have been changed differently, or what has changed payload and check
   field is no multiple of the generator.
   */
  lemma FrameReadsBadIff(sent: Packet, got: Packet)
    requires Intact(sent) && got[0] == SOH
    ensures BadArrival(Bytes(got)) <==>
      || Pattern(sent[1], got[1]) != Pattern(sent[2], got[2])
      || Divide(Crc16.Poly(), Zeros(16), CheckedPattern(sent, got)) != Zeros(16)
  {
    hide BadArrival, Crc16.Checks, Crc16.Poly, Divide, Pattern, CheckedPattern;
    WholePacketIsBadIff(got);
    NumbersAgreeIff(sent[1], sent[2], got[1], got[2]);
    CheckPassesIff(sent, got);
  }

  /** Damage to the number bytes alone is noticed exactly if the two have been changed differently. */
  lemma HeaderReadsBadIff(sent: Packet, got: Packet)
    requires Intact(sent) && got[0] == SOH && got[3..] == sent[3..]
    ensures BadArrival(Bytes(got)) <==> Pattern(sent[1], got[1]) != Pattern(sent[2], got[2])
  {
    hide BadArrival, Crc16.Checks, Crc16.Poly, Crc16.DataBits, Divide, Pattern;
    FrameReadsBadIff(sent, got);
    XorLaws(Crc16.DataBits(Checked(sent)));
    DivideZeros(Crc16.Poly(), 8 * (BLOCK + 2));
  }

  // ----- bursts and odd errors, over the whole frame after its SOH -----

  function NumberBits(p: Packet): (bits: Bits)
    ensures |bits| == 16
  {
    HighBits(p[1], 8) + HighBits(p[2], 8)
  }

  function FrameBits(p: Packet): (bits: Bits)
    ensures |bits| == 8 * (PACKET - 1)
  {
    NumberBits(p) + Crc16.DataBits(Checked(p))
  }

  lemma {:induction false} DistanceAppend(a: Bits, b: Bits, c: Bits, d: Bits)
    requires |a| == |c| && |b| == |d|
    ensures Distance(a + b, c + d) == Distance(a, c) + Distance(b, d)
    decreases |a|
  {
    if a == [] {
      assert a + b == b && c + d == d;
    } else {
      assert (a + b)[1..] == a[1..] + b && (c + d)[1..] == c[1..] + d;
      DistanceAppend(a[1..], b, c[1..], d);
    }
  }

  lemma {:induction false} SamePatternSameDistance(a: Bits, b: Bits, c: Bits, d: Bits)
    requires |a| == |b| == |c| == |d| && Xor(a, b) == Xor(c, d)
    ensures Distance(a, b) == Distance(c, d)
    decreases |a|
  {
    if a != [] {
      assert Xor(a, b)[0] == Xor(c, d)[0];
      assert Xor(a[1..], b[1..]) == Xor(a, b)[1..] == Xor(c[1..], d[1..]);
      SamePatternSameDistance(a[1..], b[1..], c[1..], d[1..]);
    }
  }

  // Number bytes changed alike differ in bits 8 apart, and so in an even number of them and
  // in no 8 consecutive ones alone.
  lemma ChangedAlike(sent: Packet, got: Packet, lo: nat)
    requires Pattern(sent[1], got[1]) == Pattern(sent[2], got[2])
    ensures Distance(NumberBits(sent), NumberBits(got)) % 2 == 0
    ensures SameOutside(NumberBits(sent), NumberBits(got), lo, lo + 8) ==> NumberBits(sent) == NumberBits(got)
  {
    hide HighBits, Distance;
    var s1, s2, g1, g2 := HighBits(sent[1], 8), HighBits(sent[2], 8), HighBits(got[1], 8), HighBits(got[2], 8);
    DistanceAppend(s1, s2, g1, g2);
    SamePatternSameDistance(s1, g1, s2, g2);
    var n, m := NumberBits(sent), NumberBits(got);
    if SameOutside(n, m, lo, lo + 8) {
      forall i | 0 <= i < 16 ensures n[i] == m[i] {
        var k := i % 8;
        assert Xor(s1, g1)[k] == Xor(s2, g2)[k];
        assert n[k] == s1[k] && n[k + 8] == s2[k] && m[k] == g1[k] && m[k + 8] == g2[k];
      }
      assert n == m;
    }
  }

  // An odd number of wrong bits in the two number bytes, or a burst of at most 8 of them.
  lemma NumbersChangedDifferently(sent: Packet, got: Packet, lo: nat)
    requires
      || Distance(NumberBits(sent), NumberBits(got)) % 2 == 1
      || (NumberBits(sent) != NumberBits(got) && SameOutside(NumberBits(sent), NumberBits(got), lo, lo + 8))
    ensures Pattern(sent[1], got[1]) != Pattern(sent[2], got[2])
  {
    hide NumberBits, Distance, Pattern;
    if Pattern(sent[1], got[1]) == Pattern(sent[2], got[2]) {
      ChangedAlike(sent, got, lo);
      assert false;
    }
  }

  /**
   An odd number of wrong bits anywhere after SOH is noticed, and so is a burst of at most
   8 bits anywhere there, or of at most 16 in payload and check field.
   */
  lemma DamageIsNoticed(sent: Packet, got: Packet, lo: nat)
    requires Intact(sent) && got[0] == SOH
    requires
      || Distance(FrameBits(sent), FrameBits(got)) % 2 == 1
      || (FrameBits(sent) != FrameBits(got) && SameOutside(FrameBits(sent), FrameBits(got), lo, lo + 8))
      || (&& Crc16.DataBits(Checked(sent)) != Crc16.DataBits(Checked(got))
          && SameOutside(Crc16.DataBits(Checked(sent)), Crc16.DataBits(Checked(got)), lo, lo + 16))
    ensures BadArrival(Bytes(got))
  {
    hide BadArrival, Crc16.Checks, Crc16.Poly, Crc16.DataBits, Divide, Pattern, CheckedPattern, Distance, NumberBits;
    FrameReadsBadIff(sent, got);
    CheckPassesIff(sent, got);
    var n, m, c, d := NumberBits(sent), NumberBits(got), Crc16.DataBits(Checked(sent)), Crc16.DataBits(Checked(got));
    if Distance(n + c, m + d) % 2 == 1 {
      DistanceAppend(n, c, m, d);
      if Distance(n, m) % 2 == 1 {
        NumbersChangedDifferently(sent, got, lo);
      } else {
        Crc16.OddErrorDetected(Checked(sent), Checked(got));
      }
    } else if c != d && SameOutside(c, d, lo, lo + 16) {
      CheckedBurst(sent, got, lo);
    } else if n != m {
      forall i | 0 <= i < 16 && !(lo <= i < lo + 8) ensures n[i] == m[i] {
        assert (n + c)[i] == (m + d)[i];
      }
      NumbersChangedDifferently(sent, got, lo);
    } else {
      var at := if lo < 16 then 0 else lo - 16;
      forall i | 0 <= i < |c| && !(at <= i < at + 16) ensures c[i] == d[i] {
        assert (n + c)[16 + i] == (m + d)[16 + i];
      }
      CheckedBurst(sent, got, at);
    }
  }

  // A window that goes past the end is one that ends there.
  lemma CheckedBurst(sent: Packet, got: Packet, lo: nat)
    requires Crc16.Checks(Checked(sent))
    requires Crc16.DataBits(Checked(sent)) != Crc16.DataBits(Checked(got))
    requires SameOutside(Crc16.DataBits(Checked(sent)), Crc16.DataBits(Checked(got)), lo, lo + 16)
    ensures !Crc16.Checks(Checked(got))
  {
    hide Crc16.Checks, Crc16.DataBits;
    var end := 8 * (BLOCK + 2) - 16;
    Crc16.BurstDetected(Checked(sent), Checked(got), if lo < end then lo else end);
  }

  // ----- the shortest burst that passes -----

  /**
   A burst of 9 bits over the two number bytes need not be noticed, and one of 10 can lose
   a frame: frame 2 with the number of frame 1 is taken for its repeat, so it is
   acknowledged and its payload dropped.
   */
  lemma HeaderBurstPasses(p: Packet, chunk: seq<byte>, room: nat)
    requires |chunk| <= BLOCK && room >= BLOCK
    ensures var sent := Framed(p, chunk, 2);
      var got, nine := sent[1 := 1][2 := 0xFE], sent[1 := 3][2 := 0xFC];
      && Classify(sent, 2, room) == Received && Classify(got, 2, room) == Duplicate
      && SameOutside(FrameBits(sent), FrameBits(got), 6, 16)
      && Intact(nine) && SameOutside(FrameBits(sent), FrameBits(nine), 7, 16)
  {
    hide Crc16.Checks, Crc16.DataBits, Framed, HighBits;
    var sent := Framed(p, chunk, 2);
    var got, nine := sent[1 := 1][2 := 0xFE], sent[1 := 3][2 := 0xFC];
    FramedIsIntact(p, chunk, 2);
    assert Checked(got) == Checked(sent) && Checked(nine) == Checked(sent);
    HighBitsSplit(1, 8);
    HighBitsSplit(2, 8);
    HighBitsSplit(3, 8);
    HighBitsSplit(0, 7);
    HighBitsSplit(1, 7);
  }
}
