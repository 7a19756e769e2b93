/**
 The frame check of XMODEM-CRC: division by the generator x^16 + x^12 + x^5 + 1
 of ITU-T V.41 with the register starting at 0, as src/qda/xmodem.c computes it.
 */
module Crc16 {
  import opened Gf2
  import opened Words

  function Poly(): (g: Bits)
    ensures |g| == 16
  {
    HighBits(0x1021, 16)
  }

  lemma PolyIsGenerator()
    ensures Generator(Poly())
  {
    hide HighBits;
    HighBitsLast(0x1021, 16);
  }

  // A message as the bit string the register takes in, highest bit of each byte first.
  function DataBits(data: seq<byte>): (bits: Bits)
    ensures |bits| == 8 * |data|
  {
    if data == [] then [] else HighBits(data[0], 8) + DataBits(data[1..])
  }

  lemma AppendAssociative<T>(a: seq<T>, b: seq<T>, c: seq<T>)
    ensures (a + b) + c == a + (b + c)
  {
  }

  lemma {:induction false} DataBitsAppend(a: seq<byte>, b: seq<byte>)
    ensures DataBits(a + b) == DataBits(a) + DataBits(b)
  {
    if a == [] {
      assert a + b == b;
    } else {
      DataBitsAppend(a[1..], b);
      assert (a + b)[0] == a[0] && (a + b)[1..] == a[1..] + b;
      AppendAssociative(HighBits(a[0], 8), DataBits(a[1..]), DataBits(b));
    }
  }

  // ----- the 32-bit register of the C code, whose high bits are never cleared -----

  // Shift, set the low bit if b, subtract the generator if bit 16 is set.
  function ShiftIn(crc: u32, b: bool): u32 {
    var c := 2 * crc % 0x1_0000_0000 + (if b then 1 else 0);
    if c / 0x10000 % 2 == 1 then AddPoly(c) else c
  }

  // Shift, subtract the generator if bit 15 was set.
  function ShiftZero(crc: u32): u32 {
    if crc / 0x8000 % 2 == 1 then AddPoly(2 * crc % 0x1_0000_0000) else 2 * crc % 0x1_0000_0000
  }

  function AddPoly(c: u32): u32 {
    Pow2Values();
    BitXorBound(c, 0x1021, 32);
    BitXor(c, 0x1021)
  }

  lemma ShiftRefines(crc: u32, b: bool, c: nat)
    requires c == 2 * crc % 0x1_0000_0000 + (if b then 1 else 0)
    ensures HighBits(c, 16) == HighBits(crc, 16)[1..] + [b]
    ensures c / 0x10000 % 2 == 1 <==> HighBits(crc, 16)[0]
    ensures crc / 0x8000 % 2 == 1 <==> HighBits(crc, 16)[0]
  {
    hide HighBits, Pow2;
    Pow2Values();
    ShiftedWord(crc, if b then 1 else 0, c);
    HighBitsSplit(c, 16);
    HighBitsMod(crc, 15, 31);
    HighBitsTop(crc, 16);
  }

  lemma ShiftedWord(crc: u32, low: nat, c: nat)
    requires low < 2 && c == 2 * crc % 0x1_0000_0000 + low
    ensures c / 2 == crc % 0x8000_0000 && c % 2 == low
    ensures c / 0x10000 % 2 == crc / 0x8000 % 2
  {
    var half := crc % 0x8000_0000;
    assert c == 2 * half + low;
    assert c / 0x10000 == half / 0x8000;
  }

  /** Seen through its low 16 bits, the C register is the textbook one at every step. */
  lemma ShiftInRefines(crc: u32, b: bool)
    ensures HighBits(ShiftIn(crc, b), 16) == Step(Poly(), HighBits(crc, 16), b)
  {
    var c := 2 * crc % 0x1_0000_0000 + (if b then 1 else 0);
    ShiftRefines(crc, b, c);
    HighBitsOfXor(c, 0x1021, 16);
    XorLaws(HighBits(c, 16));
  }

  lemma ShiftZeroRefines(crc: u32)
    ensures HighBits(ShiftZero(crc), 16) == Step(Poly(), HighBits(crc, 16), false)
  {
    var c := 2 * crc % 0x1_0000_0000;
    ShiftRefines(crc, false, c);
    HighBitsOfXor(c, 0x1021, 16);
    XorLaws(HighBits(c, 16));
  }

  function Absorb(crc: u32, bits: Bits): u32
    decreases |bits|
  {
    if bits == [] then crc else Absorb(ShiftIn(crc, bits[0]), bits[1..])
  }

  function Flushed(crc: u32, n: nat): u32
    decreases n
  {
    if n == 0 then crc else Flushed(ShiftZero(crc), n - 1)
  }

  /** What crc_xmodem returns for a payload. */
  function Crc(data: seq<byte>): u16 {
    Flushed(Absorb(0, DataBits(data)), 16) % 0x1_0000
  }

  lemma {:induction false} AbsorbRefines(crc: u32, bits: Bits)
    ensures HighBits(Absorb(crc, bits), 16) == Divide(Poly(), HighBits(crc, 16), bits)
    decreases |bits|
  {
    hide Poly, HighBits, ShiftIn, Step;
    if bits != [] {
      ShiftInRefines(crc, bits[0]);
      AbsorbRefines(ShiftIn(crc, bits[0]), bits[1..]);
    }
  }

  lemma {:induction false} FlushedRefines(crc: u32, n: nat)
    ensures HighBits(Flushed(crc, n), 16) == Divide(Poly(), HighBits(crc, 16), Zeros(n))
    decreases n
  {
    hide Poly, HighBits, ShiftZero, Step;
    if n > 0 {
      ShiftZeroRefines(crc);
      FlushedRefines(ShiftZero(crc), n - 1);
      assert Zeros(n)[0] == false && Zeros(n)[1..] == Zeros(n - 1);
    }
  }

  /**
   The C function computes the textbook remainder of the payload, in either of the
   textbook's two forms: with 16 zero bits appended, or with the shortcut register.
   */
  lemma CrcRefines(data: seq<byte>)
    ensures HighBits(Crc(data), 16) == Divide(Poly(), Zeros(16), DataBits(data) + Zeros(16))
    ensures HighBits(Crc(data), 16) == Direct(Poly(), Zeros(16), DataBits(data))
  {
    hide Poly, HighBits, Absorb, Flushed, Divide, Direct, DataBits;
    Pow2Values();
    var r := Absorb(0, DataBits(data));
    AbsorbRefines(0, DataBits(data));
    FlushedRefines(r, 16);
    HighBitsMod(Flushed(r, 16), 16, 16);
    HighBitsOfZero(16);
    DivideAppend(Poly(), Zeros(16), DataBits(data), Zeros(16));
    AugmentedIsDirect(Poly(), DataBits(data));
  }

  lemma {:induction false} HighBitsOfZero(w: nat)
    ensures HighBits(0, w) == Zeros(w)
  {
    if w > 0 {
      HighBitsOfZero(w - 1);
    }
  }

  // ----- what the check field of a frame detects -----

  function Word(hi: byte, lo: byte): u16 {
    0x100 * (hi as int) + lo as int
  }

  // The check the receiver makes on payload and check field together.
  predicate Checks(field: seq<byte>)
    requires |field| >= 2
  {
    Word(field[|field| - 2], field[|field| - 1]) == Crc(field[..|field| - 2])
  }

  /** The check passes exactly when payload and check field together are a multiple of the generator. */
  lemma ChecksIffDivides(field: seq<byte>)
    requires |field| >= 2
    ensures Checks(field) <==> Divide(Poly(), Zeros(16), DataBits(field)) == Zeros(16)
  {
    hide Poly, HighBits, Crc, Divide, DataBits, Word, Pow2;
    var n := |field| - 2;
    var data, hi, lo := field[..n], field[n], field[n + 1];
    assert field == data + [hi, lo];
    DataBitsAppend(data, [hi, lo]);
    DataBitsOfPair(hi, lo);
    CrcRefines(data);
    CodewordIffRemainder(Poly(), DataBits(data), HighBits(Word(hi, lo), 16));
    if HighBits(Word(hi, lo), 16) == HighBits(Crc(data), 16) {
      Pow2Values();
      HighBitsInjective(Word(hi, lo), Crc(data), 16);
    }
  }

  lemma DataBitsOfPair(hi: byte, lo: byte)
    ensures DataBits([hi, lo]) == HighBits(Word(hi, lo), 16)
  {
    hide HighBits;
    assert [hi, lo][1..] == [lo] && [lo][1..] == [];
    assert DataBits([lo]) == HighBits(lo, 8) + [];
    Pow2Values();
    HighBitsJoin(lo, hi, 8, 8);
  }

  /** An error confined to 16 consecutive bits of payload and check field is always caught. */
  lemma BurstDetected(sent: seq<byte>, got: seq<byte>, lo: nat)
    requires |sent| == |got| >= 2 && Checks(sent)
    requires lo + 16 <= 8 * |sent|
    requires DataBits(sent) != DataBits(got) && SameOutside(DataBits(sent), DataBits(got), lo, lo + 16)
    ensures !Checks(got)
  {
    hide Poly, Checks, Divide, DataBits;
    PolyIsGenerator();
    ChecksIffDivides(sent);
    ChecksIffDivides(got);
    BurstChangesRemainder(Poly(), DataBits(sent), DataBits(got), lo);
  }

  /** So is every error that changes an odd number of bits. */
  lemma OddErrorDetected(sent: seq<byte>, got: seq<byte>)
    requires |sent| == |got| >= 2 && Checks(sent)
    requires Distance(DataBits(sent), DataBits(got)) % 2 == 1
    ensures !Checks(got)
  {
    hide Poly, Checks, Divide, DataBits, Distance;
    PolyHasOddWeight();
    ChecksIffDivides(sent);
    ChecksIffDivides(got);
    OddErrorChangesRemainder(Poly(), DataBits(sent), DataBits(got));
  }

  // The number of ones among the w low bits of n, mod 2.
  function OddOnes(n: nat, w: nat): bool {
    if w == 0 then false else (n % 2 == 1) != OddOnes(n / 2, w - 1)
  }

  lemma {:induction false} ParityOfHighBits(n: nat, w: nat)
    ensures Parity(HighBits(n, w)) == OddOnes(n, w)
    decreases w
  {
    if w > 0 {
      ParityOfHighBits(n / 2, w - 1);
      ParityAppend(HighBits(n / 2, w - 1), n % 2 == 1);
    }
  }

  // x^16 + x^12 + x^5 + 1 has four terms.
  lemma PolyHasOddWeight()
    ensures Parity(Poly())
  {
    hide HighBits, Parity;
    ParityOfHighBits(0x1021, 16);
    assert OddOnes(1, 4);
    assert OddOnes(2, 5) && OddOnes(4, 6) && OddOnes(8, 7) && OddOnes(0x10, 8) && OddOnes(0x20, 9) && OddOnes(0x40, 10);
    assert !OddOnes(0x81, 11) && !OddOnes(0x102, 12) && !OddOnes(0x204, 13) && !OddOnes(0x408, 14)
      && !OddOnes(0x810, 15);
  }

  /** The check field has the parity of the payload, whatever the payload. */
  lemma CrcKeepsParity(data: seq<byte>)
    ensures Parity(HighBits(Crc(data), 16)) == Parity(DataBits(data))
  {
    hide Poly, HighBits, Parity, Crc, Divide, Direct, DataBits;
    PolyHasOddWeight();
    CrcRefines(data);
    DivideAppend(Poly(), Zeros(16), DataBits(data), Zeros(16));
    DivideKeepsParity(Poly(), Zeros(16), DataBits(data));
    DivideKeepsParity(Poly(), Divide(Poly(), Zeros(16), DataBits(data)), Zeros(16));
    ParityZeros(16);
  }
}
