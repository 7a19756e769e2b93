/** The checksum of the DFU file suffix: crc32_byte of src/dfu_file.c and what it computes. */
module Crc32 {
  import opened Gf2
  import opened Words
  import opened Crc32Table

  // The generator of CRC-32, lowest bit of the reflected constant first.
  function Poly(): (g: Bits)
    ensures |g| == 32
  {
    LowBits(0xEDB88320, 32)
  }

  lemma PolyIsGenerator()
    ensures Generator(Poly())
  {
    hide LowBits;
    Pow2Literals();
    LowBitsAt(0xEDB88320, 32, 31);
  }

  // The bit string a byte sequence feeds the register, lowest bit of each byte first.
  function DataBits(data: seq<byte>): (bits: Bits)
    ensures |bits| == 8 * |data|
  {
    if data == [] then [] else LowBits(data[0], 8) + DataBits(data[1..])
  }

  /** Bit-serial reflected division by 0xEDB88320, one byte at a time. */
  function Shift(c: u32): u32 {
    Pow2Values();
    BitXorBound(c / 2, 0xEDB88320, 32);
    if c % 2 == 1 then BitXor(c / 2, 0xEDB88320) else c / 2
  }

  function Shifts(c: u32, n: nat): u32
    decreases n
  {
    if n == 0 then c else Shifts(Shift(c), n - 1)
  }

  function XorByte(c: u32, b: byte): u32 {
    Pow2Values();
    BitXorBound(c, b, 32);
    BitXor(c, b)
  }

  function SerialByte(c: u32, b: byte): u32 {
    Shifts(XorByte(c, b), 8)
  }

  function Serial(c: u32, data: seq<byte>): u32
    decreases |data|
  {
    if data == [] then c else Serial(SerialByte(c, data[0]), data[1..])
  }

  // ----- the table -----

  function Entry(i: nat): u32
    requires i < 256
  {
    Row(i / 8)[i % 8]
  }

  // XOR with p, peeled from the top bit d down: what it adds to a.
  ghost predicate Peeled(a: nat, p: nat, d: nat, a': nat, p': nat) {
    BitXor(a, p) - a == (if p < d then 0 else if a >= d then -(d as int) else d) + BitXor(a', p') - a'
  }

  function Without(a: nat, d: nat): nat {
    if a >= d then a - d else a
  }

  lemma {:induction false} PeelTop(a: nat, p: nat, d: nat, k: nat)
    requires d == Pow2(k) && a < 2 * d && p < 2 * d
    ensures Peeled(a, p, d, Without(a, d), Without(p, d))
    decreases k
  {
    if k > 0 {
      PeelTop(a / 2, p / 2, d / 2, k - 1);
      PeelStep(a, p, d / 2);
    }
  }

  lemma PeelStep(a: nat, p: nat, h: nat)
    requires Peeled(a / 2, p / 2, h, Without(a / 2, h), Without(p / 2, h))
    ensures Peeled(a, p, 2 * h, Without(a, 2 * h), Without(p, 2 * h))
  {
    hide BitXor;
    BitXorSplit(a, p);
    BitXorSplit(Without(a, 2 * h), Without(p, 2 * h));
    WithoutHalves(a, h);
    WithoutHalves(p, h);
  }

  lemma WithoutHalves(a: nat, h: nat)
    ensures Without(a, 2 * h) % 2 == a % 2 && Without(a, 2 * h) / 2 == Without(a / 2, h)
  {
  }

  lemma Pow2Literals()
    ensures Pow2(5) == 0x20 && Pow2(6) == 0x40 && Pow2(7) == 0x80 && Pow2(8) == 0x100
    ensures Pow2(9) == 0x200 && Pow2(10) == 0x400 && Pow2(11) == 0x800 && Pow2(12) == 0x1000
    ensures Pow2(13) == 0x2000 && Pow2(14) == 0x4000 && Pow2(15) == 0x8000 && Pow2(16) == 0x10000
    ensures Pow2(17) == 0x20000 && Pow2(18) == 0x40000 && Pow2(19) == 0x80000 && Pow2(20) == 0x100000
    ensures Pow2(21) == 0x200000 && Pow2(22) == 0x400000 && Pow2(23) == 0x800000 && Pow2(24) == 0x1000000
    ensures Pow2(25) == 0x2000000 && Pow2(26) == 0x4000000 && Pow2(27) == 0x8000000 && Pow2(28) == 0x10000000
    ensures Pow2(29) == 0x20000000 && Pow2(30) == 0x40000000 && Pow2(31) == 0x80000000
  {
  }

  lemma Digit7(a: nat)
    requires a < 0x100000000
    ensures Rest7(a) < 0x10000000
    ensures BitXor(a, 0xedb88320) - a == Flip7(a) + BitXor(Rest7(a), 0xdb88320) - Rest7(a)
  {
    hide BitXor, Pow2;
    Pow2Literals();
    PeelTop(a, 0xedb88320, 0x80000000, 31);
    var a31 := Without(a, 0x80000000);
    PeelTop(a31, 0x6db88320, 0x40000000, 30);
    var a30 := Without(a31, 0x40000000);
    PeelTop(a30, 0x2db88320, 0x20000000, 29);
    var a29 := Without(a30, 0x20000000);
    PeelTop(a29, 0xdb88320, 0x10000000, 28);
  }

  lemma Digit6(a: nat)
    requires a < 0x10000000
    ensures Rest6(a) < 0x1000000
    ensures BitXor(a, 0xdb88320) - a == Flip6(a) + BitXor(Rest6(a), 0xb88320) - Rest6(a)
  {
    hide BitXor, Pow2;
    Pow2Literals();
    PeelTop(a, 0xdb88320, 0x8000000, 27);
    var a27 := Without(a, 0x8000000);
    PeelTop(a27, 0x5b88320, 0x4000000, 26);
    var a26 := Without(a27, 0x4000000);
    PeelTop(a26, 0x1b88320, 0x2000000, 25);
    var a25 := Without(a26, 0x2000000);
    PeelTop(a25, 0x1b88320, 0x1000000, 24);
  }

  lemma Digit5(a: nat)
    requires a < 0x1000000
    ensures Rest5(a) < 0x100000
    ensures BitXor(a, 0xb88320) - a == Flip5(a) + BitXor(Rest5(a), 0x88320) - Rest5(a)
  {
    hide BitXor, Pow2;
    Pow2Literals();
    PeelTop(a, 0xb88320, 0x800000, 23);
    var a23 := Without(a, 0x800000);
    PeelTop(a23, 0x388320, 0x400000, 22);
    var a22 := Without(a23, 0x400000);
    PeelTop(a22, 0x388320, 0x200000, 21);
    var a21 := Without(a22, 0x200000);
    PeelTop(a21, 0x188320, 0x100000, 20);
  }

  lemma Digit4(a: nat)
    requires a < 0x100000
    ensures Rest4(a) < 0x10000
    ensures BitXor(a, 0x88320) - a == Flip4(a) + BitXor(Rest4(a), 0x8320) - Rest4(a)
  {
    hide BitXor, Pow2;
    Pow2Literals();
    PeelTop(a, 0x88320, 0x80000, 19);
    var a19 := Without(a, 0x80000);
    PeelTop(a19, 0x8320, 0x40000, 18);
    var a18 := Without(a19, 0x40000);
    PeelTop(a18, 0x8320, 0x20000, 17);
    var a17 := Without(a18, 0x20000);
    PeelTop(a17, 0x8320, 0x10000, 16);
  }

  lemma Digit3(a: nat)
    requires a < 0x10000
    ensures Rest3(a) < 0x1000
    ensures BitXor(a, 0x8320) - a == Flip3(a) + BitXor(Rest3(a), 0x320) - Rest3(a)
  {
    hide BitXor, Pow2;
    Pow2Literals();
    PeelTop(a, 0x8320, 0x8000, 15);
    var a15 := Without(a, 0x8000);
    PeelTop(a15, 0x320, 0x4000, 14);
    var a14 := Without(a15, 0x4000);
    PeelTop(a14, 0x320, 0x2000, 13);
    var a13 := Without(a14, 0x2000);
    PeelTop(a13, 0x320, 0x1000, 12);
  }

  lemma Digit2(a: nat)
    requires a < 0x1000
    ensures Rest2(a) < 0x100
    ensures BitXor(a, 0x320) - a == Flip2(a) + BitXor(Rest2(a), 0x20) - Rest2(a)
  {
    hide BitXor, Pow2;
    Pow2Literals();
    PeelTop(a, 0x320, 0x800, 11);
    var a11 := Without(a, 0x800);
    PeelTop(a11, 0x320, 0x400, 10);
    var a10 := Without(a11, 0x400);
    PeelTop(a10, 0x320, 0x200, 9);
    var a9 := Without(a10, 0x200);
    PeelTop(a9, 0x120, 0x100, 8);
  }

  lemma Digit1(a: nat)
    requires a < 0x100
    ensures BitXor(a, 0x20) - a == Flip1(a)
  {
    hide BitXor, Pow2;
    Pow2Literals();
    PeelTop(a, 0x20, 0x80, 7);
    var a7 := Without(a, 0x80);
    PeelTop(a7, 0x20, 0x40, 6);
    var a6 := Without(a7, 0x40);
    PeelTop(a6, 0x20, 0x20, 5);
    var a5 := Without(a6, 0x20);
    XorZero(a5);
  }

  lemma XorZero(a: nat)
    ensures BitXor(a, 0) == a
  {
  }

  lemma AddPolyIsXor(a: u32)
    ensures AddPoly(a) == BitXor(a, 0xEDB88320)
  {
    hide BitXor, Rest7, Flip7, Rest6, Flip6, Rest5, Flip5, Rest4, Flip4, Rest3, Flip3, Rest2, Flip2, Flip1;
    Digit7(a);
    Digit6(Rest7(a));
    Digit5(Rest6(Rest7(a)));
    Digit4(Rest5(Rest6(Rest7(a))));
    Digit3(Rest4(Rest5(Rest6(Rest7(a)))));
    Digit2(Rest3(Rest4(Rest5(Rest6(Rest7(a))))));
    Digit1(Rest2(Rest3(Rest4(Rest5(Rest6(Rest7(a)))))));
  }

  lemma HalfIsShift(a: u32)
    ensures Half(a) == Shift(a)
  {
    hide AddPoly;
    AddPolyIsXor(a / 2);
  }

  lemma EntryRelations(i: nat)
    requires i < 128
    ensures Entry(i + 128) == BitXor(Entry(i), 0xEDB88320)
    ensures Entry(i) == Shift(Entry(2 * i))
  {
    hide Row, AddPoly, Half, Shift, BitXor;
    RowsRight(i / 8);
    AddPolyIsXor(Entry(i));
    HalfIsShift(Entry(2 * i));
    EntryIndex(i);
  }

  lemma EntryIndex(i: nat)
    requires i < 128
    ensures (i + 128) / 8 == i / 8 + 16 && (i + 128) % 8 == i % 8
    ensures i % 8 < 4 ==> 2 * i / 8 == 2 * (i / 8) && 2 * i % 8 == 2 * (i % 8)
    ensures i % 8 >= 4 ==> 2 * i / 8 == 2 * (i / 8) + 1 && 2 * i % 8 == 2 * (i % 8) - 8
  {
  }

  lemma ShiftRefines(c: u32)
    ensures LowBits(Shift(c), 32) == Step(Poly(), LowBits(c, 32), false)
  {
    hide LowBits, BitXor, Pow2;
    Pow2Values();
    LowBitsSplit(c, 32);
    LowBitsHalve(c, 32);
    LowBitsOfXor(c / 2, 0xEDB88320, 32);
    XorLaws(LowBits(c / 2, 32));
  }

  lemma {:induction false} ShiftsRefine(c: u32, n: nat)
    ensures LowBits(Shifts(c, n), 32) == Divide(Poly(), LowBits(c, 32), Zeros(n))
    decreases n
  {
    hide LowBits, Shift, Poly, Step;
    if n > 0 {
      ShiftRefines(c);
      ShiftsRefine(Shift(c), n - 1);
      assert Zeros(n)[0] == false && Zeros(n)[1..] == Zeros(n - 1);
    }
  }

  // What the table should hold: the division run on eight zero bits.
  function TableBits(i: nat): (r: Bits)
    ensures |r| == 32
  {
    Divide(Poly(), LowBits(i, 32), Zeros(8))
  }

  lemma ZerosSplit(m: nat, n: nat)
    ensures Zeros(m + n) == Zeros(m) + Zeros(n)
  {
  }

  lemma TableBitsDouble(i: nat)
    requires i < 128
    ensures TableBits(i) == Step(Poly(), TableBits(2 * i), false)
  {
    hide LowBits, Poly, Divide, Pow2;
    var g, x, y := Poly(), LowBits(i, 32), LowBits(2 * i, 32);
    Pow2Values();
    assert y[0] == false && Step(g, y, false) == x by {
      LowBitsSplit(2 * i, 32);
      LowBitsHalve(2 * i, 32);
      XorLaws(y[1..] + [false]);
    }
    ZerosSplit(1, 7);
    ZerosSplit(7, 1);
    DivideAppend(g, y, Zeros(1), Zeros(7));
    DivideOne(g, y);
    DivideAppend(g, x, Zeros(7), Zeros(1));
    DivideOne(g, Divide(g, x, Zeros(7)));
  }

  lemma DivideOne(g: Bits, r: Bits)
    requires |r| == |g| > 0
    ensures Divide(g, r, Zeros(1)) == Step(g, r, false)
  {
    assert Zeros(1)[0] == false && Zeros(1)[1..] == [];
  }

  lemma TableBitsAdd(i: nat)
    requires i < 128
    ensures TableBits(i + 128) == Xor(TableBits(i), Poly())
  {
    hide LowBits, Poly, Divide, BitXor, Pow2;
    var g := Poly();
    Pow2Values();
    PeelTop(i, 128, 128, 7);
    XorZero(i);
    assert BitXor(i, 128) == i + 128;
    LowBitsOfXor(i, 128, 32);
    XorLaws(Zeros(8));
    DivideLinear(g, LowBits(i, 32), LowBits(128, 32), Zeros(8), Zeros(8));
    TopBitDivides();
  }

  lemma TopBitDivides()
    ensures Divide(Poly(), LowBits(128, 32), Zeros(8)) == Poly()
  {
    hide LowBits, Poly, Divide, Pow2;
    var g := Poly();
    Pow2Values();
    LowBitsShifted(1, 25, 7);
    LowBitsSplit(1, 25);
    LowBitsOfZero(24);
    var top := [true] + Zeros(31);
    ZerosSplit(7, 1);
    ZerosSplit(24, 7);
    DivideAppend(g, LowBits(128, 32), Zeros(7), Zeros(1));
    DivideLoads(g, LowBits(128, 32), Zeros(7));
    assert LowBits(128, 32)[7..] + Zeros(7) == top;
    DivideOne(g, top);
    assert top[1..] + [false] == Zeros(32);
    XorLaws(g);
  }

  /** Every one of the 256 entries is the division run on eight zero bits. */
  lemma TableIsDivision(i: nat)
    requires i < 256
    ensures LowBits(Entry(i), 32) == TableBits(i)
  {
    EntryIsDivision(i, 8, i);
  }

  // Doubling shifts the bits of i out at the top; the w bits left are m.
  lemma {:induction false} EntryIsDivision(i: nat, w: nat, m: nat)
    requires i < 256 && w <= 8 && i == Pow2(8 - w) * m
    ensures LowBits(Entry(i), 32) == TableBits(i)
    decreases w
  {
    hide LowBits, TableBits, Entry, BitXor, Shift, Step, Pow2;
    Pow2Values();
    if w == 0 {
      ZeroEntry();
    } else {
      var top := i >= 128;
      var j := if top then i - 128 else i;
      Pow2Sum(8 - w, w - 1);
      var n := DropTop(i, m, Pow2(8 - w), Pow2(w - 1));
      Pow2Double(8 - w);
      EntryIsDivision(2 * j, w - 1, n);
      EntryRelations(j);
      ShiftRefines(Entry(2 * j));
      TableBitsDouble(j);
      if top {
        LowBitsOfXor(Entry(j), 0xEDB88320, 32);
        TableBitsAdd(j);
      }
    }
  }

  lemma MulMonotonic(p: nat, x: int, y: int)
    requires x <= y
    ensures p * x <= p * y
  {
  }

  lemma DropTop(i: nat, m: nat, p: nat, half: nat) returns (n: nat)
    requires i == p * m && p * half == 128
    ensures (if i >= 128 then i - 128 else i) == p * n && 2 * (p * n) == (2 * p) * n
  {
    if i >= 128 {
      if m < half { MulMonotonic(p, m, half - 1); }
      n := m - half;
      assert p * n == p * m - p * half;
    } else {
      n := m;
    }
  }

  lemma Pow2Double(k: nat)
    ensures Pow2(k + 1) == 2 * Pow2(k)
  {
  }

  lemma ZeroEntry()
    ensures LowBits(Entry(0), 32) == TableBits(0)
  {
    hide Divide, Poly, LowBits;
    LowBitsOfZero(32);
    DivideZeros(Poly(), 8);
  }

  /** crc32_byte: what it returns for an accumulator and a byte. */
  function Crc32Byte(accum: u32, delta: byte): u32 {
    var e := Entry(XorByte(accum, delta) % 0x100);
    Pow2Values();
    BitXorBound(e, accum / 0x100, 32);
    BitXor(e, accum / 0x100)
  }

  // The division of a word by eight steps: the low byte through the table, the rest shifted.
  lemma DivideByByte(x: u32)
    ensures Divide(Poly(), LowBits(x, 32), Zeros(8)) == Xor(TableBits(x % 0x100), LowBits(x / 0x100, 32))
  {
    hide Poly, LowBits, Divide, Pow2, BitXor;
    var g, lo, hi := Poly(), x % 0x100, x / 0x100;
    Pow2Values();
    XorOfParts(hi, lo, 8);
    LowBitsOfXor(lo, 0x100 * hi, 32);
    XorLaws(Zeros(8));
    DivideLinear(g, LowBits(lo, 32), LowBits(0x100 * hi, 32), Zeros(8), Zeros(8));
    LowBitsShifted(hi, 24, 8);
    DivideLoads(g, LowBits(0x100 * hi, 32), Zeros(8));
    LowBitsPad(hi, 24, 8);
    assert LowBits(0x100 * hi, 32)[8..] == LowBits(hi, 24);
  }

  lemma {:induction false} XorOfParts(hi: nat, lo: nat, k: nat)
    requires lo < Pow2(k)
    ensures BitXor(lo, Pow2(k) * hi) == lo + Pow2(k) * hi
    decreases k
  {
    if k > 0 {
      var b := Pow2(k - 1) * hi;
      assert Pow2(k) * hi == 2 * b;
      BitXorSplit(lo, 2 * b);
      XorOfParts(hi, lo / 2, k - 1);
    } else {
      assert Pow2(0) * hi == hi;
    }
  }

  lemma Crc32ByteRefines(accum: u32, delta: byte)
    ensures LowBits(Crc32Byte(accum, delta), 32) == LowBits(SerialByte(accum, delta), 32)
    ensures LowBits(Crc32Byte(accum, delta), 32) == Direct(Poly(), LowBits(accum, 32), LowBits(delta, 8))
  {
    hide Poly, LowBits, Divide, Direct, Pow2, BitXor, Entry, TableBits, Shifts;
    var x := XorByte(accum, delta);
    var e := Entry(x % 0x100);
    Pow2Values();
    BitXorShift(accum, delta, 8);
    TableIsDivision(x % 0x100);
    LowBitsOfXor(e, x / 0x100, 32);
    DivideByByte(x);
    ShiftsRefine(x, 8);
    DirectIsAddThenShift(Poly(), LowBits(accum, 32), LowBits(delta, 8));
    LowBitsPad(delta, 8, 24);
    LowBitsOfXor(accum, delta, 32);
  }

  /** The table-driven step is the bit-serial one. */
  lemma Crc32ByteIsSerial(accum: u32, delta: byte)
    ensures Crc32Byte(accum, delta) == SerialByte(accum, delta)
  {
    hide Crc32Byte, SerialByte, LowBits, Pow2;
    Crc32ByteRefines(accum, delta);
    Pow2Values();
    LowBitsInjective(Crc32Byte(accum, delta), SerialByte(accum, delta), 32);
  }

  // ----- whole messages -----

  /** The bit-serial division of a message is the polynomial one, from any register. */
  lemma {:induction false} SerialRefines(c: u32, data: seq<byte>)
    ensures LowBits(Serial(c, data), 32) == Direct(Poly(), LowBits(c, 32), DataBits(data))
    decreases |data|
  {
    hide Poly, LowBits, Direct, SerialByte;
    if data == [] {
      EmptyDirect(Poly(), LowBits(c, 32));
    } else {
      var c' := SerialByte(c, data[0]);
      Crc32ByteRefines(c, data[0]);
      SerialRefines(c', data[1..]);
      DirectAppend(Poly(), LowBits(c, 32), LowBits(data[0], 8), DataBits(data[1..]));
    }
  }

  lemma EmptyDirect(g: Bits, r: Bits)
    requires |r| == |g| > 0
    ensures Direct(g, r, []) == r
  {
  }

  lemma {:induction false} SerialAppend(c: u32, a: seq<byte>, b: seq<byte>)
    ensures Serial(c, a + b) == Serial(Serial(c, a), b)
    decreases |a|
  {
    hide SerialByte;
    if a == [] {
      assert a + b == b;
    } else {
      assert (a + b)[0] == a[0] && (a + b)[1..] == a[1..] + b;
      SerialAppend(SerialByte(c, a[0]), a[1..], b);
    }
  }

  lemma StoredBits(c: u32)
    ensures DataBits(Le32(c)) == LowBits(c, 32)
  {
    hide LowBits, Pow2;
    Pow2Values();
    var b := Le32(c);
    var w1, w2, w3 := c / 0x100, c / 0x1_0000, c / 0x100_0000;
    assert w1 / 0x100 == w2 && w2 / 0x100 == w3;
    LowBitsJoin(b[0], w1, 8, 24);
    LowBitsJoin(b[1], w2, 8, 16);
    LowBitsJoin(b[2], w3, 8, 8);
    FourBytes(b);
  }

  lemma FourBytes(b: seq<byte>)
    requires |b| == 4
    ensures DataBits(b) == LowBits(b[0], 8) + (LowBits(b[1], 8) + (LowBits(b[2], 8) + LowBits(b[3], 8)))
  {
    hide LowBits;
    var b1, b2, b3 := b[1..], b[2..], b[3..];
    assert b1[1..] == b2 && b2[1..] == b3 && b3[1..] == [];
    assert DataBits(b3) == LowBits(b[3], 8) + [] == LowBits(b[3], 8);
    assert DataBits(b2) == LowBits(b[2], 8) + DataBits(b3);
    assert DataBits(b1) == LowBits(b[1], 8) + DataBits(b2);
  }

  lemma {:induction false} DataBitsInjective(a: seq<byte>, b: seq<byte>)
    requires |a| == |b| && DataBits(a) == DataBits(b)
    ensures a == b
  {
    hide LowBits, Pow2;
    if a != [] {
      Pow2Values();
      var x, y := DataBits(a), DataBits(b);
      assert x[..8] == LowBits(a[0], 8) && x[8..] == DataBits(a[1..]);
      assert y[..8] == LowBits(b[0], 8) && y[8..] == DataBits(b[1..]);
      LowBitsInjective(a[0], b[0], 8);
      DataBitsInjective(a[1..], b[1..]);
      assert a == [a[0]] + a[1..] && b == [b[0]] + b[1..];
    }
  }

  /** Running the register over four more bytes leaves zero exactly when they are its own value, stored. */
  lemma ResidueIffStored(c: u32, field: seq<byte>)
    requires |field| == 4
    ensures Serial(c, field) == 0 <==> field == Le32(c)
  {
    hide LowBits, Poly, Serial, Le32, DataBits, Pow2, Direct;
    PolyIsGenerator();
    Pow2Values();
    SerialRefines(c, field);
    StoredBits(c);
    ResidueIffOwnBits(Poly(), LowBits(c, 32), DataBits(field));
    LowBitsOfZero(32);
    if DataBits(field) == DataBits(Le32(c)) {
      DataBitsInjective(field, Le32(c));
    }
    if LowBits(Serial(c, field), 32) == Zeros(32) {
      LowBitsInjective(Serial(c, field), 0, 32);
    }
  }

  lemma {:induction false} DataBitsSplit(a: seq<byte>, n: nat)
    requires n <= |a|
    ensures DataBits(a)[..8 * n] == DataBits(a[..n]) && DataBits(a)[8 * n..] == DataBits(a[n..])
  {
    hide LowBits;
    if n == 0 {
      assert a[0..] == a;
    } else {
      DataBitsSplit(a[1..], n - 1);
      assert a[..n][1..] == a[1..][..n - 1] && a[1..][n - 1..] == a[n..];
      var x, y := LowBits(a[0], 8), DataBits(a[1..]);
      assert (x + y)[..8 * n] == x + y[..8 * (n - 1)] && (x + y)[8 * n..] == y[8 * (n - 1)..];
    }
  }

  // Two byte strings that agree outside the four bytes from lo.
  ghost predicate SameAround(a: seq<byte>, b: seq<byte>, lo: nat) {
    |a| == |b| && lo + 4 <= |a| && a[..lo] == b[..lo] && a[lo + 4..] == b[lo + 4..]
  }

  lemma WindowOfBits(a: seq<byte>, b: seq<byte>, lo: nat)
    requires SameAround(a, b, lo)
    ensures SameOutside(DataBits(a), DataBits(b), 8 * lo, 8 * lo + 32)
  {
    hide DataBits;
    DataBitsSplit(a, lo);
    DataBitsSplit(b, lo);
    DataBitsSplit(a, lo + 4);
    DataBitsSplit(b, lo + 4);
    var x, y := DataBits(a), DataBits(b);
    forall i | 0 <= i < |x| && !(8 * lo <= i < 8 * lo + 32) ensures x[i] == y[i] {
      if i < 8 * lo {
        assert x[..8 * lo][i] == y[..8 * lo][i];
      } else {
        assert x[8 * (lo + 4)..][i - 8 * (lo + 4)] == y[8 * (lo + 4)..][i - 8 * (lo + 4)];
      }
    }
  }

  /** Changing any four consecutive bytes changes the checksum, whatever register it starts from. */
  lemma WindowChangesCrc(c: u32, a: seq<byte>, b: seq<byte>, lo: nat)
    requires SameAround(a, b, lo) && a != b
    ensures Serial(c, a) != Serial(c, b)
  {
    hide DataBits, LowBits, Poly, Serial, Direct, SameOutside;
    PolyIsGenerator();
    SerialRefines(c, a);
    SerialRefines(c, b);
    WindowOfBits(a, b, lo);
    if DataBits(a) == DataBits(b) {
      DataBitsInjective(a, b);
    }
    BurstChangesDirect(Poly(), LowBits(c, 32), DataBits(a), DataBits(b), 8 * lo);
  }
}
