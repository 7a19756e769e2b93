/**
 Machine words as naturals, with the C operators the sources apply to them.

 A shift left is a multiplication reduced by the width, a shift right a division,
 a mask of low bits a remainder; exclusive or is defined bit by bit.
 */
module Words {
  import opened Gf2

  type byte = x: nat | x < 0x100
  type u16 = x: nat | x < 0x1_0000
  type u32 = x: nat | x < 0x1_0000_0000

  function Pow2(n: nat): (p: nat)
    ensures p > 0
  {
    if n == 0 then 1 else 2 * Pow2(n - 1)
  }

  lemma Pow2Values()
    ensures Pow2(7) == 0x80 && Pow2(8) == 0x100 && Pow2(15) == 0x8000 && Pow2(16) == 0x1_0000
    ensures Pow2(24) == 0x100_0000 && Pow2(31) == 0x8000_0000 && Pow2(32) == 0x1_0000_0000
  {
    Pow2Sum(8, 8);
    Pow2Sum(16, 8);
    Pow2Sum(16, 16);
  }

  lemma {:induction false} Pow2Sum(m: nat, n: nat)
    ensures Pow2(m + n) == Pow2(m) * Pow2(n)
  {
    if n > 0 {
      Pow2Sum(m, n - 1);
    }
  }

  function BitXor(a: nat, b: nat): nat
    decreases a + b
  {
    if a == 0 then b
    else if b == 0 then a
    else (if a % 2 == b % 2 then 0 else 1) + 2 * BitXor(a / 2, b / 2)
  }

  // The w low bits of n, lowest first.
  function LowBits(n: nat, w: nat): (bits: Bits)
    ensures |bits| == w
  {
    if w == 0 then [] else [n % 2 == 1] + LowBits(n / 2, w - 1)
  }

  // The w low bits of n, highest first.
  function HighBits(n: nat, w: nat): (bits: Bits)
    ensures |bits| == w
  {
    if w == 0 then [] else HighBits(n / 2, w - 1) + [n % 2 == 1]
  }

  lemma BitXorSplit(a: nat, b: nat)
    ensures BitXor(a, b) == (if a % 2 == b % 2 then 0 else 1) + 2 * BitXor(a / 2, b / 2)
  {
    if a == 0 {
      assert BitXor(a / 2, b / 2) == b / 2;
    } else if b == 0 {
      assert BitXor(a / 2, b / 2) == a / 2;
    }
  }

  lemma BitXorStep(a: nat, b: nat)
    ensures BitXor(a, b) % 2 == (if a % 2 == b % 2 then 0 else 1)
    ensures BitXor(a, b) / 2 == BitXor(a / 2, b / 2)
  {
    BitXorSplit(a, b);
  }

  lemma HighBitsSplit(n: nat, w: nat)
    requires w > 0
    ensures HighBits(n, w) == HighBits(n / 2, w - 1) + [n % 2 == 1]
  {
  }

  lemma HighBitsLast(n: nat, w: nat)
    requires w > 0
    ensures HighBits(n, w)[w - 1] == (n % 2 == 1)
  {
  }

  lemma {:induction false} LowBitsOfXor(a: nat, b: nat, w: nat)
    ensures LowBits(BitXor(a, b), w) == Xor(LowBits(a, w), LowBits(b, w))
    decreases w
  {
    if w > 0 {
      BitXorStep(a, b);
      LowBitsOfXor(a / 2, b / 2, w - 1);
    }
  }

  lemma {:induction false} HighBitsOfXor(a: nat, b: nat, w: nat)
    ensures HighBits(BitXor(a, b), w) == Xor(HighBits(a, w), HighBits(b, w))
    decreases w
  {
    if w > 0 {
      BitXorStep(a, b);
      HighBitsOfXor(a / 2, b / 2, w - 1);
    }
  }

  lemma {:induction false} BitXorBound(a: nat, b: nat, w: nat)
    requires a < Pow2(w) && b < Pow2(w)
    ensures BitXor(a, b) < Pow2(w)
    decreases w
  {
    if w > 0 {
      BitXorStep(a, b);
      BitXorBound(a / 2, b / 2, w - 1);
    }
  }

  lemma {:induction false} LowBitsInjective(a: nat, b: nat, w: nat)
    requires a < Pow2(w) && b < Pow2(w)
    requires LowBits(a, w) == LowBits(b, w)
    ensures a == b
    decreases w
  {
    if w > 0 {
      var x, y := LowBits(a, w), LowBits(b, w);
      assert x[0] == y[0] && x[1..] == LowBits(a / 2, w - 1) && y[1..] == LowBits(b / 2, w - 1);
      LowBitsInjective(a / 2, b / 2, w - 1);
    }
  }

  lemma {:induction false} HighBitsInjective(a: nat, b: nat, w: nat)
    requires a < Pow2(w) && b < Pow2(w)
    requires HighBits(a, w) == HighBits(b, w)
    ensures a == b
    decreases w
  {
    if w > 0 {
      var x, y := HighBits(a, w), HighBits(b, w);
      assert x[w - 1] == y[w - 1] && x[..w - 1] == HighBits(a / 2, w - 1) && y[..w - 1] == HighBits(b / 2, w - 1);
      HighBitsInjective(a / 2, b / 2, w - 1);
    }
  }

  // The complement of an unsigned number of w bits.
  lemma {:induction false} HighBitsOfComplement(n: nat, w: nat)
    requires n < Pow2(w)
    ensures forall i :: 0 <= i < w ==> HighBits(Pow2(w) - 1 - n, w)[i] != HighBits(n, w)[i]
    decreases w
  {
    if w > 0 {
      HighBitsOfComplement(n / 2, w - 1);
      assert (Pow2(w) - 1 - n) / 2 == Pow2(w - 1) - 1 - n / 2;
    }
  }

  lemma {:induction false} LowBitsAt(n: nat, w: nat, i: nat)
    requires i < w
    ensures LowBits(n, w)[i] == (n / Pow2(i) % 2 == 1)
    decreases i
  {
    if i > 0 {
      LowBitsAt(n / 2, w - 1, i - 1);
      HalveThenDivide(n, Pow2(i - 1));
    }
  }

  lemma LowBitsSplit(n: nat, w: nat)
    requires w > 0
    ensures LowBits(n, w) == [n % 2 == 1] + LowBits(n / 2, w - 1)
  {
  }

  // The low bits of a number that has no more.
  lemma {:induction false} LowBitsPad(n: nat, w: nat, k: nat)
    requires n < Pow2(w)
    ensures LowBits(n, w + k) == LowBits(n, w) + Zeros(k)
    decreases w
  {
    if w > 0 {
      LowBitsPad(n / 2, w - 1, k);
    } else {
      LowBitsOfZero(k);
      assert LowBits(n, 0) + Zeros(k) == Zeros(k);
    }
  }

  lemma {:induction false} LowBitsOfZero(w: nat)
    ensures LowBits(0, w) == Zeros(w)
  {
    if w > 0 {
      LowBitsOfZero(w - 1);
    }
  }

  lemma {:induction false} LowBitsShifted(n: nat, w: nat, k: nat)
    ensures LowBits(Pow2(k) * n, w + k) == Zeros(k) + LowBits(n, w)
    decreases k
  {
    if k > 0 {
      var m := Pow2(k - 1) * n;
      assert Pow2(k) * n == 2 * m;
      LowBitsSplit(2 * m, w + k);
      LowBitsShifted(n, w, k - 1);
    } else {
      assert Zeros(0) + LowBits(n, w) == LowBits(n, w);
    }
  }

  lemma LowBitsHalve(n: nat, w: nat)
    requires n < Pow2(w) && w > 0
    ensures LowBits(n / 2, w) == LowBits(n, w)[1..] + [false]
  {
    LowBitsSplit(n, w);
    LowBitsPad(n / 2, w - 1, 1);
  }

  lemma {:induction false} BitXorShift(a: nat, b: nat, k: nat)
    requires b < Pow2(k)
    ensures BitXor(a, b) / Pow2(k) == a / Pow2(k)
    decreases k
  {
    if k > 0 {
      BitXorStep(a, b);
      BitXorShift(a / 2, b / 2, k - 1);
      HalveThenDivide(BitXor(a, b), Pow2(k - 1));
      HalveThenDivide(a, Pow2(k - 1));
    }
  }

  lemma HalveSum(lo: nat, b: nat)
    ensures (lo + 2 * b) % 2 == lo % 2 && (lo + 2 * b) / 2 == lo / 2 + b
  {
  }

  lemma HalveJoined(lo: nat, hi: nat, k: nat)
    requires k > 0
    ensures (lo + Pow2(k) * hi) % 2 == lo % 2
    ensures (lo + Pow2(k) * hi) / 2 == lo / 2 + Pow2(k - 1) * hi
    ensures lo < Pow2(k) ==> lo / 2 < Pow2(k - 1)
  {
    var p := Pow2(k - 1);
    assert (2 * p) * hi == 2 * (p * hi);
    HalveSum(lo, p * hi);
  }

  // A word made of two fields, the low one k bits wide.
  lemma {:induction false} LowBitsJoin(lo: nat, hi: nat, k: nat, w: nat)
    requires lo < Pow2(k)
    ensures LowBits(lo + Pow2(k) * hi, k + w) == LowBits(lo, k) + LowBits(hi, w)
    decreases k
  {
    var n := lo + Pow2(k) * hi;
    if k > 0 {
      hide LowBits, Pow2;
      HalveJoined(lo, hi, k);
      LowBitsSplit(n, k + w);
      LowBitsSplit(lo, k);
      LowBitsJoin(lo / 2, hi, k - 1, w);
    } else {
      assert n == hi;
      assert LowBits(lo, 0) + LowBits(hi, w) == LowBits(hi, w);
    }
  }

  lemma {:induction false} HighBitsJoin(lo: nat, hi: nat, k: nat, w: nat)
    requires lo < Pow2(k)
    ensures HighBits(lo + Pow2(k) * hi, w + k) == HighBits(hi, w) + HighBits(lo, k)
    decreases k
  {
    var n := lo + Pow2(k) * hi;
    if k > 0 {
      hide HighBits, Pow2;
      HalveJoined(lo, hi, k);
      HighBitsSplit(n, w + k);
      HighBitsSplit(lo, k);
      HighBitsJoin(lo / 2, hi, k - 1, w);
    } else {
      assert n == hi;
      assert HighBits(hi, w) + HighBits(lo, 0) == HighBits(hi, w);
    }
  }

  // The first of the high bits, and the rest.
  lemma {:induction false} HighBitsTop(n: nat, w: nat)
    requires w > 0
    ensures HighBits(n, w)[0] == (n / Pow2(w - 1) % 2 == 1)
    ensures HighBits(n, w)[1..] == HighBits(n, w - 1)
    decreases w
  {
    if w == 1 {
      assert HighBits(n, 1)[1..] == [];
    } else {
      HighBitsTop(n / 2, w - 1);
      assert HighBits(n, w)[1..] == HighBits(n / 2, w - 1)[1..] + [n % 2 == 1];
      HalveThenDivide(n, Pow2(w - 2));
    }
  }

  lemma HalveThenDivide(n: nat, d: nat)
    requires d > 0
    ensures n / (2 * d) == n / 2 / d
  {
    var q, h := n / 2 / d, n / 2;
    assert h == q * d + h % d;
    assert n == 2 * d * q + (2 * (h % d) + n % 2);
    DivideUnique(n, 2 * d, q, 2 * (h % d) + n % 2);
  }

  lemma MultipleBelow(d: int, k: int)
    requires -d < d * k < d
    ensures k == 0
  {
  }

  lemma DivideUnique(n: nat, d: nat, q: nat, r: nat)
    requires r < d && n == d * q + r
    ensures n / d == q && n % d == r
  {
    var q' := n / d;
    assert d * (q - q') == n % d - r;
    MultipleBelow(d, q - q');
  }

  // Bits above the w-th play no part.
  lemma {:induction false} HighBitsMod(n: nat, w: nat, k: nat)
    requires w <= k
    ensures HighBits(n % Pow2(k), w) == HighBits(n, w)
    decreases w
  {
    if w > 0 {
      ModHalves(n, Pow2(k - 1));
      HighBitsMod(n / 2, w - 1, k - 1);
    }
  }

  lemma ModHalves(n: nat, d: nat)
    requires d > 0
    ensures n % (2 * d) / 2 == (n / 2) % d
    ensures n % (2 * d) % 2 == n % 2
  {
    HalveThenDivide(n, d);
    var q := n / 2 / d;
    assert n == 2 * d * q + n % (2 * d);
    assert n / 2 == d * q + (n / 2) % d;
    assert n % (2 * d) == 2 * ((n / 2) % d) + n % 2;
  }

  // ----- words as they are stored, low byte first -----

  function Le16(x: u16): (b: seq<byte>)
    ensures |b| == 2
  {
    [x % 0x100, x / 0x100]
  }

  function Le32(x: u32): (b: seq<byte>)
    ensures |b| == 4
  {
    [x % 0x100, x / 0x100 % 0x100, x / 0x1_0000 % 0x100, x / 0x100_0000]
  }

  function Word16(lo: byte, hi: byte): u16 {
    lo as int + 0x100 * (hi as int)
  }

  function Word32(b: seq<byte>): u32
    requires |b| == 4
  {
    b[0] as int + 0x100 * (b[1] as int) + 0x1_0000 * (b[2] as int) + 0x100_0000 * (b[3] as int)
  }

  lemma Word16OfLe16(x: u16)
    ensures Word16(Le16(x)[0], Le16(x)[1]) == x
  {
  }

  lemma LowByte(lo: byte, rest: nat)
    ensures (lo as int + 0x100 * rest) % 0x100 == lo && (lo as int + 0x100 * rest) / 0x100 == rest
  {
  }

  lemma Word32OfLe32(b: seq<byte>, x: u32)
    requires |b| == 4
    ensures Word32(b) == x <==> b == Le32(x)
  {
    var h1, h2, h3 := x / 0x100, x / 0x1_0000, x / 0x100_0000;
    assert h2 == h1 / 0x100 && h3 == h2 / 0x100;
    var g3, g2, g1 := b[3] as nat, b[2] as nat + 0x100 * b[3] as nat,
      b[1] as nat + 0x100 * (b[2] as nat + 0x100 * b[3] as nat);
    assert Word32(b) == b[0] as int + 0x100 * g1;
    LowByte(b[0], g1);
    LowByte(b[1], g2);
    LowByte(b[2], g3);
    assert b == [b[0], b[1], b[2], b[3]];
  }
}
