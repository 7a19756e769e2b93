/**
 Division of bit strings over GF(2), the algebra behind both checksums.

 A generator x^w + g is given by the w coefficients g of its lower part, highest
 first; a remainder register is a bit string of the same length, highest first.
 */
module Gf2 {
  type Bits = seq<bool>

  function Xor(a: Bits, b: Bits): (c: Bits)
    requires |a| == |b|
    ensures |c| == |a|
    ensures forall i :: 0 <= i < |a| ==> c[i] == (a[i] != b[i])
  {
    seq(|a|, i requires 0 <= i < |a| => a[i] != b[i])
  }

  function Zeros(n: nat): (z: Bits)
    ensures |z| == n
    ensures forall i :: 0 <= i < n ==> !z[i]
  {
    seq(n, _ => false)
  }

  lemma XorLaws(a: Bits)
    ensures Xor(a, Zeros(|a|)) == a == Xor(Zeros(|a|), a)
    ensures Xor(a, a) == Zeros(|a|)
  {
  }

  lemma XorCancels(a: Bits, b: Bits)
    requires |a| == |b|
    ensures Xor(a, b) == Zeros(|a|) <==> a == b
  {
    var d := Xor(a, b);
    if d == Zeros(|a|) {
      forall i | 0 <= i < |a| ensures a[i] == b[i] { assert !d[i]; }
    } else {
      XorLaws(a);
    }
  }

  function Select(b: bool, g: Bits): (r: Bits)
    ensures |r| == |g|
  {
    if b then g else Zeros(|g|)
  }

  ghost predicate Generator(g: Bits) {
    |g| > 0 && g[|g| - 1]
  }

  // One step of long division: bring down the next bit, subtract if it goes.
  function Step(g: Bits, r: Bits, b: bool): (r': Bits)
    requires |r| == |g| > 0
    ensures |r'| == |g|
  {
    Xor(r[1..] + [b], Select(r[0], g))
  }

  function Divide(g: Bits, r: Bits, m: Bits): (r': Bits)
    requires |r| == |g| > 0
    ensures |r'| == |g|
    decreases |m|
  {
    if m == [] then r else Divide(g, Step(g, r, m[0]), m[1..])
  }

  // The shortcut form that needs no zero bits appended to the message: the next
  // bit is compared with the top of the register.
  function DirectStep(g: Bits, r: Bits, b: bool): (r': Bits)
    requires |r| == |g| > 0
    ensures |r'| == |g|
  {
    Xor(r[1..] + [false], Select(r[0] != b, g))
  }

  function Direct(g: Bits, r: Bits, m: Bits): (r': Bits)
    requires |r| == |g| > 0
    ensures |r'| == |g|
    decreases |m|
  {
    if m == [] then r else Direct(g, DirectStep(g, r, m[0]), m[1..])
  }

  // Multiplication of a remainder by x^w.
  function Flush(g: Bits, r: Bits): (r': Bits)
    requires |r| == |g| > 0
    ensures |r'| == |g|
  {
    Divide(g, r, Zeros(|g|))
  }

  lemma {:induction false} DivideAppend(g: Bits, r: Bits, m: Bits, n: Bits)
    requires |r| == |g| > 0
    ensures Divide(g, r, m + n) == Divide(g, Divide(g, r, m), n)
    decreases |m|
  {
    if m == [] {
      assert m + n == n;
    } else {
      assert (m + n)[0] == m[0] && (m + n)[1..] == m[1..] + n;
      DivideAppend(g, Step(g, r, m[0]), m[1..], n);
    }
  }

  lemma {:induction false} DirectAppend(g: Bits, r: Bits, m: Bits, n: Bits)
    requires |r| == |g| > 0
    ensures Direct(g, r, m + n) == Direct(g, Direct(g, r, m), n)
    decreases |m|
  {
    if m == [] {
      assert m + n == n;
    } else {
      assert (m + n)[0] == m[0] && (m + n)[1..] == m[1..] + n;
      DirectAppend(g, DirectStep(g, r, m[0]), m[1..], n);
    }
  }

  lemma StepLinear(g: Bits, r: Bits, s: Bits, a: bool, b: bool)
    requires |r| == |s| == |g| > 0
    ensures Step(g, Xor(r, s), a != b) == Xor(Step(g, r, a), Step(g, s, b))
  {
  }

  /** Remainders add: the remainder of a sum is the sum of the remainders. */
  lemma {:induction false} DivideLinear(g: Bits, r: Bits, s: Bits, m: Bits, n: Bits)
    requires |r| == |s| == |g| > 0 && |m| == |n|
    ensures Divide(g, Xor(r, s), Xor(m, n)) == Xor(Divide(g, r, m), Divide(g, s, n))
    decreases |m|
  {
    if m != [] {
      StepLinear(g, r, s, m[0], n[0]);
      assert Xor(m, n)[1..] == Xor(m[1..], n[1..]);
      DivideLinear(g, Step(g, r, m[0]), Step(g, s, n[0]), m[1..], n[1..]);
    }
  }

  lemma StepInjective(g: Bits, r: Bits, s: Bits, b: bool)
    requires Generator(g) && |r| == |s| == |g|
    requires Step(g, r, b) == Step(g, s, b)
    ensures r == s
  {
    var w := |g|;
    var x, y := Step(g, r, b), Step(g, s, b);
    assert x[w - 1] == (b != r[0]) && y[w - 1] == (b != s[0]);
    forall i | 1 <= i < w ensures r[i] == s[i] {
      assert x[i - 1] == y[i - 1];
    }
  }

  lemma {:induction false} DivideInjective(g: Bits, r: Bits, s: Bits, m: Bits)
    requires Generator(g) && |r| == |s| == |g|
    requires Divide(g, r, m) == Divide(g, s, m)
    ensures r == s
    decreases |m|
  {
    if m != [] {
      DivideInjective(g, Step(g, r, m[0]), Step(g, s, m[0]), m[1..]);
      StepInjective(g, r, s, m[0]);
    }
  }

  // A register whose top |m| bits are clear just shifts m in.
  lemma {:induction false} DivideLoads(g: Bits, r: Bits, m: Bits)
    requires |r| == |g| > 0 && |m| <= |g|
    requires forall i :: 0 <= i < |m| ==> !r[i]
    ensures Divide(g, r, m) == r[|m|..] + m
    decreases |m|
  {
    if m != [] {
      var r', n := r[1..] + [m[0]], m[1..];
      XorLaws(r');
      DivideLoads(g, r', n);
      assert r'[|n|..] + n == r[|m|..] + m;
    }
  }

  lemma DivideFromClear(g: Bits, m: Bits)
    requires |m| == |g| > 0
    ensures Divide(g, Zeros(|g|), m) == m
  {
    DivideLoads(g, Zeros(|g|), m);
    assert Zeros(|g|)[|m|..] + m == m;
  }

  lemma {:induction false} DivideZeros(g: Bits, n: nat)
    requires |g| > 0
    ensures Divide(g, Zeros(|g|), Zeros(n)) == Zeros(|g|)
  {
    if n > 0 {
      assert Step(g, Zeros(|g|), false) == Zeros(|g|);
      assert Zeros(n)[1..] == Zeros(n - 1);
      DivideZeros(g, n - 1);
    }
  }

  // x^w is congruent to g.
  lemma FlushUnit(g: Bits)
    requires |g| > 0
    ensures Flush(g, Zeros(|g| - 1) + [true]) == g
  {
    var w := |g|;
    var unit := Zeros(w - 1) + [true];
    var top := [true] + Zeros(w - 1);
    DivideAppend(g, unit, Zeros(w - 1), [false]);
    assert Zeros(w - 1) + [false] == Zeros(w);
    DivideLoads(g, unit, Zeros(w - 1));
    assert unit[w - 1..] + Zeros(w - 1) == top;
    assert Divide(g, top, [false]) == Step(g, top, false) == g by {
      assert [false][1..] == [];
      assert Step(g, top, false) == g;
    }
  }

  lemma FlushStep(g: Bits, r: Bits, b: bool)
    requires |r| == |g| > 0
    ensures DirectStep(g, Flush(g, r), b) == Flush(g, Step(g, r, b))
  {
    var w := |g|;
    var unit := Zeros(w - 1) + [b];
    var z := Zeros(w);
    assert Flush(g, Step(g, r, b)) == Xor(Flush(g, Step(g, r, false)), Flush(g, unit)) by {
      assert Step(g, r, b) == Xor(Step(g, r, false), unit);
      assert z == Xor(z, z);
      DivideLinear(g, Step(g, r, false), unit, z, z);
    }
    assert Flush(g, unit) == Select(b, g) by {
      if b { FlushUnit(g); } else { assert unit == z; DivideZeros(g, w); }
    }
    assert Flush(g, Step(g, r, false)) == Step(g, Flush(g, r), false) by {
      assert [false] + z == z + [false];
      DivideAppend(g, r, [false], z);
      DivideAppend(g, r, z, [false]);
      assert Divide(g, r, [false]) == Step(g, r, false);
      assert Divide(g, Flush(g, r), [false]) == Step(g, Flush(g, r), false);
    }
    var f := Flush(g, r);
    assert DirectStep(g, f, b) == Xor(Step(g, f, false), Select(b, g));
  }

  /** The shortcut form on a flushed register is long division, then the flush. */
  lemma {:induction false} DirectIsFlushed(g: Bits, r: Bits, m: Bits)
    requires |r| == |g| > 0
    ensures Direct(g, Flush(g, r), m) == Flush(g, Divide(g, r, m))
    decreases |m|
  {
    if m != [] {
      FlushStep(g, r, m[0]);
      DirectIsFlushed(g, Step(g, r, m[0]), m[1..]);
    }
  }

  /** Appending w zero bits, from a clear register, is the shortcut form: for every message. */
  lemma AugmentedIsDirect(g: Bits, m: Bits)
    requires |g| > 0
    ensures Divide(g, Zeros(|g|), m + Zeros(|g|)) == Direct(g, Zeros(|g|), m)
  {
    DivideAppend(g, Zeros(|g|), m, Zeros(|g|));
    DivideZeros(g, |g|);
    DirectIsFlushed(g, Zeros(|g|), m);
  }

  /**
   A message with a w-bit field appended divides evenly exactly when the field is
   the message's own remainder.
   */
  lemma CodewordIffRemainder(g: Bits, m: Bits, field: Bits)
    requires |field| == |g| > 0
    ensures Divide(g, Zeros(|g|), m + field) == Zeros(|g|)
       <==> field == Divide(g, Zeros(|g|), m + Zeros(|g|))
  {
    var z := Zeros(|g|);
    var r := Divide(g, z, m);
    DivideAppend(g, z, m, field);
    DivideAppend(g, z, m, z);
    XorLaws(r);
    XorLaws(field);
    DivideLinear(g, r, z, z, field);
    DivideFromClear(g, field);
    XorCancels(Divide(g, r, z), field);
  }

  // ----- error patterns -----

  ghost predicate SameOutside(a: Bits, b: Bits, lo: nat, hi: nat)
    requires |a| == |b|
  {
    forall i :: 0 <= i < |a| && !(lo <= i < hi) ==> a[i] == b[i]
  }

  // No multiple of the generator has all its terms within w consecutive powers.
  lemma BurstHasRemainder(g: Bits, before: nat, burst: Bits, after: nat)
    requires Generator(g) && |burst| == |g| && burst != Zeros(|g|)
    ensures Divide(g, Zeros(|g|), Zeros(before) + (burst + Zeros(after))) != Zeros(|g|)
  {
    var z := Zeros(|g|);
    DivideAppend(g, z, Zeros(before), burst + Zeros(after));
    DivideZeros(g, before);
    DivideAppend(g, z, burst, Zeros(after));
    DivideFromClear(g, burst);
    DivideZeros(g, after);
    if Divide(g, burst, Zeros(after)) == z {
      DivideInjective(g, burst, z, Zeros(after));
    }
  }

  // The sum of two strings that differ only in a window is that window between zeros.
  lemma BurstShape(a: Bits, b: Bits, lo: nat, w: nat)
    requires |a| == |b| && lo + w <= |a|
    requires SameOutside(a, b, lo, lo + w) && a != b
    ensures var e := Xor(a, b);
      e == Zeros(lo) + (e[lo..lo + w] + Zeros(|a| - lo - w)) && e[lo..lo + w] != Zeros(w)
  {
    var e := Xor(a, b);
    var i :| 0 <= i < |a| && a[i] != b[i];
    assert e[lo..lo + w][i - lo];
  }

  lemma BurstSumHasRemainder(g: Bits, a: Bits, b: Bits, lo: nat)
    requires Generator(g) && |a| == |b| && lo + |g| <= |a|
    requires SameOutside(a, b, lo, lo + |g|) && a != b
    ensures Divide(g, Zeros(|g|), Xor(a, b)) != Zeros(|g|)
  {
    var e, w := Xor(a, b), |g|;
    assert e == Zeros(lo) + (e[lo..lo + w] + Zeros(|a| - lo - w)) && e[lo..lo + w] != Zeros(w) by {
      BurstShape(a, b, lo, w);
    }
    BurstHasRemainder(g, lo, e[lo..lo + w], |a| - lo - w);
  }

  lemma SumDividesIffSame(g: Bits, a: Bits, b: Bits)
    requires |g| > 0 && |a| == |b|
    ensures Divide(g, Zeros(|g|), Xor(a, b)) == Zeros(|g|)
       <==> Divide(g, Zeros(|g|), a) == Divide(g, Zeros(|g|), b)
  {
    XorLaws(Zeros(|g|));
    DivideLinear(g, Zeros(|g|), Zeros(|g|), a, b);
    XorCancels(Divide(g, Zeros(|g|), a), Divide(g, Zeros(|g|), b));
  }

  /** Two different messages that agree outside some w consecutive bits have different remainders. */
  lemma BurstChangesRemainder(g: Bits, a: Bits, b: Bits, lo: nat)
    requires Generator(g) && |a| == |b| && lo + |g| <= |a|
    requires SameOutside(a, b, lo, lo + |g|) && a != b
    ensures Divide(g, Zeros(|g|), a) != Divide(g, Zeros(|g|), b)
  {
    BurstSumHasRemainder(g, a, b, lo);
    SumDividesIffSame(g, a, b);
  }

  // ----- parity -----

  function Parity(m: Bits): bool {
    m != [] && (m[0] != Parity(m[1..]))
  }

  lemma {:induction false} ParityAppend(m: Bits, b: bool)
    ensures Parity(m + [b]) == (Parity(m) != b)
  {
    if m == [] {
      assert [b][1..] == [];
    } else {
      assert (m + [b])[1..] == m[1..] + [b];
      ParityAppend(m[1..], b);
    }
  }

  lemma {:induction false} ParityXor(a: Bits, b: Bits)
    requires |a| == |b|
    ensures Parity(Xor(a, b)) == (Parity(a) != Parity(b))
  {
    if a != [] {
      assert Xor(a, b)[1..] == Xor(a[1..], b[1..]);
      ParityXor(a[1..], b[1..]);
    }
  }

  lemma {:induction false} ParityZeros(n: nat)
    ensures !Parity(Zeros(n))
  {
    if n > 0 {
      assert Zeros(n)[1..] == Zeros(n - 1);
      ParityZeros(n - 1);
    }
  }

  /**
   When the generator x^w + g has an even number of terms, division preserves
   parity, whatever the length of the message.
   */
  lemma {:induction false} DivideKeepsParity(g: Bits, r: Bits, m: Bits)
    requires |r| == |g| > 0 && Parity(g)
    ensures Parity(Divide(g, r, m)) == (Parity(r) != Parity(m))
    decreases |m|
  {
    if m != [] {
      var s := Step(g, r, m[0]);
      ParityXor(r[1..] + [m[0]], Select(r[0], g));
      ParityAppend(r[1..], m[0]);
      ParityZeros(|g|);
      DivideKeepsParity(g, s, m[1..]);
    }
  }

  function Distance(a: Bits, b: Bits): nat
    requires |a| == |b|
  {
    if a == [] then 0 else (if a[0] != b[0] then 1 else 0) + Distance(a[1..], b[1..])
  }

  lemma {:induction false} DistanceParity(a: Bits, b: Bits)
    requires |a| == |b|
    ensures Distance(a, b) % 2 == 1 <==> Parity(a) != Parity(b)
  {
    if a != [] {
      DistanceParity(a[1..], b[1..]);
    }
  }

  /** Any odd number of changed bits changes the remainder. */
  lemma OddErrorChangesRemainder(g: Bits, a: Bits, b: Bits)
    requires |g| > 0 && Parity(g) && |a| == |b|
    requires Distance(a, b) % 2 == 1
    ensures Divide(g, Zeros(|g|), a) != Divide(g, Zeros(|g|), b)
  {
    DistanceParity(a, b);
    DivideKeepsParity(g, Zeros(|g|), a);
    DivideKeepsParity(g, Zeros(|g|), b);
  }

  // ----- the shortcut form from any initial register -----

  // Adding m into the top of the register and then feeding zeros is the same.
  lemma {:induction false} DirectIsAddThenShift(g: Bits, r: Bits, m: Bits)
    requires |r| == |g| > 0 && |m| <= |g|
    ensures Direct(g, r, m) == Divide(g, Xor(r, m + Zeros(|g| - |m|)), Zeros(|m|))
    decreases |m|
  {
    if m == [] {
      assert Xor(r, m + Zeros(|g|)) == r;
    } else {
      var x := Xor(r, m + Zeros(|g| - |m|));
      var r' := DirectStep(g, r, m[0]);
      DirectIsAddThenShift(g, r', m[1..]);
      assert Zeros(|m|)[1..] == Zeros(|m| - 1);
      assert Step(g, x, false) == Xor(r', m[1..] + Zeros(|g| - |m| + 1));
    }
  }

  /** Running the register's own bits through it, and only those, leaves zero. */
  lemma ResidueIffOwnBits(g: Bits, r: Bits, field: Bits)
    requires Generator(g) && |r| == |field| == |g|
    ensures Direct(g, r, field) == Zeros(|g|) <==> field == r
  {
    var z, x := Zeros(|g|), Xor(r, field);
    DirectIsAddThenShift(g, r, field);
    assert field + Zeros(0) == field;
    DivideZeros(g, |g|);
    XorCancels(r, field);
    if Direct(g, r, field) == z {
      DivideInjective(g, x, z, z);
    }
  }

  lemma DirectLinear(g: Bits, r: Bits, s: Bits, m: Bits, n: Bits)
    requires |r| == |s| == |g| > 0 && |m| == |n|
    ensures Direct(g, Xor(r, s), Xor(m, n)) == Xor(Direct(g, r, m), Direct(g, s, n))
    decreases |m|
  {
    if m != [] {
      assert DirectStep(g, Xor(r, s), m[0] != n[0]) == Xor(DirectStep(g, r, m[0]), DirectStep(g, s, n[0]));
      assert Xor(m, n)[1..] == Xor(m[1..], n[1..]);
      DirectLinear(g, DirectStep(g, r, m[0]), DirectStep(g, s, n[0]), m[1..], n[1..]);
    }
  }

  /** A w-bit burst changes the shortcut form's remainder from any initial register. */
  lemma BurstChangesDirect(g: Bits, r: Bits, a: Bits, b: Bits, lo: nat)
    requires Generator(g) && |r| == |g| && |a| == |b| && lo + |g| <= |a|
    requires SameOutside(a, b, lo, lo + |g|) && a != b
    ensures Direct(g, r, a) != Direct(g, r, b)
  {
    var z, e := Zeros(|g|), Xor(a, b);
    if Direct(g, r, a) == Direct(g, r, b) {
      DirectLinear(g, r, r, a, b);
      XorLaws(r);
      XorLaws(Direct(g, r, a));
      AugmentedIsDirect(g, e);
      DivideAppend(g, z, e, z);
      DivideZeros(g, |g|);
      DivideInjective(g, Divide(g, z, e), z, z);
      BurstSumHasRemainder(g, a, b, lo);
    }
  }
}
