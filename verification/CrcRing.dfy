// The ring GF(2)[y]/VM in which the CRC32C kernels compute, and the reflected
// CRC32C register stepping in it.
//
// VM is the reciprocal of the CRC32C polynomial 0x11EDC6F41 (section 12.1 of RFC
// 3720): reading bit i of the reflected register as the coefficient of y^i, one
// shift of the register is a division by y.
//
// Some lemmas here and in the modules above take a constant as a parameter with its value
// as a requires (p == POLY, m == VM, w == 64): a parameter keeps the solver from evaluating
// the recursive functions of module Gf2 on the literal.
module CrcRing {
  import opened Gf2

  const VM: nat := 0x1_05EC_76F1
  const VQ: nat := 0x05EC_76F1
  const POLY: nat := 0x82F6_3B78
  const W32: nat := 0x1_0000_0000

  lemma Widths()
    ensures Pow2(32) == W32 && VM == W32 + VQ && VM == 1 + 2 * POLY
    ensures VM < Pow2(33) && VQ < Pow2(27) && POLY < Pow2(32)
  {
    assert Pow2(8) == 0x100;
    assert Pow2(16) == 0x1_0000;
    assert Pow2(24) == 0x100_0000;
    assert Pow2(27) == 0x800_0000;
    assert Pow2(32) == 0x1_0000_0000;
    assert Pow2(33) == 0x2_0000_0000;
  }

  /** Multiplication by y of a reduced element. */
  function MulY(c: nat): nat {
    if 2 * c < W32 then 2 * c else Xor(2 * c, VM)
  }

  /** One shift of the reflected CRC32C register. */
  function BitStep(c: nat): nat {
    if c % 2 == 1 then Xor(c / 2, POLY) else c / 2
  }

  /** The representative of v modulo VM of degree below 32, by Horner's rule. */
  function Red(v: nat): nat {
    if v == 0 then 0 else Xor(v % 2, MulY(Red(v / 2)))
  }

  /** Ring product of two classes, given by any representatives. */
  function RMul(a: nat, b: nat): nat {
    Red(Clmul(a, b))
  }

  // ---- multiplication and division by y ---------------------------------------

  lemma MulYBound(c: nat)
    requires c < W32
    ensures MulY(c) < W32
  {
    Widths();
    if 2 * c >= W32 {
      var d := 2 * c - W32;
      Join(1, d, 32);
      Join(1, VQ, 32);
      Pow2Mono(27, 32);
      assert Shl(1, 32) == W32 by { ShlOne(32); }
      XorSwap(W32, d, W32, VQ);
      XorSelf(W32);
      XorZero(Xor(d, VQ));
      XorBound(d, VQ, 32);
    }
  }

  lemma {:induction false} ShlOne(n: nat)
    ensures Shl(1, n) == Pow2(n)
  {
    if n > 0 { ShlOne(n - 1); }
  }

  lemma MulYXor(a: nat, b: nat)
    requires a < W32 && b < W32
    ensures MulY(Xor(a, b)) == Xor(MulY(a), MulY(b))
  {
    hide Xor, Clmul, Red;
    Widths();
    XorDouble(a, b);
    TopBit(a, b);
    var x, y := 2 * a, 2 * b;
    XorSelf(VM);
    if x < W32 && y < W32 {
    } else if x < W32 {
      XorAssoc(x, y, VM);
    } else if y < W32 {
      XorAssoc(x, y, VM); XorComm(y, VM); XorAssoc(x, VM, y);
    } else {
      XorSwap(x, VM, y, VM);
      XorZero(Xor(x, y));
    }
  }

  /** Bit 31 of a sum of registers is set when it is set in exactly one of them. */
  lemma TopBit(a: nat, b: nat)
    requires a < W32 && b < W32
    ensures 2 * Xor(a, b) >= W32 <==> (2 * a >= W32) != (2 * b >= W32)
  {
    Widths();
    assert Pow2(31) == 0x8000_0000;
    TopBitAt(a, b, 31);
  }

  lemma TopBitAt(a: nat, b: nat, n: nat)
    requires a < Pow2(n + 1) && b < Pow2(n + 1)
    ensures Xor(a, b) >= Pow2(n) <==> (a >= Pow2(n)) != (b >= Pow2(n))
  {
    hide Xor, Clmul, Red, Shl, Shr;
    XorBound(a, b, n + 1);
    XorShr(a, b, n);
    TopBitOf(a, n); TopBitOf(b, n); TopBitOf(Xor(a, b), n);
    XorStep(Shr(a, n), Shr(b, n));
  }

  lemma {:induction false} TopBitOf(a: nat, n: nat)
    requires a < Pow2(n + 1)
    ensures Shr(a, n) == if a >= Pow2(n) then 1 else 0
    decreases n
  {
    if n > 0 { TopBitOf(a / 2, n - 1); }
  }

  /** Shifting the register and multiplying by y are mutually inverse. */
  lemma BitStepInverse(c: nat)
    requires c < W32
    ensures BitStep(c) < W32 && MulY(BitStep(c)) == c
    ensures BitStep(MulY(c)) == c
  {
    StepThenMul(c, POLY, VM);
    MulThenStep(c, POLY, VM);
  }

  lemma StepThenMul(c: nat, p: nat, m: nat)
    requires c < W32 && p == POLY && m == VM
    ensures BitStep(c) < W32 && MulY(BitStep(c)) == c
  {
    Widths();
    var h := c / 2;
    if c % 2 == 1 {
      assert m == 1 + 2 * p && 2 * p >= W32 && p < W32;
      XorBound(h, p, 32);
      TopBit(h, p);
      Cancel(h, p, m);
    }
  }

  /** 2h + 2p + m == 2h + 1 when m is 2p + 1. */
  lemma Cancel(h: nat, p: nat, m: nat)
    requires m == 1 + 2 * p
    ensures Xor(2 * Xor(h, p), m) == 1 + 2 * h
  {
    hide Xor, Clmul, Red, Pow2;
    XorDouble(h, p);
    XorLow(1, p);
    XorLow(1, h);
    RegroupCancel(2 * h, 2 * p, 1);
  }

  lemma RegroupCancel(h: nat, p: nat, i: nat)
    ensures Xor(Xor(h, p), Xor(i, p)) == Xor(i, h)
  {
    hide Xor, Clmul, Red, Pow2;
    BitXorAll();
    BitExt(Xor(Xor(h, p), Xor(i, p)), Xor(i, h));
  }

  lemma MulThenStep(c: nat, p: nat, m: nat)
    requires c < W32 && p == POLY && m == VM
    ensures BitStep(MulY(c)) == c
  {
    Widths();
    assert m == 1 + 2 * p;
    XorHalf(2 * c, m);
    XorCancel(c, p);
  }

  // ---- reduction modulo VM ----------------------------------------------------

  lemma {:induction false} RedBound(v: nat)
    ensures Red(v) < W32
  {
    Widths();
    if v > 0 {
      RedBound(v / 2);
      MulYBound(Red(v / 2));
      Pow2Mono(1, 32);
      XorBound(v % 2, MulY(Red(v / 2)), 32);
    }
  }

  lemma RedStep(v: nat)
    ensures Red(v) == Xor(v % 2, MulY(Red(v / 2)))
  {
    XorZero(0);
  }

  lemma RedDouble(v: nat)
    ensures Red(2 * v) == MulY(Red(v))
  {
    assert (2 * v) % 2 == 0 && (2 * v) / 2 == v;
    RedSplit(2 * v, 0, v);
    XorZero(MulY(Red(v)));
  }

  lemma RedSplit(v: nat, i: nat, h: nat)
    requires v == i + 2 * h && i < 2
    ensures Red(v) == Xor(i, MulY(Red(h)))
  {
    RedStep(v);
    assert v % 2 == i && v / 2 == h;
  }

  lemma {:induction false} RedXor(a: nat, b: nat)
    ensures Red(Xor(a, b)) == Xor(Red(a), Red(b))
    decreases a + b
  {
    if a + b == 0 {
      XorZero(0);
    } else {
      var p, q, i, j := a / 2, b / 2, a % 2, b % 2;
      RedXor(p, q);
      XorStep(a, b);
      var k := (i + j) % 2;
      assert k == Xor(i, j) by { XorStep(i, j); }
      RedSplit(a, i, p); RedSplit(b, j, q); RedSplit(Xor(a, b), k, Xor(p, q));
      RedBound(p); RedBound(q);
      MulYXor(Red(p), Red(q));
      XorSwap(i, MulY(Red(p)), j, MulY(Red(q)));
    }
  }

  lemma {:induction false} RedSmall(v: nat)
    requires v < W32
    ensures Red(v) == v
  {
    if v > 0 {
      RedSmall(v / 2);
      XorLow(v % 2, v / 2);
    }
  }

  lemma {:induction false} RedMod(q: nat)
    ensures Red(Clmul(VM, q)) == 0
  {
    if q > 0 {
      RedMod(q / 2);
      RedXor(if q % 2 == 1 then VM else 0, 2 * Clmul(VM, q / 2));
      RedDouble(Clmul(VM, q / 2));
      RedVM();
      XorZero(0);
    }
  }

  lemma RedVM()
    ensures Red(VM) == 0
  {
    RedOf(POLY, VM);
  }

  lemma RedOf(p: nat, m: nat)
    requires p == POLY && m == VM
    ensures Red(m) == 0
  {
    hide Xor, Red, Pow2;
    Widths();
    RedSplit(m, 1, p);
    RedSmall(p);
    XorLow(1, p);
    XorAssoc(1, 2 * p, m);
    XorSelf(m);
  }

  /** Red(v) is the remainder of v: v is a multiple of VM plus Red(v). */
  lemma {:induction false} RedQuotient(v: nat) returns (q: nat)
    ensures v == Xor(Clmul(VM, q), Red(v))
  {
    if v == 0 {
      q := 0;
      XorZero(0);
    } else {
      var p := RedQuotient(v / 2);
      var r, i := Red(v / 2), v % 2;
      q := if 2 * r < W32 then 2 * p else 2 * p + 1;
      QuotientStep(v / 2, p, r, i, VM);
      RedSplit(v, i, v / 2);
    }
  }

  lemma QuotientStep(h: nat, p: nat, r: nat, i: nat, m: nat)
    requires m == VM && h == Xor(Clmul(m, p), r) && i < 2
    ensures i + 2 * h == Xor(Clmul(m, if 2 * r < W32 then 2 * p else 2 * p + 1), Xor(i, MulY(r)))
  {
    hide Xor, Clmul, Red, Shl, Shr;
    XorLow(i, h);
    XorDouble(Clmul(m, p), r);
    ClmulEvenOdd(m, p);
    RegroupRemainder(i, 2 * Clmul(m, p), 2 * r);
    RegroupCarry(i, 2 * Clmul(m, p), 2 * r, m);
  }

  lemma RegroupRemainder(i: nat, m: nat, r: nat)
    ensures Xor(i, Xor(m, r)) == Xor(m, Xor(i, r))
  {
    hide Xor, Clmul, Red, Pow2;
    BitXorAll();
    BitExt(Xor(i, Xor(m, r)), Xor(m, Xor(i, r)));
  }

  lemma RegroupCarry(i: nat, m: nat, r: nat, c: nat)
    ensures Xor(i, Xor(m, r)) == Xor(Xor(c, m), Xor(i, Xor(r, c)))
  {
    hide Xor, Clmul, Red, Pow2;
    BitXorAll();
    BitExt(Xor(i, Xor(m, r)), Xor(Xor(c, m), Xor(i, Xor(r, c))));
  }

  /** ... and it is the only such representative of degree below 32. */
  lemma RedUnique(v: nat, q: nat, r: nat)
    requires r < W32 && v == Xor(Clmul(VM, q), r)
    ensures r == Red(v)
  {
    hide Xor, Clmul, Red, Pow2;
    RedXor(Clmul(VM, q), r);
    RedMod(q);
    RedSmall(r);
    XorZero(r);
  }

  // ---- the ring laws ----------------------------------------------------------

  lemma {:induction false} RMulRedL(a: nat, b: nat)
    ensures RMul(Red(a), b) == RMul(a, b)
    decreases b
  {
    if b > 0 {
      RMulRedL(a, b / 2);
      RedBound(a);
      RedSmall(Red(a));
      RedXor(if b % 2 == 1 then a else 0, 2 * Clmul(a, b / 2));
      RedXor(if b % 2 == 1 then Red(a) else 0, 2 * Clmul(Red(a), b / 2));
      RedDouble(Clmul(a, b / 2));
      RedDouble(Clmul(Red(a), b / 2));
    }
  }

  lemma RMulComm(a: nat, b: nat)
    ensures RMul(a, b) == RMul(b, a)
  {
    hide Xor, Clmul, Red, Pow2;
    ClmulComm(a, b);
  }

  lemma RMulRedR(a: nat, b: nat)
    ensures RMul(a, Red(b)) == RMul(a, b)
  {
    RMulComm(a, Red(b));
    RMulRedL(b, a);
    RMulComm(a, b);
  }

  lemma RMulAssoc(a: nat, b: nat, c: nat)
    ensures RMul(RMul(a, b), c) == RMul(a, RMul(b, c))
  {
    RMulRedL(Clmul(a, b), c);
    RMulRedR(a, Clmul(b, c));
    ClmulAssoc(a, b, c);
  }

  lemma RMulXorL(a: nat, b: nat, c: nat)
    ensures RMul(Xor(a, b), c) == Xor(RMul(a, c), RMul(b, c))
  {
    ClmulXorL(a, b, c);
    RedXor(Clmul(a, c), Clmul(b, c));
  }

  lemma RMulOne(a: nat)
    ensures RMul(a, 1) == Red(a)
  {
    ClmulComm(a, 1);
    ClmulOne(a);
  }

  lemma RMulBound(a: nat, b: nat)
    ensures RMul(a, b) < W32
  {
    RedBound(Clmul(a, b));
  }

  // ---- powers of y and of its inverse -----------------------------------------

  function BitSteps(c: nat, n: nat): nat
    decreases n
  {
    if n == 0 then c else BitStep(BitSteps(c, n - 1))
  }

  /** y^(-n). */
  function Inv(n: nat): nat {
    BitSteps(1, n)
  }

  lemma {:induction false} BitStepsBound(c: nat, n: nat)
    requires c < W32
    ensures BitSteps(c, n) < W32
  {
    if n > 0 {
      BitStepsBound(c, n - 1);
      BitStepInverse(BitSteps(c, n - 1));
    }
  }

  /** A shift of the register multiplies its class by y^(-1), whatever the other factor. */
  lemma BitStepMul(a: nat, b: nat)
    requires a < W32
    ensures BitStep(RMul(a, b)) == RMul(BitStep(a), b)
  {
    var x := BitStep(a);
    BitStepInverse(a);
    RedSmall(x);
    RedDouble(x);
    RMulRedL(2 * x, b);
    ClmulDouble(x, b);
    RedDouble(Clmul(x, b));
    RMulBound(x, b);
    BitStepInverse(RMul(x, b));
  }

  /** Shifting n times multiplies by y^(-n). */
  lemma {:induction false} BitStepsMul(c: nat, n: nat)
    requires c < W32
    ensures BitSteps(c, n) == RMul(c, Inv(n))
    decreases n
  {
    if n == 0 {
      RMulOne(c);
      RedSmall(c);
    } else {
      BitStepsMul(c, n - 1);
      BitStepsBound(1, n - 1);
      RMulComm(c, Inv(n - 1));
      BitStepMul(Inv(n - 1), c);
      RMulComm(c, Inv(n));
    }
  }

  lemma {:induction false} BitStepsAdd(c: nat, m: nat, n: nat)
    ensures BitSteps(BitSteps(c, m), n) == BitSteps(c, m + n)
    decreases n
  {
    if n > 0 { BitStepsAdd(c, m, n - 1); }
  }

  lemma InvAdd(m: nat, n: nat)
    ensures Inv(m + n) == RMul(Inv(m), Inv(n))
  {
    hide Xor, Clmul, Red, Shl, Shr;
    BitStepsAdd(1, m, n);
    BitStepsBound(1, m);
    BitStepsMul(Inv(m), n);
  }

  lemma {:induction false} InvPow(n: nat)
    ensures RMul(Pow2(n), Inv(n)) == 1
    decreases n
  {
    if n == 0 {
      RMulOne(1);
      RedSmall(1);
    } else {
      InvPow(n - 1);
      var i := Inv(n - 1);
      BitStepsBound(1, n - 1);
      BitStepInverse(i);
      // 2^n * BitStep(i) == 2^(n-1) * (2 * BitStep(i)) == 2^(n-1) * i
      ClmulDouble(Pow2(n - 1), BitStep(i));
      ClmulComm(Pow2(n - 1), BitStep(i));
      ClmulDouble(BitStep(i), Pow2(n - 1));
      ClmulComm(2 * BitStep(i), Pow2(n - 1));
      RedSmall(BitStep(i));
      RedDouble(BitStep(i));
      RMulRedR(Pow2(n - 1), 2 * BitStep(i));
    }
  }

  /** Shifting left by n and multiplying by y^(-m), m >= n, leaves y^(n-m). */
  lemma ShlInv(a: nat, n: nat, m: nat)
    requires n <= m
    ensures RMul(Shl(a, n), Inv(m)) == RMul(a, Inv(m - n))
  {
    hide Xor, Clmul, Red, Shl, Shr;
    InvAdd(n, m - n);
    ClmulPow2(a, n);
    RMulRedL(Shl(a, n), Inv(m));
    RMulAssoc(a, Pow2(n), Inv(m));
    RMulAssoc(Pow2(n), Inv(n), Inv(m - n));
    InvPow(n);
    RMulComm(1, Inv(m - n));
    RMulOne(Inv(m - n));
    BitStepsBound(1, m - n);
    RedSmall(Inv(m - n));
  }

  lemma InvFits(n: nat)
    ensures Inv(n) < W32
  {
    BitStepsBound(1, n);
  }
}
