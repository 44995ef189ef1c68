// Polynomials over GF(2), coded as natural numbers: bit i of the number is the
// coefficient of y^i.  This is the representation of the derivation scripts
// (Python integers) and of the u64/u128 registers of the kernels.
module Gf2 {

  /** Addition of polynomials: bitwise exclusive or. */
  function Xor(a: nat, b: nat): nat
    decreases a + b
  {
    if a == 0 && b == 0 then 0
    else (a % 2 + b % 2) % 2 + 2 * Xor(a / 2, b / 2)
  }

  /** Carry-less product, least significant bit of the multiplier first. */
  function Clmul(a: nat, b: nat): nat
    decreases b
  {
    if b == 0 then 0
    else Xor(if b % 2 == 1 then a else 0, 2 * Clmul(a, b / 2))
  }

  function Pow2(n: nat): (p: nat)
    ensures p >= 1
  {
    if n == 0 then 1 else 2 * Pow2(n - 1)
  }

  /** Coefficient of y^i. */
  predicate Bit(a: nat, i: nat)
    decreases i
  {
    if i == 0 then a % 2 == 1 else Bit(a / 2, i - 1)
  }

  // ---- addition --------------------------------------------------------------

  lemma XorStep(a: nat, b: nat)
    ensures Xor(a, b) == (a % 2 + b % 2) % 2 + 2 * Xor(a / 2, b / 2)
  {
  }

  lemma XorHalf(a: nat, b: nat)
    ensures Xor(a, b) / 2 == Xor(a / 2, b / 2)
    ensures Xor(a, b) % 2 == (a % 2 + b % 2) % 2
  {
    XorStep(a, b);
  }

  lemma {:induction false} BitXor(a: nat, b: nat, i: nat)
    ensures Bit(Xor(a, b), i) == (Bit(a, i) != Bit(b, i))
    decreases i
  {
    XorHalf(a, b);
    if i > 0 {
      BitXor(a / 2, b / 2, i - 1);
    }
  }

  lemma BitXorAll()
    ensures forall a: nat, b: nat, i: nat :: Bit(Xor(a, b), i) == (Bit(a, i) != Bit(b, i))
  {
    forall a: nat, b: nat, i: nat {
      BitXor(a, b, i);
    }
  }

  /** Two polynomials with the same coefficients are equal. */
  lemma {:induction false} BitExt(a: nat, b: nat)
    requires forall i: nat :: Bit(a, i) == Bit(b, i)
    ensures a == b
    decreases a + b
  {
    assert Bit(a, 0) == Bit(b, 0);
    if a + b > 0 {
      forall i: nat ensures Bit(a / 2, i) == Bit(b / 2, i) {
        assert Bit(a, i + 1) == Bit(b, i + 1);
      }
      BitExt(a / 2, b / 2);
    }
  }

  lemma {:induction false} BitZero(i: nat)
    ensures !Bit(0, i)
  {
    if i > 0 { BitZero(i - 1); }
  }

  lemma XorComm(a: nat, b: nat)
    ensures Xor(a, b) == Xor(b, a)
  {
    BitXorAll();
    BitExt(Xor(a, b), Xor(b, a));
  }

  lemma XorAssoc(a: nat, b: nat, c: nat)
    ensures Xor(Xor(a, b), c) == Xor(a, Xor(b, c))
  {
    BitXorAll();
    BitExt(Xor(Xor(a, b), c), Xor(a, Xor(b, c)));
  }

  /** The exchange law used to regroup four summands. */
  lemma XorSwap(a: nat, b: nat, c: nat, d: nat)
    ensures Xor(Xor(a, b), Xor(c, d)) == Xor(Xor(a, c), Xor(b, d))
  {
    BitXorAll();
    BitExt(Xor(Xor(a, b), Xor(c, d)), Xor(Xor(a, c), Xor(b, d)));
  }

  lemma {:induction false} XorZero(a: nat)
    ensures Xor(a, 0) == a && Xor(0, a) == a
  {
    if a > 0 { XorZero(a / 2); }
  }

  lemma {:induction false} XorSelf(a: nat)
    ensures Xor(a, a) == 0
  {
    if a > 0 { XorSelf(a / 2); }
  }

  /** Adding the same polynomial twice cancels. */
  lemma XorCancel(a: nat, b: nat)
    ensures Xor(Xor(a, b), b) == a
  {
    XorAssoc(a, b, b);
    XorSelf(b);
    XorZero(a);
  }

  lemma XorDouble(a: nat, b: nat)
    ensures Xor(2 * a, 2 * b) == 2 * Xor(a, b)
  {
    XorStep(2 * a, 2 * b);
  }

  lemma {:induction false} XorBound(a: nat, b: nat, n: nat)
    requires a < Pow2(n) && b < Pow2(n)
    ensures Xor(a, b) < Pow2(n)
    decreases n
  {
    if n > 0 {
      XorBound(a / 2, b / 2, n - 1);
      XorStep(a, b);
    }
  }

  // ---- multiplication --------------------------------------------------------

  lemma {:induction false} ClmulZero(b: nat)
    ensures Clmul(0, b) == 0
  {
    if b > 0 { ClmulZero(b / 2); XorZero(0); }
  }

  lemma ClmulStep(a: nat, b: nat)
    ensures Clmul(a, b) == Xor(if b % 2 == 1 then a else 0, 2 * Clmul(a, b / 2))
  {
    if b == 0 { XorZero(0); }
  }

  lemma ClmulSplit(a: nat, b: nat, i: nat, h: nat)
    requires b == i + 2 * h && i < 2
    ensures Clmul(a, b) == Xor(if i == 1 then a else 0, 2 * Clmul(a, h))
  {
    assert b % 2 == i && b / 2 == h;
    ClmulStep(a, b);
  }

  lemma ClmulEvenOdd(a: nat, b: nat)
    ensures Clmul(a, 2 * b) == 2 * Clmul(a, b)
    ensures Clmul(a, 2 * b + 1) == Xor(a, 2 * Clmul(a, b))
  {
    ClmulSplit(a, 2 * b, 0, b);
    XorZero(2 * Clmul(a, b));
    ClmulSplit(a, 2 * b + 1, 1, b);
  }

  lemma {:induction false} ClmulDouble(a: nat, b: nat)
    ensures Clmul(2 * a, b) == 2 * Clmul(a, b)
    decreases b
  {
    if b > 0 {
      ClmulDouble(a, b / 2);
      XorDouble(if b % 2 == 1 then a else 0, 2 * Clmul(a, b / 2));
    }
  }

  lemma {:induction false} ClmulXorL(a: nat, c: nat, b: nat)
    ensures Clmul(Xor(a, c), b) == Xor(Clmul(a, b), Clmul(c, b))
    decreases b
  {
    if b == 0 {
      XorZero(0);
    } else {
      ClmulXorL(a, c, b / 2);
      XorDouble(Clmul(a, b / 2), Clmul(c, b / 2));
      XorZero(0);
      XorSwap(if b % 2 == 1 then a else 0, 2 * Clmul(a, b / 2), if b % 2 == 1 then c else 0, 2 * Clmul(c, b / 2));
    }
  }

  lemma {:induction false} ClmulOne(b: nat)
    ensures Clmul(1, b) == b
  {
    if b > 0 {
      ClmulOne(b / 2);
      XorLow(b % 2, b / 2);
    }
  }

  /** A polynomial is its constant term plus y times the rest. */
  lemma XorLow(r: nat, a: nat)
    requires r < 2
    ensures Xor(r, 2 * a) == r + 2 * a
  {
    XorStep(r, 2 * a);
    XorZero(a);
  }

  lemma ClmulStepL(a: nat, b: nat)
    ensures Clmul(a, b) == Xor(if a % 2 == 1 then b else 0, 2 * Clmul(a / 2, b))
  {
    XorLow(a % 2, a / 2);
    ClmulXorL(a % 2, 2 * (a / 2), b);
    ClmulOne(b);
    ClmulZero(b);
    ClmulDouble(a / 2, b);
  }

  lemma {:induction false} ClmulComm(a: nat, b: nat)
    ensures Clmul(a, b) == Clmul(b, a)
    decreases b
  {
    if b == 0 {
      ClmulZero(a);
    } else {
      ClmulComm(a, b / 2);
      ClmulStepL(b, a);
    }
  }

  lemma ClmulXorR(a: nat, b: nat, c: nat)
    ensures Clmul(a, Xor(b, c)) == Xor(Clmul(a, b), Clmul(a, c))
  {
    ClmulComm(a, Xor(b, c));
    ClmulXorL(b, c, a);
    ClmulComm(a, b);
    ClmulComm(a, c);
  }

  lemma {:induction false} ClmulAssoc(a: nat, b: nat, c: nat)
    ensures Clmul(Clmul(a, b), c) == Clmul(a, Clmul(b, c))
    decreases c
  {
    if c > 0 {
      var h := c / 2;
      ClmulAssoc(a, b, h);
      ClmulXorR(a, if c % 2 == 1 then b else 0, 2 * Clmul(b, h));
      ClmulComm(a, 2 * Clmul(b, h));
      ClmulDouble(Clmul(b, h), a);
      ClmulComm(a, Clmul(b, h));
    }
  }

  /** Multiplying by y^n shifts left. */
  lemma {:induction false} ClmulPow2(a: nat, n: nat)
    ensures Clmul(a, Pow2(n)) == Shl(a, n)
    decreases n
  {
    if n == 0 {
      ClmulComm(a, 1);
      ClmulOne(a);
    } else {
      ClmulPow2(a, n - 1);
      ClmulStep(a, Pow2(n));
      XorZero(2 * Clmul(a, Pow2(n - 1)));
    }
  }

  lemma {:induction false} ClmulBound(a: nat, b: nat, m: nat, n: nat)
    requires a < Pow2(m) && b < Pow2(n)
    requires n > 0
    ensures Clmul(a, b) < Pow2(m + n - 1)
    decreases n
  {
    if n == 1 {
      ClmulStep(a, b);
      XorZero(a);
      XorZero(0);
    } else {
      ClmulBound(a, b / 2, m, n - 1);
      Pow2Mono(m, m + n - 1);
      XorBound(if b % 2 == 1 then a else 0, 2 * Clmul(a, b / 2), m + n - 1);
      ClmulStep(a, b);
    }
  }

  // ---- powers of two, shifts and masks ---------------------------------------

  /** `a << n`, without a width. */
  function Shl(a: nat, n: nat): nat
    decreases n
  {
    if n == 0 then a else 2 * Shl(a, n - 1)
  }

  /** `a >> n`. */
  function Shr(a: nat, n: nat): nat
    decreases n
  {
    if n == 0 then a else Shr(a / 2, n - 1)
  }

  /** `a & (2^n - 1)`. */
  function Low(a: nat, n: nat): (r: nat)
    ensures r < Pow2(n)
    decreases n
  {
    if n == 0 then 0 else a % 2 + 2 * Low(a / 2, n - 1)
  }

  lemma {:induction false} Pow2Mono(m: nat, n: nat)
    requires m <= n
    ensures Pow2(m) <= Pow2(n)
    decreases n
  {
    if m < n { Pow2Mono(m, n - 1); }
  }

  lemma {:induction false} ShlBound(a: nat, m: nat, n: nat)
    requires a < Pow2(m)
    ensures Shl(a, n) < Pow2(m + n)
    decreases n
  {
    if n > 0 { ShlBound(a, m, n - 1); }
  }

  lemma {:induction false} ShlXor(a: nat, b: nat, n: nat)
    ensures Shl(Xor(a, b), n) == Xor(Shl(a, n), Shl(b, n))
    decreases n
  {
    if n > 0 {
      ShlXor(a, b, n - 1);
      XorDouble(Shl(a, n - 1), Shl(b, n - 1));
    }
  }

  lemma {:induction false} ShlShl(a: nat, m: nat, n: nat)
    ensures Shl(Shl(a, m), n) == Shl(a, m + n)
    decreases n
  {
    if n > 0 { ShlShl(a, m, n - 1); }
  }

  lemma {:induction false} ShlInner(a: nat, n: nat)
    ensures Shl(2 * a, n) == 2 * Shl(a, n)
    decreases n
  {
    if n > 0 { ShlInner(a, n - 1); }
  }

  /** Disjoint bits: adding a polynomial below y^n to a multiple of y^n concatenates. */
  lemma {:induction false} Join(hi: nat, lo: nat, n: nat)
    requires lo < Pow2(n)
    ensures Xor(Shl(hi, n), lo) == Shl(hi, n) + lo
    ensures Shr(Shl(hi, n) + lo, n) == hi && Low(Shl(hi, n) + lo, n) == lo
    decreases n
  {
    if n == 0 {
      XorZero(hi);
    } else {
      Join(hi, lo / 2, n - 1);
      XorStep(Shl(hi, n), lo);
    }
  }

  lemma {:induction false} SplitSum(a: nat, n: nat)
    ensures a == Shl(Shr(a, n), n) + Low(a, n)
    decreases n
  {
    if n > 0 { SplitSum(a / 2, n - 1); }
  }

  /** Every polynomial is its part below y^n plus y^n times the rest. */
  lemma Split(a: nat, n: nat)
    ensures a == Xor(Shl(Shr(a, n), n), Low(a, n))
  {
    SplitSum(a, n);
    Join(Shr(a, n), Low(a, n), n);
  }

  lemma {:induction false} ShrBound(a: nat, m: nat, n: nat)
    requires a < Pow2(m + n)
    ensures Shr(a, n) < Pow2(m)
    decreases n
  {
    if n > 0 { ShrBound(a / 2, m, n - 1); }
  }

  lemma {:induction false} LowSmall(a: nat, n: nat)
    requires a < Pow2(n)
    ensures Low(a, n) == a && Shr(a, n) == 0
    decreases n
  {
    if n > 0 { LowSmall(a / 2, n - 1); }
  }

  lemma {:induction false} XorShr(a: nat, b: nat, n: nat)
    ensures Shr(Xor(a, b), n) == Xor(Shr(a, n), Shr(b, n))
    decreases n
  {
    if n > 0 {
      XorHalf(a, b);
      XorShr(a / 2, b / 2, n - 1);
    }
  }
}
