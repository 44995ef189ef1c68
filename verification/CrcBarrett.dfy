// The quotient-estimate (Barrett) reduction modulo VM, the scalar ring product built
// on it, and the vector ending of the folds.
module CrcBarrett {
  import opened Gf2
  import opened CrcRing
  import opened CrcConstants

  /** The reduction with the shifts and constants left as parameters. */
  function BarrettWith(f: nat, s: nat, t: nat, w: nat, m: nat, mu: nat): nat {
    var x := Low(Shr(f, s), w);
    var p := Clmul(x, mu);
    var qh := Low(Shr(p, t), w);
    var r := Xor(f, Clmul(qh, m));
    var corr := Low(Shr(r, s), w);
    Low(Xor(r, Clmul(corr, m)), s)
  }

  /** The in-register sequence: shifts 32/56/32, 64-bit operands, VMU and VM, low 32 bits kept. */
  function Barrett(f: nat): nat {
    BarrettWith(f, 32, 56, 64, VM, VMU)
  }

  lemma {:induction false} ShlBelow(a: nat, m: nat, n: nat)
    requires Shl(a, n) < Pow2(m + n)
    ensures a < Pow2(m)
    decreases n
  {
    if n > 0 { ShlBelow(a, m, n - 1); }
  }

  /** x y^n, divided by m digit by digit: x y^n == (x mu) m + x rho. */
  lemma ScaledDividend(x: nat, n: nat, m: nat, mu: nat, rho: nat)
    requires Pow2(n) == Xor(Clmul(m, mu), rho)
    ensures Shl(x, n) == Xor(Clmul(Clmul(x, mu), m), Clmul(x, rho))
  {
    hide *;
    ClmulPow2(x, n);
    ClmulXorR(x, Clmul(m, mu), rho);
    ClmulComm(m, mu);
    ClmulAssoc(x, mu, m);
  }

  /** The error of the quotient estimate: x y^s + qh m, scaled by y^t, is e m + x rho. */
  lemma EstimateError(x: nat, qh: nat, e: nat, rho: nat, s: nat, t: nat, m: nat, mu: nat)
    requires Pow2(s + t) == Xor(Clmul(m, mu), rho)
    requires Clmul(x, mu) == Xor(Shl(qh, t), e)
    ensures Shl(Xor(Shl(x, s), Clmul(qh, m)), t) == Xor(Clmul(e, m), Clmul(x, rho))
  {
    hide *;
    ScaledDividend(x, s + t, m, mu, rho);
    ClmulXorL(Shl(qh, t), e, m);
    ScaledEstimate(x, qh, s, t, m);
    RegroupError(Clmul(Shl(qh, t), m), Clmul(e, m), Clmul(x, rho));
  }

  lemma ScaledEstimate(x: nat, qh: nat, s: nat, t: nat, m: nat)
    ensures Shl(Xor(Shl(x, s), Clmul(qh, m)), t) == Xor(Shl(x, s + t), Clmul(Shl(qh, t), m))
  {
    hide *;
    ShlXor(Shl(x, s), Clmul(qh, m), t);
    ShlShl(x, s, t);
    ShlClmul(qh, m, t);
  }

  lemma ShlClmul(a: nat, b: nat, n: nat)
    ensures Shl(Clmul(a, b), n) == Clmul(Shl(a, n), b)
  {
    ClmulPow2(Clmul(a, b), n);
    ClmulPow2(a, n);
    ClmulAssoc(a, b, Pow2(n));
    ClmulComm(b, Pow2(n));
    ClmulAssoc(a, Pow2(n), b);
  }

  lemma RegroupError(q: nat, d: nat, c: nat)
    ensures Xor(Xor(Xor(q, d), c), q) == Xor(d, c)
  {
    BitXorAll();
    BitExt(Xor(Xor(Xor(q, d), c), q), Xor(d, c));
  }

  /** The widths under which the estimate and one correction are exact: operands of a bits
      above y^s, a quotient constant for y^(s+t), and a modulus y^s + vq with vq below y^g. */
  ghost predicate Exact(a: nat, g: nat, s: nat, t: nat, w: nat, m: nat, vq: nat, mu: nat, rho: nat) {
    && s > 0 && g > 0 && t < a <= w && a + g <= s + t + 2
    && m == Xor(Pow2(s), vq) && vq < Pow2(g) && m < Pow2(s + 1)
    && mu < Pow2(t + 1)
    && Pow2(s + t) == Xor(Clmul(m, mu), rho) && rho < Pow2(s)
  }

  /** The estimate leaves a remainder of at most a + s - 1 - t bits. */
  lemma EstimateWidth(x: nat, qh: nat, e: nat, a: nat, rho: nat, s: nat, t: nat, m: nat, mu: nat)
    requires s > 0 && t < a && m < Pow2(s + 1) && rho < Pow2(s)
    requires Pow2(s + t) == Xor(Clmul(m, mu), rho)
    requires Clmul(x, mu) == Xor(Shl(qh, t), e)
    requires x < Pow2(a) && e < Pow2(t)
    ensures Xor(Shl(x, s), Clmul(qh, m)) < Pow2(a + s - 1 - t)
  {
    hide *;
    var d := Xor(Shl(x, s), Clmul(qh, m));
    var k := a + s - 1;
    EstimateError(x, qh, e, rho, s, t, m, mu);
    ClmulBound(e, m, t, s + 1);
    ClmulBound(x, rho, a, s);
    Pow2Mono(t + s, k);
    XorBound(Clmul(e, m), Clmul(x, rho), k);
    ShlBelow(d, k - t, t);
  }

  /** One correction finishes: the excess times vq stays below y^s. */
  lemma Correction(r: nat, corr: nat, lo: nat, b: nat, g: nat, s: nat, m: nat, vq: nat)
    requires m == Xor(Pow2(s), vq) && vq < Pow2(g) && g > 0 && b + g <= s + 1
    requires r == Xor(Shl(corr, s), lo) && corr < Pow2(b) && lo < Pow2(s)
    ensures Xor(r, Clmul(corr, m)) < Pow2(s)
  {
    hide *;
    var v := Clmul(corr, vq);
    ClmulXorR(corr, Pow2(s), vq);
    ClmulPow2(corr, s);
    ClmulBound(corr, vq, b, g);
    Pow2Mono(b + g - 1, s);
    RegroupCorrection(Shl(corr, s), lo, v);
    XorBound(lo, v, s);
  }

  lemma RegroupCorrection(c: nat, lo: nat, v: nat)
    ensures Xor(Xor(c, lo), Xor(c, v)) == Xor(lo, v)
  {
    BitXorAll();
    BitExt(Xor(Xor(c, lo), Xor(c, v)), Xor(lo, v));
  }

  /** Adding multiples of VM does not change the class. */
  lemma RedMultiple(f: nat, q: nat)
    ensures Red(Xor(f, Clmul(q, VM))) == Red(f)
  {
    hide *;
    RedXor(f, Clmul(q, VM));
    ClmulComm(q, VM);
    RedMod(q);
    XorZero(Red(f));
  }

  /** The first two products. */
  lemma Estimate(f: nat, x: nat, qh: nat, a: nat, s: nat, t: nat, m: nat, mu: nat, rho: nat)
    requires s > 0 && t < a && m < Pow2(s + 1) && mu < Pow2(t + 1) && rho < Pow2(s)
    requires Pow2(s + t) == Xor(Clmul(m, mu), rho)
    requires f < Pow2(a + s) && x == Shr(f, s) && qh == Shr(Clmul(x, mu), t)
    ensures x < Pow2(a) && qh < Pow2(a)
    ensures Xor(f, Clmul(qh, m)) < Pow2(a + s - 1 - t)
  {
    hide *;
    var p, q := Clmul(x, mu), Clmul(qh, m);
    Split(f, s);
    ShrBound(f, a, s);
    ClmulBound(x, mu, a, t + 1);
    Split(p, t);
    ShrBound(p, a, t);
    EstimateWidth(x, qh, Low(p, t), a, rho, s, t, m, mu);
    RegroupTail(Shl(x, s), Low(f, s), q);
    Pow2Mono(s, a + s - 1 - t);
    XorBound(Xor(Shl(x, s), q), Low(f, s), a + s - 1 - t);
  }

  /** The last product: the corrected remainder has at most s bits. */
  lemma Corrected(r: nat, corr: nat, b: nat, g: nat, s: nat, m: nat, vq: nat)
    requires m == Xor(Pow2(s), vq) && vq < Pow2(g) && g > 0 && b + g <= s + 1
    requires r < Pow2(b + s) && corr == Shr(r, s)
    ensures corr < Pow2(b) && Xor(r, Clmul(corr, m)) < Pow2(s)
  {
    hide *;
    Split(r, s);
    ShrBound(r, b, s);
    Correction(r, corr, Low(r, s), b, g, s, m, vq);
  }

  /** The masks drop nothing, and the result differs from f by two multiples of m. */
  lemma BarrettShape(f: nat, a: nat, g: nat, s: nat, t: nat, w: nat, m: nat, vq: nat, mu: nat, rho: nat)
    returns (q: nat, c: nat)
    requires Exact(a, g, s, t, w, m, vq, mu, rho) && f < Pow2(a + s)
    ensures BarrettWith(f, s, t, w, m, mu) == Xor(Xor(f, Clmul(q, m)), Clmul(c, m))
    ensures BarrettWith(f, s, t, w, m, mu) < Pow2(s)
  {
    hide Xor, Clmul, Shl, Shr, Low, Pow2;
    var x := Shr(f, s);
    q := Shr(Clmul(x, mu), t);
    Estimate(f, x, q, a, s, t, m, mu, rho);
    Pow2Mono(a, w);
    LowSmall(x, w);
    LowSmall(q, w);
    var r := Xor(f, Clmul(q, m));
    c := Shr(r, s);
    Corrected(r, c, a - 1 - t, g, s, m, vq);
    Pow2Mono(a - 1 - t, w);
    LowSmall(c, w);
    LowSmall(Xor(r, Clmul(c, m)), s);
  }

  lemma RegroupTail(x: nat, l: nat, q: nat)
    ensures Xor(Xor(x, l), q) == Xor(Xor(x, q), l)
  {
    BitXorAll();
    BitExt(Xor(Xor(x, l), q), Xor(Xor(x, q), l));
  }

  lemma ExactParameters() returns (n: nat, mu: nat)
    ensures n == 32 && mu == VMU
    ensures Exact(63, 27, n, 56, 64, VM, VQ, mu, 0xA9A3_F760)
  {
    n := 32;
    var k;
    k, mu := BarrettQuotient();
    RhoLiteral();
    Widths();
    MuWidth(mu);
    Pow2Mono(27, n);
    ShlOne(n);
    Join(1, VQ, n);
  }

  lemma MuWidth(mu: nat)
    requires mu == VMU
    ensures mu < Pow2(57)
  {
    assert Pow2(8) == 0x100;
    assert Pow2(16) == 0x1_0000;
    assert Pow2(24) == 0x100_0000;
    assert Pow2(32) == 0x1_0000_0000;
    assert Pow2(40) == 0x100_0000_0000;
    assert Pow2(48) == 0x1_0000_0000_0000;
    assert Pow2(57) == 0x200_0000_0000_0000;
  }

  /** The reduction is exact on every field below y^95. */
  lemma BarrettExact(f: nat)
    requires f < Pow2(95)
    ensures Barrett(f) == Red(f)
  {
    hide Xor, Clmul, Shl, Shr, Low, Pow2, Red, BarrettWith;
    var n, mu := ExactParameters();
    var q, c := BarrettShape(f, 63, 27, n, 56, 64, VM, VQ, mu, 0xA9A3_F760);
    Widths();
    RemainderOf(f, q, c, Barrett(f));
  }

  lemma RemainderOf(f: nat, q: nat, c: nat, r: nat)
    requires r < W32 && r == Xor(Xor(f, Clmul(q, VM)), Clmul(c, VM))
    ensures r == Red(f)
  {
    hide *;
    RedMultiple(f, q);
    RedMultiple(Xor(f, Clmul(q, VM)), c);
    RedSmall(r);
  }
}
