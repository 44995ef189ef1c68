// The byte-serial CRC32C register, and the laws that make it a ring computation.
module Crc32c {
  import opened Bytes
  import opened Gf2
  import opened CrcRing

  /** One byte into the register: exclusive or, then eight shifts. */
  function ByteStep(c: nat, b: Byte): nat {
    BitSteps(Xor(c, b), 8)
  }

  /** The byte-serial scan. */
  function Run(c: nat, bs: Bytes): nat
    decreases |bs|
  {
    if bs == [] then c else Run(ByteStep(c, bs[0]), bs[1..])
  }

  /** G[n], the n-zero-bytes advance of the register: y^(-8n). */
  function G(n: nat): nat {
    Inv(8 * n)
  }

  lemma ByteStepMul(c: nat, b: Byte)
    requires c < W32
    ensures ByteStep(c, b) == RMul(Xor(c, b), Inv(8)) && ByteStep(c, b) < W32
  {
    ByteFits(c, b);
    BitStepsMul(Xor(c, b), 8);
    RMulBound(Xor(c, b), Inv(8));
  }

  lemma ByteFits(c: nat, b: Byte)
    requires c < W32
    ensures Xor(c, b) < W32
  {
    Widths();
    XorBound(c, b, 32);
  }

  lemma {:induction false} RunBound(c: nat, bs: Bytes)
    requires c < W32
    ensures Run(c, bs) < W32
    decreases |bs|
  {
    if bs != [] {
      ByteStepMul(c, bs[0]);
      RunBound(ByteStep(c, bs[0]), bs[1..]);
    }
  }

  lemma {:induction false} RunAppend(c: nat, a: Bytes, b: Bytes)
    ensures Run(c, a + b) == Run(Run(c, a), b)
    decreases |a|
  {
    if a == [] {
      assert a + b == b;
    } else {
      assert (a + b)[1..] == a[1..] + b;
      RunAppend(ByteStep(c, a[0]), a[1..], b);
    }
  }

  lemma LeStep(bs: Bytes)
    requires bs != []
    ensures Le(bs) == Xor(bs[0], Shl(Le(bs[1..]), 8))
  {
    var h := Le(bs[1..]);
    assert Shl(h, 8) == 256 * h;
    assert Pow2(8) == 256;
    LowByte(bs[0], h, 8);
  }

  lemma LowByte(b: nat, h: nat, n: nat)
    requires b < Pow2(n)
    ensures Xor(b, Shl(h, n)) == b + Shl(h, n)
  {
    Join(h, b, n);
    XorComm(b, Shl(h, n));
  }

  /** Scanning n bytes adds their little-endian value to the register and divides by y^(8n). */
  lemma {:induction false} RunClosed(c: nat, bs: Bytes)
    requires c < W32
    ensures Run(c, bs) == RMul(Xor(c, Le(bs)), G(|bs|))
    decreases |bs|
  {
    hide Xor, RMul, Inv, ByteStep, Shl;
    if bs == [] {
      RunEmpty(c, 0);
    } else {
      hide Le;
      var b, t := bs[0], bs[1..];
      var c1 := ByteStep(c, b);
      ByteStepMul(c, b);
      RunClosed(c1, t);
      LeStep(bs);
      HornerStep(c, b, Le(t), c1, 8, 8 * |t|);
      assert 8 + 8 * |t| == 8 * |bs|;
    }
  }

  lemma RunEmpty(c: nat, n: nat)
    requires c < W32 && n == 0
    ensures RMul(Xor(c, n), Inv(n)) == c
  {
    XorZero(c);
    RMulOne(c);
    RedSmall(c);
  }

  lemma HornerStep(c: nat, b: nat, h: nat, c1: nat, m: nat, n: nat)
    requires c1 == RMul(Xor(c, b), Inv(m))
    ensures RMul(Xor(c1, h), Inv(n)) == RMul(Xor(c, Xor(b, Shl(h, m))), Inv(m + n))
  {
    hide *;
    var x, i := Xor(c, b), Inv(m + n);
    calc {
      RMul(Xor(c1, h), Inv(n));
      { RMulXorL(c1, h, Inv(n)); }
      Xor(RMul(c1, Inv(n)), RMul(h, Inv(n)));
      { RMulAssoc(x, Inv(m), Inv(n)); InvAdd(m, n); }
      Xor(RMul(x, i), RMul(h, Inv(n)));
      { ShlInv(h, m, m + n); assert m + n - m == n; }
      Xor(RMul(x, i), RMul(Shl(h, m), i));
      { RMulXorL(x, Shl(h, m), i); }
      RMul(Xor(x, Shl(h, m)), i);
      { XorAssoc(c, b, Shl(h, m)); }
      RMul(Xor(c, Xor(b, Shl(h, m))), i);
    }
  }

  /** The register is affine in its start value: c travels by G[n], the bytes act on their own. */
  lemma RunAffine(c: nat, bs: Bytes)
    requires c < W32
    ensures Run(c, bs) == Xor(RMul(c, G(|bs|)), Run(0, bs))
  {
    hide Xor, RMul, Run, G;
    RunClosed(c, bs);
    RunClosed(0, bs);
    XorZero(Le(bs));
    RMulXorL(c, Le(bs), G(|bs|));
  }
}
