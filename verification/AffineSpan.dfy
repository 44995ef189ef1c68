// The O(1) span projections: the register of a span from the registers of the stream
// before and after it, without reading the span.
module AffineSpan {
  import opened Bytes
  import opened Gf2
  import opened CrcRing
  import opened CrcConstants
  import opened CrcBarrett
  import opened Crc32c
  import opened Lanes

  // ---- the scalar ring product --------------------------------------------------

  /** The carry-less product loop shared by the product and the two corrections. */
  method ClmulLoop(a: nat, b: nat) returns (r: nat)
    ensures r == Clmul(a, b)
  {
    r := 0;
    var aa, bb := a, b;
    ClmulComm(a, b);
    XorZero(Clmul(a, b));
    while bb != 0
      invariant Xor(r, Clmul(aa, bb)) == Clmul(a, b)
      decreases bb
    {
      ClmulPeel(aa, bb);
      if bb % 2 == 1 {
        XorAssoc(r, aa, Clmul(2 * aa, bb / 2));
        r := Xor(r, aa);
      }
      aa, bb := 2 * aa, bb / 2;
    }
    XorZero(r);
  }

  lemma ClmulPeel(a: nat, b: nat)
    ensures Clmul(a, b) == if b % 2 == 1 then Xor(a, Clmul(2 * a, b / 2)) else Clmul(2 * a, b / 2)
  {
    ClmulStep(a, b);
    ClmulDouble(a, b / 2);
    XorZero(2 * Clmul(a, b / 2));
  }

  /** Product and reduction: the unique representative below y^32 of a times b. */
  method ClmulReduceModVm(a: nat, b: nat) returns (r: nat)
    requires a < W32 && b < W32
    ensures r == RMul(a, b)
  {
    var prod := ClmulLoop(a, b);
    var x := Low(Shr(prod, 32), 64);
    var p := ClmulLoop(x, VMU);
    var qh := Low(Shr(p, 56), 64);
    var c := ClmulLoop(qh, VM);
    var s := Xor(prod, c);
    var corr := Low(Shr(s, 32), 64);
    var d := ClmulLoop(corr, VM);
    r := Low(Xor(s, d), 32);
    assert r == Barrett(prod);
    ProductReduces(a, b);
  }

  lemma ProductReduces(a: nat, b: nat)
    requires a < W32 && b < W32
    ensures Barrett(Clmul(a, b)) == RMul(a, b)
  {
    Widths();
    ProductFits(a, b, 32);
    BarrettExact(Clmul(a, b));
  }

  lemma ProductFits(a: nat, b: nat, n: nat)
    requires a < Pow2(n) && b < Pow2(n) && n == 32
    ensures Clmul(a, b) < Pow2(95)
  {
    hide Clmul, Pow2;
    ClmulBound(a, b, n, n);
    Pow2Mono(n + n - 1, 95);
  }

  // ---- span subtraction -----------------------------------------------------------

  /** Raw register of a byte string: start value 0, no final inversion. */
  function Raw(bs: Bytes): nat {
    Run(0, bs)
  }

  /** Finalised CRC32C: start value and final inversion of all ones. */
  function Full(bs: Bytes): nat {
    Xor(Run(0xFFFF_FFFF, bs), 0xFFFF_FFFF)
  }

  /** The 16-byte power table, entry k - 1 holding y^(-128k). */
  function Pow128(k: nat): nat {
    Inv(128 * k)
  }

  /** The byte residual table, entry r holding y^(-8r). */
  function PowByte(r: nat): nat {
    Inv(8 * r)
  }

  /** The span-length constant, composed from the two tables with one ring product. */
  method AffineSpanConst(spanLen: nat) returns (c: nat)
    ensures c == G(spanLen) && c < W32
  {
    var k, r := spanLen / 16, spanLen % 16;
    InvFits(128 * k);
    InvFits(8 * r);
    if k == 0 {
      c := PowByte(r);
    } else {
      c := ClmulReduceModVm(Pow128(k), PowByte(r));
      InvAdd(128 * k, 8 * r);
      assert 128 * k + 8 * r == 8 * spanLen;
      InvFits(8 * spanLen);
    }
  }

  /** The span's register from the cumulative and prefix registers. */
  method SpanAffineSub(cum: nat, prefix: nat, spanLen: nat) returns (r: nat)
    requires cum < W32 && prefix < W32
    ensures r == Xor(cum, RMul(prefix, G(spanLen)))
  {
    var c := AffineSpanConst(spanLen);
    var shifted := ClmulReduceModVm(prefix, c);
    r := Xor(cum, shifted);
  }

  /** Span subtraction is exact on raw registers ... */
  lemma SubtractRaw(a: Bytes, b: Bytes)
    ensures Xor(Raw(a + b), RMul(Raw(a), G(|b|))) == Raw(b)
  {
    hide Xor, RMul, G, Run;
    RunAppend(0, a, b);
    RunBound(0, a);
    RunAffine(Run(0, a), b);
    var p := RMul(Run(0, a), G(|b|));
    XorComm(p, Run(0, b));
    XorCancel(Run(0, b), p);
  }

  /** ... and verbatim on finalised values: the start value and the final inversion cancel. */
  lemma SubtractFull(a: Bytes, b: Bytes)
    ensures Xor(Full(a + b), RMul(Full(a), G(|b|))) == Full(b)
  {
    hide Xor, RMul, G, Run;
    SubtractFinal(0xFFFF_FFFF, a, b);
  }

  lemma SubtractFinal(f: nat, a: Bytes, b: Bytes)
    requires f < W32
    ensures Xor(Xor(Run(f, a + b), f), RMul(Xor(Run(f, a), f), G(|b|))) == Xor(Run(f, b), f)
  {
    hide Xor, RMul, G, Run;
    var g := G(|b|);
    var ra, rb := RMul(Run(f, a), g), Run(0, b);
    RunAppend(f, a, b);
    RunBound(f, a);
    RunAffine(Run(f, a), b);
    RunAffine(f, b);
    RMulXorL(Run(f, a), f, g);
    RegroupFinal(ra, rb, f, RMul(f, g));
  }

  lemma RegroupFinal(ra: nat, rb: nat, f: nat, fg: nat)
    ensures Xor(Xor(Xor(ra, rb), f), Xor(ra, fg)) == Xor(Xor(fg, rb), f)
  {
    BitXorAll();
    BitExt(Xor(Xor(Xor(ra, rb), f), Xor(ra, fg)), Xor(Xor(fg, rb), f));
  }

  // ---- eight lanes ------------------------------------------------------------------

  /** The eight-lane projection: the scalar law in every lane, with the lane-length constant. */
  method SpanAffineSub8(cum: seq<nat>, prefix: seq<nat>, spanLen: nat) returns (lanes: seq<nat>)
    requires |cum| == 8 && |prefix| == 8
    requires forall k :: 0 <= k < 8 ==> cum[k] < W32 && prefix[k] < W32
    ensures |lanes| == 8
    ensures forall k :: 0 <= k < 8 ==> lanes[k] == Xor(cum[k], RMul(prefix[k], G(spanLen / 8)))
  {
    hide Xor, RMul, G;
    var adv := AffineSpanConst(spanLen / 8);
    lanes := [];
    for j := 0 to 8
      invariant |lanes| == j
      invariant forall k :: 0 <= k < j ==> lanes[k] == Xor(cum[k], RMul(prefix[k], G(spanLen / 8)))
    {
      var p := ClmulReduceModVm(prefix[j], adv);
      lanes := lanes + [Xor(cum[j], p)];
    }
  }

  /** For spans of whole 64-byte blocks each lane subtracts with G[|B| / 8]. */
  lemma SubtractLane(a: Bytes, b: Bytes, k: nat)
    requires k < 8 && |a| % 64 == 0 && |b| % 64 == 0
    ensures Xor(Raw(Lane(a + b, k)), RMul(Raw(Lane(a, k)), G(|b| / 8))) == Raw(Lane(b, k))
  {
    LaneAppend(a, b, k);
    LaneLength(b, k);
    assert |b| / 8 == 8 * (|b| / 64);
    SubtractRaw(Lane(a, k), Lane(b, k));
  }

  /** The table pair composes to every length: G[16k] G[r] == G[16k + r]. */
  lemma ComposeTables(k: nat, r: nat)
    ensures RMul(Pow128(k), PowByte(r)) == G(16 * k + r)
  {
    InvAdd(128 * k, 8 * r);
  }
}
