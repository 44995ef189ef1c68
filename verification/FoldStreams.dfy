// Folding one lane's 16-byte units into a 128-bit state: the sequential fold, the
// dual-stream fold and the T-stream folds (T = 3 and T = 8), all in one ring class.
// The width w == 64 is a parameter for the reason given in module CrcRing.
module FoldStreams {
  import opened Bytes
  import opened Gf2
  import opened CrcRing
  import opened CrcConstants
  import opened CrcBarrett
  import opened Crc32c
  import opened Modular

  /** The advance by n units: y^(-128 n). */
  function K(n: nat): nat {
    Inv(128 * n)
  }

  // ---- the shipped step and merge pairs ---------------------------------------------

  const PAIR_LO: seq<word> := [
    1, 0xF20C_0DFE, 0x3DA6_D0CB, 0x1C29_1D04, 0x740E_EF02, 0x083A_6EEC, 0xC49F_4F67, 0x2AD9_1C30, 0x6992_CEA2]
  const PAIR_HI: seq<word> := [
    0, 0x493C_7D27, 0xBA4F_C28E, 0xDDC0_152B, 0x9E4A_DDF8, 0x39D3_B296, 0x0715_CE53, 0x47DB_8317, 0x0D3B_6092]

  /** The pair for an advance by n units: high qword constant, low qword constant. */
  ghost predicate IsPair(khi: nat, klo: nat, n: nat) {
    n >= 1 && Red(khi) == Inv(128 * n - 64) && Red(klo) == K(n)
  }

  lemma PairPowers(n: nat)
    requires 1 <= n <= 8
    ensures Val(PAIR_HI[n]) == Inv(128 * n - 64) && Val(PAIR_LO[n]) == Inv(128 * n)
  {
    hide Val, Red, Inv;
    GAnchors32(); GAnchors64(); GAnchors96(); GAnchors128();
  }

  /** Every shipped pair (dual step, tri step, octo step, merges 1..7) is the pair it is used as. */
  lemma ShippedPairs(n: nat)
    requires 1 <= n <= 8
    ensures IsPair(Val(PAIR_HI[n]), Val(PAIR_LO[n]), n)
  {
    hide Val, Red, Inv;
    PairPowers(n);
    InvReduced(128 * n - 64);
    InvReduced(128 * n);
  }

  lemma InvReduced(n: nat)
    ensures Red(Inv(n)) == Inv(n)
  {
    BitStepsBound(1, n);
    RedSmall(Inv(n));
  }

  /** The sequential fold's own pair, with its unreduced low constant. */
  lemma SequentialPair()
    ensures IsPair(RKHI, RKLO, 1)
  {
    hide Red, Inv;
    Anchors();
    InvReduced(64);
  }

  // ---- one step -----------------------------------------------------------------------

  /** The two carry-less products of a fold step or a merge. */
  function Products(v: nat, khi: nat, klo: nat): nat {
    Xor(Clmul(Shr(v, 64), khi), Clmul(Low(v, 64), klo))
  }

  /** V <- V_hi khi + V_lo klo + U. */
  function FoldStep(v: nat, u: nat, khi: nat, klo: nat): nat {
    Xor(Products(v, khi, klo), u)
  }

  lemma ProductsAt(v: nat, khi: nat, klo: nat, n: nat, w: nat)
    requires IsPair(khi, klo, n) && w == 64
    ensures Red(Xor(Clmul(Shr(v, w), khi), Clmul(Low(v, w), klo))) == RMul(v, K(n))
  {
    hide Xor, Clmul, Shr, Low, Red, Inv, Shl, RMul;
    var hi, lo := Shr(v, w), Low(v, w);
    Split(v, w);
    RedXor(Clmul(hi, khi), Clmul(lo, klo));
    ProductClass(hi, khi, Inv(128 * n - w));
    ProductClass(lo, klo, K(n));
    ShlInv(hi, w, 128 * n);
    RMulXorL(Shl(hi, w), lo, K(n));
  }

  lemma ProductClass(a: nat, c: nat, g: nat)
    requires Red(c) == g
    ensures Red(Clmul(a, c)) == RMul(a, g)
  {
    RMulRedR(a, c);
  }

  /** A pair for n multiplies the class of the state by the n-unit advance. */
  lemma ProductsClass(v: nat, khi: nat, klo: nat, n: nat)
    requires IsPair(khi, klo, n)
    ensures Red(Products(v, khi, klo)) == RMul(v, K(n))
  {
    hide Xor, Clmul, Shr, Low, Red, Inv, RMul;
    ProductsAt(v, khi, klo, n, 64);
  }

  lemma FoldStepClass(v: nat, u: nat, khi: nat, klo: nat, n: nat)
    requires IsPair(khi, klo, n)
    ensures Red(FoldStep(v, u, khi, klo)) == Xor(RMul(Red(v), K(n)), Red(u))
  {
    hide Xor, Clmul, Shr, Low, Red, Inv, RMul, Products;
    ProductsClass(v, khi, klo, n);
    RedXor(Products(v, khi, klo), u);
    RMulRedL(v, K(n));
  }

  // ---- widths ---------------------------------------------------------------------------

  /** Products of 64-bit halves with constants of at most 36 bits stay below y^100. */
  lemma ProductsWidth(v: nat, khi: nat, klo: nat, w: nat)
    requires v < Pow2(w + w) && w == 64 && khi < Pow2(36) && klo < Pow2(36)
    ensures Xor(Clmul(Shr(v, w), khi), Clmul(Low(v, w), klo)) < Pow2(128)
  {
    hide Xor, Clmul, Shr, Low, Pow2;
    ShrBound(v, w, w);
    ClmulBound(Shr(v, w), khi, w, 36);
    ClmulBound(Low(v, w), klo, w, 36);
    Pow2Mono(w + 36 - 1, 128);
    XorBound(Clmul(Shr(v, w), khi), Clmul(Low(v, w), klo), 128);
  }

  lemma StepWidth(v: nat, u: nat, khi: nat, klo: nat)
    requires v < Pow2(128) && u < Pow2(128) && khi < Pow2(36) && klo < Pow2(36)
    ensures Products(v, khi, klo) < Pow2(128) && FoldStep(v, u, khi, klo) < Pow2(128)
  {
    hide Xor, Clmul, Shr, Low, Pow2;
    ProductsWidth(v, khi, klo, 64);
    XorBound(Products(v, khi, klo), u, 128);
  }

  lemma PairWidths(n: nat)
    requires 1 <= n <= 8
    ensures Val(PAIR_HI[n]) < Pow2(36) && Val(PAIR_LO[n]) < Pow2(36)
  {
    Widths();
    hide Val, Pow2, Inv;
    Pow2Mono(32, 36);
    PairPowers(n);
    InvFits(128 * n - 64);
    InvFits(128 * n);
  }

  /** Every unit is a 128-bit field. */
  predicate Fields(us: seq<nat>) {
    forall i :: 0 <= i < |us| ==> us[i] < Pow2(128)
  }

  // ---- the sequential fold --------------------------------------------------------------

  /** The class a fold must reach: Horner's rule over the units with multiplier K(1). */
  function Horner(us: seq<nat>): nat
    decreases |us|
  {
    if us == [] then 0 else Xor(RMul(Horner(us[..|us| - 1]), K(1)), Red(us[|us| - 1]))
  }

  lemma HornerStep(us: seq<nat>, n: nat)
    requires n < |us|
    ensures Horner(us[..n + 1]) == Xor(RMul(Horner(us[..n]), K(1)), Red(us[n]))
  {
    assert us[..n + 1][..n] == us[..n];
  }

  method FoldPairs(us: seq<nat>) returns (st: nat)
    requires Fields(us)
    ensures Red(st) == Horner(us) && st < Pow2(128)
  {
    hide Xor, Red, RMul, Inv, FoldStep;
    if us == [] {
      RedSmall(0);
      return 0;
    }
    hide Pow2;
    SequentialWidths();
    st := us[0];
    HornerOne(us);
    for j := 1 to |us|
      invariant Red(st) == Horner(us[..j]) && st < Pow2(128)
    {
      SequentialPair();
      StepWidth(st, us[j], RKHI, RKLO);
      FoldStepClass(st, us[j], RKHI, RKLO, 1);
      HornerStep(us, j);
      st := FoldStep(st, us[j], RKHI, RKLO);
    }
    assert us[..|us|] == us;
  }

  lemma SequentialWidths()
    ensures RKHI < Pow2(36) && RKLO < Pow2(36)
  {
    assert Pow2(8) == 0x100;
    assert Pow2(16) == 0x1_0000;
    assert Pow2(24) == 0x100_0000;
    assert Pow2(32) == 0x1_0000_0000;
    assert Pow2(36) == 0x10_0000_0000;
  }

  lemma HornerOne(us: seq<nat>)
    requires us != []
    ensures Horner(us[..1]) == Red(us[0])
  {
    HornerStep(us, 0);
    ClmulZero(K(1));
    XorZero(Red(us[0]));
  }

  // ---- T streams ---------------------------------------------------------------------------

  /** Class of stream m after the first n units, each T-th unit going to it. */
  function Stream(us: seq<nat>, t: nat, m: nat, n: nat): nat
    requires t > 0 && n <= |us|
    decreases n
  {
    if n == 0 then 0
    else if (n - 1) % t == m then Xor(RMul(Stream(us, t, m, n - 1), K(t)), Red(us[n - 1]))
    else Stream(us, t, m, n - 1)
  }

  /** How many units stream m lags behind after n units. */
  function Lag(t: nat, m: nat, n: nat): nat
    requires t > 0
  {
    (n - 1 - m) % t
  }

  function Term(us: seq<nat>, t: nat, m: nat, n: nat): nat
    requires t > 0 && n <= |us|
  {
    RMul(Stream(us, t, m, n), K(Lag(t, m, n)))
  }

  /** Streams 0..k - 1, each advanced by its lag. */
  function Merged(us: seq<nat>, t: nat, k: nat, n: nat): nat
    requires t > 0 && n <= |us|
    decreases k
  {
    if k == 0 then 0 else Xor(Merged(us, t, k - 1, n), Term(us, t, k - 1, n))
  }

  lemma LagStep(t: nat, m: nat, n: nat)
    requires t > 0 && m < t
    ensures n % t == m ==> Lag(t, m, n) == t - 1 && Lag(t, m, n + 1) == 0
    ensures n % t != m ==> Lag(t, m, n + 1) == Lag(t, m, n) + 1
  {
    var q, r := n / t, n % t;
    assert n == q * t + r;
    if r == m {
      assert n - 1 - m == (q - 1) * t + (t - 1);
      assert n - m == q * t;
      ModOf(n - 1 - m, t, q - 1, t - 1);
      ModOf(n - m, t, q, 0);
    } else if r > m {
      ModOf(n - 1 - m, t, q, r - m - 1);
      ModOf(n - m, t, q, r - m);
    } else {
      assert n - 1 - m == (q - 1) * t + (t + r - m - 1);
      assert n - m == (q - 1) * t + (t + r - m);
      ModOf(n - 1 - m, t, q - 1, t + r - m - 1);
      ModOf(n - m, t, q - 1, t + r - m);
    }
  }

  /** One more unit multiplies every stream's contribution by K(1) and adds the unit once. */
  lemma TermStep(us: seq<nat>, t: nat, m: nat, n: nat)
    requires t > 0 && m < t && n < |us|
    ensures Term(us, t, m, n + 1) == Xor(RMul(Term(us, t, m, n), K(1)), if n % t == m then Red(us[n]) else 0)
  {
    hide Xor, RMul, Red, Inv;
    LagStep(t, m, n);
    var s, g := Stream(us, t, m, n), Lag(t, m, n);
    Advance(s, g);
    if n % t == m {
      assert g + 1 == t;
      var s' := Xor(RMul(s, K(t)), Red(us[n]));
      assert Stream(us, t, m, n + 1) == s';
      RMulBound(s, K(t));
      RedBound(us[n]);
      NoLag(s', RMul(s, K(t)), Red(us[n]));
    } else {
      XorZero(RMul(s, K(g + 1)));
    }
  }

  lemma Advance(s: nat, g: nat)
    ensures RMul(RMul(s, K(g)), K(1)) == RMul(s, K(g + 1))
  {
    hide RMul, Inv;
    RMulAssoc(s, K(g), K(1));
    InvAdd(128 * g, 128);
    assert 128 * g + 128 == 128 * (g + 1);
  }

  lemma NoLag(s: nat, a: nat, b: nat)
    requires s == Xor(a, b) && a < W32 && b < W32
    ensures RMul(s, K(0)) == s
  {
    Widths();
    XorBound(a, b, 32);
    RMulOne(s);
    RedSmall(s);
  }

  lemma {:induction false} MergedStep(us: seq<nat>, t: nat, k: nat, n: nat)
    requires t > 0 && k <= t && n < |us|
    ensures Merged(us, t, k, n + 1) == Xor(RMul(Merged(us, t, k, n), K(1)), if n % t < k then Red(us[n]) else 0)
    decreases k
  {
    hide Xor, RMul, Red, Inv, Term, Stream;
    var u := Red(us[n]);
    if k == 0 {
      ZeroTimes(K(1));
      XorZero(0);
    } else {
      MergedStep(us, t, k - 1, n);
      TermStep(us, t, k - 1, n);
      var a, b := Merged(us, t, k - 1, n), Term(us, t, k - 1, n);
      RMulXorL(a, b, K(1));
      XorZero(0);
      XorZero(u);
      XorSwap(RMul(a, K(1)), if n % t < k - 1 then u else 0, RMul(b, K(1)), if n % t == k - 1 then u else 0);
    }
  }

  lemma ZeroTimes(g: nat)
    ensures RMul(0, g) == 0
  {
    ClmulZero(g);
  }

  /** The merged streams are in the class of the sequential fold, for every T and every length. */
  lemma {:induction false} MergedIsHorner(us: seq<nat>, t: nat, n: nat)
    requires t > 0 && n <= |us|
    ensures Merged(us, t, t, n) == Horner(us[..n])
    decreases n
  {
    hide Xor, RMul, Red, Inv, Term;
    if n == 0 {
      MergedEmpty(us, t, t);
    } else {
      MergedIsHorner(us, t, n - 1);
      MergedStep(us, t, t, n - 1);
      HornerStep(us, n - 1);
    }
  }

  lemma {:induction false} MergedEmpty(us: seq<nat>, t: nat, k: nat)
    requires t > 0
    ensures Merged(us, t, k, 0) == 0
    decreases k
  {
    if k > 0 {
      hide Xor, RMul, Inv;
      MergedEmpty(us, t, k - 1);
      ZeroTimes(K(Lag(t, k - 1, 0)));
      XorZero(0);
    }
  }

  // ---- the stream kernels ------------------------------------------------------------------

  /** The streams hold the classes they should after n units. */
  ghost predicate Holding(st: seq<nat>, us: seq<nat>, t: nat, n: nat)
    requires t > 0 && n <= |us|
  {
    |st| == t && Fields(st) && forall m :: 0 <= m < t ==> Red(st[m]) == Stream(us, t, m, n)
  }

  /** Unit n goes to stream n % t. */
  lemma Feed(st: seq<nat>, us: seq<nat>, t: nat, n: nat, v: nat)
    requires t > 0 && n < |us| && Holding(st, us, t, n) && v < Pow2(128)
    requires Red(v) == Xor(RMul(Red(st[n % t]), K(t)), Red(us[n]))
    ensures Holding(st[n % t := v], us, t, n + 1)
  {
    hide Xor, RMul, Red, Inv, Pow2;
  }

  lemma SmallMod(n: nat, t: nat)
    requires n < t
    ensures n % t == n
  {
  }

  /** The first units seed the streams. */
  lemma {:induction false} Seeded(us: seq<nat>, t: nat, m: nat, n: nat)
    requires t > 0 && m < t && n <= |us| && n <= t
    ensures Stream(us, t, m, n) == if m < n then Red(us[m]) else 0
    decreases n
  {
    hide Xor, RMul, Red, Inv;
    if n > 0 {
      SmallMod(n - 1, t);
      Seeded(us, t, m, n - 1);
      ZeroTimes(K(t));
      XorZero(Red(us[n - 1]));
    }
  }

  /** fold_word_triples_r (t = 3) and fold_word_octets_r (t = 8): seed, unrolled blocks of t
      units, tail, merge. */
  method FoldWordStreams(us: seq<nat>, t: nat) returns (acc: nat)
    requires us != [] && 2 <= t <= 8 && Fields(us)
    ensures Red(acc) == Horner(us) && acc < Pow2(128)
  {
    hide Xor, RMul, Red, Inv, Stream, FoldStep, Val, Pow2;
    var wp := |us|;
    var st := seq(t, m requires 0 <= m < t => if m < wp then us[m] else 0);
    var q := if wp < t then wp else t;
    forall m | 0 <= m < t ensures Red(st[m]) == Stream(us, t, m, q) {
      Seeded(us, t, m, q);
      RedSmall(0);
    }
    while q + t - 1 < wp
      invariant q <= wp && (q < t ==> q == wp) && (q >= t ==> q % t == 0)
      invariant Holding(st, us, t, q)
    {
      var q0 := q;
      for m := 0 to t
        invariant q == q0 + m <= wp
        invariant Holding(st, us, t, q)
      {
        BlockIndex(q0, t, m);
        st := StepStream(st, us, t, q);
        q := q + 1;
      }
      BlockIndex(q0, t, t);
    }
    while q < wp
      invariant q <= wp
      invariant Holding(st, us, t, q)
    {
      st := StepStream(st, us, t, q);
      q := q + 1;
    }
    acc := MergeStreams(st, us, t);
  }

  lemma BlockIndex(q: nat, t: nat, m: nat)
    requires t > 0 && q % t == 0 && m <= t
    ensures (q + m) % t == if m < t then m else 0
  {
    var d := q / t;
    assert q == d * t;
    if m < t {
      ModOf(q + m, t, d, m);
    } else {
      assert q + m == (d + 1) * t;
      ModOf(q + m, t, d + 1, 0);
    }
  }

  method StepStream(st: seq<nat>, us: seq<nat>, t: nat, q: nat) returns (st': seq<nat>)
    requires 2 <= t <= 8 && q < |us| && Holding(st, us, t, q) && Fields(us)
    ensures Holding(st', us, t, q + 1)
  {
    hide Xor, RMul, Red, Inv, Stream, FoldStep, Val, Pow2;
    var m := q % t;
    ShippedPairs(t);
    PairWidths(t);
    StepWidth(st[m], us[q], Val(PAIR_HI[t]), Val(PAIR_LO[t]));
    var v := FoldStep(st[m], us[q], Val(PAIR_HI[t]), Val(PAIR_LO[t]));
    FoldStepClass(st[m], us[q], Val(PAIR_HI[t]), Val(PAIR_LO[t]), t);
    Feed(st, us, t, q, v);
    st' := st[m := v];
  }

  /** The base stream (owner of the last unit) merges by identity, empty streams drop out. */
  method MergeStreams(st: seq<nat>, us: seq<nat>, t: nat) returns (acc: nat)
    requires us != [] && 2 <= t <= 8 && Holding(st, us, t, |us|)
    ensures Red(acc) == Horner(us) && acc < Pow2(128)
  {
    hide Xor, RMul, Red, Inv, Stream, Products, Val, Horner, Pow2;
    var wp := |us|;
    var base := (wp - 1) % t;
    acc := st[base];
    BaseTerm(us, t, base, Red(acc), acc);
    XorZero(Red(acc));
    for m := 0 to t
      invariant acc < Pow2(128)
      invariant Red(acc) == Xor(Merged(us, t, m, wp), if base >= m then Term(us, t, base, wp) else 0)
    {
      ghost var low, b, x := Merged(us, t, m, wp), Term(us, t, base, wp), Term(us, t, m, wp);
      XorZero(low); XorZero(Xor(low, b)); XorZero(Xor(low, x));
      if m == base {
      } else if m >= wp {
        EmptyTerm(us, t, m, wp);
      } else {
        var c := (wp - 1 - m) % t;
        LagPositive(t, m, wp);
        ShippedPairs(c);
        PairWidths(c);
        StepWidth(st[m], st[m], Val(PAIR_HI[c]), Val(PAIR_LO[c]));
        var p := Products(st[m], Val(PAIR_HI[c]), Val(PAIR_LO[c]));
        ProductsClass(st[m], Val(PAIR_HI[c]), Val(PAIR_LO[c]), c);
        RMulRedL(st[m], K(c));
        RedXor(acc, p);
        XorBound(acc, p, 128);
        RegroupMerge(low, b, x);
        acc := Xor(acc, p);
      }
    }
    XorZero(Merged(us, t, t, wp));
    MergedIsHorner(us, t, wp);
    assert us[..wp] == us;
  }

  lemma RegroupMerge(low: nat, b: nat, x: nat)
    ensures Xor(Xor(low, b), x) == Xor(Xor(low, x), b)
  {
    BitXorAll();
    BitExt(Xor(Xor(low, b), x), Xor(Xor(low, x), b));
  }

  lemma LagPositive(t: nat, m: nat, n: nat)
    requires 2 <= t && m < t && n > 0 && (n - 1) % t != m
    ensures 1 <= (n - 1 - m) % t < t
  {
    if (n - 1 - m) % t == 0 {
      var q := (n - 1 - m) / t;
      assert n - 1 == q * t + m;
      ModOf(n - 1, t, q, m);
    }
  }

  lemma BaseTerm(us: seq<nat>, t: nat, base: nat, s: nat, acc: nat)
    requires us != [] && t > 0 && base == (|us| - 1) % t && s == Stream(us, t, base, |us|) && s == Red(acc)
    ensures Term(us, t, base, |us|) == s && Merged(us, t, 0, |us|) == 0 && Xor(0, s) == s
  {
    hide Xor, RMul, Red, Inv, Stream;
    var n := |us|;
    var q := (n - 1) / t;
    assert n - 1 - base == q * t;
    ModOf(n - 1 - base, t, q, 0);
    RedBound(acc);
    ByOne(s);
    XorZero(s);
  }

  lemma EmptyTerm(us: seq<nat>, t: nat, m: nat, n: nat)
    requires t > 0 && n <= m < t && n <= |us|
    ensures Term(us, t, m, n) == 0
  {
    Seeded(us, t, m, n);
    ZeroTimes(K(Lag(t, m, n)));
  }

  /** Units j and j + 1 advance the even and the odd stream by one step each. */
  lemma BothSteps(us: seq<nat>, a: nat, b: nat, j: nat, khi: nat, klo: nat)
    requires Fields(us) && j % 2 == 0 && j + 1 < |us| && a < Pow2(128) && b < Pow2(128)
    requires IsPair(khi, klo, 2) && khi < Pow2(36) && klo < Pow2(36)
    requires Red(a) == Stream(us, 2, 0, j) && Red(b) == Stream(us, 2, 1, j)
    ensures FoldStep(a, us[j], khi, klo) < Pow2(128) && FoldStep(b, us[j + 1], khi, klo) < Pow2(128)
    ensures Red(FoldStep(a, us[j], khi, klo)) == Stream(us, 2, 0, j + 2)
    ensures Red(FoldStep(b, us[j + 1], khi, klo)) == Stream(us, 2, 1, j + 2)
  {
    hide Xor, RMul, Red, Inv, Stream, FoldStep, Pow2, IsPair;
    FoldStepClass(a, us[j], khi, klo, 2);
    StepWidth(a, us[j], khi, klo);
    FoldStepClass(b, us[j + 1], khi, klo, 2);
    StepWidth(b, us[j + 1], khi, klo);
    StreamStep(us, 2, 0, j); StreamStep(us, 2, 1, j);
    StreamStep(us, 2, 0, j + 1); StreamStep(us, 2, 1, j + 1);
  }

  /** fold_word_pairs_r2: set A takes the even units, set B the odd ones; the set without the
      last unit is advanced by one unit into the other. */
  method FoldPairs2(us: seq<nat>) returns (st: nat)
    requires us != [] && Fields(us)
    ensures Red(st) == Horner(us) && st < Pow2(128)
  {
    hide Xor, RMul, Red, Inv, Stream, FoldStep, Val, Horner, Pow2, IsPair;
    var wp := |us|;
    var a: nat := us[0];
    Seeded(us, 2, 0, 1); Seeded(us, 2, 1, 1);
    if wp == 1 {
      HornerOne(us);
      assert us[..1] == us;
      return a;
    }
    var b: nat := us[1];
    Seeded(us, 2, 0, 2); Seeded(us, 2, 1, 2);
    ShippedPairs(2);
    PairWidths(2);
    var khi2, klo2 := Val(PAIR_HI[2]), Val(PAIR_LO[2]);
    var j := 2;
    while j + 1 < wp
      invariant j % 2 == 0 && 2 <= j <= wp
      invariant a < Pow2(128) && b < Pow2(128)
      invariant Red(a) == Stream(us, 2, 0, j) && Red(b) == Stream(us, 2, 1, j)
    {
      BothSteps(us, a, b, j, khi2, klo2);
      a := FoldStep(a, us[j], khi2, klo2);
      b := FoldStep(b, us[j + 1], khi2, klo2);
      j := j + 2;
    }
    if j < wp {
      FoldStepClass(a, us[j], khi2, klo2, 2);
      StepWidth(a, us[j], khi2, klo2);
      StreamStep(us, 2, 0, j); StreamStep(us, 2, 1, j);
      a := FoldStep(a, us[j], khi2, klo2);
    }
    st := MergePairs2(us, a, b);
  }

  /** The stream that ends earlier is advanced by one unit into the other. */
  method MergePairs2(us: seq<nat>, a: nat, b: nat) returns (st: nat)
    requires |us| >= 2 && a < Pow2(128) && b < Pow2(128)
    requires Red(a) == Stream(us, 2, 0, |us|) && Red(b) == Stream(us, 2, 1, |us|)
    ensures Red(st) == Horner(us) && st < Pow2(128)
  {
    hide Xor, RMul, Red, Inv, Stream, FoldStep, Val, Horner, Pow2;
    ShippedPairs(1);
    PairWidths(1);
    var khim, klom := Val(PAIR_HI[1]), Val(PAIR_LO[1]);
    TwoStreams(us, Red(a), Red(b), a, b);
    if |us| % 2 == 0 {
      st := FoldStep(a, b, khim, klom);
      FoldStepClass(a, b, khim, klom, 1);
      StepWidth(a, b, khim, klom);
    } else {
      st := FoldStep(b, a, khim, klom);
      FoldStepClass(b, a, khim, klom, 1);
      StepWidth(b, a, khim, klom);
    }
  }

  lemma StreamStep(us: seq<nat>, t: nat, m: nat, n: nat)
    requires t > 0 && n < |us|
    ensures Stream(us, t, m, n + 1)
         == if n % t == m then Xor(RMul(Stream(us, t, m, n), K(t)), Red(us[n])) else Stream(us, t, m, n)
  {
    hide Xor, RMul, Red, Inv;
  }

  /** With two streams the merge is one step of whichever stream ends earlier. */
  lemma TwoStreams(us: seq<nat>, ra: nat, rb: nat, a: nat, b: nat)
    requires |us| >= 2 && ra == Red(a) && rb == Red(b)
    requires ra == Stream(us, 2, 0, |us|) && rb == Stream(us, 2, 1, |us|)
    ensures Horner(us) == if |us| % 2 == 0 then Xor(RMul(ra, K(1)), rb) else Xor(RMul(rb, K(1)), ra)
  {
    hide Xor, RMul, Red, Inv, Stream, Horner;
    var n := |us|;
    MergedIsHorner(us, 2, n);
    assert us[..n] == us;
    var x, y := Term(us, 2, 0, n), Term(us, 2, 1, n);
    assert Merged(us, 2, 2, n) == Xor(Merged(us, 2, 1, n), y);
    assert Merged(us, 2, 1, n) == Xor(Merged(us, 2, 0, n), x);
    XorZero(x);
    RedBound(a); RedBound(b);
    if n % 2 == 0 {
      assert Lag(2, 0, n) == 1 && Lag(2, 1, n) == 0;
      ByOne(rb);
    } else {
      assert Lag(2, 0, n) == 0 && Lag(2, 1, n) == 1;
      ByOne(ra);
      XorComm(ra, RMul(rb, K(1)));
    }
  }

  lemma ByOne(s: nat)
    requires s < W32
    ensures RMul(s, K(0)) == s
  {
    RMulOne(s);
    RedSmall(s);
  }
}
