// Finishing a span: the vector ending of each lane's state, lane 0's composed tail, and
// the whole fold pipeline against the scalar eight-lane kernel. The width w == 64 is a
// parameter for the reason given in module CrcRing.
module SpanTail {
  import opened Bytes
  import opened Gf2
  import opened CrcRing
  import opened CrcConstants
  import opened CrcBarrett
  import opened Crc32c
  import opened Lanes
  import opened FoldStreams

  // ---- the vector ending -------------------------------------------------------------

  /** Seed products with VR0 and VH64, then the Barrett reduction. */
  function Vend(v: nat): nat {
    Barrett(Xor(Clmul(Low(v, 64), VR0), Clmul(Shr(v, 64), VH64)))
  }

  lemma VendAt(v: nat, w: nat)
    requires w == 64 && v < Pow2(w + w)
    ensures Xor(Clmul(Low(v, w), VR0), Clmul(Shr(v, w), VH64)) < Pow2(95)
    ensures Red(Xor(Clmul(Low(v, w), VR0), Clmul(Shr(v, w), VH64))) == RMul(v, Inv(128))
  {
    hide Xor, Clmul, Shr, Low, Red, Inv, RMul, Pow2, Products;
    var hi, lo := Shr(v, w), Low(v, w);
    SeedWidths();
    ShrBound(v, w, w);
    ClmulBound(hi, VH64, w, 32);
    ClmulBound(lo, VR0, w, 32);
    XorBound(Clmul(lo, VR0), Clmul(hi, VH64), w + 32 - 1);
    SeedPair();
    ProductsAt(v, VH64, VR0, 1, w);
    XorComm(Clmul(lo, VR0), Clmul(hi, VH64));
  }

  lemma SeedWidths()
    ensures VR0 < Pow2(32) && VH64 < Pow2(32)
  {
    Widths();
  }

  lemma SeedPair()
    ensures IsPair(VH64, VR0, 1)
  {
    hide Red, Inv;
    Anchors();
    InvReduced(64);
    InvReduced(128);
  }

  /** The ending divides the state's class by y^128 and returns the reduced register. */
  lemma VendClass(v: nat)
    requires v < Pow2(128)
    ensures Vend(v) == RMul(v, Inv(128)) && Vend(v) < W32
  {
    hide Xor, Clmul, Shr, Low, Red, Inv, RMul, Pow2, Barrett;
    VendAt(v, 64);
    BarrettExact(Xor(Clmul(Low(v, 64), VR0), Clmul(Shr(v, 64), VH64)));
    RedBound(Xor(Clmul(Low(v, 64), VR0), Clmul(Shr(v, 64), VH64)));
  }

  // ---- little-endian values of longer strings ------------------------------------------

  lemma {:induction false} LeAppend(a: Bytes, b: Bytes)
    ensures Le(a + b) == Xor(Le(a), Shl(Le(b), 8 * |a|))
    decreases |a|
  {
    hide Xor, Shl;
    if a == [] {
      assert a + b == b;
      XorZero(Le(b));
      ShlNone(Le(b), 8 * |a|);
    } else {
      var t := a[1..];
      assert (a + b)[1..] == t + b;
      hide Le;
      LeAppend(t, b);
      LeStep(a);
      LeStep(a + b);
      var x, y := Le(t), Shl(Le(b), 8 * |t|);
      ShlXor(x, y, 8);
      ShlShl(Le(b), 8 * |t|, 8);
      assert 8 * |t| + 8 == 8 * |a|;
      XorAssoc(a[0], Shl(x, 8), Shl(y, 8));
    }
  }

  lemma ShlNone(a: nat, n: nat)
    requires n == 0
    ensures Shl(a, n) == a
  {
  }

  lemma {:induction false} LeBound(a: Bytes)
    ensures Le(a) < Pow2(8 * |a|)
    decreases |a|
  {
    if a != [] {
      LeBound(a[1..]);
      PowByte8(8 * |a[1..]|);
    }
  }

  lemma PowByte8(n: nat)
    ensures Pow2(n + 8) == 256 * Pow2(n)
  {
    assert Pow2(n + 2) == 4 * Pow2(n);
    assert Pow2(n + 4) == 4 * Pow2(n + 2);
    assert Pow2(n + 6) == 4 * Pow2(n + 4);
    assert Pow2(n + 8) == 4 * Pow2(n + 6);
  }

  /** The last t bytes of a string, read as the string's value shifted down. */
  lemma LeHigh(a: Bytes, b: Bytes)
    ensures Shr(Le(a + b), 8 * |a|) == Le(b)
  {
    hide Xor, Shl, Shr, Low, Le, Pow2;
    LeAppend(a, b);
    LeBound(a);
    XorComm(Le(a), Shl(Le(b), 8 * |a|));
    Join(Le(b), Le(a), 8 * |a|);
  }

  // ---- the units of a lane -----------------------------------------------------------------

  /** Unit q of lane k: word k of block 2q in the low qword, of block 2q + 1 in the high one. */
  function Unit(body: Bytes, k: nat, q: nat): nat
    requires k < 8 && 128 * q + 128 <= |body|
  {
    Xor(Le(body[128 * q + 8 * k..128 * q + 8 * k + 8]),
        Shl(Le(body[128 * q + 64 + 8 * k..128 * q + 64 + 8 * k + 8]), 64))
  }

  function Units(body: Bytes, k: nat, wp: nat): seq<nat>
    requires k < 8 && 128 * wp <= |body|
  {
    seq(wp, q requires 0 <= q < wp => Unit(body, k, q))
  }

  /** A unit is the value of sixteen consecutive bytes of its lane. */
  lemma UnitIsLane(body: Bytes, k: nat, q: nat)
    requires k < 8 && 128 * q + 128 <= |body|
    ensures 16 * q + 16 <= |Lane(body, k)|
    ensures Unit(body, k, q) == Le(Lane(body, k)[16 * q..16 * q + 16])
    ensures Unit(body, k, q) < Pow2(128)
  {
    hide Xor, Shl, Le, Pow2;
    var l := Lane(body, k);
    LaneWord(body, k, 2 * q);
    LaneWord(body, k, 2 * q + 1);
    var a, b := l[16 * q..16 * q + 8], l[16 * q + 8..16 * q + 16];
    assert l[16 * q..16 * q + 16] == a + b;
    assert 8 * |a| == 64;
    LeAppend(a, b);
    LeBound(a + b);
  }

  // ---- the state is the register --------------------------------------------------------------

  /** Unit q is the value of the q-th sixteen bytes. */
  ghost predicate UnitAt(us: seq<nat>, bs: Bytes, q: nat) {
    q < |us| && 16 * q + 16 <= |bs| && us[q] == Le(bs[16 * q..16 * q + 16])
  }

  /** Horner's class times y^(-128) is the byte-serial register of the units' bytes. */
  lemma {:induction false} RunUnits(us: seq<nat>, bs: Bytes)
    requires |bs| == 16 * |us|
    requires forall q: nat :: q < |us| ==> UnitAt(us, bs, q)
    ensures Run(0, bs) == RMul(Horner(us), Inv(128))
    decreases |us|
  {
    hide Xor, RMul, Red, Inv, Le, Run;
    if us == [] {
      ZeroTimes(Inv(128));
      RunNothing(0);
    } else {
      var n := |us| - 1;
      var pre, last := bs[..16 * n], bs[16 * n..];
      forall q: nat | q < n ensures UnitAt(us[..n], pre, q) {
        assert UnitAt(us, bs, q);
        Prefix(bs, 16 * n, 16 * q, 16 * q + 16);
      }
      RunUnits(us[..n], pre);
      assert UnitAt(us, bs, n);
      assert last == bs[16 * n..16 * n + 16];
      assert bs == pre + last;
      RunAppend(0, pre, last);
      RunBound(0, pre);
      RunClosed(Run(0, pre), last);
      assert 8 * |last| == 128;
      RMulRedL(us[n], Inv(128));
      var h := Horner(us[..n]);
      RMulXorL(RMul(h, Inv(128)), us[n], Inv(128));
      RMulXorL(RMul(h, Inv(128)), Red(us[n]), Inv(128));
    }
  }

  /** After the fold, the ending of lane k is the register of the lane's first 16 wp bytes. */
  lemma FoldedLane(body: Bytes, k: nat, wp: nat, st: nat)
    requires k < 8 && 128 * wp <= |body| && st < Pow2(128)
    requires Red(st) == Horner(Units(body, k, wp))
    ensures 16 * wp <= |Lane(body, k)|
    ensures Vend(st) == Run(0, Lane(body, k)[..16 * wp]) && Vend(st) < W32
  {
    hide Xor, RMul, Red, Inv, Le, Run, Vend, Horner, Pow2, Unit, Shl;
    VendClass(st);
    RMulRedL(st, Inv(128));
    UnitsOfLane(body, k, wp);
    hide Lane, Units;
    RunUnits(Units(body, k, wp), Lane(body, k)[..16 * wp]);
  }

  lemma UnitsOfLane(body: Bytes, k: nat, wp: nat)
    requires k < 8 && 128 * wp <= |body|
    ensures 16 * wp <= |Lane(body, k)|
    ensures |Units(body, k, wp)| == wp
    ensures forall q: nat :: q < wp ==> UnitAt(Units(body, k, wp), Lane(body, k)[..16 * wp], q)
  {
    hide Le, Unit, Lane, UnitAt, Units;
    LaneLength(body, k);
    LongEnough(|body|, wp);
    UnitCount(body, k, wp);
    forall q: nat | q < wp ensures UnitAt(Units(body, k, wp), Lane(body, k)[..16 * wp], q) {
      UnitOfLane(body, k, wp, q);
    }
  }

  lemma LongEnough(n: nat, wp: nat)
    requires 128 * wp <= n
    ensures 16 * wp <= 8 * (n / 64)
  {
  }

  lemma UnitCount(body: Bytes, k: nat, wp: nat)
    requires k < 8 && 128 * wp <= |body|
    ensures |Units(body, k, wp)| == wp
  {
  }

  lemma UnitOfLane(body: Bytes, k: nat, wp: nat, q: nat)
    requires k < 8 && 128 * wp <= |body| && q < wp && 16 * wp <= |Lane(body, k)|
    ensures UnitAt(Units(body, k, wp), Lane(body, k)[..16 * wp], q)
  {
    hide Le, Unit, Lane;
    UnitIsLane(body, k, q);
    Prefix(Lane(body, k), 16 * wp, 16 * q, 16 * q + 16);
  }

  lemma Prefix(l: Bytes, n: nat, lo: nat, hi: nat)
    requires lo <= hi <= n <= |l|
    ensures l[..n][lo..hi] == l[lo..hi]
  {
  }

  // ---- lane 0's composed tail --------------------------------------------------------------------

  /** High-qword lift: G[r] times y^64. */
  function KH(r: nat): nat {
    RMul(G(r), Pow2(64))
  }

  /** Data constant y^(128 - 8t) of a datum with t bytes from its start to the end. */
  function AT(t: nat): nat {
    if t <= 16 then Red(Pow2(128 - 8 * t)) else G(t - 16)
  }

  /** Dividing by y^128 turns the data constant into the zero-bytes advance. */
  lemma ATLaw(t: nat)
    ensures RMul(AT(t), Inv(128)) == Inv(8 * t)
  {
    hide RMul, Red, Inv, Pow2, Shl;
    if t <= 16 {
      var n := 128 - 8 * t;
      RMulRedL(Pow2(n), Inv(128));
      ShlOne(n);
      ShlInv(1, n, 128);
      OneTimes(8 * t);
    } else {
      InvAdd(8 * (t - 16), 128);
      assert 8 * (t - 16) + 128 == 8 * t;
    }
  }

  lemma OneTimes(n: nat)
    ensures RMul(1, Inv(n)) == Inv(n)
  {
    hide Inv, Clmul;
    RMulComm(1, Inv(n));
    RMulOne(Inv(n));
    InvReduced(n);
  }

  lemma ATFits(t: nat)
    ensures AT(t) < W32 && G(t) < W32 && KH(t) < W32
  {
    hide RMul, Inv, Red, Pow2;
    RedBound(Pow2(if t <= 16 then 128 - 8 * t else 0));
    InvFits(8 * t);
    if t > 16 { InvFits(8 * (t - 16)); }
    RMulBound(G(t), Pow2(64));
  }

  /** What lane 0 still has to scan: the unpaired word, then the tail. */
  function Rest(body: Bytes): Bytes {
    var blocks := |body| / 64;
    (if blocks % 2 == 1 then body[64 * (blocks - 1)..64 * (blocks - 1) + 8] else []) + body[64 * blocks..]
  }

  /** The composed field covers the first n bytes of what follows register c, scaled by y^128. */
  ghost predicate Composed(f: nat, c: nat, done: Bytes, r: nat) {
    && f < Pow2(128)
    && RMul(f, Inv(128)) == RMul(Xor(c, Le(done)), Inv(8 * r))
  }

  /** Lifting the state: V_lo G[r] + V_hi KH[r]. */
  lemma LiftState(v: nat, r: nat, w: nat)
    requires w == 64 && v < Pow2(w + w)
    ensures Composed(Xor(Clmul(Low(v, w), G(r)), Clmul(Shr(v, w), KH(r))), Vend(v), [], r)
  {
    hide Xor, Clmul, Shr, Low, Shl, Red, Inv, RMul, Pow2, Vend, KH, G;
    var hi, lo, g := Shr(v, w), Low(v, w), G(r);
    LiftWidth(v, r, w);
    XorZero(Vend(v));
    VendClass(v);
    LiftHigh(hi, r, w);
    var f := Xor(Clmul(lo, g), Clmul(hi, KH(r)));
    RedXor(Clmul(lo, g), Clmul(hi, KH(r)));
    Split(v, w);
    XorComm(Shl(hi, w), lo);
    RMulXorL(lo, Shl(hi, w), g);
    ProductClass(lo, g, Red(g));
    LiftLow(lo, g);
    RMulRedL(f, Inv(128));
    RMulAssoc(v, g, Inv(128));
    RMulComm(g, Inv(128));
    RMulAssoc(v, Inv(128), g);
    RMulRedL(RMul(v, g), Inv(128));
    LiftClass(f, v, g, r);
  }

  lemma LiftLow(lo: nat, g: nat)
    ensures Red(Clmul(lo, g)) == RMul(lo, g)
  {
  }

  lemma LiftHigh(hi: nat, r: nat, w: nat)
    requires w == 64
    ensures Red(Clmul(hi, KH(r))) == RMul(Shl(hi, w), G(r))
  {
    hide Clmul, Red, Inv, Pow2, Shl;
    LiftLow(hi, KH(r));
    RMulComm(G(r), Pow2(w));
    RMulAssoc(hi, Pow2(w), G(r));
    ClmulPow2(hi, w);
    RMulRedL(Clmul(hi, Pow2(w)), G(r));
  }

  lemma LiftClass(f: nat, v: nat, g: nat, r: nat)
    requires g == G(r) && Red(f) == RMul(v, g)
    ensures RMul(f, Inv(128)) == RMul(RMul(v, Inv(128)), Inv(8 * r))
  {
    hide RMul, Red, Inv;
    RMulRedL(f, Inv(128));
    RMulAssoc(v, g, Inv(128));
    RMulComm(g, Inv(128));
    RMulAssoc(v, Inv(128), g);
  }

  lemma LiftWidth(v: nat, r: nat, w: nat)
    requires w == 64 && v < Pow2(w + w)
    ensures Xor(Clmul(Low(v, w), G(r)), Clmul(Shr(v, w), KH(r))) < Pow2(128)
  {
    hide Xor, Clmul, Shr, Low, Red, Inv, RMul, Pow2, KH, G;
    WordWidths();
    ATFits(r);
    ShrBound(v, w, w);
    ClmulBound(Low(v, w), G(r), w, 32);
    ClmulBound(Shr(v, w), KH(r), w, 32);
    Pow2Mono(w + 32 - 1, 128);
    XorBound(Clmul(Low(v, w), G(r)), Clmul(Shr(v, w), KH(r)), 128);
  }

  lemma WordWidths()
    ensures W32 == Pow2(32)
  {
    Widths();
  }

  /** A datum of at most eight bytes with t bytes left, added with its constant. */
  lemma Datum(f: nat, c: nat, done: Bytes, w: Bytes, r: nat, t: nat)
    requires Composed(f, c, done, r) && |done| + t == r && |w| <= t && |w| <= 8
    ensures Composed(Xor(f, Clmul(Le(w), AT(t))), c, done + w, r)
  {
    hide Xor, Clmul, Red, Inv, RMul, Pow2, AT, Le, Shl;
    DatumWidth(f, w, t);
    var x, a := Le(w), AT(t);
    var p := Clmul(x, a);
    var i := Inv(8 * r);
    LeAppend(done, w);
    calc {
      RMul(p, Inv(128));
      { RMulRedL(p, Inv(128)); LiftLow(x, a); }
      RMul(RMul(x, a), Inv(128));
      { RMulAssoc(x, a, Inv(128)); ATLaw(t); }
      RMul(x, Inv(8 * t));
      { ShlInv(x, 8 * |done|, 8 * r); assert 8 * r - 8 * |done| == 8 * t; }
      RMul(Shl(x, 8 * |done|), i);
    }
    RMulXorL(f, p, Inv(128));
    RMulXorL(Xor(c, Le(done)), Shl(x, 8 * |done|), i);
    XorAssoc(c, Le(done), Shl(x, 8 * |done|));
  }

  lemma DatumWidth(f: nat, w: Bytes, t: nat)
    requires f < Pow2(128) && |w| <= 8
    ensures Xor(f, Clmul(Le(w), AT(t))) < Pow2(128)
  {
    hide Xor, Clmul, Red, Inv, RMul, Pow2, AT, Le;
    WordWidths();
    ATFits(t);
    LeBound(w);
    Pow2Mono(8 * |w|, 64);
    ClmulBound(Le(w), AT(t), 64, 32);
    Pow2Mono(64 + 32 - 1, 128);
    XorBound(f, Clmul(Le(w), AT(t)), 128);
  }

  /** The final partial group: the high t bytes of the word ending at the end of the body. */
  lemma PartialWord(body: Bytes, t: nat)
    requires t < 8 <= |body|
    ensures Shr(Le(body[|body| - 8..]), 64 - 8 * t) == Le(body[|body| - t..])
  {
    hide Shr, Le;
    var a, b := body[|body| - 8..|body| - t], body[|body| - t..];
    LeHigh(a, b);
    assert a + b == body[|body| - 8..];
    assert 8 * |a| == 64 - 8 * t;
  }

  /** The body from position m on, in words and a final partial word, added to the field. */
  method TailWords(body: Bytes, m: nat, f: nat, ghost c: nat, ghost head: Bytes, ghost r: nat) returns (f0: nat)
    requires 8 <= |body| && m <= |body| && |head| + |body| - m == r
    requires Composed(f, c, head, r)
    ensures Composed(f0, c, head + body[m..], r)
  {
    hide Xor, Clmul, Shr, Pow2, AT, Le, Composed;
    var len := |body|;
    var t: nat, base: nat := len - m, m;
    f0 := f;
    assert head + body[m..m] == head;
    while t >= 8
      invariant m <= base && base + t == len
      invariant Composed(f0, c, head + body[m..base], r)
    {
      Datum(f0, c, head + body[m..base], body[base..base + 8], r, t);
      assert head + body[m..base] + body[base..base + 8] == head + body[m..base + 8];
      f0 := Xor(f0, Clmul(Le(body[base..base + 8]), AT(t)));
      t := t - 8;
      base := base + 8;
    }
    if t > 0 {
      var v := Shr(Le(body[len - 8..]), 64 - 8 * t);
      PartialWord(body, t);
      Datum(f0, c, head + body[m..base], body[base..], r, t);
      assert head + body[m..base] + body[base..] == head + body[m..];
      f0 := Xor(f0, Clmul(v, AT(t)));
    } else {
      assert body[m..base] == body[m..];
    }
  }

  /** Lane 0: the lifted state plus every remaining word, one vector ending for all of it. */
  method Lane0Tail(body: Bytes, v0: nat) returns (lane: nat)
    requires |body| >= 192 && v0 < Pow2(128)
    ensures lane == Run(Vend(v0), Rest(body))
  {
    hide Xor, Clmul, Shr, Low, Red, Inv, RMul, Pow2, Vend, KH, AT, G, Le, Composed, Run;
    var blocks, tail := |body| / 64, |body| % 64;
    var r: nat := 8 * (blocks % 2) + tail;
    var f0: nat := Xor(Clmul(Low(v0, 64), G(r)), Clmul(Shr(v0, 64), KH(r)));
    LiftState(v0, r, 64);
    ghost var head: Bytes := [];
    if blocks % 2 == 1 {
      var w := body[64 * (blocks - 1)..64 * (blocks - 1) + 8];
      Datum(f0, Vend(v0), [], w, r, r);
      assert [] + w == w;
      f0 := Xor(f0, Clmul(Le(w), AT(r)));
      head := w;
    }
    f0 := TailWords(body, 64 * blocks, f0, Vend(v0), head, r);
    FinishComposed(f0, v0, Rest(body), r);
    lane := Vend(f0);
  }

  lemma FinishComposed(f: nat, v: nat, rest: Bytes, r: nat)
    requires v < Pow2(128) && |rest| == r && Composed(f, Vend(v), rest, r)
    ensures Vend(f) == Run(Vend(v), rest)
  {
    hide Xor, Red, Inv, RMul, Pow2, Vend, Le, Run;
    VendClass(f);
    VendClass(v);
    RunClosed(Vend(v), rest);
  }

  // ---- the whole pipeline -----------------------------------------------------------------------------

  /** The four stream shapes: sequential, dual, tri and octo. */
  method FoldLane(us: seq<nat>, streams: nat) returns (st: nat)
    requires us != [] && Fields(us)
    requires streams in {1, 2, 3, 8}
    ensures Red(st) == Horner(us) && st < Pow2(128)
  {
    hide Red, Horner, Pow2;
    if streams == 1 {
      st := FoldPairs(us);
    } else if streams == 2 {
      st := FoldPairs2(us);
    } else {
      st := FoldWordStreams(us, streams);
    }
  }

  lemma UnitsFit(body: Bytes, k: nat, wp: nat)
    requires k < 8 && 128 * wp <= |body|
    ensures Fields(Units(body, k, wp))
  {
    hide Unit, Pow2;
    forall q | 0 <= q < wp ensures Unit(body, k, q) < Pow2(128) {
      UnitIsLane(body, k, q);
    }
  }

  /** Fold every lane, end lane 0 with its composed tail and lanes 1..7 with the vector ending
      plus, when a block is unpaired, one more word: exactly the scalar kernel's registers. */
  method SpanFold(body: Bytes, streams: nat) returns (lanes: seq<nat>)
    requires |body| >= 192 && streams in {1, 2, 3, 8}
    ensures lanes == LaneRegisters(body)
  {
    hide Red, Horner, Pow2, Vend, Run, Unit, Rest, Lane;
    var blocks := |body| / 64;
    var wp := blocks / 2;
    lanes := [];
    for k := 0 to 8
      invariant |lanes| == k
      invariant forall j :: 0 <= j < k ==> lanes[j] == Run(0, LaneStream(body, j))
    {
      UnitsFit(body, k, wp);
      var st := FoldLane(Units(body, k, wp), streams);
      FoldedLane(body, k, wp, st);
      var lane;
      if k == 0 {
        lane := Lane0Tail(body, st);
        RestOfLane0(body, wp);
        RunAppend(0, Lane(body, 0)[..16 * wp], Rest(body));
      } else {
        lane := Vend(st);
        LaneRemainder(body, k, wp);
        if blocks % 2 == 1 {
          var w := body[64 * (blocks - 1) + 8 * k..64 * (blocks - 1) + 8 * k + 8];
          RunAppend(0, Lane(body, k)[..16 * wp], w);
          lane := Run(lane, w);
        }
      }
      lanes := lanes + [lane];
    }
  }

  /** A lane is its paired words, then the unpaired word if there is one. */
  lemma LaneRemainder(body: Bytes, k: nat, wp: nat)
    requires k < 8 && wp == |body| / 64 / 2
    ensures 16 * wp <= |Lane(body, k)|
    ensures var b := |body| / 64;
      Lane(body, k) == Lane(body, k)[..16 * wp]
        + (if b % 2 == 1 then body[64 * (b - 1) + 8 * k..64 * (b - 1) + 8 * k + 8] else [])
    ensures k > 0 ==> LaneStream(body, k) == Lane(body, k)
  {
    hide Lane;
    var b, l := |body| / 64, Lane(body, k);
    LaneLength(body, k);
    if b % 2 == 1 {
      LaneWord(body, k, b - 1);
      assert l[8 * (b - 1)..8 * (b - 1) + 8] == l[16 * wp..];
      assert l == l[..16 * wp] + l[16 * wp..];
    } else {
      assert l[..16 * wp] == l;
    }
  }

  lemma RestOfLane0(body: Bytes, wp: nat)
    requires wp == |body| / 64 / 2
    ensures 16 * wp <= |Lane(body, 0)|
    ensures LaneStream(body, 0) == Lane(body, 0)[..16 * wp] + Rest(body)
  {
    hide Lane;
    LaneRemainder(body, 0, wp);
  }
}
