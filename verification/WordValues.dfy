// The bit-string words of the sink fold as 64-bit numbers.
module WordValues {
  import opened Bytes
  import opened SpecSlicer
  import opened SinkFold
  import Gf2
  import Modular

  /** The number whose bits, least significant first, are these. */
  function Num(x: seq<bool>): nat {
    if x == [] then 0 else (if x[0] then 1 else 0) + 2 * Num(x[1..])
  }

  lemma {:induction false} NumJoin(x: seq<bool>, y: seq<bool>)
    ensures Num(x + y) == Num(x) + Gf2.Pow2(|x|) * Num(y)
    decreases |x|
  {
    hide Gf2.Pow2;
    if x == [] {
      assert x + y == y;
      PowNone();
    } else {
      PowMore(|x| - 1);
      assert (x + y)[1..] == x[1..] + y;
      NumJoin(x[1..], y);
      Doubled(Gf2.Pow2(|x| - 1), Num(y));
    }
  }

  lemma PowNone()
    ensures Gf2.Pow2(0) == 1
  {
  }

  lemma PowMore(n: nat)
    ensures Gf2.Pow2(n + 1) == 2 * Gf2.Pow2(n)
  {
  }

  lemma Doubled(p: nat, n: nat)
    ensures 2 * (p * n) == (2 * p) * n
  {
  }

  lemma {:induction false} NumBound(x: seq<bool>)
    ensures Num(x) < Gf2.Pow2(|x|)
  {
    if x != [] { NumBound(x[1..]); }
  }

  lemma {:induction false} NumXor(x: seq<bool>, y: seq<bool>, z: seq<bool>)
    requires |x| == |y| == |z| && forall i :: 0 <= i < |x| ==> z[i] == (x[i] != y[i])
    ensures Num(z) == Gf2.Xor(Num(x), Num(y))
    decreases |x|
  {
    if x != [] {
      NumXor(x[1..], y[1..], z[1..]);
      hide Gf2.Xor;
      XorDigit(x[0], y[0], Num(x[1..]), Num(y[1..]));
    }
  }

  lemma XorDigit(a: bool, b: bool, m: nat, n: nat)
    ensures Gf2.Xor((if a then 1 else 0) + 2 * m, (if b then 1 else 0) + 2 * n)
      == (if a != b then 1 else 0) + 2 * Gf2.Xor(m, n)
  {
    var x, y := (if a then 1 else 0) + 2 * m, (if b then 1 else 0) + 2 * n;
    Gf2.XorStep(x, y);
    hide Gf2.Xor;
    assert x / 2 == m && y / 2 == n;
  }

  /** Exclusive or of words is exclusive or of their numbers. */
  lemma XorValue(x: Word, y: Word)
    ensures Num(WordXor(x, y)) == Gf2.Xor(Num(x), Num(y))
  {
    hide Num, Gf2.Xor;
    NumXor(x, y, WordXor(x, y));
  }

  /** A rotation multiplies by 2^s and brings the s bits pushed out back at the bottom. */
  lemma RotateValue(x: Word, s: nat)
    requires s < 64
    ensures Num(RotateLeft(x, s)) == Gf2.Pow2(s) * (Num(x) % Gf2.Pow2(64 - s)) + Num(x) / Gf2.Pow2(64 - s)
  {
    var lo, hi := x[..64 - s], x[64 - s..];
    hide Num, Gf2.Pow2;
    assert x == lo + hi;
    NumJoin(lo, hi);
    NumBound(lo);
    NumJoin(hi, lo);
    Divided(Num(x), Gf2.Pow2(64 - s), Num(hi), Num(lo));
  }

  lemma Divided(n: nat, p: nat, q: nat, r: nat)
    requires p > 0 && r < p && n == r + p * q
    ensures n / p == q && n % p == r
  {
    Modular.ModOf(n, p, q, r);
    assert p * (n / p - q) == 0;
  }

  /** Bit i of a bit string built from a number. */
  lemma {:induction false} NumBits(l: nat, n: nat, x: seq<bool>)
    requires |x| == n && l < Gf2.Pow2(n) && forall i :: 0 <= i < n ==> x[i] == Gf2.Bit(l, i)
    ensures Num(x) == l
    decreases n
  {
    if n > 0 {
      assert x[0] == Gf2.Bit(l, 0);
      forall i | 0 <= i < n - 1 ensures x[1..][i] == Gf2.Bit(l / 2, i) {
        assert x[i + 1] == Gf2.Bit(l, i + 1);
      }
      NumBits(l / 2, n - 1, x[1..]);
    }
  }

  /** Widening keeps the number. */
  lemma WidenValue(l: nat)
    requires l < 0x1_0000
    ensures Num(Widen(l)) == l
  {
    hide Gf2.Pow2, Num;
    Widths();
    NumBits(l, 64, Widen(l));
  }

  lemma Widths()
    ensures Gf2.Pow2(7) == 128 && Gf2.Pow2(57) == 0x200_0000_0000_0000 && Gf2.Pow2(64) == 0x1_0000_0000_0000_0000
  {
    hide Gf2.Pow2;
    SmallWidths();
    PowAdd(8, 8);
    PowAdd(16, 16);
    PowAdd(32, 16);
    PowAdd(48, 8);
    PowAdd(56, 1);
    PowAdd(32, 32);
  }

  lemma SmallWidths()
    ensures Gf2.Pow2(1) == 2 && Gf2.Pow2(7) == 128 && Gf2.Pow2(8) == 256
  {
  }

  lemma {:induction false} PowAdd(m: nat, n: nat)
    ensures Gf2.Pow2(m + n) == Gf2.Pow2(m) * Gf2.Pow2(n)
    decreases m
  {
    if m > 0 {
      PowAdd(m - 1, n);
      Doubled(Gf2.Pow2(m - 1), Gf2.Pow2(n));
    }
  }

  /** The sequential update on 64-bit numbers: seven places to the left, the top seven bits back at the
      bottom, then exclusive or with the length. */
  function NumFold(acc: nat, lens: seq<nat>): nat
    decreases |lens|
  {
    if lens == [] then acc
    else
      var n := NumFold(acc, lens[..|lens| - 1]);
      Gf2.Xor(n * 128 % 0x1_0000_0000_0000_0000 + n / 0x200_0000_0000_0000, lens[|lens| - 1])
  }

  lemma Turned(n: nat)
    ensures 128 * (n % 0x200_0000_0000_0000) == n * 128 % 0x1_0000_0000_0000_0000
  {
    TurnedBy(n, 0x200_0000_0000_0000, 0x1_0000_0000_0000_0000);
  }

  lemma TurnedBy(n: nat, p: nat, m: nat)
    requires p > 0 && m == 128 * p
    ensures 128 * (n % p) == n * 128 % m
  {
    var q, r := n / p, n % p;
    assert n == q * p + r;
    assert 128 * (q * p) == q * m;
    Modular.ModOf(n * 128, m, q, 128 * r);
  }

  /** Lengths of two octets. */
  predicate Lengths(lens: seq<nat>) {
    forall i :: 0 <= i < |lens| ==> lens[i] < 0x1_0000
  }

  /** The fold of bit-string words is that update, length by length. */
  lemma {:induction false} FoldValue(acc: Word, lens: seq<nat>)
    requires Lengths(lens)
    ensures Num(SeqFold(acc, lens)) == NumFold(Num(acc), lens)
    decreases |lens|
  {
    hide Num, Gf2.Xor, RotateLeft, WordXor, Widen, Gf2.Pow2;
    if lens != [] {
      var k := |lens| - 1;
      FoldValue(acc, lens[..k]);
      var before := SeqFold(acc, lens[..k]);
      XorValue(RotateLeft(before, 7), Widen(lens[k]));
      RotateValue(before, 7);
      Widths();
      WidenValue(lens[k]);
      Turned(Num(before));
    }
  }

  /** What the driver accumulates from a payload, as a number: the fold of its block lengths, which are
      the big-endian numbers in front of the blocks. */
  lemma IngestValue(payload: Bytes, sink: Word)
    ensures Num(SeqFold(sink, Lens(RefWalk(payload, 0)))) == NumFold(Num(sink), Lens(RefWalk(payload, 0)))
  {
    hide SeqFold, NumFold, RefWalk, Num;
    LensFit(payload, 0);
    FoldValue(sink, Lens(RefWalk(payload, 0)));
  }

  lemma {:induction false} LensFit(payload: Bytes, p: nat)
    ensures Lengths(Lens(RefWalk(payload, p)))
    decreases |payload| - p
  {
    if p + 2 <= |payload| && p + 2 + LenAt(payload, p) <= |payload| {
      LensFit(payload, p + 2 + LenAt(payload, p));
      NextLength(payload, p);
    }
  }
}
