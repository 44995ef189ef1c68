// The batched affine sink fold of the ingest driver against the sequential fold
// acc = rotl(acc, 7) ^ length.
module SinkFold {
  import opened Bytes
  import opened SpecSlicer
  import opened Modular
  import Gf2

  const BATCH := 16

  // ---- 64-bit words as bit strings, least significant bit first --------------------------

  predicate IsWord(x: seq<bool>) {
    |x| == 64
  }

  type Word = x: seq<bool> | IsWord(x) witness seq(64, i => false)

  function WordXor(x: Word, y: Word): Word {
    seq(64, i requires 0 <= i < 64 => x[i] != y[i])
  }

  /** rotate_left: bit i moves to bit i + s. */
  function RotateLeft(x: Word, s: nat): Word
    requires s < 64
  {
    x[64 - s..] + x[..64 - s]
  }

  /** A 16-bit length widened to 64 bits. */
  function Widen(l: nat): Word {
    seq(64, i requires 0 <= i < 64 => Gf2.Bit(l, i))
  }

  lemma RotateXor(x: Word, y: Word, s: nat)
    requires s < 64
    ensures RotateLeft(WordXor(x, y), s) == WordXor(RotateLeft(x, s), RotateLeft(y, s))
  {
  }

  /** Where bit i of a word rotated by s comes from. */
  function From(i: nat, s: nat): nat
    requires i < 64 && s < 64
  {
    if i >= s then i - s else i + 64 - s
  }

  lemma RotateBit(x: Word, s: nat, i: nat)
    requires s < 64 && i < 64
    ensures RotateLeft(x, s)[i] == x[From(i, s)]
  {
  }

  lemma RotateAdd(x: Word, s: nat, t: nat, u: nat)
    requires s < 64 && t < 64 && u == if s + t < 64 then s + t else s + t - 64
    ensures RotateLeft(RotateLeft(x, s), t) == RotateLeft(x, u)
  {
    var y := RotateLeft(x, s);
    var l, r := RotateLeft(y, t), RotateLeft(x, u);
    forall i | 0 <= i < 64 ensures l[i] == r[i] {
      hide RotateLeft;
      RotateBit(y, t, i);
      RotateBit(x, s, From(i, t));
      RotateBit(x, u, i);
    }
  }

  // ---- the sequential fold ----------------------------------------------------------------

  /** The legacy per-message update over a list of lengths. */
  function SeqFold(acc: Word, lens: seq<nat>): Word
    decreases |lens|
  {
    if lens == [] then acc
    else WordXor(RotateLeft(SeqFold(acc, lens[..|lens| - 1]), 7), Widen(lens[|lens| - 1]))
  }

  lemma {:induction false} SeqFoldAppend(acc: Word, a: seq<nat>, b: seq<nat>)
    ensures SeqFold(acc, a + b) == SeqFold(SeqFold(acc, a), b)
    decreases |b|
  {
    hide WordXor, RotateLeft, Widen;
    if b == [] {
      assert a + b == a;
    } else {
      var n := |b| - 1;
      assert (a + b)[..|a + b| - 1] == a + b[..n];
      SeqFoldAppend(acc, a, b[..n]);
    }
  }

  /** Rotation by seven positions k times, as the one rotation the batch uses. */
  function Turn(x: Word, k: nat): Word {
    RotateLeft(x, 7 * k % 64)
  }

  lemma TurnMore(x: Word, k: nat)
    ensures Turn(RotateLeft(x, 7), k) == Turn(x, k + 1)
  {
    hide RotateLeft;
    var s := 7 * k % 64;
    ModStep(7 * k, 7, 64);
    RotateAdd(x, 7, s, (7 * k + 7) % 64);
    assert 7 * k + 7 == 7 * (k + 1);
  }

  lemma TurnNone(x: Word)
    ensures Turn(x, 0) == x
  {
  }

  /** One term of the batch fold: the partial fold of i + 1 lengths, turned by what is left. */
  lemma BatchTerm(acc: Word, lens: seq<nat>, i: nat, k: nat)
    requires i < k <= |lens|
    ensures WordXor(Turn(SeqFold(acc, lens[..i]), k - i), Turn(Widen(lens[i]), k - 1 - i))
         == Turn(SeqFold(acc, lens[..i + 1]), k - 1 - i)
  {
    hide WordXor, RotateLeft, Widen;
    var s := SeqFold(acc, lens[..i]);
    assert lens[..i + 1][..i] == lens[..i];
    TurnMore(s, k - 1 - i);
    RotateXor(RotateLeft(s, 7), Widen(lens[i]), 7 * (k - 1 - i) % 64);
  }

  // ---- the ingest driver ------------------------------------------------------------------

  function Lens(msgs: seq<SpecMsg>): seq<nat> {
    seq(|msgs|, i requires 0 <= i < |msgs| => msgs[i].len)
  }

  lemma LensCount(msgs: seq<SpecMsg>)
    ensures |Lens(msgs)| == |msgs|
  {
  }

  lemma NextLength(payload: Bytes, p: nat)
    requires p + 2 <= |payload| && p + 2 + LenAt(payload, p) <= |payload|
    ensures Lens(RefWalk(payload, p)) == [LenAt(payload, p)] + Lens(RefWalk(payload, p + 2 + LenAt(payload, p)))
  {
    var l := LenAt(payload, p);
    assert RefWalk(payload, p) == [SpecMsg(p + 2, l)] + RefWalk(payload, p + 2 + l);
  }

  /** One boundary batch: up to sixteen lengths, whether it met a truncated message, and the
      next header. */
  method CollectBatch(payload: Bytes, pos: nat, lens: array<nat>) returns (k: nat, p: nat, truncated: bool)
    requires lens.Length == BATCH && pos + 2 <= |payload|
    modifies lens
    ensures k <= BATCH && pos <= p <= |payload|
    ensures Lens(RefWalk(payload, pos)) == lens[..k] + Lens(RefWalk(payload, p))
    ensures truncated ==> RefWalk(payload, p) == []
    ensures !truncated ==> k > 0 && p > pos
    ensures !truncated && k < BATCH ==> p + 2 > |payload|
  {
    hide RefWalk, Lens, Be16;
    k, p, truncated := 0, pos, false;
    assert lens[..0] == [];
    while p + 2 <= |payload|
      invariant k <= BATCH && pos <= p <= |payload| && (k == 0 <==> p == pos)
      invariant !truncated
      invariant Lens(RefWalk(payload, pos)) == lens[..k] + Lens(RefWalk(payload, p))
      decreases |payload| - p
    {
      var len := Be16(payload[p], payload[p + 1]);
      var next := p + 2 + len;
      if next > |payload| {
        WalkTruncated(payload, p);
        truncated := true;
        break;
      }
      if k == BATCH {
        break;
      }
      NextLength(payload, p);
      ghost var before := lens[..k];
      lens[k] := len;
      assert lens[..k + 1] == before + [len];
      k := k + 1;
      p := next;
    }
  }

  /** The batch fold: one turn of the accumulator and k independent turns. */
  method FoldBatch(acc: Word, lens: array<nat>, k: nat) returns (r: Word)
    requires lens.Length == BATCH && k <= BATCH
    ensures r == SeqFold(acc, lens[..k])
  {
    hide WordXor, RotateLeft, Widen, SeqFold;
    ghost var ls := lens[..k];
    r := Turn(acc, k);
    FoldNothing(acc);
    assert ls[..0] == [];
    for i := 0 to k
      invariant r == Turn(SeqFold(acc, ls[..i]), k - i)
    {
      BatchTerm(acc, ls, i, k);
      r := WordXor(r, Turn(Widen(lens[i]), k - 1 - i));
    }
    assert ls[..k] == ls;
    TurnNone(SeqFold(acc, ls));
  }

  lemma FoldNothing(acc: Word)
    ensures SeqFold(acc, []) == acc
  {
  }

  /** The driver returns the walk's message count and exactly the sequential fold of its lengths. */
  method SpecSliceIngest(payload: Bytes, sink: Word) returns (count: nat, acc: Word)
    ensures count == |RefWalk(payload, 0)|
    ensures acc == SeqFold(sink, Lens(RefWalk(payload, 0)))
  {
    hide SeqFold, RefWalk, Lens;
    FoldNothing(sink);
    acc, count := sink, 0;
    WalkOver(payload, 0);
    LensCount(RefWalk(payload, 0));
    if |payload| < 2 { return; }
    var pos: nat := 0;
    var lens := new nat[BATCH](_ => 0);
    ghost var folded: seq<nat> := [];
    while pos + 2 <= |payload|
      invariant pos <= |payload| && fresh(lens) && lens.Length == BATCH
      invariant Lens(RefWalk(payload, 0)) == folded + Lens(RefWalk(payload, pos))
      invariant acc == SeqFold(sink, folded) && count == |folded|
      decreases |payload| - pos
    {
      var k, p, truncated := CollectBatch(payload, pos, lens);
      SeqFoldAppend(sink, folded, lens[..k]);
      acc := FoldBatch(acc, lens, k);
      count := count + k;
      folded := folded + lens[..k];
      pos := p;
      if truncated {
        break;
      }
    }
    WalkOver(payload, pos);
    LensCount(RefWalk(payload, pos));
    assert folded == Lens(RefWalk(payload, 0));
  }

  lemma WalkOver(payload: Bytes, pos: nat)
    requires pos <= |payload|
    ensures |payload| < pos + 2 ==> RefWalk(payload, pos) == []
  {
  }
}
