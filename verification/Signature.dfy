// The order-book signature monoid: chunks of resolved tokens folded to one signature each,
// in any partition and merge order, against one-by-one application.
module Signature {
  import opened Bytes
  import opened Modular
  import opened Mold

  /** Wrapping 64-bit addition. */
  function WAdd(x: nat, y: nat): nat {
    (x + y) % U64
  }

  /** A token, and equally the signature of a batch: volume deltas, price payload and its key
      (0 when no token of the batch sets the price). */
  datatype Sig = Sig(db: nat, da: nat, px: nat, seqNo: nat)

  const IDENTITY := Sig(0, 0, 0, 0)

  /** Add the volumes; the strictly larger key wins the price. */
  function Combine(x: Sig, y: Sig): Sig {
    var useY := y.seqNo > x.seqNo;
    Sig(WAdd(x.db, y.db), WAdd(x.da, y.da), if useY then y.px else x.px, if useY then y.seqNo else x.seqNo)
  }

  datatype Lob3 = Lob3(b: nat, a: nat, p: nat)

  /** Commit a signature to the book. */
  function Apply(s: Lob3, g: Sig): Lob3 {
    Lob3(WAdd(s.b, g.db), WAdd(s.a, g.da), if g.seqNo != 0 then g.px else s.p)
  }

  /** One token after another. */
  function SeqApply(s: Lob3, ts: seq<Sig>): Lob3
    decreases |ts|
  {
    if ts == [] then s else Apply(SeqApply(s, ts[..|ts| - 1]), ts[|ts| - 1])
  }

  /** The portable chunk fold as a function of the tokens. */
  function Fold(ts: seq<Sig>): Sig
    decreases |ts|
  {
    if ts == [] then IDENTITY else Combine(Fold(ts[..|ts| - 1]), ts[|ts| - 1])
  }

  // ---- an order-free description of the fold ---------------------------------------------------

  function SumDb(ts: seq<Sig>): nat
    decreases |ts|
  {
    if ts == [] then 0 else ts[|ts| - 1].db + SumDb(ts[..|ts| - 1])
  }

  function SumDa(ts: seq<Sig>): nat
    decreases |ts|
  {
    if ts == [] then 0 else ts[|ts| - 1].da + SumDa(ts[..|ts| - 1])
  }

  /** (k, p) is the largest key and its payload; with no setter the payload is zero. */
  ghost predicate Winner(ts: seq<Sig>, k: nat, p: nat) {
    && (forall t :: t in ts ==> t.seqNo <= k)
    && (if k == 0 then p == 0 else exists t :: t in ts && t.seqNo == k && t.px == p)
  }

  ghost predicate Describes(g: Sig, ts: seq<Sig>) {
    g.db == SumDb(ts) % U64 && g.da == SumDa(ts) % U64 && Winner(ts, g.seqNo, g.px)
  }

  /** Nonzero keys occur once. */
  ghost predicate Distinct(ts: seq<Sig>) {
    forall i, j :: 0 <= i < j < |ts| && ts[i].seqNo != 0 ==> ts[i].seqNo != ts[j].seqNo
  }

  /** Nonzero keys increase along the stream. */
  ghost predicate Increasing(ts: seq<Sig>) {
    forall i, j :: 0 <= i < j < |ts| && ts[i].seqNo != 0 && ts[j].seqNo != 0 ==> ts[i].seqNo < ts[j].seqNo
  }

  lemma WAddMod(x: nat, y: nat)
    ensures WAdd(x % U64, y) == (x + y) % U64 && WAdd(x, y % U64) == (x + y) % U64
    ensures WAdd(x % U64, y % U64) == (x + y) % U64
  {
    ModAdd(x, y, U64);
    ModAdd(y, x, U64);
    ModAdd(y, x % U64, U64);
  }

  lemma {:induction false} FoldDescribes(ts: seq<Sig>)
    ensures Describes(Fold(ts), ts)
    decreases |ts|
  {
    if ts != [] {
      var pre, t := ts[..|ts| - 1], ts[|ts| - 1];
      FoldDescribes(pre);
      assert ts == pre + [t];
      DescribesSnoc(Fold(pre), pre, t);
    }
  }

  lemma DescribesSnoc(g: Sig, pre: seq<Sig>, t: Sig)
    requires Describes(g, pre)
    ensures Describes(Combine(g, t), pre + [t])
  {
    SumAppend(pre, [t]);
    SumOne(t);
    WAddMod(SumDb(pre), t.db);
    WAddMod(SumDa(pre), t.da);
    WinnerJoin(pre, [t], g, t);
  }

  /** Winners of two batches combine to the winner of both. */
  lemma WinnerJoin(a: seq<Sig>, b: seq<Sig>, x: Sig, y: Sig)
    requires Winner(a, x.seqNo, x.px)
    requires (forall t :: t in b ==> t.seqNo <= y.seqNo) && (y.seqNo != 0 ==> exists t :: t in b && t.seqNo == y.seqNo && t.px == y.px)
    ensures Winner(a + b, Combine(x, y).seqNo, Combine(x, y).px)
  {
    if y.seqNo > x.seqNo {
      var t :| t in b && t.seqNo == y.seqNo && t.px == y.px;
      assert t in a + b;
    } else if x.seqNo != 0 {
      var t :| t in a && t.seqNo == x.seqNo && t.px == x.px;
      assert t in a + b;
    }
  }

  lemma {:induction false} SumAppend(a: seq<Sig>, b: seq<Sig>)
    ensures SumDb(a + b) == SumDb(a) + SumDb(b) && SumDa(a + b) == SumDa(a) + SumDa(b)
    decreases |b|
  {
    if b == [] {
      assert a + b == a;
    } else {
      assert (a + b)[..|a + b| - 1] == a + b[..|b| - 1];
      SumAppend(a, b[..|b| - 1]);
    }
  }

  lemma DescribesJoin(x: Sig, a: seq<Sig>, y: Sig, b: seq<Sig>)
    requires Describes(x, a) && Describes(y, b)
    ensures Describes(Combine(x, y), a + b)
  {
    SumAppend(a, b);
    WAddMod(SumDb(a), SumDb(b));
    WAddMod(SumDa(a), SumDa(b));
    WinnerJoin(a, b, x, y);
  }

  // ---- permutation ----------------------------------------------------------------------------------

  /** Removing one occurrence of a token. */
  lemma Remove(b: seq<Sig>, i: nat) returns (rest: seq<Sig>)
    requires i < |b|
    ensures |rest| == |b| - 1
    ensures multiset(b) == multiset(rest) + multiset{b[i]}
    ensures SumDb(b) == SumDb(rest) + b[i].db && SumDa(b) == SumDa(rest) + b[i].da
  {
    var l, m, r := b[..i], [b[i]], b[i + 1..];
    rest := l + r;
    assert b == l + m + r;
    SumAppend(l, r);
    SumAppend(l + m, r);
    SumAppend(l, m);
    SumOne(b[i]);
  }

  lemma SumOne(t: Sig)
    ensures SumDb([t]) == t.db && SumDa([t]) == t.da
  {
    assert [t][..0] == [];
  }

  lemma {:induction false} SumPermutation(a: seq<Sig>, b: seq<Sig>)
    requires multiset(a) == multiset(b)
    ensures SumDb(a) == SumDb(b) && SumDa(a) == SumDa(b)
    decreases |a|
  {
    assert |multiset(a)| == |a| && |multiset(b)| == |b|;
    if a != [] {
      var t := a[0];
      assert t in multiset(a);
      assert t in multiset(b);
      assert t in b;
      var i :| 0 <= i < |b| && b[i] == t;
      hide SumDb, SumDa;
      var pre := Remove(a, 0);
      var rest := Remove(b, i);
      assert multiset(pre) == multiset(a) - multiset{t};
      assert multiset(rest) == multiset(b) - multiset{t};
      SumPermutation(pre, rest);
    }
  }

  /** With distinct keys a description determines the signature, whatever the order. */
  lemma DescribesUnique(x: Sig, a: seq<Sig>, y: Sig, b: seq<Sig>)
    requires Describes(x, a) && Describes(y, b)
    requires multiset(a) == multiset(b) && Distinct(b)
    ensures x == y
  {
    SumPermutation(a, b);
    SameMembers(a, b);
    if x.seqNo != 0 {
      var t :| t in a && t.seqNo == x.seqNo && t.px == x.px;
      assert t in b;
      assert x.seqNo == y.seqNo;
      var u :| u in b && u.seqNo == y.seqNo && u.px == y.px;
      assert t == u;
    }
  }

  lemma SameMembers(a: seq<Sig>, b: seq<Sig>)
    requires multiset(a) == multiset(b)
    ensures forall t :: t in a <==> t in b
  {
    forall t ensures t in a <==> t in b {
      assert t in a <==> t in multiset(a);
      assert t in b <==> t in multiset(b);
    }
  }

  // ---- any partition, any merge order --------------------------------------------------------------------

  /** A way of folding a stream: chunks folded in sequence, joined pairwise in any shape. */
  datatype Plan = Chunk(tokens: seq<Sig>) | Join(left: Plan, right: Plan)

  function Eval(p: Plan): Sig {
    match p
    case Chunk(ts) => Fold(ts)
    case Join(l, r) => Combine(Eval(l), Eval(r))
  }

  function Tokens(p: Plan): seq<Sig> {
    match p
    case Chunk(ts) => ts
    case Join(l, r) => Tokens(l) + Tokens(r)
  }

  lemma {:induction false} PlanDescribes(p: Plan)
    ensures Describes(Eval(p), Tokens(p))
    decreases p
  {
    match p
    case Chunk(ts) => FoldDescribes(ts);
    case Join(l, r) =>
      PlanDescribes(l);
      PlanDescribes(r);
      DescribesJoin(Eval(l), Tokens(l), Eval(r), Tokens(r));
  }

  /** Every plan over the tokens of the stream, in any order, is the whole-stream fold. */
  lemma AnyMergeOrder(p: Plan, stream: seq<Sig>)
    requires multiset(Tokens(p)) == multiset(stream) && Distinct(stream)
    ensures Eval(p) == Fold(stream)
  {
    PlanDescribes(p);
    FoldDescribes(stream);
    DescribesUnique(Eval(p), Tokens(p), Fold(stream), stream);
  }

  // ---- the chunk folds -------------------------------------------------------------------------------------

  method SigFoldScalar(ts: seq<Sig>) returns (acc: Sig)
    ensures acc == Fold(ts)
  {
    acc := IDENTITY;
    assert ts[..0] == [];
    for i := 0 to |ts|
      invariant acc == Fold(ts[..i])
    {
      assert ts[..i + 1][..i] == ts[..i];
      acc := Combine(acc, ts[i]);
    }
    assert ts[..|ts|] == ts;
  }

  /** Sum of eight lanes. */
  function Total(l: seq<nat>): nat
    requires |l| == 8
  {
    l[0] + l[1] + l[2] + l[3] + l[4] + l[5] + l[6] + l[7]
  }

  /** Lane-wise wrapping addition preserves the total modulo 2^64. */
  lemma LaneAdd(l: seq<nat>, d: seq<nat>, r: seq<nat>)
    requires |l| == |d| == |r| == 8
    requires forall j :: 0 <= j < 8 ==> r[j] == WAdd(l[j], d[j])
    ensures Total(r) % U64 == (Total(l) + Total(d)) % U64
  {
    var c := seq(8, j requires 0 <= j < 8 => (l[j] + d[j]) / U64);
    forall j | 0 <= j < 8 ensures l[j] + d[j] == c[j] * U64 + r[j] {
    }
    SameRemainder(Total(r), Total(l) + Total(d), Total(c), U64);
  }

  lemma SameRemainder(x: nat, y: nat, q: nat, m: nat)
    requires m > 0 && y == q * m + x
    ensures x % m == y % m
  {
    assert x == x / m * m + x % m;
    assert (q + x / m) * m == q * m + x / m * m;
    ModOf(y, m, q + x / m, x % m);
  }

  /** The lane sums, then the pairwise tree. */
  method LaneSum(d: seq<nat>, ghost ts: seq<Sig>, ghost ask: bool) returns (sum: nat)
    requires |d| % 8 == 0 && |d| <= |ts|
    requires forall i :: 0 <= i < |d| ==> d[i] == if ask then ts[i].da else ts[i].db
    ensures sum == (if ask then SumDa(ts[..|d|]) else SumDb(ts[..|d|])) % U64
  {
    var lanes: seq<nat> := seq(8, j => 0);
    var i: nat := 0;
    NoTokens(ts, lanes);
    hide SumDa, SumDb, Total, WAdd;
    while i + 8 <= |d|
      invariant |lanes| == 8 && i % 8 == 0 && i <= |d|
      invariant Total(lanes) % U64 == (if ask then SumDa(ts[..i]) else SumDb(ts[..i])) % U64
    {
      var block := d[i..i + 8];
      var next := seq(8, j requires 0 <= j < 8 => WAdd(lanes[j], block[j]));
      LaneAdd(lanes, block, next);
      BlockSums(ts, i, block, ask);
      ModAdd(Total(lanes), Total(block), U64);
      ModAdd(if ask then SumDa(ts[..i]) else SumDb(ts[..i]), Total(block), U64);
      lanes := next;
      i := i + 8;
    }
    assert i == |d|;
    var a0, a1 := WAdd(lanes[0], lanes[1]), WAdd(lanes[2], lanes[3]);
    var a2, a3 := WAdd(lanes[4], lanes[5]), WAdd(lanes[6], lanes[7]);
    sum := WAdd(WAdd(WAdd(a0, a1), a2), a3);
    TreeSum(lanes);
  }

  lemma NoTokens(ts: seq<Sig>, lanes: seq<nat>)
    requires |lanes| == 8 && forall j :: 0 <= j < 8 ==> lanes[j] == 0
    ensures SumDa(ts[..0]) == 0 && SumDb(ts[..0]) == 0 && Total(lanes) == 0
  {
    assert ts[..0] == [];
  }

  lemma TreeSum(l: seq<nat>)
    requires |l| == 8
    ensures WAdd(WAdd(WAdd(WAdd(l[0], l[1]), WAdd(l[2], l[3])), WAdd(l[4], l[5])), WAdd(l[6], l[7]))
         == Total(l) % U64
  {
    hide WAdd;
    var s0, s1, s2, s3 := l[0] + l[1], l[2] + l[3], l[4] + l[5], l[6] + l[7];
    PairSum(l[0], l[1]); PairSum(l[2], l[3]); PairSum(l[4], l[5]); PairSum(l[6], l[7]);
    WAddMod(s0, s1);
    WAddMod(s0 + s1, s2);
    WAddMod(s0 + s1 + s2, s3);
  }

  lemma PairSum(x: nat, y: nat)
    ensures WAdd(x, y) == (x + y) % U64
  {
  }

  lemma BlockSums(ts: seq<Sig>, i: nat, block: seq<nat>, ask: bool)
    requires i + 8 <= |ts| && |block| == 8
    requires forall j :: 0 <= j < 8 ==> block[j] == if ask then ts[i + j].da else ts[i + j].db
    ensures ask ==> SumDa(ts[..i + 8]) == SumDa(ts[..i]) + Total(block)
    ensures !ask ==> SumDb(ts[..i + 8]) == SumDb(ts[..i]) + Total(block)
  {
    SumSnoc(ts, i); SumSnoc(ts, i + 1); SumSnoc(ts, i + 2); SumSnoc(ts, i + 3);
    SumSnoc(ts, i + 4); SumSnoc(ts, i + 5); SumSnoc(ts, i + 6); SumSnoc(ts, i + 7);
  }

  lemma SumSnoc(ts: seq<Sig>, i: nat)
    requires i < |ts|
    ensures SumDb(ts[..i + 1]) == SumDb(ts[..i]) + ts[i].db && SumDa(ts[..i + 1]) == SumDa(ts[..i]) + ts[i].da
  {
    assert ts[..i + 1][..i] == ts[..i];
  }

  /** The tokens of lane j among the first n, n a multiple of eight. */
  function LaneTokens(ts: seq<Sig>, j: nat, n: nat): seq<Sig>
    requires j < 8 && n <= |ts| && n % 8 == 0
    decreases n
  {
    if n == 0 then [] else LaneTokens(ts, j, n - 8) + [ts[n - 8 + j]]
  }

  /** The largest key of a nonempty batch, with a payload that came with it. */
  ghost predicate Top(ts: seq<Sig>, k: nat, p: nat) {
    && (forall t :: t in ts ==> t.seqNo <= k)
    && (exists t :: t in ts && t.seqNo == k && t.px == p)
  }

  /** One vector step in one lane: a strictly larger key wins and takes its payload along. */
  lemma TopStep(ts: seq<Sig>, k: nat, p: nat, t: Sig)
    requires Top(ts, k, p)
    ensures Top(ts + [t], if t.seqNo > k then t.seqNo else k, if t.seqNo > k then t.px else p)
  {
    if t.seqNo > k {
      assert t in ts + [t];
    } else {
      var u :| u in ts && u.seqNo == k && u.px == p;
      assert u in ts + [t];
    }
  }

  /** The lanes together hold exactly the tokens. */
  lemma {:induction false} LaneOf(ts: seq<Sig>, n: nat, i: nat) returns (j: nat)
    requires i < n <= |ts| && n % 8 == 0
    ensures j < 8 && ts[i] in LaneTokens(ts, j, n)
    decreases n
  {
    if i >= n - 8 {
      j := i - (n - 8);
    } else {
      j := LaneOf(ts, n - 8, i);
    }
  }

  lemma {:induction false} LaneIndex(ts: seq<Sig>, n: nat, j: nat, t: Sig) returns (i: nat)
    requires n <= |ts| && n % 8 == 0 && j < 8 && t in LaneTokens(ts, j, n)
    ensures i < n && ts[i] == t
    decreases n
  {
    if t == ts[n - 8 + j] {
      i := n - 8 + j;
    } else {
      assert t in LaneTokens(ts, j, n - 8);
      i := LaneIndex(ts, n - 8, j, t);
    }
  }

  /** The vector half of the key fold: lane-wise maxima over whole blocks of eight, then the
      eight lanes combined. */
  method LaneKeys(ts: seq<Sig>, nv: nat, acc0: Sig) returns (acc: Sig)
    requires 8 <= nv <= |ts| && nv % 8 == 0
    requires acc0.seqNo == 0 && acc0.px == 0 && acc0.db < U64 && acc0.da < U64
    ensures acc.db == acc0.db && acc.da == acc0.da && Winner(ts[..nv], acc.seqNo, acc.px)
  {
    hide Top, Winner;
    var s: seq<nat> := seq(8, j requires 0 <= j < 8 => ts[j].seqNo);
    var p: seq<nat> := seq(8, j requires 0 <= j < 8 => ts[j].px);
    forall j | 0 <= j < 8 ensures Top(LaneTokens(ts, j, 8), s[j], p[j]) {
      FirstTop(ts, j);
    }
    var off := 8;
    while off < nv
      invariant off % 8 == 0 && 8 <= off <= nv && |s| == 8 && |p| == 8
      invariant forall j :: 0 <= j < 8 ==> Top(LaneTokens(ts, j, off), s[j], p[j])
    {
      var s': seq<nat> := seq(8, j requires 0 <= j < 8 => if ts[off + j].seqNo > s[j] then ts[off + j].seqNo else s[j]);
      var p': seq<nat> := seq(8, j requires 0 <= j < 8 => if ts[off + j].seqNo > s[j] then ts[off + j].px else p[j]);
      forall j | 0 <= j < 8 ensures Top(LaneTokens(ts, j, off + 8), s'[j], p'[j]) {
        TopStep(LaneTokens(ts, j, off), s[j], p[j], ts[off + j]);
      }
      s, p := s', p';
      off := off + 8;
    }
    acc := CombineLanes(s, p, acc0);
    LanesWin(ts, nv, s, p, acc.seqNo, acc.px);
  }

  lemma FirstTop(ts: seq<Sig>, j: nat)
    requires j < 8 <= |ts|
    ensures Top(LaneTokens(ts, j, 8), ts[j].seqNo, ts[j].px)
  {
    assert LaneTokens(ts, j, 0) == [];
    assert LaneTokens(ts, j, 8) == [ts[j]];
    assert ts[j] in [ts[j]];
  }

  method CombineLanes(s: seq<nat>, p: seq<nat>, acc0: Sig) returns (acc: Sig)
    requires |s| == 8 && |p| == 8
    requires acc0.seqNo == 0 && acc0.px == 0 && acc0.db < U64 && acc0.da < U64
    ensures acc.db == acc0.db && acc.da == acc0.da
    ensures forall k :: 0 <= k < 8 ==> s[k] <= acc.seqNo
    ensures if acc.seqNo == 0 then acc.px == 0 else exists k :: 0 <= k < 8 && s[k] == acc.seqNo && p[k] == acc.px
  {
    acc := acc0;
    for j := 0 to 8
      invariant acc.db == acc0.db && acc.da == acc0.da
      invariant forall k :: 0 <= k < j ==> s[k] <= acc.seqNo
      invariant if acc.seqNo == 0 then acc.px == 0 else exists k :: 0 <= k < j && s[k] == acc.seqNo && p[k] == acc.px
    {
      acc := Combine(acc, Sig(0, 0, p[j], s[j]));
    }
  }

  /** The eight-lane chunk fold. */
  method SigFold8(ts: seq<Sig>) returns (acc: Sig)
    ensures Describes(acc, ts)
  {
    hide Winner, SumDb, SumDa;
    var n := |ts|;
    var nv := n - n % 8;
    var db := LaneSum(seq(nv, i requires 0 <= i < nv => ts[i].db), ts, false);
    var da := LaneSum(seq(nv, i requires 0 <= i < nv => ts[i].da), ts, true);
    acc := Sig(db, da, 0, 0);
    if nv >= 8 {
      acc := LaneKeys(ts, nv, acc);
    } else {
      assert ts[..nv] == [];
      NoWinner();
    }
    for i := nv to n
      invariant Describes(acc, ts[..i])
    {
      DescribesSnoc(acc, ts[..i], ts[i]);
      assert ts[..i] + [ts[i]] == ts[..i + 1];
      acc := Combine(acc, ts[i]);
    }
    assert ts[..n] == ts;
  }

  lemma NoWinner()
    ensures Winner([], 0, 0)
  {
  }

  lemma LanesWin(ts: seq<Sig>, n: nat, s: seq<nat>, p: seq<nat>, k: nat, px: nat)
    requires n <= |ts| && n % 8 == 0 && |s| == 8 && |p| == 8
    requires forall j :: 0 <= j < 8 ==> Top(LaneTokens(ts, j, n), s[j], p[j])
    requires forall j :: 0 <= j < 8 ==> s[j] <= k
    requires if k == 0 then px == 0 else exists j :: 0 <= j < 8 && s[j] == k && p[j] == px
    ensures Winner(ts[..n], k, px)
  {
    hide LaneTokens;
    forall t | t in ts[..n] ensures t.seqNo <= k {
      var i :| 0 <= i < n && ts[i] == t;
      var j := LaneOf(ts, n, i);
      assert Top(LaneTokens(ts, j, n), s[j], p[j]);
    }
    if k != 0 {
      var j :| 0 <= j < 8 && s[j] == k && p[j] == px;
      var t :| t in LaneTokens(ts, j, n) && t.seqNo == s[j] && t.px == p[j];
      var i := LaneIndex(ts, n, j, t);
      assert ts[..n][i] == t;
    }
  }

  /** The dispatching fold: the eight-lane path needs sixteen tokens; both paths agree. */
  method SigFold(ts: seq<Sig>, vector: bool) returns (g: Sig)
    requires Distinct(ts)
    ensures g == Fold(ts)
  {
    if |ts| >= 16 && vector {
      g := SigFold8(ts);
      FoldDescribes(ts);
      DescribesUnique(g, ts, Fold(ts), ts);
    } else {
      g := SigFoldScalar(ts);
    }
  }

  // ---- chunked application --------------------------------------------------------------------------------

  lemma {:induction false} SeqApplyAppend(s: Lob3, a: seq<Sig>, b: seq<Sig>)
    ensures SeqApply(s, a + b) == SeqApply(SeqApply(s, a), b)
    decreases |b|
  {
    if b == [] {
      assert a + b == a;
    } else {
      assert (a + b)[..|a + b| - 1] == a + b[..|b| - 1];
      SeqApplyAppend(s, a, b[..|b| - 1]);
    }
  }

  /** The book holds 64-bit values. */
  predicate InRange(s: Lob3) {
    s.b < U64 && s.a < U64
  }

  /** Folding a batch and applying it once is applying its tokens one by one, when keys increase. */
  lemma {:induction false} ApplyFold(s: Lob3, ts: seq<Sig>)
    requires Increasing(ts) && InRange(s)
    ensures Apply(s, Fold(ts)) == SeqApply(s, ts) && InRange(SeqApply(s, ts))
    decreases |ts|
  {
    if ts != [] {
      var n := |ts| - 1;
      var pre, t := ts[..n], ts[n];
      assert Increasing(pre);
      ApplyFold(s, pre);
      var g := Fold(pre);
      FoldDescribes(pre);
      if g.seqNo != 0 && t.seqNo != 0 {
        var i := WinnerIndex(pre, g.seqNo, g.px);
        assert ts[i].seqNo < t.seqNo;
      }
      ApplyAdd(s.b, g.db, t.db);
      ApplyAdd(s.a, g.da, t.da);
    } else {
      assert s.b % U64 == s.b && s.a % U64 == s.a;
    }
  }

  lemma WinnerIndex(ts: seq<Sig>, k: nat, p: nat) returns (i: nat)
    requires Winner(ts, k, p) && k != 0
    ensures i < |ts| && ts[i].seqNo == k && ts[i].px == p
  {
    var t :| t in ts && t.seqNo == k && t.px == p;
    i :| 0 <= i < |ts| && ts[i] == t;
  }

  lemma ApplyAdd(s: nat, g: nat, t: nat)
    ensures WAdd(s, WAdd(g, t)) == WAdd(WAdd(s, g), t)
  {
    WAddMod(s + g, t);
    WAddMod(s, g + t);
  }

  lemma IncreasingDistinct(ts: seq<Sig>)
    requires Increasing(ts)
    ensures Distinct(ts)
  {
  }

  /** sig_chunk_signatures: one signature per chunk of the given size. */
  method ChunkSignatures(ts: seq<Sig>, chunk: nat, vector: bool) returns (out: seq<Sig>)
    requires chunk > 0 && Distinct(ts)
    ensures forall i :: 0 <= i < |out| ==> i * chunk < |ts|
    ensures forall i :: 0 <= i < |out| ==> out[i] == Fold(ts[i * chunk..Min((i + 1) * chunk, |ts|)])
    ensures |out| * chunk >= |ts|
  {
    out := [];
    var i := 0;
    while i < |ts|
      invariant i == Min(|out| * chunk, |ts|)
      invariant forall k :: 0 <= k < |out| ==> k * chunk < |ts|
      invariant forall k :: 0 <= k < |out| ==> out[k] == Fold(ts[k * chunk..Min((k + 1) * chunk, |ts|)])
      decreases |ts| - i
    {
      var end := Min(i + chunk, |ts|);
      assert (|out| + 1) * chunk == |out| * chunk + chunk;
      var g := SigFold(ts[i..end], vector);
      out := out + [g];
      i := end;
    }
  }

  function Min(a: int, b: int): int {
    if a < b then a else b
  }

  /** sig_pass_states: commit each chunk's signature; the state at every chunk boundary is the
      sequential state there, for every chunk size and either fold path. */
  method PassStates(s0: Lob3, ts: seq<Sig>, chunk: nat, vector: bool) returns (states: seq<Lob3>)
    requires chunk > 0 && Increasing(ts) && InRange(s0)
    ensures |states| * chunk >= |ts|
    ensures forall i :: 0 <= i < |states| ==> i * chunk < |ts|
    ensures forall i :: 0 <= i < |states| ==> states[i] == SeqApply(s0, ts[..Min((i + 1) * chunk, |ts|)])
  {
    IncreasingDistinct(ts);
    var sigs := ChunkSignatures(ts, chunk, vector);
    states := [];
    var s := s0;
    assert ts[..0] == [];
    for i := 0 to |sigs|
      invariant |states| == i
      invariant InRange(s) && s == SeqApply(s0, ts[..Min(i * chunk, |ts|)])
      invariant forall k :: 0 <= k < i ==> states[k] == SeqApply(s0, ts[..Min((k + 1) * chunk, |ts|)])
    {
      var lo, hi := i * chunk, Min((i + 1) * chunk, |ts|);
      assert (i + 1) * chunk == lo + chunk;
      ApplyFold(s, ts[lo..hi]);
      SeqApplyAppend(s0, ts[..lo], ts[lo..hi]);
      assert ts[..hi] == ts[..lo] + ts[lo..hi];
      s := Apply(s, sigs[i]);
      states := states + [s];
    }
  }

  // ---- exactly when one application is enough ------------------------------------------------------------

  /** The price of the last token that sets one. */
  function LastSetter(ts: seq<Sig>): Option<nat>
    decreases |ts|
  {
    if ts == [] then None
    else if ts[|ts| - 1].seqNo != 0 then Some(ts[|ts| - 1].px)
    else LastSetter(ts[..|ts| - 1])
  }

  /** On ties the fold keeps the payload of the earliest token with the largest key. */
  lemma {:induction false} FoldFirst(ts: seq<Sig>) returns (i: nat)
    requires Fold(ts).seqNo != 0
    ensures i < |ts| && ts[i].seqNo == Fold(ts).seqNo && ts[i].px == Fold(ts).px
    ensures forall j :: 0 <= j < i ==> ts[j].seqNo < Fold(ts).seqNo
    decreases |ts|
  {
    var n := |ts| - 1;
    FoldDescribes(ts[..n]);
    if ts[n].seqNo > Fold(ts[..n]).seqNo {
      i := n;
      forall j | 0 <= j < n ensures ts[j].seqNo < ts[n].seqNo {
        assert ts[..n][j] in ts[..n];
      }
    } else {
      i := FoldFirst(ts[..n]);
    }
  }

  /** Sequential application adds the fold's sums and leaves the last setter's price. */
  lemma {:induction false} SeqApplyShape(s: Lob3, ts: seq<Sig>)
    requires InRange(s)
    ensures var r := SeqApply(s, ts);
      && InRange(r) && r.b == WAdd(s.b, Fold(ts).db) && r.a == WAdd(s.a, Fold(ts).da)
      && r.p == (if LastSetter(ts).Some? then LastSetter(ts).value else s.p)
    ensures Fold(ts).seqNo != 0 <==> LastSetter(ts).Some?
    decreases |ts|
  {
    if ts != [] {
      var n := |ts| - 1;
      SeqApplyShape(s, ts[..n]);
      ApplyAdd(s.b, Fold(ts[..n]).db, ts[n].db);
      ApplyAdd(s.a, Fold(ts[..n]).da, ts[n].da);
    } else {
      assert s.b % U64 == s.b && s.a % U64 == s.a;
    }
  }

  /** Applying the fold once is applying the tokens one by one if and only if the last token that
      sets a price sets the price of the largest key. */
  lemma ApplyFoldExactly(s: Lob3, ts: seq<Sig>)
    requires InRange(s)
    ensures Apply(s, Fold(ts)) == SeqApply(s, ts) <==> (LastSetter(ts).Some? ==> LastSetter(ts).value == Fold(ts).px)
  {
    SeqApplyShape(s, ts);
  }

  /** A witness of the failing side, with distinct keys: an older price overtakes the newer one. */
  lemma OutOfOrderDiffers()
    ensures var ts := [Sig(0, 0, 7, 2), Sig(0, 0, 9, 1)];
      Distinct(ts) && Apply(Lob3(0, 0, 0), Fold(ts)).p == 7 && SeqApply(Lob3(0, 0, 0), ts).p == 9
  {
    var a, b := Sig(0, 0, 7, 2), Sig(0, 0, 9, 1);
    assert [a, b][..1] == [a] && [a][..0] == [];
    assert Fold([a]) == Combine(IDENTITY, a);
    assert Fold([a, b]) == Combine(Fold([a]), b);
    assert SeqApply(Lob3(0, 0, 0), [a, b]) == Apply(SeqApply(Lob3(0, 0, 0), [a]), b);
  }
}
