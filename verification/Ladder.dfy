// The group kernels: eight (or sixteen) entries recognised as [emit, duplicate] pairs from their
// first sequence numbers and block counts alone, and what such a group does.
module Ladder {
  import opened Bytes
  import opened Itch
  import opened Mold
  import opened Arbiter
  import opened Spans
  import opened Entries
  import opened Steady

  function Firsts(es: seq<Entry>): (f: seq<nat>)
    ensures |f| == |es|
  {
    seq(|es|, i requires 0 <= i < |es| => es[i].firstSeq)
  }

  function Counts(es: seq<Entry>): (n: seq<nat>)
    ensures |n| == |es|
  {
    seq(|es|, i requires 0 <= i < |es| => |es[i].ts|)
  }

  function Lens(es: seq<Entry>): (n: seq<nat>)
    ensures |n| == |es|
  {
    seq(|es|, i requires 0 <= i < |es| => |es[i].bytes|)
  }

  // ---- the kernel's contract ----------------------------------------------------------------

  /** Anchor, pair equality, duplicate no longer than its partner, chain, no wrap. */
  predicate Relations(firsts: seq<nat>, ns: seq<nat>, w: nat)
    requires |firsts| == 8 && |ns| == 8
  {
    && firsts[0] == w
    && w + ns[0] + ns[2] + ns[4] + ns[6] < U64
    && firsts[1] == firsts[0] && firsts[3] == firsts[2] && firsts[5] == firsts[4] && firsts[7] == firsts[6]
    && ns[1] <= ns[0] && ns[3] <= ns[2] && ns[5] <= ns[4] && ns[7] <= ns[6]
    && firsts[2] == firsts[0] + ns[0] && firsts[4] == firsts[2] + ns[2] && firsts[6] == firsts[4] + ns[4]
  }

  /** Block counts are 16-bit and sequence numbers 64-bit. */
  predicate InWidth(firsts: seq<nat>, ns: seq<nat>) {
    (forall i :: 0 <= i < |firsts| ==> firsts[i] < U64) && (forall i :: 0 <= i < |ns| ==> ns[i] < 0x1_0000)
  }

  type Kernel = (seq<nat>, seq<nat>, nat) -> bool

  /** A kernel may refuse any group, but accepts only groups with the relations. */
  ghost predicate Sound(kernel: Kernel) {
    forall f, n, w :: |f| == 8 && |n| == 8 && InWidth(f, n) && kernel(f, n, w) ==> Relations(f, n, w)
  }

  /** 64-bit truncation. */
  function Wrapped(x: nat): (y: nat)
    ensures x < U64 ==> y == x
  {
    x % U64
  }

  /** How far the four even entries advance the watermark. */
  function Advance8(ns: seq<nat>): nat
    requires |ns| == 8
  {
    ns[0] + ns[2] + ns[4] + ns[6]
  }

  /** The relations of pair j, the chain wrapping as the machine does. */
  predicate PairAccepted(firsts: seq<nat>, ns: seq<nat>, j: nat)
    requires |firsts| == 8 && |ns| == 8 && j < 4
  {
    && firsts[2 * j + 1] == firsts[2 * j]
    && ns[2 * j + 1] <= ns[2 * j]
    && (j < 3 ==> firsts[2 * j + 2] == Wrapped(firsts[2 * j] + ns[2 * j]))
  }

  /** What the scalar reference kernel accepts, on any 64-bit inputs. */
  predicate Accepted(firsts: seq<nat>, ns: seq<nat>, w: nat)
    requires |firsts| == 8 && |ns| == 8
  {
    firsts[0] == w && w + Wrapped(Advance8(ns)) < U64 && forall j: nat :: j < 4 ==> PairAccepted(firsts, ns, j)
  }

  /** The scalar reference kernel: 64-bit wrapping sums, one pair at a time. */
  method Ladder8Scalar(firsts: seq<nat>, ns: seq<nat>, w: nat) returns (ok: bool)
    requires |firsts| == 8 && |ns| == 8
    ensures ok <==> Accepted(firsts, ns, w)
    ensures Advance8(ns) < U64 ==> (ok <==> Relations(firsts, ns, w))
  {
    AcceptedExactly(firsts, ns, w);
    hide Relations, Wrapped;
    if firsts[0] != w { return false; }
    var sum := Wrapped(ns[0] + ns[2] + ns[4] + ns[6]);
    if firsts[0] > U64 - 1 - sum { return false; }
    var i: nat := 0;
    while i < 4
      invariant i <= 4 && forall j: nat :: j < i ==> PairAccepted(firsts, ns, j)
    {
      var m := 2 * i;
      if firsts[m + 1] != firsts[m] || ns[m + 1] > ns[m] || (i < 3 && firsts[m + 2] != Wrapped(firsts[m] + ns[m])) {
        assert !PairAccepted(firsts, ns, i);
        return false;
      }
      i := i + 1;
    }
    return true;
  }

  /** The kernel accepts a group that has the relations, and one that has not exactly when the
      advance itself wraps. */
  lemma AcceptedExactly(firsts: seq<nat>, ns: seq<nat>, w: nat)
    requires |firsts| == 8 && |ns| == 8
    ensures Relations(firsts, ns, w) <==> Accepted(firsts, ns, w) && Advance8(ns) < U64
  {
    if Accepted(firsts, ns, w) && Advance8(ns) < U64 {
      assert PairAccepted(firsts, ns, 0) && PairAccepted(firsts, ns, 1) && PairAccepted(firsts, ns, 2) && PairAccepted(firsts, ns, 3);
    }
    hide Wrapped;
  }

  /** Such groups exist for 64-bit counts, though not for the 16-bit counts of frames. */
  lemma WrappingGroupAccepted()
    ensures var h := U64 / 2; var f, n := [0, 0, h, h, 0, 0, 0, 0], [h, 0, h, 0, 0, 0, 0, 0];
      Accepted(f, n, 0) && !Relations(f, n, 0)
  {
    var h := U64 / 2;
    var f, n := [0, 0, h, h, 0, 0, 0, 0], [h, 0, h, 0, 0, 0, 0, 0];
    assert Wrapped(h + h) == 0;
    forall j: nat | j < 4 ensures PairAccepted(f, n, j) {
      if j == 0 {} else if j == 1 {} else if j == 2 {} else {}
    }
  }

  /** On the counts and numbers of frames the scalar kernel is sound. */
  lemma ScalarIsSound(kernel: Kernel)
    requires forall f, n, w :: |f| == 8 && |n| == 8 && kernel(f, n, w) ==> Accepted(f, n, w)
    ensures Sound(kernel)
  {
    forall f, n, w | |f| == 8 && |n| == 8 && InWidth(f, n) && kernel(f, n, w) ensures Relations(f, n, w) {
      AcceptedExactly(f, n, w);
      assert n[0] < 0x1_0000 && n[2] < 0x1_0000 && n[4] < 0x1_0000 && n[6] < 0x1_0000;
    }
  }

  // ---- pairs ----------------------------------------------------------------------------------

  /** The entries are pairs: one at the running watermark w, then a copy of it no longer than it. */
  ghost predicate Pairs(es: seq<Entry>, w: nat)
    decreases |es|
  {
    es == []
    || (|es| >= 2 && es[0].firstSeq == w && es[1].firstSeq == w && |es[1].ts| <= |es[0].ts| && Pairs(es[2..], w + |es[0].ts|))
  }

  function SumEven(s: seq<nat>): nat {
    if |s| < 2 then 0 else s[0] + SumEven(s[2..])
  }

  function SumOdd(s: seq<nat>): nat {
    if |s| < 2 then 0 else s[1] + SumOdd(s[2..])
  }

  lemma Sum8(s: seq<nat>)
    requires |s| == 8
    ensures SumEven(s) == s[0] + s[2] + s[4] + s[6]
    ensures SumOdd(s) == s[1] + s[3] + s[5] + s[7]
  {
    hide SumEven, SumOdd;
    var a := s[2..];
    var b := a[2..];
    var c := b[2..];
    SumStep(s);
    SumStep(a);
    SumStep(b);
    SumStep(c);
    SumNone(c[2..]);
    assert a[0] == s[2] && b[0] == s[4] && c[0] == s[6] && a[1] == s[3] && b[1] == s[5] && c[1] == s[7];
  }

  lemma SumStep(s: seq<nat>)
    requires |s| >= 2
    ensures SumEven(s) == s[0] + SumEven(s[2..]) && SumOdd(s) == s[1] + SumOdd(s[2..])
  {
  }

  lemma SumNone(s: seq<nat>)
    requires s == []
    ensures SumEven(s) == 0 && SumOdd(s) == 0
  {
  }

  lemma {:induction false} SumJoin(s: seq<nat>, t: seq<nat>)
    requires |s| % 2 == 0
    ensures SumEven(s + t) == SumEven(s) + SumEven(t)
    ensures SumOdd(s + t) == SumOdd(s) + SumOdd(t)
    decreases |s|
  {
    if s == [] {
      assert s + t == t;
    } else {
      SumJoin(s[2..], t);
      assert (s + t)[2..] == s[2..] + t;
    }
  }

  lemma {:induction false} PairsJoin(es: seq<Entry>, fs: seq<Entry>, w: nat)
    requires Pairs(es, w) && Pairs(fs, w + SumEven(Counts(es)))
    ensures Pairs(es + fs, w)
    decreases |es|
  {
    if es == [] {
      assert es + fs == fs;
    } else {
      assert Counts(es)[2..] == Counts(es[2..]);
      PairsJoin(es[2..], fs, w + |es[0].ts|);
      assert (es + fs)[2..] == es[2..] + fs;
    }
  }

  /** The relations over a gathered group of eight make it pairs from w on. */
  lemma RelationsArePairs(es: seq<Entry>, w: nat)
    requires |es| == 8 && Relations(Firsts(es), Counts(es), w)
    ensures Pairs(es, w)
  {
    var w1 := w + |es[0].ts|;
    var w2 := w1 + |es[2].ts|;
    var w3 := w2 + |es[4].ts|;
    assert Pairs(es[6..][2..], w3 + |es[6].ts|);
    assert Pairs(es[6..], w3);
    assert es[4..][2..] == es[6..] && Pairs(es[4..], w2);
    assert es[2..][2..] == es[4..] && Pairs(es[2..], w1);
  }

  // ---- what a group does -------------------------------------------------------------------------

  function PairTally(t: Tally, es: seq<Entry>): Tally
    decreases |es|
  {
    if |es| < 2 then t else PairTally(TallyDup(TallyEmit(t, es[0]), es[1]), es[2..])
  }

  function PairMsgs(es: seq<Entry>): seq<Msg>
    decreases |es|
  {
    if |es| < 2 then [] else EntryMsgs(es[0]) + PairMsgs(es[2..])
  }

  /** Every entry is eligible under the live session. */
  ghost predicate Eligible(es: seq<Entry>, session: Bytes) {
    forall i :: 0 <= i < |es| ==> WellFormed(es[i], session) && EligOk(es[i])
  }

  lemma EligibleFits(a: Arb, e: Entry)
    requires WellFormed(e, a.session) && EligOk(e)
    ensures Fits(a, e) && e.memo == Some(|e.ts|) && GoodMemo(e.bytes, e.ts, e.memo)
  {
  }

  lemma EligibleEmit(base: Arb, e: Entry, w: nat, t: Tally, trace: seq<Out>, progressed: bool, now: nat)
    requires SteadyReady(base) && WellFormed(e, base.session) && EligOk(e) && e.firstSeq == w
    ensures Ingest(Scanned(base, w, t, trace, progressed, now), e.bytes, e.feed, now)
      == Scanned(base, w + |e.ts|, TallyEmit(t, e), trace + Outs(base.gen, EntryMsgs(e)), true, now)
  {
    var a := Scanned(base, w, t, trace, progressed, now);
    ExpandOuts(trace, base.gen, EntryMsgs(e));
    ScannedSteady(base, w, t, trace, progressed, now);
    EligibleFits(a, e);
    hide *;
    ScannedEmit(base, w, t, trace, progressed, now, e, trace + Outs(base.gen, EntryMsgs(e)));
  }

  lemma EligibleDup(base: Arb, e: Entry, w: nat, t: Tally, trace: seq<Out>, progressed: bool, now: nat)
    requires SteadyReady(base) && WellFormed(e, base.session) && EligOk(e) && e.firstSeq + |e.ts| <= w
    ensures Ingest(Scanned(base, w, t, trace, progressed, now), e.bytes, e.feed, now)
      == Scanned(base, w, TallyDup(t, e), trace, progressed, now)
  {
    var a := Scanned(base, w, t, trace, progressed, now);
    ScannedSteady(base, w, t, trace, progressed, now);
    EligibleFits(a, e);
    FitsNonEmpty(a, e);
    hide *;
    ScannedDup(base, w, t, trace, progressed, now, e);
  }

  /** One pair: the first entry emits, its copy counts as a duplicate. */
  lemma PairRuns(base: Arb, e: Entry, d: Entry, w: nat, t: Tally, trace: seq<Out>, progressed: bool, now: nat)
    requires SteadyReady(base) && WellFormed(e, base.session) && EligOk(e) && WellFormed(d, base.session) && EligOk(d)
    requires e.firstSeq == w && d.firstSeq == w && |d.ts| <= |e.ts|
    ensures var a := Scanned(base, w, t, trace, progressed, now);
      Ingest(Ingest(a, e.bytes, e.feed, now), d.bytes, d.feed, now)
      == Scanned(base, w + |e.ts|, TallyDup(TallyEmit(t, e), d), trace + Outs(base.gen, EntryMsgs(e)), true, now)
  {
    hide *;
    EligibleEmit(base, e, w, t, trace, progressed, now);
    EligibleDup(base, d, w + |e.ts|, TallyEmit(t, e), trace + Outs(base.gen, EntryMsgs(e)), true, now);
  }

  lemma FitsNonEmpty(a: Arb, e: Entry)
    requires Fits(a, e)
    ensures |e.ts| > 0
  {
  }

  lemma FoldTwo(a: Arb, es: seq<Entry>, now: nat)
    requires |es| >= 2
    ensures FoldIngest(a, es, now)
      == FoldIngest(Ingest(Ingest(a, es[0].bytes, es[0].feed, now), es[1].bytes, es[1].feed, now), es[2..], now)
  {
    hide Ingest;
    FoldJoin(a, es, 0, 2, |es|, now);
    FoldSnoc(a, es, 0, 0, now);
    FoldSnoc(a, es, 0, 1, now);
    assert es[0..|es|] == es && es[2..|es|] == es[2..] && es[0..0] == [];
  }

  /** A group of pairs, frame by frame, is one step: the watermark moves by the even counts, the
      even messages are emitted, the counters are those of the pairs. */
  lemma {:induction false} PairsRun(base: Arb, es: seq<Entry>, w: nat, t: Tally, trace: seq<Out>, trace': seq<Out>,
                                    progressed: bool, now: nat)
    requires SteadyReady(base) && Eligible(es, base.session) && Pairs(es, w) && (es == [] ==> progressed)
    requires Expand(trace') == Expand(trace) + Outs(base.gen, PairMsgs(es))
    ensures FoldIngest(Scanned(base, w, t, trace, progressed, now), es, now)
      == Scanned(base, w + SumEven(Counts(es)), PairTally(t, es), trace', true, now)
    decreases |es|
  {
    hide *;
    var a := Scanned(base, w, t, trace, progressed, now);
    if es == [] {
      PairsNone(base, es, w, t, trace, trace', now);
    } else {
      PairsStep(base, es, w, t, trace, trace');
      var e, d, rest := es[0], es[1], es[2..];
      var trace1 := trace + Outs(base.gen, EntryMsgs(e));
      var t1 := TallyDup(TallyEmit(t, e), d);
      PairRuns(base, e, d, w, t, trace, progressed, now);
      FoldTwo(a, es, now);
      PairsRun(base, rest, w + |e.ts|, t1, trace1, trace', true, now);
    }
  }

  lemma EligibleRest(es: seq<Entry>, session: Bytes)
    requires |es| >= 2 && Eligible(es, session)
    ensures Eligible(es[2..], session)
    ensures WellFormed(es[0], session) && EligOk(es[0]) && WellFormed(es[1], session) && EligOk(es[1])
  {
  }

  lemma PairsHead(es: seq<Entry>, w: nat, t: Tally)
    requires Pairs(es, w) && es != []
    ensures |es| >= 2
    ensures var e, d, rest := es[0], es[1], es[2..];
      && e.firstSeq == w && d.firstSeq == w && |d.ts| <= |e.ts| && Pairs(rest, w + |e.ts|)
      && SumEven(Counts(es)) == |e.ts| + SumEven(Counts(rest))
      && PairTally(t, es) == PairTally(TallyDup(TallyEmit(t, e), d), rest)
      && PairMsgs(es) == EntryMsgs(e) + PairMsgs(rest)
  {
    assert Counts(es)[2..] == Counts(es[2..]);
    hide EntryMsgs, TallyEmit, TallyDup;
  }

  lemma PairsStep(base: Arb, es: seq<Entry>, w: nat, t: Tally, trace: seq<Out>, trace': seq<Out>)
    requires Eligible(es, base.session) && Pairs(es, w) && es != []
    requires Expand(trace') == Expand(trace) + Outs(base.gen, PairMsgs(es))
    ensures |es| >= 2
    ensures var e, d, rest := es[0], es[1], es[2..];
      && WellFormed(e, base.session) && EligOk(e) && WellFormed(d, base.session) && EligOk(d)
      && e.firstSeq == w && d.firstSeq == w && |d.ts| <= |e.ts|
      && Eligible(rest, base.session) && Pairs(rest, w + |e.ts|)
      && SumEven(Counts(es)) == |e.ts| + SumEven(Counts(rest))
      && PairTally(t, es) == PairTally(TallyDup(TallyEmit(t, e), d), rest)
      && Expand(trace') == Expand(trace + Outs(base.gen, EntryMsgs(e))) + Outs(base.gen, PairMsgs(rest))
  {
    hide *;
    PairsHead(es, w, t);
    var e, rest := es[0], es[2..];
    EligibleRest(es, base.session);
    ExpandOuts(trace, base.gen, EntryMsgs(e));
    OutsConcat(base.gen, EntryMsgs(e), PairMsgs(rest));
    Assoc(Expand(trace), Outs(base.gen, EntryMsgs(e)), Outs(base.gen, PairMsgs(rest)));
  }

  lemma PairsNone(base: Arb, es: seq<Entry>, w: nat, t: Tally, trace: seq<Out>, trace': seq<Out>, now: nat)
    requires es == [] && Expand(trace') == Expand(trace) + Outs(base.gen, PairMsgs(es))
    ensures FoldIngest(Scanned(base, w, t, trace, true, now), es, now)
      == Scanned(base, w + SumEven(Counts(es)), PairTally(t, es), trace', true, now)
  {
    assert Expand(trace') == Expand(trace);
    hide Expand;
  }

  /** The even entries come from one feed and the odd ones from another, by parity. */
  ghost predicate Alternating(es: seq<Entry>, fe: nat, fd: nat) {
    forall i :: 0 <= i < |es| ==> es[i].feed % 2 == (if i % 2 == 0 then fe else fd) % 2
  }

  /** The counters of a whole group, added up at once. */
  function BatchTally(t: Tally, es: seq<Entry>, fe: nat, fd: nat): Tally {
    var k := |es| / 2;
    Tally(Add(Add(t.pk, fe, k), fd, k),
          Add(Add(t.byt, fe, SumEven(Lens(es))), fd, SumOdd(Lens(es))),
          Add(t.dup, fd, k), t.dupMsgs + SumOdd(Counts(es)), t.emitted + SumEven(Counts(es)))
  }

  lemma {:induction false} PairTallyAtOnce(t: Tally, es: seq<Entry>, fe: nat, fd: nat)
    requires |es| % 2 == 0 && Alternating(es, fe, fd)
    ensures PairTally(t, es) == BatchTally(t, es, fe, fd)
    decreases |es|
  {
    if es != [] {
      var rest := es[2..];
      assert Lens(es)[2..] == Lens(rest) && Counts(es)[2..] == Counts(rest);
      AlternatingRest(es, fe, fd);
      PairTallyAtOnce(TallyDup(TallyEmit(t, es[0]), es[1]), rest, fe, fd);
      hide PairTally, Alternating, Lens, Counts;
      PairTallyStep(t, es);
    }
  }

  lemma PairTallyStep(t: Tally, es: seq<Entry>)
    requires |es| >= 2
    ensures PairTally(t, es) == PairTally(TallyDup(TallyEmit(t, es[0]), es[1]), es[2..])
  {
  }

  lemma AlternatingRest(es: seq<Entry>, fe: nat, fd: nat)
    requires |es| >= 2 && Alternating(es, fe, fd)
    ensures Alternating(es[2..], fe, fd) && es[0].feed % 2 == fe % 2 && es[1].feed % 2 == fd % 2
  {
    forall i | 0 <= i < |es[2..]| ensures es[2..][i].feed % 2 == (if i % 2 == 0 then fe else fd) % 2 {
      assert es[2..][i] == es[i + 2];
    }
  }

  lemma EligibleWords(base: Arb, e: Entry, lo: nat, hi: nat)
    requires WellFormed(e, base.session) && EligOk(e) && SessionWords(base, lo, hi)
    ensures e.ts != [] && e.sessLo == lo && e.sessHi == hi && e.memo == Some(|e.ts|)
  {
    assert base.session == e.bytes[..10];
    assert e.bytes[..10][..8] == e.bytes[..8] && e.bytes[..10][2..] == e.bytes[2..10];
    hide Le;
  }

  /** The scalar scan takes a pair in two steps. */
  lemma ScanPair(es: seq<Entry>, p: nat, w: nat, lo: nat, hi: nat)
    requires p + 2 <= |es|
    requires var e := es[p]; e.ts != [] && e.sessLo == lo && e.sessHi == hi && e.memo == Some(|e.ts|) && e.firstSeq == w
    requires var d := es[p + 1]; d.ts != [] && d.sessLo == lo && d.sessHi == hi && d.firstSeq == w && |d.ts| <= |es[p].ts|
    ensures ScanEnd(es, p, w, lo, hi) == ScanEnd(es, p + 2, w + |es[p].ts|, lo, hi)
  {
    var n := |es[p].ts|;
    assert !ColdFor(es[p], w, lo, hi) && After(es[p], w) == w + n;
    assert !ColdFor(es[p + 1], w + n, lo, hi) && After(es[p + 1], w + n) == w + n;
  }

  /** The scalar scan would run through a group of eligible pairs. */
  lemma {:induction false} PairsScan(base: Arb, es: seq<Entry>, p: nat, m: nat, w: nat, lo: nat, hi: nat)
    requires p + m <= |es| && SessionWords(base, lo, hi)
    requires Eligible(es[p..p + m], base.session) && Pairs(es[p..p + m], w)
    ensures ScanEnd(es, p, w, lo, hi) == ScanEnd(es, p + m, w + SumEven(Counts(es[p..p + m])), lo, hi)
    decreases m
  {
    hide *;
    var g := es[p..p + m];
    if m == 0 {
      CountsNone(g);
    } else {
      PairsHead(g, w, NO_TALLY);
      assert g[0] == es[p] && g[1] == es[p + 1] && g[2..] == es[p + 2..p + m];
      EligibleRest(g, base.session);
      EligibleWords(base, g[0], lo, hi);
      EligibleWords(base, g[1], lo, hi);
      ScanPair(es, p, w, lo, hi);
      PairsScan(base, es, p + 2, m - 2, w + |g[0].ts|, lo, hi);
    }
  }

  lemma CountsNone(es: seq<Entry>)
    requires es == []
    ensures SumEven(Counts(es)) == 0
  {
  }
}
