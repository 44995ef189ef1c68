// The batched steady scans: frames applied without touching the sequencer, with the watermark,
// the counters and the span calls kept in locals and handed back when the scan ends.
module Batch {
  import opened Bytes
  import opened Itch
  import opened Mold
  import opened Arbiter
  import opened Spans
  import opened Entries
  import opened Steady
  import opened Ladder

  const STEADY_RECS: nat := 32

  /** The arguments of one span call. */
  datatype SpanRec = SpanRec(first: nat, count: nat, body: Bytes, cuts: seq<Block>)

  function SpanOf(gen: nat, r: SpanRec): Out {
    Span(gen, r.first, r.count, r.body, r.cuts)
  }

  function SpansOf(gen: nat, recs: seq<SpanRec>): (o: seq<Out>)
    ensures |o| == |recs|
  {
    seq(|recs|, i requires 0 <= i < |recs| => SpanOf(gen, recs[i]))
  }

  /** The buffer of span calls of a scan. */
  class RecEmitter {
    const recs: array<SpanRec>
    var n: nat

    ghost predicate Valid()
      reads this
    {
      recs.Length == STEADY_RECS && n <= STEADY_RECS
    }

    ghost function Pending(): seq<SpanRec>
      requires Valid()
      reads this, recs
    {
      recs[..n]
    }

    constructor ()
      ensures Valid() && n == 0 && Pending() == [] && fresh(recs)
    {
      recs := new SpanRec[STEADY_RECS](_ => SpanRec(0, 0, [], []));
      n := 0;
    }

    method Push(r: SpanRec)
      requires Valid() && n < STEADY_RECS
      modifies this, recs
      ensures Valid() && n == old(n) + 1 && Pending() == old(Pending()) + [r]
    {
      recs[n] := r;
      n := n + 1;
    }

    /** Hand the buffered calls to the sink, in order. */
    method Flush(log: seq<Out>, gen: nat) returns (log': seq<Out>)
      requires Valid()
      modifies this`n
      ensures Valid() && n == 0 && Pending() == [] && log' == log + SpansOf(gen, old(Pending()))
    {
      log' := log + SpansOf(gen, recs[..n]);
      n := 0;
    }
  }

  /** What the sink will have seen once the buffer is flushed. */
  ghost function Trace(log: seq<Out>, gen: nat, pending: seq<SpanRec>): seq<Out> {
    log + SpansOf(gen, pending)
  }

  lemma TraceAll(log: seq<Out>, gen: nat, pending: seq<SpanRec>, r: SpanRec)
    ensures Trace(log, gen, pending + [r]) == Trace(log, gen, pending) + [SpanOf(gen, r)]
    ensures Trace(log + SpansOf(gen, pending), gen, []) == Trace(log, gen, pending)
    ensures Trace(log, gen, []) == log
  {
    assert SpansOf(gen, pending + [r]) == SpansOf(gen, pending) + [SpanOf(gen, r)];
  }

  /** The one span of a fully valid entry stands for its messages. */
  lemma EntrySpan(e: Entry, gen: nat)
    requires ExactWalk(e.bytes, e.firstSeq, e.ts) && e.ts != []
    ensures |e.bytes| >= HEADER_LEN + 2
    ensures ExpandOne(Span(gen, e.firstSeq, |e.ts|, e.bytes[HEADER_LEN + 2..], Blocks(e.ts))) == Outs(gen, EntryMsgs(e))
  {
    ExactWalkFits(e.bytes, e.firstSeq, e.ts);
    SpanStandsFor(e.bytes, e.firstSeq, Blocks(e.ts), 0);
    var first, body, cuts := e.firstSeq, e.bytes[HEADER_LEN + 2..], Blocks(e.ts);
    assert cuts[0..] == cuts && body == e.bytes[HEADER_LEN + 2..|e.bytes|];
    assert SpanMsgs(first, body, cuts) == EntryMsgs(e);
  }

  /** on_msg for each of the entry's triples. */
  method EmitMessages(e: Entry, log: seq<Out>, gen: nat) returns (log': seq<Out>)
    requires ExactWalk(e.bytes, e.firstSeq, e.ts)
    ensures log' == log + Outs(gen, EntryMsgs(e))
  {
    ExactWalkFits(e.bytes, e.firstSeq, e.ts);
    ghost var ms := EntryMsgs(e);
    assert forall i :: 0 <= i < |e.ts| ==> Blocks(e.ts)[i] == e.ts[i].at;
    hide Deliver, IngestWalk, FrameWalk, Ordered;
    log' := log;
    for i := 0 to |e.ts|
      invariant log' == log + Outs(gen, ms)[..i]
    {
      var b := e.ts[i].at;
      assert Outs(gen, ms)[i] == Emit(gen, e.ts[i].seqNo, e.bytes[b.start..b.end]);
      log' := log' + [Emit(gen, e.ts[i].seqNo, e.bytes[b.start..b.end])];
    }
    assert Outs(gen, ms)[..|e.ts|] == Outs(gen, ms);
  }

  /** The buffer holds nothing when the sink takes no spans, and is never full between entries. */
  ghost predicate Ready(em: RecEmitter, wantsSpans: bool)
    reads em
  {
    em.Valid() && em.n < STEADY_RECS && (!wantsSpans ==> em.n == 0)
  }

  /** Hand an entry's messages over: into the buffer as one span, flushed when full, or straight
      to the sink one by one. */
  method EmitEntry(em: RecEmitter, e: Entry, log: seq<Out>, gen: nat, wantsSpans: bool) returns (log': seq<Out>)
    requires Ready(em, wantsSpans) && ExactWalk(e.bytes, e.firstSeq, e.ts) && e.ts != []
    modifies em, em.recs
    ensures Ready(em, wantsSpans)
    ensures Expand(Trace(log', gen, em.Pending())) == Expand(Trace(log, gen, old(em.Pending()))) + Outs(gen, EntryMsgs(e))
    ensures !wantsSpans ==> log' == log + Outs(gen, EntryMsgs(e)) && em.Pending() == []
  {
    hide ExactWalk, Outs, Expand, ExpandOne, EntryMsgs, Trace, SpansOf;
    log' := log;
    ghost var before := em.Pending();
    if wantsSpans {
      EntrySpan(e, gen);
      var r := SpanRec(e.firstSeq, |e.ts|, e.bytes[HEADER_LEN + 2..], Blocks(e.ts));
      TraceAll(log, gen, before, r);
      ExpandSnoc(Trace(log, gen, before), SpanOf(gen, r));
      em.Push(r);
      if em.n == STEADY_RECS {
        TraceAll(log, gen, em.Pending(), r);
        log' := em.Flush(log, gen);
      }
    } else {
      log' := EmitMessages(e, log, gen);
      TraceAll(log, gen, [], SpanRec(0, 0, [], []));
      TraceAll(log', gen, [], SpanRec(0, 0, [], []));
      ExpandOuts(log, gen, EntryMsgs(e));
    }
  }

  // ---- one entry --------------------------------------------------------------------------------

  datatype Outcome = Advanced | DupSkipped | Cold

  /** The steady ladder for one entry: emit at the watermark, count below it, hand anything else
      back untouched. */
  method SteadyStep(em: RecEmitter, e: Entry, w: nat, t: Tally, log: seq<Out>, gen: nat, wantsSpans: bool, lo: nat, hi: nat,
                    ghost base: Arb, ghost progressed: bool, ghost now: nat, ghost baked: Bytes)
    returns (outcome: Outcome, w': nat, t': Tally, log': seq<Out>)
    requires Ready(em, wantsSpans) && WellFormed(e, baked) && SteadyReady(base) && SessionWords(base, lo, hi) && gen == base.gen
    modifies em, em.recs
    ensures Ready(em, wantsSpans)
    ensures outcome == Cold <==> ColdFor(e, w, lo, hi)
    ensures outcome != Cold ==> w' == After(e, w)
    ensures outcome == Cold ==> w' == w && t' == t && Trace(log', gen, em.Pending()) == Trace(log, gen, old(em.Pending()))
    ensures outcome != Cold ==>
      Scanned(base, w', t', Trace(log', gen, em.Pending()), progressed || outcome == Advanced, now)
      == Ingest(Scanned(base, w, t, Trace(log, gen, old(em.Pending())), progressed, now), e.bytes, e.feed, now)
  {
    ghost var a := Scanned(base, w, t, Trace(log, gen, em.Pending()), progressed, now);
    ScannedSteady(base, w, t, Trace(log, gen, em.Pending()), progressed, now);
    w', t', log' := w, t, log;
    var count := |e.ts|;
    if count == 0 || e.sessLo != lo || e.sessHi != hi { return Cold, w, t, log; }
    WordsFit(a, e, baked);
    hide Ingest, Scanned, Trace, SteadyReady, SessionWords, ExactWalk, GoodMemo, Outs, EntryMsgs, Expand;
    var last := e.firstSeq + count - 1;
    if last < w {
      ScannedDup(base, w, t, Trace(log, gen, em.Pending()), progressed, now, e);
      return DupSkipped, w, TallyDup(t, e), log;
    }
    if e.firstSeq != w || e.memo != Some(count) { return Cold, w, t, log; }
    ghost var before := Trace(log, gen, em.Pending());
    log' := EmitEntry(em, e, log, gen, wantsSpans);
    ScannedEmit(base, w, t, before, progressed, now, e, Trace(log', gen, em.Pending()));
    return Advanced, last + 1, TallyEmit(t, e), log';
  }

  // ---- groups -----------------------------------------------------------------------------------

  /** The session gate on the first entry, then every entry's eligibility byte and feed. */
  method GroupGate(es: seq<Entry>, p: nat, m: nat, lo: nat, hi: nat) returns (ok: bool, f0: nat, f1: nat)
    requires p + m <= |es| && m >= 2
    ensures ok ==> es[p].sessLo == lo && es[p].sessHi == hi
    ensures ok ==> forall k: nat :: p <= k < p + m ==>
      EligOk(es[k]) && EligFeed(es[k]) == if (k - p) % 2 == 0 then f0 else f1
  {
    f0, f1 := EligFeed(es[p]), EligFeed(es[p + 1]);
    if es[p].sessLo != lo || es[p].sessHi != hi || !EligOk(es[p]) { return false, f0, f1; }
    for k := 0 to m
      invariant forall j: nat :: p <= j < p + k ==> EligOk(es[j]) && EligFeed(es[j]) == if (j - p) % 2 == 0 then f0 else f1
    {
      var want := if k % 2 == 0 then f0 else f1;
      if !EligOk(es[p + k]) || EligFeed(es[p + k]) != want { return false, f0, f1; }
    }
    ok := true;
  }

  /** The sums over one group of eight. */
  method Sums8(es: seq<Entry>, p: nat) returns (evenBytes: nat, oddBytes: nat, evenMsgs: nat, oddMsgs: nat)
    requires p + 8 <= |es|
    ensures var g := es[p..p + 8];
      && evenBytes == SumEven(Lens(g)) && oddBytes == SumOdd(Lens(g))
      && evenMsgs == SumEven(Counts(g)) && oddMsgs == SumOdd(Counts(g))
  {
    Sum8(Lens(es[p..p + 8]));
    Sum8(Counts(es[p..p + 8]));
    evenBytes := |es[p].bytes| + |es[p + 2].bytes| + |es[p + 4].bytes| + |es[p + 6].bytes|;
    oddBytes := |es[p + 1].bytes| + |es[p + 3].bytes| + |es[p + 5].bytes| + |es[p + 7].bytes|;
    evenMsgs := |es[p].ts| + |es[p + 2].ts| + |es[p + 4].ts| + |es[p + 6].ts|;
    oddMsgs := |es[p + 1].ts| + |es[p + 3].ts| + |es[p + 5].ts| + |es[p + 7].ts|;
  }

  /** Hand over the even entries of a group. */
  method EmitEven(em: RecEmitter, es: seq<Entry>, log: seq<Out>, gen: nat, wantsSpans: bool) returns (log': seq<Out>)
    requires Ready(em, wantsSpans) && |es| % 2 == 0
    requires forall i :: 0 <= i < |es| ==> ExactWalk(es[i].bytes, es[i].firstSeq, es[i].ts) && es[i].ts != []
    modifies em, em.recs
    ensures Ready(em, wantsSpans)
    ensures Expand(Trace(log', gen, em.Pending())) == Expand(Trace(log, gen, old(em.Pending()))) + Outs(gen, PairMsgs(es))
  {
    hide ExactWalk, Outs, Expand, EntryMsgs, Trace, PairMsgs;
    ghost var trace := Trace(log, gen, em.Pending());
    ghost var done: seq<Msg> := [];
    log' := log;
    EvenStart(trace, gen, es);
    var k: nat := 0;
    while k < |es|
      invariant k <= |es| && k % 2 == 0 && Ready(em, wantsSpans)
      invariant Expand(Trace(log', gen, em.Pending())) == Expand(trace) + Outs(gen, done)
      invariant PairMsgs(es) == done + PairMsgs(es[k..])
    {
      log' := EmitEntry(em, es[k], log', gen, wantsSpans);
      EvenNext(trace, gen, es, k, done);
      done := done + EntryMsgs(es[k]);
      k := k + 2;
    }
    EvenEnd(es, done, k);
  }

  lemma EvenStart(trace: seq<Out>, gen: nat, es: seq<Entry>)
    ensures Expand(trace) == Expand(trace) + Outs(gen, []) && es[0..] == es && [] + PairMsgs(es) == PairMsgs(es)
  {
    hide Expand, PairMsgs;
  }

  lemma EvenNext(trace: seq<Out>, gen: nat, es: seq<Entry>, k: nat, done: seq<Msg>)
    requires k + 2 <= |es|
    ensures (Expand(trace) + Outs(gen, done)) + Outs(gen, EntryMsgs(es[k])) == Expand(trace) + Outs(gen, done + EntryMsgs(es[k]))
    ensures done + PairMsgs(es[k..]) == (done + EntryMsgs(es[k])) + PairMsgs(es[k + 2..])
  {
    assert es[k..][2..] == es[k + 2..] && es[k..][0] == es[k];
    assert PairMsgs(es[k..]) == EntryMsgs(es[k]) + PairMsgs(es[k + 2..]);
    hide Expand, PairMsgs, EntryMsgs, Outs;
    OutsConcat(gen, done, EntryMsgs(es[k]));
    Assoc(Expand(trace), Outs(gen, done), Outs(gen, EntryMsgs(es[k])));
    Assoc(done, EntryMsgs(es[k]), PairMsgs(es[k + 2..]));
  }

  lemma EvenEnd(es: seq<Entry>, done: seq<Msg>, k: nat)
    requires k == |es| && PairMsgs(es) == done + PairMsgs(es[k..])
    ensures PairMsgs(es) == done
  {
    assert es[k..] == [];
  }

  /** What the gate proves about a group, the publisher's promises given. */
  lemma GateProves(base: Arb, es: seq<Entry>, p: nat, m: nat, lo: nat, hi: nat, f0: nat, f1: nat, baked: Bytes)
    requires p + m <= |es| && m >= 2 && AllWellFormed(es, baked) && SessionWords(base, lo, hi)
    requires es[p].sessLo == lo && es[p].sessHi == hi
    requires forall k: nat :: p <= k < p + m ==> EligOk(es[k]) && EligFeed(es[k]) == if (k - p) % 2 == 0 then f0 else f1
    ensures Eligible(es[p..p + m], base.session) && Alternating(es[p..p + m], f0, f1)
  {
    var e := es[p];
    assert WellFormed(e, baked) && EligOk(e);
    WordsFit(base, e, baked);
    assert baked == base.session;
    hide SessionWords, Fits;
    var g := es[p..p + m];
    forall i | 0 <= i < m ensures WellFormed(g[i], base.session) && EligOk(g[i]) {
      assert g[i] == es[p + i];
    }
    forall i | 0 <= i < m ensures g[i].feed % 2 == (if i % 2 == 0 then f0 else f1) % 2 {
      assert g[i] == es[p + i] && WellFormed(g[i], baked);
      assert EligFeed(g[i]) == if i % 2 == 0 then f0 else f1;
      FeedParity(g[i].feed);
    }
  }

  lemma FeedParity(feed: nat)
    ensures (feed % 4) % 2 == feed % 2
  {
  }

  lemma ReadyValid(em: RecEmitter, wantsSpans: bool)
    requires Ready(em, wantsSpans)
    ensures em.Valid()
  {
  }

  lemma EligibleWalks(es: seq<Entry>, session: Bytes)
    requires Eligible(es, session)
    ensures forall i :: 0 <= i < |es| ==> ExactWalk(es[i].bytes, es[i].firstSeq, es[i].ts) && es[i].ts != []
  {
    forall i | 0 <= i < |es| ensures ExactWalk(es[i].bytes, es[i].firstSeq, es[i].ts) && es[i].ts != [] {
      assert WellFormed(es[i], session) && EligOk(es[i]);
    }
  }

  /** Apply a verified group at once. */
  method ApplyGroup(em: RecEmitter, g: seq<Entry>, w: nat, t: Tally, log: seq<Out>, gen: nat, wantsSpans: bool, f0: nat, f1: nat,
                    evenBytes: nat, oddBytes: nat, evenMsgs: nat, oddMsgs: nat,
                    ghost base: Arb, ghost progressed: bool, ghost now: nat)
    returns (w': nat, t': Tally, log': seq<Out>)
    requires Ready(em, wantsSpans) && SteadyReady(base) && gen == base.gen
    requires |g| > 0 && |g| % 2 == 0 && Pairs(g, w) && Eligible(g, base.session) && Alternating(g, f0, f1)
    requires evenBytes == SumEven(Lens(g)) && oddBytes == SumOdd(Lens(g))
    requires evenMsgs == SumEven(Counts(g)) && oddMsgs == SumOdd(Counts(g))
    modifies em, em.recs
    ensures Ready(em, wantsSpans)
    ensures w' == w + SumEven(Counts(g))
    ensures Scanned(base, w', t', Trace(log', gen, em.Pending()), true, now)
      == FoldIngest(Scanned(base, w, t, Trace(log, gen, old(em.Pending())), progressed, now), g, now)
  {
    hide *;
    ReadyValid(em, wantsSpans);
    EligibleWalks(g, base.session);
    ghost var before := Trace(log, gen, em.Pending());
    t' := TallyGroup(g, t, f0, f1, evenBytes, oddBytes, evenMsgs, oddMsgs);
    log' := EmitEven(em, g, log, gen, wantsSpans);
    ReadyValid(em, wantsSpans);
    w' := w + evenMsgs;
    PairsRun(base, g, w, t, before, Trace(log', gen, em.Pending()), progressed, now);
  }

  /** A group's counters, folded at once. */
  method TallyGroup(g: seq<Entry>, t: Tally, f0: nat, f1: nat, evenBytes: nat, oddBytes: nat, evenMsgs: nat, oddMsgs: nat)
    returns (t': Tally)
    requires |g| % 2 == 0 && Alternating(g, f0, f1)
    requires evenBytes == SumEven(Lens(g)) && oddBytes == SumOdd(Lens(g))
    requires evenMsgs == SumEven(Counts(g)) && oddMsgs == SumOdd(Counts(g))
    ensures t' == PairTally(t, g)
  {
    PairTallyAtOnce(t, g, f0, f1);
    hide PairTally, Alternating, SumEven, SumOdd, Lens, Counts, Add;
    var half := |g| / 2;
    t' := Tally(Add(Add(t.pk, f0, half), f1, half), Add(Add(t.byt, f0, evenBytes), f1, oddBytes), Add(t.dup, f1, half),
                t.dupMsgs + oddMsgs, t.emitted + evenMsgs);
  }

  /** The gathered facts of well-formed entries have their machine widths. */
  lemma GatherInWidth(es: seq<Entry>, baked: Bytes)
    requires AllWellFormed(es, baked)
    ensures InWidth(Firsts(es), Counts(es))
  {
    forall i | 0 <= i < |es| ensures Firsts(es)[i] < U64 && Counts(es)[i] < 0x1_0000 {
      assert WellFormed(es[i], baked);
      EntryCount(es[i], baked);
    }
  }

  lemma EntryCount(e: Entry, baked: Bytes)
    requires WellFormed(e, baked)
    ensures |e.ts| < 0x1_0000
  {
  }

  lemma SubWellFormed(es: seq<Entry>, baked: Bytes, i: nat, j: nat)
    requires AllWellFormed(es, baked) && i <= j <= |es|
    ensures AllWellFormed(es[i..j], baked)
  {
  }

  /** The 8-entry step: kernel, gate, apply; or nothing at all. */
  method LadderGroupApply(em: RecEmitter, es: seq<Entry>, p: nat, kernel: Kernel, w: nat, t: Tally, log: seq<Out>, gen: nat,
                          wantsSpans: bool, lo: nat, hi: nat, ghost base: Arb, ghost progressed: bool, ghost now: nat, ghost baked: Bytes)
    returns (ok: bool, w': nat, t': Tally, log': seq<Out>)
    requires p + 8 <= |es| && Sound(kernel)
    requires Ready(em, wantsSpans) && AllWellFormed(es, baked) && SteadyReady(base) && SessionWords(base, lo, hi) && gen == base.gen
    modifies em, em.recs
    ensures Ready(em, wantsSpans)
    ensures !ok ==> w' == w && t' == t && Trace(log', gen, em.Pending()) == Trace(log, gen, old(em.Pending()))
    ensures var before := Scanned(base, w, t, Trace(log, gen, old(em.Pending())), progressed, now);
      var after := Scanned(base, w', t', Trace(log', gen, em.Pending()), true, now);
      (ok ==> after == FoldIngest(before, es[p..p + 8], now))
    ensures ok ==> ScanEnd(es, p, w, lo, hi) == ScanEnd(es, p + 8, w', lo, hi)
  {
    hide AllWellFormed, SteadyReady, SessionWords, Scanned, FoldIngest, Trace, Relations, Eligible, Alternating, Pairs, InWidth,
      Firsts, Counts, Lens, SumEven, SumOdd;
    ghost var g := es[p..p + 8];
    var firsts, ns := Firsts(es[p..p + 8]), Counts(es[p..p + 8]);
    SubWellFormed(es, baked, p, p + 8);
    GatherInWidth(g, baked);
    if !kernel(firsts, ns, w) { return false, w, t, log; }
    RelationsArePairs(g, w);
    var gate, f0, f1 := GroupGate(es, p, 8, lo, hi);
    if !gate { return false, w, t, log; }
    GateProves(base, es, p, 8, lo, hi, f0, f1, baked);
    PairsScan(base, es, p, 8, w, lo, hi);
    var evenBytes, oddBytes, evenMsgs, oddMsgs := Sums8(es, p);
    w', t', log' := ApplyGroup(em, es[p..p + 8], w, t, log, gen, wantsSpans, f0, f1, evenBytes, oddBytes, evenMsgs, oddMsgs,
                               base, progressed, now);
    ok := true;
  }

  /** Two accepted groups, the second anchored where the first leaves the watermark, are one. */
  lemma TwoGroups(es: seq<Entry>, p: nat, w: nat)
    requires p + 16 <= |es|
    requires Relations(Firsts(es[p..p + 8]), Counts(es[p..p + 8]), w)
    requires Relations(Firsts(es[p + 8..p + 16]), Counts(es[p + 8..p + 16]), w + SumEven(Counts(es[p..p + 8])))
    ensures Pairs(es[p..p + 16], w)
    ensures SumEven(Counts(es[p..p + 16])) == SumEven(Counts(es[p..p + 8])) + SumEven(Counts(es[p + 8..p + 16]))
    ensures SumOdd(Counts(es[p..p + 16])) == SumOdd(Counts(es[p..p + 8])) + SumOdd(Counts(es[p + 8..p + 16]))
    ensures SumEven(Lens(es[p..p + 16])) == SumEven(Lens(es[p..p + 8])) + SumEven(Lens(es[p + 8..p + 16]))
    ensures SumOdd(Lens(es[p..p + 16])) == SumOdd(Lens(es[p..p + 8])) + SumOdd(Lens(es[p + 8..p + 16]))
  {
    var a, b := es[p..p + 8], es[p + 8..p + 16];
    assert es[p..p + 16] == a + b;
    assert Counts(a + b) == Counts(a) + Counts(b) && Lens(a + b) == Lens(a) + Lens(b);
    RelationsArePairs(a, w);
    hide Relations, SumEven, SumOdd, Pairs, Counts, Lens;
    RelationsArePairs(b, w + SumEven(Counts(a)));
    SumJoin(Counts(a), Counts(b));
    SumJoin(Lens(a), Lens(b));
    PairsJoin(a, b, w);
  }

  /** Both kernels of the 16-entry step, the second at the composed anchor. */
  method Kernels16(es: seq<Entry>, p: nat, kernel: Kernel, w: nat, ghost baked: Bytes) returns (ok: bool)
    requires p + 16 <= |es| && Sound(kernel) && AllWellFormed(es, baked)
    ensures ok ==> Relations(Firsts(es[p..p + 8]), Counts(es[p..p + 8]), w)
    ensures ok ==> Relations(Firsts(es[p + 8..p + 16]), Counts(es[p + 8..p + 16]), w + SumEven(Counts(es[p..p + 8])))
  {
    hide AllWellFormed, InWidth, Relations, SumEven;
    var nsA := Counts(es[p..p + 8]);
    SubWellFormed(es, baked, p, p + 8);
    GatherInWidth(es[p..p + 8], baked);
    if !kernel(Firsts(es[p..p + 8]), nsA, w) { return false; }
    Sum8(nsA);
    var sumA := nsA[0] + nsA[2] + nsA[4] + nsA[6];
    SubWellFormed(es, baked, p + 8, p + 16);
    GatherInWidth(es[p + 8..p + 16], baked);
    ok := kernel(Firsts(es[p + 8..p + 16]), Counts(es[p + 8..p + 16]), w + sumA);
  }

  /** The 16-entry step: two kernels, one gate, apply; or nothing at all. */
  method LadderGroup16Apply(em: RecEmitter, es: seq<Entry>, p: nat, kernel: Kernel, w: nat, t: Tally, log: seq<Out>, gen: nat,
                            wantsSpans: bool, lo: nat, hi: nat, ghost base: Arb, ghost progressed: bool, ghost now: nat, ghost baked: Bytes)
    returns (ok: bool, w': nat, t': Tally, log': seq<Out>)
    requires p + 16 <= |es| && Sound(kernel)
    requires Ready(em, wantsSpans) && AllWellFormed(es, baked) && SteadyReady(base) && SessionWords(base, lo, hi) && gen == base.gen
    modifies em, em.recs
    ensures Ready(em, wantsSpans)
    ensures !ok ==> w' == w && t' == t && Trace(log', gen, em.Pending()) == Trace(log, gen, old(em.Pending()))
    ensures var before := Scanned(base, w, t, Trace(log, gen, old(em.Pending())), progressed, now);
      var after := Scanned(base, w', t', Trace(log', gen, em.Pending()), true, now);
      (ok ==> after == FoldIngest(before, es[p..p + 16], now))
    ensures ok ==> ScanEnd(es, p, w, lo, hi) == ScanEnd(es, p + 16, w', lo, hi)
  {
    hide AllWellFormed, SteadyReady, SessionWords, Scanned, FoldIngest, Trace, Relations, Eligible, Alternating, Pairs, InWidth,
      Firsts, Counts, Lens, SumEven, SumOdd, Sound;
    var accepted := Kernels16(es, p, kernel, w, baked);
    if !accepted { return false, w, t, log; }
    TwoGroups(es, p, w);
    var gate, f0, f1 := GroupGate(es, p, 16, lo, hi);
    if !gate { return false, w, t, log; }
    GateProves(base, es, p, 16, lo, hi, f0, f1, baked);
    PairsScan(base, es, p, 16, w, lo, hi);
    var evenBytesA, oddBytesA, evenMsgsA, oddMsgsA := Sums8(es, p);
    var evenBytesB, oddBytesB, evenMsgsB, oddMsgsB := Sums8(es, p + 8);
    w', t', log' := ApplyGroup(em, es[p..p + 16], w, t, log, gen, wantsSpans, f0, f1, evenBytesA + evenBytesB, oddBytesA + oddBytesB,
                               evenMsgsA + evenMsgsB, oddMsgsA + oddMsgsB, base, progressed, now);
    ok := true;
  }

  // ---- the scans ---------------------------------------------------------------------------------

  /** Where a scan stands: entries from start to pos applied, the rest not looked at. */
  ghost predicate Reached(base: Arb, es: seq<Entry>, start: nat, pos: nat, w: nat, t: Tally, trace: seq<Out>, progressed: bool, now: nat)
  {
    start <= pos <= |es| && Scanned(base, w, t, trace, progressed, now) == FoldIngest(base, es[start..pos], now)
  }

  lemma ReachedStart(base: Arb, es: seq<Entry>, start: nat, trace: seq<Out>, now: nat)
    requires start <= |es| && Expand(trace) == base.log
    ensures Reached(base, es, start, start, base.w, NO_TALLY, trace, false, now)
  {
    CommitStep(base.ctr, NO_TALLY, Entry([], 0, [], None, 0, 0, 0, 0));
    assert es[start..start] == [];
  }

  lemma ReachedOne(base: Arb, es: seq<Entry>, start: nat, pos: nat, w: nat, t: Tally, trace: seq<Out>, progressed: bool, now: nat,
                   w': nat, t': Tally, trace': seq<Out>, progressed': bool)
    requires Reached(base, es, start, pos, w, t, trace, progressed, now) && pos < |es|
    requires Scanned(base, w', t', trace', progressed', now)
      == Ingest(Scanned(base, w, t, trace, progressed, now), es[pos].bytes, es[pos].feed, now)
    ensures Reached(base, es, start, pos + 1, w', t', trace', progressed', now)
  {
    hide Scanned, Ingest, FoldIngest;
    FoldSnoc(base, es, start, pos, now);
  }

  lemma ReachedGroup(base: Arb, es: seq<Entry>, start: nat, pos: nat, w: nat, t: Tally, trace: seq<Out>, progressed: bool, now: nat,
                     w': nat, t': Tally, trace': seq<Out>, m: nat)
    requires Reached(base, es, start, pos, w, t, trace, progressed, now) && pos + m <= |es|
    requires Scanned(base, w', t', trace', true, now)
      == FoldIngest(Scanned(base, w, t, trace, progressed, now), es[pos..pos + m], now)
    ensures Reached(base, es, start, pos + m, w', t', trace', true, now)
  {
    hide Scanned, FoldIngest;
    FoldJoin(base, es, start, pos, pos + m, now);
  }

  /** The scalar scan: maximal run of steady entries from start; it stops at the first cold one,
      which it does not apply. */
  method SteadyScan(es: seq<Entry>, start: nat, w: nat, log: seq<Out>, gen: nat, wantsSpans: bool, lo: nat, hi: nat, ghost base: Arb,
                    ghost now: nat, ghost baked: Bytes)
    returns (pos: nat, w': nat, t: Tally, log': seq<Out>, progressed: bool)
    requires start <= |es| && AllWellFormed(es, baked) && SteadyReady(base) && SessionWords(base, lo, hi)
    requires gen == base.gen && w == base.w && Expand(log) == base.log
    ensures Reached(base, es, start, pos, w', t, log', progressed, now)
    ensures pos == ScanEnd(es, start, w, lo, hi)
  {
    hide *;
    var em := new RecEmitter();
    pos, w', t, log', progressed := start, w, NO_TALLY, log, false;
    EmitterStarts(em, wantsSpans, log, gen);
    ReachedStart(base, es, start, log, now);
    while pos < |es|
      invariant start <= pos <= |es| && fresh(em) && fresh(em.recs) && em.Valid() && Ready(em, wantsSpans)
      invariant Reached(base, es, start, pos, w', t, Trace(log', gen, em.Pending()), progressed, now)
      invariant ScanEnd(es, start, w, lo, hi) == ScanEnd(es, pos, w', lo, hi)
    {
      var outcome;
      outcome, w', t, log' := ScalarStep(em, es, start, pos, w', t, log', gen, wantsSpans, lo, hi, base, progressed, now, baked);
      if outcome == Cold { break; }
      if outcome == Advanced { progressed := true; }
      pos := pos + 1;
    }
    ScanOver(es, pos, w', lo, hi);
    TraceAll(log', gen, em.Pending(), SpanRec(0, 0, [], []));
    log' := FlushAll(em, log', gen);
  }

  lemma ScanOne(es: seq<Entry>, pos: nat, w: nat, lo: nat, hi: nat)
    requires pos < |es|
    ensures ScanEnd(es, pos, w, lo, hi)
      == if ColdFor(es[pos], w, lo, hi) then pos else ScanEnd(es, pos + 1, After(es[pos], w), lo, hi)
  {
  }

  lemma ScanOver(es: seq<Entry>, pos: nat, w: nat, lo: nat, hi: nat)
    ensures pos >= |es| ==> ScanEnd(es, pos, w, lo, hi) == pos
  {
  }

  lemma EntryWellFormed(es: seq<Entry>, i: nat, baked: Bytes)
    requires AllWellFormed(es, baked) && i < |es|
    ensures WellFormed(es[i], baked)
  {
  }

  lemma EmitterStarts(em: RecEmitter, wantsSpans: bool, log: seq<Out>, gen: nat)
    requires em.Valid() && em.n == 0
    ensures Ready(em, wantsSpans) && Trace(log, gen, em.Pending()) == log
  {
    assert em.Pending() == [];
    TraceAll(log, gen, [], SpanRec(0, 0, [], []));
  }

  method FlushAll(em: RecEmitter, log: seq<Out>, gen: nat) returns (log': seq<Out>)
    requires em.Valid()
    modifies em
    ensures log' == Trace(log, gen, old(em.Pending()))
  {
    log' := em.Flush(log, gen);
  }

  /** The ladder scan: sixteen at a time, else eight, else one. */
  method SteadyScanLadder(es: seq<Entry>, start: nat, w: nat, log: seq<Out>, gen: nat, wantsSpans: bool, lo: nat, hi: nat,
                          ladder: Option<Kernel>, ghost base: Arb, ghost now: nat, ghost baked: Bytes)
    returns (pos: nat, w': nat, t: Tally, log': seq<Out>, progressed: bool)
    requires start <= |es| && AllWellFormed(es, baked) && SteadyReady(base) && SessionWords(base, lo, hi)
    requires gen == base.gen && w == base.w && Expand(log) == base.log
    requires ladder.Some? ==> Sound(ladder.value)
    ensures Reached(base, es, start, pos, w', t, log', progressed, now)
    ensures pos == ScanEnd(es, start, w, lo, hi)
  {
    hide *;
    var em := new RecEmitter();
    pos, w', t, log', progressed := start, w, NO_TALLY, log, false;
    EmitterStarts(em, wantsSpans, log, gen);
    ReachedStart(base, es, start, log, now);
    while pos < |es|
      invariant start <= pos <= |es| && fresh(em) && fresh(em.recs) && em.Valid() && Ready(em, wantsSpans)
      invariant Reached(base, es, start, pos, w', t, Trace(log', gen, em.Pending()), progressed, now)
      invariant ScanEnd(es, start, w, lo, hi) == ScanEnd(es, pos, w', lo, hi)
    {
      var applied := 0;
      if ladder.Some? {
        applied, w', t, log' := GroupStep(em, es, start, pos, ladder.value, w', t, log', gen, wantsSpans, lo, hi, base, progressed, now, baked);
      }
      if applied > 0 {
        progressed := true;
        pos := pos + applied;
      } else {
        var outcome;
        outcome, w', t, log' := ScalarStep(em, es, start, pos, w', t, log', gen, wantsSpans, lo, hi, base, progressed, now, baked);
        if outcome == Cold { break; }
        if outcome == Advanced { progressed := true; }
        pos := pos + 1;
      }
    }
    ScanOver(es, pos, w', lo, hi);
    TraceAll(log', gen, em.Pending(), SpanRec(0, 0, [], []));
    log' := FlushAll(em, log', gen);
  }

  /** Sixteen entries if they verify, else eight, else none. */
  method GroupStep(em: RecEmitter, es: seq<Entry>, ghost start: nat, pos: nat, kernel: Kernel, w: nat, t: Tally, log: seq<Out>, gen: nat,
                   wantsSpans: bool, lo: nat, hi: nat, ghost base: Arb, ghost progressed: bool, ghost now: nat, ghost baked: Bytes)
    returns (applied: nat, w': nat, t': Tally, log': seq<Out>)
    requires pos < |es| && Sound(kernel) && em.Valid()
    requires Ready(em, wantsSpans) && AllWellFormed(es, baked) && SteadyReady(base) && SessionWords(base, lo, hi) && gen == base.gen
    requires Reached(base, es, start, pos, w, t, Trace(log, gen, em.Pending()), progressed, now)
    modifies em, em.recs
    ensures Ready(em, wantsSpans) && em.Valid() && pos + applied <= |es|
    ensures Reached(base, es, start, pos + applied, w', t', Trace(log', gen, em.Pending()), applied > 0 || progressed, now)
    ensures ScanEnd(es, pos, w, lo, hi) == ScanEnd(es, pos + applied, w', lo, hi)
  {
    hide *;
    var ok := false;
    ghost var trace := Trace(log, gen, em.Pending());
    if pos + 16 <= |es| {
      ok, w', t', log' := LadderGroup16Apply(em, es, pos, kernel, w, t, log, gen, wantsSpans, lo, hi, base, progressed, now, baked);
      ReadyValid(em, wantsSpans);
      if ok {
        ReachedGroup(base, es, start, pos, w, t, trace, progressed, now, w', t', Trace(log', gen, em.Pending()), 16);
        return 16, w', t', log';
      }
    } else {
      w', t', log' := w, t, log;
    }
    if pos + 8 <= |es| {
      applied, w', t', log' := GroupStep8(em, es, start, pos, kernel, w', t', log', gen, wantsSpans, lo, hi, base, progressed, now, baked);
    } else {
      applied := 0;
    }
  }

  method GroupStep8(em: RecEmitter, es: seq<Entry>, ghost start: nat, pos: nat, kernel: Kernel, w: nat, t: Tally, log: seq<Out>, gen: nat,
                    wantsSpans: bool, lo: nat, hi: nat, ghost base: Arb, ghost progressed: bool, ghost now: nat, ghost baked: Bytes)
    returns (applied: nat, w': nat, t': Tally, log': seq<Out>)
    requires pos + 8 <= |es| && Sound(kernel) && em.Valid()
    requires Ready(em, wantsSpans) && AllWellFormed(es, baked) && SteadyReady(base) && SessionWords(base, lo, hi) && gen == base.gen
    requires Reached(base, es, start, pos, w, t, Trace(log, gen, em.Pending()), progressed, now)
    modifies em, em.recs
    ensures Ready(em, wantsSpans) && em.Valid() && pos + applied <= |es|
    ensures Reached(base, es, start, pos + applied, w', t', Trace(log', gen, em.Pending()), applied > 0 || progressed, now)
    ensures ScanEnd(es, pos, w, lo, hi) == ScanEnd(es, pos + applied, w', lo, hi)
  {
    hide *;
    var ok;
    ghost var trace := Trace(log, gen, em.Pending());
    ok, w', t', log' := LadderGroupApply(em, es, pos, kernel, w, t, log, gen, wantsSpans, lo, hi, base, progressed, now, baked);
    ReadyValid(em, wantsSpans);
    if ok {
      ReachedGroup(base, es, start, pos, w, t, trace, progressed, now, w', t', Trace(log', gen, em.Pending()), 8);
      applied := 8;
    } else {
      applied := 0;
    }
  }

  /** One entry through the shared steady step. */
  method ScalarStep(em: RecEmitter, es: seq<Entry>, ghost start: nat, pos: nat, w: nat, t: Tally, log: seq<Out>, gen: nat,
                    wantsSpans: bool, lo: nat, hi: nat, ghost base: Arb, ghost progressed: bool, ghost now: nat, ghost baked: Bytes)
    returns (outcome: Outcome, w': nat, t': Tally, log': seq<Out>)
    requires pos < |es| && em.Valid()
    requires Ready(em, wantsSpans) && AllWellFormed(es, baked) && SteadyReady(base) && SessionWords(base, lo, hi) && gen == base.gen
    requires Reached(base, es, start, pos, w, t, Trace(log, gen, em.Pending()), progressed, now)
    modifies em, em.recs
    ensures Ready(em, wantsSpans) && em.Valid()
    ensures Reached(base, es, start, if outcome == Cold then pos else pos + 1, w', t', Trace(log', gen, em.Pending()),
                    progressed || outcome == Advanced, now)
    ensures outcome == Cold ==> ScanEnd(es, pos, w, lo, hi) == pos
    ensures outcome != Cold ==> ScanEnd(es, pos, w, lo, hi) == ScanEnd(es, pos + 1, w', lo, hi)
  {
    hide *;
    ghost var trace := Trace(log, gen, em.Pending());
    ScanOne(es, pos, w, lo, hi);
    EntryWellFormed(es, pos, baked);
    outcome, w', t', log' := SteadyStep(em, es[pos], w, t, log, gen, wantsSpans, lo, hi, base, progressed, now, baked);
    ReadyValid(em, wantsSpans);
    if outcome != Cold {
      ReachedOne(base, es, start, pos, w, t, trace, progressed, now, w', t', Trace(log', gen, em.Pending()),
                 progressed || outcome == Advanced);
    }
  }
}
