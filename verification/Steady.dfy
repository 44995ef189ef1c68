// The steady state of the sequencer and what one well-formed entry does in it; runs of
// [emit, duplicate] pairs as the ladder kernels recognise them.
module Steady {
  import opened Bytes
  import opened Itch
  import opened Mold
  import opened Arbiter
  import opened Spans
  import opened Entries
  import ArbiterInvariant

  /** A frame ready for batched ingest, with the facts its publisher computed. */
  datatype Entry = Entry(bytes: Bytes, feed: nat, ts: seq<Triple>, memo: Option<nat>, firstSeq: nat,
                         sessLo: nat, sessHi: nat, elig: nat)

  predicate EligOk(e: Entry) { (e.elig / 128) % 2 == 1 }

  function EligFeed(e: Entry): nat { e.elig % 4 }

  /** What the publisher promises about an entry; baked is the session it publishes under. */
  ghost predicate WellFormed(e: Entry, baked: Bytes) {
    && GoodIndex(e.bytes, e.ts, e.memo)
    && (e.ts != [] ==>
          && |e.bytes| >= HEADER_LEN && IsData(HeaderOf(e.bytes))
          && e.firstSeq == e.ts[0].seqNo
          && e.sessLo == Le(e.bytes[..8]) && e.sessHi == Le(e.bytes[2..10]))
    && (EligOk(e) ==> e.ts != [] && e.memo == Some(|e.ts|) && e.bytes[..10] == baked)
    && EligFeed(e) == e.feed % 4
    && e.firstSeq < U64
  }

  ghost predicate AllWellFormed(es: seq<Entry>, baked: Bytes) {
    forall i :: 0 <= i < |es| ==> WellFormed(es[i], baked)
  }

  /** One frame after the other, through the normative ingest. */
  ghost function FoldIngest(a: Arb, es: seq<Entry>, now: nat): Arb
    decreases |es|
  {
    if es == [] then a
    else var n := |es| - 1; Ingest(FoldIngest(a, es[..n], now), es[n].bytes, es[n].feed, now)
  }

  lemma FoldSnoc(a: Arb, es: seq<Entry>, i: nat, j: nat, now: nat)
    requires i <= j < |es|
    ensures FoldIngest(a, es[i..j + 1], now) == Ingest(FoldIngest(a, es[i..j], now), es[j].bytes, es[j].feed, now)
  {
    hide Ingest;
    var slice := es[i..j + 1];
    assert slice[..|slice| - 1] == es[i..j] && slice[|slice| - 1] == es[j];
  }

  lemma {:induction false} FoldJoin(a: Arb, es: seq<Entry>, i: nat, j: nat, k: nat, now: nat)
    requires i <= j <= k <= |es|
    ensures FoldIngest(a, es[i..k], now) == FoldIngest(FoldIngest(a, es[i..j], now), es[j..k], now)
    decreases k
  {
    hide Ingest;
    if j < k {
      FoldJoin(a, es, i, j, k - 1, now);
      FoldSnoc(a, es, i, k - 1, now);
      FoldSnoc(FoldIngest(a, es[i..j], now), es, j, k - 1, now);
    }
  }

  function FrameOps(es: seq<Entry>, now: nat): (ops: seq<Op>)
    ensures |ops| == |es|
  {
    seq(|es|, i requires 0 <= i < |es| => Frame(es[i].bytes, es[i].feed, now))
  }

  /** A batch is a run of frame operations: what holds of every run holds of every batch. */
  lemma {:induction false} FoldIsRun(a: Arb, es: seq<Entry>, now: nat)
    ensures FoldIngest(a, es, now) == Run(a, FrameOps(es, now))
    decreases |es|
  {
    hide Ingest;
    if es != [] {
      var n := |es| - 1;
      FoldIsRun(a, es[..n], now);
      assert FrameOps(es, now)[..n] == FrameOps(es[..n], now);
    }
  }

  // ---- the steady state ---------------------------------------------------------------------

  /** Live session, contiguous, nothing staged, no gap, no outstanding intent. */
  ghost predicate SteadyReady(a: Arb) {
    && |a.session| == 10 && a.session != NO_SESSION
    && a.state == Contig && a.staged == map[] && !a.gapActive && a.pendingTo == None
  }

  ghost predicate SessionWords(a: Arb, lo: nat, hi: nat) {
    |a.session| == 10 && lo == Le(a.session[..8]) && hi == Le(a.session[2..])
  }

  function EmitCounters(c: Counters, e: Entry): Counters {
    var c := CountPacket(c, e.feed, |e.bytes|);
    c.(msgsEmitted := c.msgsEmitted + |e.ts|)
  }

  function DupCounters(c: Counters, e: Entry): Counters {
    CountDup(CountPacket(c, e.feed, |e.bytes|), e.feed, |e.ts|)
  }

  /** The messages of an entry. */
  function EntryMsgs(e: Entry): seq<Msg> {
    if WithinFrame(e.bytes, Blocks(e.ts)) then BlockMsgs(e.bytes, e.firstSeq, Blocks(e.ts), 0) else []
  }

  /** An entry is for the live session of a and has an index. */
  ghost predicate Fits(a: Arb, e: Entry) {
    && e.ts != [] && |e.bytes| >= HEADER_LEN && IsData(HeaderOf(e.bytes)) && a.session == e.bytes[..10]
    && |e.ts| == HeaderOf(e.bytes).count && ExactWalk(e.bytes, e.firstSeq, e.ts) && e.firstSeq == HeaderOf(e.bytes).seqNo
  }

  lemma WordsFit(a: Arb, e: Entry, baked: Bytes)
    requires WellFormed(e, baked) && e.ts != [] && SessionWords(a, e.sessLo, e.sessHi)
    ensures Fits(a, e)
  {
    var s := e.bytes[..10];
    assert s[..8] == e.bytes[..8] && s[2..] == e.bytes[2..10];
    WordsIdentifySession(a.session, s);
  }

  /** A whole frame below the watermark only counts. */
  lemma SteadyDup(a: Arb, e: Entry, now: nat)
    requires SteadyReady(a) && Fits(a, e) && e.firstSeq + |e.ts| - 1 < a.w
    ensures Ingest(a, e.bytes, e.feed, now) == a.(ctr := DupCounters(a.ctr, e))
  {
    ExactSeqs(e.bytes, e.firstSeq, e.ts);
    hide ExactWalk, ApplyContiguous, ApplyAhead, Anchor, CountPacket, CountDup;
  }

  /** A fully valid frame at the watermark emits its messages and moves the watermark past it. */
  lemma SteadyEmit(a: Arb, e: Entry, now: nat)
    requires SteadyReady(a) && Fits(a, e) && e.firstSeq == a.w
    requires e.memo == Some(|e.ts|) && GoodMemo(e.bytes, e.ts, e.memo)
    ensures WithinFrame(e.bytes, Blocks(e.ts))
    ensures Ingest(a, e.bytes, e.feed, now)
      == a.(w := a.w + |e.ts|, progressVt := now, log := a.log + Outs(a.gen, EntryMsgs(e)), ctr := EmitCounters(a.ctr, e))
  {
    ExactSeqs(e.bytes, e.firstSeq, e.ts);
    FullMemoDelivers(e.bytes, e.firstSeq, e.ts, |e.ts|, 0);
    hide ExactWalk, IngestWalk, ApplyAhead, CountPacket, BlockMsgs, Outs, ExactMemo, ApplyContiguous;
    var b := a.(ctr := CountPacket(a.ctr, e.feed, |e.bytes|));
    ContiguousSteady(b, EntryMsgs(e), a.w + |e.ts| - 1, now);
  }

  /** The tail of a contiguous frame does nothing but move the watermark and touch the clock. */
  ghost predicate Inert(a: Arb, last: nat, now: nat) {
    RetirePending(Advance(a, last, now)) == a.(w := last + 1, progressVt := now)
  }

  /** The tail is inert whatever frame comes if and only if nothing is staged, no gap is open and no
      intent is outstanding. */
  lemma TailInert(a: Arb)
    ensures (forall last: nat, now: nat :: last >= a.w ==> Inert(a, last, now))
      <==> a.staged == map[] && !a.gapActive && a.pendingTo == None
  {
    if a.staged == map[] && !a.gapActive && a.pendingTo == None {
    } else if a.staged != map[] {
      var k :| k in a.staged;
      var last := Max(a.w, k);
      ArbiterInvariant.DrainRunForward(ClearPassed(a.(w := last + 1)).(progressVt := 0));
      hide DrainRun;
      assert k !in Advance(a, last, 0).staged;
      assert !Inert(a, last, 0);
    } else if a.gapActive {
      assert !Inert(a, Max(a.w, a.hwm), 0);
    } else {
      assert !Inert(a, Max(a.w, a.pendingTo.value), 0);
    }
  }

  lemma ContiguousSteady(a: Arb, ms: seq<Msg>, last: nat, now: nat)
    requires SteadyReady(a)
    ensures ApplyContiguous(a, Delivery(ms, None), 0, last, now)
      == a.(w := last + 1, progressVt := now, log := a.log + Outs(a.gen, ms),
            ctr := a.ctr.(msgsEmitted := a.ctr.msgsEmitted + |ms|))
  {
    hide Outs;
  }

  // ---- deferred counters ------------------------------------------------------------------------

  /** One number per feed. */
  datatype PerFeed = PerFeed(a: nat, b: nat)

  function Add(p: PerFeed, feed: nat, n: nat): PerFeed {
    if feed % 2 == 0 then p.(a := p.a + n) else p.(b := p.b + n)
  }

  /** The counters a scan keeps to itself until it exits. */
  datatype Tally = Tally(pk: PerFeed, byt: PerFeed, dup: PerFeed, dupMsgs: nat, emitted: nat)

  const NO_TALLY := Tally(PerFeed(0, 0), PerFeed(0, 0), PerFeed(0, 0), 0, 0)

  function Commit(c: Counters, t: Tally): Counters {
    c.(feedA := FeedCounters(c.feedA.packets + t.pk.a, c.feedA.dups + t.dup.a, c.feedA.bytes + t.byt.a),
       feedB := FeedCounters(c.feedB.packets + t.pk.b, c.feedB.dups + t.dup.b, c.feedB.bytes + t.byt.b),
       dupMsgs := c.dupMsgs + t.dupMsgs, msgsEmitted := c.msgsEmitted + t.emitted)
  }

  function TallyEmit(t: Tally, e: Entry): Tally {
    t.(pk := Add(t.pk, e.feed, 1), byt := Add(t.byt, e.feed, |e.bytes|), emitted := t.emitted + |e.ts|)
  }

  function TallyDup(t: Tally, e: Entry): Tally {
    t.(pk := Add(t.pk, e.feed, 1), byt := Add(t.byt, e.feed, |e.bytes|), dup := Add(t.dup, e.feed, 1),
       dupMsgs := t.dupMsgs + |e.ts|)
  }

  /** Deferring an entry's counters changes nothing. */
  lemma CommitStep(c: Counters, t: Tally, e: Entry)
    ensures Commit(c, TallyEmit(t, e)) == EmitCounters(Commit(c, t), e)
    ensures Commit(c, TallyDup(t, e)) == DupCounters(Commit(c, t), e)
    ensures Commit(c, NO_TALLY) == c
  {
  }

  // ---- a scan in progress -------------------------------------------------------------------------

  /** The sequencer a scan stands for: its base with the watermark, the deferred counters, the trace
      and the progress clock brought up to date. */
  ghost function Scanned(base: Arb, w: nat, t: Tally, trace: seq<Out>, progressed: bool, now: nat): Arb {
    base.(w := w, ctr := Commit(base.ctr, t), log := Expand(trace), progressVt := if progressed then now else base.progressVt)
  }

  lemma ScannedEmit(base: Arb, w: nat, t: Tally, trace: seq<Out>, progressed: bool, now: nat, e: Entry, trace': seq<Out>)
    requires var a := Scanned(base, w, t, trace, progressed, now);
      SteadyReady(a) && Fits(a, e) && e.firstSeq == w && e.memo == Some(|e.ts|) && GoodMemo(e.bytes, e.ts, e.memo)
    requires Expand(trace') == Expand(trace) + Outs(base.gen, EntryMsgs(e))
    ensures var a := Scanned(base, w, t, trace, progressed, now);
      Ingest(a, e.bytes, e.feed, now) == Scanned(base, w + |e.ts|, TallyEmit(t, e), trace', true, now)
  {
    var a := Scanned(base, w, t, trace, progressed, now);
    SteadyEmit(a, e, now);
    CommitStep(base.ctr, t, e);
    hide Ingest, Commit, TallyEmit, Outs, Expand, EmitCounters, EntryMsgs;
  }

  lemma ScannedDup(base: Arb, w: nat, t: Tally, trace: seq<Out>, progressed: bool, now: nat, e: Entry)
    requires var a := Scanned(base, w, t, trace, progressed, now);
      SteadyReady(a) && Fits(a, e) && e.firstSeq + |e.ts| - 1 < w
    ensures var a := Scanned(base, w, t, trace, progressed, now);
      Ingest(a, e.bytes, e.feed, now) == Scanned(base, w, TallyDup(t, e), trace, progressed, now)
  {
    var a := Scanned(base, w, t, trace, progressed, now);
    SteadyDup(a, e, now);
    CommitStep(base.ctr, t, e);
    hide Ingest, Commit, TallyDup, Expand, DupCounters;
  }

  /** A scan never leaves the steady state. */
  lemma ScannedSteady(base: Arb, w: nat, t: Tally, trace: seq<Out>, progressed: bool, now: nat)
    ensures SteadyReady(Scanned(base, w, t, trace, progressed, now)) <==> SteadyReady(base)
    ensures forall lo, hi :: SessionWords(Scanned(base, w, t, trace, progressed, now), lo, hi) <==> SessionWords(base, lo, hi)
    ensures Scanned(base, w, t, trace, progressed, now).w == w && Scanned(base, w, t, trace, progressed, now).session == base.session
  {
  }

  // ---- where a scan stops -----------------------------------------------------------------------

  /** A whole frame below the watermark. */
  predicate Below(e: Entry, w: nat) {
    e.ts != [] && e.firstSeq + |e.ts| - 1 < w
  }

  /** The entry needs the per-frame ladder: no index, another session, or neither a duplicate nor a
      fully valid frame at the watermark. */
  predicate ColdFor(e: Entry, w: nat, lo: nat, hi: nat) {
    e.ts == [] || e.sessLo != lo || e.sessHi != hi || (!Below(e, w) && (e.firstSeq != w || e.memo != Some(|e.ts|)))
  }

  /** What the frame itself says: it is the live session's and wholly below the watermark, or it starts
      there, its index has a memo, and its walk finds no error. */
  ghost predicate Simple(a: Arb, e: Entry) {
    && |e.bytes| >= HEADER_LEN
    && var h := HeaderOf(e.bytes);
    && h.session == a.session
    && (h.seqNo + h.count <= a.w || (h.seqNo == a.w && e.memo.Some? && IngestWalk(e.bytes, h.seqNo, h.count, 0).err == None))
  }

  /** An entry is handed back if and only if it has no index or its frame is not a simple one. */
  lemma ColdExactly(a: Arb, e: Entry, lo: nat, hi: nat, baked: Bytes)
    requires WellFormed(e, baked) && SessionWords(a, lo, hi)
    ensures ColdFor(e, a.w, lo, hi) <==> e.ts == [] || !Simple(a, e)
  {
    if e.ts != [] {
      var s := e.bytes[..10];
      assert s[..8] == e.bytes[..8] && s[2..] == e.bytes[2..10];
      WordsIdentifySession(a.session, s);
      ExactSeqs(e.bytes, HeaderOf(e.bytes).seqNo, e.ts);
      if e.memo.Some? { MemoIsFree(e.bytes, HeaderOf(e.bytes).seqNo, e.ts, e.memo); }
      hide ExactWalk, ExactMemo, IngestWalk, Le;
    }
  }

  /** A memo covers every block if and only if the walk finds no error. */
  lemma MemoIsFree(frame: Bytes, first: nat, ts: seq<Triple>, memo: Option<nat>)
    requires ExactWalk(frame, first, ts) && GoodMemo(frame, ts, memo) && memo.Some?
    ensures memo == Some(|ts|) <==> IngestWalk(frame, first, |ts|, 0).err == None
  {
    ExactWalkFits(frame, first, ts);
    MemoDecides(frame, first, ts, memo.value);
    FreeIsValid(frame, first, Blocks(ts));
    hide ExactWalk, ExactMemo, Validate, Deliver, Blocks, BlockValid;
  }

  lemma FreeIsValid(frame: Bytes, first: nat, bs: seq<Block>)
    requires WithinFrame(frame, bs)
    ensures (forall i :: 0 <= i < |bs| ==> BlockValid(frame, bs[i])) <==> Deliver(frame, first, bs, 0, None).err == None
  {
    hide Validate, Deliver;
    var d := Deliver(frame, first, bs, 0, None);
    Delivered(frame, first, bs, 0, None);
    if d.err == None {
      forall i | 0 <= i < |bs| ensures BlockValid(frame, bs[i]) {
        assert Validate(d.msgs[i].data) == Valid;
      }
    } else if forall i :: 0 <= i < |bs| ==> BlockValid(frame, bs[i]) {
      DeliverValid(frame, first, bs, 0);
      assert false;
    }
  }

  function After(e: Entry, w: nat): nat {
    if Below(e, w) then w else w + |e.ts|
  }

  /** The first cold entry from pos on, each judged at its own watermark, or the end of the batch. */
  function ScanEnd(es: seq<Entry>, pos: nat, w: nat, lo: nat, hi: nat): (end: nat)
    ensures end >= pos && (pos <= |es| ==> end <= |es|)
    decreases |es| - pos
  {
    if pos >= |es| || ColdFor(es[pos], w, lo, hi) then pos else ScanEnd(es, pos + 1, After(es[pos], w), lo, hi)
  }
}
