// Frames that turn invalid part way: what of them is applied, and what that does.
module InvalidFrames {
  import opened Bytes
  import opened Itch
  import opened Mold
  import opened Arbiter
  import opened ArbiterInvariant
  import opened Spans
  import opened Steady
  import opened Retransmit
  import opened Intents

  // ---- all or nothing -----------------------------------------------------------------------------

  /** The first block past the skipped ones is missing or does not validate. */
  predicate Undeliverable(frame: Bytes, blocks: seq<Block>, skip: nat) {
    skip >= |blocks| || !BlockValid(frame, blocks[skip])
  }

  /** From before to after a frame ending at last: applied in full, or no message emitted. */
  ghost predicate AllOrNothing(before: Arb, after: Arb, last: nat) {
    after.w > last || after.log == before.log
  }

  lemma NothingDelivered(frame: Bytes, first: nat, blocks: seq<Block>, skip: nat, tail: Option<FrameError>)
    requires WithinFrame(frame, blocks)
    ensures Deliver(frame, first, blocks, skip, tail).msgs == [] <==> Undeliverable(frame, blocks, skip)
  {
    hide Validate;
  }

  /** The contiguous branch is atomic if and only if the walk has no error or the first unskipped
      block cannot be delivered; otherwise a proper prefix is emitted and the watermark stays. */
  lemma AtomicExactly(a: Arb, frame: Bytes, first: nat, count: nat, now: nat)
    requires |frame| >= HEADER_LEN && first <= a.w < first + count
    ensures var skip := Skip(a.w, first, count);
      var w, d := FrameWalk(frame, count), IngestWalk(frame, first, count, skip);
      var r := ApplyContiguous(a, d, skip, first + count - 1, now);
      && (AllOrNothing(a, r, first + count - 1) <==> d.err == None || Undeliverable(frame, w.blocks, skip))
      && (d.err == None ==> |d.msgs| == count - skip && a.log + Outs(a.gen, d.msgs) <= r.log)
      && (d.err.Some? ==> r.w == a.w && r.log == a.log + Outs(a.gen, d.msgs))
  {
    var skip, last := Skip(a.w, first, count), first + count - 1;
    var d := IngestWalk(frame, first, count, skip);
    WalkFacts(frame, first, count, skip);
    hide IngestWalk, FrameWalk, Violate, Undeliverable, ApplyContiguous, Outs;
    if d.err == None {
      ContiguousGrows(a, d, skip, last, now);
    } else {
      ContiguousStops(a, d, skip, last, now);
    }
  }

  lemma WalkFacts(frame: Bytes, first: nat, count: nat, skip: nat)
    requires |frame| >= HEADER_LEN && skip <= count
    ensures var d := IngestWalk(frame, first, count, skip);
      && (d.msgs == [] <==> Undeliverable(frame, FrameWalk(frame, count).blocks, skip))
      && (d.err == None ==> |d.msgs| == count - skip)
  {
    var w := FrameWalk(frame, count);
    hide Validate, Undeliverable, WalkFrom;
    NothingDelivered(frame, first, w.blocks, skip, w.err);
    Delivered(frame, first, w.blocks, skip, w.err);
    hide Deliver;
  }

  lemma ViolateCounts(c: Counters, e: PacketError)
    ensures Violate(c, e).totalViolations == c.totalViolations + 1
  {
  }

  lemma {:induction false} StagingViolatesNothing(a: Arb, ms: seq<Msg>)
    ensures StageAll(a, ms).ctr.totalViolations == a.ctr.totalViolations
    decreases |ms|
  {
    if ms != [] { StagingViolatesNothing(a, ms[..|ms| - 1]); }
  }

  lemma ContiguousStops(a: Arb, d: Delivery, skip: nat, last: nat, now: nat)
    requires d.err.Some?
    ensures var r := ApplyContiguous(a, d, skip, last, now);
      && r.w == a.w && r.log == a.log + Outs(a.gen, d.msgs) && (r.log == a.log <==> d.msgs == [])
      && (Untouched(a, r) <==> d.msgs == []) && r.ctr.totalViolations == a.ctr.totalViolations + 1
  {
    ViolateCounts(a.ctr.(dupMsgs := a.ctr.dupMsgs + skip, msgsEmitted := a.ctr.msgsEmitted + |d.msgs|), d.err.value);
    hide Violate;
  }

  lemma ContiguousGrows(a: Arb, d: Delivery, skip: nat, last: nat, now: nat)
    requires d.err == None
    ensures var r := ApplyContiguous(a, d, skip, last, now); r.w > last && a.log + Outs(a.gen, d.msgs) <= r.log
  {
    hide DrainRun, Outs, RetirePending, CheckGapClose;
    var b := EmitAll(a.(ctr := a.ctr.(dupMsgs := a.ctr.dupMsgs + skip)), d.msgs);
    var c := ClearPassed(b.(w := last + 1)).(progressVt := now);
    assert c.log == a.log + Outs(a.gen, d.msgs) && c.w == last + 1;
    DrainRunForward(c);
    CloseGrows(Drain(c, now));
    hide EmitAll, ClearPassed;
  }

  lemma CloseGrows(a: Arb)
    ensures var b := RetirePending(CheckGapClose(a)); b.w == a.w && a.log <= b.log
  {
  }

  // ---- a whole data frame --------------------------------------------------------------------------

  /** Nothing but counters. */
  ghost predicate Untouched(before: Arb, after: Arb) {
    after == before.(ctr := after.ctr)
  }

  /** After the end of the session, past the largest number, or below the watermark. */
  predicate NotTaken(a: Arb, h: Header) {
    a.state == Ended || h.seqNo + h.count - 1 >= U64 || (a.state != Init && h.seqNo + h.count - 1 < a.w)
  }

  /** Every message that fits the window is staged already, with the same bytes. */
  ghost predicate AlreadyStaged(a: Arb, ms: seq<Msg>) {
    forall i :: 0 <= i < |ms| && ms[i].seqNo < a.w + WINDOW ==> StagedAs(a, ms[i])
  }

  ghost predicate StagedAs(a: Arb, m: Msg) {
    m.seqNo in a.staged && a.staged[m.seqNo] == m.data
  }

  lemma {:induction false} StagingKnown(a: Arb, ms: seq<Msg>)
    requires AlreadyStaged(a, ms)
    ensures StageAll(a, ms).staged == a.staged
    decreases |ms|
  {
    if ms != [] {
      var n := |ms| - 1;
      assert forall i :: 0 <= i < n ==> ms[..n][i] == ms[i];
      StagingKnown(a, ms[..n]);
      StageAllKeeps(a, ms[..n]);
      assert ms[n].seqNo < a.w + WINDOW ==> StagedAs(a, ms[n]);
    }
  }

  lemma {:induction false} StagedAfter(a: Arb, ms: seq<Msg>, first: nat)
    requires FromFrame(ms, first)
    ensures AlreadyStaged(StageAll(a, ms), ms)
    decreases |ms|
  {
    if ms != [] {
      var n := |ms| - 1;
      var s, t := StageAll(a, ms[..n]), StageAll(a, ms);
      StagedAfter(a, ms[..n], first);
      StageAllKeeps(a, ms[..n]);
      hide Validate, StageAll;
      assert t == StageOne(s, ms[n]) by { hide StageOne; assert ms[..|ms| - 1] == ms[..n]; StageAllLast(a, ms); }
      forall i | 0 <= i < |ms| && ms[i].seqNo < t.w + WINDOW ensures StagedAs(t, ms[i]) {
        if i < n { assert StagedAs(s, ms[..n][i]); }
      }
    }
  }

  lemma StageAllLast(a: Arb, ms: seq<Msg>)
    requires ms != []
    ensures StageAll(a, ms) == StageOne(StageAll(a, ms[..|ms| - 1]), ms[|ms| - 1])
  {
    hide StageOne;
  }

  /** A frame ahead that turns invalid stages its delivered messages that fit the window, and opens or
      extends the gap all the same. */
  lemma AheadStops(a: Arb, d: Delivery, first: nat, last: nat, now: nat)
    requires Inv(a) && d.err.Some? && first > a.w && FromFrame(d.msgs, first)
    ensures var r := ApplyAhead(a, d, first, last, now);
      && r.w == a.w && r.maxStaged == a.maxStaged && r.pendingTo == a.pendingTo
      && (r.staged == a.staged <==> AlreadyStaged(a, d.msgs))
      && (r.log == a.log <==> a.gapActive)
      && r.ctr.totalViolations == a.ctr.totalViolations + 1
      && (Untouched(a, r) <==> a.gapActive && first <= a.hwm && AlreadyStaged(a, d.msgs))
  {
    var g := GapEvidence(a, first);
    var s := StageAll(g, d.msgs);
    StageAllKeeps(g, d.msgs);
    if AlreadyStaged(a, d.msgs) {
      assert AlreadyStaged(g, d.msgs);
      StagingKnown(g, d.msgs);
    } else {
      StagedAfter(g, d.msgs, first);
      assert s.staged == a.staged ==> AlreadyStaged(a, d.msgs);
    }
    StagingViolatesNothing(g, d.msgs);
    ViolateCounts(s.ctr, d.err.value);
    hide StageAll, Violate, AlreadyStaged, FromFrame;
  }

  /** A frame ahead without error leaves the watermark and has every message that fits the window
      staged. */
  lemma AheadWhole(a: Arb, d: Delivery, first: nat, count: nat, now: nat)
    requires Inv(a) && d.err == None && first > a.w && count > 0 && first + count <= U64
    requires a.state == Contig || a.state == Gap || a.state == EosPersist
    requires FromFrame(d.msgs, first) && |d.msgs| == count
    ensures var r := ApplyAhead(a, d, first, first + count - 1, now); r.w == a.w && AlreadyStaged(r, d.msgs)
  {
    hide Inv, StageAll, FromFrame, RetirePending, Drain, AlreadyStaged, CheckGapClose, GapEvidence;
    var g := GapEvidence(a, first);
    EvidenceKeeps(a, first);
    InvGapEvidence(a, first);
    InvStageAll(g, d.msgs, first);
    StagedAfter(g, d.msgs, first);
    OwnMissing(StageAll(g, d.msgs));
    var b := Beyond(StageAll(g, d.msgs), first + count - 1);
    DrainIdle(b, now);
    RetireKeeps(Drain(b, now));
    SameStaging(StageAll(g, d.msgs), RetirePending(CheckGapClose(Drain(b, now))), d.msgs);
  }

  lemma EvidenceKeeps(a: Arb, x: nat)
    requires x > a.w
    ensures var g := GapEvidence(a, x); g.gapActive && x <= g.hwm && g.w == a.w && g.staged == a.staged
  {
  }

  lemma OwnMissing(a: Arb)
    requires Inv(a)
    ensures a.w !in a.staged
  {
  }

  lemma SameStaging(a: Arb, b: Arb, ms: seq<Msg>)
    requires a.w == b.w && a.staged == b.staged && AlreadyStaged(a, ms)
    ensures AlreadyStaged(b, ms)
  {
  }

  /** With the watermark's own message missing there is nothing to drain. */
  lemma DrainIdle(a: Arb, now: nat)
    requires a.w !in a.staged
    ensures var d := Drain(a, now); d.w == a.w && d.staged == a.staged && d.hwm == a.hwm && d.gapActive == a.gapActive
  {
  }

  lemma RetireKeeps(a: Arb)
    ensures var r := RetirePending(CheckGapClose(a)); r.w == a.w && r.staged == a.staged
  {
  }

  /** Everything the frame should give: all unskipped messages delivered, and emitted with the watermark
      past the frame, or staged as far as they fit the window. */
  ghost predicate Whole(a: Arb, r: Arb, d: Delivery, h: Header)
    requires h.seqNo <= a.w ==> h.seqNo + h.count > a.w
  {
    if h.seqNo <= a.w
    then |d.msgs| == h.seqNo + h.count - a.w && a.log + Outs(a.gen, d.msgs) <= r.log && r.w >= h.seqNo + h.count
    else |d.msgs| == h.count && AlreadyStaged(r, d.msgs) && r.w == a.w
  }

  /** When an invalid frame changes nothing: the sequencer is anchored, and the frame either has no
      deliverable block past the duplicates, or lies ahead inside an open gap's evidence with all it
      delivers staged already. */
  ghost predicate NothingNew(a: Arb, frame: Bytes, h: Header)
    requires |frame| >= HEADER_LEN && h.count > 0
  {
    && a.state != Init
    && if h.seqNo <= a.w then Undeliverable(frame, FrameWalk(frame, h.count).blocks, Skip(a.w, h.seqNo, h.count))
       else a.gapActive && h.seqNo <= a.hwm && AlreadyStaged(a, IngestWalk(frame, h.seqNo, h.count, 0).msgs)
  }

  lemma TakenContiguous(a: Arb, frame: Bytes, h: Header, feed: nat, now: nat)
    requires |frame| >= HEADER_LEN && IsData(h) && !NotTaken(a, h)
    requires h.seqNo <= Anchor(a, h.seqNo, now).w < h.seqNo + h.count
    ensures var b := Anchor(a, h.seqNo, now);
      var d := IngestWalk(frame, h.seqNo, h.count, Skip(b.w, h.seqNo, h.count));
      var r := DataFrame(a, frame, h, feed, now);
      if d.err == None then Whole(b, r, d, h)
      else r.w == b.w && r.ctr.totalViolations == a.ctr.totalViolations + 1 && (Untouched(a, r) <==> NothingNew(a, frame, h))
  {
    var b, last := Anchor(a, h.seqNo, now), h.seqNo + h.count - 1;
    var skip := Skip(b.w, h.seqNo, h.count);
    var d := IngestWalk(frame, h.seqNo, h.count, skip);
    WalkFacts(frame, h.seqNo, h.count, skip);
    hide IngestWalk, FrameWalk, Undeliverable, ApplyContiguous, ApplyAhead, Outs, AlreadyStaged;
    if d.err == None {
      ContiguousGrows(b, d, skip, last, now);
    } else {
      ContiguousStops(b, d, skip, last, now);
    }
  }

  lemma TakenAhead(a: Arb, frame: Bytes, h: Header, feed: nat, now: nat)
    requires Inv(a) && a.state != Dead && a.state != Init && |frame| >= HEADER_LEN && IsData(h) && !NotTaken(a, h) && h.seqNo > a.w
    ensures var d := IngestWalk(frame, h.seqNo, h.count, 0);
      var r := DataFrame(a, frame, h, feed, now);
      if d.err == None then Whole(a, r, d, h)
      else r.w == a.w && r.ctr.totalViolations == a.ctr.totalViolations + 1 && (Untouched(a, r) <==> NothingNew(a, frame, h))
  {
    var d := IngestWalk(frame, h.seqNo, h.count, 0);
    WalkDelivers(frame, h.seqNo, h.count, 0);
    WalkFacts(frame, h.seqNo, h.count, 0);
    hide IngestWalk, FrameWalk, Undeliverable, ApplyContiguous, ApplyAhead, Outs, AlreadyStaged, FromFrame, StageAll;
    if d.err == None {
      AheadWhole(a, d, h.seqNo, h.count, now);
    } else {
      AheadStops(a, d, h.seqNo, h.seqNo + h.count - 1, now);
    }
  }

  /** What becomes of a data frame: not taken, it changes counters only; taken and free of errors, it is
      applied whole; taken and invalid, it leaves the watermark (its own first number at the anchor)
      and changes nothing else if and only if there is nothing new in it. */
  lemma FrameAtomicExactly(a: Arb, frame: Bytes, h: Header, feed: nat, now: nat)
    requires Inv(a) && a.state != Dead && |frame| >= HEADER_LEN && IsData(h)
    ensures var r := DataFrame(a, frame, h, feed, now);
      if NotTaken(a, h) then Untouched(a, r)
      else
        var b := Anchor(a, h.seqNo, now);
        var d := IngestWalk(frame, h.seqNo, h.count, SkipAt(b, h.seqNo, h.count));
        if d.err == None then Whole(b, r, d, h)
        else r.w == b.w && r.ctr.totalViolations == a.ctr.totalViolations + 1 && (Untouched(a, r) <==> NothingNew(a, frame, h))
  {
    if !NotTaken(a, h) {
      InvAnchor(a, h.seqNo, now);
      var b := Anchor(a, h.seqNo, now);
      if h.seqNo <= b.w {
        TakenContiguous(a, frame, h, feed, now);
      } else {
        TakenAhead(a, frame, h, feed, now);
      }
    }
  }

  // ---- what an encoded packet delivers ---------------------------------------------------------------

  /** Blocks valid up to k and not at k: delivery hands over those before k and reports the k-th. */
  lemma {:induction false} DeliverPrefix(frame: Bytes, first: nat, blocks: seq<Block>, i: nat, k: nat)
    requires WithinFrame(frame, blocks) && i <= k <= |blocks|
    requires forall j :: 0 <= j < k ==> BlockValid(frame, blocks[j])
    requires k < |blocks| ==> Validate(frame[blocks[k].start..blocks[k].end]).Invalid?
    ensures var d := Deliver(frame, first, blocks, i, None);
      && d.msgs == BlockMsgs(frame, first, blocks, i)[..k - i]
      && d.err == if k < |blocks| then Some(Payload(Validate(frame[blocks[k].start..blocks[k].end]).error)) else None
    decreases k - i
  {
    if i < k {
      assert BlockValid(frame, blocks[i]);
      hide Validate, Deliver, BlockMsgs, BlockValid;
      DeliverStep(frame, first, blocks, i);
      BlockMsgsStep(frame, first, blocks, i);
      DeliverPrefix(frame, first, blocks, i + 1, k);
    } else {
      hide Validate;
    }
  }

  /** How many of the messages validate before the first that does not. */
  ghost predicate ValidUpTo(ms: seq<Bytes>, k: nat) {
    k <= |ms| && (forall j :: 0 <= j < k ==> Validate(ms[j]) == Valid) && (k < |ms| ==> Validate(ms[k]).Invalid?)
  }

  lemma PacketDelivers(session: Bytes, seqNo: nat, ms: seq<Bytes>, k: nat)
    requires |session| == 10 && Framable(ms) && 0 < |ms| < EOS_COUNT && seqNo + |ms| <= U64 && ValidUpTo(ms, k)
    ensures var p := Packet(session, seqNo, |ms|, ms);
      && |p| >= HEADER_LEN && HeaderOf(p) == Header(session, seqNo, |ms|)
      && IngestWalk(p, seqNo, |ms|, 0)
         == Delivery(Numbered(seqNo, ms[..k]), if k < |ms| then Some(Payload(Validate(ms[k]).error)) else None)
  {
    PacketParses(session, seqNo, ms);
    var p := Packet(session, seqNo, |ms|, ms);
    assert HeaderOf(p) == Header(session, seqNo, |ms|) by { hide Parsing.ParsedMsgs, Numbered, Packet; }
    var w := FrameWalk(p, |ms|);
    assert w.err == None && BlockMsgs(p, seqNo, w.blocks, 0) == Numbered(seqNo, ms);
    hide Packet, HeaderOf, Framable, FrameWalk, Parsing.Judged, Parsing.ParsedMsgs;
    forall j | 0 <= j < |ms| ensures p[w.blocks[j].start..w.blocks[j].end] == ms[j] {
      assert BlockMsgs(p, seqNo, w.blocks, 0)[j].data == Numbered(seqNo, ms)[j].data;
    }
    DeliverPrefix(p, seqNo, w.blocks, 0, k);
    assert Numbered(seqNo, ms)[..k] == Numbered(seqNo, ms[..k]);
  }

  // ---- single frames in the steady state -------------------------------------------------------------

  /** The watermark's own frame, for the state that waits for it. */
  lemma SteadyFrame(a: Arb, p: Bytes, d: Delivery, count: nat, feed: nat, now: nat)
    requires SteadyReady(a) && |p| >= HEADER_LEN && HeaderOf(p) == Header(a.session, a.w, count)
    requires 0 < count < EOS_COUNT && a.w + count <= U64 && d == IngestWalk(p, a.w, count, 0)
    ensures var r := Ingest(a, p, feed, now);
      && r.log == a.log + Outs(a.gen, d.msgs)
      && r == a.(w := r.w, progressVt := r.progressVt, log := r.log, ctr := r.ctr)
      && r.w == (if d.err == None then a.w + count else a.w)
  {
    hide HeaderOf, IngestWalk, Violate, CountPacket, ApplyAhead, Outs;
    var b := a.(ctr := CountPacket(a.ctr, feed, |p|));
    if d.err == None {
      ContiguousSteady(b, d.msgs, a.w + count - 1, now);
      hide ApplyContiguous;
    }
  }

  /** The first frame of all. */
  lemma AnchorFrame(session: Bytes, first: nat, p: Bytes, ms: seq<Msg>, count: nat, feed: nat, now: nat)
    requires |session| == 10 && session != NO_SESSION && |p| >= HEADER_LEN && HeaderOf(p) == Header(session, first, count)
    requires 0 < count < EOS_COUNT && first + count <= U64 && IngestWalk(p, first, count, 0) == Delivery(ms, None)
    ensures var r := Ingest(Fresh([]), p, feed, now);
      && SteadyReady(r) && r.session == session && r.w == first + count && r.maxStaged == 0 && r.progressVt == now
      && r.gen == 0 && r.log == Outs(0, ms)
  {
    hide HeaderOf, IngestWalk, Violate, CountPacket, ApplyAhead, Outs, ApplyContiguous;
    var c := SessionDispatch(Fresh([]).(ctr := CountPacket(NO_COUNTS, feed, |p|)), session);
    var b := Anchor(c, first, now);
    ContiguousSteady(b, ms, first + count - 1, now);
    assert [] + Outs(0, ms) == Outs(0, ms);
  }

  // ---- real frames ---------------------------------------------------------------------------------------

  /** A system event of twelve bytes. */
  function SystemEvent(): (m: Bytes)
    ensures |m| == 12 && Validate(m) == Valid
  {
    [83, 0, 0, 0, 0, 0, 0, 0, 0, 0, 0, 79]
  }

  /** One byte of no known type. */
  function Garbage(): (m: Bytes)
    ensures |m| == 1 && Validate(m).Invalid?
  {
    [0]
  }

  function Session(): (s: Bytes)
    ensures |s| == 10 && s != NO_SESSION
  {
    [78, 70, 84, 69, 83, 84, 83, 69, 83, 83]
  }

  /** A frame of one message, and one of two messages from seqNo on, the second good or not. */
  function One(seqNo: nat): Bytes
    requires seqNo < U64
  {
    Packet(Session(), seqNo, 1, [SystemEvent()])
  }

  function Two(seqNo: nat, good: bool): Bytes
    requires seqNo < U64
  {
    Packet(Session(), seqNo, 2, [SystemEvent(), if good then SystemEvent() else Garbage()])
  }

  /** A packet without blocks: a heartbeat or an end of session. */
  function Signal(seqNo: nat, count: nat): Bytes
    requires seqNo < U64 && count < 0x1_0000
  {
    Packet(Session(), seqNo, count, [])
  }

  lemma SignalHeader(seqNo: nat, count: nat)
    requires seqNo < U64 && count < 0x1_0000
    ensures |Signal(seqNo, count)| >= HEADER_LEN && HeaderOf(Signal(seqNo, count)) == Header(Session(), seqNo, count)
  {
    hide Session, Be64, Be64Bytes, Be16, Be16Bytes, BlocksBytes;
    var p := Signal(seqNo, count);
    var none: seq<Bytes> := [];
    assert p == Session() + Be64Bytes(seqNo) + Be16Bytes(count) + BlocksBytes(none);
    assert p[..10] == Session() && p[10..18] == Be64Bytes(seqNo);
    assert p[18] == Be16Bytes(count)[0] && p[19] == Be16Bytes(count)[1];
  }

  lemma OneDelivers(seqNo: nat)
    requires seqNo < U64
    ensures |One(seqNo)| >= HEADER_LEN && HeaderOf(One(seqNo)) == Header(Session(), seqNo, 1)
    ensures IngestWalk(One(seqNo), seqNo, 1, 0) == Delivery([Msg(seqNo, SystemEvent())], None)
  {
    var ms := [SystemEvent()];
    hide SystemEvent, Session;
    PacketDelivers(Session(), seqNo, ms, 1);
    assert ms[..1] == ms && Numbered(seqNo, ms) == [Msg(seqNo, SystemEvent())];
    hide Packet, HeaderOf, IngestWalk;
  }

  lemma TwoDelivers(seqNo: nat, good: bool)
    requires seqNo + 2 <= U64
    ensures |Two(seqNo, good)| >= HEADER_LEN && HeaderOf(Two(seqNo, good)) == Header(Session(), seqNo, 2)
    ensures good ==> IngestWalk(Two(seqNo, good), seqNo, 2, 0) == Delivery([Msg(seqNo, SystemEvent()), Msg(seqNo + 1, SystemEvent())], None)
    ensures var e := Payload(Validate(Garbage()).error);
      (!good ==> IngestWalk(Two(seqNo, good), seqNo, 2, 0) == Delivery([Msg(seqNo, SystemEvent())], Some(e)))
  {
    hide SystemEvent, Session, Garbage, Validate, Packet, HeaderOf, IngestWalk;
    var ms := [SystemEvent(), if good then SystemEvent() else Garbage()];
    var k := if good then 2 else 1;
    assert Two(seqNo, good) == Packet(Session(), seqNo, 2, ms);
    PacketDelivers(Session(), seqNo, ms, k);
    assert Numbered(seqNo, ms[..k])
      == if good then [Msg(seqNo, SystemEvent()), Msg(seqNo + 1, SystemEvent())] else [Msg(seqNo, SystemEvent())];
  }

  /** An anchor, then a frame ahead with a valid first and an invalid second message, then a call
      250 microseconds later. */
  function BackwardOps(): seq<Op> {
    [Frame(One(1), 0, 0), Frame(Two(5, false), 0, 0), Ask(TRIGGER_NS)]
  }

  /** That run of one session asks for messages from 2 up to but not including 0. */
  lemma BackwardRun(ops: seq<Op>)
    requires ops == BackwardOps()
    ensures |ops| == 3 && SingleSession(ops, Session())
    ensures RecoveryIntent(StateAfter(ops, 2), TRIGGER_NS).1 == Some(Intent(2, 0))
  {
    hide One, Two, Session, SystemEvent, HeaderOf, IngestWalk, Ingest, RecoveryIntent, Validate, Garbage, StateAfter;
    OneDelivers(1);
    TwoDelivers(5, false);
    StateStep(ops, 0);
    StateStep(ops, 1);
    var a := Ingest(Fresh([]), One(1), 0, 0);
    InvFresh([]);
    InvIngest(Fresh([]), One(1), 0, 0);
    AnchorFrame(Session(), 1, One(1), [Msg(1, SystemEvent())], 1, 0, 0);
    BackwardFrame(a, Two(5, false), SystemEvent(), Payload(Validate(Garbage()).error), 0);
  }

  /** A steady state with an untouched staged maximum, and one frame ahead that stops at its second
      message. */
  lemma BackwardFrame(a: Arb, p: Bytes, m: Bytes, e: PacketError, feed: nat)
    requires SteadyReady(a) && Inv(a) && a.maxStaged == 0 && a.progressVt == 0 && a.w == 2
    requires |p| >= HEADER_LEN && HeaderOf(p) == Header(a.session, 5, 2) && Validate(m) == Valid
    requires IngestWalk(p, 5, 2, 0) == Delivery([Msg(5, m)], Some(e))
    ensures RecoveryIntent(Ingest(a, p, feed, 0), TRIGGER_NS).1 == Some(Intent(2, 0))
  {
    hide HeaderOf, IngestWalk, Validate, Violate, CountPacket, ApplyContiguous;
    var c := a.(ctr := CountPacket(a.ctr, feed, |p|));
    var ms := [Msg(5, m)];
    assert ms[..0] == [];
    assert StageAll(GapEvidence(c, 5), ms) == StageOne(GapEvidence(c, 5), ms[0]);
    assert 5 in Ingest(a, p, feed, 0).staged;
  }

  /** A heartbeat ahead of the first data frame, a call, a data frame whose only message is invalid,
      and a call when the repeat is due. */
  function AnchorOps(): seq<Op> {
    [Frame(Beat(), 0, 0), Ask(TRIGGER_NS), Frame(Refused(), 0, TRIGGER_NS), Ask(TRIGGER_NS + RESUGGEST_NS)]
  }

  function Beat(): Bytes {
    Signal(10, HEARTBEAT_COUNT)
  }

  function Refused(): Bytes {
    Packet(Session(), 20, 1, [Garbage()])
  }

  /** The state after the first n operations. */
  function StateAfter(ops: seq<Op>, n: nat): Arb
    requires n <= |ops|
  {
    Run(Fresh([]), ops[..n])
  }

  lemma StateStep(ops: seq<Op>, n: nat)
    requires n < |ops|
    ensures StateAfter(ops, 0) == Fresh([]) && StateAfter(ops, n + 1) == Step(StateAfter(ops, n), ops[n])
  {
    hide Step;
    assert ops[..n + 1][..n] == ops[..n] && ops[..0] == [];
  }

  lemma RefusedDelivers()
    ensures |Refused()| >= HEADER_LEN && HeaderOf(Refused()) == Header(Session(), 20, 1)
    ensures IngestWalk(Refused(), 20, 1, 0) == Delivery([], Some(Payload(Validate(Garbage()).error)))
  {
    hide Session, Garbage, Packet, HeaderOf, IngestWalk, Validate;
    var ms := [Garbage()];
    PacketDelivers(Session(), 20, ms, 0);
    assert Numbered(20, ms[..0]) == [];
  }

  ghost predicate AsksPastAnchor(ops: seq<Op>) {
    && |ops| == 4
    && RecoveryIntent(StateAfter(ops, 1), TRIGGER_NS).1 == Some(Intent(0, 10))
    && var a := StateAfter(ops, 3);
      && a.w == 20 && a.staged == map[] && a.pendingTo == Some(10)
      && RecoveryIntent(a, TRIGGER_NS + RESUGGEST_NS).1 == Some(Intent(20, 10))
  }

  /** The invalid frame anchors the watermark past the outstanding request and leaves it outstanding:
      the repeat asks from 20 up to but not including 10, with nothing staged. */
  lemma AnchorBackwardRun(ops: seq<Op>)
    requires ops == AnchorOps()
    ensures SingleSession(ops, Session()) && AsksPastAnchor(ops)
  {
    hide Session, Garbage, HeaderOf, IngestWalk, Ingest, RecoveryIntent, Validate, Refused, StateAfter, Signal;
    SignalHeader(10, HEARTBEAT_COUNT);
    RefusedDelivers();
    StateStep(ops, 0);
    StateStep(ops, 1);
    StateStep(ops, 2);
    HeartbeatFirst(Session(), 10, Beat());
    AnchorRefused(StateAfter(ops, 2), Refused(), Payload(Validate(Garbage()).error));
  }

  /** Before the first data frame a heartbeat is remembered, and a call after the trigger time asks
      for everything below it. */
  lemma HeartbeatFirst(session: Bytes, seqNo: nat, p: Bytes)
    requires |session| == 10 && session != NO_SESSION && 0 < seqNo <= MAX_WIRE_REQUEST
    requires |p| >= HEADER_LEN && HeaderOf(p) == Header(session, seqNo, 0)
    ensures var r := RecoveryIntent(Ingest(Fresh([]), p, 0, 0), TRIGGER_NS);
      && r.1 == Some(Intent(0, seqNo))
      && r.0.session == session && r.0.state == Init && r.0.staged == map[] && r.0.pendingTo == Some(seqNo)
      && r.0.maxStaged == 0 && r.0.hbSeq == seqNo && r.0.lastIntentVt == TRIGGER_NS && !r.0.gapActive
  {
    hide HeaderOf, CountPacket, DataFrame;
  }

  /** A first data frame that delivers nothing anchors the watermark and retires no request. */
  lemma AnchorRefused(a: Arb, p: Bytes, e: PacketError)
    requires a.session != NO_SESSION && a.state == Init && a.staged == map[] && a.pendingTo == Some(10) && a.maxStaged == 0
    requires a.hbSeq == 10 && a.lastIntentVt == TRIGGER_NS
    requires |p| >= HEADER_LEN && HeaderOf(p) == Header(a.session, 20, 1) && IngestWalk(p, 20, 1, 0) == Delivery([], Some(e))
    ensures var b := Ingest(a, p, 0, TRIGGER_NS);
      && b.w == 20 && b.staged == map[] && b.pendingTo == Some(10)
      && RecoveryIntent(b, TRIGGER_NS + RESUGGEST_NS).1 == Some(Intent(20, 10))
  {
    hide HeaderOf, IngestWalk, CountPacket, Violate, ApplyAhead;
  }

  /** An anchor, a frame that stops at its second message, and the same frame intact. */
  function RepeatOps(): seq<Op> {
    [Frame(One(1), 0, 0), Frame(Two(2, false), 0, 0), Frame(Two(2, true), 0, 0)]
  }

  /** The invalid frame emits its first message and leaves the watermark; the intact one emits that
      message again. */
  lemma PrefixEmittedTwice(ops: seq<Op>)
    requires ops == RepeatOps()
    ensures |ops| == 3
    ensures var a := StateAfter(ops, 2);
      a.w == 2 && a.log == [Emit(0, 1, SystemEvent()), Emit(0, 2, SystemEvent())]
    ensures var a := StateAfter(ops, 3);
      a.w == 4 && a.log == [Emit(0, 1, SystemEvent()), Emit(0, 2, SystemEvent()), Emit(0, 2, SystemEvent()), Emit(0, 3, SystemEvent())]
  {
    hide One, Two, Session, SystemEvent, HeaderOf, IngestWalk, Ingest, Validate, Garbage, StateAfter;
    OneDelivers(1);
    TwoDelivers(2, false);
    TwoDelivers(2, true);
    StateStep(ops, 0);
    StateStep(ops, 1);
    StateStep(ops, 2);
    var a := Ingest(Fresh([]), One(1), 0, 0);
    AnchorFrame(Session(), 1, One(1), [Msg(1, SystemEvent())], 1, 0, 0);
    var b := Ingest(a, Two(2, false), 0, 0);
    SteadyFrame(a, Two(2, false), IngestWalk(Two(2, false), 2, 2, 0), 2, 0, 0);
    SteadyFrame(b, Two(2, true), IngestWalk(Two(2, true), 2, 2, 0), 2, 0, 0);
    hide SteadyReady;
    var e := SystemEvent();
    assert Outs(0, [Msg(1, e)]) == [Emit(0, 1, e)] && Outs(0, [Msg(2, e)]) == [Emit(0, 2, e)];
    assert Outs(0, [Msg(2, e), Msg(3, e)]) == [Emit(0, 2, e), Emit(0, 3, e)];
  }
}
