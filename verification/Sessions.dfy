// Runs over several sessions: behind a boundary a sequencer does what a new one does.
module Sessions {
  import opened Bytes
  import opened Itch
  import opened Mold
  import opened Arbiter
  import opened ArbiterInvariant
  import opened Intents
  import opened Confluence

  /** An entry of the trace without its era. */
  function Bare(o: Out): Out {
    match o
    case Emit(_, s, d) => Emit(0, s, d)
    case Span(_, f, n, b, c) => Span(0, f, n, b, c)
    case Control(GapOpened(f, x, _)) => Control(GapOpened(f, x, 0))
    case Control(ReAnchored(_, at)) => Control(ReAnchored(0, at))
    case Control(SessionBoundary(p, n, _)) => Control(SessionBoundary(p, n, 0))
    case _ => o
  }

  function Strip(log: seq<Out>): (r: seq<Out>)
    ensures |r| == |log|
  {
    seq(|log|, i requires 0 <= i < |log| => Bare(log[i]))
  }

  /** a's trace is base and then, but for eras, b's. */
  ghost predicate Behind(a: seq<Out>, b: seq<Out>, base: seq<Out>) {
    base <= a && Strip(a[|base|..]) == Strip(b)
  }

  lemma BehindMore(a: seq<Out>, b: seq<Out>, base: seq<Out>, x: seq<Out>, y: seq<Out>)
    requires Behind(a, b, base) && Strip(x) == Strip(y)
    ensures Behind(a + x, b + y, base)
  {
    assert (a + x)[|base|..] == a[|base|..] + x;
    StripJoin(a[|base|..], x);
    StripJoin(b, y);
  }

  lemma StripJoin(a: seq<Out>, b: seq<Out>)
    ensures Strip(a + b) == Strip(a) + Strip(b)
  {
    hide Bare;
  }

  lemma StripOne(o: Out)
    ensures Strip([o]) == [Bare(o)]
  {
  }

  lemma BehindOne(a: seq<Out>, b: seq<Out>, base: seq<Out>, x: Out, y: Out)
    requires Behind(a, b, base) && Bare(x) == Bare(y)
    ensures Behind(a + [x], b + [y], base)
  {
    StripOne(x);
    StripOne(y);
    hide Strip, Bare, Behind;
    BehindMore(a, b, base, [x], [y]);
  }

  // ---- the same but for eras, counters and what came before ------------------------------------------------

  /** Equal in all that decides what happens next; the outstanding request, and its time, only if asked
      for. */
  ghost predicate Twin(a: Arb, b: Arb, base: seq<Out>, asking: bool) {
    && a == b.(gen := a.gen, ctr := a.ctr, log := a.log, pendingTo := a.pendingTo, lastIntentVt := a.lastIntentVt)
    && (asking ==> a.pendingTo == b.pendingTo && (a.pendingTo.Some? ==> a.lastIntentVt == b.lastIntentVt))
    && Behind(a.log, b.log, base)
  }

  lemma TwinEvidence(a: Arb, b: Arb, base: seq<Out>, asking: bool, x: nat)
    requires Twin(a, b, base, asking)
    ensures Twin(GapEvidence(a, x), GapEvidence(b, x), base, asking)
  {
    BehindOne(a.log, b.log, base, Control(GapOpened(a.w, x, NextGen(a.gen))), Control(GapOpened(b.w, x, NextGen(b.gen))));
    hide Behind, NextGen;
  }

  lemma TwinClose(a: Arb, b: Arb, base: seq<Out>, asking: bool)
    requires Twin(a, b, base, asking)
    ensures Twin(CheckGapClose(a), CheckGapClose(b), base, asking)
  {
    BehindOne(a.log, b.log, base, Control(ReAnchored(a.gen, a.w)), Control(ReAnchored(b.gen, b.w)));
    hide Behind;
  }

  lemma {:induction false} TwinDrainRun(a: Arb, b: Arb, base: seq<Out>, asking: bool)
    requires Twin(a, b, base, asking)
    ensures Twin(DrainRun(a), DrainRun(b), base, asking)
    decreases |a.staged|
  {
    if a.w in a.staged {
      DropOne(a.staged, a.w);
      var x, y := Emit(a.gen, a.w, a.staged[a.w]), Emit(b.gen, b.w, b.staged[b.w]);
      BehindOne(a.log, b.log, base, x, y);
      hide Behind;
      TwinDrainRun(a.(w := a.w + 1, staged := a.staged - {a.w}, log := a.log + [x]),
                   b.(w := b.w + 1, staged := b.staged - {b.w}, log := b.log + [y]), base, asking);
    }
  }

  lemma TwinDrain(a: Arb, b: Arb, base: seq<Out>, asking: bool, now: nat)
    requires Twin(a, b, base, asking)
    ensures Twin(Drain(a, now), Drain(b, now), base, asking)
  {
    TwinDrainRun(a, b, base, asking);
    hide DrainRun, Behind;
  }

  lemma {:induction false} TwinStage(a: Arb, b: Arb, base: seq<Out>, asking: bool, ms: seq<Msg>)
    requires Twin(a, b, base, asking)
    ensures Twin(StageAll(a, ms), StageAll(b, ms), base, asking)
    decreases |ms|
  {
    hide Behind;
    if ms != [] { TwinStage(a, b, base, asking, ms[..|ms| - 1]); }
  }

  lemma TwinEmit(a: Arb, b: Arb, base: seq<Out>, asking: bool, ms: seq<Msg>)
    requires Twin(a, b, base, asking)
    ensures Twin(EmitAll(a, ms), EmitAll(b, ms), base, asking)
  {
    assert Strip(Outs(a.gen, ms)) == Strip(Outs(b.gen, ms));
    BehindMore(a.log, b.log, base, Outs(a.gen, ms), Outs(b.gen, ms));
    hide Behind, Outs, Strip;
  }

  lemma TwinFields(a: Arb, b: Arb, base: seq<Out>, asking: bool, c: Counters, d: Counters, w: nat, now: nat)
    requires Twin(a, b, base, asking)
    ensures Twin(a.(ctr := c), b.(ctr := d), base, asking)
    ensures Twin(a.(w := w), b.(w := w), base, asking)
    ensures Twin(a.(progressVt := now), b.(progressVt := now), base, asking)
    ensures Twin(ClearPassed(a), ClearPassed(b), base, asking)
    ensures Twin(RetirePending(a), RetirePending(b), base, asking)
    ensures Twin(Beyond(a, w), Beyond(b, w), base, asking)
  {
    hide Behind;
  }

  lemma TwinContiguous(a: Arb, b: Arb, base: seq<Out>, asking: bool, d: Delivery, skip: nat, last: nat, now: nat)
    requires Twin(a, b, base, asking)
    ensures Twin(ApplyContiguous(a, d, skip, last, now), ApplyContiguous(b, d, skip, last, now), base, asking)
  {
    hide Twin, EmitAll, ClearPassed, Drain, CheckGapClose, RetirePending, Violate;
    var c, e := a.ctr.(dupMsgs := a.ctr.dupMsgs + skip), b.ctr.(dupMsgs := b.ctr.dupMsgs + skip);
    TwinFields(a, b, base, asking, c, e, 0, 0);
    TwinEmit(a.(ctr := c), b.(ctr := e), base, asking, d.msgs);
    var a1, b1 := EmitAll(a.(ctr := c), d.msgs), EmitAll(b.(ctr := e), d.msgs);
    if d.err.Some? {
      TwinFields(a1, b1, base, asking, Violate(a1.ctr, d.err.value), Violate(b1.ctr, d.err.value), 0, 0);
    } else {
      TwinAdvance(a1, b1, base, asking, last, now);
      TwinFields(Advance(a1, last, now), Advance(b1, last, now), base, asking, c, e, 0, 0);
    }
  }

  lemma TwinAdvance(a: Arb, b: Arb, base: seq<Out>, asking: bool, last: nat, now: nat)
    requires Twin(a, b, base, asking)
    ensures Twin(Advance(a, last, now), Advance(b, last, now), base, asking)
  {
    hide Twin, ClearPassed, Drain, CheckGapClose;
    TwinFields(a, b, base, asking, a.ctr, b.ctr, last + 1, 0);
    var a1, b1 := a.(w := last + 1), b.(w := last + 1);
    TwinFields(a1, b1, base, asking, a.ctr, b.ctr, 0, 0);
    var a2, b2 := ClearPassed(a1), ClearPassed(b1);
    TwinFields(a2, b2, base, asking, a.ctr, b.ctr, 0, now);
    TwinDrain(a2.(progressVt := now), b2.(progressVt := now), base, asking, now);
    TwinClose(Drain(a2.(progressVt := now), now), Drain(b2.(progressVt := now), now), base, asking);
  }

  lemma TwinAhead(a: Arb, b: Arb, base: seq<Out>, asking: bool, d: Delivery, first: nat, last: nat, now: nat)
    requires Twin(a, b, base, asking)
    ensures Twin(ApplyAhead(a, d, first, last, now), ApplyAhead(b, d, first, last, now), base, asking)
  {
    hide Twin, GapEvidence, StageAll, Drain, CheckGapClose, RetirePending, Violate;
    var a1, b1 := GapEvidence(a, first), GapEvidence(b, first);
    TwinEvidence(a, b, base, asking, first);
    var a2, b2 := StageAll(a1, d.msgs), StageAll(b1, d.msgs);
    TwinStage(a1, b1, base, asking, d.msgs);
    if d.err.Some? {
      TwinFields(a2, b2, base, asking, Violate(a2.ctr, d.err.value), Violate(b2.ctr, d.err.value), 0, 0);
    } else {
      TwinFields(a2, b2, base, asking, a.ctr, b.ctr, last, 0);
      var a3, b3 := Beyond(a2, last), Beyond(b2, last);
      TwinDrain(a3, b3, base, asking, now);
      var a4, b4 := Drain(a3, now), Drain(b3, now);
      TwinClose(a4, b4, base, asking);
      TwinFields(CheckGapClose(a4), CheckGapClose(b4), base, asking, a.ctr, b.ctr, 0, 0);
    }
  }

  lemma TwinData(a: Arb, b: Arb, base: seq<Out>, asking: bool, frame: Bytes, h: Header, feed: nat, now: nat)
    requires Twin(a, b, base, asking) && |frame| >= HEADER_LEN && IsData(h) && a.state != Init
    ensures Twin(DataFrame(a, frame, h, feed, now), DataFrame(b, frame, h, feed, now), base, asking)
  {
    hide Behind, IngestWalk, ApplyContiguous, ApplyAhead, Violate, CountDup;
    var first, last := h.seqNo, h.seqNo + h.count - 1;
    if a.state != Ended && last < U64 && last >= a.w {
      if first <= a.w {
        var skip := Skip(a.w, first, h.count);
        TwinContiguous(a, b, base, asking, IngestWalk(frame, first, h.count, skip), skip, last, now);
      } else {
        TwinAhead(a, b, base, asking, IngestWalk(frame, first, h.count, 0), first, last, now);
      }
    }
  }

  lemma TwinControl(a: Arb, b: Arb, base: seq<Out>, asking: bool, seqNo: nat, now: nat)
    requires Twin(a, b, base, asking)
    ensures Twin(Heartbeat(a, seqNo, now), Heartbeat(b, seqNo, now), base, asking)
    ensures Twin(Eos(a, seqNo), Eos(b, seqNo), base, asking)
  {
    hide Behind, GapEvidence;
    TwinEvidence(a.(ctr := a.ctr.(heartbeats := a.ctr.heartbeats + 1), hbSeq := seqNo, hbVt := now),
                 b.(ctr := b.ctr.(heartbeats := b.ctr.heartbeats + 1), hbSeq := seqNo, hbVt := now), base, asking, seqNo);
    TwinEnd(a, b, base, seqNo);
  }

  lemma TwinEnd(a: Arb, b: Arb, base: seq<Out>, seqNo: nat)
    requires Behind(a.log, b.log, base) && a.session == b.session && a.w == b.w
    ensures Behind(End(a, seqNo).log, End(b, seqNo).log, base)
  {
    BehindOne(a.log, b.log, base, Control(EndOfSession(a.session, a.w, seqNo)), Control(EndOfSession(b.session, b.w, seqNo)));
  }

  lemma TwinSeal(a: Arb, b: Arb, base: seq<Out>, asking: bool, reason: DeadReason)
    requires Twin(a, b, base, asking)
    ensures Twin(Seal(a, reason), Seal(b, reason), base, asking)
  {
    BehindOne(a.log, b.log, base, Control(SessionDead(reason, a.w)), Control(SessionDead(reason, b.w)));
    hide Behind;
  }

  /** Calls are answered alike. */
  lemma TwinAsk(a: Arb, b: Arb, base: seq<Out>, asking: bool, now: nat)
    requires Twin(a, b, base, asking)
    ensures Twin(RecoveryIntent(a, now).0, RecoveryIntent(b, now).0, base, asking)
    ensures asking ==> RecoveryIntent(a, now).1 == RecoveryIntent(b, now).1
  {
    SameTarget(a, b, now);
    hide Behind, Target;
  }

  lemma SameTarget(a: Arb, b: Arb, now: nat)
    requires a == b.(gen := a.gen, ctr := a.ctr, log := a.log, pendingTo := a.pendingTo, lastIntentVt := a.lastIntentVt)
    ensures Target(a, now) == Target(b, now)
  {
  }

  /** Before the first data frame the watermark and the progress clock do not count. */
  ghost predicate InitTwin(a: Arb, b: Arb, base: seq<Out>, asking: bool) {
    b.state == Init && Twin(a.(w := b.w, progressVt := b.progressVt), b, base, asking)
  }

  ghost predicate Alike(a: Arb, b: Arb, base: seq<Out>, asking: bool) {
    if b.state == Init then InitTwin(a, b, base, asking) else Twin(a, b, base, asking)
  }

  /** Before the first data frame only data frames, heartbeats and frames too short, and calls unless
      their answers count. */
  predicate Early(op: Op, asking: bool) {
    match op
    case Frame(f, _, _) => |f| < HEADER_LEN || HeaderOf(f).count != EOS_COUNT
    case Ask(_) => !asking
    case Stop(_) => false
  }

  lemma InitData(a: Arb, b: Arb, base: seq<Out>, asking: bool, frame: Bytes, h: Header, feed: nat, now: nat)
    requires InitTwin(a, b, base, asking) && |frame| >= HEADER_LEN && IsData(h)
    ensures Alike(DataFrame(a, frame, h, feed, now), DataFrame(b, frame, h, feed, now), base, asking)
  {
    hide Behind, IngestWalk, ApplyContiguous, ApplyAhead, Violate;
    var first, last := h.seqNo, h.seqNo + h.count - 1;
    if last < U64 {
      var c, e := Anchor(a, first, now), Anchor(b, first, now);
      assert Twin(c, e, base, asking);
      var skip := Skip(first, first, h.count);
      TwinContiguous(c, e, base, asking, IngestWalk(frame, first, h.count, skip), skip, last, now);
      LeavesInit(e, IngestWalk(frame, first, h.count, skip), skip, last, now);
    }
  }

  lemma LeavesInit(a: Arb, d: Delivery, skip: nat, last: nat, now: nat)
    requires a.state != Init
    ensures ApplyContiguous(a, d, skip, last, now).state != Init
  {
    SameContiguous(a, d, skip, last, now);
    hide ApplyContiguous;
  }

  /** A step of the session from alike states. */
  lemma StepAlike(a: Arb, b: Arb, base: seq<Out>, asking: bool, op: Op, session: Bytes)
    requires Alike(a, b, base, asking) && b.session == session && session != NO_SESSION && InSession(op, session)
    requires b.state == Init ==> Early(op, asking)
    ensures var c, e := Step(a, op), Step(b, op);
      && Alike(c, e, base, asking) && e.session == session && (b.state != Init ==> e.state != Init)
  {
    hide Behind, Ingest;
    match op
    case Frame(f, feed, now) => FrameAlike(a, b, base, asking, f, feed, now, session);
    case Ask(now) =>
      if b.state == Init { InitAsk(a, b, base, now); } else { TwinAsk(a, b, base, asking, now); }
      AskState(b, now);
    case Stop(reason) => TwinSeal(a, b, base, asking, reason);
  }

  lemma AskState(a: Arb, now: nat)
    ensures RecoveryIntent(a, now).0.state == a.state && RecoveryIntent(a, now).0.session == a.session
  {
  }

  lemma InitAsk(a: Arb, b: Arb, base: seq<Out>, now: nat)
    requires InitTwin(a, b, base, false)
    ensures InitTwin(RecoveryIntent(a, now).0, RecoveryIntent(b, now).0, base, false)
  {
    hide Behind, Target;
  }

  lemma FrameAlike(a: Arb, b: Arb, base: seq<Out>, asking: bool, frame: Bytes, feed: nat, now: nat, session: Bytes)
    requires Alike(a, b, base, asking) && b.session == session && session != NO_SESSION
    requires InSession(Frame(frame, feed, now), session) && (b.state == Init ==> Early(Frame(frame, feed, now), asking))
    ensures var c, e := Ingest(a, frame, feed, now), Ingest(b, frame, feed, now);
      && Alike(c, e, base, asking) && e.session == session && (b.state != Init ==> e.state != Init)
  {
    hide Behind, DataFrame, Heartbeat, Eos, Violate, CountPacket, HeaderOf;
    if |frame| >= HEADER_LEN && b.state != Dead {
      var h := HeaderOf(frame);
      var c, e := a.(ctr := CountPacket(a.ctr, feed, |frame|)), b.(ctr := CountPacket(b.ctr, feed, |frame|));
      assert SessionDispatch(c, session) == c && SessionDispatch(e, session) == e;
      LiveAlike(c, e, base, asking, frame, h, feed, now);
    }
  }

  /** What a frame does once its session is the current one. */
  function Kind(a: Arb, frame: Bytes, h: Header, feed: nat, now: nat): Arb
    requires |frame| >= HEADER_LEN
  {
    if h.count == HEARTBEAT_COUNT then Heartbeat(a, h.seqNo, now)
    else if h.count == EOS_COUNT then Eos(a, h.seqNo)
    else DataFrame(a, frame, h, feed, now)
  }

  lemma LiveAlike(a: Arb, b: Arb, base: seq<Out>, asking: bool, frame: Bytes, h: Header, feed: nat, now: nat)
    requires Alike(a, b, base, asking) && b.state != Dead && |frame| >= HEADER_LEN
    requires b.state == Init ==> h.count != EOS_COUNT
    ensures var c, e := Kind(a, frame, h, feed, now), Kind(b, frame, h, feed, now);
      && Alike(c, e, base, asking) && e.session == b.session && (b.state != Init ==> e.state != Init)
  {
    hide Behind, DataFrame, Eos, Heartbeat;
    KindKeeps(b, frame, h, feed, now);
    if b.state == Init {
      if IsData(h) { InitData(a, b, base, asking, frame, h, feed, now); } else { InitBeat(a, b, base, asking, h.seqNo, now); }
    } else if IsData(h) {
      TwinData(a, b, base, asking, frame, h, feed, now);
    } else {
      TwinControl(a, b, base, asking, h.seqNo, now);
    }
  }

  lemma InitBeat(a: Arb, b: Arb, base: seq<Out>, asking: bool, seqNo: nat, now: nat)
    requires InitTwin(a, b, base, asking)
    ensures InitTwin(Heartbeat(a, seqNo, now), Heartbeat(b, seqNo, now), base, asking)
  {
    hide Behind;
  }

  lemma KindKeeps(b: Arb, frame: Bytes, h: Header, feed: nat, now: nat)
    requires |frame| >= HEADER_LEN
    ensures var e := Kind(b, frame, h, feed, now); e.session == b.session && (b.state != Init ==> e.state != Init)
  {
    if IsData(h) { SameData(b, frame, h, feed, now); }
    hide DataFrame;
  }

  // ---- at the boundary ------------------------------------------------------------------------------------

  /** A frame of another session, in any live state, flushes everything the old session left and writes
      the boundary; from there on the sequencer is like a new one that gets the same frame. */
  lemma Boundary(a: Arb, frame: Bytes, feed: nat, now: nat, asking: bool)
    requires a.state != Dead && a.session != NO_SESSION && |frame| >= HEADER_LEN && HeaderOf(frame).count != EOS_COUNT
    requires HeaderOf(frame).session != a.session && HeaderOf(frame).session != NO_SESSION
    ensures var c, e := Ingest(a, frame, feed, now), Ingest(Fresh([]), frame, feed, now);
      && Alike(c, e, a.log + [Control(SessionBoundary(a.session, HeaderOf(frame).session, NextGen(a.gen)))], asking)
      && e.session == HeaderOf(frame).session
  {
    hide DataFrame, Heartbeat, CountPacket, HeaderOf, NextGen;
    var h := HeaderOf(frame);
    var base := a.log + [Control(SessionBoundary(a.session, h.session, NextGen(a.gen)))];
    var c := SessionDispatch(a.(ctr := CountPacket(a.ctr, feed, |frame|)), h.session);
    var e := SessionDispatch(Fresh([]).(ctr := CountPacket(NO_COUNTS, feed, |frame|)), h.session);
    assert Behind(c.log, e.log, base) by { assert c.log[|base|..] == []; }
    LiveAlike(c, e, base, asking, frame, h, feed, now);
  }

  /** The operations begin with a frame of the session, all frames are of the session, and until the first
      data frame is taken only early operations come. */
  ghost predicate NewSession(ops: seq<Op>, session: Bytes, asking: bool) {
    && ops != [] && ops[0].Frame? && |ops[0].bytes| >= HEADER_LEN
    && SingleSession(ops, session) && session != NO_SESSION
    && forall i :: 0 <= i < |ops| ==> EarlyAt(ops, i, asking)
  }

  ghost predicate EarlyAt(ops: seq<Op>, i: nat, asking: bool)
    requires i < |ops|
  {
    Run(Fresh([]), ops[..i]).state == Init ==> Early(ops[i], asking)
  }

  /** The trace up to and including the boundary. */
  function UpToBoundary(a: Arb, session: Bytes): seq<Out> {
    a.log + [Control(SessionBoundary(a.session, session, NextGen(a.gen)))]
  }

  /** From any live state of another session, a session's operations do what they do to a new sequencer:
      no evidence, no staged message, no request and no heartbeat of the old session has any effect. */
  lemma {:induction false} BoundaryIsFresh(a: Arb, ops: seq<Op>, session: Bytes, asking: bool)
    requires a.state != Dead && a.session != NO_SESSION && a.session != session && NewSession(ops, session, asking)
    ensures var c, e := Run(a, ops), Run(Fresh([]), ops);
      Alike(c, e, UpToBoundary(a, session), asking) && e.session == session
    decreases |ops|
  {
    hide Alike, Step, Early, NextGen, HeaderOf, UpToBoundary;
    var n := |ops| - 1;
    assert EarlyAt(ops, n, asking) && InSession(ops[n], session);
    if n == 0 {
      FirstAlike(a, ops[0], session, asking);
      assert ops[..0] == [];
    } else {
      forall i | 0 <= i < n ensures EarlyAt(ops[..n], i, asking) {
        assert ops[..n][..i] == ops[..i] && EarlyAt(ops, i, asking);
      }
      BoundaryIsFresh(a, ops[..n], session, asking);
      StepAlike(Run(a, ops[..n]), Run(Fresh([]), ops[..n]), UpToBoundary(a, session), asking, ops[n], session);
    }
  }

  lemma FirstAlike(a: Arb, op: Op, session: Bytes, asking: bool)
    requires a.state != Dead && a.session != NO_SESSION && a.session != session && session != NO_SESSION
    requires op.Frame? && |op.bytes| >= HEADER_LEN && InSession(op, session) && Early(op, asking)
    ensures Alike(Step(a, op), Step(Fresh([]), op), UpToBoundary(a, session), asking) && Step(Fresh([]), op).session == session
  {
    Boundary(a, op.bytes, op.feed, op.at, asking);
    hide Ingest, Alike, HeaderOf;
  }

  /** Every call behind the boundary is answered as by a new sequencer. */
  lemma CallsAreFresh(a: Arb, ops: seq<Op>, session: Bytes, i: nat)
    requires a.state != Dead && a.session != NO_SESSION && a.session != session && NewSession(ops, session, true)
    requires i < |ops| && ops[i].Ask?
    ensures RecoveryIntent(Run(a, ops[..i]), ops[i].at).1 == RecoveryIntent(Run(Fresh([]), ops[..i]), ops[i].at).1
  {
    hide Run, Twin, RecoveryIntent, HeaderOf;
    assert EarlyAt(ops, i, true) && i > 0;
    forall j | 0 <= j < i ensures EarlyAt(ops[..i], j, true) {
      assert ops[..i][..j] == ops[..j] && EarlyAt(ops, j, true);
    }
    BoundaryIsFresh(a, ops[..i], session, true);
    TwinAsk(Run(a, ops[..i]), Run(Fresh([]), ops[..i]), UpToBoundary(a, session), true, ops[i].at);
  }

  /** The one thing of the old session that stays until the new one's first data frame is the watermark: an
      end of session at the boundary reports it, where a new sequencer reports zero. */
  lemma EosAtBoundary(a: Arb, frame: Bytes, feed: nat, now: nat)
    requires a.state != Dead && a.session != NO_SESSION && |frame| >= HEADER_LEN && HeaderOf(frame).count == EOS_COUNT
    requires HeaderOf(frame).session != a.session && HeaderOf(frame).session != NO_SESSION
    ensures var h := HeaderOf(frame);
      && Ingest(a, frame, feed, now).log == UpToBoundary(a, h.session) + [Control(EndOfSession(h.session, a.w, h.seqNo))]
      && Ingest(Fresh([]), frame, feed, now).log == [Control(EndOfSession(h.session, 0, h.seqNo))]
  {
    hide DataFrame, Heartbeat, CountPacket, HeaderOf, NextGen;
  }

  /** And a call that a heartbeat at the boundary causes is measured against it, and asks from it. */
  lemma BeatAtBoundary(a: Arb, frame: Bytes, feed: nat, now: nat)
    requires a.state != Dead && a.session != NO_SESSION && |frame| >= HEADER_LEN && HeaderOf(frame).count == HEARTBEAT_COUNT
    requires HeaderOf(frame).session != a.session && HeaderOf(frame).session != NO_SESSION
    ensures var x := HeaderOf(frame).seqNo;
      && RecoveryIntent(Ingest(a, frame, feed, now), now + TRIGGER_NS).1
         == (if x > a.w then Some(Intent(a.w, if x < a.w + MAX_WIRE_REQUEST then x else a.w + MAX_WIRE_REQUEST)) else None)
      && RecoveryIntent(Ingest(Fresh([]), frame, feed, now), now + TRIGGER_NS).1
         == (if x > 0 then Some(Intent(0, if x < MAX_WIRE_REQUEST then x else MAX_WIRE_REQUEST)) else None)
  {
    hide DataFrame, Eos, CountPacket, HeaderOf, NextGen;
  }

  // ---- exactly once, session by session ---------------------------------------------------------------------

  lemma {:induction false} RunJoin(a: Arb, pre: seq<Op>, ops: seq<Op>)
    ensures Run(a, pre + ops) == Run(Run(a, pre), ops)
    decreases |ops|
  {
    if ops == [] {
      assert pre + ops == pre;
    } else {
      var n := |ops| - 1;
      assert (pre + ops)[..|pre| + n] == pre + ops[..n];
      hide Step;
      RunJoin(a, pre, ops[..n]);
    }
  }

  lemma {:induction false} MessagesBare(log: seq<Out>)
    ensures Messages(Strip(log)) == Messages(log)
    decreases |log|
  {
    if log != [] {
      var n := |log| - 1;
      assert Strip(log)[..n] == Strip(log[..n]);
      MessagesBare(log[..n]);
    }
  }

  /** A good run of a session that begins with one of its frames. */
  ghost predicate GoodSession(ops: seq<Op>, session: Bytes, truth: nat -> Bytes) {
    && GoodRun(ops, session, truth) && Data(ops) != [] && session != NO_SESSION
    && ops != [] && ops[0].Frame? && |ops[0].bytes| >= HEADER_LEN
  }

  lemma GoodIsNew(ops: seq<Op>, session: Bytes, truth: nat -> Bytes)
    requires GoodSession(ops, session, truth)
    ensures NewSession(ops, session, false)
  {
    hide IngestWalk, HeaderOf, Run, Data;
    forall i | 0 <= i < |ops| ensures InSession(ops[i], session) && EarlyAt(ops, i, false) {
      assert GoodOp(ops[i], session, truth);
    }
  }

  /** Behind a boundary, whatever the run before it was, the trace is the new session's ground truth from
      its own first data frame to the watermark, once each, in order; watermark and window are those of a
      new sequencer that got this session alone. */
  lemma ExactlyOnceBehind(pre: seq<Op>, ops: seq<Op>, session: Bytes, truth: nat -> Bytes)
    requires GoodSession(ops, session, truth)
    requires var a := Run(Fresh([]), pre); a.state != Dead && a.session != NO_SESSION && a.session != session
    ensures var a, b, alone := Run(Fresh([]), pre), Run(Fresh([]), pre + ops), Run(Fresh([]), ops);
      var anchor := First(Data(ops)[0]);
      && UpToBoundary(a, session) <= b.log && anchor <= b.w
      && Messages(b.log[|a.log| + 1..]) == Stretch(truth, anchor, b.w)
      && b.w == alone.w && b.staged == alone.staged && b.session == session && b.state == alone.state != Dead
  {
    var a, alone := Run(Fresh([]), pre), Run(Fresh([]), ops);
    hide Run, Messages, Stretch, Data, GoodRun, NextGen, Strip, NeverPast;
    RunJoin(Fresh([]), pre, ops);
    GoodIsNew(ops, session, truth);
    BoundaryIsFresh(a, ops, session, false);
    TrackRun(ops, session, truth);
    var b := Run(a, ops);
    MessagesBare(b.log[|a.log| + 1..]);
    MessagesBare(alone.log);
  }

  datatype Segment = Segment(session: Bytes, truth: nat -> Bytes, ops: seq<Op>)

  ghost predicate GoodSegments(segs: seq<Segment>) {
    && (forall i :: 0 <= i < |segs| ==> GoodSession(segs[i].ops, segs[i].session, segs[i].truth))
    && (forall i :: 0 < i < |segs| ==> segs[i - 1].session != segs[i].session)
  }

  /** All sessions' operations, one session after the other. */
  function AllOps(segs: seq<Segment>): seq<Op> {
    if segs == [] then [] else AllOps(segs[..|segs| - 1]) + segs[|segs| - 1].ops
  }

  /** What a session alone emits: its truth from its first data frame to the watermark it reaches. */
  ghost function OwnStretch(g: Segment): seq<Msg>
    requires GoodSession(g.ops, g.session, g.truth)
  {
    var anchor, w := First(Data(g.ops)[0]), Run(Fresh([]), g.ops).w;
    if anchor <= w then Stretch(g.truth, anchor, w) else []
  }

  ghost function AllStretches(segs: seq<Segment>): seq<Msg>
    requires forall i :: 0 <= i < |segs| ==> GoodSession(segs[i].ops, segs[i].session, segs[i].truth)
  {
    if segs == [] then []
    else AllStretches(segs[..|segs| - 1]) + OwnStretch(segs[|segs| - 1])
  }

  lemma {:induction false} MessagesJoin(a: seq<Out>, b: seq<Out>)
    ensures Messages(a + b) == Messages(a) + Messages(b)
    decreases |b|
  {
    if b == [] {
      assert a + b == a;
    } else {
      var n := |b| - 1;
      assert (a + b)[..|a| + n] == a + b[..n];
      MessagesJoin(a, b[..n]);
    }
  }

  /** The emission of a run over any number of sessions is every session's own truth, from its own anchor
      to the watermark it would reach alone, one session after the other. */
  lemma {:induction false} EverySessionOnce(segs: seq<Segment>)
    requires GoodSegments(segs)
    ensures var a := Run(Fresh([]), AllOps(segs));
      && Messages(a.log) == AllStretches(segs)
      && (segs != [] ==> a.state != Dead && a.session == segs[|segs| - 1].session != NO_SESSION)
    decreases |segs|
  {
    if segs != [] {
      var n := |segs| - 1;
      hide GoodSession, Run, Messages, OwnStretch;
      EverySessionOnce(segs[..n]);
      assert GoodSession(segs[n].ops, segs[n].session, segs[n].truth);
      if n == 0 {
        assert AllOps(segs[..0]) == [] && AllOps(segs) == segs[n].ops;
        FirstSession(segs[n]);
      } else {
        assert segs[n - 1].session != segs[n].session && segs[..n][n - 1] == segs[n - 1];
        NextSession(AllOps(segs[..n]), segs[n]);
      }
    }
  }

  lemma FirstSession(g: Segment)
    requires GoodSession(g.ops, g.session, g.truth)
    ensures var a := Run(Fresh([]), g.ops); Messages(a.log) == OwnStretch(g) && a.state != Dead && a.session == g.session != NO_SESSION
  {
    hide Run, Messages, Stretch, Data, GoodRun, NeverPast;
    TrackRun(g.ops, g.session, g.truth);
  }

  lemma NextSession(pre: seq<Op>, g: Segment)
    requires GoodSession(g.ops, g.session, g.truth)
    requires var a := Run(Fresh([]), pre); a.state != Dead && a.session != NO_SESSION && a.session != g.session
    ensures var a, b := Run(Fresh([]), pre), Run(Fresh([]), pre + g.ops);
      Messages(b.log) == Messages(a.log) + OwnStretch(g) && b.state != Dead && b.session == g.session != NO_SESSION
  {
    hide Run, Messages, Stretch, Data, GoodSession, NextGen, First;
    HasName(g);
    ExactlyOnceBehind(pre, g.ops, g.session, g.truth);
    var a, b := Run(Fresh([]), pre), Run(Fresh([]), pre + g.ops);
    AcrossBoundary(a.log, Control(SessionBoundary(a.session, g.session, NextGen(a.gen))), b.log);
  }

  lemma HasName(g: Segment)
    requires GoodSession(g.ops, g.session, g.truth)
    ensures g.session != NO_SESSION
  {
    hide GoodRun, Data;
  }

  lemma {:induction false} AcrossBoundary(log: seq<Out>, o: Out, more: seq<Out>)
    requires !o.Emit? && log + [o] <= more
    ensures Messages(more) == Messages(log) + Messages(more[|log| + 1..])
  {
    hide Messages;
    var head, tail := log + [o], more[|log| + 1..];
    MessagesSnoc(log, o);
    MessagesJoin(head, tail);
    assert more == head + tail;
    assert Messages(head) == Messages(log) + [];
  }
}
