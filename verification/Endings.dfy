// Which operations end a session: only an end-of-session frame, even when a gap that outlived the
// announcement closes.
module Endings {
  import opened Bytes
  import opened Itch
  import opened Mold
  import opened Arbiter
  import opened ArbiterInvariant
  import opened Steady
  import opened InvalidFrames
  import Intents

  predicate IsEosFrame(op: Op) {
    op.Frame? && |op.bytes| >= HEADER_LEN && HeaderOf(op.bytes).count == EOS_COUNT
  }

  predicate IsEnd(o: Out) {
    o.Control? && o.event.EndOfSession?
  }

  /** From a to b: the trace grows, by no end of session; the state does not become ended; and an
      open gap that closed left the contiguous or the initial state. */
  ghost predicate Quiet(a: Arb, b: Arb) {
    && a.log <= b.log
    && (forall i :: |a.log| <= i < |b.log| ==> !IsEnd(b.log[i]))
    && (b.state == Ended ==> a.state == Ended)
    && (b.gapActive || b.state == Contig || b.state == Init || (b.gapActive == a.gapActive && b.state == a.state))
  }

  lemma QuietJoin(a: Arb, b: Arb, c: Arb)
    requires Quiet(a, b) && Quiet(b, c)
    ensures Quiet(a, c)
  {
  }

  lemma QuietFields(a: Arb, b: Arb)
    requires b.log == a.log && b.state == a.state && b.gapActive == a.gapActive
    ensures Quiet(a, b)
  {
  }

  lemma QuietSteps(a: Arb, x: nat, now: nat)
    ensures Quiet(a, ClearPassed(a)) && Quiet(a, GapEvidence(a, x)) && Quiet(a, CheckGapClose(a)) && Quiet(a, RetirePending(a))
    ensures Quiet(a, Anchor(a, x, now)) && Quiet(a, ArbiterInvariant.Beyond(a, x))
  {
  }

  lemma QuietEmit(a: Arb, ms: seq<Msg>)
    ensures Quiet(a, EmitAll(a, ms))
  {
  }

  lemma {:induction false} QuietDrainRun(a: Arb)
    ensures Quiet(a, DrainRun(a))
    decreases |a.staged|
  {
    if a.w in a.staged {
      DropOne(a.staged, a.w);
      QuietDrainRun(a.(w := a.w + 1, staged := a.staged - {a.w}, log := a.log + [Emit(a.gen, a.w, a.staged[a.w])]));
    }
  }

  lemma QuietDrain(a: Arb, now: nat)
    ensures Quiet(a, Drain(a, now))
  {
    QuietDrainRun(a);
    hide DrainRun;
  }

  lemma QuietAdvance(a: Arb, last: nat, now: nat)
    ensures Quiet(a, Advance(a, last, now))
  {
    hide Quiet, ClearPassed, Drain, CheckGapClose;
    var b := a.(w := last + 1);
    var c := ClearPassed(b);
    var d := c.(progressVt := now);
    QuietFields(a, b);
    QuietSteps(b, 0, now);
    QuietFields(c, d);
    QuietDrain(d, now);
    QuietSteps(Drain(d, now), 0, now);
    QuietJoin(a, b, c);
    QuietJoin(a, c, d);
    QuietJoin(a, d, Drain(d, now));
    QuietJoin(a, Drain(d, now), CheckGapClose(Drain(d, now)));
  }

  lemma QuietContiguous(a: Arb, d: Delivery, skip: nat, last: nat, now: nat)
    ensures Quiet(a, ApplyContiguous(a, d, skip, last, now))
  {
    hide Quiet, Advance, RetirePending, EmitAll, Violate;
    var b := a.(ctr := a.ctr.(dupMsgs := a.ctr.dupMsgs + skip));
    var c := EmitAll(b, d.msgs);
    QuietFields(a, b);
    QuietEmit(b, d.msgs);
    QuietJoin(a, b, c);
    if d.err.Some? {
      var e := c.(ctr := Violate(c.ctr, d.err.value));
      QuietFields(c, e);
      QuietJoin(a, c, e);
    } else {
      var e := Advance(c, last, now);
      QuietAdvance(c, last, now);
      QuietJoin(a, c, e);
      QuietSteps(e, 0, now);
      QuietJoin(a, e, RetirePending(e));
    }
  }

  lemma QuietStage(a: Arb, ms: seq<Msg>)
    ensures Quiet(a, StageAll(a, ms))
  {
    StageAllKeeps(a, ms);
    hide StageAll;
  }

  lemma QuietAhead(a: Arb, d: Delivery, first: nat, last: nat, now: nat)
    ensures Quiet(a, ApplyAhead(a, d, first, last, now))
  {
    hide Quiet, GapEvidence, StageAll, Drain, CheckGapClose, RetirePending, Violate;
    var g := GapEvidence(a, first);
    var s := StageAll(g, d.msgs);
    QuietSteps(a, first, now);
    QuietStage(g, d.msgs);
    QuietJoin(a, g, s);
    if d.err.Some? {
      var e := s.(ctr := Violate(s.ctr, d.err.value));
      QuietFields(s, e);
      QuietJoin(a, s, e);
    } else {
      var t := ArbiterInvariant.Beyond(s, last);
      var u := Drain(t, now);
      var v := CheckGapClose(u);
      QuietSteps(s, last, now);
      QuietJoin(a, s, t);
      QuietDrain(t, now);
      QuietJoin(a, t, u);
      QuietSteps(u, 0, now);
      QuietJoin(a, u, v);
      QuietSteps(v, 0, now);
      QuietJoin(a, v, RetirePending(v));
    }
  }

  lemma QuietData(a: Arb, frame: Bytes, h: Header, feed: nat, now: nat)
    requires |frame| >= HEADER_LEN && IsData(h)
    ensures Quiet(a, DataFrame(a, frame, h, feed, now))
  {
    hide Quiet, ApplyContiguous, ApplyAhead, IngestWalk, Violate, CountDup, Anchor;
    var first, last := h.seqNo, h.seqNo + h.count - 1;
    if a.state != Ended && last < U64 && (a.state == Init || last >= a.w) {
      var b := Anchor(a, first, now);
      QuietSteps(a, first, now);
      if first <= b.w {
        var skip := Skip(b.w, first, h.count);
        QuietContiguous(b, IngestWalk(frame, first, h.count, skip), skip, last, now);
      } else {
        QuietAhead(b, IngestWalk(frame, first, h.count, 0), first, last, now);
      }
      QuietJoin(a, b, DataFrame(a, frame, h, feed, now));
    } else {
      QuietFields(a, DataFrame(a, frame, h, feed, now));
    }
  }

  lemma QuietControl(a: Arb, next: Bytes, seqNo: nat, now: nat)
    ensures Quiet(a, SessionDispatch(a, next)) && Quiet(a, Heartbeat(a, seqNo, now))
  {
  }

  /** A frame that is not an end of session ends no session. */
  lemma QuietIngest(a: Arb, frame: Bytes, feed: nat, now: nat)
    requires !IsEosFrame(Frame(frame, feed, now))
    ensures Quiet(a, Ingest(a, frame, feed, now))
  {
    hide Quiet, DataFrame, SessionDispatch, Heartbeat, Eos, Violate, CountPacket;
    var b := a.(ctr := CountPacket(a.ctr, feed, |frame|));
    QuietFields(a, b);
    if |frame| >= HEADER_LEN && a.state != Dead {
      var h := HeaderOf(frame);
      var c := SessionDispatch(b, h.session);
      QuietControl(b, h.session, 0, now);
      QuietControl(c, h.session, h.seqNo, now);
      if IsData(h) { QuietData(c, frame, h, feed, now); }
      QuietJoin(a, b, c);
      QuietJoin(a, c, Ingest(a, frame, feed, now));
    } else {
      QuietFields(a, Ingest(a, frame, feed, now));
    }
  }

  /** Whatever the operation, a step appends an end of session, or ends, only on such a frame. */
  lemma StepEnds(a: Arb, op: Op)
    requires !IsEosFrame(op)
    ensures var b := Step(a, op);
      && a.log <= b.log && (forall i :: |a.log| <= i < |b.log| ==> !IsEnd(b.log[i])) && (b.state == Ended ==> a.state == Ended)
  {
    hide Ingest;
    match op
    case Frame(f, feed, now) => QuietIngest(a, f, feed, now);
    case Ask(_) =>
    case Stop(_) =>
  }

  /** In the persist state a gap that closes leads to the contiguous state, or across a session
      boundary, never to the ended one. */
  lemma PersistCloses(a: Arb, frame: Bytes, feed: nat, now: nat)
    requires a.state == EosPersist && a.gapActive && !IsEosFrame(Frame(frame, feed, now))
    ensures var b := Ingest(a, frame, feed, now); b.gapActive || b.state == Contig || b.state == Init
  {
    hide Ingest;
    QuietIngest(a, frame, feed, now);
  }

  /** An end of session announced beyond the watermark with no gap open: frames of the session leave
      the persist state, without ending it, unless one is evidence ahead of the watermark, which sends
      it back to the gap state. */
  lemma PersistWithoutGap(a: Arb, frame: Bytes, feed: nat, now: nat)
    requires Inv(a) && a.state == EosPersist && !a.gapActive && |frame| >= HEADER_LEN
    requires HeaderOf(frame).session == a.session && HeaderOf(frame).count != EOS_COUNT
    ensures var h, b := HeaderOf(frame), Ingest(a, frame, feed, now);
      && b.state == (if h.seqNo > a.w && (IsData(h) ==> !NotTaken(a, h)) then Gap else EosPersist)
      && (b.gapActive <==> b.state == Gap)
  {
    hide HeaderOf, DataFrame, Inv, NotTaken, CountPacket;
    var h := HeaderOf(frame);
    var c := SessionDispatch(a.(ctr := CountPacket(a.ctr, feed, |frame|)), h.session);
    assert c == a.(ctr := c.ctr);
    InvCounters(a, c.ctr);
    if IsData(h) { PersistData(c, frame, h, feed, now); SameTaking(a, c, h); }
  }

  lemma SameTaking(a: Arb, b: Arb, h: Header)
    requires a.state == b.state && a.w == b.w && h.count > 0
    ensures NotTaken(a, h) == NotTaken(b, h)
  {
  }

  lemma PersistData(a: Arb, frame: Bytes, h: Header, feed: nat, now: nat)
    requires Inv(a) && a.state == EosPersist && !a.gapActive && |frame| >= HEADER_LEN && IsData(h)
    ensures var b := DataFrame(a, frame, h, feed, now);
      && b.state == (if h.seqNo > a.w && !NotTaken(a, h) then Gap else EosPersist)
      && (b.gapActive <==> b.state == Gap)
  {
    hide IngestWalk, ApplyContiguous, ApplyAhead, Violate, CountDup, Inv;
    if !NotTaken(a, h) {
      if h.seqNo <= a.w {
        PersistContiguous(a, IngestWalk(frame, h.seqNo, h.count, Skip(a.w, h.seqNo, h.count)), Skip(a.w, h.seqNo, h.count),
          h.seqNo + h.count - 1, now);
      } else {
        WalkDelivers(frame, h.seqNo, h.count, 0);
        PersistAhead(a, IngestWalk(frame, h.seqNo, h.count, 0), h.seqNo, h.count, now);
      }
    }
  }

  lemma PersistContiguous(a: Arb, d: Delivery, skip: nat, last: nat, now: nat)
    requires a.state == EosPersist && !a.gapActive
    ensures var b := ApplyContiguous(a, d, skip, last, now); b.state == EosPersist && !b.gapActive
  {
    hide Drain, Violate, Outs;
    var b := EmitAll(a.(ctr := a.ctr.(dupMsgs := a.ctr.dupMsgs + skip)), d.msgs);
    DrainKeepsState(ClearPassed(b.(w := last + 1)).(progressVt := now), now);
  }

  lemma DrainKeepsState(a: Arb, now: nat)
    ensures var d := Drain(a, now); d.state == a.state && d.gapActive == a.gapActive
  {
    DrainRunForward(a);
    hide DrainRun;
  }

  lemma PersistAhead(a: Arb, d: Delivery, first: nat, count: nat, now: nat)
    requires Inv(a) && a.state == EosPersist && !a.gapActive && first > a.w && count > 0 && first + count <= U64
    requires FromFrame(d.msgs, first) && |d.msgs| <= count
    ensures var b := ApplyAhead(a, d, first, first + count - 1, now); b.state == Gap && b.gapActive
  {
    hide Inv, StageAll, FromFrame, Violate, Drain, DrainRun;
    var g := GapEvidence(a, first);
    InvGapEvidence(a, first);
    InvStageAll(g, d.msgs, first);
    var s := StageAll(g, d.msgs);
    OwnMissing(s);
    var t := Beyond(s, first + count - 1);
    DrainIdle(t, now);
    DrainKeepsState(t, now);
  }

  // ---- exactly when a session ends ------------------------------------------------------------------------

  /** An end-of-session frame in every state but the dead one: it ends a session that has no data frame
      yet or whose watermark is not below the announced number, with one event that reports both;
      otherwise the session persists; a repeat is only counted. */
  lemma EosExactly(a: Arb, frame: Bytes, feed: nat, now: nat)
    requires |frame| >= 20 && HeaderOf(frame).count == 65535 && a.state != Dead
    requires HeaderOf(frame).session == a.session || a.session == NO_SESSION
    ensures var b, h := Ingest(a, frame, feed, now), HeaderOf(frame);
      && b.state == (if a.state == Ended || a.state == Init || a.w >= h.seqNo then Ended else EosPersist)
      && b.log == a.log + (if a.state != Ended && b.state == Ended then [Control(EndOfSession(h.session, a.w, h.seqNo))] else [])
      && b == a.(session := h.session, state := b.state, log := b.log, ctr := b.ctr)
      && b.ctr.eosSeen == a.ctr.eosSeen + (if a.state == Ended || a.state == EosPersist then 0 else 1)
      && b.ctr.eosDup == a.ctr.eosDup + (if a.state == Ended || a.state == EosPersist then 1 else 0)
  {
    hide HeaderOf, DataFrame, Heartbeat, Eos, SessionDispatch;
    var c := SessionDispatch(a.(ctr := CountPacket(a.ctr, feed, |frame|)), HeaderOf(frame).session);
    Discovered(a, CountPacket(a.ctr, feed, |frame|), HeaderOf(frame).session);
    EosLadder(c, HeaderOf(frame).seqNo);
    hide CountPacket;
  }

  lemma Discovered(a: Arb, c: Counters, session: Bytes)
    requires session == a.session || a.session == NO_SESSION
    ensures var b := SessionDispatch(a.(ctr := c), session);
      b == a.(session := session, ctr := b.ctr) && b.ctr == c.(sessions := b.ctr.sessions)
  {
  }

  lemma EosLadder(a: Arb, announced: nat)
    requires a.state != Dead
    ensures var b := Eos(a, announced);
      && b.state == (if a.state == Ended || a.state == Init || a.w >= announced then Ended else EosPersist)
      && b.log == a.log + (if a.state != Ended && b.state == Ended then [Control(EndOfSession(a.session, a.w, announced))] else [])
      && b == a.(state := b.state, log := b.log, ctr := b.ctr)
      && b.ctr.eosSeen == a.ctr.eosSeen + (if a.state == Ended || a.state == EosPersist then 0 else 1)
      && b.ctr.eosDup == a.ctr.eosDup + (if a.state == Ended || a.state == EosPersist then 1 else 0)
  {
    assert a.log + [] == a.log;
  }

  /** Operation i is an end of session that ends it: the run is not over, and no data frame has come yet or
      the watermark has reached the announced number. */
  ghost predicate EndsAt(ops: seq<Op>, i: nat)
    requires i < |ops|
  {
    Ending(Run(Fresh([]), ops[..i]), ops[i])
  }

  ghost predicate Ending(a: Arb, op: Op) {
    && IsEosFrame(op) && a.state != Dead && a.state != Ended
    && (a.state == Init || a.w >= HeaderOf(op.bytes).seqNo)
  }

  ghost predicate HasEnd(log: seq<Out>) {
    exists j :: 0 <= j < |log| && IsEnd(log[j])
  }

  /** A single-session run reports an end of session if and only if one of its frames ends it. */
  lemma {:induction false} EndedExactly(ops: seq<Op>, session: Bytes)
    requires Intents.SingleSession(ops, session) && |session| == 10
    ensures HasEnd(Run(Fresh([]), ops).log) <==> exists i :: 0 <= i < |ops| && EndsAt(ops, i)
    decreases |ops|
  {
    if ops != [] {
      var n := |ops| - 1;
      hide Step, Intents.Based, Intents.InSession, Ending, HasEnd, EndsAt;
      assert Intents.InSession(ops[n], session);
      EndedExactly(ops[..n], session);
      Intents.BasedRun(ops[..n], session);
      EndStep(Run(Fresh([]), ops[..n]), ops[n], session);
      EndsSnoc(ops);
    } else {
      assert !HasEnd(Fresh([]).log);
    }
  }

  lemma EndsSnoc(ops: seq<Op>)
    requires ops != []
    ensures var n := |ops| - 1;
      (exists i :: 0 <= i < |ops| && EndsAt(ops, i))
        <==> (exists i :: 0 <= i < |ops[..n]| && EndsAt(ops[..n], i)) || Ending(Run(Fresh([]), ops[..n]), ops[n])
  {
    hide Run, Ending;
    var n := |ops| - 1;
    forall i | 0 <= i < n ensures EndsAt(ops[..n], i) == EndsAt(ops, i) {
      assert ops[..n][..i] == ops[..i];
    }
    assert EndsAt(ops, n) == Ending(Run(Fresh([]), ops[..n]), ops[n]);
    if i :| 0 <= i < |ops[..n]| && EndsAt(ops[..n], i) { assert EndsAt(ops, i); }
    if i :| 0 <= i < |ops| && EndsAt(ops, i) && i < n { assert EndsAt(ops[..n], i); }
  }

  lemma EndStep(a: Arb, op: Op, session: Bytes)
    requires Intents.Based(a, session) && Intents.InSession(op, session)
    ensures var b := Step(a, op);
      HasEnd(b.log) <==> HasEnd(a.log) || Ending(a, op)
  {
    var b := Step(a, op);
    hide HeaderOf, Ingest, Inv, Step;
    if IsEosFrame(op) && a.state != Dead {
      StepFrame(a, op);
      EosExactly(a, op.bytes, op.feed, op.at);
      EndAppended(a.log, b.log);
    } else if IsEosFrame(op) {
      StepFrame(a, op);
      DeadKeepsLog(a, op.bytes, op.feed, op.at);
    } else {
      StepEnds(a, op);
      EndKept(a.log, b.log);
    }
  }

  lemma StepFrame(a: Arb, op: Op)
    requires op.Frame?
    ensures Step(a, op) == Ingest(a, op.bytes, op.feed, op.at)
  {
    hide Ingest;
  }

  lemma DeadKeepsLog(a: Arb, frame: Bytes, feed: nat, now: nat)
    requires a.state == Dead
    ensures Ingest(a, frame, feed, now).log == a.log
  {
  }

  lemma EndAppended(log: seq<Out>, more: seq<Out>)
    ensures (|more| == |log| + 1 && more[..|log|] == log && IsEnd(more[|log|])) ==> HasEnd(more)
    ensures more == log ==> HasEnd(more) == HasEnd(log)
  {
    if |more| == |log| + 1 && IsEnd(more[|log|]) { assert IsEnd(more[|log|]); }
  }

  lemma EndKept(log: seq<Out>, more: seq<Out>)
    requires log <= more && forall i :: |log| <= i < |more| ==> !IsEnd(more[i])
    ensures HasEnd(more) <==> HasEnd(log)
  {
    if HasEnd(log) {
      var j :| 0 <= j < |log| && IsEnd(log[j]);
      assert IsEnd(more[j]);
    }
  }

  // ---- a run that closes the gap of the persist state --------------------------------------------------

  /** Message 1, message 3, an end of session announced at 4, and message 2. */
  function PersistOps(): seq<Op> {
    [Frame(One(1), 0, 0), Frame(One(3), 0, 0), Frame(Signal(4, EOS_COUNT), 0, 0), Frame(One(2), 0, 0)]
  }

  /** The gap closes, all announced messages are emitted, and no end of session is: the state is
      contiguous. */
  lemma PersistRun(ops: seq<Op>)
    requires ops == PersistOps()
    ensures PersistsThenContiguous(ops)
  {
    hide One, Signal, Session, SystemEvent, HeaderOf, IngestWalk, Ingest, Validate, StateAfter, Inv;
    OneDelivers(1);
    OneDelivers(2);
    OneDelivers(3);
    SignalHeader(4, EOS_COUNT);
    StateStep(ops, 0);
    StateStep(ops, 1);
    StateStep(ops, 2);
    StateStep(ops, 3);
    AnchorFrame(Session(), 1, One(1), [Msg(1, SystemEvent())], 1, 0, 0);
    AheadOne(StateAfter(ops, 1), One(3), SystemEvent());
    EosPersists(StateAfter(ops, 2), Signal(4, EOS_COUNT));
    FillOne(StateAfter(ops, 3), One(2), SystemEvent());
    var e := SystemEvent();
    assert Outs(0, [Msg(1, e)]) == [Emit(0, 1, e)];
    hide SteadyReady;
  }

  ghost predicate PersistsThenContiguous(ops: seq<Op>) {
    && |ops| == 4
    && (var a := StateAfter(ops, 3); a.state == EosPersist && a.gapActive && a.w == 2)
    && var b := StateAfter(ops, 4);
      && b.state == Contig && b.w == 4
      && b.log == [Emit(0, 1, SystemEvent()), Control(GapOpened(2, 3, 1)), Emit(1, 2, SystemEvent()), Emit(1, 3, SystemEvent()),
           Control(ReAnchored(1, 4))]
  }

  lemma AheadOne(a: Arb, p: Bytes, m: Bytes)
    requires SteadyReady(a) && a.maxStaged == 0 && a.w == 2 && a.gen == 0 && |p| >= HEADER_LEN
    requires HeaderOf(p) == Header(a.session, 3, 1) && IngestWalk(p, 3, 1, 0) == Delivery([Msg(3, m)], None)
    ensures var r := Ingest(a, p, 0, 0);
      && r.session == a.session && r.state == Gap && r.gapActive && r.hwm == 3 && r.w == 2 && r.gen == 1
      && r.staged == map[3 := m] && r.log == a.log + [Control(GapOpened(2, 3, 1))]
  {
    hide HeaderOf, IngestWalk, CountPacket, ApplyContiguous;
    var ms := [Msg(3, m)];
    var g := GapEvidence(a.(ctr := CountPacket(a.ctr, 0, |p|)), 3);
    StageAllLast(g, ms);
    assert ms[..0] == [] && StageAll(g, ms[..0]) == g;
  }

  lemma EosPersists(a: Arb, p: Bytes)
    requires a.session != NO_SESSION && a.state == Gap && a.w == 2
    requires |p| >= HEADER_LEN && HeaderOf(p) == Header(a.session, 4, EOS_COUNT)
    ensures var r := Ingest(a, p, 0, 0); r == a.(state := EosPersist, ctr := r.ctr)
  {
    hide HeaderOf, CountPacket;
  }

  lemma FillOne(a: Arb, p: Bytes, m: Bytes)
    requires a.session != NO_SESSION && a.state == EosPersist && a.gapActive && a.hwm == 3 && a.w == 2
    requires a.staged == map[3 := m] && |p| >= HEADER_LEN
    requires HeaderOf(p) == Header(a.session, 2, 1) && IngestWalk(p, 2, 1, 0) == Delivery([Msg(2, m)], None)
    ensures var r := Ingest(a, p, 0, 0);
      r.state == Contig && r.w == 4
      && r.log == a.log + [Emit(a.gen, 2, m), Emit(a.gen, 3, m), Control(ReAnchored(a.gen, 4))]
  {
    hide HeaderOf, IngestWalk, CountPacket, ApplyAhead, ApplyContiguous;
    var c := SessionDispatch(a.(ctr := CountPacket(a.ctr, 0, |p|)), a.session);
    FillApplied(c, m);
  }

  lemma FillApplied(a: Arb, m: Bytes)
    requires a.gapActive && a.hwm == 3 && a.w == 2 && a.staged == map[3 := m]
    ensures var r := ApplyContiguous(a, Delivery([Msg(2, m)], None), 0, 2, 0);
      r.state == Contig && r.w == 4
      && r.log == a.log + [Emit(a.gen, 2, m), Emit(a.gen, 3, m), Control(ReAnchored(a.gen, 4))]
  {
    var ms := [Msg(2, m)];
    var b := EmitAll(a.(ctr := a.ctr.(dupMsgs := a.ctr.dupMsgs + 0)), ms);
    assert Outs(a.gen, ms) == [Emit(a.gen, 2, m)];
    assert b.log == a.log + [Emit(a.gen, 2, m)];
    hide EmitAll, Outs;
    var c := ClearPassed(b.(w := 3));
    assert c.staged == map[3 := m];
    hide ClearPassed;
    DrainsOne(c.(progressVt := 0), m);
    hide DrainRun;
  }

  lemma DrainsOne(a: Arb, m: Bytes)
    requires a.staged == map[3 := m] && a.w == 3
    ensures var r := DrainRun(a); r == a.(w := 4, staged := map[], log := r.log) && r.log == a.log + [Emit(a.gen, 3, m)]
  {
    var b := a.(w := a.w + 1, staged := a.staged - {a.w}, log := a.log + [Emit(a.gen, a.w, a.staged[a.w])]);
    assert b.staged == map[];
    assert DrainRun(a) == DrainRun(b);
  }

  /** Every end of session in a run's trace was written by the step of an end-of-session frame. */
  lemma {:induction false} EndedByEosFrame(ops: seq<Op>, j: nat) returns (i: nat)
    requires j < |Run(Fresh([]), ops).log| && IsEnd(Run(Fresh([]), ops).log[j])
    ensures i < |ops| && IsEosFrame(ops[i])
    ensures |Run(Fresh([]), ops[..i]).log| <= j < |Run(Fresh([]), ops[..i + 1]).log|
    decreases |ops|
  {
    hide Step, IsEosFrame;
    var n := |ops| - 1;
    var a := Run(Fresh([]), ops[..n]);
    if j < |a.log| {
      GrowingStep(a, ops[n]);
      assert a.log[j] == Run(Fresh([]), ops).log[j];
      i := EndedByEosFrame(ops[..n], j);
      assert ops[..n][..i] == ops[..i] && ops[..n][..i + 1] == ops[..i + 1];
    } else {
      i := n;
      assert ops[..n + 1] == ops;
      if !IsEosFrame(ops[n]) { StepEnds(a, ops[n]); }
    }
  }

  lemma EosGrows(a: Arb, announced: nat)
    ensures a.log <= Eos(a, announced).log
  {
  }

  lemma GrowingStep(a: Arb, op: Op)
    ensures a.log <= Step(a, op).log
  {
    if IsEosFrame(op) {
      hide DataFrame, SessionDispatch, Heartbeat, Eos, CountPacket, Violate, HeaderOf, RecoveryIntent, Seal;
      var b := a.(ctr := CountPacket(a.ctr, op.feed, |op.bytes|));
      QuietControl(b, HeaderOf(op.bytes).session, 0, 0);
      EosGrows(SessionDispatch(b, HeaderOf(op.bytes).session), HeaderOf(op.bytes).seqNo);
    } else {
      hide Step;
      StepEnds(a, op);
    }
  }
}
