// Recovery intents over whole runs: what they ask for, and how often.
module Intents {
  import opened Bytes
  import opened Itch
  import opened Mold
  import opened Arbiter
  import opened ArbiterInvariant

  /** Every frame long enough for a header is of the session. */
  ghost predicate SingleSession(ops: seq<Op>, session: Bytes) {
    forall i :: 0 <= i < |ops| ==> InSession(ops[i], session)
  }

  predicate InSession(op: Op, session: Bytes) {
    op.Frame? && |op.bytes| >= HEADER_LEN ==> HeaderOf(op.bytes).session == session
  }

  /** What makes every intent point forward: the staged maximum covers what is staged, and an
      outstanding request ends above the watermark and within one wire request of it. */
  ghost predicate Forward(a: Arb) {
    && (forall k :: k in a.staged ==> k <= a.maxStaged)
    && (a.pendingTo.Some? ==> a.w < a.pendingTo.value <= a.w + MAX_WIRE_REQUEST)
  }

  // ---- the watermark moves forward --------------------------------------------------------------

  /** While the watermark has moved past an outstanding request that is about to be retired. */
  ghost predicate Moved(a: Arb) {
    && (forall k :: k in a.staged ==> k <= a.maxStaged)
    && (a.pendingTo.Some? ==> a.pendingTo.value <= a.w + MAX_WIRE_REQUEST)
  }

  lemma MovedDrain(a: Arb, now: nat)
    requires Moved(a)
    ensures Moved(Drain(a, now)) && Drain(a, now).w >= a.w
  {
    DrainRunForward(a);
    hide DrainRun;
  }

  lemma MovedRetire(a: Arb)
    requires Moved(a)
    ensures Forward(RetirePending(CheckGapClose(a)))
  {
  }

  lemma ForwardContiguous(a: Arb, d: Delivery, skip: nat, last: nat, now: nat)
    requires Moved(a) && d.err == None && last >= a.w
    ensures Forward(ApplyContiguous(a, d, skip, last, now))
  {
    hide Drain;
    var b := EmitAll(a.(ctr := a.ctr.(dupMsgs := a.ctr.dupMsgs + skip)), d.msgs);
    var c := ClearPassed(b.(w := last + 1)).(progressVt := now);
    MovedDrain(c, now);
    MovedRetire(Drain(c, now));
  }

  lemma ForwardAhead(a: Arb, d: Delivery, first: nat, last: nat, now: nat)
    requires Moved(a) && d.err == None
    requires forall i :: 0 <= i < |d.msgs| ==> d.msgs[i].seqNo <= last
    ensures Forward(ApplyAhead(a, d, first, last, now))
  {
    hide Drain, StageAll;
    var g := GapEvidence(a, first);
    StageAllKeys(g, d.msgs);
    StageAllKeeps(g, d.msgs);
    var t := Beyond(StageAll(g, d.msgs), last);
    MovedDrain(t, now);
    MovedRetire(Drain(t, now));
  }

  lemma WalkNoError(frame: Bytes, first: nat, count: nat, skip: nat)
    requires |frame| >= HEADER_LEN && skip <= count && IngestWalk(frame, first, count, 0).err == None
    ensures IngestWalk(frame, first, count, skip).err == None
  {
    hide Validate;
    var w := FrameWalk(frame, count);
    Delivered(frame, first, w.blocks, 0, w.err);
    NoErrorLater(frame, first, w.blocks, skip, w.err);
  }

  // ---- frames that stop at an error ----------------------------------------------------------------

  /** What a frame that delivers ms before an error must not do: anchor the watermark at or past an
      outstanding request, or stage a message beyond the staged maximum. */
  ghost predicate Tolerable(a: Arb, ms: seq<Msg>, first: nat) {
    if first <= a.w then a.pendingTo.Some? ==> a.pendingTo.value > a.w
    else forall i :: 0 <= i < |ms| && ms[i].seqNo < a.w + WINDOW ==> ms[i].seqNo <= a.maxStaged
  }

  /** How many blocks of a frame from first on the anchored sequencer skips. */
  function SkipAt(a: Arb, first: nat, count: nat): nat {
    if first <= a.w then Skip(a.w, first, count) else 0
  }

  /** A data frame that is not applied, delivers all it should, or is tolerable. */
  ghost predicate Harmless(a: Arb, frame: Bytes, h: Header, now: nat)
    requires |frame| >= HEADER_LEN && IsData(h)
  {
    var first, last := h.seqNo, h.seqNo + h.count - 1;
    var b := Anchor(a, first, now);
    var d := IngestWalk(frame, first, h.count, SkipAt(b, first, h.count));
    a.state == Ended || last >= U64 || (a.state != Init && last < a.w) || d.err == None || Tolerable(b, d.msgs, first)
  }

  /** One of the messages has number k and fits the window. */
  ghost predicate StagesKey(w: nat, ms: seq<Msg>, k: nat) {
    k < w + WINDOW && exists i :: 0 <= i < |ms| && ms[i].seqNo == k
  }

  /** Staged after a frame ahead: what was, and the delivered messages that fit the window. */
  lemma {:induction false} StageAllKeys(a: Arb, ms: seq<Msg>)
    ensures forall k: nat :: k in StageAll(a, ms).staged <==> k in a.staged || StagesKey(a.w, ms, k)
    decreases |ms|
  {
    if ms != [] {
      var n := |ms| - 1;
      var before := StageAll(a, ms[..n]);
      StageAllKeys(a, ms[..n]);
      StageAllKeeps(a, ms[..n]);
      forall k: nat ensures k in StageAll(a, ms).staged <==> k in a.staged || StagesKey(a.w, ms, k) {
        assert k in StageAll(a, ms).staged <==> k in before.staged || (k == ms[n].seqNo && k < a.w + WINDOW);
        if StagesKey(a.w, ms, k) {
          var i :| 0 <= i < |ms| && ms[i].seqNo == k;
          if i < n { assert ms[..n][i].seqNo == k; }
        }
        if StagesKey(a.w, ms[..n], k) {
          var i :| 0 <= i < n && ms[..n][i].seqNo == k;
          assert ms[i].seqNo == k;
        }
      }
    }
  }

  /** Ahead of the watermark, an error breaks the forward law exactly when it leaves a message staged
      beyond the staged maximum. */
  lemma ErrorAhead(a: Arb, d: Delivery, first: nat, last: nat, now: nat)
    requires Forward(a) && d.err.Some? && first > a.w
    ensures Forward(ApplyAhead(a, d, first, last, now)) <==> Tolerable(a, d.msgs, first)
  {
    var g := GapEvidence(a, first);
    StageAllKeys(g, d.msgs);
    StageAllKeeps(g, d.msgs);
    hide StageAll, Violate;
    var s := StageAll(g, d.msgs);
    if !Tolerable(a, d.msgs, first) {
      var i :| 0 <= i < |d.msgs| && d.msgs[i].seqNo < a.w + WINDOW && d.msgs[i].seqNo > a.maxStaged;
      assert StagesKey(a.w, d.msgs, d.msgs[i].seqNo);
      assert d.msgs[i].seqNo in s.staged;
    }
  }

  /** At or below the watermark an error leaves the window alone. */
  lemma ErrorContiguous(a: Arb, d: Delivery, skip: nat, first: nat, last: nat, now: nat)
    requires Moved(a) && d.err.Some? && first <= a.w
    ensures Forward(ApplyContiguous(a, d, skip, last, now)) <==> Tolerable(a, d.msgs, first)
  {
    hide Violate, Outs;
  }

  /** A data frame keeps the forward law if and only if it is harmless. */
  lemma ForwardData(a: Arb, frame: Bytes, h: Header, feed: nat, now: nat)
    requires Inv(a) && Forward(a) && a.state != Dead && |frame| >= HEADER_LEN && IsData(h)
    requires a.state == Init ==> a.w == 0
    ensures Forward(DataFrame(a, frame, h, feed, now)) <==> Harmless(a, frame, h, now)
  {
    hide ApplyContiguous, ApplyAhead, IngestWalk, Violate, CountDup, Tolerable;
    var first, last := h.seqNo, h.seqNo + h.count - 1;
    if a.state != Ended && last < U64 && (a.state == Init || last >= a.w) {
      var b := Anchor(a, first, now);
      assert Moved(b) && (first > b.w ==> Forward(b));
      var d := IngestWalk(frame, first, h.count, SkipAt(b, first, h.count));
      hide Inv, Anchor;
      if first <= b.w {
        var skip := Skip(b.w, first, h.count);
        if d.err == None {
          ForwardContiguous(b, d, skip, last, now);
        } else {
          ErrorContiguous(b, d, skip, first, last, now);
        }
      } else {
        WalkDelivers(frame, first, h.count, 0);
        if d.err == None {
          ForwardAhead(b, d, first, last, now);
        } else {
          ErrorAhead(b, d, first, last, now);
        }
      }
    }
  }

  /** Before the first data frame the watermark is zero. */
  ghost predicate Unanchored(a: Arb) {
    a.state == Init ==> a.w == 0
  }

  /** What no part of a data frame touches. */
  ghost predicate Same(a: Arb, b: Arb) {
    b.session == a.session && b.lastIntentVt == a.lastIntentVt && (a.state != Init ==> b.state != Init)
  }

  lemma SameSteps(a: Arb, x: nat, now: nat)
    ensures Same(a, ClearPassed(a)) && Same(a, GapEvidence(a, x)) && Same(a, CheckGapClose(a)) && Same(a, RetirePending(a))
    ensures Same(a, Anchor(a, x, now)) && Same(a, a.(w := x)) && Same(a, a.(progressVt := now)) && Same(a, Beyond(a, x))
  {
  }

  lemma SameEmit(a: Arb, ms: seq<Msg>)
    ensures Same(a, EmitAll(a, ms))
  {
  }

  lemma SameDrain(a: Arb, now: nat)
    ensures Same(a, Drain(a, now))
  {
    DrainRunForward(a);
    hide DrainRun;
  }

  lemma SameStageAll(a: Arb, ms: seq<Msg>)
    ensures Same(a, StageAll(a, ms))
  {
    StageAllKeeps(a, ms);
    hide StageAll;
  }

  lemma SameContiguous(a: Arb, d: Delivery, skip: nat, last: nat, now: nat)
    ensures Same(a, ApplyContiguous(a, d, skip, last, now))
  {
    hide DrainRun, ClearPassed, Drain, CheckGapClose, RetirePending, Violate, EmitAll;
    var b := a.(ctr := a.ctr.(dupMsgs := a.ctr.dupMsgs + skip));
    var c := EmitAll(b, d.msgs);
    SameEmit(b, d.msgs);
    if d.err == None {
      SameAdvance(c, last, now);
      SameSteps(Advance(c, last, now), 0, now);
    } 
  }

  lemma SameAdvance(a: Arb, last: nat, now: nat)
    ensures Same(a, Advance(a, last, now))
  {
    hide ClearPassed, Drain, CheckGapClose;
    var b := a.(w := last + 1);
    SameSteps(b, 0, now);
    var c := ClearPassed(b).(progressVt := now);
    SameDrain(c, now);
    SameSteps(Drain(c, now), 0, now);
  }

  lemma SameAhead(a: Arb, d: Delivery, first: nat, last: nat, now: nat)
    ensures Same(a, ApplyAhead(a, d, first, last, now))
  {
    hide GapEvidence, Drain, CheckGapClose, RetirePending, StageAll, Violate;
    var g := GapEvidence(a, first);
    SameSteps(a, first, now);
    var s := StageAll(g, d.msgs);
    SameStageAll(g, d.msgs);
    if d.err == None {
      var t := Beyond(s, last);
      SameSteps(s, last, now);
      SameDrain(t, now);
      SameSteps(Drain(t, now), 0, now);
      SameSteps(CheckGapClose(Drain(t, now)), 0, now);
    }
  }

  lemma SameData(a: Arb, frame: Bytes, h: Header, feed: nat, now: nat)
    requires |frame| >= HEADER_LEN && IsData(h)
    ensures Same(a, DataFrame(a, frame, h, feed, now))
  {
    hide ApplyContiguous, ApplyAhead, IngestWalk, Violate, CountDup, Anchor;
    var first, last := h.seqNo, h.seqNo + h.count - 1;
    if a.state != Ended && last < U64 && (a.state == Init || last >= a.w) {
      var b := Anchor(a, first, now);
      SameSteps(a, first, now);
      if first <= b.w {
        var skip := Skip(b.w, first, h.count);
        SameContiguous(b, IngestWalk(frame, first, h.count, skip), skip, last, now);
      } else {
        SameAhead(b, IngestWalk(frame, first, h.count, 0), first, last, now);
      }
    }
  }

  /** A frame that is applied leaves the initial state. */
  lemma DataLeavesInit(a: Arb, frame: Bytes, h: Header, feed: nat, now: nat)
    requires |frame| >= HEADER_LEN && IsData(h) && Unanchored(a) && a.state != Dead
    ensures Unanchored(DataFrame(a, frame, h, feed, now)) && DataFrame(a, frame, h, feed, now).session == a.session
  {
    hide ApplyContiguous, ApplyAhead, IngestWalk, Violate, CountDup;
    SameData(a, frame, h, feed, now);
    var first, last := h.seqNo, h.seqNo + h.count - 1;
    if a.state == Init && last < U64 {
      var b := Anchor(a, first, now);
      SameContiguous(b, IngestWalk(frame, first, h.count, Skip(b.w, first, h.count)), Skip(b.w, first, h.count), last, now);
    }
  }

  // ---- one operation -------------------------------------------------------------------------------

  /** What every single-session run keeps. */
  ghost predicate Based(a: Arb, session: Bytes) {
    && Inv(a) && Unanchored(a)
    && (a.session == session || (a.session == NO_SESSION && a.state == Init) || a.state == Dead)
  }

  /** A frame of the session that keeps the forward law; other operations always do. */
  ghost predicate HarmlessOp(a: Arb, op: Op) {
    (op.Frame? && |op.bytes| >= HEADER_LEN && IsData(HeaderOf(op.bytes)) && a.state != Dead) ==>
      Harmless(a, op.bytes, HeaderOf(op.bytes), op.at)
  }

  lemma BasedDispatch(a: Arb, c: Counters, session: Bytes)
    requires Based(a, session) && |session| == 10 && a.state != Dead
    ensures var b := SessionDispatch(a.(ctr := c), session);
      Based(b, session) && b.session == session && b == a.(session := session, ctr := b.ctr)
  {
    InvCounters(a, c);
    InvSessionDispatch(a.(ctr := c), session);
    hide Inv;
  }

  /** Harmlessness does not look at the session or the counters. */
  lemma HarmlessSame(a: Arb, b: Arb, frame: Bytes, h: Header, now: nat)
    requires |frame| >= HEADER_LEN && IsData(h) && b == a.(session := b.session, ctr := b.ctr)
    ensures Harmless(b, frame, h, now) <==> Harmless(a, frame, h, now)
    ensures Forward(b) <==> Forward(a)
  {
    hide IngestWalk;
  }

  lemma ForwardSame(a: Arb, b: Arb)
    requires b == a.(session := b.session, ctr := b.ctr)
    ensures Forward(b) <==> Forward(a)
  {
  }

  lemma ControlForward(a: Arb, seqNo: nat, now: nat)
    ensures var b := Heartbeat(a, seqNo, now); (Forward(b) <==> Forward(a)) && (Unanchored(a) ==> Unanchored(b)) && b.session == a.session
    ensures var b := Eos(a, seqNo); (Forward(b) <==> Forward(a)) && (Unanchored(a) ==> Unanchored(b)) && b.session == a.session
  {
  }

  /** Every frame of the session keeps the base; a frame keeps the forward law if and only if it is
      harmless. */
  lemma IngestForward(a: Arb, frame: Bytes, feed: nat, now: nat, session: Bytes)
    requires Based(a, session) && InSession(Frame(frame, feed, now), session) && |session| == 10
    ensures var r := Ingest(a, frame, feed, now);
      Based(r, session) && (Forward(a) ==> (Forward(r) <==> HarmlessOp(a, Frame(frame, feed, now))))
  {
    InvIngest(a, frame, feed, now);
    hide Inv, Forward, DataFrame, SessionDispatch, IngestWalk, Eos, Heartbeat, Violate, CountPacket, Harmless;
    var counted := CountPacket(a.ctr, feed, |frame|);
    if |frame| >= HEADER_LEN && a.state != Dead {
      var h := HeaderOf(frame);
      BasedDispatch(a, counted, session);
      var c := SessionDispatch(a.(ctr := counted), session);
      ForwardSame(a, c);
      if IsData(h) {
        HarmlessSame(a, c, frame, h, now);
        DataLeavesInit(c, frame, h, feed, now);
        if Forward(a) { ForwardData(c, frame, h, feed, now); }
      } else {
        ControlForward(c, h.seqNo, now);
      }
    } else {
      IgnoredForward(a, frame, feed, now);
    }
  }

  lemma IgnoredForward(a: Arb, frame: Bytes, feed: nat, now: nat)
    requires |frame| < HEADER_LEN || a.state == Dead
    ensures var r := Ingest(a, frame, feed, now); r == a.(ctr := r.ctr) && (Forward(r) <==> Forward(a))
  {
  }

  lemma AskForward(a: Arb, now: nat, session: Bytes)
    requires Based(a, session)
    ensures Based(RecoveryIntent(a, now).0, session)
    ensures Forward(a) ==> Forward(RecoveryIntent(a, now).0)
  {
    assert Inv(RecoveryIntent(a, now).0);
    if Forward(a) && a.staged != map[] {
      var k :| k in a.staged;
      assert a.maxStaged > a.w;
    }
  }

  lemma SealForward(a: Arb, reason: DeadReason, session: Bytes)
    requires Based(a, session)
    ensures Based(Seal(a, reason), session) && (Forward(Seal(a, reason)) <==> Forward(a))
  {
  }

  /** One operation of the session: from a forward state, exactly the harmless ones lead to one. */
  lemma StepForward(a: Arb, op: Op, session: Bytes)
    requires Based(a, session) && InSession(op, session) && |session| == 10
    ensures Based(Step(a, op), session) && (Forward(a) ==> (Forward(Step(a, op)) <==> HarmlessOp(a, op)))
  {
    hide Ingest, RecoveryIntent, Seal, Based, Forward, InSession, Harmless;
    match op
    case Frame(f, feed, now) => IngestForward(a, f, feed, now, session);
    case Ask(now) => AskForward(a, now, session);
    case Stop(reason) => SealForward(a, reason, session);
  }

  // ---- whole runs ------------------------------------------------------------------------------------

  /** Every operation of the run is harmless at its turn. */
  ghost predicate HarmlessRun(ops: seq<Op>) {
    forall i :: 0 <= i < |ops| ==> HarmlessOp(Run(Fresh([]), ops[..i]), ops[i])
  }

  ghost predicate ForwardRun(ops: seq<Op>) {
    forall i :: 0 <= i <= |ops| ==> Forward(Run(Fresh([]), ops[..i]))
  }

  lemma {:induction false} BasedRun(ops: seq<Op>, session: Bytes)
    requires SingleSession(ops, session) && |session| == 10
    ensures Based(Run(Fresh([]), ops), session)
    decreases |ops|
  {
    if ops == [] {
      InvFresh([]);
    } else {
      var n := |ops| - 1;
      BasedRun(ops[..n], session);
      hide Step, Based, InSession;
      StepForward(Run(Fresh([]), ops[..n]), ops[n], session);
    }
  }

  lemma RunPrefix(ops: seq<Op>, i: nat)
    requires i < |ops|
    ensures Run(Fresh([]), ops[..i + 1]) == Step(Run(Fresh([]), ops[..i]), ops[i])
  {
    hide Step;
    assert ops[..i + 1][..i] == ops[..i] && ops[..i + 1][i] == ops[i];
  }

  /** Of a single-session run of any frames at all: the forward law holds in every state if and only
      if every frame is harmless at its turn. */
  lemma ForwardExactly(ops: seq<Op>, session: Bytes)
    requires SingleSession(ops, session) && |session| == 10
    ensures ForwardRun(ops) <==> HarmlessRun(ops)
  {
    hide Run, Step, Based, InSession, HarmlessOp;
    if HarmlessRun(ops) {
      HarmlessIsForward(ops, session, |ops|);
    }
    if ForwardRun(ops) {
      forall i | 0 <= i < |ops| ensures HarmlessOp(Run(Fresh([]), ops[..i]), ops[i]) {
        BasedRun(ops[..i], session);
        RunPrefix(ops, i);
        StepForward(Run(Fresh([]), ops[..i]), ops[i], session);
      }
    }
  }

  lemma {:induction false} HarmlessIsForward(ops: seq<Op>, session: Bytes, n: nat)
    requires SingleSession(ops, session) && |session| == 10 && n <= |ops| && HarmlessRun(ops)
    ensures forall i :: 0 <= i <= n ==> Forward(Run(Fresh([]), ops[..i]))
    decreases n
  {
    hide Step, Based, InSession, HarmlessOp;
    if n == 0 {
      assert ops[..0] == [];
    } else {
      HarmlessIsForward(ops, session, n - 1);
      BasedRun(ops[..n - 1], session);
      RunPrefix(ops, n - 1);
      StepForward(Run(Fresh([]), ops[..n - 1]), ops[n - 1], session);
    }
  }

  // ---- the upper end of an outstanding request ---------------------------------------------------------

  /** The watermark does not fall, and an outstanding request stays or is retired. */
  ghost predicate Rises(a: Arb, b: Arb) {
    b.w >= a.w && (b.pendingTo == a.pendingTo || b.pendingTo == None)
  }

  lemma RisesSteps(a: Arb, x: nat)
    ensures Rises(a, ClearPassed(a)) && Rises(a, GapEvidence(a, x)) && Rises(a, CheckGapClose(a)) && Rises(a, RetirePending(a))
    ensures Rises(a, Beyond(a, x)) && (x >= a.w ==> Rises(a, a.(w := x)))
  {
  }

  lemma RisesDrain(a: Arb, now: nat)
    ensures Rises(a, Drain(a, now))
  {
    DrainRunForward(a);
    hide DrainRun;
  }

  lemma RisesContiguous(a: Arb, d: Delivery, skip: nat, last: nat, now: nat)
    requires last >= a.w
    ensures Rises(a, ApplyContiguous(a, d, skip, last, now))
  {
    hide ClearPassed, Drain, CheckGapClose, RetirePending, Violate, Outs;
    if d.err == None {
      var b := EmitAll(a.(ctr := a.ctr.(dupMsgs := a.ctr.dupMsgs + skip)), d.msgs).(w := last + 1);
      RisesSteps(b, 0);
      var c := ClearPassed(b).(progressVt := now);
      RisesDrain(c, now);
      RisesSteps(Drain(c, now), 0);
      RisesSteps(CheckGapClose(Drain(c, now)), 0);
    }
  }

  lemma RisesAhead(a: Arb, d: Delivery, first: nat, last: nat, now: nat)
    ensures Rises(a, ApplyAhead(a, d, first, last, now))
  {
    hide GapEvidence, Drain, CheckGapClose, RetirePending, StageAll, Violate;
    var g := GapEvidence(a, first);
    RisesSteps(a, first);
    StageAllKeeps(g, d.msgs);
    if d.err == None {
      var t := Beyond(StageAll(g, d.msgs), last);
      RisesDrain(t, now);
      RisesSteps(Drain(t, now), 0);
      RisesSteps(CheckGapClose(Drain(t, now)), 0);
    }
  }

  lemma RisesData(a: Arb, frame: Bytes, h: Header, feed: nat, now: nat)
    requires |frame| >= HEADER_LEN && IsData(h) && Unanchored(a)
    ensures Rises(a, DataFrame(a, frame, h, feed, now))
  {
    hide ApplyContiguous, ApplyAhead, IngestWalk, Violate, CountDup;
    var first, last := h.seqNo, h.seqNo + h.count - 1;
    if a.state != Ended && last < U64 && (a.state == Init || last >= a.w) {
      var b := Anchor(a, first, now);
      if first <= b.w {
        var skip := Skip(b.w, first, h.count);
        RisesContiguous(b, IngestWalk(frame, first, h.count, skip), skip, last, now);
      } else {
        RisesAhead(b, IngestWalk(frame, first, h.count, 0), first, last, now);
      }
    }
  }

  lemma RisesControl(a: Arb, seqNo: nat, now: nat)
    ensures Rises(a, Heartbeat(a, seqNo, now)) && Rises(a, Eos(a, seqNo))
  {
  }

  lemma RisesIngest(a: Arb, frame: Bytes, feed: nat, now: nat, session: Bytes)
    requires Based(a, session) && InSession(Frame(frame, feed, now), session) && |session| == 10
    ensures Rises(a, Ingest(a, frame, feed, now))
  {
    hide Inv, DataFrame, SessionDispatch, Eos, Heartbeat, Violate, CountPacket;
    if |frame| >= HEADER_LEN && a.state != Dead {
      var h := HeaderOf(frame);
      BasedDispatch(a, CountPacket(a.ctr, feed, |frame|), session);
      var c := SessionDispatch(a.(ctr := CountPacket(a.ctr, feed, |frame|)), session);
      if IsData(h) { RisesData(c, frame, h, feed, now); } else { RisesControl(c, h.seqNo, now); }
    }
  }

  /** An outstanding request ends within one wire request of the watermark. */
  predicate Bounded(a: Arb) {
    a.pendingTo.Some? ==> a.pendingTo.value <= a.w + MAX_WIRE_REQUEST
  }

  lemma BoundedStep(a: Arb, op: Op, session: Bytes)
    requires Based(a, session) && InSession(op, session) && |session| == 10 && Bounded(a)
    ensures Bounded(Step(a, op))
  {
    hide Ingest, Based, InSession;
    match op
    case Frame(f, feed, now) => RisesIngest(a, f, feed, now, session);
    case Ask(_) =>
    case Stop(_) =>
  }

  lemma {:induction false} BoundedRun(ops: seq<Op>, session: Bytes)
    requires SingleSession(ops, session) && |session| == 10
    ensures Bounded(Run(Fresh([]), ops))
    decreases |ops|
  {
    if ops != [] {
      var n := |ops| - 1;
      BoundedRun(ops[..n], session);
      BasedRun(ops[..n], session);
      hide Step, Based, InSession, Bounded;
      BoundedStep(Run(Fresh([]), ops[..n]), ops[n], session);
    }
  }

  // ---- what intents ask for ------------------------------------------------------------------------------

  /** An intent that asks from the watermark for at least one and at most 65535 messages. */
  predicate PointsForward(a: Arb, intent: Intent) {
    intent.from == a.w < intent.toExcl <= a.w + MAX_WIRE_REQUEST
  }

  /** Nothing is outstanding, and something is staged and stalled with the staged maximum not above
      the watermark; or what is outstanding ends at or below the watermark, and either a target
      beyond it does too, or there is none beyond it and a repeat is due. */
  predicate AsksBackward(a: Arb, now: nat) {
    match a.pendingTo
    case None => a.staged != map[] && a.maxStaged <= a.w && Since(now, a.progressVt) >= TRIGGER_NS
    case Some(p) =>
      var target := Target(a, now);
      p <= a.w
      && (if target.Some? && target.value > p then target.value <= a.w else Since(now, a.lastIntentVt) >= RESUGGEST_NS)
  }

  lemma BackwardExactly(a: Arb, now: nat)
    requires Bounded(a)
    ensures var r := RecoveryIntent(a, now).1;
      r.Some? && !PointsForward(a, r.value) <==> AsksBackward(a, now)
  {
  }

  /** After every single-session run of any frames, calls and stops: the next call is answered with an
      intent that does not point forward exactly when the state asks backward. */
  lemma IntentExactly(ops: seq<Op>, session: Bytes, now: nat)
    requires SingleSession(ops, session) && |session| == 10
    ensures var a := Run(Fresh([]), ops);
      var r := RecoveryIntent(a, now).1;
      r.Some? && !PointsForward(a, r.value) <==> AsksBackward(a, now)
  {
    hide Run, Bounded;
    BoundedRun(ops, session);
    BackwardExactly(Run(Fresh([]), ops), now);
  }

  /** Every intent the run returns points forward. */
  ghost predicate AllPointForward(ops: seq<Op>) {
    forall i :: 0 <= i < |ops| && ops[i].Ask? ==> ForwardAt(ops, i)
  }

  ghost predicate ForwardAt(ops: seq<Op>, i: nat)
    requires i < |ops| && ops[i].Ask?
  {
    var a := Run(Fresh([]), ops[..i]);
    var r := RecoveryIntent(a, ops[i].at).1;
    r.Some? ==> PointsForward(a, r.value)
  }

  /** Of a single-session run of any frames: every intent it returns points forward if and only if no
      call meets a state that asks backward. */
  lemma AllForwardExactly(ops: seq<Op>, session: Bytes)
    requires SingleSession(ops, session) && |session| == 10
    ensures AllPointForward(ops)
      <==> forall i :: 0 <= i < |ops| && ops[i].Ask? ==> !AsksBackward(Run(Fresh([]), ops[..i]), ops[i].at)
  {
    hide Run, AsksBackward, RecoveryIntent;
    forall i | 0 <= i < |ops| && ops[i].Ask?
      ensures ForwardAt(ops, i) <==> !AsksBackward(Run(Fresh([]), ops[..i]), ops[i].at)
    {
      IntentExactly(ops[..i], session, ops[i].at);
    }
  }

  lemma ForwardCovers(a: Arb)
    requires Inv(a) && Forward(a) && a.staged != map[]
    ensures a.maxStaged > a.w
  {
    var k :| k in a.staged;
  }

  /** In every single-session run of harmless frames, every intent points forward. */
  lemma IntentsPointForward(ops: seq<Op>, session: Bytes, now: nat)
    requires SingleSession(ops, session) && |session| == 10 && HarmlessRun(ops)
    ensures var a := Run(Fresh([]), ops);
      var r := RecoveryIntent(a, now).1;
      r.Some? ==> PointsForward(a, r.value)
  {
    hide Run, HarmlessOp;
    ForwardExactly(ops, session);
    assert ops[..|ops|] == ops;
    BasedRun(ops, session);
    IntentExactly(ops, session, now);
    var a := Run(Fresh([]), ops);
    if a.staged != map[] { ForwardCovers(a); }
  }

  /** Frames whose blocks are all valid are harmless. */
  lemma ValidIsHarmless(a: Arb, frame: Bytes, h: Header, now: nat)
    requires |frame| >= HEADER_LEN && IsData(h) && IngestWalk(frame, h.seqNo, h.count, 0).err == None
    ensures Harmless(a, frame, h, now)
  {
    var b := Anchor(a, h.seqNo, now);
    WalkNoError(frame, h.seqNo, h.count, SkipAt(b, h.seqNo, h.count));
    hide IngestWalk, Tolerable;
  }

  /** Validity is needed: a frame ahead of a contiguous sequencer that turns invalid after its first
      message is staged without raising the staged maximum, and the stall trigger asks backwards. */
  lemma InvalidFrameAsksBackwards(a: Arb, frame: Bytes, feed: nat, now: nat)
    requires Inv(a) && a.state == Contig && a.pendingTo == None && a.maxStaged <= a.w
    requires |frame| >= HEADER_LEN && IsData(HeaderOf(frame)) && HeaderOf(frame).session == a.session && a.session != NO_SESSION
    requires var h := HeaderOf(frame); a.w < h.seqNo < a.w + WINDOW && h.seqNo + h.count - 1 < U64
    requires var h := HeaderOf(frame); var d := IngestWalk(frame, h.seqNo, h.count, 0); d.err.Some? && d.msgs != []
    ensures var b := Ingest(a, frame, feed, now);
      var r := RecoveryIntent(b, a.progressVt + TRIGGER_NS).1;
      r.Some? && r.value.toExcl <= r.value.from == a.w
  {
    var h := HeaderOf(frame);
    var d := IngestWalk(frame, h.seqNo, h.count, 0);
    WalkDelivers(frame, h.seqNo, h.count, 0);
    var c := a.(ctr := CountPacket(a.ctr, feed, |frame|));
    var g := GapEvidence(c, h.seqNo);
    StageAllKeys(g, d.msgs);
    StageAllKeeps(g, d.msgs);
    hide StageAll, HeaderOf, IngestWalk, CountPacket, Violate, Inv, ApplyContiguous;
    assert d.msgs[0].seqNo == h.seqNo && StagesKey(g.w, d.msgs, h.seqNo);
    assert h.seqNo in StageAll(g, d.msgs).staged;
  }

  // ---- spacing -------------------------------------------------------------------------------------

  /** Operation i of the run asked and was given an intent. */
  ghost predicate IssuedAt(a0: Arb, ops: seq<Op>, i: nat)
    requires i < |ops|
  {
    ops[i].Ask? && RecoveryIntent(Run(a0, ops[..i]), ops[i].at).1.Some?
  }

  lemma IngestKeepsIntentTime(a: Arb, frame: Bytes, feed: nat, now: nat)
    ensures Ingest(a, frame, feed, now).lastIntentVt == a.lastIntentVt
  {
    hide DataFrame, SessionDispatch, Heartbeat, Eos, Violate, CountPacket;
    var b := a.(ctr := CountPacket(a.ctr, feed, |frame|));
    if |frame| >= HEADER_LEN && a.state != Dead {
      var h := HeaderOf(frame);
      ControlTime(b, h.session, 0, now);
      var c := SessionDispatch(b, h.session);
      ControlTime(c, h.session, h.seqNo, now);
      if IsData(h) { SameData(c, frame, h, feed, now); }
    }
  }

  lemma ControlTime(a: Arb, session: Bytes, seqNo: nat, now: nat)
    ensures SessionDispatch(a, session).lastIntentVt == a.lastIntentVt
    ensures Heartbeat(a, seqNo, now).lastIntentVt == a.lastIntentVt
    ensures Eos(a, seqNo).lastIntentVt == a.lastIntentVt
  {
  }

  lemma AskTime(a: Arb, now: nat)
    ensures var r := RecoveryIntent(a, now);
      r.0.lastIntentVt == if r.1.Some? then now else a.lastIntentVt
  {
  }

  /** The stored time is that of the last intent issued. */
  lemma {:induction false} LastIssued(a0: Arb, ops: seq<Op>, i: nat, j: nat)
    requires j < i <= |ops| && IssuedAt(a0, ops, j)
    requires forall k :: j < k < i ==> !IssuedAt(a0, ops, k)
    ensures Run(a0, ops[..i]).lastIntentVt == ops[j].at
    decreases i
  {
    hide Ingest, RecoveryIntent;
    var n := i - 1;
    assert ops[..i][..n] == ops[..n] && ops[..i][n] == ops[n];
    var a := Run(a0, ops[..n]);
    if j < n { LastIssued(a0, ops, n, j); }
    StepTime(a, ops[n]);
    assert n == j || !IssuedAt(a0, ops, n);
  }

  lemma StepTime(a: Arb, op: Op)
    ensures Step(a, op).lastIntentVt == if op.Ask? && RecoveryIntent(a, op.at).1.Some? then op.at else a.lastIntentVt
  {
    hide Ingest, RecoveryIntent;
    match op
    case Frame(f, feed, now) => IngestKeepsIntentTime(a, f, feed, now);
    case Ask(now) => AskTime(a, now);
    case Stop(_) =>
  }

  /** In every run at all, an intent that does not widen an outstanding request comes at least
      250 microseconds after the intent before it. */
  lemma RepeatsAreSpaced(a0: Arb, ops: seq<Op>, i: nat, j: nat)
    requires j < i < |ops| && IssuedAt(a0, ops, j) && IssuedAt(a0, ops, i)
    requires forall k :: j < k < i ==> !IssuedAt(a0, ops, k)
    requires var a := Run(a0, ops[..i]);
      a.pendingTo.Some? && RecoveryIntent(a, ops[i].at).1.value.toExcl <= a.pendingTo.value
    ensures ops[i].at >= ops[j].at + RESUGGEST_NS
  {
    hide Run;
    LastIssued(a0, ops, i, j);
  }
}
