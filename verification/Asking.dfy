// When a recovery call is answered, and for what.
module Asking {
  import opened Bytes
  import opened Itch
  import opened Mold
  import opened Arbiter
  import opened ArbiterInvariant
  import opened Effects
  import opened Intents

  /** 512 numbers or more between the watermark and the highest one staged. */
  predicate Backlog(a: Arb) {
    a.maxStaged >= a.w + 512
  }

  /** Something is staged, and the watermark has stood still for 250 microseconds. */
  predicate Stalled(a: Arb, now: nat) {
    a.staged != map[] && now >= a.progressVt + 250000
  }

  /** A heartbeat ahead of the watermark is 250 microseconds old. */
  predicate Heard(a: Arb, now: nat) {
    a.hbSeq > a.w && now >= a.hbVt + 250000
  }

  /** What there is to ask for: up to the highest number staged, else up to the heartbeat's; never more
      than one request can carry. */
  function Wanted(a: Arb, now: nat): (upTo: Option<nat>)
    ensures upTo.Some? <==> Backlog(a) || Stalled(a, now) || Heard(a, now)
  {
    if Backlog(a) || Stalled(a, now) then Some(if a.maxStaged <= a.w + 65535 then a.maxStaged else a.w + 65535)
    else if Heard(a, now) then Some(if a.hbSeq <= a.w + 65535 then a.hbSeq else a.w + 65535)
    else None
  }

  /** Something is wanted and nothing outstanding covers it. */
  predicate News(a: Arb, now: nat) {
    Wanted(a, now).Some? && (a.pendingTo == None || Wanted(a, now).value > a.pendingTo.value)
  }

  /** Something is outstanding, and the last intent is 250 microseconds old. */
  predicate Due(a: Arb, now: nat) {
    a.pendingTo.Some? && now >= a.lastIntentVt + 250000
  }

  /** The answer r to a call leaves b: news is asked for at once, what is outstanding again when due, both
      from the watermark; every answer is remembered with its time, and no answer changes nothing. */
  predicate Answers(a: Arb, now: nat, r: Option<Intent>, b: Arb) {
    && (r.Some? <==> News(a, now) || Due(a, now))
    && (News(a, now) ==> r == Some(Intent(a.w, Wanted(a, now).value)))
    && (!News(a, now) && Due(a, now) ==> r == Some(Intent(a.w, a.pendingTo.value)))
    && b == if r == None then a
            else a.(pendingTo := Some(r.value.toExcl), lastIntentVt := now,
                    ctr := a.ctr.(intentsIssued := a.ctr.intentsIssued + 1))
  }

  /** Every call in every state is answered so. */
  lemma AskExactly(a: Arb, now: nat)
    ensures Answers(a, now, RecoveryIntent(a, now).1, RecoveryIntent(a, now).0)
  {
  }

  // ---- the clocks over a run --------------------------------------------------------------------------

  /** The step raised the watermark, or anchored it. */
  ghost predicate Moves(a: Arb, b: Arb) {
    b.w > a.w || (a.state == Init && b.state == Contig)
  }

  /** The time of the last step that moved the watermark. */
  ghost function LastMove(ops: seq<Op>): nat
    decreases |ops|
  {
    if ops == [] then 0
    else
      var n := |ops| - 1;
      var a := Run(Fresh([]), ops[..n]);
      if ops[n].Frame? && Moves(a, Step(a, ops[n])) then ops[n].at else LastMove(ops[..n])
  }

  /** A heartbeat that counts: before the first data frame, or ahead of a live watermark. */
  predicate Beats(a: Arb, op: Op) {
    op.Frame? && |op.bytes| >= 20 && HeaderOf(op.bytes).count == 0
    && (a.state == Init || ((a.state == Contig || a.state == Gap || a.state == EosPersist) && HeaderOf(op.bytes).seqNo > a.w))
  }

  /** Number and time of the last heartbeat that counted. */
  ghost function LastBeat(ops: seq<Op>): (nat, nat)
    decreases |ops|
  {
    if ops == [] then (0, 0)
    else
      var n := |ops| - 1;
      var a, op := Run(Fresh([]), ops[..n]), ops[n];
      if Beats(a, op) then (HeaderOf(op.bytes).seqNo, op.at) else LastBeat(ops[..n])
  }

  ghost predicate Clocked(a: Arb, b: Arb, now: nat) {
    && b.w >= a.w
    && b.progressVt == (if Moves(a, b) then now else a.progressVt)
    && b.hbSeq == a.hbSeq && b.hbVt == a.hbVt
  }

  lemma ClockedContiguous(a: Arb, d: Delivery, skip: nat, last: nat, now: nat)
    requires Inv(a) && a.w <= last && (a.state == Contig || a.state == Gap || a.state == EosPersist)
    ensures var b := ApplyContiguous(a, d, skip, last, now);
      && b.w >= a.w && b.progressVt == (if b.w > a.w then now else a.progressVt)
      && b.hbSeq == a.hbSeq && b.hbVt == a.hbVt && (b.state == a.state || b.state == Contig)
  {
    if d.err == None { ContiguousExactly(a, d, skip, last, now); hide ApplyContiguous; }
    hide Inv, Violate, Outs, StagedOuts, KeptFrom;
  }

  lemma ClockedAhead(a: Arb, d: Delivery, first: nat, last: nat, now: nat)
    requires Inv(a) && first > a.w && FromFrame(d.msgs, first) && (d.err == None ==> d.msgs != [] && |d.msgs| == last + 1 - first)
    ensures var b := ApplyAhead(a, d, first, last, now);
      b.w == a.w && b.progressVt == a.progressVt && b.hbSeq == a.hbSeq && b.hbVt == a.hbVt
  {
    if d.err == None {
      NumberedOn(d.msgs, first);
      AheadExactly(a, d, first, now);
      hide ApplyAhead;
    } else {
      StageAllKeeps(GapEvidence(a, first), d.msgs);
      hide StageAll;
    }
    hide Inv, Violate, FromFrame, StagedToo;
  }

  lemma ClockedData(a: Arb, frame: Bytes, h: Header, feed: nat, now: nat)
    requires Inv(a) && Unanchored(a) && a.state != Dead && |frame| >= HEADER_LEN && IsData(h)
    ensures Clocked(a, DataFrame(a, frame, h, feed, now), now)
  {
    hide IngestWalk, ApplyContiguous, ApplyAhead, Violate, CountDup, Inv;
    var first, last := h.seqNo, h.seqNo + h.count - 1;
    if a.state != Ended && last < U64 && (a.state == Init || last >= a.w) {
      InvAnchor(a, first, now);
      var c := Anchor(a, first, now);
      if first <= c.w {
        ClockedContiguous(c, IngestWalk(frame, first, h.count, Skip(c.w, first, h.count)), Skip(c.w, first, h.count), last, now);
      } else {
        WalkDelivers(frame, first, h.count, 0);
        WalkFull(frame, first, h.count);
        ClockedAhead(c, IngestWalk(frame, first, h.count, 0), first, last, now);
      }
    }
  }

  lemma WalkFull(frame: Bytes, first: nat, count: nat)
    requires |frame| >= HEADER_LEN
    ensures IngestWalk(frame, first, count, 0).err == None ==> |IngestWalk(frame, first, count, 0).msgs| == count
  {
    if IngestWalk(frame, first, count, 0).err == None { LaterFree(frame, first, count, 0); }
    hide IngestWalk;
  }


  lemma FrameClocks(a: Arb, op: Op, session: Bytes)
    requires Based(a, session) && InSession(op, session) && |session| == 10
    ensures var b := Step(a, op);
      && b.w >= a.w
      && b.progressVt == (if op.Frame? && Moves(a, b) then op.at else a.progressVt)
      && (if Beats(a, op) then b.hbSeq == HeaderOf(op.bytes).seqNo && b.hbVt == op.at else b.hbSeq == a.hbSeq && b.hbVt == a.hbVt)
  {
    hide Inv, DataFrame, SessionDispatch, Heartbeat, Eos, Violate, CountPacket, HeaderOf;
    match op
    case Frame(f, feed, now) =>
      if |f| >= HEADER_LEN && a.state != Dead {
        BasedDispatch(a, CountPacket(a.ctr, feed, |f|), session);
        var c := SessionDispatch(a.(ctr := CountPacket(a.ctr, feed, |f|)), session);
        var h := HeaderOf(f);
        if IsData(h) {
          ClockedData(c, f, h, feed, now);
        } else if h.count == HEARTBEAT_COUNT {
          HeartbeatExactly(c, h.seqNo, now);
        } else {
          EosClock(c, h.seqNo);
        }
      }
    case Ask(now) => AskExactly(a, now); hide RecoveryIntent;
    case Stop(_) =>
  }

  lemma EosClock(a: Arb, announced: nat)
    ensures var b := Eos(a, announced);
      b.w == a.w && b.progressVt == a.progressVt && b.hbSeq == a.hbSeq && b.hbVt == a.hbVt && (b.state == Contig ==> a.state == Contig)
  {
  }

  /** After every single-session run the progress clock is the time the watermark last moved, and what is
      kept of heartbeats is the last that counted. */
  lemma {:induction false} RunClocks(ops: seq<Op>, session: Bytes)
    requires SingleSession(ops, session) && |session| == 10
    ensures var a := Run(Fresh([]), ops); a.progressVt == LastMove(ops) && (a.hbSeq, a.hbVt) == LastBeat(ops)
    decreases |ops|
  {
    if ops != [] {
      var n := |ops| - 1;
      RunClocks(ops[..n], session);
      BasedRun(ops[..n], session);
      assert InSession(ops[n], session);
      hide Based, Step, InSession, Beats, Moves, HeaderOf;
      FrameClocks(Run(Fresh([]), ops[..n]), ops[n], session);
    }
  }

  // ---- calls after a run --------------------------------------------------------------------------------

  /** With nothing outstanding, a message staged 512 or more above the watermark is asked for at once. */
  lemma BacklogAnswered(ops: seq<Op>, session: Bytes, now: nat, k: nat)
    requires SingleSession(ops, session) && |session| == 10 && HarmlessRun(ops)
    requires var a := Run(Fresh([]), ops); a.pendingTo == None && k in a.staged && k >= a.w + 512
    ensures var a := Run(Fresh([]), ops);
      var r := RecoveryIntent(a, now).1;
      r.Some? && r.value.from == a.w && k <= r.value.toExcl <= a.w + 65535
  {
    Covered(ops, session, k);
    AskExactly(Run(Fresh([]), ops), now);
    hide Run, HarmlessOp, InSession, RecoveryIntent;
  }

  lemma Covered(ops: seq<Op>, session: Bytes, k: nat)
    requires SingleSession(ops, session) && |session| == 10 && HarmlessRun(ops)
    requires k in Run(Fresh([]), ops).staged
    ensures var a := Run(Fresh([]), ops); a.w < k <= a.maxStaged && k < a.w + 1024
  {
    hide Run, HarmlessOp, InSession;
    ForwardExactly(ops, session);
    assert ops[..|ops|] == ops;
    BasedRun(ops, session);
  }

  /** With nothing outstanding, whatever is staged is asked for once the watermark has not moved for 250
      microseconds. */
  lemma StalledAnswered(ops: seq<Op>, session: Bytes, now: nat, k: nat)
    requires SingleSession(ops, session) && |session| == 10 && HarmlessRun(ops)
    requires var a := Run(Fresh([]), ops); a.pendingTo == None && k in a.staged
    requires now >= LastMove(ops) + 250000
    ensures var a := Run(Fresh([]), ops);
      var r := RecoveryIntent(a, now).1;
      r.Some? && r.value.from == a.w && k <= r.value.toExcl <= a.w + 65535
  {
    Covered(ops, session, k);
    RunClocks(ops, session);
    AskExactly(Run(Fresh([]), ops), now);
    hide Run, HarmlessOp, InSession, RecoveryIntent, LastMove, LastBeat;
  }

  /** With nothing outstanding, a heartbeat still ahead of the watermark 250 microseconds later is asked
      for, or more than it. */
  lemma BeatAnswered(ops: seq<Op>, session: Bytes, now: nat)
    requires SingleSession(ops, session) && |session| == 10 && HarmlessRun(ops)
    requires var a := Run(Fresh([]), ops); a.pendingTo == None && LastBeat(ops).0 > a.w
    requires now >= LastBeat(ops).1 + 250000
    ensures var a := Run(Fresh([]), ops);
      var r := RecoveryIntent(a, now).1;
      && r.Some? && r.value.from == a.w < r.value.toExcl
      && (a.staged == map[] && !Backlog(a) ==> r.value.toExcl == if LastBeat(ops).0 <= a.w + 65535 then LastBeat(ops).0 else a.w + 65535)
  {
    RunClocks(ops, session);
    IntentsPointForward(ops, session, now);
    AskExactly(Run(Fresh([]), ops), now);
    hide Run, HarmlessOp, InSession, RecoveryIntent, LastMove, LastBeat;
  }
}
