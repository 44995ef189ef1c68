// What every operation of the sequencer keeps: the window invariant, the gap lifecycle, and
// that a closed gap leaves nothing staged.
module ArbiterInvariant {
  import opened Bytes
  import opened Itch
  import opened Mold
  import opened Arbiter

  /** Staged sequence numbers lie strictly inside the window and hold valid payloads. */
  ghost predicate InWindow(a: Arb) {
    forall k :: k in a.staged ==> a.w < k < a.w + WINDOW && k < U64 && Validate(a.staged[k]) == Valid
  }

  /** A staged number beyond the evidence mark has its predecessor staged too. */
  ghost predicate Chained(a: Arb) {
    forall k :: k in a.staged ==> k <= a.hwm || k - 1 in a.staged
  }

  ghost predicate Inv(a: Arb) {
    && InWindow(a)
    && Chained(a)
    && a.w <= U64
    && |a.session| == 10
    && (a.staged != map[] ==> a.gapActive)
    && (a.gapActive ==> a.hwm > a.w)
    && (a.state == Init || a.state == Contig ==> !a.gapActive)
    && (a.state == Gap ==> a.gapActive)
  }

  /** While the watermark moves: the message at the watermark itself may be staged. */
  ghost predicate Moving(a: Arb) {
    && (forall k :: k in a.staged ==> a.w <= k < a.w + WINDOW && k < U64 && Validate(a.staged[k]) == Valid)
    && (forall k :: k in a.staged ==> k <= a.hwm || k - 1 in a.staged || k == a.w)
    && a.w <= U64
    && |a.session| == 10
    && (a.staged != map[] ==> a.gapActive)
    && (a.state == Init || a.state == Contig ==> !a.gapActive)
    && (a.state == Gap ==> a.gapActive)
  }

  // ---- the pieces -----------------------------------------------------------------------------

  lemma InvFresh(log: seq<Out>)
    ensures Inv(Fresh(log))
  {
  }

  lemma InvGapEvidence(a: Arb, x: nat)
    requires Inv(a) && (a.state == Contig || a.state == Gap || a.state == EosPersist)
    ensures Inv(GapEvidence(a, x)) && GapEvidence(a, x).w == a.w
  {
  }

  lemma InvSessionDispatch(a: Arb, next: Bytes)
    requires Inv(a) && |next| == 10
    ensures Inv(SessionDispatch(a, next))
  {
  }

  lemma InvHeartbeat(a: Arb, seqNo: nat, now: nat)
    requires Inv(a)
    ensures Inv(Heartbeat(a, seqNo, now))
  {
  }

  lemma InvEos(a: Arb, announced: nat)
    requires Inv(a)
    ensures Inv(Eos(a, announced))
  {
  }

  /** Draining moves the watermark up, shrinks the window and extends the trace. */
  lemma {:induction false} DrainRunForward(a: Arb)
    ensures var d := DrainRun(a);
      && d.w >= a.w && d == a.(w := d.w, staged := d.staged, log := d.log)
      && d.staged.Keys <= a.staged.Keys && a.log <= d.log
    decreases |a.staged|
  {
    if a.w in a.staged {
      DropOne(a.staged, a.w);
      DrainRunForward(a.(w := a.w + 1, staged := a.staged - {a.w}, log := a.log + [Emit(a.gen, a.w, a.staged[a.w])]));
    }
  }

  lemma {:induction false} InvDrainRun(a: Arb)
    requires Moving(a)
    ensures var d := DrainRun(a); Moving(d) && d.w !in d.staged && d.w >= a.w
    ensures var d := DrainRun(a); d == a.(w := d.w, staged := d.staged, log := d.log)
    ensures var d := DrainRun(a); d.staged.Keys <= a.staged.Keys
    decreases |a.staged|
  {
    if a.w in a.staged {
      var b := a.(w := a.w + 1, staged := a.staged - {a.w}, log := a.log + [Emit(a.gen, a.w, a.staged[a.w])]);
      assert |b.staged| < |a.staged| by { DropOne(a.staged, a.w); }
      InvDrainRun(b);
    }
  }

  lemma DropOne(m: map<nat, Bytes>, k: nat)
    requires k in m
    ensures |m - {k}| < |m|
  {
    assert (m - {k}).Keys == m.Keys - {k};
  }

  lemma InvDrain(a: Arb, now: nat)
    requires Moving(a)
    ensures var d := Drain(a, now); Moving(d) && d.w !in d.staged && d.w >= a.w && d.hwm == a.hwm && d.gapActive == a.gapActive
  {
    InvDrainRun(a);
  }

  lemma InvClearPassed(a: Arb, w: nat)
    requires Inv(a) && a.w < w <= U64
    ensures Moving(ClearPassed(a.(w := w)))
  {
  }

  /** A closing gap leaves the window empty: everything staged would chain down to the watermark. */
  lemma {:induction false} NothingAbove(a: Arb, k: nat)
    requires forall j :: j in a.staged ==> a.w <= j && (j <= a.hwm || j - 1 in a.staged || j == a.w)
    requires a.w !in a.staged && a.w >= a.hwm
    ensures k !in a.staged
    decreases k
  {
    if k in a.staged {
      NothingAbove(a, k - 1);
    }
  }

  lemma InvClose(a: Arb)
    requires Moving(a) && a.w !in a.staged
    ensures Inv(CheckGapClose(a))
    ensures a.gapActive && !CheckGapClose(a).gapActive ==> a.staged == map[]
  {
    if a.gapActive && a.w >= a.hwm {
      forall k ensures k !in a.staged {
        NothingAbove(a, k);
      }
      assert a.staged == map[];
    }
  }

  lemma {:induction false} InvStageAll(a: Arb, ms: seq<Msg>, first: nat)
    requires Inv(a) && a.gapActive && first <= a.hwm && first > a.w
    requires FromFrame(ms, first) && first + |ms| <= U64
    ensures var s := StageAll(a, ms);
      && Inv(s) && s == a.(staged := s.staged, ctr := s.ctr)
      && forall k :: first <= k < first + |ms| && k < a.w + WINDOW ==> k in s.staged
    decreases |ms|
  {
    if ms != [] {
      var n := |ms| - 1;
      InvStageAll(a, ms[..n], first);
      InvStageOne(StageAll(a, ms[..n]), ms[n], first);
    }
  }

  /** Staging touches nothing but the window and the counters. */
  lemma {:induction false} StageAllKeeps(a: Arb, ms: seq<Msg>)
    ensures var s := StageAll(a, ms); s == a.(staged := s.staged, ctr := s.ctr)
    decreases |ms|
  {
    if ms != [] { StageAllKeeps(a, ms[..|ms| - 1]); }
  }

  lemma InvStageOne(a: Arb, m: Msg, first: nat)
    requires Inv(a) && a.gapActive && a.w < first <= m.seqNo < U64 && Validate(m.data) == Valid
    requires m.seqNo <= a.hwm || m.seqNo >= a.w + WINDOW || m.seqNo - 1 in a.staged
    ensures Inv(StageOne(a, m))
  {
  }

  /** Messages as a frame delivers them: consecutive and valid. */
  ghost predicate FromFrame(ms: seq<Msg>, from: nat) {
    forall i :: 0 <= i < |ms| ==> ms[i].seqNo == from + i && Validate(ms[i].data) == Valid
  }

  // ---- data frames -------------------------------------------------------------------------------

  lemma WalkDelivers(frame: Bytes, first: nat, count: nat, skip: nat)
    requires |frame| >= HEADER_LEN
    ensures FromFrame(IngestWalk(frame, first, count, skip).msgs, first + skip)
    ensures |IngestWalk(frame, first, count, skip).msgs| <= count
  {
    hide Validate;
    var w := FrameWalk(frame, count);
    Delivered(frame, first, w.blocks, skip, w.err);
    var ms := Deliver(frame, first, w.blocks, skip, w.err).msgs;
    if ms != [] {
      assert ms[|ms| - 1].seqNo == first + skip + (|ms| - 1);
    }
  }

  lemma InvRetire(a: Arb)
    requires Inv(a)
    ensures Inv(RetirePending(a))
  {
  }

  lemma InvAdvance(a: Arb, last: nat, now: nat)
    requires Inv(a) && a.w <= last < U64
    ensures Inv(Advance(a, last, now))
  {
    hide Inv, CheckGapClose, Drain, ClearPassed;
    InvClearPassed(a, last + 1);
    var c := ClearPassed(a.(w := last + 1));
    MovingProgress(c, now);
    InvDrain(c.(progressVt := now), now);
    InvClose(Drain(c.(progressVt := now), now));
  }

  lemma MovingProgress(a: Arb, now: nat)
    requires Moving(a)
    ensures Moving(a.(progressVt := now))
  {
  }

  lemma InvEmit(a: Arb, ms: seq<Msg>, skip: nat)
    requires Inv(a)
    ensures Inv(EmitAll(a.(ctr := a.ctr.(dupMsgs := a.ctr.dupMsgs + skip)), ms))
  {
  }

  lemma InvCounters(a: Arb, c: Counters)
    requires Inv(a)
    ensures Inv(a.(ctr := c))
  {
  }

  lemma InvContiguous(a: Arb, d: Delivery, skip: nat, last: nat, now: nat)
    requires Inv(a) && a.w <= last < U64
    ensures Inv(ApplyContiguous(a, d, skip, last, now))
  {
    hide Inv, Advance, RetirePending;
    InvEmit(a, d.msgs, skip);
    var b := EmitAll(a.(ctr := a.ctr.(dupMsgs := a.ctr.dupMsgs + skip)), d.msgs);
    if d.err == None {
      InvAdvance(b, last, now);
      InvRetire(Advance(b, last, now));
    } else {
      InvCounters(b, Violate(b.ctr, d.err.value));
    }
  }

  /** The frame's end beyond the window is evidence too. */
  function Beyond(a: Arb, last: nat): Arb {
    a.(hwm := if last >= a.w + WINDOW then Max(a.hwm, last + 1) else a.hwm, maxStaged := Max(a.maxStaged, last))
  }

  lemma MovingBeyond(a: Arb, last: nat)
    requires Inv(a)
    ensures Moving(Beyond(a, last))
  {
  }

  lemma InvAhead(a: Arb, d: Delivery, first: nat, last: nat, now: nat)
    requires Inv(a) && first > a.w && last < U64 && FromFrame(d.msgs, first) && first + |d.msgs| <= last + 1
    requires a.state == Contig || a.state == Gap || a.state == EosPersist
    ensures Inv(ApplyAhead(a, d, first, last, now))
  {
    var g := GapEvidence(a, first);
    InvGapEvidence(a, first);
    assert g.gapActive && first <= g.hwm;
    hide Inv, GapEvidence, StageAll, RetirePending, CheckGapClose, Drain;
    InvStageAll(g, d.msgs, first);
    var s := StageAll(g, d.msgs);
    if d.err == None {
      MovingBeyond(s, last);
      var t := Beyond(s, last);
      InvDrain(t, now);
      InvClose(Drain(t, now));
      InvRetire(CheckGapClose(Drain(t, now)));
    } else {
      InvCounters(s, Violate(s.ctr, d.err.value));
    }
  }

  lemma InvDataFrame(a: Arb, frame: Bytes, h: Header, feed: nat, now: nat)
    requires Inv(a) && a.state != Dead && |frame| >= HEADER_LEN && IsData(h)
    ensures Inv(DataFrame(a, frame, h, feed, now))
  {
    hide ApplyContiguous, ApplyAhead, IngestWalk;
    var first, last := h.seqNo, h.seqNo + h.count - 1;
    if a.state != Ended && last < U64 && (a.state == Init || last >= a.w) {
      InvAnchor(a, first, now);
      hide Inv, Anchor;
      var b := Anchor(a, first, now);
      if first <= b.w {
        var skip := Skip(b.w, first, h.count);
        InvContiguous(b, IngestWalk(frame, first, h.count, skip), skip, last, now);
      } else {
        WalkDelivers(frame, first, h.count, 0);
        InvAhead(b, IngestWalk(frame, first, h.count, 0), first, last, now);
      }
    }
  }

  lemma InvAnchor(a: Arb, first: nat, now: nat)
    requires Inv(a) && a.state != Dead && a.state != Ended && first < U64
    ensures var b := Anchor(a, first, now);
      && Inv(b) && (b.state == Contig || b.state == Gap || b.state == EosPersist)
      && (a.state == Init ==> b.w == first) && (a.state != Init ==> b == a)
  {
  }

  lemma InvIngest(a: Arb, frame: Bytes, feed: nat, now: nat)
    requires Inv(a)
    ensures Inv(Ingest(a, frame, feed, now))
  {
    hide DataFrame, Heartbeat, Eos, SessionDispatch;
    var b := a.(ctr := CountPacket(a.ctr, feed, |frame|));
    if |frame| >= HEADER_LEN && a.state != Dead {
      var h := HeaderOf(frame);
      InvSessionDispatch(b, h.session);
      var c := SessionDispatch(b, h.session);
      DispatchAlive(b, h.session);
      if h.count == HEARTBEAT_COUNT {
        InvHeartbeat(c, h.seqNo, now);
      } else if h.count == EOS_COUNT {
        InvEos(c, h.seqNo);
      } else {
        InvDataFrame(c, frame, h, feed, now);
      }
    }
  }

  lemma DispatchAlive(a: Arb, next: Bytes)
    requires a.state != Dead
    ensures SessionDispatch(a, next).state != Dead
  {
  }

  lemma InvStep(a: Arb, op: Op)
    requires Inv(a)
    ensures Inv(Step(a, op))
  {
    match op
    case Frame(f, feed, now) => InvIngest(a, f, feed, now);
    case Ask(_) =>
    case Stop(_) =>
  }

  /** Every reachable state keeps the invariant, whatever frames arrive. */
  lemma {:induction false} InvRun(a: Arb, ops: seq<Op>)
    requires Inv(a)
    ensures Inv(Run(a, ops))
    decreases |ops|
  {
    if ops != [] {
      InvRun(a, ops[..|ops| - 1]);
      InvStep(Run(a, ops[..|ops| - 1]), ops[|ops| - 1]);
    }
  }

  /** In every reachable state: contiguous means no gap and nothing staged, and an open gap has
      evidence above the watermark. */
  lemma Reachable(log: seq<Out>, ops: seq<Op>)
    ensures var a := Run(Fresh(log), ops);
      && (a.state == Contig ==> !a.gapActive && a.staged == map[])
      && (a.gapActive ==> a.hwm > a.w)
      && (a.staged != map[] ==> a.gapActive)
      && (forall k :: k in a.staged ==> a.w < k < a.w + WINDOW)
  {
    InvFresh(log);
    InvRun(Fresh(log), ops);
  }
}
