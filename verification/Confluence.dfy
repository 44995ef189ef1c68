// Confluence: whatever the arrival order, overlap or feed, frames that agree with one stream
// of messages come out as exactly that stream, once each and in order, with heartbeats, frames too
// short for a header and recovery calls anywhere between them.
module Confluence {
  import opened Bytes
  import opened Itch
  import opened Mold
  import opened Arbiter
  import opened ArbiterInvariant

  /** One arrival: a frame on a feed at a time. */
  datatype Arrival = Arrival(frame: Bytes, feed: nat, at: nat)

  function First(x: Arrival): nat
    requires |x.frame| >= HEADER_LEN
  {
    HeaderOf(x.frame).seqNo
  }

  function Last(x: Arrival): nat
    requires |x.frame| >= HEADER_LEN && IsData(HeaderOf(x.frame))
  {
    HeaderOf(x.frame).seqNo + HeaderOf(x.frame).count - 1
  }

  /** A valid data frame of the session whose messages are the stream's. */
  ghost predicate Good(x: Arrival, session: Bytes, truth: nat -> Bytes) {
    && |x.frame| >= HEADER_LEN
    && HeaderOf(x.frame).session == session
    && IsData(HeaderOf(x.frame))
    && Last(x) < U64
    && var d := IngestWalk(x.frame, First(x), HeaderOf(x.frame).count, 0);
       && d.err == None
       && forall i :: 0 <= i < |d.msgs| ==> d.msgs[i].data == truth(d.msgs[i].seqNo)
  }

  ghost predicate AllGood(xs: seq<Arrival>, session: Bytes, truth: nat -> Bytes) {
    forall i :: 0 <= i < |xs| ==> Good(xs[i], session, truth)
  }

  /** Some arrival carried message k. */
  ghost predicate Received(xs: seq<Arrival>, k: nat)
    requires forall i :: 0 <= i < |xs| ==> |xs[i].frame| >= HEADER_LEN && IsData(HeaderOf(xs[i].frame))
  {
    exists i :: 0 <= i < |xs| && First(xs[i]) <= k <= Last(xs[i])
  }

  // ---- runs of one session ---------------------------------------------------------------------------

  predicate IsArrival(op: Op) {
    op.Frame? && |op.bytes| >= HEADER_LEN && IsData(HeaderOf(op.bytes))
  }

  function ArrivalOf(op: Op): (x: Arrival)
    requires IsArrival(op)
    ensures |x.frame| >= HEADER_LEN && IsData(HeaderOf(x.frame))
  {
    Arrival(op.bytes, op.feed, op.at)
  }

  /** What touches neither emission nor window: a heartbeat of the session, a frame too short for a
      header, a recovery call. */
  predicate Aside(op: Op, session: Bytes) {
    match op
    case Frame(f, _, _) => |f| < HEADER_LEN || (HeaderOf(f).session == session && HeaderOf(f).count == HEARTBEAT_COUNT)
    case Ask(_) => true
    case Stop(_) => false
  }

  ghost predicate GoodOp(op: Op, session: Bytes, truth: nat -> Bytes) {
    if IsArrival(op) then Good(ArrivalOf(op), session, truth) else Aside(op, session)
  }

  ghost predicate GoodRun(ops: seq<Op>, session: Bytes, truth: nat -> Bytes) {
    forall i :: 0 <= i < |ops| ==> GoodOp(ops[i], session, truth)
  }

  /** The data frames of a run, in order. */
  function Data(ops: seq<Op>): (xs: seq<Arrival>)
    ensures forall i :: 0 <= i < |xs| ==> |xs[i].frame| >= HEADER_LEN && IsData(HeaderOf(xs[i].frame))
    decreases |ops|
  {
    if ops == [] then []
    else
      var n := |ops| - 1;
      Data(ops[..n]) + if IsArrival(ops[n]) then [ArrivalOf(ops[n])] else []
  }

  /** The messages in a log, in order. */
  function Messages(log: seq<Out>): seq<Msg>
    decreases |log|
  {
    if log == [] then []
    else
      var o := log[|log| - 1];
      Messages(log[..|log| - 1]) + if o.Emit? then [Msg(o.seqNo, o.data)] else []
  }

  /** The stream from lo up to but not including hi. */
  function Stretch(truth: nat -> Bytes, lo: nat, hi: nat): seq<Msg>
    requires lo <= hi
  {
    seq(hi - lo, i requires 0 <= i < hi - lo => Msg(lo + i, truth(lo + i)))
  }

  // ---- what holds after any number of arrivals -----------------------------------------------------

  /** The emission so far is the stream from the anchor to the watermark. */
  ghost predicate Exact(a: Arb, truth: nat -> Bytes, anchor: nat) {
    && anchor <= a.w
    && Messages(a.log) == Stretch(truth, anchor, a.w)
    && forall k: nat :: k in a.staged ==> a.staged[k] == truth(k)
  }

  /** Which messages have been received: those emitted, those staged, and, if nothing was dropped
      beyond the window, no others at or above the watermark. */
  ghost predicate Accounted(a: Arb, xs: seq<Arrival>, anchor: nat)
    requires forall i :: 0 <= i < |xs| ==> |xs[i].frame| >= HEADER_LEN && IsData(HeaderOf(xs[i].frame))
  {
    && (forall k: nat :: anchor <= k < a.w ==> Received(xs, k))
    && (forall k: nat :: k in a.staged ==> Received(xs, k))
    && (a.ctr.beyondWindowDropped == 0 ==> forall k: nat :: k >= a.w && Received(xs, k) ==> k in a.staged)
  }

  ghost predicate Tracking(a: Arb, xs: seq<Arrival>, session: Bytes, truth: nat -> Bytes, anchor: nat) {
    && AllGood(xs, session, truth)
    && Inv(a) && (a.state == Contig || a.state == Gap) && a.session == session
    && Exact(a, truth, anchor)
    && Accounted(a, xs, anchor)
  }

  // ---- logs -----------------------------------------------------------------------------------------

  lemma MessagesSnoc(log: seq<Out>, o: Out)
    ensures Messages(log + [o]) == Messages(log) + if o.Emit? then [Msg(o.seqNo, o.data)] else []
  {
    assert (log + [o])[..|log|] == log;
  }

  lemma {:induction false} MessagesOuts(log: seq<Out>, gen: nat, ms: seq<Msg>)
    ensures Messages(log + Outs(gen, ms)) == Messages(log) + ms
    decreases |ms|
  {
    if ms == [] {
      assert log + Outs(gen, ms) == log;
    } else {
      var n := |ms| - 1;
      MessagesOuts(log, gen, ms[..n]);
      MessagesSnoc(log + Outs(gen, ms[..n]), Emit(gen, ms[n].seqNo, ms[n].data));
      assert log + Outs(gen, ms) == log + Outs(gen, ms[..n]) + [Emit(gen, ms[n].seqNo, ms[n].data)];
      assert Msg(ms[n].seqNo, ms[n].data) == ms[n];
      assert ms == ms[..n] + [ms[n]];
    }
  }

  lemma StretchSnoc(truth: nat -> Bytes, lo: nat, hi: nat)
    requires lo <= hi
    ensures Stretch(truth, lo, hi + 1) == Stretch(truth, lo, hi) + [Msg(hi, truth(hi))]
  {
  }

  lemma StretchJoin(truth: nat -> Bytes, lo: nat, mid: nat, hi: nat)
    requires lo <= mid <= hi
    ensures Stretch(truth, lo, hi) == Stretch(truth, lo, mid) + Stretch(truth, mid, hi)
  {
  }

  // ---- the frame's messages ------------------------------------------------------------------------------

  /** A good frame, after its first skip messages, delivers the stream from there to its end. */
  lemma GoodDelivers(x: Arrival, session: Bytes, truth: nat -> Bytes, skip: nat)
    requires Good(x, session, truth) && skip <= HeaderOf(x.frame).count
    ensures var d := IngestWalk(x.frame, First(x), HeaderOf(x.frame).count, skip);
      d.err == None && d.msgs == Stretch(truth, First(x) + skip, Last(x) + 1)
  {
    hide Validate, Deliver, HeaderOf;
    var h := HeaderOf(x.frame);
    var w := FrameWalk(x.frame, h.count);
    Delivered(x.frame, h.seqNo, w.blocks, 0, w.err);
    NoErrorLater(x.frame, h.seqNo, w.blocks, skip, w.err);
    Delivered(x.frame, h.seqNo, w.blocks, skip, w.err);
    var d0, d := Deliver(x.frame, h.seqNo, w.blocks, 0, w.err), Deliver(x.frame, h.seqNo, w.blocks, skip, w.err);
    forall k | 0 <= k < |d.msgs| ensures d.msgs[k] == Msg(First(x) + skip + k, truth(First(x) + skip + k)) {
      assert d0.msgs[skip + k].data == truth(d0.msgs[skip + k].seqNo);
      assert d.msgs[k].data == d0.msgs[skip + k].data;
      assert d.msgs[k] == Msg(First(x) + skip + k, truth(First(x) + skip + k));
    }
    assert d.msgs == Stretch(truth, First(x) + skip, Last(x) + 1);
  }

  // ---- the steps ------------------------------------------------------------------------------------------

  /** Draining takes the staged run at the watermark and nothing else. */
  lemma {:induction false} DrainRunShape(a: Arb)
    ensures var d := DrainRun(a);
      && d.w >= a.w && d == a.(w := d.w, staged := d.staged, log := d.log)
      && (forall k: nat :: a.w <= k < d.w ==> k in a.staged)
      && (forall k: nat :: k in d.staged ==> k in a.staged && d.staged[k] == a.staged[k])
      && (forall k: nat :: k in a.staged && k >= d.w ==> k in d.staged)
    decreases |a.staged|
  {
    if a.w in a.staged {
      DropOne(a.staged, a.w);
      var b := a.(w := a.w + 1, staged := a.staged - {a.w}, log := a.log + [Emit(a.gen, a.w, a.staged[a.w])]);
      DrainRunShape(b);
      assert forall k: nat :: k in b.staged ==> k in a.staged && b.staged[k] == a.staged[k];
    }
  }

  lemma {:induction false} ExactDrainRun(a: Arb, truth: nat -> Bytes, anchor: nat)
    requires Exact(a, truth, anchor)
    ensures Exact(DrainRun(a), truth, anchor)
    decreases |a.staged|
  {
    if a.w in a.staged {
      var o := Emit(a.gen, a.w, a.staged[a.w]);
      DropOne(a.staged, a.w);
      MessagesSnoc(a.log, o);
      StretchSnoc(truth, anchor, a.w);
      hide Messages, Stretch;
      ExactDrainRun(a.(w := a.w + 1, staged := a.staged - {a.w}, log := a.log + [o]), truth, anchor);
    }
  }

  lemma ExactDrain(a: Arb, truth: nat -> Bytes, anchor: nat, now: nat)
    requires Exact(a, truth, anchor)
    ensures Exact(Drain(a, now), truth, anchor)
    ensures var d := Drain(a, now);
      && d.w >= a.w && d.session == a.session && d.state == a.state
      && d.ctr.beyondWindowDropped == a.ctr.beyondWindowDropped
      && (forall k: nat :: a.w <= k < d.w ==> k in a.staged)
      && (forall k: nat :: k in d.staged ==> k in a.staged)
      && (forall k: nat :: k in a.staged && k >= d.w ==> k in d.staged)
  {
    hide Messages, Stretch, DrainRun;
    if a.staged != map[] {
      ExactDrainRun(a, truth, anchor);
      DrainRunShape(a);
    }
  }

  lemma ExactClose(a: Arb, truth: nat -> Bytes, anchor: nat)
    requires Exact(a, truth, anchor)
    ensures Exact(RetirePending(CheckGapClose(a)), truth, anchor)
  {
    hide Messages, Stretch;
    MessagesSnoc(a.log, Control(ReAnchored(a.gen, a.w)));
  }

  /** Closing and retiring touch neither the watermark nor the window. */
  lemma CloseKeeps(a: Arb)
    ensures var c := RetirePending(CheckGapClose(a));
      && c.w == a.w && c.staged == a.staged && c.session == a.session
      && c.ctr.beyondWindowDropped == a.ctr.beyondWindowDropped
      && (a.state == Contig || a.state == Gap ==> c.state == Contig || c.state == Gap)
  {
  }

  lemma ReceivedSnoc(xs: seq<Arrival>, x: Arrival, session: Bytes, truth: nat -> Bytes)
    requires AllGood(xs, session, truth) && Good(x, session, truth)
    ensures AllGood(xs + [x], session, truth)
    ensures forall k: nat :: Received(xs + [x], k) <==> Received(xs, k) || First(x) <= k <= Last(x)
  {
    hide IngestWalk;
    forall k: nat ensures Received(xs + [x], k) <==> Received(xs, k) || First(x) <= k <= Last(x) {
      if Received(xs, k) {
        var i :| 0 <= i < |xs| && First(xs[i]) <= k <= Last(xs[i]);
        assert (xs + [x])[i] == xs[i];
      }
      if First(x) <= k <= Last(x) {
        assert (xs + [x])[|xs|] == x;
      }
    }
  }

  /** The contiguous branch: the emission grows by the frame's new part and the drained run. */
  lemma ContiguousStep(a: Arb, truth: nat -> Bytes, anchor: nat, d: Delivery, skip: nat, last: nat, now: nat)
    requires Exact(a, truth, anchor) && last >= a.w
    requires d.err == None && d.msgs == Stretch(truth, a.w, last + 1)
    ensures var r := ApplyContiguous(a, d, skip, last, now);
      && Exact(r, truth, anchor)
      && r.w > last && r.session == a.session && r.ctr.beyondWindowDropped == a.ctr.beyondWindowDropped
      && (a.state == Contig || a.state == Gap ==> r.state == Contig || r.state == Gap)
      && (forall k: nat :: last < k < r.w ==> k in a.staged)
      && (forall k: nat :: k in r.staged ==> k in a.staged)
      && (forall k: nat :: k in a.staged && k >= r.w ==> k in r.staged)
  {
    hide Messages, Stretch, Drain, CheckGapClose, RetirePending;
    var b := EmitAll(a.(ctr := a.ctr.(dupMsgs := a.ctr.dupMsgs + skip)), d.msgs);
    MessagesOuts(a.log, a.gen, d.msgs);
    StretchJoin(truth, anchor, a.w, last + 1);
    var c := ClearPassed(b.(w := last + 1)).(progressVt := now);
    assert Exact(c, truth, anchor);
    assert forall k: nat :: k in c.staged <==> k in a.staged && k > last;
    ExactDrain(c, truth, anchor, now);
    ExactClose(Drain(c, now), truth, anchor);
    CloseKeeps(Drain(c, now));
  }

  /** Staging keeps everything but the window and the counters, stages the truth's messages that fit
      the window, and counts a drop for those that do not. */
  ghost predicate Staged(a: Arb, s: Arb, truth: nat -> Bytes, first: nat, n: nat) {
    && s == a.(staged := s.staged, ctr := s.ctr)
    && (forall k: nat :: k in s.staged <==> k in a.staged || (first <= k < first + n && k < a.w + WINDOW))
    && (forall k: nat :: k in s.staged ==> s.staged[k] == truth(k))
    && (s.ctr.beyondWindowDropped == 0 <==> a.ctr.beyondWindowDropped == 0 && (n > 0 ==> first + n <= a.w + WINDOW))
  }

  lemma StagedOne(a: Arb, s: Arb, truth: nat -> Bytes, first: nat, n: nat)
    requires Staged(a, s, truth, first, n)
    ensures Staged(a, StageOne(s, Msg(first + n, truth(first + n))), truth, first, n + 1)
  {
  }

  lemma {:induction false} StageAllContents(a: Arb, ms: seq<Msg>, truth: nat -> Bytes, first: nat)
    requires forall k: nat :: k in a.staged ==> a.staged[k] == truth(k)
    requires forall i :: 0 <= i < |ms| ==> ms[i].seqNo == first + i && ms[i].data == truth(first + i)
    ensures Staged(a, StageAll(a, ms), truth, first, |ms|)
    decreases |ms|
  {
    if ms != [] {
      var n := |ms| - 1;
      StageAllContents(a, ms[..n], truth, first);
      StagedOne(a, StageAll(a, ms[..n]), truth, first, n);
      assert ms[n] == Msg(first + n, truth(first + n));
      hide Staged, StageOne;
    }
  }

  /** The ahead branch: the frame's messages inside the window are staged. */
  lemma AheadStep(a: Arb, truth: nat -> Bytes, anchor: nat, d: Delivery, first: nat, last: nat, now: nat)
    requires Exact(a, truth, anchor) && Inv(a) && a.w < first <= last
    requires d.err == None && d.msgs == Stretch(truth, first, last + 1)
    ensures var r := ApplyAhead(a, d, first, last, now);
      && Exact(r, truth, anchor)
      && r.w == a.w && r.session == a.session
      && (a.state == Contig || a.state == Gap ==> r.state == Contig || r.state == Gap)
      && (forall k: nat :: k in r.staged <==> k in a.staged || (first <= k <= last && k < a.w + WINDOW))
      && (r.ctr.beyondWindowDropped == 0 <==> a.ctr.beyondWindowDropped == 0 && last < a.w + WINDOW)
  {
    hide Messages, Drain, CheckGapClose, RetirePending, StageAll;
    var g := GapEvidence(a, first);
    MessagesSnoc(a.log, Control(GapOpened(a.w, first, NextGen(a.gen))));
    StageAllContents(g, d.msgs, truth, first);
    hide Stretch;
    var t := Beyond(StageAll(g, d.msgs), last);
    assert Exact(t, truth, anchor);
    assert a.w !in t.staged;
    ExactDrain(t, truth, anchor, now);
    ExactClose(Drain(t, now), truth, anchor);
    CloseKeeps(Drain(t, now));
  }

  /** Another frame of the same session leaves everything but a counter alone. */
  lemma SameSession(a: Arb, session: Bytes)
    requires a.session == session
    ensures SessionDispatch(a, session) == a.(ctr := SessionDispatch(a, session).ctr)
    ensures SessionDispatch(a, session).ctr.beyondWindowDropped == a.ctr.beyondWindowDropped
  {
  }

  lemma TrackingCounters(a: Arb, b: Arb, xs: seq<Arrival>, session: Bytes, truth: nat -> Bytes, anchor: nat)
    requires Tracking(a, xs, session, truth, anchor)
    requires b == a.(ctr := b.ctr) && b.ctr.beyondWindowDropped == a.ctr.beyondWindowDropped
    ensures Tracking(b, xs, session, truth, anchor)
  {
    hide Messages, Stretch, Received;
  }

  /** A frame ahead of the watermark w that ends inside the window, or a frame not ahead of it. */
  predicate Reaches(w: nat, x: Arrival)
    requires |x.frame| >= HEADER_LEN && IsData(HeaderOf(x.frame))
  {
    First(x) > w ==> Last(x) < w + 1024
  }

  lemma DataStep(a: Arb, xs: seq<Arrival>, x: Arrival, session: Bytes, truth: nat -> Bytes, anchor: nat)
    requires Tracking(a, xs, session, truth, anchor) && Good(x, session, truth)
    ensures var r := DataFrame(a, x.frame, HeaderOf(x.frame), x.feed, x.at);
      && Tracking(r, xs + [x], session, truth, anchor)
      && (r.ctr.beyondWindowDropped == 0 <==> a.ctr.beyondWindowDropped == 0 && Reaches(a.w, x))
  {
    hide HeaderOf, Messages, Stretch, IngestWalk, ApplyContiguous, ApplyAhead, Received;
    var h := HeaderOf(x.frame);
    var first, last := First(x), Last(x);
    var r := DataFrame(a, x.frame, h, x.feed, x.at);
    ReceivedSnoc(xs, x, session, truth);
    InvDataFrame(a, x.frame, h, x.feed, x.at);
    if last >= a.w {
      if first <= a.w {
        var skip := Skip(a.w, first, h.count);
        GoodDelivers(x, session, truth, skip);
        ContiguousStep(a, truth, anchor, IngestWalk(x.frame, first, h.count, skip), skip, last, x.at);
      } else {
        GoodDelivers(x, session, truth, 0);
        AheadStep(a, truth, anchor, IngestWalk(x.frame, first, h.count, 0), first, last, x.at);
      }
    }
  }

  lemma IngestStep(a: Arb, xs: seq<Arrival>, x: Arrival, session: Bytes, truth: nat -> Bytes, anchor: nat)
    requires Tracking(a, xs, session, truth, anchor) && Good(x, session, truth)
    ensures var r := Ingest(a, x.frame, x.feed, x.at);
      && Tracking(r, xs + [x], session, truth, anchor)
      && (r.ctr.beyondWindowDropped == 0 <==> a.ctr.beyondWindowDropped == 0 && Reaches(a.w, x))
  {
    hide HeaderOf, DataFrame, SessionDispatch, Tracking;
    var b := a.(ctr := CountPacket(a.ctr, x.feed, |x.frame|));
    TrackingCounters(a, b, xs, session, truth, anchor);
    TrackedState(b, xs, session, truth, anchor);
    SameSession(b, session);
    var c := SessionDispatch(b, session);
    TrackingCounters(b, c, xs, session, truth, anchor);
    DataStep(c, xs, x, session, truth, anchor);
  }

  lemma TrackedState(a: Arb, xs: seq<Arrival>, session: Bytes, truth: nat -> Bytes, anchor: nat)
    requires Tracking(a, xs, session, truth, anchor)
    ensures a.session == session && (a.state == Contig || a.state == Gap)
  {
  }

  /** Before the first data frame: nothing emitted, nothing staged. */
  ghost predicate Waiting(a: Arb, session: Bytes) {
    && Inv(a) && a.state == Init && a.w == 0 && a.staged == map[] && a.log == [] && a.ctr.beyondWindowDropped == 0
    && (a.session == NO_SESSION || a.session == session)
  }

  /** The first data frame anchors the watermark and is emitted whole. */
  lemma FirstStep(a: Arb, x: Arrival, session: Bytes, truth: nat -> Bytes)
    requires Waiting(a, session) && Good(x, session, truth)
    ensures var r := Ingest(a, x.frame, x.feed, x.at);
      Tracking(r, [x], session, truth, First(x)) && r.ctr.beyondWindowDropped == 0
  {
    hide HeaderOf, IngestWalk, ApplyContiguous;
    var h := HeaderOf(x.frame);
    var c := SessionDispatch(a.(ctr := CountPacket(a.ctr, x.feed, |x.frame|)), session);
    InvIngest(a, x.frame, x.feed, x.at);
    var b := Anchor(c, h.seqNo, x.at);
    assert Stretch(truth, h.seqNo, h.seqNo) == [];
    assert Messages([]) == [];
    hide Messages, Stretch;
    assert Exact(b, truth, h.seqNo);
    var skip := Skip(b.w, h.seqNo, h.count);
    assert skip == 0;
    GoodDelivers(x, session, truth, 0);
    ContiguousStep(b, truth, h.seqNo, IngestWalk(x.frame, h.seqNo, h.count, 0), 0, Last(x), x.at);
    var r := Ingest(a, x.frame, x.feed, x.at);
    assert r == ApplyContiguous(b, IngestWalk(x.frame, h.seqNo, h.count, 0), 0, Last(x), x.at);
    FirstAccounted(r, x, session, truth);
  }

  lemma FirstAccounted(r: Arb, x: Arrival, session: Bytes, truth: nat -> Bytes)
    requires Good(x, session, truth) && r.w > Last(x) && r.staged == map[]
    requires forall k: nat :: Last(x) < k < r.w ==> k in r.staged
    ensures AllGood([x], session, truth) && Accounted(r, [x], First(x))
  {
    hide HeaderOf, IngestWalk;
    assert r.w == Last(x) + 1 by { assert Last(x) + 1 !in r.staged; }
    forall k: nat ensures Received([x], k) <==> First(x) <= k <= Last(x) {
      assert [x][0] == x;
    }
    hide Received;
  }

  /** What a heartbeat, a short frame or a call leaves: watermark, window, emitted messages and drops. */
  ghost predicate SetAside(a: Arb, b: Arb) {
    && b.w == a.w && b.staged == a.staged && Messages(b.log) == Messages(a.log)
    && b.ctr.beyondWindowDropped == a.ctr.beyondWindowDropped
  }

  lemma HeartbeatAside(a: Arb, seqNo: nat, now: nat)
    ensures SetAside(a, Heartbeat(a, seqNo, now))
    ensures var b := Heartbeat(a, seqNo, now);
      && b.session == a.session && (a.state == Init ==> b.state == Init && b.log == a.log)
      && (a.state == Contig || a.state == Gap ==> b.state == Contig || b.state == Gap)
  {
    MessagesSnoc(a.log, Control(GapOpened(a.w, seqNo, NextGen(a.gen))));
    hide Messages;
  }

  lemma DispatchAside(a: Arb, session: Bytes)
    requires a.session == NO_SESSION || a.session == session
    ensures SetAside(a, SessionDispatch(a, session))
    ensures var b := SessionDispatch(a, session); b == a.(session := session, ctr := b.ctr)
  {
  }

  lemma AskAside(a: Arb, now: nat)
    ensures var b := RecoveryIntent(a, now).0;
      SetAside(a, b) && b.log == a.log && b.state == a.state && b.session == a.session
  {
  }

  lemma CountAside(a: Arb, feed: nat, len: nat)
    ensures CountPacket(a.ctr, feed, len).beyondWindowDropped == a.ctr.beyondWindowDropped
  {
  }

  /** An operation set aside, from the states of a good run. */
  lemma AsideStep(a: Arb, op: Op, session: Bytes)
    requires Inv(a) && (a.state == Init || a.state == Contig || a.state == Gap)
    requires a.session == session || (a.session == NO_SESSION && a.state == Init)
    requires Aside(op, session)
    ensures var b := Step(a, op);
      && SetAside(a, b) && Inv(b) && (b.session == session || b.session == a.session)
      && (a.state == Init ==> b.state == Init && b.log == a.log)
      && (a.state != Init ==> b.state == Contig || b.state == Gap)
  {
    InvStep(a, op);
    hide Inv, HeaderOf, Messages, CountPacket, Heartbeat, RecoveryIntent, DataFrame, SessionDispatch;
    match op
    case Ask(now) => AskAside(a, now);
    case Frame(f, feed, now) =>
      CountAside(a, feed, |f|);
      if |f| >= HEADER_LEN {
        var b := a.(ctr := CountPacket(a.ctr, feed, |f|));
        DispatchAside(b, session);
        HeartbeatAside(SessionDispatch(b, session), HeaderOf(f).seqNo, now);
      }
  }

  lemma AsideTracking(a: Arb, op: Op, xs: seq<Arrival>, session: Bytes, truth: nat -> Bytes, anchor: nat)
    requires Tracking(a, xs, session, truth, anchor) && Aside(op, session)
    ensures Tracking(Step(a, op), xs, session, truth, anchor)
    ensures Step(a, op).ctr.beyondWindowDropped == a.ctr.beyondWindowDropped
  {
    AsideStep(a, op, session);
    hide Step, Aside, Messages, Stretch, Received, AllGood, Inv;
  }

  lemma AsideWaiting(a: Arb, op: Op, session: Bytes)
    requires Waiting(a, session) && Aside(op, session)
    ensures Waiting(Step(a, op), session)
  {
    AsideStep(a, op, session);
    hide Step, Aside, Messages, Inv;
  }

  // ---- whole runs --------------------------------------------------------------------------------------------

  /** No data frame after the first reaches past the window at its turn. */
  ghost predicate NeverPast(ops: seq<Op>) {
    forall i :: 0 <= i < |ops| ==> ReachesAt(ops, i)
  }

  ghost predicate ReachesAt(ops: seq<Op>, i: nat)
    requires i < |ops|
  {
    IsArrival(ops[i]) && Data(ops[..i]) != [] ==> Reaches(Run(Fresh([]), ops[..i]).w, ArrivalOf(ops[i]))
  }

  lemma NeverPastSnoc(ops: seq<Op>)
    requires ops != []
    ensures NeverPast(ops) <==> NeverPast(ops[..|ops| - 1]) && ReachesAt(ops, |ops| - 1)
  {
    hide Run, IsArrival, Data, Reaches;
    var n := |ops| - 1;
    forall i | 0 <= i < n ensures ReachesAt(ops[..n], i) == ReachesAt(ops, i) {
      assert ops[..n][..i] == ops[..i];
    }
  }

  /** The state follows the data frames so far, and nothing is dropped beyond the window if and only if
      none reached past it at its turn. */
  ghost predicate Follows(ops: seq<Op>, session: Bytes, truth: nat -> Bytes) {
    var a, xs := Run(Fresh([]), ops), Data(ops);
    && (if xs == [] then Waiting(a, session) else Tracking(a, xs, session, truth, First(xs[0])))
    && (a.ctr.beyondWindowDropped == 0 <==> NeverPast(ops))
  }

  lemma {:induction false} TrackRun(ops: seq<Op>, session: Bytes, truth: nat -> Bytes)
    requires GoodRun(ops, session, truth)
    ensures Follows(ops, session, truth)
    decreases |ops|
  {
    if ops == [] {
      InvFresh([]);
    } else {
      var n := |ops| - 1;
      assert GoodRun(ops[..n], session, truth) by { hide GoodOp; }
      TrackRun(ops[..n], session, truth);
      NeverPastSnoc(ops);
      assert GoodOp(ops[n], session, truth);
      TrackStep(ops, session, truth);
    }
  }

  lemma TrackStep(ops: seq<Op>, session: Bytes, truth: nat -> Bytes)
    requires ops != [] && Follows(ops[..|ops| - 1], session, truth) && GoodOp(ops[|ops| - 1], session, truth)
    requires NeverPast(ops) <==> NeverPast(ops[..|ops| - 1]) && ReachesAt(ops, |ops| - 1)
    ensures Follows(ops, session, truth)
  {
    hide Tracking, Waiting, HeaderOf, Good, Ingest, NeverPast, Reaches, Aside, IsData;
    var n := |ops| - 1;
    var a, xs := Run(Fresh([]), ops[..n]), Data(ops[..n]);
    if IsArrival(ops[n]) {
      var x := ArrivalOf(ops[n]);
      assert Step(a, ops[n]) == Ingest(a, x.frame, x.feed, x.at);
      if xs == [] {
        WaitingDrops(a, session);
        FirstStep(a, x, session, truth);
        assert Data(ops) == [x];
      } else {
        IngestStep(a, xs, x, session, truth, First(xs[0]));
        assert Data(ops) == xs + [x];
      }
    } else {
      hide Step;
      assert Data(ops) == xs;
      if xs == [] {
        AsideWaiting(a, ops[n], session);
        WaitingDrops(a, session);
        WaitingDrops(Step(a, ops[n]), session);
      } else {
        AsideTracking(a, ops[n], xs, session, truth, First(xs[0]));
      }
    }
  }

  lemma WaitingDrops(a: Arb, session: Bytes)
    requires Waiting(a, session)
    ensures a.ctr.beyondWindowDropped == 0
  {
  }

  // ---- the results ------------------------------------------------------------------------------------------

  /** Nothing is dropped beyond the window if and only if no arrival reaches past it at its turn. */
  lemma DropsExactly(ops: seq<Op>, session: Bytes, truth: nat -> Bytes)
    requires GoodRun(ops, session, truth)
    ensures Run(Fresh([]), ops).ctr.beyondWindowDropped == 0 <==> NeverPast(ops)
  {
    hide GoodRun, Run, NeverPast;
    TrackRun(ops, session, truth);
  }

  /** The emission is exactly the stream from the anchor to the watermark, each message once and in
      order, even when messages were dropped beyond the window. */
  lemma ExactlyOnce(ops: seq<Op>, session: Bytes, truth: nat -> Bytes)
    requires GoodRun(ops, session, truth) && Data(ops) != []
    ensures var a, anchor := Run(Fresh([]), ops), First(Data(ops)[0]);
      anchor <= a.w && Messages(a.log) == Stretch(truth, anchor, a.w)
  {
    hide GoodRun, Run, Messages, Stretch, Data, NeverPast;
    TrackRun(ops, session, truth);
  }

  /** If no arrival reached past the window, the watermark is the least number from the anchor on that no arrival
      carried. */
  lemma LeastMissing(ops: seq<Op>, session: Bytes, truth: nat -> Bytes)
    requires GoodRun(ops, session, truth) && Data(ops) != [] && NeverPast(ops)
    ensures var a, xs := Run(Fresh([]), ops), Data(ops);
      !Received(xs, a.w) && forall k: nat :: First(xs[0]) <= k < a.w ==> Received(xs, k)
  {
    hide GoodRun, Run, Messages, Stretch, Data, NeverPast, Received;
    TrackRun(ops, session, truth);
  }

  /** If no arrival reached past the window, exactly the received messages at or above the watermark are staged. */
  lemma StagedExactly(ops: seq<Op>, session: Bytes, truth: nat -> Bytes)
    requires GoodRun(ops, session, truth) && Data(ops) != [] && NeverPast(ops)
    ensures var a := Run(Fresh([]), ops);
      && (forall k: nat :: k in a.staged <==> k >= a.w && Received(Data(ops), k))
      && (forall k: nat :: k in a.staged ==> a.staged[k] == truth(k))
  {
    hide GoodRun, Run, Messages, Stretch, Data, NeverPast, Received;
    TrackRun(ops, session, truth);
  }

  /** Two runs that carry the same messages and start at the same anchor end with the same watermark,
      the same emission and the same staged messages, wherever their heartbeats and calls stand. */
  lemma Confluent(ops: seq<Op>, ops': seq<Op>, session: Bytes, truth: nat -> Bytes)
    requires GoodRun(ops, session, truth) && Data(ops) != [] && NeverPast(ops)
    requires GoodRun(ops', session, truth) && Data(ops') != [] && NeverPast(ops')
    requires First(Data(ops)[0]) == First(Data(ops')[0])
    requires forall k: nat :: Received(Data(ops), k) <==> Received(Data(ops'), k)
    ensures var a, b := Run(Fresh([]), ops), Run(Fresh([]), ops');
      a.w == b.w && Messages(a.log) == Messages(b.log) && a.staged == b.staged
  {
    hide *;
    StagedExactly(ops, session, truth);
    StagedExactly(ops', session, truth);
    ExactlyOnce(ops, session, truth);
    ExactlyOnce(ops', session, truth);
    LeastMissing(ops, session, truth);
    LeastMissing(ops', session, truth);
    SameMap(Run(Fresh([]), ops).staged, Run(Fresh([]), ops').staged, truth);
  }

  lemma SameMap(a: map<nat, Bytes>, b: map<nat, Bytes>, truth: nat -> Bytes)
    requires forall k: nat :: k in a <==> k in b
    requires (forall k: nat :: k in a ==> a[k] == truth(k)) && (forall k: nat :: k in b ==> b[k] == truth(k))
    ensures a == b
  {
  }
}
