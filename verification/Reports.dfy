// What the events of a trace say of the watermark, against the watermark itself.
module Reports {
  import opened Bytes
  import opened Itch
  import opened Mold
  import opened Arbiter
  import opened ArbiterInvariant
  import opened Effects

  /** An event that names the watermark names w. */
  predicate Honest(o: Out, w: nat) {
    match o
    case Control(GapOpened(from, _, _)) => from == w
    case Control(ReAnchored(_, at)) => at == w
    case Control(EndOfSession(_, final, _)) => final == w
    case Control(SessionDead(_, last)) => last == w
    case _ => true
  }

  /** From a to b: the trace grows, and the new events name b's watermark. */
  ghost predicate Honestly(a: Arb, b: Arb) {
    a.log <= b.log && forall i :: |a.log| <= i < |b.log| ==> Honest(b.log[i], b.w)
  }

  lemma ContiguousHonest(a: Arb, d: Delivery, skip: nat, last: nat, now: nat)
    requires Inv(a) && a.w <= last
    ensures Honestly(a, ApplyContiguous(a, d, skip, last, now))
  {
    if d.err == None {
      ContiguousExactly(a, d, skip, last, now);
      hide ApplyContiguous;
    }
    hide Inv, Violate, KeptFrom;
  }

  lemma AheadHonest(a: Arb, d: Delivery, first: nat, last: nat, now: nat)
    requires Inv(a) && first > a.w && FromFrame(d.msgs, first) && (d.err == None ==> d.msgs != [] && |d.msgs| == last + 1 - first)
    ensures Honestly(a, ApplyAhead(a, d, first, last, now))
  {
    if d.err == None {
      NumberedOn(d.msgs, first);
      AheadExactly(a, d, first, now);
      hide ApplyAhead;
    } else {
      StageAllKeeps(GapEvidence(a, first), d.msgs);
      hide StageAll;
    }
    hide Inv, Violate, FromFrame, StagedToo;
  }

  lemma DataHonest(a: Arb, frame: Bytes, h: Header, feed: nat, now: nat)
    requires Inv(a) && a.state != Dead && |frame| >= HEADER_LEN && IsData(h)
    ensures Honestly(a, DataFrame(a, frame, h, feed, now))
  {
    hide IngestWalk, ApplyContiguous, ApplyAhead, Violate, CountDup, Inv, Honest;
    var first, last := h.seqNo, h.seqNo + h.count - 1;
    if a.state != Ended && last < U64 && (a.state == Init || last >= a.w) {
      InvAnchor(a, first, now);
      var c := Anchor(a, first, now);
      if first <= c.w {
        ContiguousHonest(c, IngestWalk(frame, first, h.count, Skip(c.w, first, h.count)), Skip(c.w, first, h.count), last, now);
      } else {
        WalkDelivers(frame, first, h.count, 0);
        if IngestWalk(frame, first, h.count, 0).err == None { LaterFree(frame, first, h.count, 0); }
        AheadHonest(c, IngestWalk(frame, first, h.count, 0), first, last, now);
      }
    }
  }

  lemma ControlHonest(a: Arb, next: Bytes, seqNo: nat, now: nat)
    ensures Honestly(a, SessionDispatch(a, next)) && SessionDispatch(a, next).w == a.w
    ensures Honestly(a, Heartbeat(a, seqNo, now)) && Honestly(a, Eos(a, seqNo))
  {
  }

  lemma HonestJoin(a: Arb, b: Arb, c: Arb)
    requires a.log <= b.log && (forall i :: |a.log| <= i < |b.log| ==> b.log[i].Control? && b.log[i].event.SessionBoundary?)
    requires Honestly(b, c)
    ensures Honestly(a, c)
  {
  }

  lemma DispatchOnly(a: Arb, next: Bytes)
    ensures var b := SessionDispatch(a, next);
      a.log <= b.log && forall i :: |a.log| <= i < |b.log| ==> b.log[i].Control? && b.log[i].event.SessionBoundary?
  {
  }

  lemma IngestHonest(a: Arb, frame: Bytes, feed: nat, now: nat)
    requires Inv(a)
    ensures Honestly(a, Ingest(a, frame, feed, now))
  {
    hide Inv, Honestly, DataFrame, SessionDispatch, Heartbeat, Eos, Violate, CountPacket, HeaderOf;
    var b := a.(ctr := CountPacket(a.ctr, feed, |frame|));
    if |frame| >= HEADER_LEN && a.state != Dead {
      var h := HeaderOf(frame);
      InvCounters(a, CountPacket(a.ctr, feed, |frame|));
      InvSessionDispatch(b, h.session);
      var c := SessionDispatch(b, h.session);
      DispatchAlive(b, h.session);
      DispatchOnly(b, h.session);
      if IsData(h) { DataHonest(c, frame, h, feed, now); } else { ControlHonest(c, h.session, h.seqNo, now); }
      HonestJoin(b, c, Ingest(a, frame, feed, now));
      SameLog(a, b, Ingest(a, frame, feed, now));
    } else {
      Unlogged(a, Ingest(a, frame, feed, now));
    }
  }

  lemma SameLog(a: Arb, b: Arb, c: Arb)
    requires a.log == b.log && Honestly(b, c)
    ensures Honestly(a, c)
  {
  }

  lemma Unlogged(a: Arb, b: Arb)
    requires a.log == b.log
    ensures Honestly(a, b)
  {
  }

  lemma StepHonest(a: Arb, op: Op)
    requires Inv(a)
    ensures Honestly(a, Step(a, op))
  {
    match op
    case Frame(f, feed, now) => IngestHonest(a, f, feed, now); hide Ingest;
    case Ask(_) =>
    case Stop(_) =>
  }

  /** Every event of every run names the watermark of the step that wrote it: where a gap starts, where it
      closes, where a session ends or dies. */
  lemma {:induction false} EventsNameTheWatermark(ops: seq<Op>, j: nat) returns (i: nat)
    requires j < |Run(Fresh([]), ops).log|
    ensures i < |ops|
    ensures |Run(Fresh([]), ops[..i]).log| <= j < |Run(Fresh([]), ops[..i + 1]).log|
    ensures Honest(Run(Fresh([]), ops).log[j], Run(Fresh([]), ops[..i + 1]).w)
    decreases |ops|
  {
    hide Step, Honest;
    var n := |ops| - 1;
    var a := Run(Fresh([]), ops[..n]);
    InvFresh([]);
    InvRun(Fresh([]), ops[..n]);
    StepHonest(a, ops[n]);
    if j < |a.log| {
      i := EventsNameTheWatermark(ops[..n], j);
      assert ops[..n][..i] == ops[..i] && ops[..n][..i + 1] == ops[..i + 1];
    } else {
      i := n;
      assert ops[..n + 1] == ops;
    }
  }
}
