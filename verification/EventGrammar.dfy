// The grammar of what a sink sees, over whole runs of the sequencer.
module EventGrammar {
  import opened Bytes
  import opened Mold
  import opened Arbiter
  import opened ArbiterInvariant

  predicate OpensEra(o: Out) {
    o.Control? && (o.event.GapOpened? || o.event.SessionBoundary?)
  }

  predicate EndsGap(o: Out) {
    o.Control? && (o.event.ReAnchored? || o.event.SessionBoundary?)
  }

  predicate IsGapOpened(o: Out) {
    o.Control? && o.event.GapOpened?
  }

  /** How many eras have been opened. */
  function Eras(log: seq<Out>): nat
    decreases |log|
  {
    if log == [] then 0 else Eras(log[..|log| - 1]) + if OpensEra(log[|log| - 1]) then 1 else 0
  }

  /** The opener of the gap that is still open at the end of the log. */
  function OpenGap(log: seq<Out>): (g: Option<Event>)
    ensures g.Some? ==> g.value.GapOpened?
    decreases |log|
  {
    if log == [] then None
    else
      var o := log[|log| - 1];
      if IsGapOpened(o) then Some(o.event)
      else if EndsGap(o) then None
      else OpenGap(log[..|log| - 1])
  }

  predicate EndsWithEos(log: seq<Out>) {
    log != [] && log[|log| - 1].Control? && log[|log| - 1].event.EndOfSession?
  }

  predicate EndsWithDead(log: seq<Out>) {
    log != [] && log[|log| - 1].Control? && log[|log| - 1].event.SessionDead?
  }

  /** What may come next after a log. */
  predicate Admissible(log: seq<Out>, o: Out) {
    && !EndsWithDead(log)
    && (EndsWithEos(log) ==> o.Control? && (o.event.SessionBoundary? || o.event.SessionDead?))
    && match o
       case Emit(g, _, _) => g == Eras(log) % U64
       case Span(_, _, _, _, _) => false
       case Control(GapOpened(from, ahead, g)) => OpenGap(log) == None && g == (Eras(log) + 1) % U64 && ahead > from
       case Control(ReAnchored(g, at)) =>
         OpenGap(log).Some? && OpenGap(log).value.gen == g && at >= OpenGap(log).value.ahead
       case Control(SessionBoundary(prev, next, g)) => g == (Eras(log) + 1) % U64 && prev != next
       case Control(EndOfSession(_, _, _)) => true
       case Control(SessionDead(_, _)) => true
  }

  ghost predicate Grammatical(log: seq<Out>) {
    forall i :: 0 <= i < |log| ==> Admissible(log[..i], log[i])
  }

  /** What ties the state to the log. */
  ghost predicate Tied(a: Arb) {
    && Grammatical(a.log)
    && a.gen == Eras(a.log) % U64
    && (if a.gapActive then
          OpenGap(a.log).Some? && OpenGap(a.log).value.gen == a.gen && a.hwm >= OpenGap(a.log).value.ahead
        else OpenGap(a.log) == None)
    && (EndsWithEos(a.log) <==> a.state == Ended)
    && (EndsWithDead(a.log) <==> a.state == Dead)
  }

  // ---- appending -------------------------------------------------------------------------------

  lemma GrammaticalSnoc(log: seq<Out>, o: Out)
    requires Grammatical(log) && Admissible(log, o)
    ensures Grammatical(log + [o])
  {
    hide Admissible;
    var l := log + [o];
    forall i | 0 <= i < |l| ensures Admissible(l[..i], l[i]) {
      assert l[..i] == if i < |log| then log[..i] else log;
    }
  }

  lemma Snoc(log: seq<Out>, o: Out)
    ensures Eras(log + [o]) == Eras(log) + if OpensEra(o) then 1 else 0
    ensures OpenGap(log + [o]) == if IsGapOpened(o) then Some(o.event) else if EndsGap(o) then None else OpenGap(log)
    ensures EndsWithEos(log + [o]) <==> o.Control? && o.event.EndOfSession?
    ensures EndsWithDead(log + [o]) <==> o.Control? && o.event.SessionDead?
  {
    assert (log + [o])[..|log|] == log;
  }

  lemma EraStep(n: nat)
    ensures NextGen(n % U64) == (n + 1) % U64
  {
  }

  /** A state that can emit: the log does not end a session. */
  predicate Emitting(a: Arb) {
    a.state == Contig || a.state == Gap || a.state == EosPersist
  }

  lemma TiedEmit(a: Arb, m: Msg)
    requires Tied(a) && Emitting(a)
    ensures Tied(a.(log := a.log + [Emit(a.gen, m.seqNo, m.data)]))
  {
    hide Eras, OpenGap, Grammatical;
    var o := Emit(a.gen, m.seqNo, m.data);
    Snoc(a.log, o);
    GrammaticalSnoc(a.log, o);
  }

  lemma {:induction false} TiedEmitAll(a: Arb, ms: seq<Msg>)
    requires Tied(a) && Emitting(a)
    ensures Tied(a.(log := a.log + Outs(a.gen, ms)))
    decreases |ms|
  {
    hide Tied;
    if ms == [] {
      assert a.log + Outs(a.gen, ms) == a.log;
      assert a.(log := a.log) == a;
    } else {
      var n := |ms| - 1;
      TiedEmitAll(a, ms[..n]);
      TiedEmit(a.(log := a.log + Outs(a.gen, ms[..n])), ms[n]);
      assert a.log + Outs(a.gen, ms[..n]) + [Emit(a.gen, ms[n].seqNo, ms[n].data)] == a.log + Outs(a.gen, ms);
    }
  }

  // ---- the operations ---------------------------------------------------------------------------

  lemma TiedGapEvidence(a: Arb, x: nat)
    requires Tied(a) && Emitting(a)
    ensures Tied(GapEvidence(a, x)) && Emitting(GapEvidence(a, x))
  {
    hide Eras, OpenGap, Grammatical;
    if !a.gapActive && x > a.w {
      var o := Control(GapOpened(a.w, x, NextGen(a.gen)));
      EraStep(Eras(a.log));
      Snoc(a.log, o);
      GrammaticalSnoc(a.log, o);
    }
  }

  lemma TiedClose(a: Arb)
    requires Tied(a) && Emitting(a)
    ensures Tied(CheckGapClose(a))
  {
    hide Eras, OpenGap, Grammatical;
    if a.gapActive && a.w >= a.hwm {
      var o := Control(ReAnchored(a.gen, a.w));
      Snoc(a.log, o);
      GrammaticalSnoc(a.log, o);
    }
  }

  lemma TiedDispatch(a: Arb, next: Bytes)
    requires Tied(a) && a.state != Dead
    ensures Tied(SessionDispatch(a, next))
  {
    hide Eras, OpenGap, Grammatical;
    if a.session != NO_SESSION && a.session != next {
      var o := Control(SessionBoundary(a.session, next, NextGen(a.gen)));
      EraStep(Eras(a.log));
      Snoc(a.log, o);
      GrammaticalSnoc(a.log, o);
    }
  }

  lemma TiedHeartbeat(a: Arb, seqNo: nat, now: nat)
    requires Tied(a)
    ensures Tied(Heartbeat(a, seqNo, now))
  {
    hide Eras, OpenGap, Grammatical, GapEvidence;
    var b := a.(ctr := a.ctr.(heartbeats := a.ctr.heartbeats + 1));
    if Emitting(b) && seqNo > b.w {
      TiedGapEvidence(b.(hbSeq := seqNo, hbVt := now), seqNo);
    }
  }

  lemma TiedEnd(a: Arb, announced: nat)
    requires Tied(a) && a.state != Dead && a.state != Ended
    ensures Tied(End(a, announced))
  {
    hide Eras, OpenGap, Grammatical;
    var o := Control(EndOfSession(a.session, a.w, announced));
    Snoc(a.log, o);
    GrammaticalSnoc(a.log, o);
  }

  lemma TiedEos(a: Arb, announced: nat)
    requires Tied(a)
    ensures Tied(Eos(a, announced))
  {
    hide Eras, OpenGap, Grammatical, End;
    if a.state == EosPersist {
      TiedEnd(a.(ctr := a.ctr.(eosDup := a.ctr.eosDup + 1)), announced);
    } else if a.state != Dead && a.state != Ended {
      TiedEnd(a.(ctr := a.ctr.(eosSeen := a.ctr.eosSeen + 1)), announced);
    }
  }

  lemma TiedSeal(a: Arb, reason: DeadReason)
    requires Tied(a)
    ensures Tied(Seal(a, reason))
  {
    hide Eras, OpenGap, Grammatical;
    if a.state != Dead {
      var o := Control(SessionDead(reason, a.w));
      Snoc(a.log, o);
      GrammaticalSnoc(a.log, o);
    }
  }

  lemma {:induction false} TiedDrainRun(a: Arb)
    requires Tied(a) && Emitting(a)
    ensures Tied(DrainRun(a)) && Emitting(DrainRun(a))
    decreases |a.staged|
  {
    if a.w in a.staged {
      var b := a.(w := a.w + 1, staged := a.staged - {a.w}, log := a.log + [Emit(a.gen, a.w, a.staged[a.w])]);
      DropOne(a.staged, a.w);
      TiedEmit(a, Msg(a.w, a.staged[a.w]));
      TiedOther(a.(log := b.log), b);
      TiedDrainRun(b);
    }
  }

  /** Fields outside gen, gap, state and log do not matter. */
  lemma TiedOther(a: Arb, b: Arb)
    requires Tied(a) && b.gen == a.gen && b.gapActive == a.gapActive && b.hwm >= a.hwm && b.state == a.state && b.log == a.log
    ensures Tied(b)
  {
    hide Eras, OpenGap, Grammatical;
  }

  lemma TiedDrain(a: Arb, now: nat)
    requires Tied(a) && Emitting(a)
    ensures Tied(Drain(a, now)) && Emitting(Drain(a, now))
  {
    hide Tied, DrainRun;
    if a.staged != map[] {
      TiedDrainRun(a);
      TiedOther(DrainRun(a), Drain(a, now));
    }
  }

  lemma TiedContiguous(a: Arb, d: Delivery, skip: nat, last: nat, now: nat)
    requires Tied(a) && Emitting(a)
    ensures Tied(ApplyContiguous(a, d, skip, last, now))
  {
    hide Tied, Drain, CheckGapClose;
    TiedEmitAll(a, d.msgs);
    var b := EmitAll(a.(ctr := a.ctr.(dupMsgs := a.ctr.dupMsgs + skip)), d.msgs);
    TiedOther(a.(log := b.log), b);
    if d.err == None {
      var c := ClearPassed(b.(w := last + 1)).(progressVt := now);
      TiedOther(b, c);
      TiedDrain(c, now);
      TiedClose(Drain(c, now));
      TiedOther(CheckGapClose(Drain(c, now)), ApplyContiguous(a, d, skip, last, now));
    } else {
      TiedOther(b, b.(ctr := Violate(b.ctr, d.err.value)));
    }
  }

  lemma TiedAhead(a: Arb, d: Delivery, first: nat, last: nat, now: nat)
    requires Tied(a) && Emitting(a)
    ensures Tied(ApplyAhead(a, d, first, last, now))
  {
    hide Tied, Drain, CheckGapClose, StageAll, GapEvidence;
    TiedGapEvidence(a, first);
    var g := GapEvidence(a, first);
    StageAllKeeps(g, d.msgs);
    var s := StageAll(g, d.msgs);
    TiedOther(g, s);
    if d.err == None {
      var t := Beyond(s, last);
      TiedOther(s, t);
      TiedDrain(t, now);
      TiedClose(Drain(t, now));
      TiedOther(CheckGapClose(Drain(t, now)), ApplyAhead(a, d, first, last, now));
    } else {
      TiedOther(s, s.(ctr := Violate(s.ctr, d.err.value)));
    }
  }

  lemma TiedAnchor(a: Arb, first: nat, now: nat)
    requires Tied(a) && a.state != Dead && a.state != Ended
    ensures Tied(Anchor(a, first, now)) && Emitting(Anchor(a, first, now))
  {
    hide Eras, OpenGap, Grammatical;
  }

  lemma TiedData(a: Arb, frame: Bytes, h: Header, feed: nat, now: nat)
    requires Tied(a) && a.state != Dead && |frame| >= HEADER_LEN && IsData(h)
    ensures Tied(DataFrame(a, frame, h, feed, now))
  {
    hide Tied, ApplyContiguous, ApplyAhead, IngestWalk;
    var first, last := h.seqNo, h.seqNo + h.count - 1;
    if a.state == Ended || last >= U64 || (a.state != Init && last < a.w) {
      TiedOther(a, DataFrame(a, frame, h, feed, now));
    } else {
      TiedAnchor(a, first, now);
      hide Anchor;
      var b := Anchor(a, first, now);
      if first <= b.w {
        var skip := Skip(b.w, first, h.count);
        TiedContiguous(b, IngestWalk(frame, first, h.count, skip), skip, last, now);
      } else {
        TiedAhead(b, IngestWalk(frame, first, h.count, 0), first, last, now);
      }
    }
  }

  lemma TiedIngest(a: Arb, frame: Bytes, feed: nat, now: nat)
    requires Tied(a)
    ensures Tied(Ingest(a, frame, feed, now))
  {
    hide Tied, DataFrame, Heartbeat, Eos, SessionDispatch;
    var b := a.(ctr := CountPacket(a.ctr, feed, |frame|));
    TiedOther(a, b);
    if |frame| >= HEADER_LEN && a.state != Dead {
      var h := HeaderOf(frame);
      TiedDispatch(b, h.session);
      DispatchAlive(b, h.session);
      var c := SessionDispatch(b, h.session);
      if h.count == HEARTBEAT_COUNT {
        TiedHeartbeat(c, h.seqNo, now);
      } else if h.count == EOS_COUNT {
        TiedEos(c, h.seqNo);
      } else {
        TiedData(c, frame, h, feed, now);
      }
    } else {
      TiedOther(b, Ingest(a, frame, feed, now));
    }
  }

  lemma TiedAsk(a: Arb, now: nat)
    requires Tied(a)
    ensures Tied(RecoveryIntent(a, now).0)
  {
    hide Tied;
    TiedOther(a, RecoveryIntent(a, now).0);
  }

  lemma {:induction false} TiedRun(ops: seq<Op>)
    ensures Tied(Run(Fresh([]), ops))
    decreases |ops|
  {
    if ops != [] {
      var a, op := Run(Fresh([]), ops[..|ops| - 1]), ops[|ops| - 1];
      TiedRun(ops[..|ops| - 1]);
      hide Tied, Ingest, Seal, RecoveryIntent;
      match op
      case Frame(f, feed, now) => TiedIngest(a, f, feed, now);
      case Ask(now) => TiedAsk(a, now);
      case Stop(reason) => TiedSeal(a, reason);
    }
  }

  // ---- the grammar, read off the log -----------------------------------------------------------------

  /** An open gap's opener is in the log, with nothing that ends or reopens a gap after it. */
  lemma {:induction false} OpenerOf(log: seq<Out>) returns (i: nat)
    requires OpenGap(log).Some?
    ensures i < |log| && log[i] == Control(OpenGap(log).value)
    ensures forall k :: i < k < |log| ==> !EndsGap(log[k]) && !IsGapOpened(log[k])
    decreases |log|
  {
    var n := |log| - 1;
    if IsGapOpened(log[n]) {
      i := n;
    } else {
      i := OpenerOf(log[..n]);
      assert log[..n][i] == log[i];
      forall k | i < k < |log| ensures !EndsGap(log[k]) && !IsGapOpened(log[k]) {
        if k < n { assert log[..n][k] == log[k]; }
      }
    }
  }

  /** A gap that was opened and not ended is open. */
  lemma {:induction false} StillOpen(log: seq<Out>, i: nat)
    requires i < |log| && IsGapOpened(log[i])
    requires forall k :: i < k < |log| ==> !EndsGap(log[k])
    ensures OpenGap(log).Some?
    decreases |log|
  {
    var n := |log| - 1;
    if i < n { StillOpen(log[..n], i); }
  }

  /** Between two gap openings there is a re-anchor or a session boundary. */
  lemma GapsAlternate(ops: seq<Op>, i: nat, j: nat)
    requires i < j < |Run(Fresh([]), ops).log|
    requires IsGapOpened(Run(Fresh([]), ops).log[i]) && IsGapOpened(Run(Fresh([]), ops).log[j])
    ensures exists k :: i < k < j && EndsGap(Run(Fresh([]), ops).log[k])
  {
    hide Run;
    TiedRun(ops);
    var log := Run(Fresh([]), ops).log;
    assert Admissible(log[..j], log[j]);
    if forall k :: i < k < j ==> !EndsGap(log[k]) {
      StillOpen(log[..j], i);
      assert false;
    }
  }

  /** Every re-anchor closes the gap opened last, under its generation, at or past its evidence. */
  lemma ReAnchorMatchesOpener(ops: seq<Op>, j: nat) returns (i: nat)
    requires j < |Run(Fresh([]), ops).log|
    requires Run(Fresh([]), ops).log[j].Control? && Run(Fresh([]), ops).log[j].event.ReAnchored?
    ensures var log := Run(Fresh([]), ops).log;
      && i < j && IsGapOpened(log[i])
      && log[i].event.gen == log[j].event.gen && log[j].event.at >= log[i].event.ahead > log[i].event.from
      && forall k :: i < k < j ==> !EndsGap(log[k]) && !IsGapOpened(log[k])
  {
    hide Run;
    TiedRun(ops);
    var log := Run(Fresh([]), ops).log;
    assert Admissible(log[..j], log[j]);
    i := OpenerOf(log[..j]);
    assert Admissible(log[..i], log[i]);
    forall k | i < k < j ensures !EndsGap(log[k]) && !IsGapOpened(log[k]) {
      assert log[..j][k] == log[k];
    }
  }

  /** A message's proof era counts the gap openings and session boundaries before it; the same
      holds of the generation in the events that open an era. */
  lemma ProofEra(ops: seq<Op>, j: nat)
    requires j < |Run(Fresh([]), ops).log|
    ensures var log := Run(Fresh([]), ops).log;
      && !log[j].Span?
      && (log[j].Emit? ==> log[j].gen == Eras(log[..j]) % U64)
      && (OpensEra(log[j]) ==> log[j].event.gen == Eras(log[..j + 1]) % U64)
  {
    hide Run;
    TiedRun(ops);
    var log := Run(Fresh([]), ops).log;
    assert Admissible(log[..j], log[j]);
    Snoc(log[..j], log[j]);
    assert log[..j] + [log[j]] == log[..j + 1];
  }

  /** After the end of a session only a boundary or a seal may come; after a seal, nothing. */
  lemma NothingAfterTheEnd(ops: seq<Op>, i: nat)
    requires i < |Run(Fresh([]), ops).log| && Run(Fresh([]), ops).log[i].Control?
    ensures var log := Run(Fresh([]), ops).log;
      && (log[i].event.EndOfSession? && i + 1 < |log| ==>
            log[i + 1].Control? && (log[i + 1].event.SessionBoundary? || log[i + 1].event.SessionDead?))
      && (log[i].event.SessionDead? ==> i + 1 == |log|)
  {
    hide Run;
    TiedRun(ops);
    var log := Run(Fresh([]), ops).log;
    if i + 1 < |log| {
      assert Admissible(log[..i + 1], log[i + 1]);
    }
  }
}
