// The counters as a ledger of the run: what each of them says about the trace and the operations.
module Ledger {
  import opened Bytes
  import opened Itch
  import opened Mold
  import opened Arbiter
  import opened ArbiterInvariant

  /** How many entries of each kind a trace has. */
  datatype Tally = Tally(emits: nat, opens: nat, closes: nat)

  function Add(t: Tally, o: Out): Tally {
    match o
    case Emit(_, _, _) => t.(emits := t.emits + 1)
    case Control(GapOpened(_, _, _)) => t.(opens := t.opens + 1)
    case Control(ReAnchored(_, _)) => t.(closes := t.closes + 1)
    case _ => t
  }

  function Entries(log: seq<Out>): Tally
    decreases |log|
  {
    if log == [] then Tally(0, 0, 0) else Add(Entries(log[..|log| - 1]), log[|log| - 1])
  }

  lemma EntriesSnoc(log: seq<Out>, o: Out)
    ensures Entries(log + [o]) == Add(Entries(log), o)
  {
    assert (log + [o])[..|log|] == log;
  }

  lemma {:induction false} EntriesOuts(log: seq<Out>, gen: nat, ms: seq<Msg>)
    ensures Entries(log + Outs(gen, ms)) == Entries(log).(emits := Entries(log).emits + |ms|)
    decreases |ms|
  {
    if ms == [] {
      assert log + Outs(gen, ms) == log;
    } else {
      var n := |ms| - 1;
      var o := Emit(gen, ms[n].seqNo, ms[n].data);
      EntriesOuts(log, gen, ms[..n]);
      EntriesSnoc(log + Outs(gen, ms[..n]), o);
      assert log + Outs(gen, ms) == log + Outs(gen, ms[..n]) + [o];
    }
  }

  function Total(v: Violations): nat {
    v.truncated + v.trailingBytes + v.blockOverrun + v.zeroLengthMessage + v.seqOverflow + v.payloadInvalid
  }

  predicate CountsAre(c: Counters, t: Tally) {
    && c.msgsEmitted == t.emits && c.gapOpens == t.opens && c.reanchors == t.closes
    && c.totalViolations == Total(c.violations) + c.dataAfterEos
  }

  /** Messages emitted, gaps opened and closed are those of the trace; every violation has its kind. */
  ghost predicate Balanced(a: Arb) {
    CountsAre(a.ctr, Entries(a.log))
  }

  /** What only whole frames and calls count. */
  datatype Outer = Outer(aPackets: nat, aBytes: nat, bPackets: nat, bBytes: nat, heartbeats: nat, eos: nat,
                         intents: nat, ignored: nat, sessions: nat, flushed: nat)

  function OuterOf(c: Counters): Outer {
    Outer(c.feedA.packets, c.feedA.bytes, c.feedB.packets, c.feedB.bytes, c.heartbeats, c.eosSeen + c.eosDup,
          c.intentsIssued, c.ignoredAfterDead, c.sessions, c.windowFlushed)
  }

  /** The ledger stays balanced, and the outer counters alone. */
  ghost predicate Booked(a: Arb, b: Arb) {
    (Balanced(a) ==> Balanced(b)) && OuterOf(a.ctr) == OuterOf(b.ctr)
  }

  lemma BookedSteps(a: Arb, x: nat, now: nat)
    ensures Booked(a, ClearPassed(a)) && Booked(a, RetirePending(a)) && Booked(a, Beyond(a, x)) && Booked(a, Anchor(a, x, now))
    ensures Booked(a, a.(w := x)) && Booked(a, a.(progressVt := now))
    ensures Booked(a, GapEvidence(a, x)) && Booked(a, CheckGapClose(a))
  {
    EntriesSnoc(a.log, Control(GapOpened(a.w, x, NextGen(a.gen))));
    EntriesSnoc(a.log, Control(ReAnchored(a.gen, a.w)));
    hide Entries, NextGen;
  }

  lemma BookedEmit(a: Arb, ms: seq<Msg>, skip: nat)
    ensures Booked(a, EmitAll(a.(ctr := a.ctr.(dupMsgs := a.ctr.dupMsgs + skip)), ms))
  {
    EntriesOuts(a.log, a.gen, ms);
    hide Entries, Outs;
  }

  lemma {:induction false} DrainedEntries(a: Arb)
    ensures var d := DrainRun(a);
      d == a.(w := d.w, staged := d.staged, log := d.log) && d.w >= a.w
      && Entries(d.log) == Entries(a.log).(emits := Entries(a.log).emits + (d.w - a.w))
    decreases |a.staged|
  {
    if a.w in a.staged {
      var o := Emit(a.gen, a.w, a.staged[a.w]);
      DropOne(a.staged, a.w);
      EntriesSnoc(a.log, o);
      hide Entries;
      DrainedEntries(a.(w := a.w + 1, staged := a.staged - {a.w}, log := a.log + [o]));
    }
  }

  lemma BookedDrain(a: Arb, now: nat)
    ensures Booked(a, Drain(a, now))
  {
    DrainedEntries(a);
    hide DrainRun, Entries;
  }

  lemma {:induction false} BookedStage(a: Arb, ms: seq<Msg>)
    ensures Booked(a, StageAll(a, ms))
    decreases |ms|
  {
    hide Entries;
    if ms != [] { BookedStage(a, ms[..|ms| - 1]); }
  }

  lemma BookedViolation(a: Arb, e: PacketError)
    ensures Booked(a, a.(ctr := Violate(a.ctr, e)))
  {
    hide Entries;
  }

  lemma BookedContiguous(a: Arb, d: Delivery, skip: nat, last: nat, now: nat)
    ensures Booked(a, ApplyContiguous(a, d, skip, last, now))
  {
    hide Balanced, OuterOf, EmitAll, ClearPassed, Drain, CheckGapClose, RetirePending, Violate;
    var b := EmitAll(a.(ctr := a.ctr.(dupMsgs := a.ctr.dupMsgs + skip)), d.msgs);
    BookedEmit(a, d.msgs, skip);
    if d.err.Some? {
      BookedViolation(b, d.err.value);
    } else {
      BookedSteps(b, last + 1, now);
      BookedSteps(b.(w := last + 1), 0, now);
      var c := ClearPassed(b.(w := last + 1));
      BookedSteps(c, 0, now);
      BookedDrain(c.(progressVt := now), now);
      BookedSteps(Drain(c.(progressVt := now), now), 0, now);
      BookedSteps(CheckGapClose(Drain(c.(progressVt := now), now)), 0, now);
    }
  }

  lemma BookedAhead(a: Arb, d: Delivery, first: nat, last: nat, now: nat)
    ensures Booked(a, ApplyAhead(a, d, first, last, now))
  {
    hide Balanced, OuterOf, GapEvidence, StageAll, Drain, CheckGapClose, RetirePending, Violate;
    var g := GapEvidence(a, first);
    BookedSteps(a, first, now);
    BookedStage(g, d.msgs);
    var s := StageAll(g, d.msgs);
    if d.err.Some? {
      BookedViolation(s, d.err.value);
    } else {
      BookedSteps(s, last, now);
      var t := Beyond(s, last);
      BookedDrain(t, now);
      BookedSteps(Drain(t, now), 0, now);
      BookedSteps(CheckGapClose(Drain(t, now)), 0, now);
    }
  }

  lemma BookedData(a: Arb, frame: Bytes, h: Header, feed: nat, now: nat)
    requires |frame| >= HEADER_LEN && IsData(h)
    ensures Booked(a, DataFrame(a, frame, h, feed, now))
  {
    hide Entries, IngestWalk, ApplyContiguous, ApplyAhead;
    var first, last := h.seqNo, h.seqNo + h.count - 1;
    BookedViolation(a, Framing(SeqOverflow));
    if a.state != Ended && last < U64 && (a.state == Init || last >= a.w) {
      var b := Anchor(a, first, now);
      BookedSteps(a, first, now);
      if first <= b.w {
        var skip := Skip(b.w, first, h.count);
        BookedContiguous(b, IngestWalk(frame, first, h.count, skip), skip, last, now);
      } else {
        BookedAhead(b, IngestWalk(frame, first, h.count, 0), first, last, now);
      }
      hide Balanced;
    }
  }

  // ---- whole steps ----------------------------------------------------------------------------------------

  /** A frame of this session begins one: none was known, or another. */
  predicate Begins(a: Arb, session: Bytes) {
    a.session == NO_SESSION || a.session != session
  }

  /** What one operation adds to the outer counters. */
  ghost function Added(a: Arb, op: Op): Outer {
    match op
    case Frame(f, feed, _) =>
      var even := feed % 2 == 0;
      var live := |f| >= 20 && a.state != Dead;
      Outer(if even then 1 else 0, if even then |f| else 0, if even then 0 else 1, if even then 0 else |f|,
            if live && HeaderOf(f).count == 0 then 1 else 0,
            if live && HeaderOf(f).count == 65535 then 1 else 0,
            0, if |f| >= 20 && a.state == Dead then 1 else 0,
            if live && Begins(a, HeaderOf(f).session) then 1 else 0,
            if live && Begins(a, HeaderOf(f).session) && a.session != NO_SESSION && a.staged != map[] then 1 else 0)
    case Ask(now) => Outer(0, 0, 0, 0, 0, 0, if RecoveryIntent(a, now).1.Some? then 1 else 0, 0, 0, 0)
    case Stop(_) => Outer(0, 0, 0, 0, 0, 0, 0, 0, 0, 0)
  }

  function Plus(x: Outer, y: Outer): Outer {
    Outer(x.aPackets + y.aPackets, x.aBytes + y.aBytes, x.bPackets + y.bPackets, x.bBytes + y.bBytes,
          x.heartbeats + y.heartbeats, x.eos + y.eos, x.intents + y.intents, x.ignored + y.ignored,
          x.sessions + y.sessions, x.flushed + y.flushed)
  }

  lemma StepBooks(a: Arb, op: Op)
    requires Balanced(a)
    ensures Balanced(Step(a, op)) && OuterOf(Step(a, op).ctr) == Plus(OuterOf(a.ctr), Added(a, op))
  {
    hide Ingest, RecoveryIntent, Seal, Added, Balanced, OuterOf, Plus;
    match op
    case Frame(f, feed, now) => FrameBooks(a, f, feed, now);
    case Ask(now) => AskBooks(a, now);
    case Stop(reason) => SealBooks(a, reason);
  }

  lemma SealBooks(a: Arb, reason: DeadReason)
    requires Balanced(a)
    ensures Balanced(Seal(a, reason)) && OuterOf(Seal(a, reason).ctr) == Plus(OuterOf(a.ctr), Added(a, Stop(reason)))
  {
    EntriesSnoc(a.log, Control(SessionDead(reason, a.w)));
    hide Entries;
  }

  lemma AskBooks(a: Arb, now: nat)
    requires Balanced(a)
    ensures Balanced(RecoveryIntent(a, now).0) && OuterOf(RecoveryIntent(a, now).0.ctr) == Plus(OuterOf(a.ctr), Added(a, Ask(now)))
  {
    hide Entries;
  }

  lemma FrameBooks(a: Arb, f: Bytes, feed: nat, now: nat)
    requires Balanced(a)
    ensures Balanced(Ingest(a, f, feed, now))
    ensures OuterOf(Ingest(a, f, feed, now).ctr) == Plus(OuterOf(a.ctr), Added(a, Frame(f, feed, now)))
  {
    hide Entries, DataFrame, Heartbeat, Eos, SessionDispatch, Violate, HeaderOf;
    var b := a.(ctr := CountPacket(a.ctr, feed, |f|));
    BookedViolation(b, Framing(Truncated(HEADER_LEN, |f|)));
    if |f| >= HEADER_LEN && a.state != Dead {
      var h := HeaderOf(f);
      BookedDispatch(b, h.session);
      var c := SessionDispatch(b, h.session);
      if IsData(h) { BookedData(c, f, h, feed, now); } else { ControlBooks(c, h.seqNo, now); }
    }
  }

  lemma BookedDispatch(a: Arb, next: Bytes)
    ensures var b := SessionDispatch(a, next);
      && (Balanced(a) ==> Balanced(b)) && (a.state != Dead ==> b.state != Dead)
      && OuterOf(b.ctr) == OuterOf(a.ctr).(
           sessions := a.ctr.sessions + (if Begins(a, next) then 1 else 0),
           flushed := a.ctr.windowFlushed + if Begins(a, next) && a.session != NO_SESSION && a.staged != map[] then 1 else 0)
  {
    EntriesSnoc(a.log, Control(SessionBoundary(a.session, next, NextGen(a.gen))));
    hide Entries, NextGen;
  }

  lemma ControlBooks(a: Arb, seqNo: nat, now: nat)
    requires Balanced(a) && a.state != Dead
    ensures Balanced(Heartbeat(a, seqNo, now)) && Balanced(Eos(a, seqNo))
    ensures OuterOf(Heartbeat(a, seqNo, now).ctr) == OuterOf(a.ctr).(heartbeats := a.ctr.heartbeats + 1)
    ensures OuterOf(Eos(a, seqNo).ctr) == OuterOf(a.ctr).(eos := a.ctr.eosSeen + a.ctr.eosDup + 1)
  {
    EntriesSnoc(a.log, Control(GapOpened(a.w, seqNo, NextGen(a.gen))));
    EntriesSnoc(a.log, Control(EndOfSession(a.session, a.w, seqNo)));
    hide Entries, NextGen;
  }

  /** What a run adds up to. */
  ghost function Sum(ops: seq<Op>): Outer
    decreases |ops|
  {
    if ops == [] then Outer(0, 0, 0, 0, 0, 0, 0, 0, 0, 0)
    else Plus(Sum(ops[..|ops| - 1]), Added(Run(Fresh([]), ops[..|ops| - 1]), ops[|ops| - 1]))
  }

  /** After every run at all: the counters of messages, gaps and violations are those of the trace, and the
      counters of packets, bytes, heartbeats, ends of session, intents and ignored frames are those of the
      operations. */
  lemma {:induction false} EveryRunBalances(ops: seq<Op>)
    ensures var a := Run(Fresh([]), ops); Balanced(a) && OuterOf(a.ctr) == Sum(ops)
    decreases |ops|
  {
    hide Step, Balanced, OuterOf, Added, Plus;
    var a := Fresh([]);
    if ops == [] {
      FreshBalances(a);
    } else {
      EveryRunBalances(ops[..|ops| - 1]);
      StepBooks(Run(a, ops[..|ops| - 1]), ops[|ops| - 1]);
    }
  }

  lemma FreshBalances(a: Arb)
    requires a.log == [] && a.ctr == NO_COUNTS
    ensures Balanced(a) && OuterOf(a.ctr) == Outer(0, 0, 0, 0, 0, 0, 0, 0, 0, 0)
  {
    hide *;
    NoEntries(a.log);
    NothingCounted(a.ctr, Entries(a.log));
    BalancedIs(a);
  }

  lemma BalancedIs(a: Arb)
    requires CountsAre(a.ctr, Entries(a.log))
    ensures Balanced(a)
  {
  }

  lemma NothingCounted(c: Counters, t: Tally)
    requires c == NO_COUNTS && t == Tally(0, 0, 0)
    ensures CountsAre(c, t) && OuterOf(c) == Outer(0, 0, 0, 0, 0, 0, 0, 0, 0, 0)
  {
    hide NO_COUNTS, Total, OuterOf;
    NoCounts(c);
    NoOuter(c);
    NoViolations(c.violations);
  }

  lemma NoCounts(c: Counters)
    requires c == NO_COUNTS
    ensures c.msgsEmitted == 0 && c.gapOpens == 0 && c.reanchors == 0 && c.totalViolations == 0 && c.dataAfterEos == 0
    ensures c.violations == Violations(0, 0, 0, 0, 0, 0)
  {
  }

  lemma NoOuter(c: Counters)
    requires c == NO_COUNTS
    ensures OuterOf(c) == Outer(0, 0, 0, 0, 0, 0, 0, 0, 0, 0)
  {
  }

  lemma NoViolations(v: Violations)
    ensures v == Violations(0, 0, 0, 0, 0, 0) ==> Total(v) == 0
  {
  }

  lemma NoEntries(log: seq<Out>)
    requires log == []
    ensures Entries(log) == Tally(0, 0, 0)
  {
  }

  // ---- violations by kind -----------------------------------------------------------------------------------

  /** Every error is counted once, under its own kind. */
  lemma CountedByKind(c: Counters, e: PacketError)
    ensures var v, w := c.violations, Violate(c, e).violations;
      && w.truncated == v.truncated + (if e.Framing? && e.f.Truncated? then 1 else 0)
      && w.trailingBytes == v.trailingBytes + (if e.Framing? && e.f.TrailingBytes? then 1 else 0)
      && w.blockOverrun == v.blockOverrun + (if e == Framing(BlockOverrun) then 1 else 0)
      && w.zeroLengthMessage == v.zeroLengthMessage + (if e == Framing(ZeroLengthMessage) then 1 else 0)
      && w.seqOverflow == v.seqOverflow + (if e == Framing(SeqOverflow) then 1 else 0)
      && w.payloadInvalid == v.payloadInvalid + (if e.Payload? then 1 else 0)
      && Total(w) == Total(v) + 1 && Violate(c, e).totalViolations == c.totalViolations + 1
  {
  }
}
