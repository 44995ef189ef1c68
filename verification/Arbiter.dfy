// The dual-feed sequencer as a function: its abstract state, with the staging window as a
// map from sequence numbers to payloads, and every operation on it.
module Arbiter {
  import opened Bytes
  import opened Itch
  import opened Mold

  const WINDOW: nat := 1024
  const NO_SESSION: Bytes := [0, 0, 0, 0, 0, 0, 0, 0, 0, 0]

  datatype State = Init | Contig | Gap | EosPersist | Ended | Dead

  datatype DeadReason = RetryExhausted | TcpUnreachable | Sealed

  datatype Event =
    | GapOpened(from: nat, ahead: nat, gen: nat)
    | ReAnchored(gen: nat, at: nat)
    | SessionBoundary(prev: Bytes, next: Bytes, gen: nat)
    | EndOfSession(session: Bytes, finalWm: nat, announcedNext: nat)
    | SessionDead(reason: DeadReason, lastWm: nat)

  /** What the sink sees: a message with its proof era, a control event, or a span of messages. */
  datatype Out =
    | Emit(gen: nat, seqNo: nat, data: Bytes)
    | Control(event: Event)
    | Span(era: nat, first: nat, count: nat, body: Bytes, cuts: seq<Block>)

  datatype FeedCounters = FeedCounters(packets: nat, dups: nat, bytes: nat)

  datatype Violations = Violations(
    truncated: nat, trailingBytes: nat, blockOverrun: nat, zeroLengthMessage: nat,
    seqOverflow: nat, payloadInvalid: nat)

  datatype Counters = Counters(
    feedA: FeedCounters, feedB: FeedCounters, violations: Violations, totalViolations: nat,
    stagedMsgs: nat, dupMsgs: nat, beyondWindowDropped: nat, windowFlushed: nat,
    gapOpens: nat, reanchors: nat, heartbeats: nat, eosSeen: nat, eosDup: nat, sessions: nat,
    dataAfterEos: nat, ignoredAfterDead: nat, intentsIssued: nat, msgsEmitted: nat)

  const NO_FEED := FeedCounters(0, 0, 0)
  const NO_COUNTS := Counters(NO_FEED, NO_FEED, Violations(0, 0, 0, 0, 0, 0), 0, 0, 0, 0, 0, 0, 0, 0, 0, 0, 0, 0, 0, 0, 0)

  datatype Arb = Arb(
    w: nat, gen: nat, session: Bytes, state: State, gapActive: bool, hwm: nat, maxStaged: nat,
    staged: map<nat, Bytes>, progressVt: nat, hbSeq: nat, hbVt: nat, pendingTo: Option<nat>,
    lastIntentVt: nat, ctr: Counters, log: seq<Out>)

  /** A new (or re-anchored) sequencer writing to a sink that has seen log. */
  function Fresh(log: seq<Out>): Arb {
    Arb(0, 0, NO_SESSION, Init, false, 0, 0, map[], 0, 0, 0, None, 0, NO_COUNTS, log)
  }

  // ---- counters -----------------------------------------------------------------------------

  function CountPacket(c: Counters, feed: nat, len: nat): Counters {
    if feed % 2 == 0 then c.(feedA := c.feedA.(packets := c.feedA.packets + 1, bytes := c.feedA.bytes + len))
    else c.(feedB := c.feedB.(packets := c.feedB.packets + 1, bytes := c.feedB.bytes + len))
  }

  function CountDup(c: Counters, feed: nat, msgs: nat): Counters {
    var c := c.(dupMsgs := c.dupMsgs + msgs);
    if feed % 2 == 0 then c.(feedA := c.feedA.(dups := c.feedA.dups + 1))
    else c.(feedB := c.feedB.(dups := c.feedB.dups + 1))
  }

  function RecordFrameError(v: Violations, e: FrameError): Violations {
    match e
    case Truncated(_, _) => v.(truncated := v.truncated + 1)
    case TrailingBytes(_) => v.(trailingBytes := v.trailingBytes + 1)
    case BlockOverrun => v.(blockOverrun := v.blockOverrun + 1)
    case ZeroLengthMessage => v.(zeroLengthMessage := v.zeroLengthMessage + 1)
    case SeqOverflow => v.(seqOverflow := v.seqOverflow + 1)
  }

  function RecordPacketError(v: Violations, e: PacketError): Violations {
    match e
    case Framing(f) => RecordFrameError(v, f)
    case Payload(_) => v.(payloadInvalid := v.payloadInvalid + 1)
  }

  function Violate(c: Counters, e: PacketError): Counters {
    c.(violations := RecordPacketError(c.violations, e), totalViolations := c.totalViolations + 1)
  }

  // ---- gap lifecycle --------------------------------------------------------------------------

  function NextGen(gen: nat): nat {
    (gen + 1) % U64
  }

  /** x is known to have been transmitted: open a gap, or extend the open one. */
  function GapEvidence(a: Arb, x: nat): Arb {
    if !a.gapActive && x > a.w then
      var g := NextGen(a.gen);
      a.(gapActive := true, gen := g, ctr := a.ctr.(gapOpens := a.ctr.gapOpens + 1), state := Gap, hwm := x,
         log := a.log + [Control(GapOpened(a.w, x, g))])
    else if a.gapActive then a.(hwm := Max(a.hwm, x))
    else a
  }

  function Max(x: nat, y: nat): nat {
    if x < y then y else x
  }

  function CheckGapClose(a: Arb): Arb {
    if a.gapActive && a.w >= a.hwm then
      a.(gapActive := false, state := Contig, ctr := a.ctr.(reanchors := a.ctr.reanchors + 1), hwm := 0,
         log := a.log + [Control(ReAnchored(a.gen, a.w))])
    else a
  }

  // ---- session lifecycle -----------------------------------------------------------------------

  function SessionDispatch(a: Arb, next: Bytes): Arb {
    if a.session == NO_SESSION then
      a.(session := next, ctr := a.ctr.(sessions := a.ctr.sessions + 1))
    else if a.session != next then
      var c := a.ctr.(sessions := a.ctr.sessions + 1);
      var g := NextGen(a.gen);
      a.(session := next, staged := map[], maxStaged := 0, gapActive := false, hwm := 0, hbSeq := 0, hbVt := 0,
         pendingTo := None, gen := g, state := Init,
         ctr := if a.staged != map[] then c.(windowFlushed := c.windowFlushed + 1) else c,
         log := a.log + [Control(SessionBoundary(a.session, next, g))])
    else a
  }

  function Heartbeat(a: Arb, seqNo: nat, now: nat): Arb {
    var a := a.(ctr := a.ctr.(heartbeats := a.ctr.heartbeats + 1));
    if a.state == Dead then a
    else if a.state == Init then a.(hbSeq := seqNo, hbVt := now)
    else if a.state == Ended then a
    else if seqNo > a.w then GapEvidence(a.(hbSeq := seqNo, hbVt := now), seqNo)
    else a
  }

  function End(a: Arb, announced: nat): Arb {
    a.(state := Ended, log := a.log + [Control(EndOfSession(a.session, a.w, announced))])
  }

  function Eos(a: Arb, announced: nat): Arb {
    match a.state
    case Dead => a
    case Ended => a.(ctr := a.ctr.(eosDup := a.ctr.eosDup + 1))
    case Init => End(a.(ctr := a.ctr.(eosSeen := a.ctr.eosSeen + 1)), announced)
    case EosPersist =>
      var a := a.(ctr := a.ctr.(eosDup := a.ctr.eosDup + 1));
      if a.w >= announced then End(a, announced) else a
    case _ =>
      var a := a.(ctr := a.ctr.(eosSeen := a.ctr.eosSeen + 1));
      if a.w < announced then a.(state := EosPersist) else End(a, announced)
  }

  function Seal(a: Arb, reason: DeadReason): Arb {
    if a.state == Dead then a
    else a.(state := Dead, log := a.log + [Control(SessionDead(reason, a.w))])
  }

  // ---- the staging window -----------------------------------------------------------------------

  /** Stage one message of the gap branch, or count it as dropped beyond the window. */
  function StageOne(a: Arb, m: Msg): Arb {
    if m.seqNo < a.w + WINDOW then
      a.(staged := a.staged[m.seqNo := m.data], ctr := a.ctr.(stagedMsgs := a.ctr.stagedMsgs + 1))
    else a.(ctr := a.ctr.(beyondWindowDropped := a.ctr.beyondWindowDropped + 1))
  }

  function StageAll(a: Arb, ms: seq<Msg>): Arb
    decreases |ms|
  {
    if ms == [] then a else StageOne(StageAll(a, ms[..|ms| - 1]), ms[|ms| - 1])
  }

  /** Drop the staged messages the watermark has passed. */
  function ClearPassed(a: Arb): Arb {
    if a.staged == map[] then a
    else
      var kept := map k | k in a.staged && k >= a.w :: a.staged[k];
      a.(staged := kept, maxStaged := if kept == map[] then 0 else a.maxStaged)
  }

  /** Emit the staged run starting at the watermark. */
  function DrainRun(a: Arb): Arb
    decreases |a.staged|
  {
    if a.w in a.staged then
      DrainRun(a.(w := a.w + 1, staged := a.staged - {a.w}, log := a.log + [Emit(a.gen, a.w, a.staged[a.w])]))
    else a
  }

  function Drain(a: Arb, now: nat): Arb {
    if a.staged == map[] then a
    else
      var d := DrainRun(a);
      var n := if d.w >= a.w then d.w - a.w else 0;
      d.(maxStaged := if d.staged == map[] then 0 else d.maxStaged,
         ctr := d.ctr.(msgsEmitted := d.ctr.msgsEmitted + n),
         progressVt := if n > 0 then now else d.progressVt)
  }

  // ---- data frames ----------------------------------------------------------------------------------

  function Outs(gen: nat, ms: seq<Msg>): (o: seq<Out>)
    ensures |o| == |ms|
  {
    seq(|ms|, i requires 0 <= i < |ms| => Emit(gen, ms[i].seqNo, ms[i].data))
  }

  function EmitAll(a: Arb, ms: seq<Msg>): Arb {
    a.(log := a.log + Outs(a.gen, ms), ctr := a.ctr.(msgsEmitted := a.ctr.msgsEmitted + |ms|))
  }

  function RetirePending(a: Arb): Arb {
    if a.pendingTo.Some? && a.w >= a.pendingTo.value then a.(pendingTo := None) else a
  }

  /** The watermark jumps past the frame: clear, drain, close the gap. */
  function Advance(a: Arb, last: nat, now: nat): Arb {
    var a := ClearPassed(a.(w := last + 1));
    var a := Drain(a.(progressVt := now), now);
    CheckGapClose(a)
  }

  /** How many leading blocks the watermark has passed. */
  function Skip(w: nat, first: nat, count: nat): nat
    requires first <= w
  {
    if w - first < count then w - first else count
  }

  /** first <= w: count the overlap as duplicate, emit the rest, advance. */
  function ApplyContiguous(a: Arb, d: Delivery, skip: nat, last: nat, now: nat): Arb {
    var a := a.(ctr := a.ctr.(dupMsgs := a.ctr.dupMsgs + skip));
    var a := EmitAll(a, d.msgs);
    if d.err.Some? then a.(ctr := Violate(a.ctr, d.err.value))
    else RetirePending(Advance(a, last, now))
  }

  /** first > w: record the gap, stage what fits in the window. */
  function ApplyAhead(a: Arb, d: Delivery, first: nat, last: nat, now: nat): Arb {
    var a := StageAll(GapEvidence(a, first), d.msgs);
    if d.err.Some? then a.(ctr := Violate(a.ctr, d.err.value))
    else
      var a := a.(hwm := if last >= a.w + WINDOW then Max(a.hwm, last + 1) else a.hwm, maxStaged := Max(a.maxStaged, last));
      RetirePending(CheckGapClose(Drain(a, now)))
  }

  /** Anchor the watermark at the first data packet of a session. */
  function Anchor(a: Arb, first: nat, now: nat): Arb {
    if a.state == Init then a.(w := first, progressVt := now, state := Contig) else a
  }

  function DataFrame(a: Arb, frame: Bytes, h: Header, feed: nat, now: nat): Arb
    requires |frame| >= HEADER_LEN && IsData(h)
  {
    var first, last := h.seqNo, h.seqNo + h.count - 1;
    if a.state == Ended then
      a.(ctr := a.ctr.(dataAfterEos := a.ctr.dataAfterEos + 1, totalViolations := a.ctr.totalViolations + 1))
    else if last >= U64 then a.(ctr := Violate(a.ctr, Framing(SeqOverflow)))
    else if a.state != Init && last < a.w then a.(ctr := CountDup(a.ctr, feed, h.count))
    else
      var a := Anchor(a, first, now);
      if first <= a.w then
        var skip := Skip(a.w, first, h.count);
        ApplyContiguous(a, IngestWalk(frame, first, h.count, skip), skip, last, now)
      else ApplyAhead(a, IngestWalk(frame, first, h.count, 0), first, last, now)
  }

  /** A frame with a header, before the end of the run. */
  function Live(a: Arb, frame: Bytes, feed: nat, now: nat): Arb
    requires |frame| >= HEADER_LEN
  {
    var h := HeaderOf(frame);
    var a := SessionDispatch(a, h.session);
    if h.count == HEARTBEAT_COUNT then Heartbeat(a, h.seqNo, now)
    else if h.count == EOS_COUNT then Eos(a, h.seqNo)
    else DataFrame(a, frame, h, feed, now)
  }

  /** One frame. */
  function Ingest(a: Arb, frame: Bytes, feed: nat, now: nat): Arb {
    var a := a.(ctr := CountPacket(a.ctr, feed, |frame|));
    if |frame| < HEADER_LEN then a.(ctr := Violate(a.ctr, Framing(Truncated(HEADER_LEN, |frame|))))
    else if a.state == Dead then a.(ctr := a.ctr.(ignoredAfterDead := a.ctr.ignoredAfterDead + 1))
    else Live(a, frame, feed, now)
  }

  // ---- recovery intents --------------------------------------------------------------------------------

  const TRIGGER_NS: nat := 250_000
  const RESUGGEST_NS: nat := 250_000
  const HWM_STAGED_THRESHOLD: nat := 512
  const MAX_WIRE_REQUEST: nat := 65535

  datatype Intent = Intent(from: nat, toExcl: nat)

  /** saturating_sub */
  function Since(now: nat, then_: nat): nat {
    if now >= then_ then now - then_ else 0
  }

  /** The trigger ladder: staged backlog or stalled staging, then a heartbeat ahead. */
  function Target(a: Arb, now: nat): Option<nat> {
    if (a.maxStaged > a.w && a.maxStaged - a.w >= HWM_STAGED_THRESHOLD)
       || (a.staged != map[] && Since(now, a.progressVt) >= TRIGGER_NS) then Some(a.maxStaged)
    else if a.hbSeq > a.w && Since(now, a.hbVt) >= TRIGGER_NS then Some(a.hbSeq)
    else None
  }

  function Issue(a: Arb, pending: nat, now: nat): (Arb, Option<Intent>) {
    (a.(pendingTo := Some(pending), lastIntentVt := now, ctr := a.ctr.(intentsIssued := a.ctr.intentsIssued + 1)),
     Some(Intent(a.w, pending)))
  }

  function RecoveryIntent(a: Arb, now: nat): (Arb, Option<Intent>) {
    var due := Since(now, a.lastIntentVt) >= RESUGGEST_NS;
    match Target(a, now)
    case Some(target) =>
      var t := if target < a.w + MAX_WIRE_REQUEST then target else a.w + MAX_WIRE_REQUEST;
      if a.pendingTo == None || t > a.pendingTo.value then Issue(a, t, now)
      else if due then Issue(a, a.pendingTo.value, now)
      else (a, None)
    case None =>
      if a.pendingTo.Some? && due then Issue(a, a.pendingTo.value, now) else (a, None)
  }

  // ---- runs --------------------------------------------------------------------------------------------

  datatype Op =
    | Frame(bytes: Bytes, feed: nat, at: nat)
    | Ask(at: nat)
    | Stop(reason: DeadReason)

  function Step(a: Arb, op: Op): Arb {
    match op
    case Frame(f, feed, now) => Ingest(a, f, feed, now)
    case Ask(now) => RecoveryIntent(a, now).0
    case Stop(reason) => Seal(a, reason)
  }

  function Run(a: Arb, ops: seq<Op>): Arb
    decreases |ops|
  {
    if ops == [] then a else Step(Run(a, ops[..|ops| - 1]), ops[|ops| - 1])
  }
}
