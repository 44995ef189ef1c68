// The second producer's drain as a machine of interleaved steps: its pushes, arrivals and cursor
// stores on one side, the consumer's retires on the other.
module DualDrain {
  import opened Mold
  import opened LaneTerritory
  import opened LeafRing
  import Modular
  import PassGrid

  const ARR_SLOTS: nat := 2048

  function PassSlot(pass: nat): (i: nat)
    ensures i < ARR_SLOTS
  {
    pass % ARR_SLOTS
  }

  /** What the arm fixes for the whole run. */
  datatype Cfg = Cfg(firstPass: nat, foldInit: nat, passBase: nat, passSpans: nat, count1: nat)

  /** The drain starts inside lane 1; pass ids start at one. */
  predicate GoodCfg(c: Cfg) {
    InLane(c.foldInit, 1) && c.passSpans > 0 && c.firstPass > 0
  }

  /** The pass boundaries: the base at the arm, then one per pass. */
  function Bound(c: Cfg, n: nat): nat {
    if n == 0 then c.passBase else Bound(c, n - 1) + c.passSpans
  }

  datatype Arrival = Arrival(pass: nat, count: nat, start: nat, len: nat)

  /** Where the drain is inside one record. */
  datatype Pc = Ready | Taken(k: nat, value: nat) | Allowed(k: nat, value: nat) | Written(k: nat, value: nat)
              | Crossing | SlotSet | SeqSet

  datatype Sys = Sys(
    // shared words
    ring: seq<Leaf>, len: nat, consumed: nat, arrivals: seq<Arrival>, arrivalSeq: nat, p1Fold: nat,
    // the drain's own
    pc: Pc, pass: nat, foldPos: nat, foldRem: nat, nextBound: nat, passEnd: nat, runStart: nat,
    // what happened so far
    pushed: seq<Leaf>, published: seq<Arrival>)

  function Armed(c: Cfg): Sys {
    Sys(seq(J1_CAP, _ => Leaf(0, 0, 0)), 0, 0, seq(ARR_SLOTS, _ => Arrival(0, 0, 0, 0)), if c.firstPass > 0 then c.firstPass - 1 else 0, c.foldInit,
        Ready, c.firstPass, c.foldInit, CHUNK - c.foldInit % CHUNK, Bound(c, 1), LaneEndAt(Bound(c, 1), 1), 0, [], [])
  }

  /** Records never straddle a pass boundary. */
  ghost predicate NoStraddle(c: Cfg, start: nat, end: nat) {
    forall m: nat :: m >= 1 ==> !(start < Bound(c, m) < end)
  }

  datatype Action =
    | Take(k: nat, value: nat)  // the next record of lane 1's ring
    | Admit                     // the push gate opens
    | Write                     // the slot is written
    | Publish                   // the length is stored, the cursor advanced
    | StoreSlot                 // crossing: the arrival's slot
    | StoreSeq                  // crossing: the arrival sequence
    | StoreFold                 // crossing: the cursor, and on to the next boundary
    | Next                      // no boundary left to cross
    | Finish                    // the drain call ends: the cursor
    | Retire(upto: nat)         // the consumer gives slots back

  ghost predicate Enabled(c: Cfg, s: Sys, a: Action) {
    match a
    case Take(k, _) => s.pc == Ready && 1 <= k <= s.foldRem && NoStraddle(c, s.foldPos, s.foldPos + k)
    case Admit => s.pc.Taken? && s.len <= s.consumed + (J1_CAP - J1_HEADROOM)
    case Write => s.pc.Allowed? && |s.ring| == J1_CAP
    case Publish => s.pc.Written? && s.pc.k <= s.foldRem
    case StoreSlot => s.pc == Crossing && s.foldPos >= s.passEnd && s.runStart <= s.len && |s.arrivals| == ARR_SLOTS
    case StoreSeq => s.pc == SlotSet && s.runStart <= s.len
    case StoreFold => s.pc == SeqSet
    case Next => s.pc == Crossing && s.foldPos < s.passEnd
    case Finish => s.pc == Ready
    case Retire(upto) => s.consumed <= upto <= s.len
  }

  /** One step. */
  ghost function Do(c: Cfg, s: Sys, a: Action): Sys
    requires Enabled(c, s, a)
  {
    match a
    case Take(k, value) => s.(pc := Taken(k, value))
    case Admit => s.(pc := Allowed(s.pc.k, s.pc.value))
    case Write =>
      var leaf := Leaf(s.pc.k, s.pc.value, s.foldPos + s.pc.k);
      s.(ring := s.ring[SlotOf(s.len) := leaf], pushed := s.pushed + [leaf], pc := Written(s.pc.k, s.pc.value))
    case Publish =>
      var end, rem := s.foldPos + s.pc.k, s.foldRem - s.pc.k;
      s.(len := s.len + 1, runStart := if end <= c.passBase then s.len + 1 else s.runStart,
         foldPos := if rem == 0 then end + CHUNK else end, foldRem := if rem == 0 then CHUNK else rem, pc := Crossing)
    case StoreSlot =>
      s.(arrivals := s.arrivals[PassSlot(s.pass) := Arrival(s.pass, c.count1, s.runStart, s.len - s.runStart)], pc := SlotSet)
    case StoreSeq =>
      s.(arrivalSeq := s.pass, published := s.published + [Arrival(s.pass, c.count1, s.runStart, s.len - s.runStart)], pc := SeqSet)
    case StoreFold =>
      var next := s.nextBound + c.passSpans;
      s.(p1Fold := s.passEnd, runStart := s.len, pass := s.pass + 1, nextBound := next, passEnd := LaneEndAt(next, 1), pc := Crossing)
    case Next => s.(pc := Ready)
    case Finish => s.(p1Fold := s.foldPos)
    case Retire(upto) => s.(consumed := upto)
  }

  /** The state after a run of steps, if every one was enabled in its turn. */
  ghost function RunTo(c: Cfg, acts: seq<Action>): Option<Sys>
    decreases |acts|
  {
    if acts == [] then Some(Armed(c))
    else
      var before := RunTo(c, acts[..|acts| - 1]);
      if before.Some? && Enabled(c, before.value, acts[|acts| - 1])
      then Some(Do(c, before.value, acts[|acts| - 1])) else None
  }

  // ---- the ring -----------------------------------------------------------------------------

  /** Every leaf the consumer has not retired is intact in its slot. */
  ghost predicate RingInv(s: Sys) {
    && Holds(s.ring, s.pushed, s.consumed)
    && |s.pushed| == s.len + (if s.pc.Written? then 1 else 0)
    && s.consumed <= s.len
    && (s.pc.Allowed? ==> s.len <= s.consumed + (J1_CAP - J1_HEADROOM))
    && s.len <= s.consumed + (J1_CAP - J1_HEADROOM) + (if s.pc.Written? then 0 else 1)
  }

  lemma RingStep(c: Cfg, s: Sys, a: Action)
    requires RingInv(s) && Enabled(c, s, a)
    ensures RingInv(Do(c, s, a))
  {
    hide Holds, SlotOf, NoStraddle;
    if a.Write? {
      PushHolds(s.ring, s.pushed, s.consumed, Leaf(s.pc.k, s.pc.value, s.foldPos + s.pc.k));
    } else if a.Retire? {
      HoldsLess(s.ring, s.pushed, s.consumed, a.upto);
    }
  }

  lemma HoldsLess(ring: seq<Leaf>, pushed: seq<Leaf>, lo: nat, lo': nat)
    requires Holds(ring, pushed, lo) && lo <= lo' <= |pushed|
    ensures Holds(ring, pushed, lo')
  {
  }

  // ---- the boundary ladder ------------------------------------------------------------------------

  predicate OutsideCrossing(pc: Pc) {
    pc == Ready || pc.Taken? || pc.Allowed? || pc.Written?
  }

  ghost predicate Ladder(c: Cfg, s: Sys) {
    && s.pass >= c.firstPass > 0
    && var n := s.pass - c.firstPass;
    && s.nextBound == Bound(c, n + 1) && s.passEnd == LaneEndAt(s.nextBound, 1)
    && InLane(s.foldPos, 1) && s.foldRem == CHUNK - s.foldPos % CHUNK
    && |s.published| == n + (if s.pc == SeqSet then 1 else 0)
    && s.arrivalSeq == c.firstPass - 1 + |s.published|
    && (s.pc == SlotSet || s.pc == SeqSet ==> s.foldPos >= s.nextBound)
    && s.p1Fold <= s.foldPos
    && (s.pc.Taken? || s.pc.Allowed? || s.pc.Written? ==> 1 <= s.pc.k <= s.foldRem)
  }

  lemma LadderStep(c: Cfg, s: Sys, a: Action)
    requires Ladder(c, s) && Enabled(c, s, a)
    ensures Ladder(c, Do(c, s, a))
  {
    hide NoStraddle, InLane, LaneEndAt;
    if a.Publish? {
      AdvanceInLane(s.foldPos, s.pc.k);
    } else if a.StoreSlot? {
      CursorLaw(s.foldPos, s.nextBound, 1);
    } else if a.StoreFold? {
      CursorLaw(s.foldPos, s.nextBound, 1);
    }
  }

  /** The record's end, or the start of the lane's next chunk when it ends the chunk. */
  lemma AdvanceInLane(p: nat, k: nat)
    requires InLane(p, 1) && 1 <= k <= CHUNK - p % CHUNK
    ensures var q := if k == CHUNK - p % CHUNK then p + k + CHUNK else p + k;
      InLane(q, 1) && CHUNK - q % CHUNK == if k == CHUNK - p % CHUNK then CHUNK else CHUNK - p % CHUNK - k
  {
    var c, r := p / CHUNK, p % CHUNK;
    if k == CHUNK - r {
      assert p + k + CHUNK == (c + 2) * CHUNK;
    } else {
      assert p + k == c * CHUNK + (r + k);
    }
  }

  lemma {:induction false} BoundsGrow(c: Cfg, m: nat, n: nat)
    requires m < n
    ensures Bound(c, n) >= Bound(c, m) + c.passSpans
    decreases n
  {
    if m < n - 1 { BoundsGrow(c, m, n - 1); }
  }

  // ---- the cursor -----------------------------------------------------------------------------------

  /** The start was before the first boundary, or a record has been drained to its end. */
  ghost predicate Settled(c: Cfg, s: Sys) {
    c.foldInit < Bound(c, 1) || s.len >= 2 || (s.len == 1 && OutsideCrossing(s.pc))
  }

  /** Between records the cursor, and the published one, are before the next boundary; the published
      cursor never passes the projection of the first boundary without an arrival. */
  ghost predicate Cursors(c: Cfg, s: Sys) {
    && (s.pass > c.firstPass ==> s.foldPos >= Bound(c, s.pass - c.firstPass))
    && (Settled(c, s) && OutsideCrossing(s.pc) ==> s.foldPos < s.nextBound && s.p1Fold < s.passEnd)
    && (Settled(c, s) ==> s.p1Fold <= LaneEndAt(Bound(c, |s.published| + 1), 1))
    && (Settled(c, s) && (s.pc.Taken? || s.pc.Allowed? || s.pc.Written?) ==> s.foldPos + s.pc.k <= s.nextBound)
  }

  ghost predicate Timely(c: Cfg, s: Sys) {
    Ladder(c, s) && Cursors(c, s)
  }

  lemma TimelyStep(c: Cfg, s: Sys, a: Action)
    requires Timely(c, s) && Enabled(c, s, a)
    ensures Timely(c, Do(c, s, a))
  {
    LadderStep(c, s, a);
    hide Ladder, Cursors, Enabled, Do;
    IsRungs(c, s);
    match a
    case StoreSlot => CursorsCrossing(c, s, a);
    case StoreSeq => CursorsCrossing(c, s, a);
    case StoreFold => CursorsStoreFold(c, s);
    case Finish => CursorsRest(c, s, a);
    case Retire(_) => CursorsRest(c, s, a);
    case Next => CursorsRest(c, s, a);
    case _ => CursorsRecord(c, s, a);
  }

  /** The parts of the ladder used beside it. */
  ghost predicate Rungs(c: Cfg, s: Sys) {
    && s.pass >= c.firstPass
    && var n := s.pass - c.firstPass;
    && s.nextBound == Bound(c, n + 1) && s.passEnd == LaneEndAt(s.nextBound, 1)
    && |s.published| == n + (if s.pc == SeqSet then 1 else 0) && s.p1Fold <= s.foldPos
    && Bound(c, n + 2) == s.nextBound + c.passSpans
    && (s.pc == SlotSet || s.pc == SeqSet ==> s.foldPos >= s.nextBound)
    && s.passEnd <= s.nextBound
    && (s.foldPos >= s.passEnd <==> s.foldPos >= s.nextBound)
    && s.passEnd <= LaneEndAt(s.nextBound + c.passSpans, 1)
  }

  lemma IsRungs(c: Cfg, s: Sys)
    requires Ladder(c, s)
    ensures Rungs(c, s)
  {
    hide NoStraddle, InLane, LaneEndAt;
    LaneEndLaw(s.nextBound, 1);
    CursorLaw(s.foldPos, s.nextBound, 1);
    LaneEndMonotone(s.nextBound, s.nextBound + c.passSpans, 1);
  }

  lemma CursorsRecord(c: Cfg, s: Sys, a: Action)
    requires Rungs(c, s) && Cursors(c, s) && Enabled(c, s, a) && (a.Take? || a.Admit? || a.Write? || a.Publish?)
    ensures Cursors(c, Do(c, s, a))
  {
    if a.Take? {
      assert !(s.foldPos < Bound(c, s.pass - c.firstPass + 1) < s.foldPos + a.k);
    }
    hide NoStraddle, InLane, LaneEndAt, SlotOf, Bound;
  }

  lemma CursorsCrossing(c: Cfg, s: Sys, a: Action)
    requires Rungs(c, s) && Cursors(c, s) && Enabled(c, s, a) && (a.StoreSlot? || a.StoreSeq?)
    ensures Cursors(c, Do(c, s, a))
  {
    hide NoStraddle, InLane, LaneEndAt, SlotOf, Bound;
  }

  lemma CursorsStoreFold(c: Cfg, s: Sys)
    requires Rungs(c, s) && Cursors(c, s) && Enabled(c, s, StoreFold)
    ensures Cursors(c, Do(c, s, StoreFold))
  {
    hide NoStraddle, InLane, LaneEndAt, SlotOf, Bound;
  }

  lemma CursorsRest(c: Cfg, s: Sys, a: Action)
    requires Rungs(c, s) && Cursors(c, s) && Enabled(c, s, a) && (a.Finish? || a.Retire? || a.Next?)
    ensures Cursors(c, Do(c, s, a))
  {
    hide NoStraddle, InLane, LaneEndAt, SlotOf, Bound;
  }

  /** The published cursor stays strictly before the projection of the first boundary without an
      arrival: whoever sees it at a boundary's projection finds the arrival. */
  ghost predicate Ahead(c: Cfg, s: Sys) {
    Settled(c, s) ==> s.p1Fold < LaneEndAt(Bound(c, |s.published| + 1), 1)
  }

  /** Every two consecutive boundaries have a position of lane 1 between them. */
  ghost predicate Distinct(c: Cfg) {
    forall n: nat :: n >= 1 ==> LaneEndAt(Bound(c, n), 1) < LaneEndAt(Bound(c, n + 1), 1)
  }

  lemma AheadStep(c: Cfg, s: Sys, a: Action)
    requires Timely(c, s) && Ahead(c, s) && Enabled(c, s, a) && Distinct(c)
    ensures Ahead(c, Do(c, s, a))
  {
    hide *;
    TimelyParts(c, s);
    var n := s.pass - c.firstPass;
    DistinctAt(c, n + 1);
    AheadKeeps(c, s, a);
  }

  lemma TimelyParts(c: Cfg, s: Sys)
    requires Timely(c, s)
    ensures Rungs(c, s) && Cursors(c, s) && s.pass >= c.firstPass
  {
    IsRungs(c, s);
    hide Ladder, Cursors, Bound, LaneEndAt;
  }

  lemma DistinctAt(c: Cfg, n: nat)
    requires Distinct(c) && n >= 1
    ensures LaneEndAt(Bound(c, n), 1) < LaneEndAt(Bound(c, n + 1), 1)
  {
  }

  lemma AheadKeeps(c: Cfg, s: Sys, a: Action)
    requires Rungs(c, s) && Cursors(c, s) && Ahead(c, s) && Enabled(c, s, a)
    requires s.pass >= c.firstPass
    requires var n := s.pass - c.firstPass; LaneEndAt(Bound(c, n + 1), 1) < LaneEndAt(Bound(c, n + 2), 1)
    ensures Ahead(c, Do(c, s, a))
  {
    hide NoStraddle, InLane, LaneEndAt, SlotOf, Bound;
  }

  // ---- the arrival windows ------------------------------------------------------------------------------

  /** Window j is exactly the leaves ending after boundary j and at or before boundary j + 1. */
  ghost predicate Window(c: Cfg, s: Sys, j: nat)
    requires j < |s.published| && s.len <= |s.pushed|
  {
    var v := s.published[j];
    && v.pass == c.firstPass + j && v.count == c.count1 && v.start + v.len <= s.len
    && forall i: nat :: i < s.len ==> (v.start <= i < v.start + v.len <==> Bound(c, j) < s.pushed[i].end <= Bound(c, j + 1))
  }

  ghost predicate AllWindows(c: Cfg, s: Sys) {
    && s.len <= |s.pushed|
    && (forall j: nat :: j < |s.published| ==> Window(c, s, j))
    && (forall j: nat :: j + 1 < |s.published| ==> s.published[j + 1].start == s.published[j].start + s.published[j].len)
  }

  /** The first len leaves end at or before the cursor and the next boundary; the run's leaves are
      those that end after the last one. */
  ghost predicate Ends(pushed: seq<Leaf>, len: nat, runStart: nat, last: nat, cursor: nat, next: nat) {
    && runStart <= len <= |pushed|
    && (forall i: nat :: i < len ==> pushed[i].end <= cursor && pushed[i].end <= next)
    && (forall i: nat :: i < len ==> (i < runStart <==> pushed[i].end <= last))
  }

  lemma EndsPush(pushed: seq<Leaf>, len: nat, runStart: nat, last: nat, cursor: nat, next: nat, end: nat, cursor': nat)
    requires Ends(pushed, len, runStart, last, cursor, next) && len < |pushed| && pushed[len].end == end
    requires cursor < end <= cursor' && end <= next
    ensures end > last ==> Ends(pushed, len + 1, runStart, last, cursor', next)
    ensures end <= last ==> Ends(pushed, len + 1, len + 1, last, cursor', next)
  {
  }

  lemma EndsNext(pushed: seq<Leaf>, len: nat, runStart: nat, last: nat, cursor: nat, next: nat, next': nat)
    requires Ends(pushed, len, runStart, last, cursor, next) && next <= next'
    ensures Ends(pushed, len, len, next, cursor, next')
  {
  }

  lemma EndsMore(pushed: seq<Leaf>, len: nat, runStart: nat, last: nat, cursor: nat, next: nat, leaf: Leaf)
    requires Ends(pushed, len, runStart, last, cursor, next)
    ensures Ends(pushed + [leaf], len, runStart, last, cursor, next)
  {
  }

  ghost predicate Run(c: Cfg, s: Sys) {
    && s.pass >= c.firstPass
    && var n := s.pass - c.firstPass;
    && s.runStart <= s.len <= |s.pushed|
    && (s.pc.Written? ==> |s.pushed| == s.len + 1 && s.pushed[s.len].end == s.foldPos + s.pc.k)
    && Ends(s.pushed, s.len, s.runStart, Bound(c, n), s.foldPos, s.nextBound)
    && (s.published != [] ==>
          var v := s.published[|s.published| - 1]; v.start + v.len == if s.pc == SeqSet then s.len else s.runStart)
  }

  /** What the other invariants contribute to a window step. */
  ghost predicate Beside(c: Cfg, s: Sys) {
    && s.pass >= c.firstPass
    && var n := s.pass - c.firstPass;
    && s.nextBound == Bound(c, n + 1) && Bound(c, n) <= Bound(c, n + 1)
    && |s.published| == n + (if s.pc == SeqSet then 1 else 0)
    && |s.pushed| == s.len + (if s.pc.Written? then 1 else 0)
    && (n == 0 ==> Bound(c, n) == c.passBase)
    && (n >= 1 ==> s.foldPos >= Bound(c, n) >= c.passBase)
    && (s.pc.Taken? || s.pc.Allowed? || s.pc.Written? ==> s.foldPos + s.pc.k <= s.nextBound && s.pc.k >= 1)
    && (s.pc == SlotSet || s.pc == SeqSet ==> s.foldPos >= s.nextBound)
  }

  lemma IsBeside(c: Cfg, s: Sys)
    requires Timely(c, s) && RingInv(s) && c.foldInit < Bound(c, 1)
    ensures Beside(c, s)
  {
    IsRungs(c, s);
    var n := s.pass - c.firstPass;
    if n >= 1 { BoundsGrow(c, 0, n); }
    hide NoStraddle, InLane, LaneEndAt, SlotOf, Holds;
  }

  lemma RunStep(c: Cfg, s: Sys, a: Action)
    requires Timely(c, s) && RingInv(s) && c.foldInit < Bound(c, 1) && Run(c, s) && Enabled(c, s, a)
    ensures Run(c, Do(c, s, a))
  {
    hide *;
    IsBeside(c, s);
    match a
    case Publish => RunPublish(c, s);
    case Write => RunWrite(c, s);
    case StoreFold => RunStoreFold(c, s);
    case _ => RunRest(c, s, a);
  }

  lemma RunPublish(c: Cfg, s: Sys)
    requires Beside(c, s) && Run(c, s) && Enabled(c, s, Publish)
    ensures Run(c, Do(c, s, Publish))
  {
    hide NoStraddle, InLane, LaneEndAt, SlotOf, Holds, Bound, Ends;
    var n := s.pass - c.firstPass;
    var end := s.foldPos + s.pc.k;
    EndsPush(s.pushed, s.len, s.runStart, Bound(c, n), s.foldPos, s.nextBound, end, Do(c, s, Publish).foldPos);
    EndsBounds(s.pushed, s.len, s.runStart, Bound(c, n), s.foldPos, s.nextBound);
    EndsBounds(s.pushed, s.len + 1, Do(c, s, Publish).runStart, Bound(c, n), Do(c, s, Publish).foldPos, s.nextBound);
  }

  lemma EndsBounds(pushed: seq<Leaf>, len: nat, runStart: nat, last: nat, cursor: nat, next: nat)
    requires Ends(pushed, len, runStart, last, cursor, next)
    ensures runStart <= len <= |pushed|
  {
  }

  lemma RunWrite(c: Cfg, s: Sys)
    requires Beside(c, s) && Run(c, s) && Enabled(c, s, Write)
    ensures Run(c, Do(c, s, Write))
  {
    hide NoStraddle, InLane, LaneEndAt, SlotOf, Holds, Bound, Ends;
    var n := s.pass - c.firstPass;
    EndsMore(s.pushed, s.len, s.runStart, Bound(c, n), s.foldPos, s.nextBound, Do(c, s, Write).pushed[s.len]);
  }

  lemma RunStoreFold(c: Cfg, s: Sys)
    requires Beside(c, s) && Run(c, s) && Enabled(c, s, StoreFold)
    ensures Run(c, Do(c, s, StoreFold))
  {
    hide NoStraddle, InLane, LaneEndAt, SlotOf, Holds, Ends;
    var n := s.pass - c.firstPass;
    NextBoundIs(c, n + 1);
    hide Bound;
    EndsNext(s.pushed, s.len, s.runStart, Bound(c, n), s.foldPos, s.nextBound, s.nextBound + c.passSpans);
  }

  lemma RunRest(c: Cfg, s: Sys, a: Action)
    requires Beside(c, s) && Run(c, s) && Enabled(c, s, a) && !a.Publish? && !a.Write? && !a.StoreFold?
    ensures Run(c, Do(c, s, a))
  {
    hide NoStraddle, InLane, LaneEndAt, SlotOf, Holds, Bound, Ends;
  }

  lemma NextBoundIs(c: Cfg, n: nat)
    ensures Bound(c, n + 1) == Bound(c, n) + c.passSpans
  {
  }

  lemma WindowsStep(c: Cfg, s: Sys, a: Action)
    requires Timely(c, s) && RingInv(s) && c.foldInit < Bound(c, 1) && Run(c, s) && AllWindows(c, s) && Enabled(c, s, a)
    ensures AllWindows(c, Do(c, s, a))
  {
    hide *;
    IsBeside(c, s);
    match a
    case Publish => WindowsPublish(c, s);
    case StoreSeq => WindowsStoreSeq(c, s);
    case _ => WindowsRest(c, s, a);
  }

  /** A new leaf ends after every boundary with an arrival: it joins no published window. */
  lemma WindowsPublish(c: Cfg, s: Sys)
    requires Beside(c, s) && Run(c, s) && AllWindows(c, s) && Enabled(c, s, Publish)
    ensures AllWindows(c, Do(c, s, Publish))
  {
    var n := s.pass - c.firstPass;
    var t := Do(c, s, Publish);
    hide NoStraddle, InLane, LaneEndAt, SlotOf, Holds, Bound;
    forall j: nat | j < |t.published| ensures Window(c, t, j) {
      assert Window(c, s, j);
      if j + 1 < n { BoundsGrow(c, j + 1, n); }
    }
  }

  /** The crossing publishes the current run: exactly the leaves since the last boundary. */
  lemma WindowsStoreSeq(c: Cfg, s: Sys)
    requires Beside(c, s) && Run(c, s) && AllWindows(c, s) && Enabled(c, s, StoreSeq)
    ensures AllWindows(c, Do(c, s, StoreSeq))
  {
    var n := s.pass - c.firstPass;
    var t := Do(c, s, StoreSeq);
    hide NoStraddle, InLane, LaneEndAt, SlotOf, Holds, Bound;
    forall j: nat | j < |t.published| ensures Window(c, t, j) {
      if j < n { assert Window(c, s, j); }
    }
  }

  lemma WindowsRest(c: Cfg, s: Sys, a: Action)
    requires AllWindows(c, s) && Enabled(c, s, a) && !a.Publish? && !a.StoreSeq? && Beside(c, s)
    ensures AllWindows(c, Do(c, s, a))
  {
    var t := Do(c, s, a);
    hide NoStraddle, InLane, LaneEndAt, SlotOf, Holds, Bound;
    forall j: nat | j < |t.published| ensures Window(c, t, j) {
      assert Window(c, s, j);
    }
  }

  // ---- the arrival slots -------------------------------------------------------------------------------

  /** The slot of the j-th armed pass. */
  ghost function ArrivalSlot(c: Cfg, j: nat): (i: nat)
    ensures i < ARR_SLOTS
  {
    PassSlot(c.firstPass + j)
  }

  /** The slots of the last lap of arrivals hold them. */
  ghost predicate Slots(c: Cfg, s: Sys) {
    && |s.arrivals| == ARR_SLOTS && s.pass >= c.firstPass && s.runStart <= s.len
    && (s.pc == SlotSet || s.pc == SeqSet ==> s.arrivals[PassSlot(s.pass)] == Arrival(s.pass, c.count1, s.runStart, s.len - s.runStart))
    && (s.pc == SeqSet ==> s.published != [] && s.published[|s.published| - 1] == s.arrivals[PassSlot(s.pass)])
    && |s.published| == s.pass - c.firstPass + (if s.pc == SeqSet then 1 else 0)
    && (forall j: nat :: j < |s.published| && |s.published| < j + ARR_SLOTS ==> s.arrivals[ArrivalSlot(c, j)] == s.published[j])
  }

  lemma PassSlotsDiffer(i: nat, j: nat)
    requires i < j < i + ARR_SLOTS
    ensures PassSlot(i) != PassSlot(j)
  {
    Modular.ModStep(i, j - i, ARR_SLOTS);
  }

  lemma SlotsStep(c: Cfg, s: Sys, a: Action)
    requires Slots(c, s) && Enabled(c, s, a)
    ensures Slots(c, Do(c, s, a))
  {
    hide NoStraddle, InLane, LaneEndAt, SlotOf, Bound;
    var n := |s.published|;
    if a.StoreSlot? {
      forall j: nat | j < n && n < j + ARR_SLOTS ensures ArrivalSlot(c, j) != PassSlot(s.pass) {
        PassSlotsDiffer(c.firstPass + j, s.pass);
      }
    }
  }

  /** The consumer's read: gated by the sequence, from the pass's slot. */
  ghost function ArrivalFull(s: Sys, pass: nat): Option<Arrival>
    requires |s.arrivals| == ARR_SLOTS
  {
    if s.arrivalSeq < pass then None else Some(s.arrivals[PassSlot(pass)])
  }

  // ---- whole runs --------------------------------------------------------------------------------------

  ghost predicate Inv(c: Cfg, s: Sys) {
    RingInv(s) && Timely(c, s) && Slots(c, s)
  }

  lemma InvArmed(c: Cfg)
    requires GoodCfg(c)
    ensures Inv(c, Armed(c))
    ensures c.foldInit < Bound(c, 1) ==> Run(c, Armed(c)) && AllWindows(c, Armed(c))
    ensures c.foldInit < Bound(c, 1) ==> Ahead(c, Armed(c))
  {
    CursorLaw(c.foldInit, Bound(c, 1), 1);
    hide InLane, LaneEndAt;
  }

  lemma InvDo(c: Cfg, s: Sys, a: Action)
    requires Inv(c, s) && Enabled(c, s, a)
    ensures Inv(c, Do(c, s, a))
  {
    hide RingInv, Timely, Slots, Enabled, Do;
    RingStep(c, s, a);
    TimelyStep(c, s, a);
    SlotsStep(c, s, a);
  }

  /** What every interleaving keeps. */
  lemma {:induction false} EveryRun(c: Cfg, acts: seq<Action>)
    requires GoodCfg(c) && RunTo(c, acts).Some?
    ensures var s := RunTo(c, acts).value;
      && Inv(c, s)
      && (c.foldInit < Bound(c, 1) ==> Run(c, s) && AllWindows(c, s))
    decreases |acts|
  {
    hide Inv, Run, AllWindows, Enabled, Do;
    InvArmed(c);
    if acts != [] {
      var n := |acts| - 1;
      EveryRun(c, acts[..n]);
      var s := RunTo(c, acts[..n]).value;
      InvDo(c, s, acts[n]);
      if c.foldInit < Bound(c, 1) { WindowsDo(c, s, acts[n]); }
    }
  }

  lemma WindowsDo(c: Cfg, s: Sys, a: Action)
    requires Inv(c, s) && c.foldInit < Bound(c, 1) && Run(c, s) && AllWindows(c, s) && Enabled(c, s, a)
    ensures Run(c, Do(c, s, a)) && AllWindows(c, Do(c, s, a))
  {
    hide RingInv, Timely, Slots, Run, AllWindows, Enabled, Do;
    RunStep(c, s, a);
    WindowsStep(c, s, a);
  }

  /** In every interleaving the leaves between the retire cursor and the published length are the
      leaves pushed: no unread leaf is overwritten. */
  lemma NoUnreadLeafOverwritten(c: Cfg, acts: seq<Action>, i: nat)
    requires GoodCfg(c) && RunTo(c, acts).Some?
    requires RunTo(c, acts).value.consumed <= i < RunTo(c, acts).value.len
    ensures var s := RunTo(c, acts).value; i < |s.pushed| && |s.ring| == J1_CAP && s.ring[SlotOf(i)] == s.pushed[i]
  {
    EveryRun(c, acts);
    hide RunTo, Timely, Slots, Run, AllWindows;
  }

  /** An arrival read within a lap of its publication is that pass's arrival; before its publication
      there is none. */
  lemma ArrivalReads(c: Cfg, acts: seq<Action>, m: nat)
    requires GoodCfg(c) && RunTo(c, acts).Some?
    ensures var s := RunTo(c, acts).value; |s.arrivals| == ARR_SLOTS
    ensures var s := RunTo(c, acts).value;
      && (ArrivalFull(s, c.firstPass + m) == None <==> |s.published| <= m)
      && (m < |s.published| < m + 2048 ==> ArrivalFull(s, c.firstPass + m) == Some(s.published[m]))
  {
    EveryRun(c, acts);
    hide RunTo, RingInv, Run, AllWindows, InLane, LaneEndAt, Bound;
  }

  // ---- what the leaves say ----------------------------------------------------------------------------

  /** A record of lane 1's ring. */
  datatype Record = Record(k: nat, value: nat)

  /** The records a list of steps takes, in order. */
  function Takes(acts: seq<Action>): seq<Record>
    decreases |acts|
  {
    if acts == [] then []
    else
      var a := acts[|acts| - 1];
      Takes(acts[..|acts| - 1]) + if a.Take? then [Record(a.k, a.value)] else []
  }

  /** Where record i starts: behind the one before, and past the other lane's chunk when that one ended a
      chunk of 512. */
  function Start(c: Cfg, rs: seq<Record>, i: nat): nat
    requires i <= |rs|
  {
    if i == 0 then c.foldInit
    else
      var end := Start(c, rs, i - 1) + rs[i - 1].k;
      if end % 512 == 0 then end + 512 else end
  }

  /** The leaf of record i: its length, its value, and its end. */
  function LeafAt(c: Cfg, rs: seq<Record>, i: nat): Leaf
    requires i < |rs|
  {
    Leaf(rs[i].k, rs[i].value, Start(c, rs, i) + rs[i].k)
  }

  predicate InFlight(pc: Pc) {
    pc.Taken? || pc.Allowed? || pc.Written?
  }

  /** Records taken, leaves pushed and the cursor agree. */
  ghost predicate Recorded(c: Cfg, s: Sys, rs: seq<Record>) {
    && |rs| == s.len + (if InFlight(s.pc) then 1 else 0)
    && |s.pushed| == s.len + (if s.pc.Written? then 1 else 0)
    && s.foldPos == Start(c, rs, s.len)
    && (InFlight(s.pc) ==> rs[s.len] == Record(s.pc.k, s.pc.value))
    && (forall i :: 0 <= i < |s.pushed| ==> s.pushed[i] == LeafAt(c, rs, i))
  }

  lemma {:induction false} StartPrefix(c: Cfg, rs: seq<Record>, r: Record, i: nat)
    requires i <= |rs|
    ensures Start(c, rs + [r], i) == Start(c, rs, i)
  {
    if i > 0 { StartPrefix(c, rs, r, i - 1); }
  }

  lemma RecordedTake(c: Cfg, s: Sys, rs: seq<Record>, r: Record)
    requires Recorded(c, s, rs) && Enabled(c, s, Take(r.k, r.value))
    ensures Recorded(c, Do(c, s, Take(r.k, r.value)), rs + [r])
  {
    hide NoStraddle, Start;
    forall i | 0 <= i <= |rs| ensures Start(c, rs + [r], i) == Start(c, rs, i) {
      StartPrefix(c, rs, r, i);
    }
  }

  /** The record ends its chunk exactly when its end is a multiple of the chunk. */
  lemma EndsChunk(p: nat, k: nat)
    requires 1 <= k <= CHUNK - p % CHUNK
    ensures (p + k) % 512 == 0 <==> k == CHUNK - p % CHUNK
  {
    var c, r := p / CHUNK, p % CHUNK;
    assert p + k == c * CHUNK + (r + k);
    if k == CHUNK - r { assert p + k == (c + 1) * CHUNK; }
  }

  lemma RecordedStep(c: Cfg, s: Sys, rs: seq<Record>, a: Action)
    requires Recorded(c, s, rs) && Ladder(c, s) && Enabled(c, s, a) && !a.Take?
    ensures Recorded(c, Do(c, s, a), rs)
  {
    hide NoStraddle, InLane, LaneEndAt, Bound, SlotOf;
    if a.Publish? { EndsChunk(s.foldPos, s.pc.k); }
  }

  lemma {:induction false} EveryLeaf(c: Cfg, acts: seq<Action>)
    requires GoodCfg(c) && RunTo(c, acts).Some?
    ensures Recorded(c, RunTo(c, acts).value, Takes(acts))
    decreases |acts|
  {
    if acts != [] {
      hide Inv, Run, AllWindows, Enabled, Do, Recorded;
      var n := |acts| - 1;
      EveryRun(c, acts[..n]);
      EveryLeaf(c, acts[..n]);
      var s, rs, a := RunTo(c, acts[..n]).value, Takes(acts[..n]), acts[n];
      LadderHolds(c, s);
      if a.Take? {
        RecordedTake(c, s, rs, Record(a.k, a.value));
      } else {
        RecordedStep(c, s, rs, a);
        assert Takes(acts) == rs;
      }
    }
  }

  lemma LadderHolds(c: Cfg, s: Sys)
    requires Inv(c, s)
    ensures Ladder(c, s)
  {
    hide RingInv, Slots, Cursors, Ladder;
  }

  /** In every interleaving a leaf not yet retired carries length and value of the record of its index,
      as the steps took them, and ends where that record does. */
  lemma LeavesAreRecords(c: Cfg, acts: seq<Action>, i: nat)
    requires GoodCfg(c) && RunTo(c, acts).Some?
    requires RunTo(c, acts).value.consumed <= i < RunTo(c, acts).value.len
    ensures var s, rs := RunTo(c, acts).value, Takes(acts);
      && s.len <= |rs| <= s.len + 1 && |s.ring| == 8192
      && s.ring[i % 8192] == Leaf(rs[i].k, rs[i].value, Start(c, rs, i) + rs[i].k)
  {
    EveryLeaf(c, acts);
    NoUnreadLeafOverwritten(c, acts, i);
    hide RunTo, Start;
  }

  /** A drain call that ends has pushed a leaf for every record taken and publishes the cursor behind the
      last of them. */
  lemma FinishPublishes(c: Cfg, acts: seq<Action>)
    requires GoodCfg(c) && RunTo(c, acts).Some? && acts != [] && acts[|acts| - 1] == Finish
    ensures var s, rs := RunTo(c, acts).value, Takes(acts); s.len == |rs| && s.p1Fold == Start(c, rs, |rs|)
  {
    EveryLeaf(c, acts);
    hide Start, Takes;
  }

  /** The gate lets a taken record through if and only if at most 7168 leaves are unread, so that in every
      interleaving at most 7169 ever are. */
  lemma GateExactly(c: Cfg, acts: seq<Action>)
    requires GoodCfg(c) && RunTo(c, acts).Some?
    ensures var s := RunTo(c, acts).value;
      && s.len - s.consumed <= 7169
      && (s.pc.Taken? ==> (RunTo(c, acts + [Admit]).Some? <==> s.len - s.consumed <= 7168))
  {
    EveryRun(c, acts);
    assert (acts + [Admit])[..|acts|] == acts;
    hide Timely, Slots, Run, AllWindows, Holds;
  }

  /** Every published arrival carries its pass and the script's count. */
  ghost predicate Labelled(c: Cfg, s: Sys) {
    && |s.published| == s.pass - c.firstPass + (if s.pc == SeqSet then 1 else 0)
    && forall m: nat :: m < |s.published| ==> s.published[m].pass == c.firstPass + m && s.published[m].count == c.count1
  }

  lemma {:induction false} ArrivalsLabelled(c: Cfg, acts: seq<Action>)
    requires GoodCfg(c) && RunTo(c, acts).Some?
    ensures Labelled(c, RunTo(c, acts).value)
    decreases |acts|
  {
    if acts != [] {
      ArrivalsLabelled(c, acts[..|acts| - 1]);
      hide NoStraddle, SlotOf, LaneEndAt;
    }
  }

  // ---- the publication law --------------------------------------------------------------------------------

  /** A published cursor at or past a boundary's projection implies that boundary's arrival. */
  ghost predicate Law(c: Cfg, s: Sys) {
    forall m: nat :: m >= 1 && s.p1Fold >= LaneEndAt(Bound(c, m), 1) ==> |s.published| >= m
  }

  lemma AheadIsLaw(c: Cfg, s: Sys)
    ensures Law(c, s) <==> s.p1Fold < LaneEndAt(Bound(c, |s.published| + 1), 1)
  {
    var n := |s.published| + 1;
    if s.p1Fold < LaneEndAt(Bound(c, n), 1) {
      forall m: nat | m >= 1 && s.p1Fold >= LaneEndAt(Bound(c, m), 1) ensures |s.published| >= m {
        if m > n {
          BoundsGrow(c, n, m);
          LaneEndMonotone(Bound(c, n), Bound(c, m), 1);
        }
      }
    }
  }

  /** Between records the law always holds once a record has been drained; inside a crossing it fails
      exactly while the cursor stands on a projection the next boundary shares. */
  lemma LawByState(c: Cfg, acts: seq<Action>)
    requires GoodCfg(c) && RunTo(c, acts).Some? && Settled(c, RunTo(c, acts).value)
    ensures var s := RunTo(c, acts).value;
      && (OutsideCrossing(s.pc) ==> Law(c, s))
      && (Law(c, s) <==> s.p1Fold != LaneEndAt(Bound(c, |s.published| + 1), 1))
  {
    EveryRun(c, acts);
    var s := RunTo(c, acts).value;
    AheadIsLaw(c, s);
    hide RunTo, RingInv, Slots, Run, AllWindows, InLane, LaneEndAt, Law;
  }

  lemma {:induction false} EveryRunAhead(c: Cfg, acts: seq<Action>)
    requires GoodCfg(c) && Distinct(c) && RunTo(c, acts).Some?
    ensures Ahead(c, RunTo(c, acts).value)
    decreases |acts|
  {
    hide Inv, Run, AllWindows, Enabled, Do, Ahead, Distinct;
    InvArmed(c);
    if acts != [] {
      var n := |acts| - 1;
      EveryRun(c, acts[..n]);
      EveryRunAhead(c, acts[..n]);
      AheadDo(c, RunTo(c, acts[..n]).value, acts[n]);
    } else {
      AheadArmed(c);
    }
  }

  lemma AheadArmed(c: Cfg)
    requires GoodCfg(c)
    ensures Ahead(c, Armed(c))
  {
    InvArmed(c);
  }

  lemma AheadDo(c: Cfg, s: Sys, a: Action)
    requires Inv(c, s) && Ahead(c, s) && Enabled(c, s, a) && Distinct(c)
    ensures Ahead(c, Do(c, s, a))
  {
    hide RingInv, Timely, Slots, Ahead, Enabled, Do, Distinct;
    AheadStep(c, s, a);
  }

  // ---- the condition on the arm's own numbers --------------------------------------------------------------

  /** Passes longer than a chunk, or of exactly a chunk from an unaligned base. */
  predicate Spaced(c: Cfg) {
    c.passSpans > CHUNK || (c.passSpans == CHUNK && c.passBase % CHUNK != 0)
  }

  lemma {:induction false} BoundClosed(c: Cfg, n: nat)
    ensures Bound(c, n) == c.passBase + n * c.passSpans
    decreases n
  {
    if n > 0 {
      BoundClosed(c, n - 1);
      assert (n - 1) * c.passSpans + c.passSpans == n * c.passSpans;
    }
  }

  /** Two consecutive boundaries share their projection exactly when lane 1 has no position between. */
  lemma SharedByStretch(c: Cfg, n: nat)
    ensures LaneEndAt(Bound(c, n), 1) <= LaneEndAt(Bound(c, n + 1), 1)
    ensures LaneEndAt(Bound(c, n), 1) == LaneEndAt(Bound(c, n + 1), 1) <==> PassGrid.Between(Bound(c, n), c.passSpans)
  {
    NextBoundIs(c, n);
    hide LaneEndAt, InLane, Bound;
    LaneEndShared(Bound(c, n), Bound(c, n + 1), 1);
    LaneEndMonotone(Bound(c, n), Bound(c, n + 1), 1);
  }

  /** When passes are not spaced, boundaries that share a projection lie arbitrarily far out. */
  lemma SharedBeyond(c: Cfg, far: nat) returns (n: nat)
    requires c.passSpans > 0 && !Spaced(c)
    ensures n >= far && LaneEndAt(Bound(c, n), 1) == LaneEndAt(Bound(c, n + 1), 1)
  {
    hide LaneEndAt, InLane, Bound;
    if c.passSpans < CHUNK {
      n := PassGrid.ShortStepMisses(c.passBase, c.passSpans, far);
    } else {
      n := PassGrid.AlignedStepMisses(c.passBase, far);
    }
    BoundClosed(c, n);
    SharedByStretch(c, n);
  }

  /** Spaced passes keep every two projections apart, and only they do. */
  lemma SpacedIsDistinct(c: Cfg)
    requires c.passSpans > 0
    ensures Distinct(c) <==> Spaced(c)
  {
    hide LaneEndAt, InLane, Bound;
    if Spaced(c) {
      forall n: nat | n >= 1 ensures LaneEndAt(Bound(c, n), 1) < LaneEndAt(Bound(c, n + 1), 1) {
        BoundClosed(c, n);
        SharedByStretch(c, n);
        if c.passSpans == CHUNK { SameOffset(c.passBase, n); }
        PassGrid.LongStepMeets(Bound(c, n), c.passSpans);
      }
    } else {
      var n := SharedBeyond(c, 1);
      assert !Distinct(c);
    }
  }

  lemma SameOffset(base: nat, n: nat)
    ensures (base + n * CHUNK) % CHUNK == base % CHUNK
  {
  }

  /** With spaced passes, whoever sees the cursor at a boundary's projection finds the arrival, in
      every interleaving, from the first drained record on at the latest. */
  lemma ArrivalBeforeCursor(c: Cfg, acts: seq<Action>)
    requires GoodCfg(c) && Spaced(c) && RunTo(c, acts).Some? && Settled(c, RunTo(c, acts).value)
    ensures Law(c, RunTo(c, acts).value)
  {
    SpacedIsDistinct(c);
    hide LaneEndAt, Bound;
    EveryRunAhead(c, acts);
    AheadIsLaw(c, RunTo(c, acts).value);
  }

  // ---- both ways ------------------------------------------------------------------------------------------

  lemma Extend(c: Cfg, acts: seq<Action>, a: Action)
    requires RunTo(c, acts).Some? && Enabled(c, RunTo(c, acts).value, a)
    ensures RunTo(c, acts + [a]) == Some(Do(c, RunTo(c, acts).value, a))
  {
    hide Enabled, Do;
    assert (acts + [a])[..|acts|] == acts;
  }

  /** A record that fits the chunk and ends at or before the next boundary straddles none. */
  lemma FitsNoBoundary(c: Cfg, s: Sys, k: nat)
    requires Timely(c, s) && s.foldPos + k <= s.nextBound
    ensures NoStraddle(c, s.foldPos, s.foldPos + k)
  {
    IsRungs(c, s);
    var n := s.pass - c.firstPass;
    forall m: nat | m >= 1 ensures !(s.foldPos < Bound(c, m) < s.foldPos + k) {
      if m < n {
        BoundsGrow(c, m, n);
      } else if n + 1 < m {
        BoundsGrow(c, n + 1, m);
      }
    }
    hide Ladder, LaneEndAt;
  }

  /** Four steps drain a record. */
  lemma DrainRecord(c: Cfg, acts: seq<Action>, k: nat) returns (acts': seq<Action>)
    requires GoodCfg(c) && RunTo(c, acts).Some?
    requires var s := RunTo(c, acts).value; s.pc == Ready && 1 <= k <= s.foldRem && NoStraddle(c, s.foldPos, s.foldPos + k)
    ensures RunTo(c, acts').Some?
    ensures var s, t := RunTo(c, acts).value, RunTo(c, acts').value;
      t.pc == Crossing && t.pass == s.pass && t.foldPos >= s.foldPos + k && t.published == s.published && t.len == s.len + 1
  {
    EveryRun(c, acts);
    var s0 := RunTo(c, acts).value;
    var a1 := acts + [Retire(s0.len)];
    RingBounds(c, s0);
    Extend(c, acts, Retire(s0.len));
    var a2 := a1 + [Take(k, 0)];
    Extend(c, a1, Take(k, 0));
    var a3 := a2 + [Admit];
    Extend(c, a2, Admit);
    var a4 := a3 + [Write];
    Extend(c, a3, Write);
    acts' := a4 + [Publish];
    hide RunTo, NoStraddle, Inv, Run, AllWindows, SlotOf;
    Extend(c, a4, Publish);
  }

  lemma RingBounds(c: Cfg, s: Sys)
    requires Inv(c, s)
    ensures |s.ring| == J1_CAP && s.consumed <= s.len
  {
    hide Timely, Slots;
  }

  lemma StateFacts(c: Cfg, s: Sys)
    requires Inv(c, s)
    ensures s.pass >= c.firstPass && s.runStart <= s.len && |s.arrivals| == ARR_SLOTS
    ensures |s.published| == s.pass - c.firstPass + (if s.pc == SeqSet then 1 else 0)
    ensures s.nextBound == Bound(c, s.pass - c.firstPass + 1) && s.passEnd == LaneEndAt(s.nextBound, 1) <= s.nextBound
    ensures 1 <= s.foldRem
    ensures Timely(c, s)
    ensures Settled(c, s) && s.pc == Ready ==> s.foldPos < s.nextBound
  {
    IsRungs(c, s);
    hide RingInv, LaneEndAt, InLane, Bound;
  }

  /** How far the cursor is from the next boundary. */
  function Short(s: Sys): nat {
    if s.foldPos < s.nextBound then s.nextBound - s.foldPos else 0
  }

  /** Records up to the next boundary can always be drained. */
  lemma {:induction false} ToBoundary(c: Cfg, acts: seq<Action>) returns (acts': seq<Action>)
    requires GoodCfg(c) && RunTo(c, acts).Some?
    requires var s := RunTo(c, acts).value; Settled(c, s) && (s.pc == Ready || s.pc == Crossing)
    ensures RunTo(c, acts').Some?
    ensures var s, t := RunTo(c, acts).value, RunTo(c, acts').value;
      t.pc == Crossing && t.foldPos >= t.passEnd && t.pass == s.pass && t.published == s.published && Settled(c, t)
    decreases Short(RunTo(c, acts).value), if RunTo(c, acts).value.pc == Crossing then 1 else 0
  {
    hide RunTo, Inv, Run, AllWindows, NoStraddle, LaneEndAt, Bound, Timely, Do;
    EveryRun(c, acts);
    var s := RunTo(c, acts).value;
    StateFacts(c, s);
    if s.pc == Crossing && s.foldPos >= s.passEnd {
      acts' := acts;
    } else if s.pc == Crossing {
      NextIs(c, s);
      Extend(c, acts, Next);
      acts' := ToBoundary(c, acts + [Next]);
    } else {
      var k := if s.foldRem < s.nextBound - s.foldPos then s.foldRem else s.nextBound - s.foldPos;
      FitsNoBoundary(c, s, k);
      var acts2 := DrainRecord(c, acts, k);
      EveryRun(c, acts2);
      StateFacts(c, RunTo(c, acts2).value);
      acts' := ToBoundary(c, acts2);
    }
  }

  lemma NextIs(c: Cfg, s: Sys)
    requires Enabled(c, s, Next)
    ensures Do(c, s, Next) == s.(pc := Ready)
  {
  }

  /** From a settled state every later boundary is reached, with the cursor just stored at its
      projection. */
  lemma {:induction false} Reach(c: Cfg, acts: seq<Action>, n: nat) returns (acts': seq<Action>)
    requires GoodCfg(c) && RunTo(c, acts).Some?
    requires var s := RunTo(c, acts).value; Settled(c, s) && (s.pc == Ready || s.pc == Crossing) && s.pass < c.firstPass + n
    ensures RunTo(c, acts').Some?
    ensures var s := RunTo(c, acts').value;
      && Settled(c, s) && s.pc == Crossing && s.pass == c.firstPass + n && |s.published| == n
      && s.p1Fold == LaneEndAt(Bound(c, n), 1)
    decreases c.firstPass + n - RunTo(c, acts).value.pass
  {
    hide RunTo, Inv, Run, AllWindows, NoStraddle, LaneEndAt, Bound, Timely;
    var at := ToBoundary(c, acts);
    acts' := Cross(c, at);
    if RunTo(c, acts').value.pass < c.firstPass + n {
      acts' := Reach(c, acts', n);
    }
  }

  /** Every boundary the cursor has passed can be crossed. */
  lemma {:induction false} CrossAll(c: Cfg, acts: seq<Action>) returns (acts': seq<Action>)
    requires GoodCfg(c) && RunTo(c, acts).Some? && RunTo(c, acts).value.pc == Crossing
    ensures RunTo(c, acts').Some?
    ensures var s, t := RunTo(c, acts).value, RunTo(c, acts').value;
      t.pc == Crossing && t.foldPos < t.passEnd && t.len == s.len
    decreases Over(RunTo(c, acts).value)
  {
    hide RunTo, Inv, Run, AllWindows, NoStraddle, LaneEndAt, Bound, Timely;
    EveryRun(c, acts);
    var s := RunTo(c, acts).value;
    StateFacts(c, s);
    LaneEndLaw(s.nextBound, 1);
    if s.foldPos < s.passEnd {
      acts' := acts;
    } else {
      var next := Cross(c, acts);
      acts' := CrossAll(c, next);
    }
  }

  /** How far the cursor is past the next boundary's chunk. */
  function Over(s: Sys): nat {
    if s.foldPos + CHUNK >= s.nextBound then s.foldPos + CHUNK - s.nextBound + 1 else 0
  }

  /** Every drain can settle: at once when it starts before the first boundary, else by draining one
      record and crossing what it passed. */
  lemma Settle(c: Cfg) returns (acts: seq<Action>)
    requires GoodCfg(c)
    ensures RunTo(c, acts).Some?
    ensures var s := RunTo(c, acts).value; Settled(c, s) && s.pc == Ready
  {
    hide RunTo, Inv, Run, AllWindows, NoStraddle, LaneEndAt, Bound, Timely;
    if c.foldInit < Bound(c, 1) {
      ArmedIs(c);
      acts := [];
    } else {
      var first := LateRecord(c);
      var done := CrossAll(c, first);
      NextIs(c, RunTo(c, done).value);
      Extend(c, done, Next);
      acts := done + [Next];
    }
  }

  lemma ArmedIs(c: Cfg)
    requires GoodCfg(c)
    ensures RunTo(c, []) == Some(Armed(c)) && Armed(c).pc == Ready && Armed(c).pass == c.firstPass
  {
  }

  /** Three stores cross a boundary. */
  lemma Cross(c: Cfg, acts: seq<Action>) returns (acts': seq<Action>)
    requires GoodCfg(c) && RunTo(c, acts).Some?
    requires var s := RunTo(c, acts).value; s.pc == Crossing && s.foldPos >= s.passEnd
    ensures RunTo(c, acts').Some?
    ensures var s, t := RunTo(c, acts).value, RunTo(c, acts').value;
      && t.pc == Crossing && t.pass == s.pass + 1 && t.pass >= c.firstPass && |t.published| == t.pass - c.firstPass
      && t.p1Fold == LaneEndAt(Bound(c, t.pass - c.firstPass), 1)
      && s.runStart <= s.len && t.len == s.len && t.pushed == s.pushed
      && t.foldPos == s.foldPos && t.nextBound == s.nextBound + c.passSpans
      && t.published == s.published + [Arrival(s.pass, c.count1, s.runStart, s.len - s.runStart)]
  {
    hide RunTo, Inv, Run, AllWindows, NoStraddle, LaneEndAt, Bound, Timely;
    EveryRun(c, acts);
    var s := RunTo(c, acts).value;
    StateFacts(c, s);
    Extend(c, acts, StoreSlot);
    Extend(c, acts + [StoreSlot], StoreSeq);
    acts' := acts + [StoreSlot] + [StoreSeq] + [StoreFold];
    Extend(c, acts + [StoreSlot] + [StoreSeq], StoreFold);
  }

  /** For every start: the law holds in every settled state of every interleaving if and only if
      passes are longer than a chunk, or exactly a chunk from an unaligned base. */
  lemma LawExactly(c: Cfg)
    requires GoodCfg(c)
    ensures (forall acts :: RunTo(c, acts).Some? && Settled(c, RunTo(c, acts).value) ==> Law(c, RunTo(c, acts).value))
      <==> Spaced(c)
  {
    hide RunTo, Law, LaneEndAt, Bound, Settled;
    if Spaced(c) {
      forall acts | RunTo(c, acts).Some? && Settled(c, RunTo(c, acts).value) ensures Law(c, RunTo(c, acts).value) {
        ArrivalBeforeCursor(c, acts);
      }
    } else {
      var start := Settle(c);
      var n := SharedBeyond(c, RunTo(c, start).value.pass + 1);
      var acts := Reach(c, start, n);
      AheadIsLaw(c, RunTo(c, acts).value);
      assert !Law(c, RunTo(c, acts).value);
    }
  }

  /** The law holds in every state of every interleaving, from the arm on, if and only if passes are
      spaced and the drain starts before the first boundary: a drain that starts at or past it is
      armed with a cursor that claims an arrival nobody has published. */
  lemma LawFromTheArm(c: Cfg)
    requires GoodCfg(c)
    ensures (forall acts :: RunTo(c, acts).Some? ==> Law(c, RunTo(c, acts).value))
      <==> Spaced(c) && c.foldInit < Bound(c, 1)
  {
    hide RunTo, Law, LaneEndAt, Bound;
    LawExactly(c);
    if c.foldInit >= Bound(c, 1) {
      LateArm(c);
      assert !Law(c, RunTo(c, []).value);
    }
  }

  lemma LateArm(c: Cfg)
    requires GoodCfg(c) && c.foldInit >= Bound(c, 1)
    ensures RunTo(c, []).Some? && !Law(c, RunTo(c, []).value)
  {
    hide LaneEndAt, Bound;
    ArmedIs(c);
    CursorLaw(c.foldInit, Bound(c, 1), 1);
  }

  /** The arrival windows are right in every interleaving if and only if the drain starts before the
      first boundary: otherwise the first record, of one span, is published in a window it ends
      beyond. */
  lemma WindowsExactly(c: Cfg)
    requires GoodCfg(c)
    ensures (forall acts :: RunTo(c, acts).Some? ==> AllWindows(c, RunTo(c, acts).value)) <==> c.foldInit < Bound(c, 1)
  {
    hide RunTo, LaneEndAt, Bound, Inv, Run, Do, Enabled;
    if c.foldInit < Bound(c, 1) {
      hide AllWindows;
      forall acts | RunTo(c, acts).Some? ensures AllWindows(c, RunTo(c, acts).value) {
        EveryRun(c, acts);
      }
    } else {
      var acts := LateStart(c);
      assert !AllWindows(c, RunTo(c, acts).value);
    }
  }

  lemma LateStart(c: Cfg) returns (acts: seq<Action>)
    requires GoodCfg(c) && c.foldInit >= Bound(c, 1)
    ensures RunTo(c, acts).Some? && !AllWindows(c, RunTo(c, acts).value)
  {
    acts := LateRecord(c);
    var s := RunTo(c, acts).value;
    hide RunTo, LaneEndAt;
    var t := Cross(c, acts);
    EveryRun(c, t);
    WindowHolds(c, RunTo(c, t).value);
    acts := t;
  }

  lemma WindowHolds(c: Cfg, s: Sys)
    requires s.len == 1 && |s.pushed| >= 1 && s.pushed[0].end > Bound(c, 1)
    requires |s.published| == 1 && s.published[0].start == 0 && s.published[0].len == 1
    ensures !AllWindows(c, s)
  {
    var v := s.published[0];
    assert v.start <= 0 < v.start + v.len && s.pushed[0].end > Bound(c, 1);
    assert !Window(c, s, 0);
    hide Bound;
  }

  lemma LateRecord(c: Cfg) returns (acts: seq<Action>)
    requires GoodCfg(c) && c.foldInit >= Bound(c, 1)
    ensures RunTo(c, acts).Some?
    ensures var s := RunTo(c, acts).value;
      && s.pc == Crossing && s.foldPos >= s.passEnd && s.runStart == 0 && s.len == 1 && s.published == [] && s.pass == c.firstPass
      && |s.pushed| == 1 && s.pushed[0].end == c.foldInit + 1 > Bound(c, 1)
  {
    ArmedIs(c);
    BoundsGrow(c, 0, 1);
    LaneEndLaw(Bound(c, 1), 1);
    hide RunTo, Inv, Run, AllWindows, SlotOf, LaneEndAt;
    var a1 := [] + [Take(1, 0)];
    Extend(c, [], Take(1, 0));
    Extend(c, a1, Admit);
    Extend(c, a1 + [Admit], Write);
    acts := a1 + [Admit] + [Write] + [Publish];
    Extend(c, a1 + [Admit] + [Write], Publish);
  }
}
