// The effect of a data frame in closed form: every field of the state after it, without the steps.
module Effects {
  import opened Bytes
  import opened Itch
  import opened Mold
  import opened Arbiter
  import opened ArbiterInvariant

  /** The first number from lo on that is not staged. */
  ghost predicate IsRunEnd(staged: map<nat, Bytes>, lo: nat, hi: nat) {
    lo <= hi && hi !in staged && forall k: nat :: lo <= k < hi ==> k in staged
  }

  /** The staged messages from lo up to but not including hi, emitted. */
  ghost function StagedOuts(gen: nat, staged: map<nat, Bytes>, lo: nat, hi: nat): seq<Out>
    requires lo <= hi && forall k: nat :: lo <= k < hi ==> k in staged
  {
    seq(hi - lo, i requires 0 <= i < hi - lo => Emit(gen, lo + i, staged[lo + i]))
  }

  /** What is staged from w on. */
  ghost predicate KeptFrom(before: map<nat, Bytes>, after: map<nat, Bytes>, w: nat) {
    && (forall k: nat :: k in after <==> k in before && k >= w)
    && (forall k: nat :: k in after ==> after[k] == before[k])
  }

  lemma {:induction false} DrainRunExactly(a: Arb)
    ensures var d := DrainRun(a);
      && IsRunEnd(a.staged, a.w, d.w)
      && (forall k: nat :: k in d.staged <==> k in a.staged && !(a.w <= k < d.w))
      && (forall k: nat :: k in d.staged ==> d.staged[k] == a.staged[k])
      && d.log == a.log + StagedOuts(a.gen, a.staged, a.w, d.w)
      && d == a.(w := d.w, staged := d.staged, log := d.log)
    decreases |a.staged|
  {
    if a.w in a.staged {
      var o := Emit(a.gen, a.w, a.staged[a.w]);
      var b := a.(w := a.w + 1, staged := a.staged - {a.w}, log := a.log + [o]);
      DropOne(a.staged, a.w);
      DrainRunExactly(b);
      var d := DrainRun(b);
      assert DrainRun(a) == d;
      hide DrainRun;
      DrainedOne(a, b, d.w);
      assert forall k: nat :: k in b.staged <==> k in a.staged && k != a.w;
    } else {
      assert StagedOuts(a.gen, a.staged, a.w, a.w) == [];
    }
  }

  lemma DrainedOne(a: Arb, b: Arb, hi: nat)
    requires a.w in a.staged && b.w == a.w + 1 && b.gen == a.gen && b.staged == a.staged - {a.w}
    requires b.log == a.log + [Emit(a.gen, a.w, a.staged[a.w])]
    requires IsRunEnd(b.staged, b.w, hi)
    ensures IsRunEnd(a.staged, a.w, hi)
    ensures b.log + StagedOuts(b.gen, b.staged, b.w, hi) == a.log + StagedOuts(a.gen, a.staged, a.w, hi)
  {
    OutsStep(a.gen, a.staged, b.staged, a.w, hi);
    hide StagedOuts;
  }

  lemma OutsStep(gen: nat, before: map<nat, Bytes>, after: map<nat, Bytes>, lo: nat, hi: nat)
    requires lo in before && after == before - {lo} && IsRunEnd(after, lo + 1, hi)
    ensures IsRunEnd(before, lo, hi)
    ensures StagedOuts(gen, before, lo, hi) == [Emit(gen, lo, before[lo])] + StagedOuts(gen, after, lo + 1, hi)
  {
    forall k: nat | lo <= k < hi ensures k in before {
      if k > lo { assert k in after; }
    }
    var all, more := StagedOuts(gen, before, lo, hi), StagedOuts(gen, after, lo + 1, hi);
    forall i | 0 <= i < |more| ensures all[i + 1] == more[i] {
      assert lo + 1 + i in after;
    }
    assert all == [Emit(gen, lo, before[lo])] + more;
  }

  /** What is staged but for the numbers from lo up to but not including hi. */
  ghost predicate Without(before: map<nat, Bytes>, after: map<nat, Bytes>, lo: nat, hi: nat) {
    && (forall k: nat :: k in after <==> k in before && !(lo <= k < hi))
    && (forall k: nat :: k in after ==> after[k] == before[k])
  }

  /** What a drain leaves: the run at the watermark is emitted and gone. */
  ghost predicate Drained(a: Arb, d: Arb, now: nat) {
    && IsRunEnd(a.staged, a.w, d.w)
    && Without(a.staged, d.staged, a.w, d.w)
    && d.log == a.log + StagedOuts(a.gen, a.staged, a.w, d.w)
    && d == a.(w := d.w, staged := d.staged, log := d.log,
               maxStaged := if a.staged != map[] && d.staged == map[] then 0 else a.maxStaged,
               ctr := a.ctr.(msgsEmitted := a.ctr.msgsEmitted + (d.w - a.w)),
               progressVt := if d.w > a.w then now else a.progressVt)
  }

  lemma DrainExactly(a: Arb, now: nat)
    ensures Drained(a, Drain(a, now), now)
  {
    DrainRunExactly(a);
    hide DrainRun;
    if a.staged == map[] {
      assert a.log + StagedOuts(a.gen, a.staged, a.w, a.w) == a.log;
    }
  }

  /** A frame at or below the watermark, free of errors: its new messages and then the staged run behind
      it are emitted, the watermark is the first number behind both that is missing, the rest stays
      staged, a gap whose evidence is reached closes, a request that is reached is retired, and the
      clock is the frame's. */
  ghost predicate ContiguousEffect(a: Arb, b: Arb, ms: seq<Msg>, skip: nat, last: nat, now: nat) {
    && IsRunEnd(a.staged, last + 1, b.w)
    && KeptFrom(a.staged, b.staged, b.w)
    && var closes := a.gapActive && b.w >= a.hwm;
    && b.log == a.log + Outs(a.gen, ms) + StagedOuts(a.gen, a.staged, last + 1, b.w)
                + (if closes then [Control(ReAnchored(a.gen, b.w))] else [])
    && b == a.(w := b.w, staged := b.staged, log := b.log, progressVt := now,
               gapActive := a.gapActive && !closes, hwm := if closes then 0 else a.hwm,
               state := if closes then Contig else a.state,
               maxStaged := if a.staged != map[] && b.staged == map[] then 0 else a.maxStaged,
               pendingTo := if a.pendingTo.Some? && a.pendingTo.value <= b.w then None else a.pendingTo,
               ctr := a.ctr.(dupMsgs := a.ctr.dupMsgs + skip,
                             msgsEmitted := a.ctr.msgsEmitted + |ms| + (b.w - (last + 1)),
                             reanchors := a.ctr.reanchors + if closes then 1 else 0))
  }

  lemma ContiguousExactly(a: Arb, d: Delivery, skip: nat, last: nat, now: nat)
    requires Inv(a) && a.w <= last && d.err == None
    ensures ContiguousEffect(a, ApplyContiguous(a, d, skip, last, now), d.msgs, skip, last, now)
  {
    hide EmitAll, ClearPassed, Drain, CheckGapClose, RetirePending, MovedOn, Inv, Outs;
    var f := MovedTo(a, d.msgs, skip, last, now);
    MovedExactly(a, d.msgs, skip, last, now);
    Assembled(a, f, d.msgs, skip, last, now);
  }

  /** Emitted, cleared and drained. */
  ghost function MovedTo(a: Arb, ms: seq<Msg>, skip: nat, last: nat, now: nat): Arb {
    Drain(ClearPassed(EmitAll(a.(ctr := a.ctr.(dupMsgs := a.ctr.dupMsgs + skip)), ms).(w := last + 1)).(progressVt := now), now)
  }

  ghost predicate MovedOn(a: Arb, f: Arb, ms: seq<Msg>, skip: nat, last: nat, now: nat) {
    && IsRunEnd(a.staged, last + 1, f.w)
    && KeptFrom(a.staged, f.staged, f.w)
    && f == a.(w := f.w, staged := f.staged, progressVt := now,
               log := a.log + Outs(a.gen, ms) + StagedOuts(a.gen, a.staged, last + 1, f.w),
               maxStaged := if a.staged != map[] && f.staged == map[] then 0 else a.maxStaged,
               ctr := a.ctr.(dupMsgs := a.ctr.dupMsgs + skip,
                             msgsEmitted := a.ctr.msgsEmitted + |ms| + (f.w - (last + 1))))
  }

  lemma MovedExactly(a: Arb, ms: seq<Msg>, skip: nat, last: nat, now: nat)
    ensures MovedOn(a, MovedTo(a, ms, skip, last, now), ms, skip, last, now)
  {
    var b := EmitAll(a.(ctr := a.ctr.(dupMsgs := a.ctr.dupMsgs + skip)), ms).(w := last + 1);
    EmitExactly(a, ms, skip, last);
    ClearExactly(b);
    var c := ClearPassed(b);
    DrainExactly(c.(progressVt := now), now);
    var f := Drain(c.(progressVt := now), now);
    hide EmitAll, ClearPassed, Drain, Outs;
    Chain(a.staged, c.staged, f.staged, a.gen, last, f.w);
    hide KeptFrom, IsRunEnd, StagedOuts, Without;
    Emptied(a.staged, c.staged, f.staged, last + 1, f.w);
  }

  lemma Assembled(a: Arb, f: Arb, ms: seq<Msg>, skip: nat, last: nat, now: nat)
    requires MovedOn(a, f, ms, skip, last, now)
    ensures ContiguousEffect(a, RetirePending(CheckGapClose(f)), ms, skip, last, now)
  {
    CloseExactly(f);
    hide CheckGapClose, RetirePending, KeptFrom, IsRunEnd, StagedOuts, Outs;
  }

  lemma EmitExactly(a: Arb, ms: seq<Msg>, skip: nat, last: nat)
    ensures EmitAll(a.(ctr := a.ctr.(dupMsgs := a.ctr.dupMsgs + skip)), ms).(w := last + 1)
      == a.(w := last + 1, log := a.log + Outs(a.gen, ms),
            ctr := a.ctr.(dupMsgs := a.ctr.dupMsgs + skip, msgsEmitted := a.ctr.msgsEmitted + |ms|))
  {
  }

  lemma ClearExactly(a: Arb)
    ensures var c := ClearPassed(a);
      && KeptFrom(a.staged, c.staged, a.w)
      && c == a.(staged := c.staged, maxStaged := if a.staged != map[] && c.staged == map[] then 0 else a.maxStaged)
  {
  }

  lemma CloseExactly(a: Arb)
    ensures var closes := a.gapActive && a.w >= a.hwm;
      RetirePending(CheckGapClose(a)) == a.(
        log := a.log + (if closes then [Control(ReAnchored(a.gen, a.w))] else []),
        gapActive := a.gapActive && !closes, hwm := if closes then 0 else a.hwm,
        state := if closes then Contig else a.state,
        pendingTo := if a.pendingTo.Some? && a.pendingTo.value <= a.w then None else a.pendingTo,
        ctr := a.ctr.(reanchors := a.ctr.reanchors + if closes then 1 else 0))
  {
    assert a.log + [] == a.log;
  }

  lemma Emptied(a: map<nat, Bytes>, c: map<nat, Bytes>, f: map<nat, Bytes>, mid: nat, w: nat)
    requires KeptFrom(a, c, mid) && KeptFrom(a, f, w)
    ensures a == map[] ==> c == map[] && f == map[]
  {
    assert a == map[] ==> (forall k: nat :: k !in c) && (forall k: nat :: k !in f);
  }

  /** Clearing and draining together. */
  lemma Chain(a: map<nat, Bytes>, c: map<nat, Bytes>, d: map<nat, Bytes>, gen: nat, last: nat, w: nat)
    requires KeptFrom(a, c, last + 1) && IsRunEnd(c, last + 1, w)
    requires Without(c, d, last + 1, w)
    ensures IsRunEnd(a, last + 1, w) && KeptFrom(a, d, w)
    ensures StagedOuts(gen, c, last + 1, w) == StagedOuts(gen, a, last + 1, w)
  {
  }

  // ---- ahead of the watermark -------------------------------------------------------------------------

  /** How many of the n numbers from first on are below w + 1024. */
  function Fitting(w: nat, first: nat, n: nat): (k: nat)
    ensures k <= n
  {
    if first + n <= w + 1024 then n else if first < w + 1024 then w + 1024 - first else 0
  }

  /** The first n messages are staged too. */
  ghost predicate StagedToo(before: map<nat, Bytes>, after: map<nat, Bytes>, ms: seq<Msg>, first: nat, n: nat)
    requires n <= |ms|
  {
    && (forall k: nat :: k in after <==> k in before || first <= k < first + n)
    && (forall k: nat :: k in after ==> after[k] == if first <= k < first + n then ms[k - first].data else before[k])
  }

  /** The messages that fit the window of 1024 are staged and counted, the others counted as dropped. */
  ghost predicate StagedEffect(a: Arb, b: Arb, ms: seq<Msg>, first: nat) {
    var n := Fitting(a.w, first, |ms|);
    && StagedToo(a.staged, b.staged, ms, first, n)
    && b == a.(staged := b.staged,
               ctr := a.ctr.(stagedMsgs := a.ctr.stagedMsgs + n,
                             beyondWindowDropped := a.ctr.beyondWindowDropped + |ms| - n))
  }

  ghost predicate Consecutive(ms: seq<Msg>, first: nat) {
    forall i :: 0 <= i < |ms| ==> ms[i].seqNo == first + i
  }

  lemma {:induction false} StageAllExactly(a: Arb, ms: seq<Msg>, first: nat)
    requires Consecutive(ms, first)
    ensures StagedEffect(a, StageAll(a, ms), ms, first)
    decreases |ms|
  {
    if ms != [] {
      var n := |ms| - 1;
      StageAllExactly(a, ms[..n], first);
      StageOneMore(a, StageAll(a, ms[..n]), ms, first);
    }
  }

  lemma StageOneMore(a: Arb, b: Arb, ms: seq<Msg>, first: nat)
    requires ms != [] && Consecutive(ms, first) && StagedEffect(a, b, ms[..|ms| - 1], first)
    ensures StagedEffect(a, StageOne(b, ms[|ms| - 1]), ms, first)
  {
  }

  /** A frame ahead of the watermark, free of errors: the watermark stays, a gap opens unless one is open,
      its evidence covers the frame's start and, past the window, its end, what fits the window is
      staged, and the staged maximum covers the frame. */
  ghost predicate AheadEffect(a: Arb, b: Arb, ms: seq<Msg>, first: nat) {
    var n, opens, last := Fitting(a.w, first, |ms|), !a.gapActive, first + |ms| - 1;
    && StagedToo(a.staged, b.staged, ms, first, n)
    && var gen := if opens then (a.gen + 1) % 0x1_0000_0000_0000_0000 else a.gen;
    && var hwm := if opens || a.hwm < first then first else a.hwm;
    && b == a.(staged := b.staged, gapActive := true, gen := gen, state := if opens then Gap else a.state,
               hwm := if last >= a.w + 1024 && hwm < last + 1 then last + 1 else hwm,
               maxStaged := if a.maxStaged < last then last else a.maxStaged,
               log := a.log + if opens then [Control(GapOpened(a.w, first, gen))] else [],
               pendingTo := if a.pendingTo.Some? && a.pendingTo.value <= a.w then None else a.pendingTo,
               ctr := a.ctr.(gapOpens := a.ctr.gapOpens + (if opens then 1 else 0),
                             stagedMsgs := a.ctr.stagedMsgs + n,
                             beyondWindowDropped := a.ctr.beyondWindowDropped + |ms| - n))
  }

  lemma AheadExactly(a: Arb, d: Delivery, first: nat, now: nat)
    requires Inv(a) && d.err == None && first > a.w && d.msgs != [] && Consecutive(d.msgs, first)
    ensures AheadEffect(a, ApplyAhead(a, d, first, first + |d.msgs| - 1, now), d.msgs, first)
  {
    hide GapEvidence, StageAll, Consecutive, Beyond, Drain, CheckGapClose, RetirePending;
    var t := Beyond(StageAll(GapEvidence(a, first), d.msgs), first + |d.msgs| - 1);
    StagedAhead(a, d.msgs, first);
    assert t.w !in t.staged by { StagedKeys(a, t, d.msgs, first); }
    hide Inv;
    Undrained(t, now);
    assert ApplyAhead(a, d, first, first + |d.msgs| - 1, now) == RetirePending(CheckGapClose(Drain(t, now))) by {
      BeyondIs(StageAll(GapEvidence(a, first), d.msgs), first + |d.msgs| - 1);
    }
    hide ApplyAhead;
  }

  lemma BeyondIs(a: Arb, last: nat)
    ensures Beyond(a, last) == a.(hwm := if last >= a.w + WINDOW then Max(a.hwm, last + 1) else a.hwm, maxStaged := Max(a.maxStaged, last))
  {
  }

  /** With the gap open and the messages staged. */
  ghost predicate StagedIn(a: Arb, b: Arb, ms: seq<Msg>, first: nat) {
    var n, opens := Fitting(a.w, first, |ms|), !a.gapActive;
    && StagedToo(a.staged, b.staged, ms, first, n)
    && var gen := if opens then (a.gen + 1) % 0x1_0000_0000_0000_0000 else a.gen;
    && b == a.(staged := b.staged, gapActive := true, gen := gen, state := if opens then Gap else a.state,
               hwm := if opens || a.hwm < first then first else a.hwm,
               log := a.log + if opens then [Control(GapOpened(a.w, first, gen))] else [],
               ctr := a.ctr.(gapOpens := a.ctr.gapOpens + (if opens then 1 else 0),
                             stagedMsgs := a.ctr.stagedMsgs + n,
                             beyondWindowDropped := a.ctr.beyondWindowDropped + |ms| - n))
  }

  lemma StagesIn(a: Arb, ms: seq<Msg>, first: nat)
    requires first > a.w && Consecutive(ms, first)
    ensures StagedIn(a, StageAll(GapEvidence(a, first), ms), ms, first)
  {
    var g := GapEvidence(a, first);
    EvidenceExactly(a, first);
    StageAllExactly(g, ms, first);
    hide GapEvidence, StageAll, Consecutive, StagedToo, Fitting;
  }

  /** Before requests are retired. */
  lemma StagedAhead(a: Arb, ms: seq<Msg>, first: nat)
    requires first > a.w && ms != [] && Consecutive(ms, first)
    ensures var t := Beyond(StageAll(GapEvidence(a, first), ms), first + |ms| - 1);
      && t.hwm > a.w
      && AheadEffect(a, t.(pendingTo := if a.pendingTo.Some? && a.pendingTo.value <= a.w then None else a.pendingTo), ms, first)
      && t.w == a.w && t.pendingTo == a.pendingTo
  {
    hide GapEvidence, StageAll, Consecutive, StagedToo, Fitting, Beyond, AheadEffect;
    StagesIn(a, ms, first);
    var s := StageAll(GapEvidence(a, first), ms);
    BeyondIs(s, first + |ms| - 1);
    Completed(a, s, Beyond(s, first + |ms| - 1), ms, first);
  }

  lemma Completed(a: Arb, s: Arb, t: Arb, ms: seq<Msg>, first: nat)
    requires first > a.w && ms != [] && StagedIn(a, s, ms, first)
    requires var last := first + |ms| - 1;
      t == s.(hwm := if last >= s.w + WINDOW then Max(s.hwm, last + 1) else s.hwm, maxStaged := Max(s.maxStaged, last))
    ensures t.hwm > a.w && t.w == a.w && t.pendingTo == a.pendingTo
    ensures AheadEffect(a, t.(pendingTo := if a.pendingTo.Some? && a.pendingTo.value <= a.w then None else a.pendingTo), ms, first)
  {
    hide StagedToo, Fitting;
  }

  lemma EvidenceExactly(a: Arb, x: nat)
    requires x > a.w
    ensures var opens := !a.gapActive;
      var gen := if opens then (a.gen + 1) % 0x1_0000_0000_0000_0000 else a.gen;
      GapEvidence(a, x) == a.(gapActive := true, gen := gen, state := if opens then Gap else a.state,
        hwm := if opens || a.hwm < x then x else a.hwm,
        log := a.log + (if opens then [Control(GapOpened(a.w, x, gen))] else []),
        ctr := a.ctr.(gapOpens := a.ctr.gapOpens + if opens then 1 else 0))
  {
    assert a.log + [] == a.log;
  }

  lemma StagedKeys(a: Arb, t: Arb, ms: seq<Msg>, first: nat)
    requires Inv(a) && first > a.w && t.w == a.w
    requires StagedToo(a.staged, t.staged, ms, first, Fitting(a.w, first, |ms|))
    ensures t.w !in t.staged
  {
  }

  /** With the watermark's own message missing and evidence above it, draining and closing do nothing. */
  lemma Undrained(a: Arb, now: nat)
    requires a.w !in a.staged && a.hwm > a.w
    ensures RetirePending(CheckGapClose(Drain(a, now)))
      == a.(pendingTo := if a.pendingTo.Some? && a.pendingTo.value <= a.w then None else a.pendingTo)
  {
  }

  // ---- whole frames -------------------------------------------------------------------------------------

  /** The anchor: a session's first data frame that is taken sets the watermark to its first number. */
  function Anchored(a: Arb, first: nat, now: nat): Arb {
    if a.state == Init then a.(w := first, progressVt := now, state := Contig) else a
  }

  /** A data frame not taken counts, and nothing else. */
  function CountedOnly(a: Arb, h: Header, feed: nat): Arb {
    if a.state == Ended then a.(ctr := a.ctr.(dataAfterEos := a.ctr.dataAfterEos + 1, totalViolations := a.ctr.totalViolations + 1))
    else if h.seqNo + h.count > 0x1_0000_0000_0000_0000 then
      a.(ctr := a.ctr.(violations := a.ctr.violations.(seqOverflow := a.ctr.violations.seqOverflow + 1),
                       totalViolations := a.ctr.totalViolations + 1))
    else
      var c := a.ctr.(dupMsgs := a.ctr.dupMsgs + h.count);
      a.(ctr := if feed % 2 == 0 then c.(feedA := c.feedA.(dups := c.feedA.dups + 1))
                else c.(feedB := c.feedB.(dups := c.feedB.dups + 1)))
  }

  /** Every data frame free of errors, in every state: what it leaves, field by field. */
  lemma DataExactly(a: Arb, frame: Bytes, h: Header, feed: nat, now: nat)
    requires Inv(a) && a.state != Dead && |frame| >= 20 && IsData(h) && IngestWalk(frame, h.seqNo, h.count, 0).err == None
    ensures var b, c := DataFrame(a, frame, h, feed, now), Anchored(a, h.seqNo, now);
      if a.state == Ended || h.seqNo + h.count > 0x1_0000_0000_0000_0000 || (a.state != Init && h.seqNo + h.count <= a.w)
      then b == CountedOnly(a, h, feed)
      else if h.seqNo <= c.w then
        ContiguousEffect(c, b, IngestWalk(frame, h.seqNo, h.count, c.w - h.seqNo).msgs, c.w - h.seqNo, h.seqNo + h.count - 1, now)
      else AheadEffect(c, b, IngestWalk(frame, h.seqNo, h.count, 0).msgs, h.seqNo)
  {
    var first, count := h.seqNo, h.count;
    hide IngestWalk, ApplyContiguous, ApplyAhead, ContiguousEffect, AheadEffect, Inv;
    if a.state != Ended && first + count <= U64 && (a.state == Init || first + count > a.w) {
      InvAnchor(a, first, now);
      var c := Anchored(a, first, now);
      assert c == Anchor(a, first, now);
      if first <= c.w {
        var skip := c.w - first;
        assert skip == Skip(c.w, first, count);
        LaterFree(frame, first, count, skip);
        ContiguousExactly(c, IngestWalk(frame, first, count, skip), skip, first + count - 1, now);
      } else {
        LaterFree(frame, first, count, 0);
        WalkDelivers(frame, first, count, 0);
        NumberedOn(IngestWalk(frame, first, count, 0).msgs, first);
        AheadExactly(c, IngestWalk(frame, first, count, 0), first, now);
      }
    }
  }

  lemma NumberedOn(ms: seq<Msg>, first: nat)
    requires FromFrame(ms, first)
    ensures Consecutive(ms, first)
  {
  }

  lemma LaterFree(frame: Bytes, first: nat, count: nat, skip: nat)
    requires |frame| >= HEADER_LEN && skip <= count && IngestWalk(frame, first, count, 0).err == None
    ensures var d := IngestWalk(frame, first, count, skip); d.err == None && |d.msgs| == count - skip
  {
    hide Deliver;
    var w := FrameWalk(frame, count);
    Delivered(frame, first, w.blocks, 0, w.err);
    NoErrorLater(frame, first, w.blocks, skip, w.err);
    Delivered(frame, first, w.blocks, skip, w.err);
  }

  /** A heartbeat counts; before the first data frame it is remembered; in a live state one ahead of the
      watermark is remembered, opens a gap unless one is open, and raises its evidence. */
  lemma HeartbeatExactly(a: Arb, seqNo: nat, now: nat)
    ensures var opens := !a.gapActive;
      var b := a.(ctr := a.ctr.(heartbeats := a.ctr.heartbeats + 1));
      var gen := if opens then (a.gen + 1) % 0x1_0000_0000_0000_0000 else a.gen;
      Heartbeat(a, seqNo, now) ==
        if a.state == Init then b.(hbSeq := seqNo, hbVt := now)
        else if (a.state == Contig || a.state == Gap || a.state == EosPersist) && seqNo > a.w then
          b.(hbSeq := seqNo, hbVt := now, gapActive := true, gen := gen, state := if opens then Gap else a.state,
             hwm := if opens || a.hwm < seqNo then seqNo else a.hwm,
             log := a.log + (if opens then [Control(GapOpened(a.w, seqNo, gen))] else []),
             ctr := b.ctr.(gapOpens := a.ctr.gapOpens + if opens then 1 else 0))
        else b
  {
    if seqNo > a.w && a.state != Init {
      EvidenceExactly(a.(ctr := a.ctr.(heartbeats := a.ctr.heartbeats + 1), hbSeq := seqNo, hbVt := now), seqNo);
    }
    hide GapEvidence;
  }
}
