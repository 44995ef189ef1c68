// The sequencer as the source keeps it: scalar fields, a 1024-byte presence array and a 64 KiB
// arena, all updated in place. Every method is proved against the sequencer function of module
// Arbiter through View(), whose staged map the two arrays represent.
module Sequencer {
  import opened Bytes
  import opened Itch
  import opened Mold
  import opened Arbiter
  import opened ArbiterInvariant
  import opened Spans
  import opened WindowSlots
  import opened Entries
  import opened Steady
  import opened Ladder
  import Batch
  import Asking

  const SLOT_SIZE: nat := 64
  const ARENA_SIZE: nat := 65536

  /** The presence mark of a sequence number: stored length + 1, or 0 when absent. */
  ghost function Mark(staged: map<nat, Bytes>, k: nat): nat {
    if k in staged then |staged[k]| + 1 else 0
  }

  /** Arena bytes of slot s hold data. */
  ghost predicate Stored(arena: seq<Byte>, s: nat, data: Bytes) {
    s < WINDOW && |arena| == ARENA_SIZE && |data| <= SLOT_SIZE && arena[SLOT_SIZE * s..SLOT_SIZE * s + |data|] == data
  }

  /** The two arrays represent the staged map for the window starting at v. */
  ghost predicate Represents(lens: seq<Byte>, arena: seq<Byte>, count: nat, staged: map<nat, Bytes>, v: nat) {
    && |lens| == WINDOW
    && |arena| == ARENA_SIZE
    && count == |staged|
    && (forall k :: k in staged ==> v <= k < v + WINDOW && Stored(arena, Slot(k), staged[k]))
    && (forall k: nat :: v <= k < v + WINDOW ==> lens[Slot(k)] == Mark(staged, k))
  }

  lemma RepresentsStored(lens: seq<Byte>, arena: seq<Byte>, count: nat, staged: map<nat, Bytes>, v: nat, k: nat)
    requires Represents(lens, arena, count, staged, v) && v <= k < v + WINDOW
    ensures lens[Slot(k)] != 0 <==> k in staged
    ensures k in staged ==> lens[Slot(k)] as nat == |staged[k]| + 1 && Stored(arena, Slot(k), staged[k])
    ensures k in staged ==> count > 0
  {
    if k in staged { assert k in staged.Keys; }
  }

  lemma StoredHere(arena: seq<Byte>, arena2: seq<Byte>, s: nat, data: Bytes)
    requires s < WINDOW && |data| <= SLOT_SIZE && |arena| == ARENA_SIZE
    requires arena2 == arena[..SLOT_SIZE * s] + data + arena[SLOT_SIZE * s + |data|..]
    ensures Stored(arena2, s, data)
  {
  }

  lemma StoredThere(arena: seq<Byte>, arena2: seq<Byte>, s: nat, data: Bytes, t: nat, other: Bytes)
    requires s < WINDOW && |data| <= SLOT_SIZE && Stored(arena, t, other) && s != t
    requires arena2 == arena[..SLOT_SIZE * s] + data + arena[SLOT_SIZE * s + |data|..]
    ensures Stored(arena2, t, other)
  {
    var lo, hi := SLOT_SIZE * t, SLOT_SIZE * t + |other|;
    assert |arena2| == |arena|;
    if t < s {
      assert hi <= SLOT_SIZE * s;
    } else {
      assert lo >= SLOT_SIZE * s + |data|;
    }
    assert arena2[lo..hi] == arena[lo..hi];
  }

  /** A mark and its bytes written for k. */
  lemma Staging(lens: seq<Byte>, arena: seq<Byte>, count: nat, staged: map<nat, Bytes>, v: nat, k: nat, data: Bytes,
                arena2: seq<Byte>)
    requires Represents(lens, arena, count, staged, v) && v <= k < v + WINDOW && |data| <= SLOT_SIZE
    requires arena2 == arena[..SLOT_SIZE * Slot(k)] + data + arena[SLOT_SIZE * Slot(k) + |data|..]
    ensures Represents(lens[Slot(k) := |data| + 1], arena2, if k in staged then count else count + 1, staged[k := data], v)
  {
    hide Stored;
    var lens2, staged2 := lens[Slot(k) := |data| + 1], staged[k := data];
    StoredHere(arena, arena2, Slot(k), data);
    assert staged2.Keys == staged.Keys + {k};
    forall j | j in staged2 ensures v <= j < v + WINDOW && Stored(arena2, Slot(j), staged2[j]) {
      if j != k {
        Apart(v, j, k);
        StoredThere(arena, arena2, Slot(k), data, Slot(j), staged[j]);
      }
    }
    forall j: nat | v <= j < v + WINDOW ensures lens2[Slot(j)] == Mark(staged2, j) {
      if j != k { Apart(v, j, k); }
    }
  }

  lemma Apart(v: nat, j: nat, k: nat)
    requires v <= j < v + WINDOW && v <= k < v + WINDOW && j != k
    ensures Slot(j) != Slot(k)
  {
    if Slot(j) == Slot(k) {
      if j < k { SlotInjective(j, k); } else { SlotInjective(k, j); }
    }
  }

  /** A mark cleared. */
  lemma Clearing(lens: seq<Byte>, arena: seq<Byte>, count: nat, staged: map<nat, Bytes>, v: nat, k: nat)
    requires Represents(lens, arena, count, staged, v) && k in staged
    ensures count > 0 && Represents(lens[Slot(k) := 0], arena, count - 1, staged - {k}, v)
  {
    var lens2, staged2 := lens[Slot(k) := 0], staged - {k};
    assert staged2.Keys == staged.Keys - {k};
    forall j: nat | v <= j < v + WINDOW ensures lens2[Slot(j)] == Mark(staged2, j) {
      if j != k { Apart(v, j, k); }
    }
  }

  /** The window may move up to the lowest staged number, or anywhere when nothing is staged. */
  lemma Sliding(lens: seq<Byte>, arena: seq<Byte>, count: nat, staged: map<nat, Bytes>, v: nat, v': nat)
    requires Represents(lens, arena, count, staged, v)
    requires staged == map[] || (v <= v' && forall k :: k in staged ==> v' <= k)
    ensures Represents(lens, arena, count, staged, v')
  {
    forall k: nat | v' <= k < v' + WINDOW ensures lens[Slot(k)] == Mark(staged, k) {
      if !(v <= k < v + WINDOW) {
        var j := SlotOnto(v, k);
        assert lens[Slot(j)] == Mark(staged, j);
        if j in staged { Apart(v', j, k); }
      }
    }
  }

  /** All marks zero represent the empty window. */
  lemma Blank(lens: seq<Byte>, arena: seq<Byte>, v: nat)
    requires |lens| == WINDOW && |arena| == ARENA_SIZE && forall s :: 0 <= s < WINDOW ==> lens[s] == 0
    ensures Represents(lens, arena, 0, map[], v)
  {
  }

  lemma EmptyMap(lens: seq<Byte>, arena: seq<Byte>, count: nat, staged: map<nat, Bytes>, v: nat)
    requires Represents(lens, arena, count, staged, v)
    ensures |lens| == WINDOW && |arena| == ARENA_SIZE
    ensures count == 0 <==> staged == map[]
  {
  }

  /** The staged messages from k on. */
  ghost function From(staged: map<nat, Bytes>, k: nat): map<nat, Bytes> {
    map j | j in staged && j >= k :: staged[j]
  }

  lemma FromStep(staged: map<nat, Bytes>, k: nat)
    ensures From(staged, k + 1) == From(staged, k) - {k}
    ensures k !in From(staged, k) ==> From(staged, k + 1) == From(staged, k)
  {
  }

  lemma FromEmpty(staged: map<nat, Bytes>, j: nat, k: nat)
    requires j <= k && From(staged, j) == map[]
    ensures From(staged, k) == map[]
  {
    forall i ensures i !in From(staged, k) {
      assert i !in From(staged, j);
    }
  }

  lemma Bounds(lens: seq<Byte>, arena: seq<Byte>, count: nat, staged: map<nat, Bytes>, v: nat)
    requires Represents(lens, arena, count, staged, v)
    ensures forall k :: k in staged ==> v <= k < v + WINDOW
  {
  }

  lemma {:induction false} LeZeros(bs: Bytes)
    requires forall i :: 0 <= i < |bs| ==> bs[i] == 0
    ensures Le(bs) == 0
  {
    if bs != [] { LeZeros(bs[1..]); }
  }

  lemma ZeroTemplate(s: Bytes)
    requires s == NO_SESSION
    ensures |s| == 10 && Le(s[..8]) == 0 && Le(s[2..]) == 0
  {
    LeZeros(s[..8]);
    LeZeros(s[2..]);
  }

  lemma AskKeeps(a: Arb, now: nat)
    requires Inv(a)
    ensures Inv(RecoveryIntent(a, now).0)
  {
    InvStep(a, Op.Ask(now));
  }

  lemma StageNone(a: Arb)
    ensures StageAll(a, []) == a
  {
  }

  lemma StageSnoc(a: Arb, done: seq<Msg>, m: Msg)
    ensures StageAll(a, done + [m]) == StageOne(StageAll(a, done), m)
  {
    assert (done + [m])[..|done|] == done;
  }

  lemma EmittedIsEmitAll(a: Arb, ms: seq<Msg>)
    ensures Emitted(a, ms).(ctr := a.ctr.(msgsEmitted := a.ctr.msgsEmitted + |ms|)) == EmitAll(a, ms)
  {
  }

  lemma AnchorAt(a: Arb, first: nat, now: nat)
    ensures var b := Arbiter.Anchor(a, first, now);
      b.w == (if a.state == Init then first else a.w) && b.state != Init
  {
  }

  /** A session boundary empties the window before the state returns to Init. */
  lemma InitStaysEmpty(a: Arb, next: Bytes)
    requires a.state == Init ==> a.staged == map[]
    ensures var b := Arbiter.SessionDispatch(a, next);
      b.w == a.w && (b.state == Init ==> b.staged == map[])
  {
  }

  lemma EntryIndex(es: seq<Entry>, i: nat, baked: Bytes)
    requires AllWellFormed(es, baked) && i < |es|
    ensures GoodIndex(es[i].bytes, es[i].ts, es[i].memo)
  {
    assert WellFormed(es[i], baked);
  }

  lemma FoldNone(a: Arb, es: seq<Entry>, now: nat)
    ensures FoldIngest(a, es[0..0], now) == a
  {
  }

  lemma {:induction false} InvFold(a: Arb, es: seq<Entry>, now: nat)
    requires Inv(a)
    ensures Inv(FoldIngest(a, es, now))
    decreases |es|
  {
    hide Inv, Arbiter.Ingest;
    if es != [] {
      var n := |es| - 1;
      InvFold(a, es[..n], now);
      InvIngest(FoldIngest(a, es[..n], now), es[n].bytes, es[n].feed, now);
    }
  }

  lemma InvFoldAll(a: Arb, now: nat)
    requires Inv(a)
    ensures forall es :: Inv(FoldIngest(a, es, now))
  {
    forall es ensures Inv(FoldIngest(a, es, now)) {
      InvFold(a, es, now);
    }
  }

  class Sequencer {
    var w: nat
    var gen: nat
    var session: Bytes
    var sessionLo: nat
    var sessionHi: nat
    var sessionLive: bool
    var state: State
    var gapActive: bool
    var evidenceHwm: nat
    var maxStaged: nat
    var stagedCount: nat
    var progressVt: nat
    var hbSeq: nat
    var hbVt: nat
    var pendingTo: Option<nat>
    var lastIntentVt: nat
    var counters: Counters
    const lens: array<Byte>
    const arena: array<Byte>
    /** What the sink has seen. */
    var log: seq<Out>
    ghost var staged: map<nat, Bytes>

    /** The abstract sequencer, its trace expanded to single messages. */
    ghost function View(): (a: Arb)
      reads this
    {
      Arb(w, gen, session, state, gapActive, evidenceHwm, maxStaged, staged, progressVt, hbSeq, hbVt, pendingTo,
          lastIntentVt, counters, Expand(log))
    }

    ghost predicate Ring(v: nat)
      reads this`stagedCount, this`staged, lens, arena
    {
      lens != arena && Represents(lens[..], arena[..], stagedCount, staged, v)
    }

    /** The session compare words belong to the session. */
    ghost predicate Template()
      reads this`session, this`sessionLo, this`sessionHi, this`sessionLive
    {
      && |session| == 10
      && sessionLo == Le(session[..8]) && sessionHi == Le(session[2..])
      && (sessionLive <==> session != NO_SESSION)
    }

    ghost predicate Valid()
      reads this, lens, arena
    {
      Ring(w) && Template() && Inv(View())
    }

    /** A new sequencer in front of a sink that has seen a trace. */
    constructor (seen: seq<Out>)
      ensures Valid() && fresh(lens) && fresh(arena)
      ensures View() == Fresh(Expand(seen)) && log == seen
    {
      w, gen, session, state := 0, 0, NO_SESSION, Init;
      sessionLo, sessionHi, sessionLive := Le(NO_SESSION[..8]), Le(NO_SESSION[2..]), false;
      gapActive, evidenceHwm, maxStaged, stagedCount := false, 0, 0, 0;
      progressVt, hbSeq, hbVt, pendingTo, lastIntentVt := 0, 0, 0, None, 0;
      counters, log, staged := NO_COUNTS, seen, map[];
      lens := new Byte[WINDOW](_ => 0);
      arena := new Byte[ARENA_SIZE](_ => 0);
      new;
      InvFresh(Expand(seen));
      Blank(lens[..], arena[..], 0);
      hide Inv, Represents, Le, Expand;
    }

    /** A new pass on the same arrays: the marks are zeroed, the arena is left as it was. */
    method Reanchor()
      requires Valid()
      modifies this, lens
      ensures Valid()
      ensures View() == Fresh(old(View().log)) && log == old(log)
      ensures arena[..] == old(arena[..])
    {
      ghost var v := View();
      ForgetProgress();
      ForgetGap();
      ForgetClocks();
      ForgetStaged();
      ForgetSession();
      assert View() == Fresh(v.log) by { hide View; }
      InvFresh(v.log);
      hide View, Ring, Template;
    }

    method ForgetProgress()
      modifies this`w, this`gen, this`state, this`counters
      ensures w == 0 && View() == old(View()).(w := 0, gen := 0, state := Init, ctr := NO_COUNTS)
    {
      hide Expand, NO_COUNTS;
      w, gen, state, counters := 0, 0, Init, NO_COUNTS;
    }

    method ForgetGap()
      modifies this`gapActive, this`evidenceHwm, this`pendingTo, this`lastIntentVt
      ensures View() == old(View()).(gapActive := false, hwm := 0, pendingTo := None, lastIntentVt := 0)
    {
      hide Expand;
      gapActive, evidenceHwm, pendingTo, lastIntentVt := false, 0, None, 0;
    }

    method ForgetClocks()
      modifies this`progressVt, this`hbSeq, this`hbVt
      ensures View() == old(View()).(progressVt := 0, hbSeq := 0, hbVt := 0)
    {
      hide Expand;
      progressVt, hbSeq, hbVt := 0, 0, 0;
    }

    method ForgetStaged()
      requires lens != arena && lens.Length == WINDOW && arena.Length == ARENA_SIZE
      modifies this`maxStaged, this`stagedCount, this`staged, lens
      ensures View() == old(View()).(maxStaged := 0, staged := map[]) && Ring(w)
      ensures arena[..] == old(arena[..])
    {
      hide Expand, Represents;
      maxStaged, stagedCount, staged := 0, 0, map[];
      ZeroLens();
      Blank(lens[..], arena[..], w);
    }

    method ForgetSession()
      modifies this`session, this`sessionLo, this`sessionHi, this`sessionLive
      ensures View() == old(View()).(session := NO_SESSION) && Template()
    {
      hide Expand, Le;
      session, sessionLo, sessionHi, sessionLive := NO_SESSION, 0, 0, false;
      ZeroTemplate(session);
    }

    method ZeroLens()
      modifies lens
      ensures forall s :: 0 <= s < lens.Length ==> lens[s] == 0
    {
      for s := 0 to lens.Length
        invariant forall j :: 0 <= j < s ==> lens[j] == 0
      {
        lens[s] := 0;
      }
    }

    // ---- the staging window ----------------------------------------------------------------------

    /** Stage one payload; payloads are cut to a slot's size. The guard refuses everything but offsets
        1 to 1024, and at offset 1024 the message is staged as if it were the watermark's. */
    method StageMsg(seqNo: nat, data: Bytes) returns (ok: bool)
      requires Ring(w)
      modifies this`stagedCount, this`staged, lens, arena
      ensures Ring(w) && ok == GuardAdmits(w, seqNo)
      ensures staged == if ok then old(staged)[StagedAs(w, seqNo) := data[..if |data| < SLOT_SIZE then |data| else SLOT_SIZE]]
                        else old(staged)
    {
      hide Represents, GuardAdmits, StagedAs;
      EmptyMap(lens[..], arena[..], stagedCount, staged, w);
      ok := GuardAdmits(w, seqNo);
      if ok {
        ghost var k := StagedAs(w, seqNo);
        GuardExceedsClamp(w, seqNo);
        var slot := Slot(seqNo);
        ghost var count0 := stagedCount;
        RepresentsStored(lens[..], arena[..], stagedCount, staged, w, k);
        if lens[slot] == 0 { stagedCount := stagedCount + 1; }
        var len := if |data| < SLOT_SIZE then |data| else SLOT_SIZE;
        lens[slot] := len + 1;
        var start := SLOT_SIZE * slot;
        forall i | 0 <= i < len { arena[start + i] := data[i]; }
        assert lens[..] == old(lens[..])[slot := len + 1];
        assert arena[..] == old(arena[..])[..start] + data[..len] + old(arena[..])[start + len..];
        Staging(old(lens[..]), old(arena[..]), count0, staged, w, k, data[..len], arena[..]);
        staged := staged[k := data[..len]];
      }
    }

    method ClearOne(slot: nat, ghost v: nat, ghost k: nat)
      requires Ring(v) && k in staged && slot == Slot(k)
      modifies this`stagedCount, this`staged, lens
      ensures Ring(v) && staged == old(staged) - {k}
    {
      hide Represents, Slot;
      EmptyMap(lens[..], arena[..], stagedCount, staged, v);
      Clearing(lens[..], arena[..], stagedCount, staged, v, k);
      ghost var was := lens[..];
      lens[slot] := 0;
      assert lens[..] == was[slot := 0];
      stagedCount := stagedCount - 1;
      staged := staged - {k};
    }

    /** Clear n marks from slot start on; stop as soon as the window is empty. */
    method ClearCells(start: nat, n: nat, ghost v: nat, ghost k: nat)
      requires Ring(v) && v <= k && k + n <= v + WINDOW && start + n <= WINDOW && (n > 0 ==> start == Slot(k))
      requires forall j :: j in staged ==> k <= j
      modifies this`stagedCount, this`staged, this`maxStaged, lens
      ensures Ring(v)
      ensures staged == From(old(staged), k + n)
      ensures maxStaged == if staged == map[] && old(staged) != map[] then 0 else old(maxStaged)
    {
      hide Represents;
      EmptyMap(lens[..], arena[..], stagedCount, staged, v);
      for i := 0 to n
        invariant Ring(v)
        invariant staged == From(old(staged), k + i)
        invariant maxStaged == old(maxStaged) && (staged == map[] ==> old(staged) == map[])
      {
        SlotAhead(k, i);
        RepresentsStored(lens[..], arena[..], stagedCount, staged, v, k + i);
        FromStep(old(staged), k + i);
        hide From;
        if lens[start + i] != 0 {
          ClearOne(start + i, v, k + i);
          EmptyMap(lens[..], arena[..], stagedCount, staged, v);
          if stagedCount == 0 {
            maxStaged := 0;
            FromEmpty(old(staged), k + i + 1, k + n);
            return;
          }
        }
      }
    }

    /** Clear the marks of [oldW, min(newW, oldW + 1024)). */
    method ClearSlots(oldW: nat, newW: nat)
      requires Ring(oldW) && oldW <= newW
      modifies this`stagedCount, this`staged, this`maxStaged, lens
      ensures Ring(newW)
      ensures staged == From(old(staged), newW)
      ensures maxStaged == if staged == map[] && old(staged) != map[] then 0 else old(maxStaged)
    {
      hide Represents;
      EmptyMap(lens[..], arena[..], stagedCount, staged, oldW);
      Bounds(lens[..], arena[..], stagedCount, staged, oldW);
      if stagedCount != 0 {
        var limit := if newW < oldW + WINDOW then newW else oldW + WINDOW;
        if limit > oldW {
          var n := limit - oldW;
          var start := Slot(oldW);
          var firstN := if WINDOW - start < n then WINDOW - start else n;
          ClearCells(start, firstN, oldW, oldW);
          var rem := n - firstN;
          if rem > 0 { SlotAhead(oldW, firstN); }
          EmptyMap(lens[..], arena[..], stagedCount, staged, oldW);
          if stagedCount != 0 { ClearCells(0, rem, oldW, oldW + firstN); }
        }
      }
      Sliding(lens[..], arena[..], stagedCount, staged, oldW, newW);
    }

    lemma Fields()
      ensures var v := View();
        && v.w == w && v.gen == gen && v.session == session && v.state == state && v.gapActive == gapActive
        && v.staged == staged && v.maxStaged == maxStaged && v.hwm == evidenceHwm && v.pendingTo == pendingTo
    {
    }

    lemma Clocks()
      ensures var v := View();
        v.progressVt == progressVt && v.hbSeq == hbSeq && v.hbVt == hbVt && v.lastIntentVt == lastIntentVt
    {
    }

    /** Hand the staged message at the watermark to the sink and move past it. */
    method EmitStaged(slot: nat, data: Bytes)
      requires Ring(w) && w in staged && slot == Slot(w) && data == staged[w]
      modifies this`w, this`stagedCount, this`staged, this`log, lens
      ensures Ring(w) && w == old(w) + 1 && |staged| < old(|staged|)
      ensures var v := old(View());
        View() == v.(w := v.w + 1, staged := v.staged - {v.w}, log := v.log + [Emit(v.gen, v.w, data)])
    {
      hide Expand, Represents, Slot;
      ExpandSnoc(log, Emit(gen, w, data));
      DropOne(staged, w);
      Bounds(lens[..], arena[..], stagedCount, staged, w);
      log := log + [Emit(gen, w, data)];
      ClearOne(slot, w, w);
      Sliding(lens[..], arena[..], stagedCount, staged, w, w + 1);
      w := w + 1;
    }

    /** Emit the staged run starting at the watermark; the count of messages emitted. */
    method DrainRun() returns (emitted: nat)
      requires Ring(w)
      modifies this`w, this`stagedCount, this`staged, this`maxStaged, this`log, lens
      ensures Ring(w) && w == old(w) + emitted
      ensures old(staged) == map[] ==> View() == old(View())
      ensures old(staged) != map[] ==>
        var d := Arbiter.DrainRun(old(View()));
        View() == d.(maxStaged := if d.staged == map[] then 0 else d.maxStaged)
    {
      hide View, Represents, Expand;
      emitted := 0;
      EmptyMap(lens[..], arena[..], stagedCount, staged, w);
      if stagedCount == 0 { return; }
      Fields();
      while true
        invariant Ring(w) && w == old(w) + emitted && stagedCount != 0
        invariant Arbiter.DrainRun(View()) == Arbiter.DrainRun(old(View()))
        decreases |staged|
      {
        RepresentsStored(lens[..], arena[..], stagedCount, staged, w, w);
        Fields();
        var slot := Slot(w);
        var stored := lens[slot];
        if stored == 0 { break; }
        var len := stored - 1;
        var start := SLOT_SIZE * slot;
        EmitStaged(slot, arena[start..start + len]);
        emitted := emitted + 1;
        EmptyMap(lens[..], arena[..], stagedCount, staged, w);
        Fields();
        if stagedCount == 0 { break; }
      }
      if stagedCount == 0 { ClearMax(); }
      EmptyMap(lens[..], arena[..], stagedCount, staged, w);
      Fields();
    }

    method ClearMax()
      modifies this`maxStaged
      ensures View() == old(View()).(maxStaged := 0)
    {
      maxStaged := 0;
    }

    // ---- gap lifecycle --------------------------------------------------------------------------

    /** Write one control event to the sink. */
    method Signal(e: Event)
      modifies this`log
      ensures View() == old(View()).(log := old(View().log) + [Control(e)])
    {
      hide Expand;
      ExpandSnoc(log, Control(e));
      log := log + [Control(e)];
    }

    method GapEvidence(x: nat)
      modifies this`gapActive, this`gen, this`counters, this`state, this`evidenceHwm, this`log
      ensures View() == Arbiter.GapEvidence(old(View()), x)
    {
      hide Expand;
      if !gapActive && x > w {
        gapActive, gen := true, NextGen(gen);
        counters := counters.(gapOpens := counters.gapOpens + 1);
        state, evidenceHwm := Gap, x;
        Signal(GapOpened(w, x, gen));
      } else if gapActive {
        evidenceHwm := Max(evidenceHwm, x);
      }
    }

    method CheckGapClose()
      modifies this`gapActive, this`counters, this`state, this`evidenceHwm, this`log
      ensures View() == Arbiter.CheckGapClose(old(View()))
    {
      hide Expand;
      if gapActive && w >= evidenceHwm {
        gapActive, state := false, Contig;
        counters := counters.(reanchors := counters.reanchors + 1);
        Signal(ReAnchored(gen, w));
        evidenceHwm := 0;
      }
    }

    // ---- session lifecycle ---------------------------------------------------------------------------

    method RefreshTemplate()
      requires |session| == 10
      modifies this`sessionLo, this`sessionHi, this`sessionLive
      ensures Template() && View() == old(View())
    {
      hide Expand, Le;
      sessionLo, sessionHi, sessionLive := Le(session[..8]), Le(session[2..]), session != NO_SESSION;
    }

    /** Adopt the first session, or cross to another one. */
    method SessionDispatch(next: Bytes)
      requires |next| == 10 && |session| == 10 && Ring(w)
      modifies this, lens
      ensures View() == Arbiter.SessionDispatch(old(View()), next)
      ensures Ring(w) && |session| == 10 && session == if old(session) == NO_SESSION || old(session) != next then next else old(session)
      ensures sessionLo == old(sessionLo) && sessionHi == old(sessionHi) && sessionLive == old(sessionLive)
    {
      hide View, Ring, NextGen;
      Fields();
      if session == NO_SESSION {
        Adopt(next);
      } else if session != next {
        var prev := session;
        Adopt(next);
        FlushWindow();
        ForgetEvidence();
        NewEra(prev, next);
        Fields();
      }
    }

    method Adopt(next: Bytes)
      modifies this`session, this`counters
      ensures session == next
      ensures var v := old(View()); View() == v.(session := next, ctr := v.ctr.(sessions := v.ctr.sessions + 1))
    {
      hide Expand;
      session := next;
      counters := counters.(sessions := counters.sessions + 1);
    }

    method NewEra(prev: Bytes, next: Bytes)
      modifies this`gen, this`state, this`log
      ensures var v := old(View()); var g := NextGen(v.gen);
        View() == v.(gen := g, state := Init, log := v.log + [Control(SessionBoundary(prev, next, g))])
    {
      hide Expand;
      gen := NextGen(gen);
      Signal(SessionBoundary(prev, next, gen));
      state := Init;
    }

    method FlushWindow()
      requires Ring(w)
      modifies this`stagedCount, this`staged, this`maxStaged, this`counters, lens
      ensures Ring(w)
      ensures var v := old(View());
        View() == v.(staged := map[], maxStaged := 0,
                     ctr := if v.staged != map[] then v.ctr.(windowFlushed := v.ctr.windowFlushed + 1) else v.ctr)
    {
      hide Expand, Represents;
      EmptyMap(lens[..], arena[..], stagedCount, staged, w);
      if stagedCount != 0 {
        counters := counters.(windowFlushed := counters.windowFlushed + 1);
        ZeroLens();
        stagedCount, staged := 0, map[];
        Blank(lens[..], arena[..], w);
      }
      maxStaged := 0;
    }

    method ForgetEvidence()
      modifies this`gapActive, this`evidenceHwm, this`hbSeq, this`hbVt, this`pendingTo
      ensures View() == old(View()).(gapActive := false, hwm := 0, hbSeq := 0, hbVt := 0, pendingTo := None)
    {
      hide Expand;
      gapActive, evidenceHwm, hbSeq, hbVt, pendingTo := false, 0, 0, 0, None;
    }

    method Heartbeat(seqNo: nat, now: nat)
      modifies this`counters, this`hbSeq, this`hbVt, this`gapActive, this`gen, this`evidenceHwm, this`state, this`log
      ensures View() == Arbiter.Heartbeat(old(View()), seqNo, now)
    {
      hide Expand, Arbiter.GapEvidence;
      counters := counters.(heartbeats := counters.heartbeats + 1);
      if state == Dead { return; }
      if state == Init {
        hbSeq, hbVt := seqNo, now;
        return;
      }
      if state == Ended { return; }
      if seqNo > w {
        hbSeq, hbVt := seqNo, now;
        GapEvidence(seqNo);
      }
    }

    method Eos(announced: nat)
      modifies this`counters, this`state, this`log
      ensures View() == Arbiter.Eos(old(View()), announced)
    {
      hide Expand;
      if state == Dead { return; }
      if state == Ended {
        counters := counters.(eosDup := counters.eosDup + 1);
        return;
      }
      if state == Init {
        counters := counters.(eosSeen := counters.eosSeen + 1);
        Finish(announced);
        return;
      }
      if state == EosPersist {
        counters := counters.(eosDup := counters.eosDup + 1);
        if w >= announced { Finish(announced); }
        return;
      }
      counters := counters.(eosSeen := counters.eosSeen + 1);
      if w < announced { state := EosPersist; } else { Finish(announced); }
    }

    method Finish(announced: nat)
      modifies this`state, this`log
      ensures View() == End(old(View()), announced)
    {
      hide Expand;
      state := Ended;
      Signal(EndOfSession(session, w, announced));
    }

    method Seal(reason: DeadReason)
      requires Valid()
      modifies this`state, this`log
      ensures Valid() && View() == Arbiter.Seal(old(View()), reason)
    {
      hide Expand, Represents;
      InvStep(View(), Stop(reason));
      if state != Dead {
        state := Dead;
        Signal(SessionDead(reason, w));
      }
    }

    // ---- recovery intents ----------------------------------------------------------------------------

    method Ask(now: nat) returns (intent: Option<Intent>)
      requires Valid()
      modifies this`pendingTo, this`lastIntentVt, this`counters
      ensures Valid() && View() == RecoveryIntent(old(View()), now).0
      ensures intent == RecoveryIntent(old(View()), now).1
      ensures Asking.Answers(old(View()), now, intent, View())
    {
      AskKeeps(View(), now);
      Asking.AskExactly(View(), now);
      hide View, Inv, Ring, Template, RecoveryIntent, Asking.Answers;
      intent := Propose(now);
    }

    method Propose(now: nat) returns (intent: Option<Intent>)
      requires Ring(w)
      modifies this`pendingTo, this`lastIntentVt, this`counters
      ensures View() == RecoveryIntent(old(View()), now).0 && intent == RecoveryIntent(old(View()), now).1
    {
      EmptyMap(lens[..], arena[..], stagedCount, staged, w);
      hide View, Ring, Arbiter.Issue, Target, Since;
      Fields();
      Clocks();
      var target := ChooseTarget(now);
      var due := Since(now, lastIntentVt) >= RESUGGEST_NS;
      if target == None {
        if pendingTo.Some? && due { intent := Issue(pendingTo.value, now); } else { intent := None; }
      } else {
        var t := if target.value < w + MAX_WIRE_REQUEST then target.value else w + MAX_WIRE_REQUEST;
        if pendingTo == None || t > pendingTo.value {
          intent := Issue(t, now);
        } else if due {
          intent := Issue(pendingTo.value, now);
        } else {
          intent := None;
        }
      }
    }

    method ChooseTarget(now: nat) returns (target: Option<nat>)
      requires stagedCount == 0 <==> staged == map[]
      ensures target == Target(View(), now)
    {
      if (maxStaged > w && maxStaged - w >= HWM_STAGED_THRESHOLD) || (stagedCount > 0 && Since(now, progressVt) >= TRIGGER_NS) {
        target := Some(maxStaged);
      } else if hbSeq > w && Since(now, hbVt) >= TRIGGER_NS {
        target := Some(hbSeq);
      } else {
        target := None;
      }
    }

    method Issue(pending: nat, now: nat) returns (intent: Option<Intent>)
      modifies this`pendingTo, this`lastIntentVt, this`counters
      ensures (View(), intent) == Arbiter.Issue(old(View()), pending, now)
    {
      hide Expand;
      pendingTo, lastIntentVt := Some(pending), now;
      counters := counters.(intentsIssued := counters.intentsIssued + 1);
      intent := Some(Intent(w, pending));
    }

    // ---- the fused block walk -----------------------------------------------------------------------

    method EmitOne(m: Msg, ghost done: seq<Msg>)
      modifies this`log
      ensures forall v: Arb :: old(View()) == Emitted(v, done) ==> View() == Emitted(v, done + [m])
      ensures Plain(old(log)) ==> Plain(log)
    {
      hide Expand, Outs;
      OutsSnoc(gen, done, m);
      ExpandSnoc(log, Emit(gen, m.seqNo, m.data));
      log := log + [Emit(gen, m.seqNo, m.data)];
    }

    /** Walk the frame's blocks, skip the passed prefix, validate and emit the rest. */
    method EmitWalk(frame: Bytes, first: nat, count: nat, skip: nat) returns (n: nat, err: Option<PacketError>)
      requires |frame| >= HEADER_LEN
      modifies this`log
      ensures var d := IngestWalk(frame, first, count, skip);
        err == d.err && n == |d.msgs| && View() == Emitted(old(View()), d.msgs)
    {
      FusedIsTwoPhase(frame, HEADER_LEN, first, count, skip);
      EmittedNone(View());
      hide View, Validate, FusedWalk, Emitted, WalkFrom, Deliver, Split;
      var pos: nat, seqNo: nat, toSkip: nat := HEADER_LEN, first, skip;
      ghost var d := FusedWalk(frame, pos, first, count, skip);
      ghost var done: seq<Msg> := [];
      n := 0;
      SplitStart(d);
      var left: nat := count;
      while left > 0
        invariant pos <= |frame| && n == |done|
        invariant View() == Emitted(old(View()), done)
        invariant Split(d, done, FusedWalk(frame, pos, seqNo, left, toSkip))
      {
        SplitEnds(frame, pos, seqNo, left, toSkip, d, done);
        if |frame| < pos + 2 { return n, Some(Framing(BlockOverrun)); }
        var end := pos + 2 + Be16(frame[pos], frame[pos + 1]);
        if end > |frame| { return n, Some(Framing(BlockOverrun)); }
        SplitNext(frame, pos, seqNo, left, toSkip, end, d, done);
        var data := frame[pos + 2..end];
        if toSkip > 0 {
          toSkip := toSkip - 1;
        } else {
          var v := Validate(data);
          if v.Invalid? { return n, Some(Payload(v.error)); }
          EmitOne(Msg(seqNo, data), done);
          done := done + [Msg(seqNo, data)];
          n := n + 1;
        }
        pos, seqNo, left := end, seqNo + 1, left - 1;
      }
      SplitEnds(frame, pos, seqNo, 0, toSkip, d, done);
      err := if pos == |frame| then None else Some(Framing(TrailingBytes(|frame| - pos)));
    }

    /** Validate and stage one block of a frame ahead of the watermark. */
    method StageNext(m: Msg, ghost v: Arb, ghost done: seq<Msg>)
      requires Ring(w) && w < m.seqNo && Validate(m.data) == Verdict.Valid
      requires View() == StageAll(v, done)
      modifies this`stagedCount, this`staged, this`counters, lens, arena
      ensures Ring(w) && View() == StageAll(v, done + [m])
    {
      StageSnoc(v, done, m);
      hide Expand, Represents, StageAll;
      if m.seqNo < w + WINDOW {
        GuardOffsets(w, m.seqNo);
        GuardExceedsClamp(w, m.seqNo);
        var ok := StageMsg(m.seqNo, m.data);
        assert ok && m.data[..|m.data|] == m.data;
        counters := counters.(stagedMsgs := counters.stagedMsgs + 1);
      } else {
        counters := counters.(beyondWindowDropped := counters.beyondWindowDropped + 1);
      }
    }

    /** Walk the frame's blocks, validate each and stage or drop it. */
    method StageWalk(frame: Bytes, first: nat, count: nat) returns (err: Option<PacketError>)
      requires |frame| >= HEADER_LEN && Ring(w) && w < first
      modifies this`stagedCount, this`staged, this`counters, lens, arena
      ensures var d := IngestWalk(frame, first, count, 0);
        err == d.err && Ring(w) && View() == StageAll(old(View()), d.msgs)
    {
      FusedIsTwoPhase(frame, HEADER_LEN, first, count, 0);
      hide View, FusedWalk, StageAll, WalkFrom, Deliver, Ring;
      err := StageFrom(frame, first, count);
    }

    method StageFrom(frame: Bytes, first: nat, count: nat) returns (err: Option<PacketError>)
      requires |frame| >= HEADER_LEN && Ring(w) && w < first
      modifies this`stagedCount, this`staged, this`counters, lens, arena
      ensures var d := FusedWalk(frame, HEADER_LEN, first, count, 0);
        err == d.err && Ring(w) && View() == StageAll(old(View()), d.msgs)
    {
      ghost var v := View();
      StageNone(v);
      hide View, FusedWalk, StageAll, Split, Ring;
      var pos: nat, seqNo: nat, left: nat := HEADER_LEN, first, count;
      ghost var d, done := FusedWalk(frame, pos, first, count, 0), [];
      SplitStart(d);
      err := None;
      while left > 0
        invariant pos <= |frame| && seqNo > w && Ring(w) && err == None
        invariant View() == StageAll(v, done)
        invariant Split(d, done, FusedWalk(frame, pos, seqNo, left, 0))
      {
        pos, err, done := StageBlock(frame, pos, seqNo, left, v, d, done);
        if err.Some? { return; }
        seqNo, left := seqNo + 1, left - 1;
      }
      SplitEnds(frame, pos, seqNo, 0, 0, d, done);
      err := if pos == |frame| then None else Some(Framing(TrailingBytes(|frame| - pos)));
    }

    /** The block at pos; the position behind it. */
    method StageBlock(frame: Bytes, pos: nat, seqNo: nat, ghost left: nat, ghost v: Arb, ghost d: Delivery, ghost done: seq<Msg>)
      returns (end: nat, err: Option<PacketError>, ghost done': seq<Msg>)
      requires pos <= |frame| && left > 0 && Ring(w) && w < seqNo
      requires View() == StageAll(v, done) && Split(d, done, FusedWalk(frame, pos, seqNo, left, 0))
      modifies this`stagedCount, this`staged, this`counters, lens, arena
      ensures Ring(w) && View() == StageAll(v, done')
      ensures err.Some? ==> d == Delivery(done', err)
      ensures err.None? ==> end <= |frame| && Split(d, done', FusedWalk(frame, end, seqNo + 1, left - 1, 0))
    {
      hide View, Validate, FusedWalk, StageAll, Split, Ring;
      SplitEnds(frame, pos, seqNo, left, 0, d, done);
      end, done' := pos, done;
      if |frame| < pos + 2 { return end, Some(Framing(BlockOverrun)), done; }
      end := pos + 2 + Be16(frame[pos], frame[pos + 1]);
      if end > |frame| { return end, Some(Framing(BlockOverrun)), done; }
      SplitNext(frame, pos, seqNo, left, 0, end, d, done);
      var data := frame[pos + 2..end];
      var verdict := Validate(data);
      if verdict.Invalid? { return end, Some(Payload(verdict.error)), done; }
      StageNext(Msg(seqNo, data), v, done);
      err, done' := None, done + [Msg(seqNo, data)];
    }

    // ---- data frames --------------------------------------------------------------------------------

    method AddEmitted(n: nat)
      modifies this`counters
      ensures var v := old(View()); View() == v.(ctr := v.ctr.(msgsEmitted := v.ctr.msgsEmitted + n))
    {
      hide Expand;
      counters := counters.(msgsEmitted := counters.msgsEmitted + n);
    }

    method Touch(now: nat)
      modifies this`progressVt
      ensures View() == old(View()).(progressVt := now)
    {
      hide Expand;
      progressVt := now;
    }

    /** Move the watermark and clear the marks it passed. */
    method JumpTo(newW: nat)
      requires Ring(w) && w <= newW
      modifies this`w, this`stagedCount, this`staged, this`maxStaged, lens
      ensures Ring(w) && View() == ClearPassed(old(View()).(w := newW))
    {
      hide Expand, Represents;
      var oldW := w;
      w := newW;
      EmptyMap(lens[..], arena[..], stagedCount, staged, oldW);
      if stagedCount != 0 {
        ClearSlots(oldW, w);
      } else {
        Sliding(lens[..], arena[..], stagedCount, staged, oldW, w);
      }
    }

    method Drain(now: nat)
      requires Ring(w)
      modifies this`w, this`stagedCount, this`staged, this`maxStaged, this`log, this`counters, this`progressVt, lens
      ensures Ring(w) && View() == Arbiter.Drain(old(View()), now)
    {
      hide View, Ring, Arbiter.DrainRun;
      Fields();
      var drained := DrainRun();
      Fields();
      AddEmitted(drained);
      if drained > 0 { Touch(now); }
    }

    /** The watermark passes the frame: clear, drain, close the gap. */
    method Advance(last: nat, now: nat)
      requires Ring(w) && w <= last
      modifies this`w, this`stagedCount, this`staged, this`maxStaged, this`log, this`counters, this`progressVt
      modifies this`gapActive, this`state, this`evidenceHwm, lens
      ensures Ring(w) && View() == Arbiter.Advance(old(View()), last, now)
    {
      hide View, Ring, ClearPassed, Arbiter.Drain, Arbiter.CheckGapClose;
      JumpTo(last + 1);
      Touch(now);
      Drain(now);
      CheckGapClose();
    }

    method RetirePending()
      modifies this`pendingTo
      ensures View() == Arbiter.RetirePending(old(View()))
    {
      hide Expand;
      if pendingTo.Some? && w >= pendingTo.value { pendingTo := None; }
    }

    method CountViolation(e: PacketError)
      modifies this`counters
      ensures var v := old(View()); View() == v.(ctr := Violate(v.ctr, e))
    {
      hide Expand, Violate;
      counters := Violate(counters, e);
    }

    method CountOverlap(skip: nat)
      modifies this`counters
      ensures var v := old(View()); View() == v.(ctr := v.ctr.(dupMsgs := v.ctr.dupMsgs + skip))
    {
      hide Expand;
      if skip != 0 { counters := counters.(dupMsgs := counters.dupMsgs + skip); }
    }

    method Beyond(last: nat)
      modifies this`evidenceHwm, this`maxStaged
      ensures View() == ArbiterInvariant.Beyond(old(View()), last)
    {
      hide Expand;
      if last >= w + WINDOW { evidenceHwm := Max(evidenceHwm, last + 1); }
      maxStaged := Max(maxStaged, last);
    }

    method Contiguous(frame: Bytes, first: nat, count: nat, now: nat)
      requires Ring(w) && |frame| >= HEADER_LEN && first <= w < first + count
      modifies this`w, this`stagedCount, this`staged, this`maxStaged, this`log, this`counters, this`progressVt
      modifies this`gapActive, this`state, this`evidenceHwm, this`pendingTo, lens
      ensures Ring(w)
      ensures var v := old(View()); var skip := Skip(v.w, first, count);
        View() == ApplyContiguous(v, IngestWalk(frame, first, count, skip), skip, first + count - 1, now)
    {
      hide View, Ring, IngestWalk, Violate, Arbiter.Advance, Arbiter.RetirePending;
      Fields();
      var skip := Skip(w, first, count);
      CountOverlap(skip);
      ghost var b := View();
      var n, err := EmitWalk(frame, first, count, skip);
      AddEmitted(n);
      EmittedIsEmitAll(b, IngestWalk(frame, first, count, skip).msgs);
      Fields();
      if err.Some? {
        CountViolation(err.value);
      } else {
        Advance(first + count - 1, now);
        RetirePending();
      }
    }

    method Ahead(frame: Bytes, first: nat, count: nat, now: nat)
      requires Ring(w) && |frame| >= HEADER_LEN && w < first && count > 0
      modifies this`w, this`stagedCount, this`staged, this`maxStaged, this`log, this`counters, this`progressVt
      modifies this`gapActive, this`gen, this`state, this`evidenceHwm, this`pendingTo, lens, arena
      ensures Ring(w)
      ensures View() == ApplyAhead(old(View()), IngestWalk(frame, first, count, 0), first, first + count - 1, now)
    {
      hide View, Ring, IngestWalk, Violate, StageAll, Arbiter.RetirePending, Arbiter.CheckGapClose, Arbiter.Drain, Arbiter.GapEvidence;
      GapEvidence(first);
      var err := StageWalk(frame, first, count);
      if err.Some? {
        CountViolation(err.value);
      } else {
        Beyond(first + count - 1);
        Drain(now);
        CheckGapClose();
        RetirePending();
      }
    }

    /** Anchor the watermark at the session's first data packet. */
    method Anchor(first: nat, now: nat)
      requires Ring(w) && (state == Init ==> staged == map[])
      modifies this`w, this`progressVt, this`state
      ensures Ring(w) && View() == Arbiter.Anchor(old(View()), first, now)
    {
      hide Expand, Represents;
      if state == Init {
        Sliding(lens[..], arena[..], stagedCount, staged, w, first);
        w, progressVt, state := first, now, Contig;
      }
    }

    method CountDuplicate(feed: nat, msgs: nat)
      modifies this`counters
      ensures var v := old(View()); View() == v.(ctr := CountDup(v.ctr, feed, msgs))
    {
      hide Expand, CountDup;
      counters := CountDup(counters, feed, msgs);
    }

    method CountAfterEos()
      modifies this`counters
      ensures var v := old(View());
        View() == v.(ctr := v.ctr.(dataAfterEos := v.ctr.dataAfterEos + 1, totalViolations := v.ctr.totalViolations + 1))
    {
      hide Expand;
      counters := counters.(dataAfterEos := counters.dataAfterEos + 1, totalViolations := counters.totalViolations + 1);
    }

    method DataFrame(frame: Bytes, h: Header, feed: nat, now: nat)
      requires Ring(w) && |frame| >= HEADER_LEN && IsData(h) && (state == Init ==> staged == map[])
      modifies this`w, this`stagedCount, this`staged, this`maxStaged, this`log, this`counters, this`progressVt
      modifies this`gapActive, this`gen, this`state, this`evidenceHwm, this`pendingTo, lens, arena
      ensures Ring(w) && View() == Arbiter.DataFrame(old(View()), frame, h, feed, now)
    {
      hide View, Ring, Template, IngestWalk, CountDup, Violate, ApplyContiguous, ApplyAhead, Arbiter.Anchor;
      Fields();
      var first, last := h.seqNo, h.seqNo + h.count - 1;
      if state == Ended {
        CountAfterEos();
        return;
      }
      if last >= U64 {
        CountViolation(Framing(SeqOverflow));
        return;
      }
      if state != Init && last < w {
        CountDuplicate(feed, h.count);
        return;
      }
      Apply(frame, h, now);
    }

    method Apply(frame: Bytes, h: Header, now: nat)
      requires Ring(w) && |frame| >= HEADER_LEN && IsData(h) && (state == Init ==> staged == map[])
      requires state == Init || h.seqNo + h.count - 1 >= w
      modifies this`w, this`stagedCount, this`staged, this`maxStaged, this`log, this`counters, this`progressVt
      modifies this`gapActive, this`gen, this`state, this`evidenceHwm, this`pendingTo, lens, arena
      ensures Ring(w)
      ensures var first, last := h.seqNo, h.seqNo + h.count - 1;
        var a := Arbiter.Anchor(old(View()), first, now);
        var skip := if first <= a.w then Skip(a.w, first, h.count) else 0;
        View() == if first <= a.w then ApplyContiguous(a, IngestWalk(frame, first, h.count, skip), skip, last, now)
                  else ApplyAhead(a, IngestWalk(frame, first, h.count, 0), first, last, now)
    {
      AnchorAt(View(), h.seqNo, now);
      hide View, Ring, Template, IngestWalk, ApplyContiguous, ApplyAhead, Arbiter.Anchor;
      Fields();
      Anchor(h.seqNo, now);
      Fields();
      if h.seqNo <= w {
        Contiguous(frame, h.seqNo, h.count, now);
      } else {
        Ahead(frame, h.seqNo, h.count, now);
      }
    }

    // ---- one frame -------------------------------------------------------------------------------------

    /** The normative ingest. */
    method Ingest(frame: Bytes, feed: nat, now: nat)
      requires Valid()
      modifies this, lens, arena
      ensures Valid() && View() == Arbiter.Ingest(old(View()), frame, feed, now)
    {
      InvIngest(View(), frame, feed, now);
      hide View, Ring, Template, Inv, Arbiter.Ingest;
      Process(frame, feed, now);
    }

    method CountFrame(feed: nat, len: nat)
      modifies this`counters
      ensures var v := old(View()); View() == v.(ctr := CountPacket(v.ctr, feed, len))
    {
      hide Expand, CountPacket;
      counters := CountPacket(counters, feed, len);
    }

    method CountIgnored()
      modifies this`counters
      ensures var v := old(View()); View() == v.(ctr := v.ctr.(ignoredAfterDead := v.ctr.ignoredAfterDead + 1))
    {
      hide Expand;
      counters := counters.(ignoredAfterDead := counters.ignoredAfterDead + 1);
    }

    method Process(frame: Bytes, feed: nat, now: nat)
      requires Ring(w) && Template() && (state == Init ==> staged == map[])
      modifies this, lens, arena
      ensures Ring(w) && Template() && View() == Arbiter.Ingest(old(View()), frame, feed, now)
    {
      hide View, Ring, Template, CountPacket, Violate, Live;
      CountFrame(feed, |frame|);
      if |frame| < HEADER_LEN {
        CountViolation(Framing(Truncated(HEADER_LEN, |frame|)));
        return;
      }
      Fields();
      if state == Dead {
        CountIgnored();
      } else {
        ProcessLive(frame, feed, now);
      }
    }

    method ProcessLive(frame: Bytes, feed: nat, now: nat)
      requires Ring(w) && Template() && (state == Init ==> staged == map[]) && |frame| >= HEADER_LEN
      modifies this, lens, arena
      ensures Ring(w) && Template() && View() == Live(old(View()), frame, feed, now)
    {
      hide View, Ring, Template, Arbiter.SessionDispatch, Arbiter.DataFrame, Arbiter.Heartbeat, Arbiter.Eos;
      var h := HeaderOf(frame);
      Dispatch(h.session);
      Classify(frame, h, feed, now);
    }

    /** Session dispatch, with the compare words kept in step. */
    method Dispatch(next: Bytes)
      requires Ring(w) && Template() && |next| == 10 && (state == Init ==> staged == map[])
      modifies this, lens
      ensures Ring(w) && Template() && (state == Init ==> staged == map[])
      ensures View() == Arbiter.SessionDispatch(old(View()), next)
    {
      hide View, Ring, Arbiter.SessionDispatch, Le;
      Fields();
      InitStaysEmpty(View(), next);
      var prev := session;
      SessionDispatch(next);
      Fields();
      if !sessionLive || session != prev { RefreshTemplate(); }
    }

    method Classify(frame: Bytes, h: Header, feed: nat, now: nat)
      requires Ring(w) && Template() && (state == Init ==> staged == map[]) && |frame| >= HEADER_LEN
      modifies this, lens, arena
      ensures Ring(w) && Template()
      ensures View() == if h.count == HEARTBEAT_COUNT then Arbiter.Heartbeat(old(View()), h.seqNo, now)
                        else if h.count == EOS_COUNT then Arbiter.Eos(old(View()), h.seqNo)
                        else Arbiter.DataFrame(old(View()), frame, h, feed, now)
    {
      hide View, Ring, Template, Arbiter.DataFrame, Arbiter.Heartbeat, Arbiter.Eos;
      if h.count == HEARTBEAT_COUNT {
        Heartbeat(h.seqNo, now);
      } else if h.count == EOS_COUNT {
        Eos(h.seqNo);
      } else {
        DataFrame(frame, h, feed, now);
      }
    }

    // ---- the indexed walk ----------------------------------------------------------------------------

    /** One span call. */
    method EmitSpan(first: nat, count: nat, body: Bytes, cuts: seq<Block>)
      requires WellCut(count, body, cuts)
      modifies this`log
      ensures View() == Emitted(old(View()), SpanMsgs(first, body, cuts))
      ensures |log| == |old(log)| + 1 && log[|old(log)|].Span?
    {
      hide Expand;
      var o := Span(gen, first, count, body, cuts);
      ExpandSnoc(log, o);
      log := log + [o];
    }

    /** Emit the messages of the triples from skip on, validating unless the memo covers them all. */
    method EmitTriples(frame: Bytes, ghost first: nat, ts: seq<Triple>, skip: nat, allValid: bool)
      returns (n: nat, err: Option<PacketError>)
      requires ExactWalk(frame, first, ts) && skip <= |ts| && (allValid ==> ExactMemo(frame, Blocks(ts), |ts|))
      modifies this`log
      ensures var d := IngestWalk(frame, first, |ts|, skip);
        err == d.err && n == |d.msgs| && View() == Emitted(old(View()), d.msgs)
      ensures Plain(old(log)) ==> Plain(log)
    {
      ExactWalkFits(frame, first, ts);
      hide View, Emitted, ExactWalk, IngestWalk, FrameWalk, Ordered, Deliver, ExactMemo, Plain;
      n, err := TriplesFrom(frame, first, ts, skip, allValid);
    }

    method TriplesFrom(frame: Bytes, ghost first: nat, ts: seq<Triple>, skip: nat, allValid: bool)
      returns (n: nat, err: Option<PacketError>)
      requires ExactWalk(frame, first, ts) && skip <= |ts| && (allValid ==> ExactMemo(frame, Blocks(ts), |ts|))
      requires WithinFrame(frame, Blocks(ts))
      modifies this`log
      ensures var d := Deliver(frame, first, Blocks(ts), skip, None);
        err == d.err && n == |d.msgs| && View() == Emitted(old(View()), d.msgs)
      ensures Plain(old(log)) ==> Plain(log)
    {
      ghost var v := View();
      EmittedNone(v);
      hide View, Emitted, Deliver, Split, ExactMemo, ExactWalk, Blocks, WithinFrame, Plain;
      ghost var d, done := Deliver(frame, first, Blocks(ts), skip, None), [];
      SplitStart(d);
      n, err := 0, None;
      for i := skip to |ts|
        invariant n == |done| && err == None && View() == Emitted(v, done)
        invariant Split(d, done, Deliver(frame, first, Blocks(ts), i, None))
        invariant Plain(old(log)) ==> Plain(log)
      {
        err, done := TripleOut(frame, first, ts, i, allValid, v, d, done);
        if err.Some? { return; }
        n := n + 1;
      }
      TripleStep(frame, first, ts, |ts|, d, done);
    }

    method TripleOut(frame: Bytes, ghost first: nat, ts: seq<Triple>, i: nat, allValid: bool, ghost v: Arb, ghost d: Delivery,
                    ghost done: seq<Msg>)
      returns (err: Option<PacketError>, ghost done': seq<Msg>)
      requires ExactWalk(frame, first, ts) && WithinFrame(frame, Blocks(ts)) && i < |ts|
      requires View() == Emitted(v, done) && Split(d, done, Deliver(frame, first, Blocks(ts), i, None))
      requires allValid ==> ExactMemo(frame, Blocks(ts), |ts|)
      modifies this`log
      ensures View() == Emitted(v, done') && (Plain(old(log)) ==> Plain(log))
      ensures err.Some? ==> d == Delivery(done', err) && done' == done
      ensures err.None? ==> |done'| == |done| + 1 && Split(d, done', Deliver(frame, first, Blocks(ts), i + 1, None))
    {
      TripleStep(frame, first, ts, i, d, done);
      if allValid { MemoValid(frame, ts, i); }
      hide View, Emitted, Deliver, Split, ExactMemo, Validate;
      var data := frame[ts[i].at.start..ts[i].at.end];
      done' := done;
      if !allValid {
        var verdict := Validate(data);
        if verdict.Invalid? { return Some(Payload(verdict.error)), done; }
      }
      EmitOne(Msg(ts[i].seqNo, data), done);
      err, done' := None, done + [Msg(ts[i].seqNo, data)];
    }

    /** Validate and stage the messages of the triples. */
    method StageTriples(frame: Bytes, ghost first: nat, ts: seq<Triple>) returns (err: Option<PacketError>)
      requires ExactWalk(frame, first, ts) && Ring(w) && w < first
      modifies this`stagedCount, this`staged, this`counters, lens, arena
      ensures var d := IngestWalk(frame, first, |ts|, 0);
        err == d.err && Ring(w) && View() == StageAll(old(View()), d.msgs)
    {
      ExactWalkFits(frame, first, ts);
      ghost var v := View();
      StageNone(v);
      hide View, StageAll, Deliver, Split, Ring;
      ghost var d, done := Deliver(frame, first, Blocks(ts), 0, None), [];
      SplitStart(d);
      for i := 0 to |ts|
        invariant Ring(w) && View() == StageAll(v, done)
        invariant Split(d, done, Deliver(frame, first, Blocks(ts), i, None))
      {
        err, done := TripleIn(frame, first, ts, i, v, d, done);
        if err.Some? { return; }
      }
      TripleStep(frame, first, ts, |ts|, d, done);
      err := None;
    }

    method TripleIn(frame: Bytes, ghost first: nat, ts: seq<Triple>, i: nat, ghost v: Arb, ghost d: Delivery, ghost done: seq<Msg>)
      returns (err: Option<PacketError>, ghost done': seq<Msg>)
      requires ExactWalk(frame, first, ts) && WithinFrame(frame, Blocks(ts)) && i < |ts| && Ring(w) && w < first
      requires View() == StageAll(v, done) && Split(d, done, Deliver(frame, first, Blocks(ts), i, None))
      modifies this`stagedCount, this`staged, this`counters, lens, arena
      ensures Ring(w) && View() == StageAll(v, done')
      ensures err.Some? ==> d == Delivery(done', err)
      ensures err.None? ==> Split(d, done', Deliver(frame, first, Blocks(ts), i + 1, None))
    {
      TripleStep(frame, first, ts, i, d, done);
      hide View, StageAll, Deliver, Split, Ring, Validate;
      var data := frame[ts[i].at.start..ts[i].at.end];
      var verdict := Validate(data);
      if verdict.Invalid? { return Some(Payload(verdict.error)), done; }
      StageNext(Msg(ts[i].seqNo, data), v, done);
      err, done' := None, done + [Msg(ts[i].seqNo, data)];
    }

    method EmitAsSpan(frame: Bytes, ghost first: nat, ts: seq<Triple>, skip: nat)
      requires ExactWalk(frame, first, ts) && WithinFrame(frame, Blocks(ts)) && skip < |ts|
      modifies this`log
      ensures View() == Emitted(old(View()), BlockMsgs(frame, first, Blocks(ts), skip))
      ensures |log| == |old(log)| + 1 && log[|old(log)|].Span?
    {
      hide *;
      TripleSpan(frame, first, ts, skip);
      var body := frame[ts[skip].at.start..ts[|ts| - 1].at.end];
      EmitSpan(ts[skip].seqNo, |ts| - skip, body, Blocks(ts)[skip..]);
    }

    /** Emit the unskipped messages: as one span when the memo proves them all valid and the sink
        takes spans, one by one otherwise. */
    method EmitIndexed(frame: Bytes, ghost first: nat, ts: seq<Triple>, skip: nat, memo: Option<nat>, wantsSpans: bool)
      returns (n: nat, err: Option<PacketError>)
      requires ExactWalk(frame, first, ts) && GoodMemo(frame, ts, memo) && skip <= |ts|
      modifies this`log
      ensures var d := IngestWalk(frame, first, |ts|, skip);
        err == d.err && n == |d.msgs| && View() == Emitted(old(View()), d.msgs)
      ensures !wantsSpans && Plain(old(log)) ==> Plain(log)
      ensures wantsSpans && memo == Some(|ts|) && skip < |ts| ==> |log| == |old(log)| + 1 && log[|old(log)|].Span?
    {
      ExactWalkFits(frame, first, ts);
      hide View, Emitted, Deliver, ExactMemo, ExactWalk, IngestWalk, FrameWalk, SpanMsgs, BlockMsgs, Plain;
      var count := |ts|;
      var allValid := memo.Some? && memo.value == count;
      if allValid && wantsSpans && count > skip {
        FullMemoDelivers(frame, first, ts, memo.value, skip);
        EmitAsSpan(frame, first, ts, skip);
        n, err := count - skip, None;
      } else {
        n, err := EmitTriples(frame, first, ts, skip, allValid);
      }
    }

    // ---- the indexed ingest --------------------------------------------------------------------------

    method ContiguousIndexed(frame: Bytes, first: nat, ts: seq<Triple>, memo: Option<nat>, wantsSpans: bool, now: nat)
      requires Ring(w) && |frame| >= HEADER_LEN && ExactWalk(frame, first, ts) && GoodMemo(frame, ts, memo) && first <= w < first + |ts|
      modifies this`w, this`stagedCount, this`staged, this`maxStaged, this`log, this`counters, this`progressVt
      modifies this`gapActive, this`state, this`evidenceHwm, this`pendingTo, lens
      ensures Ring(w)
      ensures var v := old(View()); var skip := Skip(v.w, first, |ts|);
        View() == ApplyContiguous(v, IngestWalk(frame, first, |ts|, skip), skip, first + |ts| - 1, now)
    {
      hide View, Ring, IngestWalk, Violate, Arbiter.Advance, Arbiter.RetirePending, ExactWalk, GoodMemo;
      Fields();
      var skip := Skip(w, first, |ts|);
      CountOverlap(skip);
      ghost var b := View();
      var n, err := EmitIndexed(frame, first, ts, skip, memo, wantsSpans);
      AddEmitted(n);
      EmittedIsEmitAll(b, IngestWalk(frame, first, |ts|, skip).msgs);
      Fields();
      if err.Some? {
        CountViolation(err.value);
      } else {
        Advance(first + |ts| - 1, now);
        RetirePending();
      }
    }

    method AheadIndexed(frame: Bytes, first: nat, ts: seq<Triple>, now: nat)
      requires Ring(w) && |frame| >= HEADER_LEN && ExactWalk(frame, first, ts) && w < first && ts != []
      modifies this`w, this`stagedCount, this`staged, this`maxStaged, this`log, this`counters, this`progressVt
      modifies this`gapActive, this`gen, this`state, this`evidenceHwm, this`pendingTo, lens, arena
      ensures Ring(w)
      ensures View() == ApplyAhead(old(View()), IngestWalk(frame, first, |ts|, 0), first, first + |ts| - 1, now)
    {
      hide View, Ring, IngestWalk, Violate, StageAll, Arbiter.RetirePending, Arbiter.CheckGapClose, Arbiter.Drain,
        Arbiter.GapEvidence, ExactWalk;
      GapEvidence(first);
      var err := StageTriples(frame, first, ts);
      if err.Some? {
        CountViolation(err.value);
      } else {
        Beyond(first + |ts| - 1);
        Drain(now);
        CheckGapClose();
        RetirePending();
      }
    }

    method ApplyIndexed(frame: Bytes, h: Header, ts: seq<Triple>, memo: Option<nat>, wantsSpans: bool, now: nat)
      requires Ring(w) && |frame| >= HEADER_LEN && IsData(h) && (state == Init ==> staged == map[])
      requires |ts| == h.count && ExactWalk(frame, h.seqNo, ts) && GoodMemo(frame, ts, memo)
      requires state == Init || h.seqNo + h.count - 1 >= w
      modifies this`w, this`stagedCount, this`staged, this`maxStaged, this`log, this`counters, this`progressVt
      modifies this`gapActive, this`gen, this`state, this`evidenceHwm, this`pendingTo, lens, arena
      ensures Ring(w)
      ensures var first, last := h.seqNo, h.seqNo + h.count - 1;
        var a := Arbiter.Anchor(old(View()), first, now);
        var skip := if first <= a.w then Skip(a.w, first, h.count) else 0;
        View() == if first <= a.w then ApplyContiguous(a, IngestWalk(frame, first, h.count, skip), skip, last, now)
                  else ApplyAhead(a, IngestWalk(frame, first, h.count, 0), first, last, now)
    {
      AnchorAt(View(), h.seqNo, now);
      hide View, Ring, Template, IngestWalk, ApplyContiguous, ApplyAhead, Arbiter.Anchor, ExactWalk, GoodMemo;
      Fields();
      Anchor(h.seqNo, now);
      Fields();
      if h.seqNo <= w {
        ContiguousIndexed(frame, h.seqNo, ts, memo, wantsSpans, now);
      } else {
        AheadIndexed(frame, h.seqNo, ts, now);
      }
    }

    method DataIndexed(frame: Bytes, h: Header, ts: seq<Triple>, memo: Option<nat>, wantsSpans: bool, feed: nat, now: nat)
      requires Ring(w) && |frame| >= HEADER_LEN && IsData(h) && (state == Init ==> staged == map[])
      requires |ts| == h.count && ExactWalk(frame, h.seqNo, ts) && GoodMemo(frame, ts, memo)
      modifies this`w, this`stagedCount, this`staged, this`maxStaged, this`log, this`counters, this`progressVt
      modifies this`gapActive, this`gen, this`state, this`evidenceHwm, this`pendingTo, lens, arena
      ensures Ring(w) && View() == Arbiter.DataFrame(old(View()), frame, h, feed, now)
    {
      ExactSeqs(frame, h.seqNo, ts);
      hide View, Ring, Arbiter.DataFrame, GoodMemo, ExactWalk;
      SortIndexed(frame, h, ts[|ts| - 1].seqNo, ts, memo, wantsSpans, feed, now);
    }

    method SortIndexed(frame: Bytes, h: Header, last: nat, ts: seq<Triple>, memo: Option<nat>, wantsSpans: bool, feed: nat, now: nat)
      requires Ring(w) && |frame| >= HEADER_LEN && IsData(h) && (state == Init ==> staged == map[])
      requires |ts| == h.count && ExactWalk(frame, h.seqNo, ts) && GoodMemo(frame, ts, memo)
      requires last == h.seqNo + h.count - 1 < U64
      modifies this`w, this`stagedCount, this`staged, this`maxStaged, this`log, this`counters, this`progressVt
      modifies this`gapActive, this`gen, this`state, this`evidenceHwm, this`pendingTo, lens, arena
      ensures Ring(w) && View() == Arbiter.DataFrame(old(View()), frame, h, feed, now)
    {
      hide View, Ring, IngestWalk, CountDup, Violate, ApplyContiguous, ApplyAhead, Arbiter.Anchor, GoodMemo, ExactWalk;
      Fields();
      if state == Ended {
        CountAfterEos();
      } else if state != Init && last < w {
        CountDuplicate(feed, h.count);
      } else {
        ApplyIndexed(frame, h, ts, memo, wantsSpans, now);
      }
    }

    /** A matching live template proves that dispatching the frame's session changes nothing. */
    lemma TemplateMatch(next: Bytes)
      requires Template() && sessionLive && |next| == 10
      requires Le(next[..8]) == sessionLo && Le(next[2..]) == sessionHi
      ensures Arbiter.SessionDispatch(View(), next) == View()
    {
      WordsIdentifySession(session, next);
    }

    /** Session dispatch behind the two-word compare. */
    method DispatchByTemplate(frame: Bytes)
      requires Ring(w) && Template() && |frame| >= HEADER_LEN && (state == Init ==> staged == map[])
      modifies this, lens
      ensures Ring(w) && Template() && (state == Init ==> staged == map[])
      ensures View() == Arbiter.SessionDispatch(old(View()), frame[..10])
    {
      hide View, Ring, Template, Arbiter.SessionDispatch, Le;
      var frameLo, frameHi := Le(frame[..8]), Le(frame[2..10]);
      assert frame[..10][..8] == frame[..8] && frame[..10][2..] == frame[2..10];
      if sessionLive && frameLo == sessionLo && frameHi == sessionHi {
        TemplateMatch(frame[..10]);
      } else {
        Dispatch(frame[..10]);
      }
    }

    /** The indexed ingest of a frame whose index is exact. */
    method IngestIndexed(frame: Bytes, feed: nat, now: nat, ts: seq<Triple>, memo: Option<nat>, wantsSpans: bool)
      requires Valid() && ts != [] && GoodIndex(frame, ts, memo)
      modifies this, lens, arena
      ensures Valid() && View() == Arbiter.Ingest(old(View()), frame, feed, now)
    {
      InvIngest(View(), frame, feed, now);
      hide View, Ring, Template, Inv, Arbiter.Ingest, GoodIndex;
      ProcessIndexed(frame, feed, now, ts, memo, wantsSpans);
    }

    method ProcessIndexed(frame: Bytes, feed: nat, now: nat, ts: seq<Triple>, memo: Option<nat>, wantsSpans: bool)
      requires Ring(w) && Template() && (state == Init ==> staged == map[]) && ts != [] && GoodIndex(frame, ts, memo)
      modifies this, lens, arena
      ensures Ring(w) && Template() && View() == Arbiter.Ingest(old(View()), frame, feed, now)
    {
      hide View, Ring, Template, CountPacket, Violate, Live, GoodIndex;
      CountFrame(feed, |frame|);
      if |frame| < HEADER_LEN {
        CountViolation(Framing(Truncated(HEADER_LEN, |frame|)));
        return;
      }
      Fields();
      if state == Dead {
        CountIgnored();
      } else {
        LiveIndexed(frame, ts, memo, wantsSpans, feed, now);
      }
    }

    method LiveIndexed(frame: Bytes, ts: seq<Triple>, memo: Option<nat>, wantsSpans: bool, feed: nat, now: nat)
      requires Ring(w) && Template() && (state == Init ==> staged == map[]) && |frame| >= HEADER_LEN
      requires ts != [] && GoodIndex(frame, ts, memo)
      modifies this, lens, arena
      ensures Ring(w) && Template() && View() == Live(old(View()), frame, feed, now)
    {
      hide View, Ring, Template, Arbiter.SessionDispatch, Arbiter.DataFrame, Arbiter.Heartbeat, Arbiter.Eos, GoodIndex;
      DispatchByTemplate(frame);
      ClassifyIndexed(frame, ts, memo, wantsSpans, feed, now);
    }

    method ClassifyIndexed(frame: Bytes, ts: seq<Triple>, memo: Option<nat>, wantsSpans: bool, feed: nat, now: nat)
      requires Ring(w) && Template() && (state == Init ==> staged == map[]) && |frame| >= HEADER_LEN
      requires ts != [] && GoodIndex(frame, ts, memo)
      modifies this, lens, arena
      ensures Ring(w) && Template()
      ensures var h := HeaderOf(frame);
        View() == if h.count == HEARTBEAT_COUNT then Arbiter.Heartbeat(old(View()), h.seqNo, now)
                  else if h.count == EOS_COUNT then Arbiter.Eos(old(View()), h.seqNo)
                  else Arbiter.DataFrame(old(View()), frame, h, feed, now)
    {
      hide View, Ring, Template, Arbiter.DataFrame, Arbiter.Heartbeat, Arbiter.Eos, ExactWalk, GoodMemo;
      var h := HeaderOf(frame);
      if h.count == HEARTBEAT_COUNT {
        Heartbeat(h.seqNo, now);
      } else if h.count == EOS_COUNT {
        Eos(h.seqNo);
      } else {
        DataIndexed(frame, h, ts, memo, wantsSpans, feed, now);
      }
    }

    /** The router: frames without an index take the normative path. */
    method IngestAuto(frame: Bytes, feed: nat, now: nat, ts: seq<Triple>, memo: Option<nat>, wantsSpans: bool)
      requires Valid() && GoodIndex(frame, ts, memo)
      modifies this, lens, arena
      ensures Valid() && View() == Arbiter.Ingest(old(View()), frame, feed, now)
    {
      if ts == [] {
        Ingest(frame, feed, now);
      } else {
        IngestIndexed(frame, feed, now, ts, memo, wantsSpans);
      }
    }

    // ---- batches -------------------------------------------------------------------------------------

    /** Whether the tail of the per-frame ladder is inert. */
    method CheckSteady() returns (ready: bool)
      requires Ring(w) && Template()
      ensures ready <==> SteadyReady(View())
      ensures SessionWords(View(), sessionLo, sessionHi)
    {
      EmptyMap(lens[..], arena[..], stagedCount, staged, w);
      hide Represents, Expand, Le;
      ready := sessionLive && state == Contig && stagedCount == 0 && !gapActive && pendingTo == None;
    }

    /** Take over what a scan did. */
    method CommitScan(w': nat, t: Tally, log': seq<Out>, progressed: bool, now: nat)
      requires Ring(w) && staged == map[]
      modifies this`w, this`counters, this`log, this`progressVt
      ensures Ring(w) && View() == Scanned(old(View()), w', t, log', progressed, now)
    {
      hide Represents, Expand, Commit;
      Sliding(lens[..], arena[..], stagedCount, staged, w, w');
      w, counters, log := w', Commit(counters, t), log';
      if progressed { progressVt := now; }
    }

    /** The steady scan from pos on, with or without a ladder kernel. */
    method Scan(es: seq<Entry>, pos: nat, now: nat, wantsSpans: bool, ladder: Option<Kernel>, grouped: bool, ghost baked: Bytes)
      returns (pos': nat)
      requires Ring(w) && Template() && SteadyReady(View()) && SessionWords(View(), sessionLo, sessionHi)
      requires AllWellFormed(es, baked) && pos <= |es| && (ladder.Some? ==> Sound(ladder.value))
      modifies this`w, this`counters, this`log, this`progressVt
      ensures Ring(w) && Template() && pos <= pos' <= |es|
      ensures View() == FoldIngest(old(View()), es[pos..pos'], now)
    {
      SteadyFields();
      hide View, Ring, Template, SteadyReady, SessionWords, Scanned, FoldIngest, AllWellFormed, Sound, Expand;
      var w', t, log', progressed;
      if grouped {
        pos', w', t, log', progressed := Batch.SteadyScanLadder(es, pos, w, log, gen, wantsSpans, sessionLo, sessionHi, ladder, View(), now, baked);
      } else {
        pos', w', t, log', progressed := Batch.SteadyScan(es, pos, w, log, gen, wantsSpans, sessionLo, sessionHi, View(), now, baked);
      }
      CommitScan(w', t, log', progressed, now);
    }

    lemma SteadyFields()
      requires SteadyReady(View())
      ensures View().gen == gen && View().w == w && View().log == Expand(log) && staged == map[]
    {
    }

    /** A frame handed back by the scan takes the per-frame path. */
    method ColdApply(es: seq<Entry>, pos: nat, now: nat, wantsSpans: bool, ghost baked: Bytes)
      requires Valid() && AllWellFormed(es, baked) && pos < |es|
      modifies this, lens, arena
      ensures Valid() && View() == Arbiter.Ingest(old(View()), es[pos].bytes, es[pos].feed, now)
    {
      EntryIndex(es, pos, baked);
      hide View, Valid, Arbiter.Ingest, AllWellFormed, GoodIndex;
      var e := es[pos];
      IngestAuto(e.bytes, e.feed, now, e.ts, e.memo, wantsSpans);
    }

    /** Ingest a batch by steady scans with per-frame handling of whatever is not steady. */
    method IngestBatch(es: seq<Entry>, now: nat, wantsSpans: bool, ladder: Option<Kernel>, grouped: bool, ghost baked: Bytes)
      requires Valid() && AllWellFormed(es, baked) && (ladder.Some? ==> Sound(ladder.value))
      modifies this, lens, arena
      ensures Valid() && View() == FoldIngest(old(View()), es, now)
    {
      hide View, Valid, Arbiter.Ingest, AllWellFormed, FoldIngest, Sound;
      ghost var v := View();
      FoldNone(v, es, now);
      var pos: nat := 0;
      while true
        invariant pos <= |es| && Valid() && View() == FoldIngest(v, es[0..pos], now)
        decreases |es| - pos
      {
        var scanned := Batched(es, pos, now, wantsSpans, ladder, grouped, baked);
        FoldJoin(v, es, 0, pos, scanned, now);
        pos := scanned;
        if pos == |es| { break; }
        FoldSnoc(v, es, 0, pos, now);
        ColdApply(es, pos, now, wantsSpans, baked);
        pos := pos + 1;
      }
      assert es[0..|es|] == es;
    }

    /** The steady part of a round: a scan if the sequencer is steady, nothing otherwise. */
    method Batched(es: seq<Entry>, pos: nat, now: nat, wantsSpans: bool, ladder: Option<Kernel>, grouped: bool, ghost baked: Bytes)
      returns (pos': nat)
      requires Valid() && AllWellFormed(es, baked) && pos <= |es| && (ladder.Some? ==> Sound(ladder.value))
      modifies this`w, this`counters, this`log, this`progressVt
      ensures Valid() && pos <= pos' <= |es| && View() == FoldIngest(old(View()), es[pos..pos'], now)
    {
      hide View, Ring, Template, Inv, Arbiter.Ingest, AllWellFormed, Sound, SteadyReady, SessionWords, FoldIngest;
      FoldNone(View(), es[pos..], now);
      assert es[pos..][0..0] == es[pos..pos];
      InvFoldAll(View(), now);
      var ready := CheckSteady();
      pos' := pos;
      if ready {
        pos' := Scan(es, pos, now, wantsSpans, ladder, grouped, baked);
      }
    }

    /** The batch entry points: the plain one, and the one with group steps. */
    method IngestEntries(es: seq<Entry>, now: nat, wantsSpans: bool, ghost baked: Bytes)
      requires Valid() && AllWellFormed(es, baked)
      modifies this, lens, arena
      ensures Valid() && View() == FoldIngest(old(View()), es, now)
    {
      hide View, Valid, AllWellFormed, FoldIngest;
      IngestBatch(es, now, wantsSpans, None, false, baked);
    }

    method IngestEntriesLadder(es: seq<Entry>, now: nat, wantsSpans: bool, ladder: Option<Kernel>, ghost baked: Bytes)
      requires Valid() && AllWellFormed(es, baked) && (ladder.Some? ==> Sound(ladder.value))
      modifies this, lens, arena
      ensures Valid() && View() == FoldIngest(old(View()), es, now)
    {
      hide View, Valid, AllWellFormed, FoldIngest, Sound;
      IngestBatch(es, now, wantsSpans, ladder, true, baked);
    }

    // ---- runs --------------------------------------------------------------------------------------------

    method Do(op: Op) returns (intent: Option<Intent>)
      requires Valid()
      modifies this, lens, arena
      ensures Valid() && View() == Step(old(View()), op) && intent == Answer(old(View()), op)
    {
      hide View, Ring, Template, Inv, Arbiter.Ingest, RecoveryIntent, Arbiter.Seal;
      intent := None;
      match op
      case Frame(bytes, feed, now) => Ingest(bytes, feed, now);
      case Ask(now) => intent := Ask(now);
      case Stop(reason) => Seal(reason);
    }

    /** A whole run of frames, intent calls and stops. */
    method Replay(ops: seq<Op>) returns (intents: seq<Option<Intent>>)
      requires Valid()
      modifies this, lens, arena
      ensures Valid() && View() == Run(old(View()), ops) && intents == Answers(old(View()), ops)
    {
      hide View, Valid, Step;
      intents := [];
      for i := 0 to |ops|
        invariant Valid() && View() == Run(old(View()), ops[..i]) && intents == Answers(old(View()), ops[..i])
      {
        RunSnoc(old(View()), ops, i);
        var intent := Do(ops[i]);
        intents := intents + [intent];
      }
      assert ops[..|ops|] == ops;
    }
  }

  /** What one operation answers to its caller. */
  function Answer(a: Arb, op: Op): Option<Intent> {
    if op.Ask? then RecoveryIntent(a, op.at).1 else None
  }

  function Answers(a: Arb, ops: seq<Op>): seq<Option<Intent>> {
    if ops == [] then [] else
      var n := |ops| - 1;
      Answers(a, ops[..n]) + [Answer(Run(a, ops[..n]), ops[n])]
  }

  lemma RunSnoc(a: Arb, ops: seq<Op>, i: nat)
    requires i < |ops|
    ensures Run(a, ops[..i + 1]) == Step(Run(a, ops[..i]), ops[i])
    ensures Answers(a, ops[..i + 1]) == Answers(a, ops[..i]) + [Answer(Run(a, ops[..i]), ops[i])]
  {
    assert ops[..i + 1][..i] == ops[..i];
  }

  /** The pass boundary is transparent: a used sequencer, re-anchored with its arena as it was, and
      a new one in front of the same sink give the same trace, state, counters and intents on
      every continuation. */
  method ReanchorUnobservable(used: Sequencer, ops: seq<Op>)
    returns (other: Sequencer, intents: seq<Option<Intent>>, intents': seq<Option<Intent>>)
    requires used.Valid()
    modifies used, used.lens, used.arena
    ensures fresh(other) && used.View() == other.View() && intents == intents'
  {
    other := new Sequencer(used.log);
    used.Reanchor();
    hide Sequencer.View, Sequencer.Valid, Run, Answers;
    intents := used.Replay(ops);
    intents' := other.Replay(ops);
  }
}
