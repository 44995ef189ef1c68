// Span emission: what one on_span call stands for, and what a trace of spans expands to.
module Spans {
  import opened Bytes
  import opened Itch
  import opened Mold
  import opened Arbiter

  /** body[lo..hi], or nothing when the bounds do not fit. */
  function Cut(body: Bytes, lo: int, hi: int): Bytes {
    if 0 <= lo <= hi <= |body| then body[lo..hi] else []
  }

  /** The messages of one span: message i is cut out of the body at its block's distance from
      the first block. */
  function SpanMsgs(first: nat, body: Bytes, cuts: seq<Block>): (ms: seq<Msg>)
    ensures |ms| == |cuts|
  {
    seq(|cuts|, i requires 0 <= i < |cuts| =>
      Msg(first + i, Cut(body, cuts[i].start - cuts[0].start, cuts[i].end - cuts[0].start)))
  }

  /** What a span call owes its receiver: as many messages as it counts, and a body that ends with the
      last of them. */
  predicate WellCut(count: nat, body: Bytes, cuts: seq<Block>) {
    count == |cuts| > 0 && |body| == cuts[count - 1].end - cuts[0].start
  }

  /** A span call that keeps this stands for its messages; any other stands for itself, which no
      per-message trace contains. */
  function ExpandOne(o: Out): seq<Out> {
    match o
    case Span(era, first, count, body, cuts) => if WellCut(count, body, cuts) then Outs(era, SpanMsgs(first, body, cuts)) else [o]
    case _ => [o]
  }

  /** The per-message trace a trace of spans stands for. */
  function Expand(log: seq<Out>): seq<Out> {
    if log == [] then [] else Expand(log[..|log| - 1]) + ExpandOne(log[|log| - 1])
  }

  /** No span calls. */
  ghost predicate Plain(log: seq<Out>) {
    forall i :: 0 <= i < |log| ==> !log[i].Span?
  }

  lemma ExpandSnoc(log: seq<Out>, o: Out)
    ensures Expand(log + [o]) == Expand(log) + ExpandOne(o)
  {
    assert (log + [o])[..|log|] == log;
  }

  lemma Assoc<T>(a: seq<T>, b: seq<T>, c: seq<T>)
    ensures (a + b) + c == a + (b + c)
  {
  }

  lemma {:induction false} ExpandConcat(a: seq<Out>, b: seq<Out>)
    ensures Expand(a + b) == Expand(a) + Expand(b)
    decreases |b|
  {
    if b == [] {
      assert a + b == a;
    } else {
      var n := |b| - 1;
      var p, o := b[..n], b[n];
      hide *;
      assert b == p + [o];
      Assoc(a, p, [o]);
      ExpandConcat(a, p);
      ExpandSnoc(a + p, o);
      ExpandSnoc(p, o);
      Assoc(Expand(a), Expand(p), ExpandOne(o));
    }
  }

  /** A trace without spans is its own expansion. */
  lemma {:induction false} ExpandPlain(b: seq<Out>)
    requires forall i :: 0 <= i < |b| ==> !b[i].Span?
    ensures Expand(b) == b
    decreases |b|
  {
    if b != [] {
      var n := |b| - 1;
      ExpandPlain(b[..n]);
      assert ExpandOne(b[n]) == [b[n]];
      hide ExpandOne;
      assert b == b[..n] + [b[n]];
    }
  }

  lemma ExpandOuts(log: seq<Out>, gen: nat, ms: seq<Msg>)
    ensures Expand(log + Outs(gen, ms)) == Expand(log) + Outs(gen, ms)
  {
    ExpandConcat(log, Outs(gen, ms));
    ExpandPlain(Outs(gen, ms));
  }

  lemma OutsSnoc(gen: nat, ms: seq<Msg>, m: Msg)
    ensures Outs(gen, ms + [m]) == Outs(gen, ms) + [Emit(gen, m.seqNo, m.data)]
  {
  }

  lemma OutsConcat(gen: nat, a: seq<Msg>, b: seq<Msg>)
    ensures Outs(gen, a + b) == Outs(gen, a) + Outs(gen, b)
  {
  }

  /** a with the messages appended to its trace. */
  ghost function Emitted(a: Arb, ms: seq<Msg>): Arb {
    a.(log := a.log + Outs(a.gen, ms))
  }

  lemma EmittedNone(a: Arb)
    ensures Emitted(a, []) == a
  {
  }

  // ---- spans of a frame ---------------------------------------------------------------------

  /** The messages of a frame's blocks from skip on. */
  function BlockMsgs(frame: Bytes, first: nat, blocks: seq<Block>, skip: nat): (ms: seq<Msg>)
    requires WithinFrame(frame, blocks) && skip <= |blocks|
    ensures |ms| == |blocks| - skip
  {
    seq(|blocks| - skip, i requires 0 <= i < |blocks| - skip =>
      Msg(first + skip + i, frame[blocks[skip + i].start..blocks[skip + i].end]))
  }

  ghost predicate Ordered(blocks: seq<Block>) {
    && (forall i :: 0 <= i < |blocks| ==> blocks[i].start <= blocks[i].end)
    && (forall i, j :: 0 <= i < j < |blocks| ==> blocks[i].end < blocks[j].start)
  }

  lemma OrderedCons(b: Block, blocks: seq<Block>)
    requires Ordered(blocks) && b.start <= b.end
    requires forall i :: 0 <= i < |blocks| ==> b.end < blocks[i].start
    ensures Ordered([b] + blocks)
  {
    var s := [b] + blocks;
    assert forall i :: 0 < i < |s| ==> s[i] == blocks[i - 1];
  }

  /** Walked blocks are ordered; without an error the first one starts right behind the header's
      length prefix and the last one ends the frame. */
  lemma {:induction false} WalkOrdered(frame: Bytes, pos: nat, count: nat)
    requires pos <= |frame|
    ensures var r := WalkFrom(frame, pos, count);
      && Ordered(r.blocks)
      && (r.blocks != [] ==> r.blocks[0].start == pos + 2)
      && (r.err == None && count > 0 ==> r.blocks != [] && r.blocks[|r.blocks| - 1].end == |frame|)
    decreases count
  {
    if count > 0 && |frame| >= pos + 2 {
      var end := pos + 2 + Be16(frame[pos], frame[pos + 1]);
      if end <= |frame| {
        WalkOrdered(frame, end, count - 1);
        WalkStep(frame, pos, count, end);
        var rest := WalkFrom(frame, end, count - 1).blocks;
        OrderedCons(Block(pos + 2, end), rest);
        hide WalkFrom, Ordered;
      }
    }
  }

  /** One span call over frame bytes from the first unskipped block to the last stands for
      exactly the messages of those blocks. */
  lemma SpanStandsFor(frame: Bytes, first: nat, blocks: seq<Block>, skip: nat)
    requires WithinFrame(frame, blocks) && Ordered(blocks) && skip < |blocks|
    ensures blocks[skip].start <= blocks[|blocks| - 1].end
    ensures SpanMsgs(first + skip, frame[blocks[skip].start..blocks[|blocks| - 1].end], blocks[skip..])
      == BlockMsgs(frame, first, blocks, skip)
    ensures WellCut(|blocks| - skip, frame[blocks[skip].start..blocks[|blocks| - 1].end], blocks[skip..])
  {
    var n := |blocks| - 1;
    var body := frame[blocks[skip].start..blocks[n].end];
    var cuts := blocks[skip..];
    forall i | 0 <= i < |cuts|
      ensures SpanMsgs(first + skip, body, cuts)[i] == BlockMsgs(frame, first, blocks, skip)[i]
    {
      var b := blocks[skip + i];
      assert cuts[i] == b && blocks[skip].start <= b.start && b.end <= blocks[n].end;
      Inner(frame, blocks[skip].start, blocks[n].end, b.start, b.end);
    }
  }

  lemma Inner(bs: Bytes, lo: nat, hi: nat, start: nat, end: nat)
    requires lo <= start <= end <= hi <= |bs|
    ensures bs[lo..hi][start - lo..end - lo] == bs[start..end]
  {
    var part := bs[lo..hi];
    assert forall k :: start <= k < end ==> part[k - lo] == bs[k];
  }

  // ---- the validity memo ------------------------------------------------------------------------

  predicate BlockValid(frame: Bytes, b: Block) {
    b.start <= b.end <= |frame| && Validate(frame[b.start..b.end]) == Valid
  }

  /** memo is the exact leading valid prefix of the blocks. */
  ghost predicate ExactMemo(frame: Bytes, blocks: seq<Block>, memo: nat) {
    && memo <= |blocks|
    && (forall i :: 0 <= i < memo ==> BlockValid(frame, blocks[i]))
    && (memo < |blocks| ==> !BlockValid(frame, blocks[memo]))
  }

  lemma BlockMsgsStep(frame: Bytes, first: nat, blocks: seq<Block>, i: nat)
    requires WithinFrame(frame, blocks) && i < |blocks|
    ensures BlockMsgs(frame, first, blocks, i)
      == [Msg(first + i, frame[blocks[i].start..blocks[i].end])] + BlockMsgs(frame, first, blocks, i + 1)
  {
  }

  lemma DeliverStep(frame: Bytes, first: nat, blocks: seq<Block>, i: nat)
    requires WithinFrame(frame, blocks) && i < |blocks| && Validate(frame[blocks[i].start..blocks[i].end]) == Valid
    ensures var rest := Deliver(frame, first, blocks, i + 1, None);
      Deliver(frame, first, blocks, i, None)
      == Delivery([Msg(first + i, frame[blocks[i].start..blocks[i].end])] + rest.msgs, rest.err)
  {
    hide Validate;
  }

  /** With every block valid, delivery hands over exactly the blocks' messages. */
  lemma {:induction false} DeliverValid(frame: Bytes, first: nat, blocks: seq<Block>, skip: nat)
    requires WithinFrame(frame, blocks) && skip <= |blocks|
    requires forall i :: 0 <= i < |blocks| ==> BlockValid(frame, blocks[i])
    ensures Deliver(frame, first, blocks, skip, None) == Delivery(BlockMsgs(frame, first, blocks, skip), None)
    decreases |blocks| - skip
  {
    if skip == |blocks| {
      assert BlockMsgs(frame, first, blocks, skip) == [];
    } else {
      assert BlockValid(frame, blocks[skip]);
      hide Validate, Deliver, BlockValid;
      DeliverStep(frame, first, blocks, skip);
      DeliverValid(frame, first, blocks, skip + 1);
      BlockMsgsStep(frame, first, blocks, skip);
    }
  }

  // ---- the fused walk -----------------------------------------------------------------------------

  /** One pass: framing is checked block by block, blocks past the skipped prefix are validated
      and handed over as they are found. */
  function FusedWalk(frame: Bytes, pos: nat, seqNo: nat, count: nat, toSkip: nat): Delivery
    requires pos <= |frame|
    decreases count
  {
    if count == 0 then
      Delivery([], if pos == |frame| then None else Some(Framing(TrailingBytes(|frame| - pos))))
    else if |frame| < pos + 2 then Delivery([], Some(Framing(BlockOverrun)))
    else
      var end := pos + 2 + Be16(frame[pos], frame[pos + 1]);
      if end > |frame| then Delivery([], Some(Framing(BlockOverrun)))
      else if toSkip > 0 then FusedWalk(frame, end, seqNo + 1, count - 1, toSkip - 1)
      else
        match Validate(frame[pos + 2..end])
        case Invalid(e) => Delivery([], Some(Payload(e)))
        case Valid =>
          var rest := FusedWalk(frame, end, seqNo + 1, count - 1, 0);
          Delivery([Msg(seqNo, frame[pos + 2..end])] + rest.msgs, rest.err)
  }

  lemma {:induction false} DeliverShift(frame: Bytes, first: nat, b: Block, blocks: seq<Block>, i: nat, tail: Option<FrameError>)
    requires WithinFrame(frame, [b] + blocks) && WithinFrame(frame, blocks)
    ensures Deliver(frame, first, [b] + blocks, i + 1, tail) == Deliver(frame, first + 1, blocks, i, tail)
    decreases |blocks| - i
  {
    hide Validate;
    if i < |blocks| {
      assert ([b] + blocks)[i + 1] == blocks[i];
      DeliverShift(frame, first, b, blocks, i + 1, tail);
    }
  }

  lemma FusedStep(frame: Bytes, pos: nat, first: nat, count: nat, skip: nat, end: nat)
    requires pos + 2 <= end <= |frame| && count > 0 && end == pos + 2 + Be16(frame[pos], frame[pos + 1])
    ensures var v := Validate(frame[pos + 2..end]);
      FusedWalk(frame, pos, first, count, skip)
      == if skip > 0 then FusedWalk(frame, end, first + 1, count - 1, skip - 1)
         else if v != Valid then Delivery([], Some(Payload(v.error)))
         else var rest := FusedWalk(frame, end, first + 1, count - 1, 0);
           Delivery([Msg(first, frame[pos + 2..end])] + rest.msgs, rest.err)
  {
    hide Validate, Be16;
  }

  /** Where the fused walk ends by itself. */
  lemma FusedStop(frame: Bytes, pos: nat, first: nat, count: nat, skip: nat)
    requires pos <= |frame|
    ensures var trailing := if pos == |frame| then None else Some(Framing(TrailingBytes(|frame| - pos)));
      (count == 0 ==> FusedWalk(frame, pos, first, count, skip) == Delivery([], trailing))
    ensures var short := |frame| < pos + 2 || |frame| < pos + 2 + Be16(frame[pos], frame[pos + 1]);
      (count > 0 && short ==> FusedWalk(frame, pos, first, count, skip) == Delivery([], Some(Framing(BlockOverrun))))
  {
  }

  lemma WalkStep(frame: Bytes, pos: nat, count: nat, end: nat)
    requires pos + 2 <= end <= |frame| && count > 0 && end == pos + 2 + Be16(frame[pos], frame[pos + 1])
    ensures var rest := WalkFrom(frame, end, count - 1);
      WalkFrom(frame, pos, count) == Walk([Block(pos + 2, end)] + rest.blocks, rest.err)
  {
    hide Be16;
  }

  lemma DeliverHead(frame: Bytes, first: nat, b: Block, blocks: seq<Block>, skip: nat, tail: Option<FrameError>)
    requires WithinFrame(frame, [b] + blocks)
    ensures b.start <= b.end <= |frame|
    ensures var v := Validate(frame[b.start..b.end]);
      Deliver(frame, first, [b] + blocks, skip, tail)
      == if skip > 0 then Deliver(frame, first, [b] + blocks, skip - 1 + 1, tail)
         else if v != Valid then Delivery([], Some(Payload(v.error)))
         else var rest := Deliver(frame, first, [b] + blocks, 1, tail);
           Delivery([Msg(first, frame[b.start..b.end])] + rest.msgs, rest.err)
  {
    hide Validate;
    assert ([b] + blocks)[0] == b;
  }

  /** The single fused pass delivers what framing the whole frame first would deliver. */
  lemma {:induction false} FusedIsTwoPhase(frame: Bytes, pos: nat, first: nat, count: nat, skip: nat)
    requires pos <= |frame|
    ensures var w := WalkFrom(frame, pos, count);
      FusedWalk(frame, pos, first, count, skip) == Deliver(frame, first, w.blocks, skip, w.err)
    decreases count
  {
    hide Validate;
    if count > 0 && |frame| >= pos + 2 {
      var end := pos + 2 + Be16(frame[pos], frame[pos + 1]);
      if end <= |frame| {
        var rest := WalkFrom(frame, end, count - 1);
        var b := Block(pos + 2, end);
        var next := if skip > 0 then skip - 1 else 0;
        FusedIsTwoPhase(frame, end, first + 1, count - 1, next);
        DeliverShift(frame, first, b, rest.blocks, next, rest.err);
        hide WalkFrom, FusedWalk;
        FusedStep(frame, pos, first, count, skip, end);
        WalkStep(frame, pos, count, end);
        DeliverHead(frame, first, b, rest.blocks, skip, rest.err);
        hide Deliver;
      }
    }
  }

  /** d is what was delivered so far followed by what is still to come. */
  ghost predicate Split(d: Delivery, done: seq<Msg>, rest: Delivery) {
    d == Delivery(done + rest.msgs, rest.err)
  }

  lemma SplitStart(d: Delivery)
    ensures Split(d, [], d)
  {
  }

  lemma SplitTake(d: Delivery, done: seq<Msg>, m: Msg, rest: Delivery)
    requires Split(d, done, Delivery([m] + rest.msgs, rest.err))
    ensures Split(d, done + [m], rest)
  {
    Assoc(done, [m], rest.msgs);
  }

  lemma SplitStop(d: Delivery, done: seq<Msg>, rest: Delivery)
    requires Split(d, done, rest)
    ensures rest.msgs == [] ==> d == Delivery(done, rest.err)
  {
  }

  /** One block of the walk: skipped, refused, or taken. */
  lemma SplitNext(frame: Bytes, pos: nat, seqNo: nat, left: nat, toSkip: nat, end: nat, d: Delivery, done: seq<Msg>)
    requires pos + 2 <= end <= |frame| && left > 0 && end == pos + 2 + Be16(frame[pos], frame[pos + 1])
    requires Split(d, done, FusedWalk(frame, pos, seqNo, left, toSkip))
    ensures toSkip > 0 ==> Split(d, done, FusedWalk(frame, end, seqNo + 1, left - 1, toSkip - 1))
    ensures var data := frame[pos + 2..end];
      if toSkip > 0 then true
      else if Validate(data) == Valid then
        Split(d, done + [Msg(seqNo, data)], FusedWalk(frame, end, seqNo + 1, left - 1, 0))
      else d == Delivery(done, Some(Payload(Validate(data).error)))
  {
    hide FusedWalk, Validate, Split, Be16;
    FusedStep(frame, pos, seqNo, left, toSkip, end);
    if toSkip == 0 {
      var data := frame[pos + 2..end];
      if Validate(data) == Valid {
        SplitTake(d, done, Msg(seqNo, data), FusedWalk(frame, end, seqNo + 1, left - 1, 0));
      } else {
        SplitStop(d, done, FusedWalk(frame, pos, seqNo, left, toSkip));
      }
    }
  }

  lemma SplitEnds(frame: Bytes, pos: nat, seqNo: nat, left: nat, toSkip: nat, d: Delivery, done: seq<Msg>)
    requires pos <= |frame| && Split(d, done, FusedWalk(frame, pos, seqNo, left, toSkip))
    ensures left == 0 ==> d == Delivery(done, if pos == |frame| then None else Some(Framing(TrailingBytes(|frame| - pos))))
    ensures var short := |frame| < pos + 2 || |frame| < pos + 2 + Be16(frame[pos], frame[pos + 1]);
      (left > 0 && short ==> d == Delivery(done, Some(Framing(BlockOverrun))))
  {
    FusedStop(frame, pos, seqNo, left, toSkip);
    hide FusedWalk, Split;
    SplitStop(d, done, FusedWalk(frame, pos, seqNo, left, toSkip));
  }
}
