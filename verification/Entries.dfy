// Frames with a precomputed index: block triples, the validity memo, and what a well-formed
// index promises.
module Entries {
  import opened Bytes
  import opened Itch
  import opened Mold
  import opened Arbiter
  import opened Spans

  /** A block of a frame with the sequence number of its message. */
  datatype Triple = Triple(seqNo: nat, at: Block)

  function Blocks(ts: seq<Triple>): (bs: seq<Block>)
    ensures |bs| == |ts|
  {
    seq(|ts|, i requires 0 <= i < |ts| => ts[i].at)
  }

  /** The triples are exactly the walk of the frame, numbered from first in 64 bits. */
  ghost predicate ExactWalk(frame: Bytes, first: nat, ts: seq<Triple>) {
    && |frame| >= HEADER_LEN
    && FrameWalk(frame, |ts|) == Walk(Blocks(ts), None)
    && (forall i :: 0 <= i < |ts| ==> ts[i].seqNo == first + i)
    && first + |ts| <= U64
  }

  /** The memo, if there is one, is the exact leading valid prefix. */
  ghost predicate GoodMemo(frame: Bytes, ts: seq<Triple>, memo: Option<nat>) {
    memo.Some? ==> ExactMemo(frame, Blocks(ts), memo.value)
  }

  /** A frame's index: none at all, or exact for a data frame. */
  ghost predicate GoodIndex(frame: Bytes, ts: seq<Triple>, memo: Option<nat>) {
    && GoodMemo(frame, ts, memo)
    && (ts != [] && |frame| >= HEADER_LEN && IsData(HeaderOf(frame)) ==>
          |ts| == HeaderOf(frame).count && ExactWalk(frame, HeaderOf(frame).seqNo, ts))
  }

  lemma ExactWalkFits(frame: Bytes, first: nat, ts: seq<Triple>)
    requires ExactWalk(frame, first, ts)
    ensures WithinFrame(frame, Blocks(ts)) && Ordered(Blocks(ts))
    ensures ts != [] ==> ts[0].at.start == HEADER_LEN + 2 && ts[|ts| - 1].at.end == |frame|
    ensures forall i :: 0 <= i < |ts| ==> ts[i].at.start <= ts[i].at.end <= |frame|
    ensures forall skip: nat :: IngestWalk(frame, first, |ts|, skip) == Deliver(frame, first, Blocks(ts), skip, None)
  {
    WalkOrdered(frame, HEADER_LEN, |ts|);
    var w := FrameWalk(frame, |ts|);
    assert forall i :: 0 <= i < |ts| ==> Blocks(ts)[i] == ts[i].at;
  }

  lemma ExactSeqs(frame: Bytes, first: nat, ts: seq<Triple>)
    requires ExactWalk(frame, first, ts) && ts != []
    ensures ts[0].seqNo == first && ts[|ts| - 1].seqNo == first + |ts| - 1 < U64
  {
  }

  /** A memo that covers every block proves every block valid, and one that does not, does not. */
  lemma MemoDecides(frame: Bytes, first: nat, ts: seq<Triple>, memo: nat)
    requires ExactWalk(frame, first, ts) && ExactMemo(frame, Blocks(ts), memo)
    ensures memo == |ts| <==> forall i :: 0 <= i < |ts| ==> BlockValid(frame, Blocks(ts)[i])
  {
  }

  /** With the memo covering every block, the walk delivers every unskipped message. */
  lemma FullMemoDelivers(frame: Bytes, first: nat, ts: seq<Triple>, memo: nat, skip: nat)
    requires ExactWalk(frame, first, ts) && ExactMemo(frame, Blocks(ts), memo) && memo == |ts| && skip <= |ts|
    ensures WithinFrame(frame, Blocks(ts))
    ensures IngestWalk(frame, first, |ts|, skip) == Delivery(BlockMsgs(frame, first, Blocks(ts), skip), None)
  {
    ExactWalkFits(frame, first, ts);
    DeliverValid(frame, first, Blocks(ts), skip);
  }

  /** The one span of an exact index from skip on stands for the messages of its triples. */
  lemma TripleSpan(frame: Bytes, first: nat, ts: seq<Triple>, skip: nat)
    requires ExactWalk(frame, first, ts) && WithinFrame(frame, Blocks(ts)) && skip < |ts|
    ensures ts[skip].at.start <= ts[|ts| - 1].at.end <= |frame|
    ensures SpanMsgs(ts[skip].seqNo, frame[ts[skip].at.start..ts[|ts| - 1].at.end], Blocks(ts)[skip..])
      == BlockMsgs(frame, first, Blocks(ts), skip)
    ensures WellCut(|ts| - skip, frame[ts[skip].at.start..ts[|ts| - 1].at.end], Blocks(ts)[skip..])
  {
    ExactWalkFits(frame, first, ts);
    SpanStandsFor(frame, first, Blocks(ts), skip);
    hide SpanMsgs, BlockMsgs, Ordered, IngestWalk, Deliver, FrameWalk;
  }

  /** One triple of the indexed walk: refused or taken, or the walk is over. */
  lemma TripleStep(frame: Bytes, first: nat, ts: seq<Triple>, i: nat, d: Delivery, done: seq<Msg>)
    requires ExactWalk(frame, first, ts) && WithinFrame(frame, Blocks(ts)) && i <= |ts|
    requires Split(d, done, Deliver(frame, first, Blocks(ts), i, None))
    ensures i == |ts| ==> d == Delivery(done, None)
    ensures i < |ts| ==> ts[i].at.start <= ts[i].at.end <= |frame|
    ensures i < |ts| ==>
      var data := frame[ts[i].at.start..ts[i].at.end];
      if Validate(data) == Valid then
        Split(d, done + [Msg(ts[i].seqNo, data)], Deliver(frame, first, Blocks(ts), i + 1, None))
      else d == Delivery(done, Some(Payload(Validate(data).error)))
  {
    hide Validate, Split;
    var bs := Blocks(ts);
    var rest := Deliver(frame, first, bs, i, None);
    SplitStop(d, done, rest);
    if i < |ts| {
      assert bs[i] == ts[i].at;
      var data := frame[bs[i].start..bs[i].end];
      if Validate(data) == Valid {
        DeliverStep(frame, first, bs, i);
        SplitTake(d, done, Msg(first + i, data), Deliver(frame, first, bs, i + 1, None));
      }
    }
  }

  lemma MemoValid(frame: Bytes, ts: seq<Triple>, i: nat)
    requires ExactMemo(frame, Blocks(ts), |ts|) && i < |ts|
    ensures ts[i].at.start <= ts[i].at.end <= |frame| && Validate(frame[ts[i].at.start..ts[i].at.end]) == Valid
  {
    assert BlockValid(frame, Blocks(ts)[i]);
  }

  // ---- the session compare words -------------------------------------------------------------

  lemma {:induction false} LeInjective(a: Bytes, b: Bytes)
    requires |a| == |b| && Le(a) == Le(b)
    ensures a == b
    decreases |a|
  {
    if a != [] {
      LeInjective(a[1..], b[1..]);
      assert a == [a[0]] + a[1..] && b == [b[0]] + b[1..];
    }
  }

  /** The two overlapping little-endian words determine a session. */
  lemma WordsIdentifySession(a: Bytes, b: Bytes)
    requires |a| == 10 && |b| == 10
    ensures a == b <==> Le(a[..8]) == Le(b[..8]) && Le(a[2..]) == Le(b[2..])
  {
    if Le(a[..8]) == Le(b[..8]) && Le(a[2..]) == Le(b[2..]) {
      LeInjective(a[..8], b[..8]);
      LeInjective(a[2..], b[2..]);
      assert a == a[..8] + a[2..][6..] && b == b[..8] + b[2..][6..];
    }
  }
}
