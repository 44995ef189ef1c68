// MoldUDP64 downstream packets: the 20-byte header and the length-prefixed block walk.
module Mold {
  import opened Bytes
  import opened Itch

  const HEADER_LEN: nat := 20
  const HEARTBEAT_COUNT: nat := 0
  const EOS_COUNT: nat := 0xFFFF

  datatype Option<T> = None | Some(value: T)

  datatype Header = Header(session: Bytes, seqNo: nat, count: nat)

  datatype FrameError =
    | Truncated(need: nat, got: nat)
    | TrailingBytes(extra: nat)
    | BlockOverrun
    | ZeroLengthMessage
    | SeqOverflow

  datatype PacketError = Framing(f: FrameError) | Payload(p: ItchError)

  function Be64(b: Bytes): (n: nat)
    requires |b| == 8
    ensures n < U64
  {
    0x1_0000_0000_0000 * Be16(b[0], b[1]) + 0x1_0000_0000 * Be16(b[2], b[3])
      + 0x1_0000 * Be16(b[4], b[5]) + Be16(b[6], b[7])
  }

  /** The header of a frame long enough to have one. */
  function HeaderOf(frame: Bytes): (h: Header)
    requires |frame| >= HEADER_LEN
    ensures |h.session| == 10 && h.seqNo < U64 && h.count < 0x1_0000
  {
    Header(frame[..10], Be64(frame[10..18]), Be16(frame[18], frame[19]))
  }

  predicate IsData(h: Header) {
    h.count != HEARTBEAT_COUNT && h.count != EOS_COUNT
  }

  // ---- the block walk -------------------------------------------------------------------

  /** A block's payload occupies frame[start..end]. */
  datatype Block = Block(start: nat, end: nat)

  /** The complete blocks found, and the framing error that stopped the walk, if any. */
  datatype Walk = Walk(blocks: seq<Block>, err: Option<FrameError>)

  function WalkFrom(frame: Bytes, pos: nat, count: nat): (r: Walk)
    requires pos <= |frame|
    ensures |r.blocks| <= count && (r.err == None ==> |r.blocks| == count)
    ensures forall i :: 0 <= i < |r.blocks| ==> pos < r.blocks[i].start <= r.blocks[i].end <= |frame|
    decreases count
  {
    if count == 0 then
      Walk([], if pos == |frame| then None else Some(TrailingBytes(|frame| - pos)))
    else if |frame| < pos + 2 then Walk([], Some(BlockOverrun))
    else
      var end := pos + 2 + Be16(frame[pos], frame[pos + 1]);
      if end > |frame| then Walk([], Some(BlockOverrun))
      else
        var rest := WalkFrom(frame, end, count - 1);
        Walk([Block(pos + 2, end)] + rest.blocks, rest.err)
  }

  function FrameWalk(frame: Bytes, count: nat): (r: Walk)
    requires |frame| >= HEADER_LEN
    ensures |r.blocks| <= count && (r.err == None ==> |r.blocks| == count)
    ensures forall i :: 0 <= i < |r.blocks| ==> HEADER_LEN < r.blocks[i].start <= r.blocks[i].end <= |frame|
  {
    WalkFrom(frame, HEADER_LEN, count)
  }

  // ---- delivery ---------------------------------------------------------------------------

  /** A numbered message. */
  datatype Msg = Msg(seqNo: nat, data: Bytes)

  /** What a walk hands to its callback: the valid messages up to the first error, and the error. */
  datatype Delivery = Delivery(msgs: seq<Msg>, err: Option<PacketError>)

  predicate WithinFrame(frame: Bytes, blocks: seq<Block>) {
    forall i :: 0 <= i < |blocks| ==> blocks[i].start <= blocks[i].end <= |frame|
  }

  /** Blocks from i on, each validated before it is handed over. */
  function Deliver(frame: Bytes, first: nat, blocks: seq<Block>, i: nat, tail: Option<FrameError>): (d: Delivery)
    requires WithinFrame(frame, blocks)
    decreases |blocks| - i
  {
    if i >= |blocks| then Delivery([], if tail.Some? then Some(Framing(tail.value)) else None)
    else
      var data := frame[blocks[i].start..blocks[i].end];
      match Validate(data)
      case Invalid(e) => Delivery([], Some(Payload(e)))
      case Valid =>
        var rest := Deliver(frame, first, blocks, i + 1, tail);
        Delivery([Msg(first + i, data)] + rest.msgs, rest.err)
  }

  /** ingest_walk as a function: skip the first blocks, deliver the rest in order. */
  function IngestWalk(frame: Bytes, first: nat, count: nat, skip: nat): Delivery
    requires |frame| >= HEADER_LEN
  {
    var w := FrameWalk(frame, count);
    Deliver(frame, first, w.blocks, skip, w.err)
  }

  /** Delivered messages are consecutive from the first unskipped block, each a valid payload;
      without an error every block was delivered. */
  lemma {:induction false} Delivered(frame: Bytes, first: nat, blocks: seq<Block>, i: nat, tail: Option<FrameError>)
    requires WithinFrame(frame, blocks)
    ensures var d := Deliver(frame, first, blocks, i, tail);
      && (forall k :: 0 <= k < |d.msgs| ==>
            && i + k < |blocks|
            && d.msgs[k].seqNo == first + i + k
            && d.msgs[k].data == frame[blocks[i + k].start..blocks[i + k].end]
            && Validate(d.msgs[k].data) == Valid)
      && (d.err == None ==> tail == None && |d.msgs| == if i < |blocks| then |blocks| - i else 0)
    decreases |blocks| - i
  {
    hide Validate;
    if i < |blocks| && Validate(frame[blocks[i].start..blocks[i].end]) == Valid {
      Delivered(frame, first, blocks, i + 1, tail);
    }
  }

  /** A walk without an error has none after a skipped prefix either. */
  lemma {:induction false} NoErrorLater(frame: Bytes, first: nat, blocks: seq<Block>, i: nat, tail: Option<FrameError>)
    requires WithinFrame(frame, blocks) && i <= |blocks|
    requires Deliver(frame, first, blocks, 0, tail).err == None
    ensures Deliver(frame, first, blocks, i, tail).err == None
    decreases i
  {
    hide Validate;
    if i > 0 { NoErrorLater(frame, first, blocks, i - 1, tail); }
  }
}
