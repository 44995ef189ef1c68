// Whole-packet parsing: eager validation of the framing, and the block iterator it hands out.
module Parsing {
  import opened Bytes
  import opened Itch
  import opened Mold
  import opened Spans

  datatype Kind = Data | HeartbeatPacket | EndOfSession

  datatype Parsed = Good(kind: Kind, header: Header) | Bad(error: FrameError)

  /** What parse decides, in its order of precedence. */
  ghost function Judged(buf: Bytes): Parsed {
    if |buf| < HEADER_LEN then Bad(Truncated(HEADER_LEN, |buf|))
    else
      var h := HeaderOf(buf);
      if IsData(h) && h.seqNo + h.count - 1 >= U64 then Bad(SeqOverflow)
      else if !IsData(h) then
        if |buf| != HEADER_LEN then Bad(TrailingBytes(|buf| - HEADER_LEN))
        else Good(if h.count == HEARTBEAT_COUNT then HeartbeatPacket else EndOfSession, h)
      else
        var w := FrameWalk(buf, h.count);
        if w.err.Some? then Bad(w.err.value) else Good(Data, h)
  }

  method Parse(buf: Bytes) returns (p: Parsed)
    ensures p == Judged(buf)
  {
    if |buf| < HEADER_LEN { return Bad(Truncated(HEADER_LEN, |buf|)); }
    var h := HeaderOf(buf);
    if IsData(h) && h.seqNo + h.count - 1 >= U64 { return Bad(SeqOverflow); }
    if !IsData(h) {
      if |buf| != HEADER_LEN { return Bad(TrailingBytes(|buf| - HEADER_LEN)); }
      return Good(if h.count == HEARTBEAT_COUNT then HeartbeatPacket else EndOfSession, h);
    }
    var err := CheckBlocks(buf, h.count);
    p := if err.Some? then Bad(err.value) else Good(Data, h);
  }

  /** Consume the blocks of the body one by one. */
  method CheckBlocks(buf: Bytes, count: nat) returns (err: Option<FrameError>)
    requires |buf| >= HEADER_LEN
    ensures err == FrameWalk(buf, count).err
  {
    hide WalkFrom;
    var rest := buf[HEADER_LEN..];
    ghost var pos: nat := HEADER_LEN;
    var left := count;
    while left > 0
      invariant pos <= |buf| && rest == buf[pos..]
      invariant FrameWalk(buf, count).err == WalkFrom(buf, pos, left).err
    {
      WalkErr(buf, pos, left);
      if |rest| < 2 { return Some(BlockOverrun); }
      var len := Be16(rest[0], rest[1]);
      if |rest| < 2 + len { return Some(BlockOverrun); }
      rest := rest[2 + len..];
      pos, left := pos + 2 + len, left - 1;
    }
    WalkErr(buf, pos, 0);
    err := if rest != [] then Some(TrailingBytes(|rest|)) else None;
  }

  lemma WalkErr(frame: Bytes, pos: nat, count: nat)
    requires pos <= |frame|
    ensures WalkFrom(frame, pos, count).err ==
      if count == 0 then (if pos == |frame| then None else Some(TrailingBytes(|frame| - pos)))
      else if |frame| < pos + 2 || |frame| < pos + 2 + Be16(frame[pos], frame[pos + 1]) then Some(BlockOverrun)
      else WalkFrom(frame, pos + 2 + Be16(frame[pos], frame[pos + 1]), count - 1).err
  {
  }

  /** The messages of a frame that parses as data. */
  ghost function ParsedMsgs(buf: Bytes): (ms: seq<Msg>)
    requires |buf| >= HEADER_LEN
    ensures |ms| <= HeaderOf(buf).count
  {
    var h := HeaderOf(buf);
    var w := FrameWalk(buf, h.count);
    BlockMsgs(buf, h.seqNo, w.blocks, 0)
  }

  /** The iterator over a validated packet's blocks; its buffer starts behind the header. */
  class MessageBlocks {
    const buf: Bytes
    var pos: nat
    var nextSeq: nat
    var remaining: nat
    /** The frame the buffer came from. */
    ghost const frame: Bytes

    /** The framing of what is left was checked when the packet was parsed. */
    ghost predicate Checked()
      reads this
    {
      && |frame| >= HEADER_LEN && buf == frame[HEADER_LEN..] && HEADER_LEN + pos <= |frame|
      && WalkFrom(frame, HEADER_LEN + pos, remaining).err == None
    }

    /** What is left to be handed out. */
    ghost function Left(): seq<Msg>
      reads this
      requires Checked()
    {
      var w := WalkFrom(frame, HEADER_LEN + pos, remaining);
      BlockMsgs(frame, nextSeq, w.blocks, 0)
    }

    /** The blocks of a packet that parsed as data. */
    constructor (packet: Bytes, h: Header)
      requires Judged(packet) == Good(Data, h)
      ensures Checked() && Left() == ParsedMsgs(packet)
    {
      frame, buf := packet, packet[HEADER_LEN..];
      pos, nextSeq, remaining := 0, h.seqNo, h.count;
    }

    method Next() returns (m: Option<Msg>)
      requires Checked()
      modifies this
      ensures Checked()
      ensures m == if old(Left()) == [] then None else Some(old(Left())[0])
      ensures Left() == if old(Left()) == [] then [] else old(Left())[1..]
    {
      if remaining == 0 { return None; }
      ghost var at := HEADER_LEN + pos;
      NextBlock(frame, at, nextSeq, remaining);
      hide WalkFrom, BlockMsgs, Be16;
      assert buf[pos] == frame[at] && buf[pos + 1] == frame[at + 1];
      var len := Be16(buf[pos], buf[pos + 1]);
      var start := pos + 2;
      var end := start + len;
      var data := buf[start..end];
      assert data == frame[at + 2..at + 2 + len];
      m := Some(Msg(nextSeq, data));
      pos, nextSeq, remaining := end, nextSeq + 1, remaining - 1;
    }
  }

  lemma NextBlock(frame: Bytes, pos: nat, first: nat, count: nat)
    requires pos <= |frame| && count > 0 && WalkFrom(frame, pos, count).err == None
    ensures pos + 2 <= |frame| && pos + 2 + Be16(frame[pos], frame[pos + 1]) <= |frame|
    ensures var end := pos + 2 + Be16(frame[pos], frame[pos + 1]);
      var w, rest := WalkFrom(frame, pos, count), WalkFrom(frame, end, count - 1);
      && rest.err == None
      && BlockMsgs(frame, first, w.blocks, 0) == [Msg(first, frame[pos + 2..end])] + BlockMsgs(frame, first + 1, rest.blocks, 0)
  {
    WalkErr(frame, pos, count);
    var end := pos + 2 + Be16(frame[pos], frame[pos + 1]);
    WalkStep(frame, pos, count, end);
    hide WalkFrom, Be16;
    var w, rest := WalkFrom(frame, pos, count), WalkFrom(frame, end, count - 1);
    var ms, ns := BlockMsgs(frame, first, w.blocks, 0), BlockMsgs(frame, first + 1, rest.blocks, 0);
    assert w.blocks == [Block(pos + 2, end)] + rest.blocks;
    assert ms[1..] == ns;
  }

  /** The strict two-phase validator and the fused walk accept the same data frames. */
  lemma StrictAgreesWithFused(buf: Bytes)
    requires |buf| >= HEADER_LEN && IsData(HeaderOf(buf)) && HeaderOf(buf).seqNo + HeaderOf(buf).count - 1 < U64
    ensures var h := HeaderOf(buf);
      var strict := Judged(buf).Good? && forall i :: 0 <= i < |ParsedMsgs(buf)| ==> Validate(ParsedMsgs(buf)[i].data) == Valid;
      && (strict <==> IngestWalk(buf, h.seqNo, h.count, 0).err == None)
      && (strict ==> IngestWalk(buf, h.seqNo, h.count, 0).msgs == ParsedMsgs(buf))
  {
    hide Validate;
    var h := HeaderOf(buf);
    var w := FrameWalk(buf, h.count);
    Delivered(buf, h.seqNo, w.blocks, 0, w.err);
    var d := Deliver(buf, h.seqNo, w.blocks, 0, w.err);
    var ms := ParsedMsgs(buf);
    if d.err == None {
      forall i | 0 <= i < |ms| ensures Validate(ms[i].data) == Valid && d.msgs[i] == ms[i] {
        assert d.msgs[i].data == ms[i].data;
      }
      assert d.msgs == ms;
    } else if w.err == None && forall i :: 0 <= i < |ms| ==> Validate(ms[i].data) == Valid {
      AllValid(buf, h.seqNo, w.blocks, ms);
      DeliverValid(buf, h.seqNo, w.blocks, 0);
      assert false;
    }
  }

  lemma AllValid(frame: Bytes, first: nat, blocks: seq<Block>, ms: seq<Msg>)
    requires WithinFrame(frame, blocks) && ms == BlockMsgs(frame, first, blocks, 0)
    requires forall i :: 0 <= i < |ms| ==> Validate(ms[i].data) == Valid
    ensures forall i :: 0 <= i < |blocks| ==> BlockValid(frame, blocks[i])
  {
    forall i | 0 <= i < |blocks| ensures BlockValid(frame, blocks[i]) {
      assert ms[i].data == frame[blocks[i].start..blocks[i].end];
    }
  }
}
