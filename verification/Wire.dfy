// The bytes on the wire: positional values of every field, and packets recovered from their encoding.
module Wire {
  import opened Bytes
  import opened Itch
  import opened Mold
  import opened Spans
  import opened Parsing
  import opened Retransmit

  /** The first octet is the most significant one. */
  lemma {:induction false} BeHead(bs: Bytes)
    requires bs != []
    ensures Be(bs) == bs[0] * Pow256(|bs| - 1) + Be(bs[1..])
    decreases |bs|
  {
    if |bs| > 1 {
      var n := |bs| - 1;
      BeHead(bs[..n]);
      assert bs[..n][1..] == bs[1..][..n - 1];
      Scale(bs[0], Pow256(n - 1), Be(bs[1..][..n - 1]));
    }
  }

  lemma Scale(a: nat, p: nat, b: nat)
    ensures 256 * (a * p + b) == a * (256 * p) + 256 * b
  {
  }

  function Pow256(n: nat): nat {
    if n == 0 then 1 else 256 * Pow256(n - 1)
  }

  /** The octet at a position, as a number. */
  function At(b: Bytes, i: nat): nat
    requires i < |b|
  {
    b[i]
  }

  /** Every field of the header is where it should be, most significant octet first. */
  lemma HeaderFields(frame: Bytes)
    requires |frame| >= 20
    ensures var h := HeaderOf(frame);
      && h.session == frame[0..10]
      && h.seqNo == Be(frame[10..18])
         == 0x100_0000_0000_0000 * At(frame, 10) + 0x1_0000_0000_0000 * At(frame, 11) + 0x100_0000_0000 * At(frame, 12)
            + 0x1_0000_0000 * At(frame, 13) + 0x100_0000 * At(frame, 14) + 0x1_0000 * At(frame, 15) + 0x100 * At(frame, 16) + At(frame, 17)
      && h.count == Be(frame[18..20]) == 0x100 * At(frame, 18) + At(frame, 19)
  {
    Be8(frame[10..18]);
    Be2(frame[18..20]);
  }

  lemma BeLast(b: Bytes, c: Bytes, x: Byte)
    requires b == c + [x]
    ensures Be(b) == 256 * Be(c) + x
  {
    assert b[..|b| - 1] == c;
  }

  lemma Be2(b: Bytes)
    requires |b| == 2
    ensures Be(b) == 0x100 * At(b, 0) + At(b, 1)
  {
    BeLast([b[0]], [], b[0]);
    BeLast(b, [b[0]], b[1]);
  }

  lemma Be8(b: Bytes)
    requires |b| == 8
    ensures Be(b) == 0x100_0000_0000_0000 * At(b, 0) + 0x1_0000_0000_0000 * At(b, 1) + 0x100_0000_0000 * At(b, 2)
      + 0x1_0000_0000 * At(b, 3) + 0x100_0000 * At(b, 4) + 0x1_0000 * At(b, 5) + 0x100 * At(b, 6) + At(b, 7)
  {
    hide Be;
    Be2(b[..2]);
    BeLast(b[..3], b[..2], b[2]);
    BeLast(b[..4], b[..3], b[3]);
    BeLast(b[..5], b[..4], b[4]);
    BeLast(b[..6], b[..5], b[5]);
    BeLast(b[..7], b[..6], b[6]);
    BeLast(b, b[..7], b[7]);
  }

  /** Block after block: each starts two octets behind the one before and is as long as the big-endian
      number in those two octets says. */
  lemma {:induction false} BlockLengths(frame: Bytes, pos: nat, count: nat, i: nat)
    requires pos <= |frame| && i < |WalkFrom(frame, pos, count).blocks|
    ensures var bs := WalkFrom(frame, pos, count).blocks;
      && bs[i].start == (if i == 0 then pos else bs[i - 1].end) + 2
      && bs[i].end == bs[i].start + 0x100 * At(frame, bs[i].start - 2) + At(frame, bs[i].start - 1)
    decreases i
  {
    if i > 0 {
      var end := pos + 2 + Be16(frame[pos], frame[pos + 1]);
      BlockLengths(frame, end, count - 1, i - 1);
    }
  }

  // ---- packets and their encoding --------------------------------------------------------------------

  /** From pos on, the frame holds the messages length-prefixed and back to back, and then the rest. */
  ghost predicate Carries(frame: Bytes, pos: nat, ms: seq<Bytes>, rest: Bytes) {
    pos <= |frame| && Framable(ms) && frame[pos..] == BlocksBytes(ms) + rest
  }

  /** The first message carried is where its length says, and behind it the others are carried. */
  lemma CarriedHead(frame: Bytes, pos: nat, ms: seq<Bytes>, rest: Bytes)
    requires Carries(frame, pos, ms, rest) && ms != []
    ensures var m := ms[0];
      && pos + 2 + |m| <= |frame| && Be16(frame[pos], frame[pos + 1]) == |m| && frame[pos + 2..pos + 2 + |m|] == m
      && Carries(frame, pos + 2 + |m|, ms[1..], rest)
  {
    var m, more := ms[0], ms[1..];
    var tail := BlocksBytes(more) + rest;
    Assoc(BlockBytes(m), BlocksBytes(more), rest);
    assert frame == frame[..pos] + (BlockBytes(m) + tail);
    Assoc(frame[..pos], BlockBytes(m), tail);
    hide BlocksBytes, BlockBytes, Be16;
    EncodedHead(frame[..pos], m, tail);
    var end := pos + 2 + |m|;
    assert frame[end..] == tail by { assert |frame[..pos] + BlockBytes(m)| == end; }
  }

  function EndsWith(rest: Bytes): Option<FrameError> {
    if rest == [] then None else Some(TrailingBytes(|rest|))
  }

  /** What the walk says of encoded messages with something behind them. */
  lemma {:induction false} WalkOfEncoded(frame: Bytes, pos: nat, ms: seq<Bytes>, rest: Bytes)
    requires Carries(frame, pos, ms, rest)
    ensures WalkFrom(frame, pos, |ms|).err == EndsWith(rest)
    decreases |ms|
  {
    if ms != [] {
      hide WalkFrom;
      CarriedHead(frame, pos, ms, rest);
      WalkErr(frame, pos, |ms|);
      hide Carries, Be16;
      WalkOfEncoded(frame, pos + 2 + |ms[0]|, ms[1..], rest);
    }
  }

  /** A walk that overruns no block has found encoded messages. */
  lemma {:induction false} Recovers(frame: Bytes, pos: nat, count: nat) returns (ms: seq<Bytes>, rest: Bytes)
    requires pos <= |frame| && WalkFrom(frame, pos, count).err != Some(BlockOverrun)
    ensures |ms| == count && Carries(frame, pos, ms, rest)
    decreases count
  {
    if count == 0 {
      ms, rest := [], frame[pos..];
    } else {
      WalkErr(frame, pos, count);
      hide WalkFrom;
      var end := pos + 2 + Be16(frame[pos], frame[pos + 1]);
      var more;
      more, rest := Recovers(frame, end, count - 1);
      var m := frame[pos + 2..end];
      ms := [m] + more;
      assert ms[1..] == more;
      BlockAt(frame, pos, end);
      assert frame[pos..] == frame[pos..end] + frame[end..];
      Assoc(BlockBytes(m), BlocksBytes(more), rest);
    }
  }

  lemma BlockAt(frame: Bytes, pos: nat, end: nat)
    requires pos + 2 <= end <= |frame| && end == pos + 2 + Be16(frame[pos], frame[pos + 1])
    ensures frame[pos..end] == BlockBytes(frame[pos + 2..end])
  {
    assert frame[pos..end] == [frame[pos], frame[pos + 1]] + frame[pos + 2..end];
  }

  /** The body holds exactly count messages, with so many octets behind them. */
  ghost predicate Holds(buf: Bytes, count: nat, extra: nat) {
    exists ms: seq<Bytes>, rest: Bytes :: |ms| == count && |rest| == extra && Carries(buf, 20, ms, rest)
  }

  lemma HoldsIsErr(buf: Bytes, count: nat, extra: nat)
    requires |buf| >= 20
    ensures Holds(buf, count, extra)
      <==> FrameWalk(buf, count).err == (if extra == 0 then None else Some(TrailingBytes(extra)))
  {
    hide WalkFrom, Carries;
    if Holds(buf, count, extra) {
      var ms: seq<Bytes>, rest: Bytes :| |ms| == count && |rest| == extra && Carries(buf, 20, ms, rest);
      WalkOfEncoded(buf, 20, ms, rest);
    }
    if FrameWalk(buf, count).err == (if extra == 0 then None else Some(TrailingBytes(extra))) {
      var ms, rest := Recovers(buf, 20, count);
      WalkOfEncoded(buf, 20, ms, rest);
    }
  }

  lemma {:induction false} WalkErrors(frame: Bytes, pos: nat, count: nat)
    requires pos <= |frame|
    ensures var e := WalkFrom(frame, pos, count).err;
      e == None || e == Some(BlockOverrun) || (e.value.TrailingBytes? && e.value.extra > 0)
    decreases count
  {
    WalkErr(frame, pos, count);
    if count > 0 && pos + 2 <= |frame| && pos + 2 + Be16(frame[pos], frame[pos + 1]) <= |frame| {
      hide WalkFrom;
      WalkErrors(frame, pos + 2 + Be16(frame[pos], frame[pos + 1]), count - 1);
    }
  }

  /** The verdict on every byte string, from the octets alone: control packets are bare headers, a data
      packet is its header and exactly as many length-prefixed messages as it counts, and every other
      string is refused with the error that tells what is wrong with it. */
  lemma ParseExactly(buf: Bytes)
    ensures var p := Judged(buf);
      if |buf| < 20 then p == Bad(Truncated(20, |buf|))
      else
        var seqNo, count := Be(buf[10..18]), Be(buf[18..20]);
        var h := Header(buf[0..10], seqNo, count);
        if count == 0 || count == 65535 then
          p == if |buf| > 20 then Bad(TrailingBytes(|buf| - 20)) else Good(if count == 0 then HeartbeatPacket else EndOfSession, h)
        else if seqNo + count > 0x1_0000_0000_0000_0000 then p == Bad(SeqOverflow)
        else
          && (p == Good(Data, h) <==> Holds(buf, count, 0))
          && (forall extra: nat :: extra > 0 ==> (p == Bad(TrailingBytes(extra)) <==> Holds(buf, count, extra)))
          && (p == Bad(BlockOverrun) <==> forall extra: nat :: !Holds(buf, count, extra))
  {
    if |buf| >= 20 {
      HeaderFields(buf);
      var h := HeaderOf(buf);
      forall extra: nat
        ensures Holds(buf, h.count, extra)
          <==> FrameWalk(buf, h.count).err == (if extra == 0 then None else Some(TrailingBytes(extra)))
      {
        HoldsIsErr(buf, h.count, extra);
      }
      WalkErrors(buf, 20, h.count);
      hide WalkFrom, Be, Holds, HeaderOf;
    }
  }

  /** The messages of a packet that parses are the ones it was encoded from, numbered from the header's
      number on. */
  lemma ParsedAreCarried(buf: Bytes, ms: seq<Bytes>)
    requires |buf| >= 20 && Carries(buf, 20, ms, []) && |ms| == Be(buf[18..20])
    ensures ParsedMsgs(buf) == Numbered(Be(buf[10..18]), ms)
  {
    HeaderFields(buf);
    assert buf == buf[..20] + BlocksBytes(ms);
    hide WalkFrom, Be, BlockMsgs, Numbered, BlocksBytes;
    WalkEncoded(buf[..20], HeaderOf(buf).seqNo, ms);
  }

  // ---- the ground truth file --------------------------------------------------------------------------------

  /** Too short for the block its first two octets announce. */
  predicate Unfinished(rest: Bytes) {
    |rest| < 2 || |rest| < 2 + Be(rest[..2])
  }

  lemma NoneCarried(gt: Bytes, pos: nat, rest: Bytes)
    requires pos <= |gt| && gt[pos..] == rest && Unfinished(rest)
    ensures Payloads(gt, pos) == []
  {
    hide Be;
    if |rest| >= 2 {
      Be2(rest[..2]);
      assert gt[pos] == rest[0] && gt[pos + 1] == rest[1];
    }
  }

  /** The messages of a ground truth file are the ones it was written from, whatever unfinished block is at
      its end. */
  lemma {:induction false} TruthIsCarried(gt: Bytes, pos: nat, ms: seq<Bytes>, rest: Bytes)
    requires Carries(gt, pos, ms, rest) && Unfinished(rest)
    ensures Payloads(gt, pos) == ms
    decreases |ms|
  {
    PayloadStep(gt, pos);
    if ms == [] {
      NoneCarried(gt, pos, rest);
    } else {
      hide Payloads, Unfinished;
      CarriedHead(gt, pos, ms, rest);
      hide Carries, Be16;
      TruthIsCarried(gt, pos + 2 + |ms[0]|, ms[1..], rest);
    }
  }
}
