// The retransmission server: a request for a range of the ground truth is answered with packets
// that parse back to exactly that range, and ingesting them heals the gap.
module Retransmit {
  import opened Bytes
  import opened Itch
  import opened Mold
  import opened Arbiter
  import opened ArbiterInvariant
  import opened Spans
  import opened Parsing
  import Intents

  const PACKET_LIMIT: nat := 1400

  // ---- big-endian encoding --------------------------------------------------------------------

  function Be16Bytes(n: nat): (b: Bytes)
    requires n < 0x1_0000
    ensures |b| == 2 && Be16(b[0], b[1]) == n
  {
    [n / 256, n % 256]
  }

  function Be64Bytes(n: nat): (b: Bytes)
    requires n < U64
    ensures |b| == 8 && Be64(b) == n
  {
    var hi, lo := n / 0x1_0000_0000, n % 0x1_0000_0000;
    var a, b, c, d := hi / 0x1_0000, hi % 0x1_0000, lo / 0x1_0000, lo % 0x1_0000;
    var r := Be16Bytes(a) + Be16Bytes(b) + Be16Bytes(c) + Be16Bytes(d);
    assert r[0..2] == Be16Bytes(a) && r[2..4] == Be16Bytes(b) && r[4..6] == Be16Bytes(c) && r[6..8] == Be16Bytes(d);
    assert Be64(r) == 0x1_0000_0000_0000 * a + 0x1_0000_0000 * b + 0x1_0000 * c + d;
    r
  }

  function BlockBytes(m: Bytes): Bytes
    requires |m| < 0x1_0000
  {
    Be16Bytes(|m|) + m
  }

  predicate Framable(ms: seq<Bytes>) {
    forall i :: 0 <= i < |ms| ==> |ms[i]| < 0x1_0000
  }

  /** Length-prefixed messages back to back. */
  function BlocksBytes(ms: seq<Bytes>): Bytes
    requires Framable(ms)
  {
    if ms == [] then [] else BlockBytes(ms[0]) + BlocksBytes(ms[1..])
  }

  lemma {:induction false} BlocksSnoc(ms: seq<Bytes>, m: Bytes)
    requires Framable(ms) && |m| < 0x1_0000
    ensures Framable(ms + [m]) && BlocksBytes(ms + [m]) == BlocksBytes(ms) + BlockBytes(m)
    decreases |ms|
  {
    if ms == [] {
      assert [m][1..] == [];
    } else {
      BlocksSnoc(ms[1..], m);
      assert (ms + [m])[1..] == ms[1..] + [m];
      Assoc(BlockBytes(ms[0]), BlocksBytes(ms[1..]), BlockBytes(m));
    }
  }

  function Packet(session: Bytes, seqNo: nat, count: nat, ms: seq<Bytes>): Bytes
    requires seqNo < U64 && count < 0x1_0000 && Framable(ms)
  {
    session + Be64Bytes(seqNo) + Be16Bytes(count) + BlocksBytes(ms)
  }

  function Numbered(first: nat, ms: seq<Bytes>): (r: seq<Msg>)
    ensures |r| == |ms|
  {
    seq(|ms|, i requires 0 <= i < |ms| => Msg(first + i, ms[i]))
  }

  /** Walking encoded blocks finds them again. */
  lemma {:induction false} WalkEncoded(pre: Bytes, first: nat, ms: seq<Bytes>)
    requires Framable(ms)
    ensures var frame := pre + BlocksBytes(ms); var w := WalkFrom(frame, |pre|, |ms|);
      w.err == None && BlockMsgs(frame, first, w.blocks, 0) == Numbered(first, ms)
    decreases |ms|
  {
    var frame := pre + BlocksBytes(ms);
    if ms == [] {
      assert frame == pre;
    } else {
      var m, rest := ms[0], ms[1..];
      var pre2 := pre + BlockBytes(m);
      NumberedStep(first, ms);
      hide WalkFrom, BlockMsgs, Numbered, BlockBytes, Be16;
      Assoc(pre, BlockBytes(m), BlocksBytes(rest));
      WalkEncoded(pre2, first + 1, rest);
      hide BlocksBytes;
      EncodedHead(pre, m, BlocksBytes(rest));
      WalkStep(frame, |pre|, |ms|, |pre2|);
      NextBlock(frame, |pre|, first, |ms|);
    }
  }

  lemma NumberedStep(first: nat, ms: seq<Bytes>)
    requires ms != []
    ensures Numbered(first, ms) == [Msg(first, ms[0])] + Numbered(first + 1, ms[1..])
  {
  }

  lemma EncodedHead(pre: Bytes, m: Bytes, tail: Bytes)
    requires |m| < 0x1_0000
    ensures var frame, n := pre + BlockBytes(m) + tail, |pre|;
      && |pre + BlockBytes(m)| == n + 2 + |m| <= |frame|
      && Be16(frame[n], frame[n + 1]) == |m|
      && frame[n + 2..n + 2 + |m|] == m
  {
    var frame, n := pre + BlockBytes(m) + tail, |pre|;
    assert frame[n] == BlockBytes(m)[0] && frame[n + 1] == BlockBytes(m)[1];
  }

  /** An encoded packet parses as data and yields its messages. */
  lemma PacketParses(session: Bytes, seqNo: nat, ms: seq<Bytes>)
    requires |session| == 10 && Framable(ms) && 0 < |ms| < EOS_COUNT && seqNo + |ms| <= U64
    ensures var p := Packet(session, seqNo, |ms|, ms);
      && |p| >= HEADER_LEN
      && Judged(p) == Good(Data, Header(session, seqNo, |ms|))
      && ParsedMsgs(p) == Numbered(seqNo, ms)
  {
    var head := session + Be64Bytes(seqNo) + Be16Bytes(|ms|);
    var p := Packet(session, seqNo, |ms|, ms);
    assert p == head + BlocksBytes(ms);
    assert p[..10] == session && p[10..18] == Be64Bytes(seqNo) && p[18] == Be16Bytes(|ms|)[0] && p[19] == Be16Bytes(|ms|)[1];
    WalkEncoded(head, seqNo, ms);
    hide WalkFrom, BlockMsgs, Numbered, BlocksBytes, Be16Bytes, Be64Bytes, Packet;
  }

  // ---- the ground truth file --------------------------------------------------------------------

  /** The complete length-prefixed messages from pos on; a truncated last one does not count. */
  function Payloads(gt: Bytes, pos: nat): (ms: seq<Bytes>)
    ensures Framable(ms)
    decreases |gt| - pos
  {
    if |gt| < pos + 2 then []
    else
      var end := pos + 2 + Be16(gt[pos], gt[pos + 1]);
      if end > |gt| then [] else [gt[pos + 2..end]] + Payloads(gt, end)
  }

  function Drop(ms: seq<Bytes>, i: nat): seq<Bytes> {
    if i <= |ms| then ms[i..] else []
  }

  function Take(ms: seq<Bytes>, n: nat): seq<Bytes> {
    if n <= |ms| then ms[..n] else ms
  }

  lemma PayloadStep(gt: Bytes, pos: nat)
    ensures |gt| < pos + 2 ==> Payloads(gt, pos) == []
    ensures pos + 2 <= |gt| ==>
      var end := pos + 2 + Be16(gt[pos], gt[pos + 1]);
      && (end > |gt| ==> Payloads(gt, pos) == [] && Payloads(gt, end) == [])
      && (end <= |gt| ==>
            && Payloads(gt, pos) == [gt[pos + 2..end]] + Payloads(gt, end)
            && gt[pos..end] == BlockBytes(gt[pos + 2..end])
            && Be16(gt[pos], gt[pos + 1]) == |gt[pos + 2..end]|)
  {
    if pos + 2 <= |gt| {
      var end := pos + 2 + Be16(gt[pos], gt[pos + 1]);
      if end <= |gt| {
        assert gt[pos..end] == [gt[pos], gt[pos + 1]] + gt[pos + 2..end];
      }
    }
  }

  lemma DropStep(ms: seq<Bytes>, i: nat)
    ensures Drop(ms, i + 1) == if Drop(ms, i) == [] then [] else Drop(ms, i)[1..]
  {
  }

  lemma {:induction false} DropPastEnd(ms: seq<Bytes>, i: nat, j: nat)
    requires i <= j && Drop(ms, i) == []
    ensures Drop(ms, j) == []
    decreases j - i
  {
    if i < j {
      DropStep(ms, i);
      DropPastEnd(ms, i + 1, j);
    }
  }

  /** Find the offset of a message by its index. */
  method Seek(gt: Bytes, target: nat) returns (offset: nat)
    ensures Payloads(gt, offset) == Drop(Payloads(gt, 0), target)
  {
    hide Payloads, Drop;
    ghost var all := Payloads(gt, 0);
    var index: nat := 0;
    offset := 0;
    DropNone(all);
    while index < target && offset + 2 <= |gt|
      invariant index <= target && Payloads(gt, offset) == Drop(all, index)
      decreases target - index
    {
      PayloadStep(gt, offset);
      DropStep(all, index);
      offset := offset + 2 + Be16(gt[offset], gt[offset + 1]);
      index := index + 1;
    }
    PayloadStep(gt, offset);
    if index < target { DropPastEnd(all, index, target); }
  }

  lemma DropNone(ms: seq<Bytes>)
    ensures Drop(ms, 0) == ms
  {
  }

  // ---- packing --------------------------------------------------------------------------------------

  /** The blocks of one packet from offset on: as many as the request and the size limit allow, but
      always one if there is one. */
  method FillPacket(gt: Bytes, session: Bytes, seqNo: nat, want: nat, offset: nat)
    returns (pkt: Bytes, count: nat, offset': nat, ghost ms: seq<Bytes>)
    requires |session| == 10 && seqNo < U64 && want > 0
    ensures count == |ms| && Framable(ms) && offset' >= offset && count <= want && count < EOS_COUNT
    ensures pkt == Packet(session, seqNo, 0, ms)
    ensures Payloads(gt, offset) == ms + Payloads(gt, offset')
    ensures ms == [] ==> Payloads(gt, offset) == []
    ensures |pkt| <= 1400 || count == 1
    ensures count < want && Payloads(gt, offset') != [] ==>
      |pkt| + |BlockBytes(Payloads(gt, offset')[0])| > 1400
  {
    hide Payloads, BlocksBytes, BlockBytes, Be64Bytes, Be16Bytes;
    pkt := session + Be64Bytes(seqNo) + Be16Bytes(0);
    count, offset', ms := 0, offset, [];
    PacketEmpty(session, seqNo);
    while count < want && offset' + 2 <= |gt|
      invariant count == |ms| && Framable(ms) && count <= want && offset' >= offset
      invariant pkt == Packet(session, seqNo, 0, ms) && |pkt| >= HEADER_LEN + 2 * count && (count <= 1 || |pkt| <= PACKET_LIMIT)
      invariant Payloads(gt, offset) == ms + Payloads(gt, offset')
      decreases want - count
    {
      PayloadStep(gt, offset');
      var len := Be16(gt[offset'], gt[offset' + 1]);
      if offset' + 2 + len > |gt| { break; }
      var total := 2 + len;
      if |pkt| + total > PACKET_LIMIT && count > 0 { break; }
      ghost var m := gt[offset' + 2..offset' + total];
      PacketSnoc(session, seqNo, ms, m);
      Assoc(ms, [m], Payloads(gt, offset' + total));
      pkt := pkt + gt[offset'..offset' + total];
      ms := ms + [m];
      offset' := offset' + total;
      count := count + 1;
    }
    PayloadStep(gt, offset');
  }

  lemma PacketEmpty(session: Bytes, seqNo: nat)
    requires |session| == 10 && seqNo < U64
    ensures session + Be64Bytes(seqNo) + Be16Bytes(0) == Packet(session, seqNo, 0, [])
    ensures |Packet(session, seqNo, 0, [])| == HEADER_LEN
  {
  }

  lemma PacketSnoc(session: Bytes, seqNo: nat, ms: seq<Bytes>, m: Bytes)
    requires |session| == 10 && seqNo < U64 && Framable(ms) && |m| < 0x1_0000
    ensures Framable(ms + [m])
    ensures Packet(session, seqNo, 0, ms + [m]) == Packet(session, seqNo, 0, ms) + BlockBytes(m)
    ensures |BlockBytes(m)| == 2 + |m|
  {
    BlocksSnoc(ms, m);
    Assoc(session + Be64Bytes(seqNo) + Be16Bytes(0), BlocksBytes(ms), BlockBytes(m));
  }

  /** Write the final count into the header. */
  method Patch(pkt: Bytes, session: Bytes, seqNo: nat, count: nat, ghost ms: seq<Bytes>) returns (out: Bytes)
    requires |session| == 10 && seqNo < U64 && count < 0x1_0000 && Framable(ms) && pkt == Packet(session, seqNo, 0, ms)
    ensures out == Packet(session, seqNo, count, ms) && |out| == |pkt|
  {
    var b := Be16Bytes(count);
    var head := session + Be64Bytes(seqNo);
    assert pkt == head + Be16Bytes(0) + BlocksBytes(ms);
    out := pkt[18 := b[0]][19 := b[1]];
    assert out == head + b + BlocksBytes(ms);
  }

  /** What all packets carry, in order. */
  ghost function AllMsgs(packets: seq<Bytes>): seq<Msg>
    requires forall k :: 0 <= k < |packets| ==> |packets[k]| >= HEADER_LEN
  {
    if packets == [] then [] else AllMsgs(packets[..|packets| - 1]) + ParsedMsgs(packets[|packets| - 1])
  }

  /** A data packet of the session that parses. */
  ghost predicate Answer(p: Bytes, session: Bytes) {
    |p| >= HEADER_LEN && Judged(p) == Good(Data, HeaderOf(p)) && HeaderOf(p).session == session
  }

  ghost predicate Answers(packets: seq<Bytes>, session: Bytes) {
    forall k :: 0 <= k < |packets| ==> Answer(packets[k], session)
  }

  /** What the request asks for: count messages from the index of fromSeq, as far as the truth goes. */
  function Served(gt: Bytes, firstIndex: nat, firstSeq: nat, fromSeq: nat, count: nat): seq<Bytes> {
    var target := firstIndex + if fromSeq >= firstSeq then fromSeq - firstSeq else 0;
    Take(Drop(Payloads(gt, 0), target), count)
  }

  /** No packet exceeds 1400 bytes unless it holds a single message. */
  ghost predicate Sized(packets: seq<Bytes>) {
    forall k :: 0 <= k < |packets| ==> |packets[k]| <= 1400 || (|packets[k]| >= HEADER_LEN && HeaderOf(packets[k]).count == 1)
  }

  lemma SizedNone()
    ensures Sized([])
  {
  }

  lemma SizedSnoc(packets: seq<Bytes>, p: Bytes)
    requires Sized(packets) && (|p| <= 1400 || (|p| >= HEADER_LEN && HeaderOf(p).count == 1))
    ensures Sized(packets + [p])
  {
    hide HeaderOf;
  }

  lemma AnswersSnoc(packets: seq<Bytes>, session: Bytes, p: Bytes)
    requires Answers(packets, session) && Answer(p, session)
    ensures Answers(packets + [p], session) && (forall k :: 0 <= k < |packets + [p]| ==> |(packets + [p])[k]| >= HEADER_LEN)
    ensures AllMsgs(packets + [p]) == AllMsgs(packets) + ParsedMsgs(p)
  {
    assert (packets + [p])[..|packets|] == packets;
  }

  lemma TakeSplit(ms: seq<Bytes>, rest: seq<Bytes>, n: nat)
    requires |ms| <= n
    ensures Take(ms + rest, n) == ms + Take(rest, n - |ms|)
  {
  }

  lemma NumberedJoin(first: nat, a: seq<Bytes>, b: seq<Bytes>)
    ensures Numbered(first, a + b) == Numbered(first, a) + Numbered(first + |a|, b)
  {
  }

  /** The packets built for a request parse back to exactly the requested messages of the ground
      truth, numbered consecutively from the requested sequence number. */
  method PackResponsePackets(gt: Bytes, session: Bytes, firstIndex: nat, firstSeq: nat, fromSeq: nat, count: nat)
    returns (packets: seq<Bytes>)
    requires |session| == 10 && count < 0x1_0000 && fromSeq + count < U64
    ensures Answers(packets, session) && (forall k :: 0 <= k < |packets| ==> |packets[k]| >= HEADER_LEN)
    ensures AllMsgs(packets) == Numbered(fromSeq, Served(gt, firstIndex, firstSeq, fromSeq, count))
    ensures Fulfils(AllMsgs(packets), Payloads(gt, 0), firstIndex, firstSeq, fromSeq, count)
    ensures Sized(packets)
  {
    hide Payloads, Take, Drop, Packet, Numbered, AllMsgs, Answers, Answer, Fulfils, HeaderOf, ParsedMsgs, Sized;
    ServedFulfils(gt, firstIndex, firstSeq, fromSeq, count);
    packets := [];
    AnswersNone(session, fromSeq);
    SizedNone();
    if count == 0 {
      TakeNone(Drop(Payloads(gt, 0), firstIndex + if fromSeq >= firstSeq then fromSeq - firstSeq else 0), 0);
      return;
    }
    var target := firstIndex + if fromSeq >= firstSeq then fromSeq - firstSeq else 0;
    var offset: nat := Seek(gt, target);
    ghost var served := Take(Payloads(gt, offset), count);
    ghost var done: seq<Bytes> := [];
    var cur: nat := fromSeq;
    var end := fromSeq + count;
    while cur < end && offset < |gt|
      invariant fromSeq <= cur <= end && cur == fromSeq + |done|
      invariant served == done + Take(Payloads(gt, offset), end - cur)
      invariant Answers(packets, session) && (forall k :: 0 <= k < |packets| ==> |packets[k]| >= HEADER_LEN)
      invariant AllMsgs(packets) == Numbered(fromSeq, done)
      invariant Sized(packets)
      decreases end - cur
    {
      var pkt, n, next, ms := FillPacket(gt, session, cur, end - cur, offset);
      if n == 0 {
        TakeNone(Payloads(gt, offset), end - cur);
        break;
      }
      TakeSplit(ms, Payloads(gt, next), end - cur);
      Assoc(done, ms, Take(Payloads(gt, next), end - cur - n));
      pkt := Patch(pkt, session, cur, n, ms);
      PacketAnswers(session, cur, ms);
      AnswersSnoc(packets, session, pkt);
      SizedSnoc(packets, pkt);
      NumberedJoin(fromSeq, done, ms);
      packets := packets + [pkt];
      done := done + ms;
      cur, offset := cur + n, next;
    }
    PayloadStep(gt, offset);
    TakeNone(Payloads(gt, offset), end - cur);
    assert served == done;
  }

  lemma PacketAnswers(session: Bytes, seqNo: nat, ms: seq<Bytes>)
    requires |session| == 10 && Framable(ms) && 0 < |ms| < EOS_COUNT && seqNo + |ms| <= U64
    ensures var p := Packet(session, seqNo, |ms|, ms);
      Answer(p, session) && ParsedMsgs(p) == Numbered(seqNo, ms) && |p| >= HEADER_LEN && HeaderOf(p).count == |ms|
  {
    hide Packet, ParsedMsgs, Numbered;
    PacketParses(session, seqNo, ms);
  }

  lemma TakeNone(ms: seq<Bytes>, n: nat)
    ensures ms == [] || n == 0 ==> Take(ms, n) == []
  {
  }

  lemma AnswersNone(session: Bytes, first: nat)
    ensures Answers([], session) && AllMsgs([]) == Numbered(first, [])
  {
  }

  /** The index of the first message asked for. */
  function TargetIndex(firstIndex: nat, firstSeq: nat, fromSeq: nat): nat {
    if fromSeq >= firstSeq then firstIndex + (fromSeq - firstSeq) else firstIndex
  }

  /** An answer is as long as the request and the truth allow, and its message i is the truth's message i
      behind the first one asked for, under the i-th number asked for. */
  ghost predicate Fulfils(ms: seq<Msg>, truth: seq<Bytes>, firstIndex: nat, firstSeq: nat, fromSeq: nat, count: nat) {
    var target := TargetIndex(firstIndex, firstSeq, fromSeq);
    && |ms| == (if target >= |truth| then 0 else if count < |truth| - target then count else |truth| - target)
    && forall i :: 0 <= i < |ms| ==> ms[i] == Msg(fromSeq + i, truth[target + i])
  }

  lemma ServedFulfils(gt: Bytes, firstIndex: nat, firstSeq: nat, fromSeq: nat, count: nat)
    ensures Fulfils(Numbered(fromSeq, Served(gt, firstIndex, firstSeq, fromSeq, count)), Payloads(gt, 0),
                    firstIndex, firstSeq, fromSeq, count)
  {
    hide Payloads;
  }

  /** One message carries number s. */
  ghost predicate Carried(ms: seq<Msg>, s: nat, m: Bytes) {
    exists i :: 0 <= i < |ms| && ms[i] == Msg(s, m)
  }

  /** From the first number on, an answer carries number s if and only if s was asked for and the truth
      has its message, and then once and with that message. */
  lemma EveryNumberOnce(ms: seq<Msg>, truth: seq<Bytes>, firstIndex: nat, firstSeq: nat, fromSeq: nat, count: nat, s: nat)
    requires Fulfils(ms, truth, firstIndex, firstSeq, fromSeq, count) && firstSeq <= fromSeq
    ensures (exists m :: Carried(ms, s, m))
      <==> fromSeq <= s < fromSeq + count && firstIndex + (s - firstSeq) < |truth|
    ensures forall m :: Carried(ms, s, m) ==> s >= firstSeq && firstIndex + (s - firstSeq) < |truth| && m == truth[firstIndex + (s - firstSeq)]
    ensures forall i, j :: 0 <= i < j < |ms| ==> ms[i].seqNo != ms[j].seqNo
  {
    if fromSeq <= s < fromSeq + count && firstIndex + (s - firstSeq) < |truth| {
      assert ms[s - fromSeq] == Msg(s, truth[firstIndex + (s - firstSeq)]);
      assert Carried(ms, s, truth[firstIndex + (s - firstSeq)]);
    }
  }

  /** A request at or above the first sequence number is served with the right messages: number s
      carries the truth's message at the index of s. */
  lemma ServedByIndex(gt: Bytes, firstIndex: nat, firstSeq: nat, fromSeq: nat, count: nat, i: nat)
    requires i < |Served(gt, firstIndex, firstSeq, fromSeq, count)| && fromSeq >= firstSeq
    ensures firstIndex + (fromSeq + i - firstSeq) < |Payloads(gt, 0)|
    ensures Numbered(fromSeq, Served(gt, firstIndex, firstSeq, fromSeq, count))[i]
      == Msg(fromSeq + i, Payloads(gt, 0)[firstIndex + (fromSeq + i - firstSeq)])
  {
    hide Payloads;
  }

  /** A request below it is served from the first message on, under the numbers it asked for: the
      message numbered s is the truth's message for s + (firstSeq - fromSeq). */
  lemma ServedShifted(gt: Bytes, firstIndex: nat, firstSeq: nat, fromSeq: nat, count: nat, i: nat)
    requires i < |Served(gt, firstIndex, firstSeq, fromSeq, count)| && fromSeq < firstSeq
    ensures firstIndex + i < |Payloads(gt, 0)|
    ensures Numbered(fromSeq, Served(gt, firstIndex, firstSeq, fromSeq, count))[i]
      == Msg(fromSeq + i, Payloads(gt, 0)[firstIndex + i])
  {
    hide Payloads;
  }

  // ---- ingesting the answer ---------------------------------------------------------------------------

  /** Ingest packets one after the other. */
  ghost function Feed(a: Arb, packets: seq<Bytes>, feed: nat, now: nat): Arb {
    if packets == [] then a
    else Ingest(Feed(a, packets[..|packets| - 1], feed, now), packets[|packets| - 1], feed, now)
  }

  /** Anchored, in the session, and not at its end. */
  ghost predicate LiveIn(a: Arb, session: Bytes) {
    a.session == session && (a.state == Contig || a.state == Gap || a.state == EosPersist)
  }

  lemma ContiguousPasses(a: Arb, d: Delivery, skip: nat, last: nat, now: nat, session: Bytes)
    requires LiveIn(a, session) && d.err == None
    ensures var b := ApplyContiguous(a, d, skip, last, now); b.w >= last + 1 && LiveIn(b, session)
  {
    hide DrainRun, EmitAll;
    var b := EmitAll(a.(ctr := a.ctr.(dupMsgs := a.ctr.dupMsgs + skip)), d.msgs);
    assert LiveIn(b, session) by { EmitKeeps(a, skip, d.msgs); }
    DrainRunForward(ClearPassed(b.(w := last + 1)).(progressVt := now));
  }

  lemma EmitKeeps(a: Arb, skip: nat, ms: seq<Msg>)
    ensures var b := EmitAll(a.(ctr := a.ctr.(dupMsgs := a.ctr.dupMsgs + skip)), ms);
      b.session == a.session && b.state == a.state
  {
  }

  lemma DataPasses(a: Arb, p: Bytes, h: Header, feed: nat, now: nat, session: Bytes)
    requires LiveIn(a, session) && |p| >= HEADER_LEN && IsData(h) && h.seqNo <= a.w && h.seqNo + h.count - 1 < U64
    requires IngestWalk(p, h.seqNo, h.count, 0).err == None
    ensures var b := DataFrame(a, p, h, feed, now); LiveIn(b, session) && b.w >= a.w && b.w >= h.seqNo + h.count
  {
    hide IngestWalk, CountDup, ApplyContiguous;
    var first, last := h.seqNo, h.seqNo + h.count - 1;
    if last >= a.w {
      var skip := Skip(a.w, first, h.count);
      Intents.WalkNoError(p, first, h.count, skip);
      ContiguousPasses(a, IngestWalk(p, first, h.count, skip), skip, last, now, session);
    }
  }

  lemma DispatchKeepsLive(a: Arb, c: Counters, session: Bytes)
    requires LiveIn(a, session)
    ensures var b := SessionDispatch(a.(ctr := c), session); LiveIn(b, session) && b.w == a.w
  {
  }

  /** One packet at or below the watermark carries the watermark to its end at least. */
  lemma PacketPasses(a: Arb, p: Bytes, feed: nat, now: nat, session: Bytes)
    requires LiveIn(a, session) && Answer(p, session) && HeaderOf(p).seqNo <= a.w
    requires forall i :: 0 <= i < |ParsedMsgs(p)| ==> Validate(ParsedMsgs(p)[i].data) == Itch.Verdict.Valid
    ensures var b := Ingest(a, p, feed, now); LiveIn(b, session) && b.w >= a.w && b.w >= HeaderOf(p).seqNo + HeaderOf(p).count
  {
    var h := HeaderOf(p);
    StrictAgreesWithFused(p);
    hide Validate, IngestWalk, ParsedMsgs, CountPacket, DataFrame, SessionDispatch, FrameWalk;
    DispatchKeepsLive(a, CountPacket(a.ctr, feed, |p|), session);
    DataPasses(SessionDispatch(a.(ctr := CountPacket(a.ctr, feed, |p|)), session), p, h, feed, now, session);
  }

  lemma LastAnswer(packets: seq<Bytes>, session: Bytes)
    requires packets != [] && Answers(packets, session)
    ensures var n := |packets| - 1;
      && (forall k :: 0 <= k < |packets| ==> |packets[k]| >= HEADER_LEN)
      && (forall k :: 0 <= k < |packets[..n]| ==> |packets[..n][k]| >= HEADER_LEN)
      && Answers(packets[..n], session) && Answer(packets[n], session)
      && AllMsgs(packets) == AllMsgs(packets[..n]) + ParsedMsgs(packets[n])
  {
    hide ParsedMsgs, Judged;
    assert Answer(packets[|packets| - 1], session);
  }

  /** The request is healed: fed in order to a live sequencer waiting at the requested number, the
      packets carry the watermark past everything they serve. */
  lemma {:induction false} Heals(a: Arb, packets: seq<Bytes>, feed: nat, now: nat, session: Bytes, first: nat, ms: seq<Bytes>)
    requires LiveIn(a, session) && first <= a.w
    requires Answers(packets, session) && (forall k :: 0 <= k < |packets| ==> |packets[k]| >= HEADER_LEN)
    requires AllMsgs(packets) == Numbered(first, ms)
    requires forall i :: 0 <= i < |ms| ==> Validate(ms[i]) == Itch.Verdict.Valid
    ensures var b := Feed(a, packets, feed, now); LiveIn(b, session) && b.w >= a.w && b.w >= first + |ms|
    decreases |packets|
  {
    hide Validate, Ingest, ParsedMsgs, Numbered, LiveIn, Answer, Answers;
    if packets != [] {
      hide AllMsgs;
      var n := |packets| - 1;
      var p := packets[n];
      LastAnswer(packets, session);
      var k := |AllMsgs(packets[..n])|;
      NumberedSplit(first, ms, k, AllMsgs(packets[..n]), ParsedMsgs(p));
      Heals(a, packets[..n], feed, now, session, first, ms[..k]);
      AnswerCarries(p, session, first + k, ms[k..]);
      PacketPasses(Feed(a, packets[..n], feed, now), p, feed, now, session);
    }
  }

  lemma NumberedSplit(first: nat, ms: seq<Bytes>, k: nat, a: seq<Msg>, b: seq<Msg>)
    requires Numbered(first, ms) == a + b && |a| == k
    ensures k <= |ms| && a == Numbered(first, ms[..k]) && b == Numbered(first + k, ms[k..])
  {
    assert |a + b| == |ms|;
    forall i | 0 <= i < k ensures a[i] == Numbered(first, ms[..k])[i] {
      assert (a + b)[i] == a[i];
    }
    forall i | 0 <= i < |b| ensures b[i] == Numbered(first + k, ms[k..])[i] {
      assert (a + b)[k + i] == b[i];
    }
  }

  /** A packet's first message carries the header's number. */
  lemma AnswerCarries(p: Bytes, session: Bytes, first: nat, ms: seq<Bytes>)
    requires Answer(p, session) && ParsedMsgs(p) == Numbered(first, ms)
    requires forall i :: 0 <= i < |ms| ==> Validate(ms[i]) == Itch.Verdict.Valid
    ensures |p| >= HEADER_LEN && HeaderOf(p).seqNo == first && |ParsedMsgs(p)| == |ms| == HeaderOf(p).count
    ensures forall i :: 0 <= i < |ParsedMsgs(p)| ==> Validate(ParsedMsgs(p)[i].data) == Itch.Verdict.Valid
  {
    hide Validate;
    var h := HeaderOf(p);
    assert FrameWalk(p, h.count).err == None;
    assert ParsedMsgs(p)[0].seqNo == h.seqNo;
    forall i | 0 <= i < |ParsedMsgs(p)| ensures Validate(ParsedMsgs(p)[i].data) == Itch.Verdict.Valid {
      assert ParsedMsgs(p)[i].data == ms[i];
    }
  }

  /** The answer to a request within the truth carries a sequencer waiting at the requested number to the
      end of the request. */
  lemma AnswerHeals(a: Arb, packets: seq<Bytes>, feed: nat, now: nat, session: Bytes,
                    truth: seq<Bytes>, firstIndex: nat, firstSeq: nat, fromSeq: nat, count: nat)
    requires LiveIn(a, session) && firstSeq <= fromSeq <= a.w
    requires Answers(packets, session) && (forall k :: 0 <= k < |packets| ==> |packets[k]| >= HEADER_LEN)
    requires Fulfils(AllMsgs(packets), truth, firstIndex, firstSeq, fromSeq, count)
    requires firstIndex + (fromSeq - firstSeq) + count <= |truth|
    requires forall i :: 0 <= i < |truth| ==> Validate(truth[i]) == Itch.Verdict.Valid
    ensures var b := Feed(a, packets, feed, now); LiveIn(b, session) && b.w >= fromSeq + count
  {
    hide Validate, AllMsgs, Answers, LiveIn, Ingest;
    var at := firstIndex + (fromSeq - firstSeq);
    var ms := truth[at..at + count];
    assert AllMsgs(packets) == Numbered(fromSeq, ms);
    Heals(a, packets, feed, now, session, fromSeq, ms);
  }

  /** The recovery loop closes: what an intent asks for, answered from a truth that has it and fed back,
      carries the watermark to the intent's end. */
  lemma LoopCloses(a: Arb, asked: nat, packets: seq<Bytes>, feed: nat, now: nat, session: Bytes,
                   truth: seq<Bytes>, firstIndex: nat, firstSeq: nat)
    requires LiveIn(a, session) && firstSeq <= a.w && Intents.Bounded(a) && !Intents.AsksBackward(a, asked)
    requires RecoveryIntent(a, asked).1.Some?
    requires Answers(packets, session) && (forall k :: 0 <= k < |packets| ==> |packets[k]| >= HEADER_LEN)
    requires var i := RecoveryIntent(a, asked).1.value;
      && firstIndex + (a.w - firstSeq) + (if i.toExcl > i.from then i.toExcl - i.from else 0) <= |truth|
      && Fulfils(AllMsgs(packets), truth, firstIndex, firstSeq, i.from, if i.toExcl > i.from then i.toExcl - i.from else 0)
    requires forall i :: 0 <= i < |truth| ==> Validate(truth[i]) == Itch.Verdict.Valid
    ensures var i, b := RecoveryIntent(a, asked).1.value, Feed(RecoveryIntent(a, asked).0, packets, feed, now);
      a.w < i.toExcl <= a.w + 65535 && b.w >= i.toExcl
  {
    Intents.BackwardExactly(a, asked);
    hide Validate, AllMsgs, Answers, Ingest, Fulfils;
    var i := RecoveryIntent(a, asked).1.value;
    AnswerHeals(RecoveryIntent(a, asked).0, packets, feed, now, session, truth, firstIndex, firstSeq, i.from, i.toExcl - i.from);
  }
}
