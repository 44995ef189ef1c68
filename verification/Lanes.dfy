// The eight interleaved byte streams of a span, and the scalar eight-lane kernel.
module Lanes {
  import opened Bytes
  import opened CrcRing
  import opened Crc32c

  /** The bytes lane k scans: word k of every 64-byte block. */
  function Lane(bs: Bytes, k: nat): Bytes
    requires k < 8
    decreases |bs|
  {
    if |bs| < 64 then [] else bs[8 * k..8 * k + 8] + Lane(bs[64..], k)
  }

  lemma {:induction false} LaneLength(bs: Bytes, k: nat)
    requires k < 8
    ensures |Lane(bs, k)| == 8 * (|bs| / 64)
    decreases |bs|
  {
    if |bs| >= 64 { LaneLength(bs[64..], k); }
  }

  lemma {:induction false} LaneAppend(a: Bytes, b: Bytes, k: nat)
    requires k < 8 && |a| % 64 == 0
    ensures Lane(a + b, k) == Lane(a, k) + Lane(b, k)
    decreases |a|
  {
    if a == [] {
      assert a + b == b;
    } else {
      assert (a + b)[64..] == a[64..] + b;
      assert (a + b)[8 * k..8 * k + 8] == a[8 * k..8 * k + 8];
      LaneAppend(a[64..], b, k);
    }
  }

  lemma {:induction false} LaneWord(bs: Bytes, k: nat, j: nat)
    requires k < 8 && 64 * j + 64 <= |bs|
    ensures |Lane(bs, k)| >= 8 * j + 8
    ensures Lane(bs, k)[8 * j..8 * j + 8] == bs[64 * j + 8 * k..64 * j + 8 * k + 8]
    decreases |bs|
  {
    LaneLength(bs, k);
    var l := Lane(bs, k);
    if j == 0 {
      assert l[..8] == bs[8 * k..8 * k + 8];
    } else {
      LaneWord(bs[64..], k, j - 1);
      assert l[8..] == Lane(bs[64..], k);
      assert l[8 * j..8 * j + 8] == l[8..][8 * (j - 1)..8 * (j - 1) + 8];
    }
  }

  /** Everything lane k scans: its words, and for lane 0 the tail below 64 bytes. */
  function LaneStream(bs: Bytes, k: nat): Bytes
    requires k < 8
  {
    Lane(bs, k) + if k == 0 then bs[64 * (|bs| / 64)..] else []
  }

  /** Every byte of the body is scanned, by the lane of its word, and behind the last whole block by lane 0;
      no lane scans anything else. */
  lemma ByteInLane(bs: Bytes, i: nat)
    requires i < |bs|
    ensures var blocks := |bs| / 64;
      var k, j := if i < 64 * blocks then i % 64 / 8 else 0, if i < 64 * blocks then i / 64 * 8 + i % 8 else 8 * blocks + (i - 64 * blocks);
      k < 8 && j < |LaneStream(bs, k)| && LaneStream(bs, k)[j] == bs[i]
    ensures forall k :: 0 <= k < 8 ==> |LaneStream(bs, k)| == 8 * (|bs| / 64) + if k == 0 then |bs| % 64 else 0
  {
    forall k | 0 <= k < 8 ensures |LaneStream(bs, k)| == 8 * (|bs| / 64) + if k == 0 then |bs| % 64 else 0 {
      LaneLength(bs, k);
    }
    hide Lane;
    ByteAt(bs, i);
  }

  lemma ByteAt(bs: Bytes, i: nat)
    requires i < |bs|
    requires forall k :: 0 <= k < 8 ==> |LaneStream(bs, k)| == 8 * (|bs| / 64) + if k == 0 then |bs| % 64 else 0
    ensures var blocks := |bs| / 64;
      var k, j := if i < 64 * blocks then i % 64 / 8 else 0, if i < 64 * blocks then i / 64 * 8 + i % 8 else 8 * blocks + (i - 64 * blocks);
      k < 8 && j < |LaneStream(bs, k)| && LaneStream(bs, k)[j] == bs[i]
  {
    hide Lane;
    if i < 64 * (|bs| / 64) {
      BlockByte(bs, i / 64, i % 64 / 8, i % 8);
      assert i == 64 * (i / 64) + 8 * (i % 64 / 8) + i % 8;
    } else {
      LaneLength(bs, 0);
    }
  }

  lemma BlockByte(bs: Bytes, q: nat, k: nat, r: nat)
    requires q < |bs| / 64 && k < 8 && r < 8
    ensures 8 * q + r < |LaneStream(bs, k)| && LaneStream(bs, k)[8 * q + r] == bs[64 * q + 8 * k + r]
  {
    LaneWord(bs, k, q);
    hide Lane;
    assert Lane(bs, k)[8 * q..8 * q + 8][r] == bs[64 * q + 8 * k..64 * q + 8 * k + 8][r];
  }

  /** The registers the eight-lane hash is taken over. */
  function LaneRegisters(bs: Bytes): (r: seq<nat>)
    ensures |r| == 8
  {
    seq(8, k requires 0 <= k < 8 => Run(0, LaneStream(bs, k)))
  }

  /** The scalar kernel: eight chains over 64-byte blocks, then the tail into lane 0 by
      8-, 4-, 2- and 1-byte groups. */
  method SpanScalar(body: Bytes) returns (lanes: seq<nat>)
    ensures lanes == LaneRegisters(body)
  {
    hide Run;
    var len := |body|;
    lanes := seq(8, k => 0);
    var i := 0;
    forall k | 0 <= k < 8 ensures lanes[k] == Run(0, Lane(body[..0], k)) {
      RunNothing(0);
    }
    while i + 64 <= len
      invariant i % 64 == 0 && i <= len && |lanes| == 8
      invariant forall k :: 0 <= k < 8 ==> lanes[k] == Run(0, Lane(body[..i], k))
    {
      forall k | 0 <= k < 8
        ensures Run(lanes[k], body[i + 8 * k..i + 8 * k + 8]) == Run(0, Lane(body[..i + 64], k))
      {
        NextBlock(body, i, k);
        RunAppend(0, Lane(body[..i], k), body[i + 8 * k..i + 8 * k + 8]);
      }
      lanes := seq(8, k requires 0 <= k < 8 => Run(lanes[k], body[i + 8 * k..i + 8 * k + 8]));
      i := i + 64;
    }
    ghost var b := i;
    assert b == 64 * (len / 64);
    forall k | 0 <= k < 8 ensures Lane(body[..b], k) == Lane(body, k) {
      LaneAppendShort(body[..b], body[b..], k);
      assert body[..b] + body[b..] == body;
    }
    var c := lanes[0];
    RunNothing(c);
    assert body[b..i] == [];
    while i + 8 <= len
      invariant b <= i <= len
      invariant c == Run(lanes[0], body[b..i])
    {
      c := Chain(lanes[0], c, body, b, i, 8);
      i := i + 8;
    }
    if i + 4 <= len {
      c := Chain(lanes[0], c, body, b, i, 4);
      i := i + 4;
    }
    if i + 2 <= len {
      c := Chain(lanes[0], c, body, b, i, 2);
      i := i + 2;
    }
    if i < len {
      c := Chain(lanes[0], c, body, b, i, 1);
      i := i + 1;
    }
    assert body[b..i] == body[b..];
    RunAppend(0, Lane(body, 0), body[b..]);
    lanes := lanes[0 := c];
    forall k | 0 <= k < 8 ensures lanes[k] == LaneRegisters(body)[k] {
      if k > 0 { assert LaneStream(body, k) == Lane(body, k); }
    }
  }

  lemma RunNothing(c: nat)
    ensures Run(c, []) == c
  {
  }

  method Chain(ghost c0: nat, c: nat, body: Bytes, ghost b: nat, i: nat, n: nat) returns (r: nat)
    requires b <= i && i + n <= |body| && c == Run(c0, body[b..i])
    ensures r == Run(c0, body[b..i + n])
  {
    r := Run(c, body[i..i + n]);
    RunAppend(c0, body[b..i], body[i..i + n]);
    assert body[b..i + n] == body[b..i] + body[i..i + n];
  }

  lemma NextBlock(body: Bytes, i: nat, k: nat)
    requires k < 8 && i % 64 == 0 && i + 64 <= |body|
    ensures Lane(body[..i + 64], k) == Lane(body[..i], k) + body[i + 8 * k..i + 8 * k + 8]
  {
    var a, b := body[..i], body[i..i + 64];
    LaneAppend(a, b, k);
    assert a + b == body[..i + 64];
    assert b[64..] == [];
    assert b[8 * k..8 * k + 8] == body[i + 8 * k..i + 8 * k + 8];
  }

  lemma LaneAppendShort(a: Bytes, b: Bytes, k: nat)
    requires k < 8 && |a| % 64 == 0 && |b| < 64
    ensures Lane(a + b, k) == Lane(a, k)
  {
    LaneAppend(a, b, k);
  }
}
