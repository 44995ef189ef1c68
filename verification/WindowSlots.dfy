// Slot arithmetic of the 1024-slot staging window: within one window, slots and sequence
// numbers are in bijection.
module WindowSlots {
  import opened Modular
  import opened Arbiter
  import opened Bytes

  function Slot(k: nat): (s: nat)
    ensures s < WINDOW
  {
    k % WINDOW
  }

  /** The slot d places further on, wrapping at the end of the ring. */
  lemma SlotAhead(k: nat, d: nat)
    requires d < WINDOW
    ensures Slot(k + d) == if Slot(k) + d < WINDOW then Slot(k) + d else Slot(k) + d - WINDOW
  {
    ModStep(k, d, WINDOW);
  }

  /** Distinct sequence numbers of one window have distinct slots. */
  lemma SlotInjective(j: nat, k: nat)
    requires Slot(j) == Slot(k) && j <= k < j + WINDOW
    ensures j == k
  {
    SlotAhead(j, k - j);
  }

  /** Every slot is some sequence number's in the window from w. */
  lemma SlotOnto(w: nat, k: nat) returns (j: nat)
    ensures w <= j < w + WINDOW && Slot(j) == Slot(k)
  {
    var s, t := Slot(k), Slot(w);
    j := if s >= t then w + (s - t) else w + (s + WINDOW - t);
    SlotAhead(w, j - w);
  }

  // ---- the guard of stage_msg ---------------------------------------------------------------

  /** seq - w in 64 bits. */
  function Offset(w: nat, seqNo: nat): (off: nat)
    ensures off < U64
    ensures w <= seqNo < w + U64 ==> off == seqNo - w
  {
    (seqNo - w) % U64
  }

  /** seq - w - 1 in 64 bits, below 1024. */
  predicate GuardAdmits(w: nat, seqNo: nat) {
    (Offset(w, seqNo) + U64 - 1) % U64 < WINDOW
  }

  /** The number of the window whose slot an admitted message takes: offset 1024 takes the
      watermark's own. */
  function StagedAs(w: nat, seqNo: nat): nat {
    var off := Offset(w, seqNo);
    if off < WINDOW then w + off else w
  }

  /** The guard admits exactly the offsets 1 to 1024. */
  lemma GuardOffsets(w: nat, seqNo: nat)
    ensures GuardAdmits(w, seqNo) <==> 1 <= Offset(w, seqNo) <= 1024
  {
    var off := Offset(w, seqNo);
    var q: int := if off == 0 then 0 else 1;
    ModOf(off + U64 - 1, U64, q, if off == 0 then U64 - 1 else off - 1);
  }

  /** An admitted message takes the slot of its number, which is that of exactly one number of the
      window: itself when it is inside the clamp seq < w + 1024, the watermark at offset 1024. */
  lemma GuardExceedsClamp(w: nat, seqNo: nat)
    requires GuardAdmits(w, seqNo)
    ensures w <= StagedAs(w, seqNo) < w + WINDOW && Slot(StagedAs(w, seqNo)) == Slot(seqNo)
    ensures StagedAs(w, seqNo) == w <==> Offset(w, seqNo) == WINDOW
    ensures w < seqNo < w + WINDOW ==> StagedAs(w, seqNo) == seqNo
  {
    GuardOffsets(w, seqNo);
    var off, q := Offset(w, seqNo), (seqNo - w) / U64;
    assert seqNo == w + off + q * U64;
    WholeLaps(w + off, seqNo, q);
    if off == WINDOW {
      SlotAhead(w, WINDOW - 1);
      SlotAhead(w + (WINDOW - 1), 1);
    }
  }

  /** Numbers that differ by a multiple of 2^64 share a slot. */
  lemma WholeLaps(x: nat, y: nat, q: int)
    requires y == x + q * U64
    ensures Slot(x) == Slot(y)
  {
    var laps: int := 0x40_0000_0000_0000;
    assert U64 == laps * WINDOW;
    var d, r := x / WINDOW, x % WINDOW;
    assert q * U64 == (q * laps) * WINDOW;
    assert y == (d + q * laps) * WINDOW + r;
    ModOf(y, WINDOW, d + q * laps, r);
  }
}
