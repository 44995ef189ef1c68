// The shared leaf ring: one producer pushes behind a gate, one consumer reads and retires.
module LeafRing {
  import opened Modular

  const J1_CAP: nat := 8192
  const J1_HEADROOM: nat := 1024

  datatype Leaf = Leaf(k: nat, b: nat, end: nat)

  function SlotOf(i: nat): (s: nat)
    ensures s < J1_CAP
  {
    i % J1_CAP
  }

  /** Indices less than a lap apart never share a slot. */
  lemma SlotsDiffer(i: nat, j: nat)
    requires i < j < i + J1_CAP
    ensures SlotOf(i) != SlotOf(j)
  {
    ModStep(i, j - i, J1_CAP);
  }

  /** The ring holds the leaves with indices from lo up to the number pushed. */
  ghost predicate Holds(ring: seq<Leaf>, pushed: seq<Leaf>, lo: nat) {
    |ring| == J1_CAP && lo <= |pushed| && forall i: nat :: lo <= i < |pushed| ==> ring[SlotOf(i)] == pushed[i]
  }

  /** Writing the next leaf overwrites none that is still held, as long as the ring is not full. */
  lemma PushHolds(ring: seq<Leaf>, pushed: seq<Leaf>, lo: nat, leaf: Leaf)
    requires Holds(ring, pushed, lo) && |pushed| - lo < J1_CAP
    ensures Holds(ring[SlotOf(|pushed|) := leaf], pushed + [leaf], lo)
  {
    forall i: nat | lo <= i < |pushed| ensures SlotOf(i) != SlotOf(|pushed|) {
      SlotsDiffer(i, |pushed|);
    }
  }

  class SharedLeafRing {
    const slots: array<Leaf>
    var len: nat
    var consumed: nat
    /** Every leaf ever pushed. */
    ghost var pushed: seq<Leaf>

    ghost predicate Valid()
      reads this, slots
    {
      slots.Length == J1_CAP && len == |pushed| && Holds(slots[..], pushed, consumed)
    }

    /** What the consumer may still read. */
    ghost function Unread(): seq<Leaf>
      requires Valid()
      reads this, slots
    {
      pushed[consumed..]
    }

    constructor ()
      ensures Valid() && Unread() == [] && pushed == [] && fresh(slots)
    {
      slots := new Leaf[J1_CAP](_ => Leaf(0, 0, 0));
      len, consumed, pushed := 0, 0, [];
    }

    /** The push gate's question. */
    method MayPush() returns (ok: bool)
      requires Valid()
      ensures ok <==> |Unread()| <= 7168
    {
      ok := len - consumed <= J1_CAP - J1_HEADROOM;
    }

    method Push(leaf: Leaf)
      requires Valid() && |Unread()| <= J1_CAP - J1_HEADROOM
      modifies this`len, this`pushed, slots
      ensures Valid() && pushed == old(pushed) + [leaf] && Unread() == old(Unread()) + [leaf]
    {
      PushHolds(slots[..], pushed, consumed, leaf);
      hide Holds, SlotOf;
      ghost var was := slots[..];
      slots[SlotOf(len)] := leaf;
      assert slots[..] == was[SlotOf(len) := leaf];
      pushed := pushed + [leaf];
      len := len + 1;
    }

    method Retire(upto: nat)
      requires Valid() && consumed <= upto <= len
      modifies this`consumed
      ensures Valid() && pushed == old(pushed) && Unread() == old(Unread())[upto - old(consumed)..]
    {
      consumed := upto;
    }

    method ReadLeaf(i: nat) returns (leaf: Leaf)
      requires Valid() && consumed <= i < len
      ensures leaf == Unread()[i - consumed]
    {
      leaf := slots[SlotOf(i)];
    }

    /** A window of less than a lap, as the at most two array segments it occupies. */
    method RunSegments(lo: nat, hi: nat) returns (first: seq<Leaf>, second: seq<Leaf>)
      requires Valid() && consumed <= lo <= hi <= len && hi - lo <= J1_CAP
      ensures first + second == pushed[lo..hi]
    {
      var n := hi - lo;
      var start := SlotOf(lo);
      var head := if J1_CAP - start < n then J1_CAP - start else n;
      first, second := slots[start..start + head], slots[..n - head];
      forall d: nat | d < n ensures (first + second)[d] == pushed[lo + d] {
        if d < J1_CAP { ModStep(lo, d, J1_CAP); }
        assert slots[..][SlotOf(lo + d)] == pushed[lo + d];
      }
    }
  }
}
