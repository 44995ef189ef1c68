// Slicing a message-block stream: the plain length-prefix walk, the 64-byte window
// slicer with its direct and table paths, and the batching iterator over it.
module SpecSlicer {
  import opened Bytes
  import opened Mold

  const CAP := 16
  const SLICE_WINDOW := 64

  datatype SpecMsg = SpecMsg(off: nat, len: nat)

  /** Length field of the header at position p. */
  function LenAt(buf: Bytes, p: nat): (n: nat)
    requires p + 2 <= |buf|
    ensures n < 0x1_0000
  {
    Be16(buf[p], buf[p + 1])
  }

  /** The reference walk: one length prefix at a time, stopping at the first truncated block. */
  function RefWalk(buf: Bytes, p: nat): seq<SpecMsg>
    decreases |buf| - p
  {
    if p + 2 > |buf| || p + 2 + LenAt(buf, p) > |buf| then []
    else [SpecMsg(p + 2, LenAt(buf, p))] + RefWalk(buf, p + 2 + LenAt(buf, p))
  }

  lemma WalkTruncated(buf: Bytes, p: nat)
    requires p + 2 > |buf| || p + 2 + LenAt(buf, p) > |buf|
    ensures RefWalk(buf, p) == []
  {
  }

  // ---- one window ---------------------------------------------------------------------

  /** What one window call has produced: the walk from the start offset is these messages followed
      by the walk from the next header. */
  ghost predicate Sliced(buf: Bytes, base: nat, start: nat, p: nat, msgs: seq<SpecMsg>) {
    && (p == start <==> msgs == [])
    && (p == start || start < p <= |buf| - base)
    && RefWalk(buf, base + start) == Rebase(msgs, base) + RefWalk(buf, base + p)
  }

  /** Chunk-relative offsets made stream-relative. */
  function Rebase(msgs: seq<SpecMsg>, base: nat): (r: seq<SpecMsg>)
    ensures |r| == |msgs|
  {
    seq(|msgs|, i requires 0 <= i < |msgs| => SpecMsg(msgs[i].off + base, msgs[i].len))
  }

  lemma SliceOne(buf: Bytes, base: nat, start: nat, p: nat, msgs: seq<SpecMsg>, l: nat)
    requires Sliced(buf, base, start, p, msgs)
    requires base + p + 2 <= |buf| && l == LenAt(buf, base + p) && base + p + 2 + l <= |buf|
    ensures Sliced(buf, base, start, p + 2 + l, msgs + [SpecMsg(p + 2, l)])
  {
    var m := SpecMsg(p + 2, l);
    assert Rebase(msgs + [m], base) == Rebase(msgs, base) + [SpecMsg(p + 2 + base, l)];
    assert RefWalk(buf, base + p) == [SpecMsg(base + p + 2, l)] + RefWalk(buf, base + p + 2 + l);
  }

  /** Window byte, zero past the window's end (the table builder's padding). */
  function Padded(chunk: Bytes, i: nat): Byte {
    if i < |chunk| then chunk[i] else 0
  }

  /** Big-endian pairs at even and at odd offsets: the contract of the table builder. */
  function EvenTable(chunk: Bytes): seq<nat> {
    seq(32, j requires 0 <= j < 32 => Be16(Padded(chunk, 2 * j), Padded(chunk, 2 * j + 1)))
  }

  function OddTable(chunk: Bytes): seq<nat> {
    seq(32, j requires 0 <= j < 32 => Be16(Padded(chunk, 2 * j + 1), Padded(chunk, 2 * j + 2)))
  }

  /** A table entry whose two bytes are real is the header at that position. */
  lemma TableEntry(buf: Bytes, base: nat, n: nat, p: nat)
    requires p + 2 <= n <= SLICE_WINDOW && base + n <= |buf|
    ensures (if p % 2 == 0 then EvenTable(buf[base..base + n])[p / 2] else OddTable(buf[base..base + n])[p / 2])
         == LenAt(buf, base + p)
  {
    var j := p / 2;
    assert p == if p % 2 == 0 then 2 * j else 2 * j + 1;
  }

  /** The walk over the two tables. It stops only at the cap, where the window holds no further whole
      header, or at a truncated block. */
  method SpecSliceWalk(eTab: seq<nat>, oTab: seq<nat>, n: nat, start: nat, limit: nat, out: array<SpecMsg>,
                       ghost buf: Bytes, ghost base: nat)
    returns (count: nat, p: nat)
    requires out.Length == CAP && n <= SLICE_WINDOW
    requires base + limit == |buf| && n <= limit
    requires n == limit || n == SLICE_WINDOW
    requires eTab == EvenTable(buf[base..base + n]) && oTab == OddTable(buf[base..base + n])
    modifies out
    ensures count <= CAP && Sliced(buf, base, start, p, out[..count])
    ensures count == CAP || p + 2 > n || RefWalk(buf, base + p) == []
    ensures count == 0 && (n == limit || start + 2 <= n) ==> RefWalk(buf, base + start) == []
  {
    count, p := 0, start;
    assert Rebase(out[..0], base) == [];
    assert Sliced(buf, base, start, p, out[..0]);
    hide EvenTable, OddTable, RefWalk, Sliced;
    while count < CAP && p + 2 <= n
      invariant count <= CAP && Sliced(buf, base, start, p, out[..count])
      decreases CAP - count
    {
      TableEntry(buf, base, n, p);
      var l := if p % 2 == 0 then eTab[p / 2] else oTab[p / 2];
      if p + 2 + l > limit {
        WalkTruncated(buf, base + p);
        break;
      }
      ghost var prev := out[..count];
      out[count] := SpecMsg(p + 2, l);
      SliceOne(buf, base, start, p, prev, l);
      assert out[..count + 1] == prev + [SpecMsg(p + 2, l)];
      count := count + 1;
      p := p + 2 + l;
    }
  }

  /** The direct walk: headers read from the window itself; a window of fewer than two bytes
      and the table path are dispatched first. It stops where the walk over the tables does. */
  method SpecSlice512(chunk: Bytes, start: nat, limit: nat, out: array<SpecMsg>, tables: bool,
                      ghost buf: Bytes, ghost base: nat)
    returns (count: nat, p: nat)
    requires out.Length == CAP && |chunk| <= SLICE_WINDOW
    requires base + limit == |buf| && |chunk| <= limit
    requires |chunk| == limit || |chunk| == SLICE_WINDOW
    requires chunk == buf[base..base + |chunk|]
    modifies out
    ensures count <= CAP && Sliced(buf, base, start, p, out[..count])
    ensures count == CAP || p + 2 > |chunk| || RefWalk(buf, base + p) == []
    ensures count == 0 && (|chunk| == limit || start + 2 <= |chunk|) ==> RefWalk(buf, base + start) == []
  {
    var n := |chunk|;
    count, p := 0, start;
    assert Rebase(out[..0], base) == [];
    if n < 2 {
      return;
    }
    if tables {
      count, p := SpecSliceWalk(EvenTable(chunk), OddTable(chunk), n, p, limit, out, buf, base);
      return;
    }
    while count < CAP && p + 2 <= n
      invariant count <= CAP && Sliced(buf, base, start, p, out[..count])
      decreases CAP - count
    {
      var l := Be16(chunk[p], chunk[p + 1]);
      assert l == LenAt(buf, base + p);
      if p + 2 + l > limit {
        WalkTruncated(buf, base + p);
        break;
      }
      ghost var prev := out[..count];
      out[count] := SpecMsg(p + 2, l);
      SliceOne(buf, base, start, p, prev, l);
      assert out[..count + 1] == prev + [SpecMsg(p + 2, l)];
      count := count + 1;
      p := p + 2 + l;
    }
  }

  /** Chunk-relative offsets to stream-relative ones, in place. */
  method Absolutise(batch: array<SpecMsg>, count: nat, base: nat)
    requires count <= batch.Length
    modifies batch
    ensures batch[..count] == Rebase(old(batch[..count]), base)
  {
    for k := 0 to count
      invariant forall j :: 0 <= j < k ==> batch[j] == SpecMsg(old(batch[j]).off + base, old(batch[j]).len)
      invariant forall j :: k <= j < count ==> batch[j] == old(batch[j])
    {
      batch[k] := SpecMsg(batch[k].off + base, batch[k].len);
    }
  }

  // ---- the iterator ---------------------------------------------------------------------

  class SpecSliceIter {
    const buf: Bytes
    const tables: bool
    const batch: array<SpecMsg>
    var pos: nat
    var n: nat
    var i: nat
    var done: bool

    ghost predicate Valid()
      reads this, batch
    {
      && batch.Length == CAP
      && i <= n <= CAP
      && pos <= |buf|
      && (done ==> RefWalk(buf, pos) == [])
    }

    /** The messages still to be yielded. */
    ghost function Remaining(): seq<SpecMsg>
      requires Valid()
      reads this, batch
    {
      batch[i..n] + RefWalk(buf, pos)
    }

    constructor (payload: Bytes, tables: bool)
      ensures Valid() && fresh(batch)
      ensures Remaining() == RefWalk(payload, 0)
    {
      buf, this.tables := payload, tables;
      batch := new SpecMsg[CAP](_ => SpecMsg(0, 0));
      pos, n, i := 0, 0, 0;
      done := payload == [];
    }

    /** Fill the batch if it is spent; true when a message is available. */
    method Refill() returns (available: bool)
      requires Valid()
      modifies this, batch
      ensures Valid() && Remaining() == old(Remaining())
      ensures available <==> i < n
      ensures !available ==> Remaining() == []
    {
      hide RefWalk;
      while true
        invariant Valid() && Remaining() == old(Remaining())
        decreases |buf| - pos, if i < n then 0 else 1
      {
        if i < n {
          return true;
        }
        if done || pos >= |buf| {
          if pos >= |buf| { WalkTruncated(buf, pos); }
          done := true;
          return false;
        }
        var base := pos;
        var rem := |buf| - base;
        var wlen := if rem < SLICE_WINDOW then rem else SLICE_WINDOW;
        var chunk := buf[base..base + wlen];
        var count, pFinal := SpecSlice512(chunk, 0, rem, batch, tables, buf, base);
        Absolutise(batch, count, base);
        n, i := count, 0;
        pos := pos + pFinal;
        if pFinal == 0 {
          n := 0;
          done := true;
          return false;
        }
      }
      assert false;
    }

    /** The next message of the walk, or none when the walk has ended. */
    method Next() returns (m: Option<SpecMsg>)
      requires Valid()
      modifies this, batch
      ensures Valid()
      ensures old(Remaining()) == [] ==> m == None && Remaining() == []
      ensures old(Remaining()) != [] ==> m == Some(old(Remaining())[0]) && Remaining() == old(Remaining())[1..]
    {
      if i >= n {
        var available := Refill();
        if !available {
          return None;
        }
      }
      m := Some(batch[i]);
      i := i + 1;
    }
  }

  /** Draining the iterator terminates and yields exactly the reference walk, on any bytes. */
  method SliceAll(payload: Bytes, tables: bool) returns (msgs: seq<SpecMsg>)
    ensures msgs == RefWalk(payload, 0)
  {
    hide RefWalk;
    var it := new SpecSliceIter(payload, tables);
    msgs := [];
    while true
      invariant it.Valid() && fresh(it) && fresh(it.batch)
      invariant msgs + it.Remaining() == RefWalk(payload, 0)
      decreases |it.Remaining()|
    {
      var m := it.Next();
      match m {
        case None => break;
        case Some(x) => msgs := msgs + [x];
      }
    }
  }

  // ---- the walk itself -------------------------------------------------------------------

  /** Where the walk ends. */
  function WalkEnd(buf: Bytes, p: nat): nat {
    var w := RefWalk(buf, p);
    if w == [] then p else w[|w| - 1].off + w[|w| - 1].len
  }

  /** The walk stops only where no complete block follows. */
  lemma {:induction false} WalkStops(buf: Bytes, p: nat)
    requires p <= |buf|
    ensures var e := WalkEnd(buf, p);
      && p <= e <= |buf| && RefWalk(buf, e) == []
      && (e + 2 > |buf| || e + 2 + 256 * (buf[e] as int) + buf[e + 1] as int > |buf|)
    decreases |buf| - p
  {
    if RefWalk(buf, p) != [] {
      var q := p + 2 + LenAt(buf, p);
      WalkStops(buf, q);
      assert WalkEnd(buf, q) == WalkEnd(buf, p);
    }
  }

  /** Messages are back to back, each one's length the value of the header before it. */
  lemma {:induction false} WalkTiles(buf: Bytes, p: nat, i: nat)
    requires p <= |buf| && i < |RefWalk(buf, p)|
    ensures var w := RefWalk(buf, p);
      && w[i].off >= 2 && w[i].off + w[i].len <= |buf|
      && w[i].len == 256 * (buf[w[i].off - 2] as int) + buf[w[i].off - 1] as int
      && w[i].off == 2 + if i == 0 then p else w[i - 1].off + w[i - 1].len
    decreases i
  {
    var q := p + 2 + LenAt(buf, p);
    assert RefWalk(buf, p)[1..] == RefWalk(buf, q);
    if i > 0 { WalkTiles(buf, q, i - 1); }
  }
}
