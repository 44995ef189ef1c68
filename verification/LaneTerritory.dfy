// The chunk grid of global positions: two lanes own alternate chunks, and a global position
// projects onto the end of each lane's territory below it.
module LaneTerritory {

  const CHUNK: nat := 512

  predicate InLane(p: nat, lane: nat) {
    (p / CHUNK) % 2 == lane % 2
  }

  function LaneEndAt(s: nat, lane: nat): nat {
    if s == 0 then 0
    else
      var c := (s - 1) / CHUNK;
      if c % 2 == lane % 2 then s else c * CHUNK
  }

  /** The projection is the end of the lane's territory below s: no position of the lane lies
      between it and s, and the position before it is the lane's. */
  lemma LaneEndLaw(s: nat, lane: nat)
    ensures LaneEndAt(s, lane) <= s <= LaneEndAt(s, lane) + CHUNK
    ensures forall p :: LaneEndAt(s, lane) <= p < s ==> !InLane(p, lane)
    ensures LaneEndAt(s, lane) > 0 ==> InLane(LaneEndAt(s, lane) - 1, lane)
  {
    if s > 0 {
      var c := (s - 1) / CHUNK;
      forall p | LaneEndAt(s, lane) <= p < s ensures !InLane(p, lane) {
        assert p / CHUNK == c;
      }
      if c > 0 { assert (c * CHUNK - 1) / CHUNK == c - 1; }
    }
  }

  /** A cursor inside the lane has passed the projection exactly when it has passed s. */
  lemma CursorLaw(p: nat, s: nat, lane: nat)
    requires InLane(p, lane)
    ensures p >= LaneEndAt(s, lane) <==> p >= s
  {
    LaneEndLaw(s, lane);
  }

  lemma LaneEndMonotone(s: nat, t: nat, lane: nat)
    requires s <= t
    ensures LaneEndAt(s, lane) <= LaneEndAt(t, lane)
  {
    LaneEndLaw(s, lane);
    LaneEndLaw(t, lane);
  }

  /** Two positions share a projection exactly when none of the lane's positions lies between. */
  lemma LaneEndShared(s: nat, t: nat, lane: nat)
    requires s <= t
    ensures LaneEndAt(s, lane) == LaneEndAt(t, lane) <==> forall p :: s <= p < t ==> !InLane(p, lane)
  {
    LaneEndLaw(s, lane);
    LaneEndLaw(t, lane);
    LaneEndMonotone(s, t, lane);
    if LaneEndAt(s, lane) < LaneEndAt(t, lane) {
      var p := LaneEndAt(t, lane) - 1;
      assert InLane(p, lane);
    }
  }

  /** The cursor a lane starts from: the projection, moved over the other lane's chunk. */
  function StartAt(s: nat, lane: nat): nat {
    var f := LaneEndAt(s, lane);
    if InLane(f, lane) then f else f + CHUNK
  }

  lemma NewChunk(s: nat)
    requires s > 0 && (s - 1) / CHUNK != s / CHUNK
    ensures s % CHUNK == 0
  {
  }

  /** The start is in the lane, at or past s by less than two chunks, and skips no position of the lane. */
  lemma StartLaw(s: nat, lane: nat)
    ensures var f := StartAt(s, lane); InLane(f, lane) && s <= f <= s + CHUNK
    ensures forall p :: s <= p < StartAt(s, lane) ==> !InLane(p, lane)
  {
    LaneEndLaw(s, lane);
    var e, f := LaneEndAt(s, lane), StartAt(s, lane);
    if f != e {
      assert f / CHUNK == e / CHUNK + 1;
      CursorLaw(f, s, lane);
      if s > 0 && e == s {
        assert InLane(s - 1, lane) && !InLane(s, lane);
        NewChunk(s);
      } else if s > 0 {
        assert e % CHUNK == 0;
      }
      forall p | s <= p < f ensures !InLane(p, lane) {
        assert p / CHUNK == e / CHUNK;
      }
    }
  }
}
