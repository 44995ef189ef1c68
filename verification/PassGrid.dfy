// When two consecutive points of an arithmetic progression fall between lane 1's chunks: the
// progression of pass boundaries against the period of two chunks.
module PassGrid {
  import opened LaneTerritory

  // ---- odd numbers are invertible modulo 1024 ---------------------------------------------------

  /** One Newton step squares the error of an approximate inverse. */
  lemma NewtonStep(m: int, v: int, e: int) returns (v': int)
    requires m * v == 1 + e
    ensures m * v' == 1 - e * e
  {
    v' := v * (2 - (1 + e));
    assert m * v' == (m * v) * (1 - e);
    assert (1 + e) * (1 - e) == 1 - e * e;
  }

  lemma OddInverse(m: nat) returns (v: int, z: int)
    requires m % 2 == 1
    ensures m * v == 1 + 1024 * z
  {
    var j := m / 2;
    assert m == 2 * j + 1;
    EvenProduct(j);
    var t := j * (j + 1) / 2;
    assert m * m == 4 * (j * (j + 1)) + 1;
    assert m * m == 1 + 8 * t;
    var v2 := NewtonStep(m, m, 8 * t);
    var u := t * t;
    assert (8 * t) * (8 * t) == 64 * u;
    var v3 := NewtonStep(m, v2, -64 * u);
    assert (-64 * u) * (-64 * u) == 4096 * (u * u);
    v, z := v3, -4 * (u * u);
  }

  lemma EvenProduct(j: nat)
    ensures j * (j + 1) % 2 == 0
  {
    var h := j / 2;
    if j % 2 == 0 {
      assert j * (j + 1) == 2 * (h * (j + 1));
    } else {
      assert j == 2 * h + 1 && j * (j + 1) == 2 * (j * (h + 1));
    }
  }

  // ---- powers of two ------------------------------------------------------------------------------

  predicate PowerOfTwo(q: nat)
    decreases q
  {
    q == 1 || (q > 1 && q % 2 == 0 && PowerOfTwo(q / 2))
  }

  /** p below a power of two q, with its power of two g taken out: g divides q as well. */
  lemma {:induction false} TakeOutTwos(p: nat, q: nat) returns (g: nat, m: nat, h: nat)
    requires 0 < p < q && PowerOfTwo(q)
    ensures g > 0 && p == g * m && q == g * h && m % 2 == 1
    decreases p
  {
    if p % 2 == 1 {
      g, m, h := 1, p, q;
    } else {
      var g1;
      g1, m, h := TakeOutTwos(p / 2, q / 2);
      g := 2 * g1;
      assert p == 2 * (g1 * m) && q == 2 * (g1 * h);
    }
  }

  // ---- the progression -----------------------------------------------------------------------------

  /** A stretch of step positions from s contains none of lane 1's. */
  ghost predicate Between(s: nat, step: nat) {
    forall p: nat :: s <= p < s + step ==> !InLane(p, 1)
  }

  lemma InsideEvenChunk(s: nat, step: nat, t: nat, x: int)
    requires s == t + 1024 * x && t + step <= CHUNK
    ensures Between(s, step)
  {
    forall p: nat | s <= p < s + step ensures !InLane(p, 1) {
      assert p / CHUNK == 2 * x;
    }
  }

  /** A step shorter than a chunk lands, arbitrarily far out, where its stretch misses lane 1. */
  lemma ShortStepMisses(base: nat, step: nat, far: nat) returns (n: nat)
    requires 0 < step < CHUNK
    ensures n >= far && Between(base + n * step, step)
  {
    hide Between, PowerOfTwo;
    Chunk512();
    var g, m, h := TakeOutTwos(step, CHUNK);
    var v, z := OddInverse(m);
    var b, t := Room(base, step, g, m, h);
    var x: int;
    n, x := Land(base, step, far, g, m, b, t, v, z);
    InsideEvenChunk(base + n * step, step, t, x);
  }

  /** The remainder of the base leaves room for the step in one chunk. */
  lemma Room(base: nat, step: nat, g: nat, m: nat, h: nat) returns (b: nat, t: nat)
    requires g > 0 && step == g * m && CHUNK == g * h && step < CHUNK
    ensures base == g * b + t && t + step <= CHUNK
  {
    Below(g, m, h);
    b, t := base / g, base % g;
  }

  /** With n chosen as -b v modulo 1024, b + n m is a multiple of 1024. */
  lemma Land(base: nat, step: nat, far: nat, g: nat, m: nat, b: nat, t: nat, v: int, z: int) returns (n: nat, x: int)
    requires base == g * b + t && step == g * m && m * v == 1 + 1024 * z
    ensures n >= far && base + n * step == t + 1024 * x
  {
    var k := far + Size(b * v);
    n := 1024 * k - b * v;
    var w := k * m - b * z;
    x := g * w;
    Landing(b, m, v, z, k, n, w);
    Scaled(g, b, n, m, w);
  }

  lemma Scaled(g: int, b: int, n: int, m: int, w: int)
    requires b + n * m == 1024 * w
    ensures g * b + n * (g * m) == 1024 * (g * w)
  {
    assert n * (g * m) == g * (n * m);
    assert g * b + g * (n * m) == g * (b + n * m);
    assert g * (1024 * w) == 1024 * (g * w);
  }

  lemma Landing(b: int, m: int, v: int, z: int, k: int, n: int, w: int)
    requires m * v == 1 + 1024 * z && n == 1024 * k - b * v && w == k * m - b * z
    ensures b + n * m == 1024 * w
  {
    assert (b * v) * m == b * (m * v);
    assert b * (m * v) == b + 1024 * (b * z);
    assert n * m == 1024 * (k * m) - (b * v) * m;
  }

  function Size(x: int): (s: nat)
    ensures 1024 * s >= x && 1024 * s >= -x
  {
    if x >= 0 then x else -x
  }

  lemma Chunk512()
    ensures PowerOfTwo(CHUNK)
  {
    assert PowerOfTwo(1) && PowerOfTwo(2) && PowerOfTwo(4) && PowerOfTwo(8) && PowerOfTwo(16);
    assert PowerOfTwo(32) && PowerOfTwo(64) && PowerOfTwo(128) && PowerOfTwo(256);
  }

  lemma Below(g: nat, m: nat, h: nat)
    requires g > 0 && g * m < g * h
    ensures g * m + g <= g * h
  {
    var d := h - m;
    assert g * d == g * h - g * m;
    if d <= 0 { NonPositive(g, d); }
    assert g * d == g * (d - 1) + g;
    NonNegative(g, d - 1);
  }

  lemma NonPositive(g: nat, d: int)
    requires d <= 0
    ensures g * d <= 0
  {
  }

  lemma NonNegative(g: nat, d: int)
    requires d >= 0
    ensures g * d >= 0
  {
  }

  /** A step of one chunk from an aligned base misses lane 1 every second time. */
  lemma AlignedStepMisses(base: nat, far: nat) returns (n: nat)
    requires base % CHUNK == 0
    ensures n >= far && Between(base + n * CHUNK, CHUNK)
  {
    var b := base / CHUNK;
    n := if (b + far) % 2 == 0 then far else far + 1;
    var x := (b + n) / 2;
    assert base + n * CHUNK == CHUNK * (b + n) == 1024 * x;
    InsideEvenChunk(base + n * CHUNK, CHUNK, 0, x);
  }

  /** A longer step never misses lane 1, and a step of one chunk does not from an unaligned base. */
  lemma LongStepMeets(s: nat, step: nat)
    requires step > CHUNK || (step == CHUNK && s % CHUNK != 0)
    ensures !Between(s, step)
  {
    var c, o := s / CHUNK, s % CHUNK;
    var p := if c % 2 == 1 then s else (c + 1) * CHUNK;
    assert p / CHUNK == if c % 2 == 1 then c else c + 1;
    assert s <= p < s + step && InLane(p, 1);
  }
}
