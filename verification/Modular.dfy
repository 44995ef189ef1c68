// Remainders by explicit quotients.
module Modular {

  lemma ModOf(a: int, t: nat, q: int, r: nat)
    requires t > 0 && r < t && a == q * t + r
    ensures a % t == r
  {
    var p, s := a / t, a % t;
    assert a == p * t + s;
    var d := p - q;
    assert d * t == r - s by { assert d * t == p * t - q * t; }
    if d != 0 {
      Far(d, t);
    }
  }

  /** A nonzero multiple of t is at least t away from zero. */
  lemma Far(d: int, t: nat)
    requires d != 0
    ensures d * t >= t || -(d * t) >= t
  {
    if d > 0 {
      assert d * t == (d - 1) * t + t;
      assert (d - 1) * t >= 0;
    } else {
      assert -(d * t) == (-d - 1) * t + t;
      assert (-d - 1) * t >= 0;
    }
  }

  /** Reducing a summand first does not change the remainder of the sum. */
  lemma ModAdd(x: nat, y: nat, m: nat)
    requires m > 0
    ensures (x % m + y) % m == (x + y) % m
  {
    var qx, z := x / m, x % m + y;
    var q, r := z / m, z % m;
    assert x == qx * m + x % m;
    assert z == q * m + r;
    assert (qx + q) * m == qx * m + q * m;
    ModOf(x + y, m, qx + q, r);
  }

  /** Adding d < m either stays below m or wraps once. */
  lemma ModStep(a: nat, d: nat, m: nat)
    requires d < m
    ensures (a + d) % m == if a % m + d < m then a % m + d else a % m + d - m
  {
    var q, r := a / m, a % m;
    assert a == q * m + r;
    if r + d < m {
      ModOf(a + d, m, q, r + d);
    } else {
      assert (q + 1) * m == q * m + m;
      ModOf(a + d, m, q + 1, r + d - m);
    }
  }
}
