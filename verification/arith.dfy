/** Integer facts shared by the direction cursor and the counter width. */
module Arith {

  /** A non-zero multiple of a positive d is at least d away from 0. */
  lemma MultipleBound(d: int, x: int)
    requires d > 0
    ensures x >= 1 ==> d * x >= d
    ensures x <= -1 ==> d * x <= -d
  {
    assert d * x == d + d * (x - 1);
    assert d * x == -d + d * (x + 1);
  }

  /** A multiple of m leaves no remainder. */
  lemma MultipleIsDivisible(m: int, q: int)
    requires m > 0
    ensures (m * q) % m == 0
  {
    var q', r := (m * q) / m, (m * q) % m;
    assert m * (q - q') == r;
    MultipleBound(m, q - q');
  }
}
