/**
 Numbers.
 */
module Arithmetic {
  function Bit(b: bool): nat {
    if b then 1 else 0
  }

  lemma Divides(q: nat, r: nat, length: nat)
    requires r < length
    ensures (q * length + r) % length == r && (q * length + r) / length == q
  {
    var k := q * length + r;
    var p, m := k / length, k % length;
    assert (p - q) * length == p * length - q * length == r - m;
    NoMultiple(p - q, length, r - m);
  }

  lemma NoMultiple(d: int, length: nat, x: int)
    requires d * length == x && -x < length && x < length
    ensures d == 0
  {
    AtLeastOnce(d, length);
    AtLeastOnce(-d, length);
  }

  lemma Spread(j: int, k: int, n: int)
    ensures (j + k) * n == j * n + k * n
  {
  }

  /** Whole turns do not change a remainder. */
  lemma WholeTurns(a: nat, w: nat, length: nat)
    requires 0 < length
    ensures a + w * length >= 0 && (a + w * length) % length == a % length
  {
    var q, r := a / length, a % length;
    Spread(q, w, length);
    Divides(q + w, r, length);
  }

  lemma AtLeastOnce(d: int, length: nat)
    ensures d >= 1 ==> d * length >= length
  {
  }
}
