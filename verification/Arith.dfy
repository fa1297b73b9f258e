/** Division facts used by the layouts. */
module Arith {

  lemma Euclid(v: nat, a: nat)
    requires a > 0
    ensures v == a * (v / a) + v % a && 0 <= v % a < a && v / a >= 0
    ensures v % a <= v
  {
    MulNonNeg(a, v / a);
  }

  lemma MulNonNeg(a: nat, b: nat)
    ensures a * b >= 0
  {
  }

  /** The remainder is the only number below `a` that differs from `v` by a multiple of `a`. */
  lemma ModIs(v: nat, a: nat, q: nat, r: nat)
    requires a > 0 && r < a && v == a * q + r
    ensures v % a == r && v / a == q
  {
    Euclid(v, a);
    var d := v / a - q;
    assert a * (v / a) - a * q == a * d by { MulSub(a, v / a, q); }
    if d > 0 {
      MulMono(a, 1, d);
    }
  }

  lemma MulSub(a: int, b: int, c: int)
    ensures a * b - a * c == a * (b - c)
  {
  }

  lemma MulMono(a: nat, b: nat, c: nat)
    requires b <= c
    ensures a * b <= a * c
  {
  }

  lemma MulNext(k: nat, size: nat)
    ensures (k + 1) * size == k * size + size && k * size >= 0
  {
  }

  /** Two multiples of `a` less than `a` apart are equal. */
  lemma MultiplesApart(x: nat, y: nat, a: nat)
    requires a > 0 && x % a == y % a && x < y
    ensures x + a <= y
  {
    Euclid(x, a);
    Euclid(y, a);
    var p, q := x / a, y / a;
    MulSub(a, q, p);
    if q <= p {
      MulMono(a, q, p);
    } else {
      MulMono(a, 1, q - p);
    }
  }

  lemma ModAddMultiple(v: nat, a: nat, k: nat)
    requires a > 0
    ensures (v + a * k) % a == v % a
  {
    Euclid(v, a);
    assert v + a * k == a * (v / a + k) + v % a;
    ModIs(v + a * k, a, v / a + k, v % a);
  }
}
