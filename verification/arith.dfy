/** Facts about Euclidean division that the framing proofs rely on. */
module Arith {

  /** Quotient and remainder are the only ones that fit. */
  lemma DivModUnique(a: int, d: int, q: int, r: int)
    requires d > 0 && 0 <= r < d && a == d * q + r
    ensures a % d == r && a / d == q
  {
    var q', r' := a / d, a % d;
    var k := q - q';
    assert d * q' + r' == d * q + r;
    assert d * k == r' - r by {
      assert d * k == d * q - d * q';
    }
    assert k == 0;
  }

  lemma ModMinusDivisor(a: int, d: int)
    requires 0 < d <= a
    ensures (a - d) % d == a % d
  {
    DivModUnique(a - d, d, a / d - 1, a % d);
  }

  lemma ModAddMultiple(a: int, d: int, k: int)
    requires d > 0
    ensures (a + d * k) % d == a % d
  {
    DivModUnique(a + d * k, d, a / d + k, a % d);
  }

  /** A positive multiple of `d` is at least `d`. */
  lemma MultipleAtLeastDivisor(a: int, d: int)
    requires d > 0 && a > 0 && a % d == 0
    ensures a >= d
  {
    if a < d {
      DivModUnique(a, d, 0, a);
    }
  }
}
