/** Small facts about integer multiplication and Euclidean division that the
    solver does not find on its own once several products are in play. */
module IntArith {

  /** The sign of a product with a positive factor. */
  lemma MulSign(d: int, m: int)
    requires d > 0
    ensures m >= 1 ==> d * m >= d
    ensures m <= 0 ==> d * m <= 0
    ensures m >= 0 ==> d * m >= 0
    ensures m <= -1 ==> d * m <= -d
  {
    if m >= 1 {
      assert d * m == d + d * (m - 1);
    } else if m <= -1 {
      assert d * m == -d + d * (m + 1);
    }
  }

  /** Multiplying by a non-negative factor preserves order. */
  lemma MulMono(x: int, y: int, p: int)
    requires x <= y && p >= 0
    ensures x * p <= y * p
  {
    assert y * p - x * p == (y - x) * p;
  }

  /** Quotient and remainder are unique: (w*b + d) div b = w and mod b = d. */
  lemma DivUnique(w: int, b: int, d: int)
    requires b > 0 && 0 <= d < b
    ensures (w * b + d) / b == w && (w * b + d) % b == d
  {
    var v := w * b + d;
    var q, r := v / b, v % b;
    assert b * (w - q) == r - d;
    MulSign(b, w - q);
  }

  /** The quotient times the divisor is at most v and within one divisor of
      it, the remainder making up the difference. */
  lemma DivBounds(v: int, p: int)
    requires p > 0
    ensures v == (v / p) * p + v % p
    ensures (v / p) * p <= v < (v / p) * p + p
    ensures v >= 0 ==> v / p >= 0
  {
    assert v == p * (v / p) + v % p;
    MulSign(p, v / p);
  }

  /** A multiple of d leaves no remainder, and dividing it by d gives the factor back. */
  lemma MultipleMod(d: int, k: int)
    requires d > 0
    ensures (d * k) % d == 0 && (d * k) / d == k
  {
    DivUnique(k, d, 0);
    assert k * d + 0 == d * k;
  }

  /** A positive factor can be cancelled. */
  lemma MulCancel(g: int, a: int, b: int)
    requires g > 0 && g * a == g * b
    ensures a == b
  {
    MulSign(g, a - b);
    MulSign(g, b - a);
  }

  /** Division by b >= 2 of a number at least b leaves a smaller, positive quotient. */
  lemma DivStep(v: int, b: int)
    requires b >= 2 && v >= b
    ensures 1 <= v / b < v
  {
    var q := v / b;
    assert v == b * q + v % b;
    MulSign(b, q);
    MulSign(b, q - 1);
  }
}
