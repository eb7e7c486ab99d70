/** Integer facts shared by the address arithmetic of several modules. */
module Arith {
  /** Multiplying by a positive number keeps order. */
  lemma MulMono(d: int, a: int, b: int)
    requires d > 0 && a <= b
    ensures d * a <= d * b
  {
    assert d * b - d * a == d * (b - a);
  }

  /** A positive factor can be cancelled from a strict inequality. */
  lemma MulCancel(d: int, a: int, b: int)
    requires d > 0 && d * a < d * b
    ensures a < b
  {
    assert d * (b - a) == d * b - d * a;
  }

  /** A quotient of naturals is a natural. */
  lemma DivNonneg(a: int, d: int)
    requires a >= 0 && d > 0
    ensures a / d >= 0
  {
  }

  /** A positive multiple of `m` is at least `m`. */
  lemma MultipleAbove(x: int, m: int)
    requires m > 0 && x % m == 0 && x > 0
    ensures x >= m
  {
    var q := x / m;
    assert x == m * q;
    if q <= 0 {
      MulMono(m, q, 0);
    } else {
      MulMono(m, 1, q);
    }
  }

  /** The only multiple of `m` in (-m, 0] is 0. */
  lemma MultipleZero(x: int, m: int)
    requires m > 0 && x % m == 0 && -m < x <= 0
    ensures x == 0
  {
    var q := x / m;
    assert x == m * q;
    if q < 0 {
      MulMono(m, q, -1);
    } else if q > 0 {
      MulMono(m, 1, q);
    }
  }

  /** One more of `d`. */
  lemma MulSucc(d: int, q: int)
    ensures d * (q + 1) == d * q + d
  {
  }

  /** Euclidean division is unique: a quotient and remainder in range are the ones `/` and `%` give. */
  lemma DivUnique(x: int, d: int, q: int, r: int)
    requires d > 0 && 0 <= r < d && x == d * q + r
    ensures x / d == q && x % d == r
  {
    var q0, r0 := x / d, x % d;
    assert x == d * q0 + r0;
    assert d * (q0 + 1) == d * q0 + d;
    assert d * (q + 1) == d * q + d;
    MulCancel(d, q0, q + 1);
    MulCancel(d, q, q0 + 1);
  }

  /** Sums and differences of multiples of `m` are multiples of `m`. */
  lemma MultipleSum(x: int, y: int, m: int)
    requires m > 0 && x % m == 0 && y % m == 0
    ensures (x + y) % m == 0 && (x - y) % m == 0
  {
    var a, b := x / m, y / m;
    assert x == m * a && y == m * b;
    assert x + y == m * (a + b);
    assert x - y == m * (a - b);
    DivUnique(x + y, m, a + b, 0);
    DivUnique(x - y, m, a - b, 0);
  }

  /** A multiple of a multiple of `e` is a multiple of `e`. */
  lemma MultipleTrans(x: int, d: int, e: int)
    requires d > 0 && e > 0 && x % d == 0 && d % e == 0
    ensures x % e == 0
  {
    var q, r := x / d, d / e;
    assert x == d * q && d == e * r;
    assert x == e * (r * q);
    DivUnique(x, e, r * q, 0);
  }

  /** Two distinct multiples of `m` are at least `m` apart. */
  lemma MultipleGap(x: int, y: int, m: int)
    requires m > 0 && x % m == 0 && y % m == 0 && x < y
    ensures x + m <= y
  {
    MultipleSum(y, x, m);
    MultipleAbove(y - x, m);
  }
}
