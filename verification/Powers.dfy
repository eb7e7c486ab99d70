/**
 * Powers of two and the bit scans both allocators build on: the power of
 * two of an exponent, the base-2 logarithm, `leading_zeros`,
 * `trailing_zeros`, the bitwise or, and the helpers `fast_non0_log2`,
 * `fast_non0_prev_pow2` and `fast_non0_next_pow2`, all on unbounded
 * naturals that the callers keep below 2^64.
 */
module Powers {
  import Arith

  /** 2^64: one more than the largest `u64`. */
  const U64_LIMIT: nat := 0x1_0000_0000_0000_0000

  function Pow2(k: nat): (r: nat)
    ensures r >= 1
  {
    if k == 0 then 1 else 2 * Pow2(k - 1)
  }

  lemma {:induction false} Pow2Add(a: nat, b: nat)
    ensures Pow2(a + b) == Pow2(a) * Pow2(b)
    decreases a
  {
    if a > 0 {
      Pow2Add(a - 1, b);
      assert Pow2(a + b) == 2 * Pow2(a - 1 + b);
    }
  }

  lemma {:induction false} Pow2Mono(a: nat, b: nat)
    requires a <= b
    ensures Pow2(a) <= Pow2(b)
    decreases b
  {
    if a < b {
      Pow2Mono(a, b - 1);
    }
  }

  /** Powers of two are ordered as their exponents are. */
  lemma Pow2Order(a: nat, b: nat)
    ensures Pow2(a) <= Pow2(b) <==> a <= b
  {
    if a <= b {
      Pow2Mono(a, b);
    } else {
      Pow2Mono(b + 1, a);
      assert Pow2(b + 1) == 2 * Pow2(b);
    }
  }

  /** Powers below a common exponent are ordered opposite to what is taken off it. */
  lemma Pow2BelowOrder(e: nat, j: nat, g: nat)
    requires j <= e && g <= e
    ensures Pow2(e - j) >= Pow2(e - g) <==> j <= g
  {
    Pow2Order(e - g, e - j);
  }

  /** `x >> n`: n halvings, rounding down. */
  function Shr(x: nat, n: nat): nat {
    if n == 0 then x else Shr(x, n - 1) / 2
  }

  /** Shifting right by n divides by 2^n. */
  lemma {:induction false} ShrDiv(x: nat, n: nat)
    ensures Shr(x, n) == x / Pow2(n)
    decreases n
  {
    if n > 0 {
      ShrDiv(x, n - 1);
      var d := Pow2(n - 1);
      var q, r := x / d, x % d;
      assert x == d * q + r;
      assert q == 2 * (q / 2) + q % 2;
      assert d * q == (2 * d) * (q / 2) + d * (q % 2);
      assert 0 <= d * (q % 2) <= d;
      Arith.DivUnique(x, 2 * d, q / 2, d * (q % 2) + r);
    }
  }

  /** Shifting a power of two right lowers its exponent. */
  lemma {:induction false} ShrPow2(p: nat, g: nat)
    requires g <= p
    ensures Shr(Pow2(p), g) == Pow2(p - g)
    decreases g
  {
    if g > 0 {
      ShrPow2(p, g - 1);
      assert Pow2(p - g + 1) == 2 * Pow2(p - g);
    }
  }

  /** 2^64, unfolded once and for all. */
  lemma Pow2Of64()
    ensures Pow2(16) == 0x1_0000
    ensures Pow2(32) == 0x1_0000_0000
    ensures Pow2(48) == 0x1_0000_0000_0000
    ensures Pow2(63) == 0x8000_0000_0000_0000
    ensures Pow2(64) == U64_LIMIT
  {
    assert Pow2(8) == 0x100;
    Pow2Add(8, 8);
    Pow2Add(16, 16);
    Pow2Add(32, 16);
    Pow2Add(48, 15);
    assert Pow2(15) == 0x8000;
    assert Pow2(64) == 2 * Pow2(63);
  }

  /** The base-2 logarithm, rounded down. */
  function Log2(v: nat): nat
    requires v > 0
  {
    if v == 1 then 0 else Log2(v / 2) + 1
  }

  /** The logarithm brackets its argument between two powers of two. */
  lemma {:induction false} Log2Bounds(v: nat)
    requires v > 0
    ensures Pow2(Log2(v)) <= v < Pow2(Log2(v) + 1)
    decreases v
  {
    if v > 1 {
      Log2Bounds(v / 2);
    }
  }

  /** The exponent that brackets `v` is its logarithm. */
  lemma Log2Unique(v: nat, k: nat)
    requires Pow2(k) <= v < Pow2(k + 1)
    ensures Log2(v) == k
  {
    var l := Log2(v);
    Log2Bounds(v);
    if l < k {
      Pow2Mono(l + 1, k);
    } else if l > k {
      Pow2Mono(k + 1, l);
    }
  }

  lemma Log2Pow2(k: nat)
    ensures Log2(Pow2(k)) == k
  {
    Log2Unique(Pow2(k), k);
  }

  /** The logarithm is monotonic. */
  lemma Log2Mono(a: nat, b: nat)
    requires 0 < a <= b
    ensures Log2(a) <= Log2(b)
  {
    if Log2(a) > Log2(b) {
      Pow2Mono(Log2(b) + 1, Log2(a));
    }
  }

  /** A value below 2^n has a logarithm below n. */
  lemma Log2Below(v: nat, n: nat)
    requires 0 < v < Pow2(n)
    ensures Log2(v) < n
  {
    if Log2(v) >= n {
      Pow2Mono(n, Log2(v));
    }
  }

  /** `is_power_of_two`: exactly one bit is set. */
  predicate IsPow2(v: nat) {
    v > 0 && Pow2(Log2(v)) == v
  }

  lemma Pow2IsPow2(k: nat)
    ensures IsPow2(Pow2(k))
  {
    Log2Pow2(k);
  }

  /** `leading_zeros` of a `u64`. */
  function LeadingZeros(v: nat): (r: nat)
    requires v < U64_LIMIT
    ensures r <= 64
    ensures v > 0 ==> r == 63 - Log2(v)
  {
    if v == 0 then 64
    else
      Pow2Of64();
      Log2Below(v, 64);
      63 - Log2(v)
  }

  /**
   * `fast_non0_log2`: `63 ^ leading_zeros`, which for a count of at most 63
   * is `63 - leading_zeros`, the position of the highest set bit.
   */
  function FastLog2(v: nat): nat
    requires 0 < v < U64_LIMIT
  {
    63 - LeadingZeros(v)
  }

  /** The highest set bit is the logarithm: it brackets `v` between two powers of two. */
  lemma FastLog2Bounds(v: nat)
    requires 0 < v < U64_LIMIT
    ensures FastLog2(v) == Log2(v)
    ensures Pow2(FastLog2(v)) <= v < Pow2(FastLog2(v) + 1)
  {
    Log2Bounds(v);
  }

  /** `fast_non0_prev_pow2`: the power of two of the highest set bit. */
  function PrevPow2(v: nat): (r: nat)
    requires 0 < v < U64_LIMIT
  {
    Pow2(FastLog2(v))
  }

  /** The previous power of two is a power of two at most `v`, and more than half of it. */
  lemma PrevPow2Bounds(v: nat)
    requires 0 < v < U64_LIMIT
    ensures IsPow2(PrevPow2(v)) && PrevPow2(v) <= v < 2 * PrevPow2(v)
  {
    FastLog2Bounds(v);
    Pow2IsPow2(FastLog2(v));
  }

  /** The previous power of two of a power of two is itself. */
  lemma PrevPow2OfPow2(v: nat)
    requires IsPow2(v) && v < U64_LIMIT
    ensures PrevPow2(v) == v
  {
    Log2Unique(v, Log2(v));
  }

  /**
   * `fast_non0_next_pow2`: `1 << (64 - (v - 1).leading_zeros())`. Above
   * 2^63 the shift is by 64 and overflows, as `next_power_of_two` does, so
   * `v` is at most 2^63; every caller keeps to that.
   */
  function NextPow2(v: nat): (r: nat)
    requires 0 < v <= 0x8000_0000_0000_0000
  {
    Pow2(64 - LeadingZeros(v - 1))
  }

  /** The next power of two is a power of two at least `v`, and less than twice it. */
  lemma NextPow2Bounds(v: nat)
    requires 0 < v <= 0x8000_0000_0000_0000
    ensures IsPow2(NextPow2(v)) && v <= NextPow2(v) < 2 * v
  {
    Pow2IsPow2(64 - LeadingZeros(v - 1));
    if v > 1 {
      var e := Log2(v - 1);
      Log2Bounds(v - 1);
      assert 64 - LeadingZeros(v - 1) == e + 1;
      assert Pow2(e + 1) == 2 * Pow2(e);
    }
  }

  /** For `v` of at least 2, the next power of two is 2 to the logarithm of `v - 1`, plus one. */
  lemma NextPow2Log(v: nat)
    requires 1 < v <= 0x8000_0000_0000_0000
    ensures NextPow2(v) == Pow2(Log2(v - 1) + 1)
  {
  }

  /** The smallest power of two at least `v` is the next power of two. */
  lemma NextPow2Least(v: nat, k: nat)
    requires 0 < v <= 0x8000_0000_0000_0000 && v <= Pow2(k)
    ensures NextPow2(v) <= Pow2(k)
  {
    if v > 1 {
      NextPow2Log(v);
      Log2Below(v - 1, k);
      Pow2Mono(Log2(v - 1) + 1, k);
    }
  }

  /** `|` on naturals, bit by bit from the lowest. */
  function Or(a: nat, b: nat): nat
    decreases a + b
  {
    if a == 0 && b == 0 then 0
    else 2 * Or(a / 2, b / 2) + (if a % 2 == 1 || b % 2 == 1 then 1 else 0)
  }

  /** The or of two numbers is at least each of them, and below any power of two both are below. */
  lemma {:induction false} OrBounds(a: nat, b: nat, n: nat)
    ensures a <= Or(a, b) && b <= Or(a, b)
    ensures a < Pow2(n) && b < Pow2(n) ==> Or(a, b) < Pow2(n)
    decreases a + b
  {
    if a != 0 || b != 0 {
      if n > 0 {
        OrBounds(a / 2, b / 2, n - 1);
      } else {
        OrBounds(a / 2, b / 2, 0);
      }
    }
  }

  function Max(a: nat, b: nat): nat {
    if a >= b then a else b
  }

  /** The highest set bit of the or of three powers of two is the largest of them. */
  lemma OrOfPowers(p: nat, q: nat, r: nat)
    requires IsPow2(p) && IsPow2(q) && IsPow2(r)
    requires p <= 0x8000_0000_0000_0000 && q <= 0x8000_0000_0000_0000 && r <= 0x8000_0000_0000_0000
    ensures 0 < Or(Or(p, q), r) < U64_LIMIT
    ensures PrevPow2(Or(Or(p, q), r)) == Max(Max(p, q), r)
  {
    var m := Max(Max(p, q), r);
    var k := Log2(m);
    var x := Or(Or(p, q), r);
    Pow2Of64();
    Log2Below(m, 64);
    Log2Pow2(Log2(p));
    Log2Pow2(Log2(q));
    Log2Pow2(Log2(r));
    assert p < Pow2(k + 1) && q < Pow2(k + 1) && r < Pow2(k + 1);
    OrBounds(p, q, k + 1);
    OrBounds(Or(p, q), r, k + 1);
    Pow2Mono(k + 1, 64);
    Log2Unique(x, k);
  }

  /** `trailing_zeros` of a nonzero two's-complement word: how often 2 divides it. */
  function TrailingZeros(x: int): (r: nat)
    requires x != 0
    decreases if x < 0 then -x else x
  {
    if x % 2 != 0 then 0 else 1 + TrailingZeros(x / 2)
  }

  /** `1 << trailing_zeros`: the largest power of two that divides `x`. */
  lemma {:induction false} TrailingZerosDivides(x: int)
    requires x != 0
    ensures x % Pow2(TrailingZeros(x)) == 0
    ensures (x / Pow2(TrailingZeros(x))) % 2 == 1
    decreases if x < 0 then -x else x
  {
    if x % 2 == 0 {
      var h := x / 2;
      TrailingZerosDivides(h);
      var p := Pow2(TrailingZeros(h));
      var q := h / p;
      assert h == p * q;
      assert x == (2 * p) * q;
      DivExact(x, 2 * p, q);
    }
  }

  /** The trailing zeros of 2^k times an odd number are k. */
  lemma {:induction false} TrailingZerosOf(x: int, k: nat, q: int)
    requires x == Pow2(k) * q && q % 2 == 1
    ensures x != 0 && TrailingZeros(x) == k
    decreases k
  {
    if k > 0 {
      var h := Pow2(k - 1) * q;
      assert x == 2 * h;
      TrailingZerosOf(h, k - 1, q);
    }
  }

  /** A power of two divides every larger one. */
  lemma Pow2Divides(a: nat, b: nat)
    requires a <= b
    ensures Pow2(b) % Pow2(a) == 0
  {
    Pow2Add(a, b - a);
    DivExact(Pow2(b), Pow2(a), Pow2(b - a));
  }

  /** Of two powers of two the smaller divides the larger. */
  lemma Pow2DividesLarger(p: nat, q: nat)
    requires IsPow2(p) && IsPow2(q) && p <= q
    ensures q % p == 0
  {
    Pow2Order(Log2(p), Log2(q));
    Pow2Divides(Log2(p), Log2(q));
  }

  /** A nonzero multiple of 2^k has at least k trailing zeros. */
  lemma {:induction false} TrailingZerosLeast(x: int, k: nat)
    requires x != 0 && x % Pow2(k) == 0
    ensures TrailingZeros(x) >= k
    decreases k
  {
    if k > 0 {
      var q := x / Pow2(k);
      var h := Pow2(k - 1) * q;
      assert x == Pow2(k) * q;
      assert x == 2 * h;
      DivExact(x, 2, h);
      DivExact(h, Pow2(k - 1), q);
      TrailingZerosLeast(h, k - 1);
    }
  }

  /** The previous power of two of `v` is at least every power of two up to `v`. */
  lemma PrevPow2AtLeast(v: nat, p: nat)
    requires 0 < v < U64_LIMIT && IsPow2(p) && p <= v
    ensures p <= PrevPow2(v)
  {
    FastLog2Bounds(v);
    Log2Mono(p, v);
    Pow2Mono(Log2(p), Log2(v));
  }

  lemma DivExact(x: int, d: int, q: int)
    requires d > 0 && x == d * q
    ensures x % d == 0 && x / d == q
  {
    Arith.DivUnique(x, d, q, 0);
  }
}
