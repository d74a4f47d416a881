/** Stateless numeric helpers the grid relies on: the 32-bit unsigned range,
    three-way extrema, powers of two, the ceiling of a real, and a few facts
    about products, quotients and remainders that the grid's index arithmetic
    needs. */
module NumericUtil {

  /** Values of the source's `uint32_t`. */
  type uint32 = x: int | 0 <= x < 0x1_0000_0000

  const UINT32_LIMIT: int := 0x1_0000_0000

  /** `max3`: the largest of three values. */
  function Max3(a: int, b: int, c: int): (m: int)
    ensures m >= a && m >= b && m >= c
    ensures m == a || m == b || m == c
  {
    if a >= b && a >= c then a else if b >= c then b else c
  }

  /** `min3`: the smallest of three values. */
  function Min3(a: int, b: int, c: int): (m: int)
    ensures m <= a && m <= b && m <= c
    ensures m == a || m == b || m == c
  {
    if a <= b && a <= c then a else if b <= c then b else c
  }

  predicate IsPowerOfTwo(p: nat)
  {
    p == 1 || (p > 1 && p % 2 == 0 && IsPowerOfTwo(p / 2))
  }

  /** `nextPowerOfTwo`: the smallest power of two that is at least `n`
      (1 for n = 0 and n = 1). */
  function NextPowerOfTwo(n: nat): (p: nat)
    ensures IsPowerOfTwo(p) && n <= p
    ensures p == 1 || p / 2 < n
  {
    if n <= 1 then 1 else 2 * NextPowerOfTwo((n + 1) / 2)
  }

  /** Two distinct powers of two are at least a factor two apart. */
  lemma {:induction false} PowerOfTwoGap(q: nat, p: nat)
    requires IsPowerOfTwo(q) && IsPowerOfTwo(p) && q < p
    ensures 2 * q <= p
  {
    if q > 1 {
      PowerOfTwoGap(q / 2, p / 2);
    }
  }

  /** No power of two at least `n` is smaller than `NextPowerOfTwo(n)`. */
  lemma NextPowerOfTwoIsLeast(n: nat, q: nat)
    requires IsPowerOfTwo(q) && n <= q
    ensures NextPowerOfTwo(n) <= q
  {
    var p := NextPowerOfTwo(n);
    if q < p {
      PowerOfTwoGap(q, p);
    }
  }

  /** Rounding up to a power of two never carries a value across a power of
      two `t`: the rounded value exceeds `t` exactly when the value does. */
  lemma NextPowerOfTwoExceeds(m: nat, t: nat)
    requires IsPowerOfTwo(t)
    ensures NextPowerOfTwo(m) > t <==> m > t
  {
    if m <= t {
      NextPowerOfTwoIsLeast(m, t);
    }
  }

  /** A power of two is its own rounding. */
  lemma NextPowerOfTwoOfPower(n: nat)
    requires IsPowerOfTwo(n)
    ensures NextPowerOfTwo(n) == n
  {
    NextPowerOfTwoIsLeast(n, n);
  }

  /** 2^15, the largest sweep side whose square fits 32 bits. */
  lemma PowerOfTwo32768()
    ensures IsPowerOfTwo(32768)
  {
  }

  /** A smaller power of two divides a larger one. */
  lemma {:induction false} PowerOfTwoDivides(t: nat, p: nat)
    requires IsPowerOfTwo(t) && IsPowerOfTwo(p) && t <= p
    ensures p % t == 0
    decreases p
  {
    if t < p {
      PowerOfTwoGap(t, p);
      PowerOfTwoDivides(t, p / 2);
      var k := (p / 2) / t;
      assert p / 2 == k * t;
      assert p == (2 * k) * t;
      DivModUnique(p, t, 2 * k, 0);
    } else {
      DivModUnique(p, t, 1, 0);
    }
  }

  /** The square of a power of two above 2^15 is a multiple of 2^32, so it
      truncates to 0 in 32 bits. */
  lemma SquareWraps(s: nat)
    requires IsPowerOfTwo(s) && s > 0x8000
    ensures (s * s) % UINT32_LIMIT == 0
  {
    assert IsPowerOfTwo(0x8000);
    assert IsPowerOfTwo(0x1_0000);
    PowerOfTwoGap(0x8000, s);
    PowerOfTwoDivides(0x1_0000, s);
    var k := s / 0x1_0000;
    assert s == k * 0x1_0000;
    assert s * s == (k * k) * UINT32_LIMIT;
    DivModUnique(s * s, UINT32_LIMIT, k * k, 0);
  }

  /** The square of a side of at most 2^15 fits 30 bits. */
  lemma SquareFits(s: nat)
    requires s <= 0x8000
    ensures s * s <= 0x4000_0000
  {
    MulMonotone(s, 0x8000, s);
    MulMonotone(s, 0x8000, 0x8000);
  }

  /** `ftoi_ceil` on an exact real: the least integer not below `r`. */
  function Ceil(r: real): (c: int)
    ensures r <= c as real < r + 1.0
  {
    -((-r).Floor)
  }

  /** The ceiling of a quotient by a positive width `w`: that many widths
      reach `e`, one fewer falls short of it. */
  lemma CeilQuotient(e: real, w: real)
    requires w > 0.0
    ensures Ceil(e / w) as real * w >= e
    ensures (Ceil(e / w) - 1) as real * w < e
  {
    var q := e / w;
    var c := Ceil(q) as real;
    var below := c - 1.0;
    assert q * w == e;
    assert (c - q) * w >= 0.0;
    assert below < q;
    var gap := (q - below) * w;
    assert gap > 0.0;
    assert below * w == q * w - gap;
    assert (Ceil(q) - 1) as real == below;
  }

  /** A product of positive factors is positive. */
  lemma ProductPositive(a: int, b: int)
    requires a >= 1 && b >= 1
    ensures a * b >= 1 && a * b >= a && a * b >= b
  {
    assert a * b == a * (b - 1) + a;
    assert (a - 1) * b >= 0;
  }

  /** Multiplying by a non-negative factor keeps an order. */
  lemma MulMonotone(a: int, b: int, c: int)
    requires a <= b && c >= 0
    ensures a * c <= b * c
  {
    assert b * c - a * c == (b - a) * c;
  }

  /** The quotient and remainder of `a` by `d` are the unique `q`, `r` with
      `a == q * d + r` and `0 <= r < d`. */
  lemma DivModUnique(a: int, d: int, q: int, r: int)
    requires d > 0 && 0 <= r < d && a == q * d + r
    ensures a / d == q && a % d == r
  {
    var q', r' := a / d, a % d;
    assert a == q' * d + r';
    assert (q - q') * d == r' - r;
    if q > q' {
      MulMonotone(1, q - q', d);
    } else if q < q' {
      MulMonotone(1, q' - q, d);
    }
  }

  /** Quotient and remainder of a natural by a positive divisor. */
  lemma QuotRem(a: int, d: int)
    requires a >= 0 && d > 0
    ensures a == (a / d) * d + a % d
    ensures 0 <= a % d < d && 0 <= a / d
  {
  }

  /** Dividing twice is dividing by the product. */
  lemma DivDiv(c: int, a: int, b: int)
    requires c >= 0 && a > 0 && b > 0
    ensures c / a / b == c / (a * b)
  {
    var q, r := c / a, c % a;
    var q2, r2 := q / b, q % b;
    assert c == q * a + r;
    assert q == q2 * b + r2;
    assert c == q2 * (a * b) + (r2 * a + r) by {
      assert q * a == (q2 * b + r2) * a == q2 * (a * b) + r2 * a;
    }
    MulMonotone(r2, b - 1, a);
    DivModUnique(c, a * b, q2, r2 * a + r);
  }

  /** A quotient by `b` of a value below `b * c` is below `c`. */
  lemma DivBelow(a: int, b: int, c: int)
    requires 0 <= a < b * c && b > 0
    ensures a / b < c
  {
    if a / b >= c {
      MulMonotone(c, a / b, b);
    }
  }

  /** Taking a value below the modulus modulo it changes nothing. */
  lemma ModWithin(a: int, n: int)
    requires n > 0
    ensures 0 <= a < n ==> a % n == a
  {
    if 0 <= a < n {
      DivModUnique(a, n, 0, a);
    }
  }

  /** A stack of `m` squares of side `s` that fits 32 bits is unchanged by
      truncation to 32 bits, and truncation never makes a stack larger. */
  lemma StackWithin(s: int, m: int)
    requires s >= 1 && m >= 1
    ensures (s * s * m) % UINT32_LIMIT <= s * s * m
    ensures s * s * m < UINT32_LIMIT ==> (s * s * m) % UINT32_LIMIT == s * s * m
  {
    ProductPositive(s, s);
    ProductPositive(s * s, m);
    ModWithin(s * s * m, UINT32_LIMIT);
  }

  /** A cube of side at most 1024 fits 31 bits. */
  lemma SmallCube(s: int)
    requires 0 <= s <= 1024
    ensures 0 <= s * s * s <= 0x4000_0000
  {
    CubeMonotone(s, 1024);
  }

  /** A product of non-negative factors is non-negative. */
  lemma MulNonneg(a: int, b: int)
    requires a >= 0 && b >= 0
    ensures a * b >= 0
  {
    MulMonotone(0, a, b);
  }

  /** Layers of 2^30 codes wrap every four layers in 32 bits. */
  lemma LayersWrap(m: nat)
    ensures (0x4000_0000 * m) % UINT32_LIMIT == 0x4000_0000 * (m % 4)
  {
    var q, r := m / 4, m % 4;
    assert m == 4 * q + r;
    assert 0x4000_0000 * m == q * UINT32_LIMIT + 0x4000_0000 * r;
    DivModUnique(0x4000_0000 * m, UINT32_LIMIT, q, 0x4000_0000 * r);
  }

  /** Products of values known by name. */
  lemma ProductOf(a: int, b: int, x: int, y: int)
    requires a == x && b == y
    ensures a * b == x * y
  {
  }

  /** A box inside another has no more cells. */
  lemma BoxBound(a: int, b: int, c: int, p: int, q: int, r: int)
    requires 0 <= a <= p && 0 <= b <= q && 0 <= c <= r
    ensures a * b * c <= p * q * r
  {
    MulMonotone(a, p, b);
    MulMonotone(b, q, p);
    MulMonotone(a * b, p * q, c);
    MulMonotone(c, r, p * q);
  }

  /** A grid whose extents are at most `s`, one of them being the smallest
      extent `m`, has no more cells than `m` layers of `s` by `s`. */
  lemma GridWithinStack(a: int, b: int, c: int, s: int)
    requires 1 <= a <= s && 1 <= b <= s && 1 <= c <= s
    ensures a * b * c <= s * s * Min3(a, b, c)
  {
    var m := Min3(a, b, c);
    if m == a {
      BoxBound(b, c, a, s, s, m);
      assert a * b * c == b * c * a;
    } else if m == b {
      BoxBound(a, c, b, s, s, m);
      assert a * b * c == a * c * b;
    } else {
      BoxBound(a, b, c, s, s, m);
    }
  }

  /** Cubes keep the order of their non-negative sides. */
  lemma CubeMonotone(a: int, b: int)
    requires 0 <= a <= b
    ensures a * a * a <= b * b * b
  {
    MulMonotone(a, b, a);
    MulMonotone(a, b, b);
    MulMonotone(a * a, a * b, a);
    MulMonotone(a * b, b * b, a);
    MulMonotone(a, b, b * b);
  }

  /** Doubling a side multiplies the square by four and the cube by eight. */
  lemma DoubleSquare(h: int)
    ensures (2 * h) * (2 * h) == 4 * (h * h)
  {
  }

  lemma DoubleCube(h: int)
    ensures (2 * h) * (2 * h) * (2 * h) == 8 * (h * h * h)
  {
    DoubleSquare(h);
  }

  /** A mixed-radix digit pair stays below the product of the radices. */
  lemma MixedRadixBound(x: int, a: int, y: int, b: int)
    requires 0 <= x < a && 0 <= y < b
    ensures 0 <= x + a * y < a * b
  {
    MulMonotone(0, y, a);
    MulMonotone(y + 1, b, a);
  }
}
