/**
 * The C++ arithmetic the model relies on, written out: casts of doubles to
 * integers, integer division, unsigned subtraction and a guarded division.
 */
module CppArith {
  import opened Globals

  function Abs(a: int): nat { if a < 0 then -a else a }

  /** A cast of a double to an integer type: truncation toward zero. */
  function Trunc(v: real): (r: int)
    ensures v >= 0.0 ==> r as real <= v < r as real + 1.0
    ensures v < 0.0 ==> r as real - 1.0 < v <= r as real
  {
    if v >= 0.0 then v.Floor else -((-v).Floor)
  }

  lemma {:induction false} TruncMonotone(a: real, b: real)
    requires a <= b
    ensures Trunc(a) <= Trunc(b)
  {
  }

  /**
   * Integer division of `long`s: truncation toward zero. The quotient's
   * magnitude is that of the magnitudes, its sign is the product of the
   * operands' signs, and the remainder is smaller than the divisor and has
   * the dividend's sign.
   */
  function CDiv(a: int, b: int): (q: int)
    requires b != 0
    ensures Abs(q) == Abs(a) / Abs(b)
    ensures q != 0 ==> (q > 0 <==> (a > 0) == (b > 0))
    ensures Abs(a - q * b) < Abs(b) && (a - q * b == 0 || (a - q * b > 0 <==> a > 0))
    ensures a >= 0 && b > 0 ==> q == a / b
  {
    var u := Abs(a) / Abs(b);
    CDivRemainder(a, b, u);
    if (a >= 0) == (b > 0) then u else -u
  }

  /** The remainder of the signed quotient of magnitudes has the dividend's sign. */
  lemma {:induction false} CDivRemainder(a: int, b: int, u: int)
    requires b != 0 && u == Abs(a) / Abs(b)
    ensures u >= 0 && (u > 0 ==> a != 0)
    ensures var q := if (a >= 0) == (b > 0) then u else -u;
      Abs(a - q * b) < Abs(b) && (a - q * b == 0 || (a - q * b > 0 <==> a > 0))
  {
    var r := DivFacts(Abs(a), Abs(b));
    var q := if (a >= 0) == (b > 0) then u else -u;
    SignedProduct(a, b, u, q);
    RemainderSign(a, b, q * b, u * Abs(b), r);
  }

  /** Euclidean division by a positive divisor, with its remainder. */
  lemma {:induction false} DivFacts(n: int, m: int) returns (r: int)
    requires n >= 0 && m > 0
    ensures n == (n / m) * m + r && 0 <= r < m
    ensures n / m >= 0 && (n / m) * m >= 0 && (n / m > 0 ==> n >= m)
  {
    r := n % m;
    MulStep(0, n / m, m);
  }

  /** The remainder of a dividend of either sign, given the product of quotient and divisor. */
  lemma {:induction false} RemainderSign(a: int, b: int, qb: int, p: int, r: int)
    requires b != 0 && 0 <= r < Abs(b) && p >= 0 && Abs(a) == p + r
    requires qb == (if a >= 0 then p else -p)
    ensures Abs(a - qb) < Abs(b) && (a - qb == 0 || (a - qb > 0 <==> a > 0))
  {
  }

  /** The signed quotient times the divisor is the magnitudes' product, signed as the dividend. */
  lemma {:induction false} SignedProduct(a: int, b: int, u: int, q: int)
    requires b != 0 && u >= 0 && q == if (a >= 0) == (b > 0) then u else -u
    ensures q * b == (if a >= 0 then u * Abs(b) else -(u * Abs(b)))
  {
    var m: int := Abs(b);
    if b > 0 {
      if a < 0 { assert q * b == (-u) * m == -(u * m); }
    } else {
      if a >= 0 { assert q * b == (-u) * (-m) == u * m; } else { assert q * b == u * (-m) == -(u * m); }
    }
  }

  /** `a - b` on `converted_t`: wraps modulo 2^64. */
  function USub(a: u64, b: u64): (r: u64)
    ensures a >= b ==> r == a - b
    ensures a < b ==> r == a - b + U64_LIMIT
  {
    (a - b) % U64_LIMIT
  }

  /** `num / den` where a zero denominator yields slope 0 instead of infinity. */
  function Ratio(num: real, den: int): (s: real)
    ensures den != 0 ==> s * den as real == num
    ensures den == 0 ==> s == 0.0
  {
    if den == 0 then 0.0 else num / den as real
  }

  lemma {:induction false} FractionAtMostWhole(rate: real, n: int)
    requires 0.0 < rate <= 1.0 && n >= 0
    ensures 0.0 <= rate * n as real <= n as real
  {
    assert n as real - rate * n as real == (1.0 - rate) * n as real;
  }

  /** One more multiple: c < d means c * x + x <= d * x. */
  lemma {:induction false} MulStep(c: int, d: int, x: int)
    requires x >= 0
    ensures c < d ==> c * x + x <= d * x
  {
    if c < d {
      assert d * x - c * x - x == (d - c - 1) * x;
    }
  }

  /** Integer division by a positive divisor is monotone in the dividend. */
  lemma {:induction false} DivMonotone(a: int, b: int, w: int)
    requires 0 <= a <= b && w > 0
    ensures a / w <= b / w
  {
    MulStep(b / w, a / w, w);
  }

  lemma {:induction false} MulPred(k: int, x: int)
    requires k >= 1
    ensures k * x == (k - 1) * x + x
  {
  }

  lemma {:induction false} MulMonotone(c: int, d: int, x: int)
    requires c <= d && x >= 0
    ensures c * x <= d * x
  {
    assert d * x - c * x == (d - c) * x;
  }

  /** The quotient's multiples bracket the dividend. */
  lemma {:induction false} DivBounds(a: int, w: int)
    requires a >= 0 && w > 0
    ensures (a / w) * w <= a < (a / w + 1) * w
  {
    assert (a / w + 1) * w == (a / w) * w + w;
  }

  /** `min(e / w, n - 1)` is the bin of width w holding e, the last bin open-ended. */
  lemma {:induction false} ClampedBin(e: int, w: int, n: int)
    requires e >= 0 && w >= 1 && n >= 1
    ensures var p := Min(e / w, n - 1);
      0 <= p < n &&
      (p < n - 1 ==> p * w <= e < (p + 1) * w) &&
      (p == n - 1 ==> (n - 1) * w <= e)
  {
    var q := e / w;
    DivBounds(e, w);
    if n - 1 <= q {
      MulMonotone(n - 1, q, w);
    }
  }

  /** i whole shares of t / n units of c, for i <= n, fit in t * c. */
  lemma {:induction false} SharesFit(i: int, n: int, t: int, c: int)
    requires 0 <= i <= n && n >= 1 && t >= 0 && c >= 0
    ensures 0 <= i * ((t / n) * c) <= t * c
    ensures i * ((t / n) * c) == (i * (t / n)) * c
  {
    var q := t / n;
    DivBounds(t, n);
    MulMonotone(i, n, q);
    MulMonotone(0, i, q);
    assert i * q <= t;
    MulMonotone(i * q, t, c);
    MulMonotone(0, i * q, c);
    assert i * (q * c) == (i * q) * c;
  }

  /** A multiple of c divided by c and multiplied back is itself. */
  lemma {:induction false} DivExact(a: int, c: int)
    requires a >= 0 && c > 0 && a % c == 0
    ensures (a / c) * c == a
  {
  }

  /** A whole number of records ends on a record boundary. */
  lemma {:induction false} WholeRecords(k: int)
    ensures (k * 100) % 100 == 0
  {
  }

  /** The distance between two record boundaries is a whole number of records. */
  lemma {:induction false} ModDiff(a: int, b: int)
    requires a % 100 == 0 && b % 100 == 0
    ensures (a - b) % 100 == 0
  {
  }

  /**
   * `static_cast<int>(e / w)` with e and w held exactly in doubles: the
   * truncated real quotient is the integer quotient.
   */
  lemma {:induction false} TruncQuotient(e: int, w: int)
    requires e >= 0 && w > 0
    ensures Trunc(e as real / w as real) == e / w
  {
    var q := e / w;
    DivBounds(e, w);
    var x := e as real / w as real;
    assert x * w as real == e as real;
    assert q as real * w as real <= x * w as real;
    assert x * w as real < (q + 1) as real * w as real;
    assert q as real <= x;
    assert x < (q + 1) as real;
  }
}
