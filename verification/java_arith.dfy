/**
 * Integer arithmetic as the view's Java code performs it. Java's `/` on ints and
 * its `(int)` cast of a quotient both round toward zero, whereas Dafny's `/`
 * rounds down; the helpers here make the Java rounding explicit and collect the
 * facts about floor division that the projections need.
 */
module JavaArith {

  function Abs(a: int): nat
  {
    if a < 0 then -a else a
  }

  function Min(a: int, b: int): int
  {
    if a <= b then a else b
  }

  function Max(a: int, b: int): int
  {
    if a <= b then b else a
  }

  /** `a / b` rounded toward zero, for a positive divisor: Java's int division and its
      `(int)` cast of an exact quotient. */
  function TruncDiv(a: int, b: int): (q: int)
    requires b > 0
    ensures a >= 0 ==> 0 <= q && q * b <= a < q * b + b
    ensures a < 0 ==> q <= 0 && q * b - b < a <= q * b
  {
    if a >= 0 then
      var q := a / b;
      assert a == q * b + a % b && 0 <= a % b < b;
      q
    else
      var p := (-a) / b;
      assert -a == p * b + (-a) % b && 0 <= (-a) % b < b;
      assert (-p) * b == -(p * b);
      -p
  }

  /** Multiplication by a positive factor preserves strict order. */
  lemma MulCancel(x: int, y: int, b: int)
    requires b > 0
    requires x * b < y * b
    ensures x < y
  {
    assert (y - x) * b == y * b - x * b;
  }

  lemma MulNonNegative(a: int, b: int)
    requires a >= 0 && b >= 0
    ensures a * b >= 0
  {
  }

  /** A quotient that brackets `n` is the floor quotient. */
  lemma DivIsQuotient(n: int, b: int, q: int)
    requires b > 0
    requires q * b <= n < q * b + b
    ensures n / b == q
  {
    var r := n / b;
    assert r * b <= n < r * b + b;
    MulCancel(q, r + 1, b);
    MulCancel(r, q + 1, b);
  }

  /** Floor division is monotone in the dividend. */
  lemma DivMonotone(m: int, n: int, b: int)
    requires b > 0
    requires m <= n
    ensures m / b <= n / b
  {
    var p, q := m / b, n / b;
    assert p * b <= m && n < q * b + b;
    MulCancel(p, q + 1, b);
  }

  /** `k * b <= n` makes `k` a lower bound of the floor quotient. */
  lemma DivAtLeast(n: int, b: int, k: int)
    requires b > 0
    requires k * b <= n
    ensures k <= n / b
  {
    DivMonotone(k * b, n, b);
    DivIsQuotient(k * b, b, k);
  }

  /** `n < (k + 1) * b` makes `k` an upper bound of the floor quotient. */
  lemma DivAtMost(n: int, b: int, k: int)
    requires b > 0
    requires n < (k + 1) * b
    ensures n / b <= k
  {
    var q := n / b;
    assert q * b <= n;
    MulCancel(q, k + 1, b);
  }

  /** Rounding two non-negative quotients down separately never exceeds rounding their sum. */
  lemma DivSumBelow(m: int, n: int, b: int)
    requires b > 0 && m >= 0 && n >= 0
    ensures m / b + n / b <= (m + n) / b
  {
    var p, q := m / b, n / b;
    assert p * b <= m && q * b <= n;
    assert (p + q) * b == p * b + q * b;
    DivAtLeast(m + n, b, p + q);
  }

  /** Adding a whole number of divisors shifts the floor quotient by that number. */
  lemma DivShift(a: int, n: int, b: int)
    requires b > 0
    ensures (a * b + n) / b == a + n / b
  {
    var q := n / b;
    assert q * b <= n < q * b + b;
    assert (a + q) * b == a * b + q * b;
    DivIsQuotient(a * b + n, b, a + q);
  }

  /** Two non-negative spans that fit in `den`, each scaled by num/den and rounded down,
      together fit in `num`. */
  lemma FloorSpan(v: int, len: int, num: int, den: int)
    requires den > 0 && num >= 0 && v >= 0 && len >= 0 && v + len <= den
    ensures (v * num) / den + (len * num) / den <= num
  {
    DivSumBelow(v * num, len * num, den);
    assert v * num + len * num == (v + len) * num;
    assert (v + len) * num <= den * num;
    DivMonotone((v + len) * num, num * den, den);
    DivShift(num, 0, den);
  }

  /** Scaling a non-negative `x` by b/a and then by a/b, rounding down each time, loses at
      most one when the first step does not shrink (a <= b). */
  lemma FloorRoundTrip(x: int, a: int, b: int)
    requires 0 < a <= b && x >= 0
    ensures x - 1 <= ((x * b) / a * a) / b <= x
  {
    var y := (x * b) / a;
    assert y * a <= x * b < y * a + a;
    DivAtMost(y * a, b, x);
    assert (x - 1) * b == x * b - b;
    DivAtLeast(y * a, b, x - 1);
  }

  /** Order of two reals is kept by a positive factor. */
  lemma RealScale(p: real, q: real, k: real)
    requires k > 0.0
    ensures p > q <==> p * k > q * k
  {
    assert p * k - q * k == (p - q) * k;
  }
}
