/** Facts about products and quotients that several modules use. */
module Arithmetic {

  lemma MulNonNegative(a: nat, b: nat)
    ensures a * b >= 0
  {
  }

  lemma MulMonotone(a: int, b: int, c: nat)
    requires a <= b
    ensures a * c <= b * c
  {
    assert b * c == a * c + (b - a) * c;
    MulNonNegative(b - a, c);
  }

  /** Row `y` of `rows` rows of `stride` cells. */
  lemma RowFits(y: nat, rows: nat, stride: nat)
    requires y < rows
    ensures 0 <= y * stride && y * stride + stride <= rows * stride && rows * stride == stride * rows
  {
    MulMonotone(y + 1, rows, stride);
    assert (y + 1) * stride == y * stride + stride;
  }

  lemma DivBounds(a: nat, b: nat)
    requires b > 0
    ensures a / b * b <= a < (a / b + 1) * b
  {
  }

  /** `q` is at most a/b exactly when q*b is at most a. */
  lemma AtMostQuotient(q: int, a: nat, b: nat)
    requires b > 0
    ensures q <= a / b <==> q * b <= a
  {
    DivBounds(a, b);
    if q <= a / b {
      MulMonotone(q, a / b, b);
    } else {
      MulMonotone(a / b + 1, q, b);
    }
  }

  /** `q` is below the rounded-up quotient exactly when q*b is below a. */
  lemma BelowCeiling(q: int, a: nat, b: nat)
    requires b > 0
    ensures q < (a + (b - 1)) / b <==> q * b < a
  {
    AtMostQuotient(q + 1, a + (b - 1), b);
    assert (q + 1) * b == q * b + b;
  }

  lemma HalvesExactly(n: nat)
    requires n % 2 == 0
    ensures n == 2 * (n / 2)
  {
  }

  lemma QuartersExactly(n: nat)
    requires n % 4 == 0
    ensures n == 4 * (n / 4) && n / 2 == 2 * (n / 4)
  {
    var q := n / 4;
    assert n == 4 * q;
    assert n / 2 == 2 * q;
  }

  lemma HalfInRange(limit: nat, v: int)
    requires limit % 2 == 0 && 0 <= v < limit
    ensures limit == 2 * (limit / 2) && 0 <= v / 2 < limit / 2
  {
    HalvesExactly(limit);
  }

  lemma QuarterInRange(limit: nat, v: int)
    requires limit % 4 == 0 && 0 <= v < limit
    ensures limit / 2 == 2 * (limit / 4)
    ensures 0 <= v / 4 < limit / 4 && 0 <= v / 2 < limit / 2
  {
    QuartersExactly(limit);
    assert v == 4 * (v / 4) + v % 4;
  }

  /** A span with even ends. */
  lemma EvenSpan(start: nat, length: nat, limit: nat)
    requires start % 2 == 0 && (start + length) % 2 == 0 && limit % 2 == 0 && 0 < length && start + length <= limit
    ensures start == 2 * (start / 2) && length == 2 * ((start + length) / 2 - start / 2)
    ensures start / 2 < (start + length) / 2 <= limit / 2
  {
    HalvesExactly(start);
    HalvesExactly(start + length);
    HalvesExactly(limit);
  }
}
