/**
 * Go's `time.Duration`: a count of nanoseconds. Integers here are unbounded;
 * Go's integer division, which truncates toward zero, is written out because
 * Dafny's `/` is Euclidean and a remaining lifetime can be negative once a
 * certificate has already expired.
 */
module Durations {
  const Second: int := 1_000_000_000
  const Hour: int := 3600 * Second
  const Day: int := 24 * Hour

  /** Go's `a / b` on integers, for a positive divisor. */
  function TruncDiv(a: int, b: int): (q: int)
    requires b > 0
    ensures -b < a < b ==> q == 0
    ensures a >= 0 ==> q >= 0
    ensures a <= 0 ==> q <= 0
  {
    if a >= 0 then a / b else -((-a) / b)
  }

  /** The quotient is truncated toward zero: it never overshoots `a` and misses it by less than `b`. */
  lemma TruncDivBounds(a: int, b: int)
    requires b > 0
    ensures var q := TruncDiv(a, b);
      && (a >= 0 ==> 0 <= q * b <= a < q * b + b)
      && (a < 0 ==> q * b - b < a <= q * b <= 0)
  {
    if a >= 0 {
      DivBounds(a, b);
    } else {
      DivBounds(-a, b);
      assert -((-a) / b) * b == -(((-a) / b) * b);
    }
  }

  lemma DivBounds(x: nat, b: int)
    requires b > 0
    ensures 0 <= (x / b) * b <= x < (x / b) * b + b
  {
    var q, r := x / b, x % b;
    assert x == b * q + r && 0 <= r < b;
    assert q >= 0;
    assert q * b == b * q;
  }

  /** `int64(d.Hours())`: whole hours in `d`, truncated toward zero. */
  function WholeHours(d: int): (h: int)
    ensures d >= 0 ==> h * Hour <= d < h * Hour + Hour
    ensures d < 0 ==> h * Hour - Hour < d <= h * Hour
  {
    TruncDivBounds(d, Hour);
    TruncDiv(d, Hour)
  }

  /**
   * `int64(d.Hours())/24`, the day count shown in an alert line: the
   * remaining lifetime divided by a whole day, truncated toward zero (Go's
   * semantics), so -1.5 days shows as -1 and 1.5 days as 1.
   */
  function Days(d: int): (n: int)
    ensures d >= 0 ==> n == d / Day
    ensures d < 0 ==> n == -((-d) / Day)
  {
    if d >= 0 then
      NestedTruncDiv(d, Hour, 24);
      TruncDiv(WholeHours(d), 24)
    else
      NestedTruncDiv(-d, Hour, 24);
      TruncDiv(WholeHours(d), 24)
  }

  /** Nested truncation by hours and by 24 is truncation by whole days. */
  lemma NestedTruncDiv(a: nat, b: int, c: int)
    requires b > 0 && c > 0
    ensures (a / b) / c == a / (b * c)
  {
    var q, r := a / b, a % b;
    var q2, r2 := q / c, q % c;
    assert a == b * q + r;
    assert q == c * q2 + r2;
    MulDistributes(b, c * q2, r2);
    MulAssociates(b, c, q2);
    assert a == (b * c) * q2 + (b * r2 + r);
    MulMonotone(b, r2, c - 1);
    MulDistributes(b, c - 1, 1);
    assert 0 <= b * r2 + r < b * c;
    DivUnique(a, b * c, q2, b * r2 + r);
  }

  lemma MulDistributes(x: int, y: int, z: int)
    ensures x * (y + z) == x * y + x * z
  {
  }

  lemma MulAssociates(x: int, y: int, z: int)
    ensures x * (y * z) == (x * y) * z
  {
  }

  lemma MulMonotone(x: nat, y: int, z: int)
    requires y <= z
    ensures x * y <= x * z
  {
    MulDistributes(x, y, z - y);
  }

  lemma DivUnique(a: int, d: int, q: int, r: int)
    requires d > 0 && a == d * q + r && 0 <= r < d
    ensures a / d == q
  {
    var q', r' := a / d, a % d;
    assert a == d * q' + r' && 0 <= r' < d;
    MulDistributes(d, q, -q');
    assert d * (q - q') == r' - r;
    if q > q' {
      MulMonotone(d, 1, q - q');
    } else if q < q' {
      MulMonotone(d, 1, q' - q);
      MulDistributes(d, q', -q);
    }
  }
}
