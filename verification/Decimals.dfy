/** Fixed-point results computed with Python's `decimal` arithmetic, as `_percentage` and
    `_decimal_average` do: divide in the default context (28 significant digits, ties to
    even), scale, then quantize to two places with ties away from zero.

    Amounts are integers: a mark, a score or a count of days is a number of hundredths, a
    percentage is a number of hundredths of a percent. */
module Decimals {

  /** Significant digits of a decimal context; everything below needs at least six. */
  type Precision = n: nat | n >= 6 witness 28

  /** Python's default context, 28 digits. Written as a product so that the verifier does not
      expand powers of ten to that literal everywhere. */
  const DEFAULT: Precision := 4 * SEVEN
  const SEVEN: nat := 7

  function Pow10(n: nat): (p: nat)
    ensures p >= 1
  {
    if n == 0 then 1 else 10 * Pow10(n - 1)
  }

  function Abs(n: int): nat {
    if n < 0 then -n else n
  }

  /** The magnitude `digits / 10^scale` of a decimal number. */
  datatype Magnitude = Magnitude(digits: nat, scale: int)

  /** `n / d` to the nearest integer, ties to even: the context's rounding. */
  function HalfEven(n: nat, d: nat): nat
    requires d > 0
  {
    var q, r := n / d, n % d;
    if 2 * r < d || (2 * r == d && q % 2 == 0) then q else q + 1
  }

  /** `n / d` to the nearest integer, ties away from zero: ROUND_HALF_UP on magnitudes. */
  function HalfUp(n: nat, d: nat): nat
    requires d > 0
  {
    var q, r := n / d, n % d;
    if 2 * r >= d then q + 1 else q
  }

  /** How many trailing digits must go for `n` to have at most `prec` digits. */
  function ExcessDigits(n: nat, prec: Precision): nat {
    if n < Pow10(prec) then 0 else 1 + ExcessDigits(n / 10, prec)
  }

  /** The context's rounding of a finished operation. */
  function Fix(x: Magnitude, prec: Precision): Magnitude {
    var drop := ExcessDigits(x.digits, prec);
    Normalise(HalfEven(x.digits, Pow10(drop)), x.scale - drop, prec)
  }

  /** Rounding up may carry into one digit too many, which is then a zero. */
  function Normalise(digits: nat, scale: int, prec: Precision): Magnitude {
    if digits == Pow10(prec) then Magnitude(Pow10(prec - 1), scale - 1) else Magnitude(digits, scale)
  }

  /** The least scale at or above `k` at which `a / b` shows `prec` digits. */
  function QuotientScale(a: nat, b: nat, k: nat, prec: Precision): (s: nat)
    requires a > 0 && b > 0
    ensures s >= k && a * Pow10(s) >= b * Pow10(prec - 1)
    ensures a * Pow10(k) < b * Pow10(prec) ==> a * Pow10(s) < b * Pow10(prec)
    decreases b * Pow10(prec - 1) - a * Pow10(k)
  {
    if a * Pow10(k) >= b * Pow10(prec - 1) then k
    else
      TenfoldStep(a, b, k, prec);
      QuotientScale(a, b, k + 1, prec)
  }

  lemma TenfoldStep(a: nat, b: nat, k: nat, prec: Precision)
    requires a > 0 && b > 0 && a * Pow10(k) < b * Pow10(prec - 1)
    ensures a * Pow10(k) < a * Pow10(k + 1) < b * Pow10(prec)
  {
    Tenfold(a, b, Pow10(k), Pow10(prec - 1));
  }

  lemma Tenfold(a: nat, b: nat, p: nat, top: nat)
    requires a > 0 && p > 0 && a * p < b * top
    ensures a * p < a * (10 * p) < b * (10 * top)
  {
    MulPositive(a, p);
    assert a * (10 * p) == 10 * (a * p) && b * (10 * top) == 10 * (b * top);
  }

  lemma MulPositive(x: nat, y: nat)
    requires x > 0 && y > 0
    ensures x * y >= x && x * y >= y
  {
  }

  /** How many digits of the integer part of `a / b` do not fit the precision. */
  function QuotientDrop(a: nat, b: nat, prec: Precision): nat
    requires b > 0
    decreases a
  {
    if a < b * Pow10(prec) then 0
    else
      assert a > 0 by { MulPositive(b, Pow10(prec)); }
      1 + QuotientDrop(a / 10, b, prec)
  }

  /** `a / b` in the default context. Only the value matters below, so trailing zeros of an
      exact quotient are kept. */
  function Divide(a: nat, b: nat, prec: Precision): Magnitude
    requires b > 0
  {
    if a == 0 then Magnitude(0, 0)
    else if a < b * Pow10(prec) then RoundAtScale(a, b, QuotientScale(a, b, 0, prec), prec)
    else RoundAtDrop(a, b, QuotientDrop(a, b, prec), prec)
  }

  function RoundAtScale(a: nat, b: nat, k: nat, prec: Precision): Magnitude
    requires b > 0
  {
    Normalise(HalfEven(a * Pow10(k), b), k, prec)
  }

  function RoundAtDrop(a: nat, b: nat, d: nat, prec: Precision): Magnitude
    requires b > 0
  {
    MulPositive(b, Pow10(d));
    Normalise(HalfEven(a, b * Pow10(d)), -(d as int), prec)
  }

  function TimesHundred(x: Magnitude, prec: Precision): Magnitude {
    Fix(Magnitude(x.digits * 100, x.scale), prec)
  }

  /** `quantize(Decimal("0.01"), rounding=ROUND_HALF_UP)`, as a count of hundredths. */
  function Quantize(x: Magnitude): nat {
    if x.scale <= 2 then x.digits * Pow10(2 - x.scale) else HalfUp(x.digits, Pow10(x.scale - 2))
  }

  function Signed(negative: bool, magnitude: nat): int {
    if negative then -(magnitude as int) else magnitude
  }

  /** `_percentage`: hundredths of a percent, from two amounts in the same unit. */
  function Percentage(score: int, total: int): int {
    if total <= 0 then 0 else Signed(score < 0, Quantize(TimesHundred(Divide(Abs(score), total, DEFAULT), DEFAULT)))
  }

  /** `_decimal_average` of a non-empty list of `count` amounts that add up to `sum`. */
  function Average(sum: int, count: nat): int
    requires count > 0
  {
    Signed(sum < 0, Quantize(Divide(Abs(sum), 100 * count, DEFAULT)))
  }

  /** The reference: `n / d` to the nearest integer, ties away from zero. */
  function RoundTiesToAway(n: int, d: nat): int
    requires d > 0
  {
    if n >= 0 then (2 * n + d) / (2 * d) else -((2 * -n + d) / (2 * d))
  }

  // Powers of ten

  lemma Pow10Add(m: nat, n: nat)
    ensures Pow10(m + n) == Pow10(m) * Pow10(n)
  {
    if m == 0 {
    } else {
      Pow10Add(m - 1, n);
      TenTimes(Pow10(m - 1), Pow10(n));
    }
  }

  lemma TenTimes(x: nat, y: nat)
    ensures (10 * x) * y == 10 * (x * y)
  {
  }

  lemma Pow10Monotone(m: nat, n: nat)
    requires m <= n
    ensures Pow10(m) <= Pow10(n)
  {
    Pow10Add(n - m, m);
    MulPositive(Pow10(n - m), Pow10(m));
  }

  // Rounding

  /** Ties to even moves an integer quotient by at most half a unit and never below the floor. */
  lemma HalfEvenBounds(n: nat, d: nat)
    requires d > 0
    ensures n / d <= HalfEven(n, d)
    ensures 2 * d * HalfEven(n, d) <= 2 * n + d
  {
    var q, r := n / d, n % d;
    assert n == d * q + r;
    assert 2 * d * (q + 1) == 2 * (d * q) + 2 * d;
  }

  /** It is the nearest integer, and of two equally near ones the even one (roundTiesToEven,
      section 4.3.1 of IEEE 754-2008). */
  lemma HalfEvenIsNearest(n: nat, d: nat)
    requires d > 0
    ensures var off: int := 2 * (n as int - d * HalfEven(n, d));
      Abs(off) <= d && (Abs(off) == d ==> HalfEven(n, d) % 2 == 0)
  {
    var q, r := n / d, n % d;
    assert n == d * q + r;
    assert d * (q + 1) == d * q + d;
  }

  lemma DivideAtLeast(n: nat, d: nat, g: nat)
    requires d > 0 && n >= g * d
    ensures n / d >= g
  {
    var q, r := n / d, n % d;
    assert n == d * q + r && r < d;
    if q < g {
      MulMonotone(q + 1, g, d);
    }
  }

  lemma MulMonotone(x: nat, y: nat, z: nat)
    requires x <= y
    ensures x * z <= y * z
  {
  }

  /** Ties away from zero is decided by the half-integer below the result. */
  lemma HalfUpThreshold(n: nat, d: nat, j: int)
    requires d > 0
    ensures HalfUp(n, d) >= j <==> j <= 0 || 2 * n >= (2 * j - 1) * d
  {
    var q, r := n / d, n % d;
    assert n == d * q + r;
    var h := HalfUp(n, d);
    assert 2 * n >= (2 * h - 1) * d by {
      if 2 * r >= d {
        assert (2 * (q + 1) - 1) * d == 2 * (d * q) + d;
      } else {
        assert (2 * q - 1) * d == 2 * (d * q) - d;
      }
    }
    assert 2 * n < (2 * h + 1) * d by {
      if 2 * r >= d {
        assert (2 * (q + 1) + 1) * d == 2 * (d * q) + 3 * d;
      } else {
        assert (2 * q + 1) * d == 2 * (d * q) + d;
      }
    }
    if j <= h {
      if j > 0 { MulMonotone(2 * j - 1, 2 * h - 1, d); }
    } else {
      MulMonotone(2 * h + 1, 2 * j - 1, d);
    }
  }

  lemma HalfUpIsTiesToAway(n: nat, d: nat)
    requires d > 0
    ensures HalfUp(n, d) == RoundTiesToAway(n, d)
  {
    var t := RoundTiesToAway(n, d);
    assert 2 * n + d == 2 * d * t + (2 * n + d) % (2 * d);
    assert (2 * t - 1) * d == 2 * d * t - d && (2 * t + 1) * d == 2 * d * t + d;
    HalfUpThreshold(n, d, t);
    HalfUpThreshold(n, d, t + 1);
  }

  // Double rounding

  lemma Swap(x: nat, y: nat, z: nat)
    ensures x * y * z == x * z * y
  {
  }

  lemma ReachesThreshold(x: nat, b: nat, n: nat, g: nat, h: nat)
    requires b > 0 && n == x * g && x >= h * b
    ensures HalfEven(n, b) >= h * g
  {
    MulMonotone(h * b, x, g);
    Swap(h, b, g);
    DivideAtLeast(n, b, h * g);
    HalfEvenBounds(n, b);
  }

  /** An integer below a multiple of `b` leaves room for one more unit below it. */
  lemma RoomBelow(x: nat, b: nat, g: nat, h: nat)
    requires x < h * b
    ensures x * g + g <= h * g * b
  {
    MulMonotone(x + 1, h * b, g);
    Swap(h, b, g);
  }

  lemma BelowThreshold(n: nat, b: nat, c: nat, g: nat, t: nat)
    requires 2 * b * c <= 2 * n + b && n + g <= t * b && 2 * g > b
    ensures c < t
  {
    assert 2 * b * c == 2 * (c * b);
    if c >= t { MulMonotone(t, c, b); }
  }

  lemma MissesThreshold(x: nat, b: nat, n: nat, g: nat, h: nat)
    requires b > 0 && n == x * g && x < h * b && 2 * g > b
    ensures HalfEven(n, b) < h * g
  {
    RoomBelow(x, b, g, h);
    HalfEvenBounds(n, b);
    BelowThreshold(n, b, HalfEven(n, b), g, h * g);
  }

  /** The heart of the matter: rounding `a / b` to an integer number `c` of units of size
      `1 / (2mg)` and then `m * c` of those units to an integer gives what rounding `m * a / b`
      once gives, because a half-integer is a whole number of units and no other quotient
      comes within half a unit of it. */
  lemma DoubleRounding(a: nat, b: nat, c: nat, m: nat, g: nat, p: nat)
    requires b > 0 && m > 0 && p > 0 && p == 2 * m * g
    requires c == HalfEven(a * p, b)
    requires 2 * g > b
    ensures HalfUp(m * c, p) == HalfUp(m * a, b)
  {
    var t := HalfUp(m * a, b);
    HalfUpThreshold(m * a, b, t);
    HalfUpThreshold(m * a, b, t + 1);
    HalfUpThreshold(m * c, p, t);
    HalfUpThreshold(m * c, p, t + 1);
    SameSide(a, b, c, m, g, p, 2 * t + 1);
    if t > 0 { SameSide(a, b, c, m, g, p, 2 * t - 1); }
  }

  lemma SameSide(a: nat, b: nat, c: nat, m: nat, g: nat, p: nat, h: nat)
    requires b > 0 && m > 0 && p > 0 && p == 2 * m * g
    requires c == HalfEven(a * p, b)
    requires 2 * g > b
    ensures 2 * (m * a) >= h * b <==> 2 * (m * c) >= h * p
  {
    Cancel(c, m, g, h);
    var x := 2 * (m * a);
    assert a * p == x * g by { Regroup(a, m, g); }
    if x >= h * b {
      ReachesThreshold(x, b, a * p, g, h);
    } else {
      MissesThreshold(x, b, a * p, g, h);
    }
  }

  lemma Regroup(a: nat, m: nat, g: nat)
    ensures a * (2 * m * g) == 2 * (m * a) * g
  {
  }

  lemma Cancel(c: nat, m: nat, g: nat, h: nat)
    requires m > 0
    ensures 2 * (m * c) >= h * (2 * m * g) <==> c >= h * g
  {
    assert h * (2 * m * g) == (h * g) * (2 * m) && 2 * (m * c) == c * (2 * m);
    if c >= h * g {
      MulMonotone(h * g, c, 2 * m);
    } else {
      MulMonotone(c + 1, h * g, 2 * m);
      assert (c + 1) * (2 * m) == c * (2 * m) + 2 * m;
    }
  }

  // What the code computes

  /** `x` denotes the number `c / 10^k`. */
  ghost predicate Denotes(x: Magnitude, c: nat, k: nat) {
    x.scale <= k && x.digits * Pow10(k - x.scale) == c
  }

  lemma HalfUpRatio(n: nat, d: nat, z: nat)
    requires d > 0 && z > 0
    ensures d * z > 0 && HalfUp(n * z, d * z) == HalfUp(n, d)
  {
    MulPositive(d, z);
    var t := HalfUp(n, d);
    HalfUpThreshold(n, d, t);
    HalfUpThreshold(n, d, t + 1);
    HalfUpThreshold(n * z, d * z, t);
    HalfUpThreshold(n * z, d * z, t + 1);
    ScaleThreshold(n, d, z, 2 * t + 1);
    if t > 0 { ScaleThreshold(n, d, z, 2 * t - 1); }
  }

  lemma ScaleThreshold(n: nat, d: nat, z: nat, h: nat)
    requires z > 0
    ensures 2 * n >= h * d <==> 2 * (n * z) >= h * (d * z)
  {
    assert 2 * (n * z) == 2 * n * z && h * (d * z) == h * d * z;
    if 2 * n >= h * d { MulMonotone(h * d, 2 * n, z); } else { MulMonotone(2 * n + 1, h * d, z); }
  }

  lemma Pow10PlusTwo(n: nat)
    ensures Pow10(n + 2) == 100 * Pow10(n)
  {
    assert Pow10(n + 2) == 10 * Pow10(n + 1);
  }

  lemma QuantizeDenoted(x: Magnitude, c: nat, k: nat)
    requires Denotes(x, c, k) && x.scale >= 2
    ensures Quantize(x) == HalfUp(100 * c, Pow10(k))
  {
    var lost := k - x.scale;
    Pow10PlusTwo(lost);
    Pow10Add(x.scale - 2, lost + 2);
    HalfUpRatio(x.digits, Pow10(x.scale - 2), Pow10(lost + 2));
    TimesHundredRegroup(x.digits, Pow10(lost));
    assert x.scale == 2 ==> HalfUp(x.digits, 1) == x.digits;
  }

  lemma TimesHundredRegroup(n: nat, p: nat)
    ensures n * (100 * p) == 100 * (n * p) == (n * 100) * p
  {
  }

  lemma ExcessOfHundredfold(n: nat, prec: Precision)
    requires Pow10(prec - 1) <= n < Pow10(prec)
    ensures ExcessDigits(n * 100, prec) == 2 && HalfEven(n * 100, 100) == n
  {
    assert n * 100 / 10 == 10 * n && 10 * n / 10 == n;
    assert n * 100 >= Pow10(prec) && 10 * n >= Pow10(prec);
    assert ExcessDigits(10 * n, prec) == 1 + ExcessDigits(n, prec);
  }

  /** Multiplying by a hundred only moves the point. */
  lemma TimesHundredDenotes(x: Magnitude, c: nat, k: nat, prec: Precision)
    requires Denotes(x, c, k)
    requires Pow10(prec - 1) <= x.digits < Pow10(prec)
    ensures Denotes(TimesHundred(x, prec), 100 * c, k) && TimesHundred(x, prec).scale == x.scale - 2
  {
    ExcessOfHundredfold(x.digits, prec);
    Pow10PlusTwo(0);
    Pow10PlusTwo(k - x.scale);
    TimesHundredRegroup(x.digits, Pow10(k - x.scale));
  }

  /** The quotient carries `prec` digits. */
  lemma DivideDenotes(a: nat, b: nat, prec: Precision) returns (c: nat, k: nat)
    requires a > 0 && b > 0 && a < b * Pow10(prec)
    ensures a * Pow10(k) >= b * Pow10(prec - 1) && c == HalfEven(a * Pow10(k), b)
    ensures Denotes(Divide(a, b, prec), c, k) && Divide(a, b, prec).scale >= k - 1
    ensures Pow10(prec - 1) <= Divide(a, b, prec).digits < Pow10(prec)
  {
    k := QuotientScale(a, b, 0, prec);
    c := HalfEven(a * Pow10(k), b);
    QuotientDigits(a * Pow10(k), b, c, Pow10(prec - 1));
    NormaliseDenotes(c, k, prec);
  }

  lemma NormaliseDenotes(c: nat, k: nat, prec: Precision)
    requires Pow10(prec - 1) <= c <= Pow10(prec)
    ensures Denotes(Normalise(c, k, prec), c, k) && Normalise(c, k, prec).scale >= k - 1
    ensures Pow10(prec - 1) <= Normalise(c, k, prec).digits < Pow10(prec)
  {
    assert Pow10(1) == 10 && Pow10(0) == 1;
  }

  /** A numerator well below the precision leaves the quotient digits beyond `e` places. */
  lemma PlacesToSpare(a: nat, b: nat, k: nat, e: nat, m: nat, prec: Precision)
    requires m == Pow10(e)
    requires a > 0 && b > 0 && a * Pow10(k) >= b * Pow10(prec - 1) && a * m < Pow10(prec - 1)
    ensures k > e && Pow10(k) > b * m
  {
    ScaleBeyond(a, b, Pow10(k), m, Pow10(prec - 1));
    if k <= e { Pow10Monotone(k, e); MulPositive(b, m); }
  }

  lemma FitsPrecision(a: nat, b: nat, m: nat, low: nat)
    requires b > 0 && m > 0 && a * m < low
    ensures a < b * (10 * low)
  {
    MulMonotone(1, m, a);
    MulMonotone(1, b, 10 * low);
  }

  lemma AtMostExact(n: nat, d: nat, t: nat)
    requires d > 0 && n <= d * t
    ensures HalfEven(n, d) <= t
  {
    var c := HalfEven(n, d);
    HalfEvenBounds(n, d);
    assert 2 * d * c == 2 * (c * d) && (t + 1) * d == d * t + d;
    if c > t { MulMonotone(t + 1, c, d); }
  }

  lemma QuotientDigits(n: nat, b: nat, c: nat, low: nat)
    requires b > 0 && c == HalfEven(n, b) && b * low <= n < b * (10 * low)
    ensures low <= c <= 10 * low
  {
    DivideAtLeast(n, b, low);
    HalfEvenBounds(n, b);
    AtMostExact(n, b, 10 * low);
  }

  lemma ScaleBeyond(a: nat, b: nat, p: nat, m: nat, low: nat)
    requires a > 0 && b > 0 && a * p >= b * low && a * m < low
    ensures p > b * m
  {
    MulMonotone(a * m + 1, low, b);
    assert (a * m + 1) * b > b * m * a;
    if p <= b * m { MulMonotone(p, b * m, a); }
  }

  lemma SplitUnits(k: nat, e: nat)
    requires k > e
    ensures Pow10(k) == Pow10(e) * (10 * Pow10(k - e - 1))
  {
    Pow10Add(e, k - e);
  }

  /** Two roundings in a row, to 28 digits and then to an integer multiple of `1 / 10^e`,
      amount to one. */
  lemma SingleRounding(a: nat, b: nat, c: nat, k: nat, e: nat, m: nat, whole: nat)
    requires m == Pow10(e) && whole == Pow10(k)
    requires b > 0 && k > e && whole > b * m && c == HalfEven(a * whole, b)
    ensures HalfUp(m * c, whole) == HalfUp(m * a, b)
  {
    var p := Pow10(k - e - 1);
    SplitUnits(k, e);
    UnitsPerHalf(m, p, b, whole);
    DoubleRounding(a, b, c, m, 5 * p, whole);
  }

  lemma UnitsPerHalf(m: nat, p: nat, b: nat, whole: nat)
    requires m > 0 && whole == m * (10 * p) && whole > b * m
    ensures whole == 2 * m * (5 * p) && 2 * (5 * p) > b
  {
    if 10 * p <= b { MulMonotone(10 * p, b, m); }
  }

  /** Before any rounding to places the code holds `100 * c / 10^k`. */
  lemma PercentageRoute(a: nat, b: nat, prec: Precision) returns (c: nat, k: nat)
    requires a > 0 && b > 0 && a < b * Pow10(prec)
    ensures a * Pow10(k) >= b * Pow10(prec - 1) && c == HalfEven(a * Pow10(k), b)
    ensures k > 4 ==> Quantize(TimesHundred(Divide(a, b, prec), prec)) == HalfUp(10000 * c, Pow10(k))
  {
    c, k := DivideDenotes(a, b, prec);
    if k > 4 {
      TimesHundredDenotes(Divide(a, b, prec), c, k, prec);
      QuantizeDenoted(TimesHundred(Divide(a, b, prec), prec), 100 * c, k);
    }
  }

  lemma PercentageOfMagnitude(a: nat, b: nat, prec: Precision)
    requires b > 0 && a * 10000 < Pow10(prec - 1)
    ensures Quantize(TimesHundred(Divide(a, b, prec), prec)) == HalfUp(10000 * a, b)
  {
    if a > 0 {
      FitsPrecision(a, b, 10000, Pow10(prec - 1));
      var c, k := PercentageRoute(a, b, prec);
      assert Pow10(4) == 10000;
      PlacesToSpare(a, b, k, 4, 10000, prec);
      SingleRounding(a, b, c, k, 4, 10000, Pow10(k));
    }
  }

  /** The percentage is the exact quotient rounded once, ties away from zero (roundTiesToAway,
      section 4.3.1 of IEEE 754-2008), for every score with up to 23 digits in hundredths; the
      columns hold 10. Without a positive total it is zero. */
  lemma PercentageIsExact(score: int, total: int)
    requires Abs(score) * 10000 < Pow10(DEFAULT - 1)
    ensures Percentage(score, total) == if total > 0 then RoundTiesToAway(10000 * score, total) else 0
  {
    if total > 0 {
      PercentageOfMagnitude(Abs(score), total, DEFAULT);
      HalfUpIsTiesToAway(10000 * Abs(score), total);
    }
  }

  lemma PercentageIsMonotone(low: int, high: int, total: int)
    requires low <= high && Abs(low) * 10000 < Pow10(DEFAULT - 1) && Abs(high) * 10000 < Pow10(DEFAULT - 1)
    ensures Percentage(low, total) <= Percentage(high, total)
  {
    if total > 0 {
      PercentageIsExact(low, total);
      PercentageIsExact(high, total);
      RoundTiesToAwayMonotone(10000 * low, 10000 * high, total);
    }
  }

  lemma RoundTiesToAwayMonotone(m: int, n: int, d: nat)
    requires d > 0 && m <= n
    ensures RoundTiesToAway(m, d) <= RoundTiesToAway(n, d)
  {
    DivMonotone(2 * m + d, 2 * n + d, 2 * d);
    DivMonotone(2 * -n + d, 2 * -m + d, 2 * d);
    if m < 0 <= n {
      DivMonotone(0, 2 * n + d, 2 * d);
      DivMonotone(0, 2 * -m + d, 2 * d);
    }
  }

  lemma QuotientIs(n: nat, d: nat, q: nat, r: nat)
    requires n == d * q + r && r < d
    ensures n / d == q
  {
    DivideAtLeast(n, d, q);
    assert d * (n / d) <= n;
    if n / d > q { MulMonotone(q + 1, n / d, d); }
  }

  lemma TenfoldRight(x: nat, p: nat)
    ensures x * (10 * p) == 10 * (x * p)
  {
  }

  /** The digits that go are the fewest that leave a quotient that fits the precision. */
  lemma {:induction false} DropIsLeast(a: nat, b: nat, prec: Precision)
    requires b > 0
    ensures var drop, limit := QuotientDrop(a, b, prec), b * Pow10(prec);
      a < limit * Pow10(drop) && (drop > 0 ==> a >= limit * Pow10(drop - 1))
    decreases a
  {
    var limit := b * Pow10(prec);
    if a < limit {
      assert Pow10(0) == 1;
    } else {
      MulPositive(b, Pow10(prec));
      var less := QuotientDrop(a / 10, b, prec);
      DropIsLeast(a / 10, b, prec);
      TenfoldRight(limit, Pow10(less));
      if less > 0 { TenfoldRight(limit, Pow10(less - 1)); } else { assert Pow10(0) == 1; }
    }
  }

  /** A whole quotient needs no rounding. */
  lemma RoundWhole(v: int, d: nat)
    requires d > 0
    ensures RoundTiesToAway(v * d, d) == v
  {
    var a := Abs(v);
    assert Abs(v * d) == a * d && (v * d >= 0 <==> v >= 0);
    assert 2 * (a * d) + d == (2 * d) * a + d;
    QuotientIs(2 * (a * d) + d, 2 * d, a, d);
  }

  /** A quotient between two integers is rounded to one between them. */
  lemma RoundBetween(n: int, d: nat, low: int, high: int)
    requires d > 0 && low * d <= n <= high * d
    ensures low <= RoundTiesToAway(n, d) <= high
  {
    RoundWhole(low, d);
    RoundWhole(high, d);
    RoundTiesToAwayMonotone(low * d, n, d);
    RoundTiesToAwayMonotone(n, high * d, d);
  }

  lemma DivMonotone(x: int, y: int, d: nat)
    requires d > 0 && x <= y
    ensures x / d <= y / d
  {
    var p, q := x / d, y / d;
    assert x == d * p + x % d && y == d * q + y % d;
    assert d * (q + 1) == d * q + d;
    if p > q { MulGap(p, q, d); }
  }

  lemma MulGap(p: int, q: int, d: nat)
    requires p > q
    ensures d * p >= d * (q + 1)
  {
  }

  /** A score of at most the total is at most 100.00, whatever the amounts, and exactly the
      total is exactly 100.00. */
  lemma PercentageAtMostHundred(score: int, total: int)
    requires score <= total
    ensures Percentage(score, total) <= 10000
    ensures score >= 0 ==> Percentage(score, total) >= 0
    ensures score == total > 0 ==> Percentage(score, total) == 10000
  {
    if 0 < score {
      MulMonotone(2, Pow10(DEFAULT), total);
      var c, k := PercentageRoute(score, total, DEFAULT);
      ScaleOfUnitQuotient(score, total, k, DEFAULT);
      UnitQuotient(score, total, c, Pow10(k));
    }
  }

  lemma ScaleOfUnitQuotient(a: nat, b: nat, k: nat, prec: Precision)
    requires 0 < a <= b && a * Pow10(k) >= b * Pow10(prec - 1)
    ensures k >= prec - 1
  {
    AtLeastUnit(a, b, Pow10(k), Pow10(prec - 1));
    if k < prec - 1 { Pow10Monotone(k, prec - 2); }
  }

  lemma AtLeastUnit(a: nat, b: nat, p: nat, low: nat)
    requires 0 < a <= b && a * p >= b * low
    ensures p >= low
  {
    MulMonotone(a, b, low);
    if p < low { MulMonotone(p + 1, low, a); }
  }

  lemma UnitQuotient(a: nat, b: nat, c: nat, p: nat)
    requires 0 < a <= b && p > 0 && c == HalfEven(a * p, b)
    ensures HalfUp(10000 * c, p) <= 10000
    ensures a == b ==> HalfUp(10000 * c, p) == 10000
  {
    MulMonotone(a, b, p);
    AtMostExact(a * p, b, p);
    HalfUpThreshold(10000 * c, p, 10001);
    if a == b {
      DivideAtLeast(a * p, b, p);
      HalfEvenBounds(a * p, b);
      HalfUpThreshold(10000 * c, p, 10000);
    }
  }

  lemma AverageOfMagnitude(a: nat, count: nat, prec: Precision)
    requires count > 0 && a * 100 < Pow10(prec - 1)
    ensures Quantize(Divide(a, 100 * count, prec)) == HalfUp(a, count)
  {
    var b := 100 * count;
    if a > 0 {
      FitsPrecision(a, b, 100, Pow10(prec - 1));
      var c, k := DivideDenotes(a, b, prec);
      assert Pow10(2) == 100;
      PlacesToSpare(a, b, k, 2, 100, prec);
      QuantizeDenoted(Divide(a, b, prec), c, k);
      SingleRounding(a, b, c, k, 2, 100, Pow10(k));
      HalfUpRatio(a, count, 100);
    }
  }

  /** The average is the exact quotient rounded once as well. */
  lemma AverageIsExact(sum: int, count: nat)
    requires count > 0 && Abs(sum) * 100 < Pow10(DEFAULT - 1)
    ensures Average(sum, count) == RoundTiesToAway(sum, count)
  {
    AverageOfMagnitude(Abs(sum), count, DEFAULT);
    HalfUpIsTiesToAway(Abs(sum), count);
  }
}
