/** The double-precision arithmetic the source does on nonnegative quotients: each operation rounds
    its exact result to the nearest 53-bit number, ties to even (section 4.3.1 of IEEE 754-2019).
    The quotients here are zero or between 2^-32 and 2^39, so no exponent limit is near. */
module Doubles {
  import opened Numbers

  const P52: nat := 0x10_0000_0000_0000

  /** The number `mantissa / 2^scale`. */
  datatype Double = Double(mantissa: nat, scale: nat)

  /** The integer nearest to `n / d`, the even one of two. */
  function RoundEven(n: nat, d: nat): nat
    requires d > 0
  {
    var q, r := n / d, n % d;
    if 2 * r < d || (2 * r == d && q % 2 == 0) then q else q + 1
  }

  /** How often `num` must be doubled for `num / den` to reach 2^52. */
  function Doublings(num: nat, den: nat): nat
    requires 0 < num && 0 < den
    decreases P52 * den - num
  {
    if num >= P52 * den then 0 else 1 + Doublings(2 * num, den)
  }

  /** The double nearest to `num / den`, for quotients below 2^52. */
  function Nearest(num: nat, den: nat): Double
    requires 0 < den && num < P52 * den
  {
    if num == 0 then Double(0, 0)
    else
      var k := Doublings(num, den);
      Double(RoundEven(num * Pow2(k), den), k)
  }

  /** `f64::round`: to the nearest integer, halves away from zero. */
  function Round(x: Double): nat
  {
    (2 * x.mantissa + Pow2(x.scale)) / (2 * Pow2(x.scale))
  }

  lemma RoundEvenError(n: nat, d: nat)
    requires d > 0
    ensures 2 * n - d <= 2 * (RoundEven(n, d) * d) <= 2 * n + d
  {
    var q, r := n / d, n % d;
    assert n == q * d + r;
    assert (q + 1) * d == q * d + d;
  }

  lemma TimesMonotone(a: nat, b: nat, d: nat)
    ensures a <= b ==> a * d <= b * d
  {
  }

  /** Rounding does not cross an integer. */
  lemma RoundEvenKeepsBounds(n: nat, d: nat, b: nat)
    requires d > 0
    ensures n <= b * d ==> RoundEven(n, d) <= b
    ensures n >= b * d ==> RoundEven(n, d) >= b
  {
    var q, r := n / d, n % d;
    assert n == q * d + r;
    TimesMonotone(b + 1, q, d);
    TimesMonotone(q + 1, b, d);
    assert (b + 1) * d == b * d + d && (q + 1) * d == q * d + d;
  }

  /** Doubling stops between 2^52 and 2^53, unless the quotient was already past it. */
  lemma {:induction false} DoublingsScale(num: nat, den: nat)
    requires 0 < num && 0 < den
    ensures P52 * den <= num * Pow2(Doublings(num, den))
    ensures num < P52 * den ==> Doublings(num, den) >= 1 && num * Pow2(Doublings(num, den)) < 2 * P52 * den
    decreases P52 * den - num
  {
    if num < P52 * den {
      DoublingsScale(2 * num, den);
      var k := Doublings(2 * num, den);
      assert Pow2(k + 1) == 2 * Pow2(k);
      assert num * (2 * Pow2(k)) == (2 * num) * Pow2(k);
      if 2 * num >= P52 * den {
        assert k == 0;
      }
    }
  }

  lemma {:induction false} Pow2Grows(a: nat, b: nat)
    requires a <= b
    ensures Pow2(a) <= Pow2(b)
  {
    if a < b {
      Pow2Grows(a, b - 1);
    }
  }

  // ---- a percentage in doubles -----------------------------------------------------------------------

  /** The quotient of two 32-bit counts stays far below 2^52 when it is multiplied by 100. */
  lemma HundredfoldIsSmall(part: u32, whole: u32)
    requires whole > 0
    ensures part < P52 * whole
    ensures var q := Nearest(part, whole); 100 * q.mantissa < P52 * Pow2(q.scale)
  {
    TimesMonotone(1, whole, P52);
    var q := Nearest(part, whole);
    var v := Pow2(q.scale);
    if part > 0 {
      TimesMonotone(part, 0x1_0000_0000 * whole, v);
      assert 0x1_0000_0000 * whole * v == 0x1_0000_0000 * v * whole;
      TimesMonotone(1, whole, 0x1_0000_0000);
      RoundEvenKeepsBounds(part * v, whole, 0x1_0000_0000 * v);
    }
  }

  /** `((part as f64 / whole as f64) * 100.0).round()` */
  function Percentage(part: u32, whole: u32): nat
    requires whole > 0
  {
    HundredfoldIsSmall(part, whole);
    var q := Nearest(part, whole);
    Round(Nearest(100 * q.mantissa, Pow2(q.scale)))
  }

  /** The two roundings of a percentage: the quotient is `m / v`, its hundredfold `h / w`. */
  predicate Stages(part: nat, whole: nat, v: nat, m: nat, w: nat, h: nat)
  {
    && P52 * whole <= part * v < 2 * P52 * whole
    && 2 * (part * v) - whole <= 2 * (m * whole) <= 2 * (part * v) + whole
    && m <= v
    && P52 * v <= 100 * m * w < 2 * P52 * v
    && 2 * (100 * m * w) - v <= 2 * (h * v) <= 2 * (100 * m * w) + v
    && h <= 100 * w
  }

  lemma QuotientStage(num: nat, den: nat, bound: nat)
    requires 0 < num < P52 * den && num <= bound * den
    ensures var q := Nearest(num, den); var v := Pow2(q.scale);
      && q.scale >= 1
      && P52 * den <= num * v < 2 * P52 * den
      && 2 * (num * v) - den <= 2 * (q.mantissa * den) <= 2 * (num * v) + den
      && q.mantissa <= bound * v
      && q.mantissa >= P52
  {
    var k := Doublings(num, den);
    var v := Pow2(k);
    DoublingsScale(num, den);
    RoundEvenError(num * v, den);
    TimesMonotone(num, bound * den, v);
    assert bound * den * v == bound * v * den;
    RoundEvenKeepsBounds(num * v, den, bound * v);
    RoundEvenKeepsBounds(num * v, den, P52);
  }

  /** The percentage of a part, with its roundings spelled out. */
  lemma PercentageStages(part: u32, whole: u32) returns (v: nat, m: nat, w: nat, h: nat, half: nat)
    requires 0 < part <= whole
    ensures Stages(part, whole, v, m, w, h) && v > 0 && w == 2 * half && half > 0
    ensures Percentage(part, whole) == (2 * h + w) / (2 * w)
  {
    HundredfoldIsSmall(part, whole);
    QuotientStage(part, whole, 1);
    var q := Nearest(part, whole);
    v, m := Pow2(q.scale), q.mantissa;
    QuotientStage(100 * m, v, 100);
    var p := Nearest(100 * m, v);
    w, h := Pow2(p.scale), p.mantissa;
    half := Pow2(p.scale - 1);
  }

  lemma ScaleIsLarge(part: nat, whole: nat, v: nat)
    requires part <= whole && P52 * whole <= part * v && whole > 0
    ensures v >= P52
  {
    TimesMonotone(part, whole, v);
    TimesMonotone(v + 1, P52, whole);
    assert (v + 1) * whole == whole * v + whole;
  }

  // ---- away from the halves -----------------------------------------------------------------------------

  /** What is missing from `a` 200ths of the whole survives the first rounding. */
  lemma FirstRoundingBelow(part: nat, whole: nat, a: nat, v: nat, m: nat)
    requires 200 * part < a * whole && 2 * (m * whole) <= 2 * (part * v) + whole
    ensures 200 * (m * whole) + v <= a * (whole * v) + 100 * whole
  {
    TimesMonotone(200 * part + 1, a * whole, v);
    assert (200 * part + 1) * v == 200 * (part * v) + v;
    assert a * whole * v == a * (whole * v);
  }

  lemma Expand(whole: nat, a: nat, v: nat, m: nat, w: nat)
    ensures (200 * (m * whole) + v) * w == 2 * (100 * m * w * whole) + v * w
    ensures (a * (whole * v) + 100 * whole) * w == a * w * (v * whole) + 100 * (whole * w)
  {
    assert (m * whole) * w == m * w * whole;
    assert a * (whole * v) * w == a * w * (v * whole);
    assert (a * (whole * v) + 100 * whole) * w == a * (whole * v) * w + 100 * whole * w;
  }

  /** ... and, times the second scale, it is compared with the hundredfold. */
  lemma HundredfoldBelow(whole: nat, a: nat, v: nat, m: nat, w: nat)
    requires 200 * (m * whole) + v <= a * (whole * v) + 100 * whole
    ensures 2 * (100 * m * w * whole) + v * w <= a * w * (v * whole) + 100 * (whole * w)
  {
    TimesMonotone(200 * (m * whole) + v, a * (whole * v) + 100 * whole, w);
    Expand(whole, a, v, m, w);
  }

  /** The second rounding, times the whole. */
  lemma SecondRounding(n: nat, whole: nat, v: nat, h: nat)
    requires 2 * (h * v) <= 2 * n + v
    ensures 2 * (h * (v * whole)) <= 2 * (n * whole) + v * whole
  {
    TimesMonotone(2 * (h * v), 2 * n + v, whole);
    assert 2 * (h * v) * whole == 2 * (h * (v * whole));
    assert (2 * n + v) * whole == 2 * (n * whole) + v * whole;
  }

  lemma SecondScaleIsLarge(v: nat, m: nat, w: nat)
    requires v > 0 && m <= v && P52 * v <= 100 * m * w
    ensures 100 * w >= P52
  {
    TimesMonotone(100 * m, 100 * v, w);
    TimesMonotone(100 * w + 1, P52, v);
    assert 100 * v * w == 100 * w * v && (100 * w + 1) * v == 100 * w * v + v;
  }

  /** The gap of one 200th outweighs both rounding errors. */
  lemma SlackIsEnough(whole: nat, v: nat, w: nat)
    requires 0 < whole < 0x1_0000_0000 && P52 <= v && P52 <= 100 * w
    ensures 100 * (whole * w) + v * whole < v * w
  {
    TimesMonotone(4 * whole, w, v);
    TimesMonotone(200 * whole, v, w);
    assert 4 * whole * v == 4 * (v * whole) && 200 * whole * w == 200 * (whole * w) && w * v == v * w;
    TimesMonotone(1, whole, v);
  }

  lemma StaysBelow(aw: nat, vt: nat, vw: nat, tw: nat, h: nat, nw: nat)
    requires 2 * (h * vt) <= 2 * nw + vt
    requires 2 * nw + vw <= aw * vt + 100 * tw
    requires 100 * tw + vt < vw
    ensures 2 * h < aw
  {
    TimesMonotone(aw, 2 * h, vt);
    assert 2 * h * vt == 2 * (h * vt);
  }

  /** A part below `a` 200ths of the whole: both roundings together stay below. */
  lemma BelowTheHalf(part: nat, whole: nat, a: nat, v: nat, m: nat, w: nat, h: nat)
    requires 0 < part <= whole < 0x1_0000_0000 && v > 0 && Stages(part, whole, v, m, w, h)
    requires 200 * part < a * whole
    ensures 2 * h < a * w
  {
    ScaleIsLarge(part, whole, v);
    SecondScaleIsLarge(v, m, w);
    FirstRoundingBelow(part, whole, a, v, m);
    HundredfoldBelow(whole, a, v, m, w);
    SecondRounding(100 * m * w, whole, v, h);
    SlackIsEnough(whole, v, w);
    StaysBelow(a * w, v * whole, v * w, whole * w, h, 100 * m * w * whole);
  }

  lemma GapAbove(part: nat, whole: nat, a: nat, v: nat)
    requires 200 * part > a * whole
    ensures a * v * whole + v <= 200 * (part * v)
  {
    TimesMonotone(a * whole + 1, 200 * part, v);
    assert (a * whole + 1) * v == a * v * whole + v && 200 * part * v == 200 * (part * v);
  }

  lemma FirstRoundingAbove(n: nat, whole: nat, av: nat, v: nat, m: nat)
    requires 0 < whole < 0x1_0000_0000 && P52 <= v
    requires av * whole + v <= 200 * n && 2 * (m * whole) >= 2 * n - whole
    ensures 200 * m >= av
  {
    TimesMonotone(200 * m + 1, av, whole);
    assert (200 * m + 1) * whole == 200 * (m * whole) + whole;
  }

  /** A part above: both roundings together reach it. */
  lemma AboveTheHalf(part: nat, whole: nat, a: nat, v: nat, m: nat, w: nat, h: nat, half: nat)
    requires 0 < part <= whole < 0x1_0000_0000 && v > 0 && Stages(part, whole, v, m, w, h) && w == 2 * half
    requires 200 * part > a * whole
    ensures 2 * h >= a * w
  {
    ScaleIsLarge(part, whole, v);
    GapAbove(part, whole, a, v);
    FirstRoundingAbove(part * v, whole, a * v, v, m);
    SecondReaches(a, v, m, w, h, half);
  }

  lemma SecondReaches(a: nat, v: nat, m: nat, w: nat, h: nat, half: nat)
    requires v > 0 && w == 2 * half && 200 * m >= a * v && 2 * (h * v) >= 2 * (100 * m * w) - v
    ensures 2 * h >= a * w
  {
    TimesMonotone(a * v, 200 * m, half);
    assert 200 * m * half == 100 * m * w && a * v * half == a * half * v;
    TimesMonotone(h + 1, a * half, v);
    assert (h + 1) * v == h * v + v;
    assert a * w == 2 * (a * half);
  }

  lemma FloorBetween(n: nat, d: nat, e: nat)
    requires d > 0 && e * d <= n < e * d + d
    ensures n / d == e
  {
    assert n == d * (n / d) + n % d;
    TimesMonotone(n / d + 1, e, d);
    TimesMonotone(e + 1, n / d, d);
    assert (n / d + 1) * d == (n / d) * d + d && (e + 1) * d == e * d + d;
  }

  lemma Halves(d: nat, e: nat)
    ensures (2 * e - 1) * d == e * (2 * d) - d && (2 * e + 1) * d == e * (2 * d) + d
  {
  }

  /** Between the half below and the half above `e` the result is `e`. */
  lemma RoundsTo(h: nat, w: nat, e: nat)
    requires w > 0 && (2 * e - 1) * w <= 2 * h < (2 * e + 1) * w
    ensures (2 * h + w) / (2 * w) == e
  {
    Halves(w, e);
    FloorBetween(2 * h + w, 2 * w, e);
  }

  /** The percentage rounded half up, in exact arithmetic. */
  function HalfUp(part: nat, whole: nat): nat
    requires whole > 0
  {
    (200 * part + whole) / (2 * whole)
  }

  lemma HalfUpIsBetween(part: nat, whole: nat)
    requires whole > 0
    ensures var e := HalfUp(part, whole); (2 * e - 1) * whole <= 200 * part < (2 * e + 1) * whole
  {
    var n, d := 200 * part + whole, 2 * whole;
    assert n == d * (n / d) + n % d;
    Halves(whole, n / d);
  }

  /** Away from the halves the two roundings change nothing. */
  lemma RoundsExactly(part: u32, whole: u32, e: nat)
    requires 0 < part <= whole && (2 * e - 1) * whole < 200 * part < (2 * e + 1) * whole
    ensures Percentage(part, whole) == e
  {
    var v, m, w, h, half := PercentageStages(part, whole);
    BelowTheHalf(part, whole, 2 * e + 1, v, m, w, h);
    if e > 0 {
      AboveTheHalf(part, whole, 2 * e - 1, v, m, w, h, half);
    }
    RoundsTo(h, w, e);
  }

  // ---- on a half ---------------------------------------------------------------------------------------

  lemma NeighbourOf(n: nat, d: nat, m: nat, q: nat, r: nat)
    requires r < d && n == q * d + r && 2 * n - d <= 2 * (m * d) <= 2 * n + d
    ensures m == q || m == q + 1
  {
    TimesMonotone(q + 2, m, d);
    TimesMonotone(m + 1, q, d);
    assert (q + 2) * d == q * d + 2 * d && (m + 1) * d == m * d + d;
  }

  /** The rounded integer is the one within half a divisor, the even one if two are. */
  lemma RoundEvenIs(n: nat, d: nat, m: nat)
    requires d > 0 && 2 * n - d <= 2 * (m * d) <= 2 * n + d
    requires 2 * n - d == 2 * (m * d) || 2 * (m * d) == 2 * n + d ==> m % 2 == 0
    ensures RoundEven(n, d) == m
  {
    var q, r := n / d, n % d;
    assert n == q * d + r;
    NeighbourOf(n, d, m, q, r);
    assert (q + 1) * d == q * d + d;
    if m == q {
      assert m * d == q * d;
    } else {
      assert m * d == q * d + d;
    }
  }

  lemma ScaleDoubles(num: nat, k: nat, a: nat)
    requires k < a
    ensures num * Pow2(a) >= 2 * (num * Pow2(k))
  {
    Pow2Grows(k + 1, a);
    TimesMonotone(2 * Pow2(k), Pow2(a), num);
    assert 2 * Pow2(k) * num == 2 * (num * Pow2(k));
  }

  /** A scale at which the quotient has 53 bits is the one. */
  lemma ScaleIs(num: nat, den: nat, k: nat, v: nat)
    requires 0 < num < P52 * den && v == Pow2(k) && P52 * den <= num * v < 2 * P52 * den
    ensures Nearest(num, den).scale == k
  {
    DoublingsScale(num, den);
    var d := Doublings(num, den);
    if d < k {
      ScaleDoubles(num, d, k);
    } else if k < d {
      ScaleDoubles(num, k, d);
    }
  }

  /** A quotient whose first 53 bits are known is that double. */
  lemma NearestIs(num: nat, den: nat, k: nat, m: nat, v: nat)
    requires 0 < num < P52 * den && v == Pow2(k)
    requires P52 * den <= num * v < 2 * P52 * den
    requires 2 * (num * v) - den <= 2 * (m * den) <= 2 * (num * v) + den
    requires 2 * (num * v) - den == 2 * (m * den) || 2 * (m * den) == 2 * (num * v) + den ==> m % 2 == 0
    ensures Nearest(num, den) == Double(m, k)
  {
    ScaleIs(num, den, k, v);
    RoundEvenIs(num * v, den, m);
  }

  lemma {:induction false} Pow2Sum(a: nat, b: nat)
    ensures Pow2(a + b) == Pow2(a) * Pow2(b)
  {
    if b > 0 {
      Pow2Sum(a, b - 1);
      assert Pow2(a) * (2 * Pow2(b - 1)) == 2 * (Pow2(a) * Pow2(b - 1));
    }
  }

  lemma TimesWithin(x: nat, y: nat, g: nat, d: nat)
    requires d > 0
    ensures x - g <= y <= x + g ==> x * d - g * d <= y * d <= x * d + g * d
    ensures x - g < y ==> x * d - g * d < y * d
    ensures y < x + g ==> y * d < x * d + g * d
  {
    TimesMonotone(x, y + g, d);
    TimesMonotone(x + 1, y + g, d);
    TimesMonotone(y, x + g, d);
    TimesMonotone(y + 1, x + g, d);
    assert (y + g) * d == y * d + g * d && (x + g) * d == x * d + g * d;
    assert (x + 1) * d == x * d + d && (y + 1) * d == y * d + d;
  }

  lemma TieBounds(n: nat, x: nat, whole: nat, m: nat)
    requires whole > 0 && 200 * n == x * whole && 200 * P52 <= x < 400 * P52 && x - 100 < 200 * m < x + 100
    ensures P52 * whole <= n < 2 * P52 * whole && 2 * n - whole < 2 * (m * whole) < 2 * n + whole
  {
    TimesMonotone(200 * P52, x, whole);
    TimesMonotone(x + 1, 400 * P52, whole);
    assert (x + 1) * whole == x * whole + whole;
    TimesWithin(x, 200 * m, 100, whole);
    assert 200 * m * whole == 200 * (m * whole);
  }

  lemma TieTimes(part: nat, whole: nat, a: nat, v: nat)
    requires 200 * part == a * whole
    ensures 200 * (part * v) == a * v * whole
  {
    assert 200 * part * v == a * whole * v;
  }

  /** The first rounding of `a` 200ths: the numerator is known up to a fraction of 200. */
  lemma QuotientOfTheTie(part: u32, whole: u32, a: nat, k: nat, v: nat, m: nat)
    requires 0 < part <= whole && 200 * part == a * whole && v == Pow2(k)
    requires 200 * P52 <= a * v < 400 * P52 && a * v - 100 < 200 * m < a * v + 100
    ensures Nearest(part, whole) == Double(m, k)
  {
    TieTimes(part, whole, a, v);
    TieBounds(part * v, a * v, whole, m);
    TimesMonotone(1, whole, P52);
    NearestIs(part, whole, k, m, v);
  }

  lemma HundredfoldScale(n: nat, c: nat, w: nat)
    requires w > 0 && P52 * c <= n < 2 * P52 * c
    ensures P52 * (c * w) <= n * w < 2 * P52 * (c * w)
  {
    TimesMonotone(P52 * c, n, w);
    TimesMonotone(n + 1, 2 * P52 * c, w);
    assert P52 * c * w == P52 * (c * w) && (n + 1) * w == n * w + w;
  }

  lemma Regroup(h: nat, c: nat, w: nat)
    ensures 2 * (h * c) * w == 2 * (h * (c * w))
  {
  }

  lemma HundredfoldError(n: nat, c: nat, h: nat, w: nat)
    requires w > 0 && 2 * n - c <= 2 * (h * c) <= 2 * n + c
    requires 2 * n - c == 2 * (h * c) || 2 * (h * c) == 2 * n + c ==> h % 2 == 0
    ensures 2 * (n * w) - c * w <= 2 * (h * (c * w)) <= 2 * (n * w) + c * w
    ensures 2 * (n * w) - c * w == 2 * (h * (c * w)) || 2 * (h * (c * w)) == 2 * (n * w) + c * w ==> h % 2 == 0
  {
    var x, y := 2 * n, 2 * (h * c);
    TimesWithin(x, y, c, w);
    Regroup(h, c, w);
    assert x * w == 2 * (n * w);
  }

  /** The second rounding, of a hundredfold over a power of two `c` times the new scale. */
  lemma HundredfoldOfTheTie(m: nat, v: nat, l: nat, w: nat, c: nat, h: nat)
    requires v == c * w && w == Pow2(l) && 0 < 100 * m < P52 * v
    requires P52 * c <= 100 * m < 2 * P52 * c && 200 * m - c <= 2 * (h * c) <= 200 * m + c
    requires 200 * m - c == 2 * (h * c) || 2 * (h * c) == 200 * m + c ==> h % 2 == 0
    ensures Nearest(100 * m, v) == Double(h, l)
  {
    HundredfoldScale(100 * m, c, w);
    HundredfoldError(100 * m, c, h, w);
    NearestIs(100 * m, v, l, h, w);
  }

  /** The powers of two the ties are built from. */
  lemma Powers()
    ensures Pow2(6) == 64 && Pow2(7) == 128 && Pow2(53) == 2 * P52
  {
    assert Pow2(5) == 32 && Pow2(10) == 1024 && Pow2(13) == 0x2000;
    Pow2Sum(13, 13);
    Pow2Sum(26, 13);
    Pow2Sum(39, 13);
    Pow2Sum(52, 1);
  }

  lemma PowersBelow(j: nat)
    requires j < 8
    ensures Pow2(j) == [1, 2, 4, 8, 16, 32, 64, 128][j]
  {
    assert Pow2(3) == 8;
    assert Pow2(5) == 32;
    assert Pow2(7) == 128;
  }

  /** Which doubling of an odd number lies between 100 and 200. */
  lemma RangeOfTheTie(a: nat) returns (j: nat, p: nat)
    requires 0 < a < 200 && a % 2 == 1
    ensures j < 8 && p == [1, 2, 4, 8, 16, 32, 64, 128][j] && 100 <= a * p < 200
    ensures 113 <= a * p <= 116 <==> a == 29 || a == 57 || a == 113 || a == 115
  {
    j, p := if a > 100 then 0 else if a > 50 then 1 else if a >= 25 then 2 else if a > 12 then 3
            else if a > 6 then 4 else if a > 3 then 5 else if a == 3 then 6 else 7,
            if a > 100 then 1 else if a > 50 then 2 else if a >= 25 then 4 else if a > 12 then 8
            else if a > 6 then 16 else if a > 3 then 32 else if a == 3 then 64 else 128;
  }

  lemma TimesScale(a: nat, p: nat, v: nat)
    requires v == 2 * P52 * p
    ensures a * v == 2 * (a * p) * P52
  {
    assert a * v == 2 * P52 * (a * p);
  }

  /** `a` 200ths, doubled until the quotient has 53 bits. */
  lemma ScaleOfTheTie(a: nat) returns (k: nat, y: nat)
    requires 0 < a < 200 && a % 2 == 1
    ensures k >= 53 && a * Pow2(k) == 2 * y * P52 && 100 <= y < 200
    ensures 113 <= y <= 116 <==> a == 29 || a == 57 || a == 113 || a == 115
  {
    var j, p := RangeOfTheTie(a);
    k, y := 53 + j, a * p;
    PowersBelow(j);
    Powers();
    Pow2Sum(53, j);
    TimesScale(a, p, Pow2(k));
  }

  /** The first mantissa of a tie, and the second: one below the half, one above it, or on it. */
  function FirstMantissa(y: nat): nat
    requires 100 <= y
  {
    45035996273705 * y - (2 * y + 25) / 50
  }

  function Drift(y: nat): int
  {
    if 113 <= y <= 116 then -1 else if 109 <= y <= 112 then 1 else 0
  }

  lemma FirstDrift(y: nat) returns (e: int)
    requires 100 <= y < 200
    ensures 200 * FirstMantissa(y) == 2 * y * P52 + e && -100 < e < 100
    ensures y < 113 ==> e == 8 * (y - 100)
    ensures 113 <= y < 138 ==> e == 8 * (y - 125)
  {
    e := 8 * y - 200 * ((2 * y + 25) / 50);
  }

  /** The hundredfold of the first mantissa, over 64 or 128 times the new scale. */
  lemma SecondDrift(y: nat, c: nat, h: nat)
    requires 100 <= y < 200 && c == (if y < 128 then 64 else 128) && h * c == y * P52 + Drift(y) * c
    ensures var m := FirstMantissa(y);
      && P52 * c <= 100 * m < 2 * P52 * c
      && 200 * m - c <= 2 * (h * c) <= 200 * m + c
      && (200 * m - c == 2 * (h * c) || 2 * (h * c) == 200 * m + c ==> h % 2 == 0)
  {
    var e := FirstDrift(y);
  }

  /** Half of a percent is kept or lost by the second rounding alone. */
  lemma RoundedTie(a: nat, w: nat, h: nat, y: nat)
    requires a % 2 == 1 && w > 2 && 2 * h == a * w + 2 * Drift(y)
    ensures (2 * h + w) / (2 * w) == if 113 <= y <= 116 then (a - 1) / 2 else (a + 1) / 2
  {
    var e := if 113 <= y <= 116 then (a - 1) / 2 else (a + 1) / 2;
    assert (2 * e - 1) * w <= 2 * h < (2 * e + 1) * w by {
      assert (a - 2) * w == a * w - 2 * w && (a + 2) * w == a * w + 2 * w;
    }
    RoundsTo(h, w, e);
  }

  /** The second scale is 64 or 128 times smaller than the first. */
  lemma SecondScale(a: nat, k: nat, y: nat) returns (l: nat, c: nat)
    requires k >= 53 && a * Pow2(k) == 2 * y * P52
    ensures c == (if y < 128 then 64 else 128) && Pow2(k) == c * Pow2(l) && Pow2(l) > 2
    ensures c * (a * Pow2(l)) == 2 * (y * P52)
  {
    var j := if y < 128 then 6 else 7;
    l, c := k - j, if y < 128 then 64 else 128;
    Powers();
    Pow2Sum(l, j);
    Pow2Grows(2, l);
    assert Pow2(2) == 4;
    assert c * (a * Pow2(l)) == a * (c * Pow2(l));
  }

  lemma RoundsTie(part: u32, whole: u32, a: nat)
    requires 0 < part <= whole && 200 * part == a * whole && 0 < a < 200 && a % 2 == 1
    ensures Percentage(part, whole)
         == if a == 29 || a == 57 || a == 113 || a == 115 then (a - 1) / 2 else (a + 1) / 2
  {
    var k, y := ScaleOfTheTie(a);
    var m := FirstMantissa(y);
    var e := FirstDrift(y);
    QuotientOfTheTie(part, whole, a, k, Pow2(k), m);
    var l, c := SecondScale(a, k, y);
    var h := y * (P52 / c) + Drift(y);
    HundredfoldIsSmall(part, whole);
    SecondDrift(y, c, h);
    HundredfoldOfTheTie(m, Pow2(k), l, Pow2(l), c, h);
    RoundedTie(a, Pow2(l), h, y);
  }

  // ---- the percentage --------------------------------------------------------------------------------------

  /** Four fractions are an exact half percent that the doubles round down. */
  predicate LosesItsHalf(part: nat, whole: nat)
  {
    200 * part in {29 * whole, 57 * whole, 113 * whole, 115 * whole}
  }

  /** A fraction on the half below `e` is on no other. */
  lemma HalfOf(whole: nat, e: nat, a: nat)
    requires whole > 0 && e > 0 && a % 2 == 1 && (2 * e - 1) * whole <= a * whole < (2 * e + 1) * whole
    ensures a == 2 * e - 1
  {
    TimesMonotone(2 * e + 1, a, whole);
    TimesMonotone(a + 1, 2 * e - 1, whole);
    assert (a + 1) * whole == a * whole + whole;
  }

  lemma LostHalf(part: nat, whole: nat, e: nat)
    requires whole > 0 && e > 0 && (2 * e - 1) * whole <= 200 * part < (2 * e + 1) * whole
    ensures LosesItsHalf(part, whole) <==> e in {15, 29, 57, 58} && 200 * part == (2 * e - 1) * whole
  {
    if 200 * part == 29 * whole {
      HalfOf(whole, e, 29);
    } else if 200 * part == 57 * whole {
      HalfOf(whole, e, 57);
    } else if 200 * part == 113 * whole {
      HalfOf(whole, e, 113);
    } else if 200 * part == 115 * whole {
      HalfOf(whole, e, 115);
    }
  }

  lemma PercentOfPart(part: nat, whole: nat, e: nat)
    requires whole > 0 && part <= whole && (2 * e - 1) * whole <= 200 * part
    ensures e <= 100
  {
    if e > 100 {
      TimesMonotone(201, 2 * e - 1, whole);
    }
  }

  /** A part between the halves around `e`, or on the one below it. */
  lemma PercentageBetween(part: u32, whole: u32, e: nat)
    requires 0 < part <= whole && (2 * e - 1) * whole <= 200 * part < (2 * e + 1) * whole
    ensures Percentage(part, whole) == if LosesItsHalf(part, whole) then e - 1 else e
  {
    if e == 0 {
      SmallPartKeepsItsHalf(part, whole);
      RoundsExactly(part, whole, e);
    } else {
      LostHalf(part, whole, e);
      PercentOfPart(part, whole, e);
      if 200 * part == (2 * e - 1) * whole {
        RoundsTie(part, whole, 2 * e - 1);
      } else {
        RoundsExactly(part, whole, e);
      }
    }
  }

  lemma SmallPartKeepsItsHalf(part: nat, whole: nat)
    requires whole > 0 && 200 * part < whole
    ensures !LosesItsHalf(part, whole)
  {
  }

  /** The percentage is the exact one rounded half up, except for the four fractions: for these it
      is one less. */
  lemma PercentageIsHalfUpIff(part: u32, whole: u32)
    requires whole > 0 && part <= whole
    ensures Percentage(part, whole) == HalfUp(part, whole) <==> !LosesItsHalf(part, whole)
    ensures LosesItsHalf(part, whole) ==> Percentage(part, whole) == HalfUp(part, whole) - 1
  {
    var e := HalfUp(part, whole);
    HalfUpIsBetween(part, whole);
    if part == 0 {
      SmallPartKeepsItsHalf(part, whole);
      FloorBetween(whole, 2 * whole, 0);
    } else {
      PercentageBetween(part, whole, e);
    }
  }

  /** The hundredth percent begins half a percent below it. */
  lemma HalfUpIsHundredIff(part: nat, whole: nat)
    requires 0 < whole && part <= whole
    ensures HalfUp(part, whole) <= 100
    ensures HalfUp(part, whole) == 100 <==> 200 * (whole - part) <= whole
  {
    var e := HalfUp(part, whole);
    HalfUpIsBetween(part, whole);
    PercentOfPart(part, whole, e);
    if e <= 99 {
      TimesMonotone(2 * e + 1, 199, whole);
    }
  }

  /** The percentage of a part is at most 100. It rounds to 100 exactly when at most one in 200 is
      missing, at the tie too. */
  lemma PercentageIsHundredIff(part: u32, whole: u32)
    requires whole > 0 && part <= whole
    ensures Percentage(part, whole) <= 100
    ensures Percentage(part, whole) == 100 <==> 200 * (whole - part) <= whole
  {
    PercentageIsHalfUpIff(part, whole);
    HalfUpIsHundredIff(part, whole);
  }
}
