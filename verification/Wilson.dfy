/**
 `proportion`: the 95% Wilson score interval of k successes in n trials, in exact reals.

 The routine computes a centre and a half-width and clamps both ends to [0, 1]. The
 interval is proved to be what Wilson's method promises, the set of success rates that a
 score test at z would not reject, and the clamps are proved never to act.
 */
module Wilson {

  import opened Common

  datatype Bounds = Bounds(rate: real, low: real, high: real)

  datatype Report = Report(count: nat, n: nat, bounds: Option<Bounds>)

  /** The 97.5% quantile of the normal distribution, as the program writes it. */
  const Z95 := 1.959963984540054

  function Max(a: real, b: real): real {
    if a < b then b else a
  }

  function Min(a: real, b: real): real {
    if b < a then b else a
  }

  /** `math.sqrt`, known only by what it returns on numbers that have a root. */
  ghost predicate IsSquareRoot(sqrt: real -> real) {
    forall x: real :: x >= 0.0 ==> sqrt(x) >= 0.0 && sqrt(x) * sqrt(x) == x
  }

  /** k successes in n trials, tested at z. */
  ghost predicate Sample(z: real, k: nat, n: nat) {
    z > 0.0 && 0 < n && k <= n
  }

  function Rate(k: nat, n: nat): real
    requires n > 0
  {
    k as real / n as real
  }

  function Denominator(z: real, m: real): real
    requires m > 0.0
  {
    1.0 + z * z / m
  }

  function Radicand(z: real, p: real, m: real): real
    requires m > 0.0
  {
    NonZero(m, 4.0 * m * m);
    p * (1.0 - p) / m + z * z / (4.0 * m * m)
  }

  function Centre(z: real, k: nat, n: nat): real
    requires n > 0
  {
    DenominatorEquation(z, n as real);
    (Rate(k, n) + z * z / (2.0 * n as real)) / Denominator(z, n as real)
  }

  function Half(z: real, k: nat, n: nat, sqrt: real -> real): real
    requires n > 0
  {
    DenominatorEquation(z, n as real);
    z * sqrt(Radicand(z, Rate(k, n), n as real)) / Denominator(z, n as real)
  }

  function Low(z: real, k: nat, n: nat, sqrt: real -> real): real
    requires n > 0
  {
    Centre(z, k, n) - Half(z, k, n, sqrt)
  }

  function High(z: real, k: nat, n: nat, sqrt: real -> real): real
    requires n > 0
  {
    Centre(z, k, n) + Half(z, k, n, sqrt)
  }

  /** The report on an interval, each end clamped to [0, 1]. */
  function Clamped(k: nat, n: nat, low: real, high: real): Report
    requires n > 0
  {
    Report(k, n, Some(Bounds(Rate(k, n), Max(0.0, low), Min(1.0, high))))
  }

  /** The routine, which the program runs at z = Z95. */
  function Proportion(z: real, k: nat, n: nat, sqrt: real -> real): Report {
    if n == 0 then Report(k, n, None) else Clamped(k, n, Low(z, k, n, sqrt), High(z, k, n, sqrt))
  }

  // ------------------------------------------------------------------------ arithmetic

  lemma NonNegativeProduct(a: real, b: real)
    requires a >= 0.0 && b >= 0.0
    ensures a * b >= 0.0
  {
  }

  lemma PositiveProduct(a: real, b: real)
    requires a > 0.0 && b > 0.0
    ensures a * b > 0.0
  {
  }

  lemma NonZero(m: real, s: real)
    requires m > 0.0 && s == 4.0 * m * m
    ensures s > 0.0
  {
    ProductSign(m, m, m * m);
  }

  lemma Cancel(a: real, x: real, y: real)
    requires a != 0.0 && a * x == a * y
    ensures x == y
  {
  }

  lemma SquaresAscend(a: real, b: real)
    requires 0.0 <= a < b
    ensures a * a < b * b
  {
    PositiveProduct(b - a, b + a);
    assert (b - a) * (b + a) == b * b - a * a;
  }

  lemma ProductSign(a: real, b: real, w: real)
    requires a >= 0.0 && b >= 0.0 && w == a * b
    ensures w >= 0.0
    ensures a > 0.0 && b > 0.0 ==> w > 0.0
  {
  }

  lemma SquareSign(a: real, w: real)
    requires w == a * a
    ensures w >= 0.0
    ensures a != 0.0 ==> w > 0.0
  {
    if a >= 0.0 {
      ProductSign(a, a, w);
    } else {
      ProductSign(-a, -a, w);
    }
  }

  // ------------------------------------------------------------- clearing denominators

  lemma DenominatorEquation(z: real, m: real)
    requires m > 0.0
    ensures Denominator(z, m) >= 1.0
    ensures m * Denominator(z, m) == m + z * z
  {
    SquareSign(z, z * z);
  }

  lemma RateInUnit(k: nat, n: nat)
    requires 0 < n && k <= n
    ensures 0.0 <= Rate(k, n) <= 1.0
    ensures Rate(n - k, n) == 1.0 - Rate(k, n)
  {
    var m := n as real;
    MirrorQuotient(m, k as real, Rate(k, n), Rate(n - k, n));
  }

  lemma MirrorQuotient(m: real, k: real, p: real, q: real)
    requires m > 0.0 && m * p == k && m * q == m - k
    ensures q == 1.0 - p
  {
    assert m * (1.0 - p) == m - m * p;
    Cancel(m, q, 1.0 - p);
  }

  /** The centre without fractions: 2(n + z^2) c = 2np + z^2. */
  ghost predicate CentreEquation(m: real, w: real, p: real, c: real) {
    2.0 * (m + w) * c == 2.0 * m * p + w
  }

  /** The half-width without fractions or roots: 4(n + z^2)^2 h^2 = z^2 (4np(1 - p) + z^2). */
  ghost predicate HalfEquation(m: real, w: real, p: real, h: real) {
    4.0 * (m + w) * (m + w) * (h * h) == w * (4.0 * m * (p * (1.0 - p)) + w)
  }

  lemma CentreSatisfies(z: real, k: nat, n: nat)
    requires n > 0
    ensures CentreEquation(n as real, z * z, Rate(k, n), Centre(z, k, n))
  {
    var m, w := n as real, z * z;
    DenominatorEquation(z, m);
    CentreFrom(m, w, Rate(k, n), w / (2.0 * m), Denominator(z, m), Centre(z, k, n));
  }

  lemma CentreFrom(m: real, w: real, p: real, q: real, d: real, c: real)
    requires m * d == m + w && 2.0 * m * q == w && d * c == p + q
    ensures CentreEquation(m, w, p, c)
  {
    assert 2.0 * (m * d) * c == 2.0 * m * (d * c);
    assert 2.0 * m * (p + q) == 2.0 * m * p + 2.0 * m * q;
  }

  lemma HalfSatisfies(z: real, k: nat, n: nat, sqrt: real -> real)
    requires Sample(z, k, n) && IsSquareRoot(sqrt)
    ensures Half(z, k, n, sqrt) >= 0.0
    ensures HalfEquation(n as real, z * z, Rate(k, n), Half(z, k, n, sqrt))
  {
    var m, d, p := n as real, Denominator(z, n as real), Rate(k, n);
    var v := Radicand(z, p, m);
    RateInUnit(k, n);
    RadicandEquation(m, z, p);
    DenominatorEquation(z, m);
    var r := sqrt(v);
    NonNegativeProduct(z, r);
    HalfFrom(m, z, p, d, r, v, Half(z, k, n, sqrt));
  }

  lemma RadicandEquation(m: real, z: real, p: real)
    requires m > 0.0 && 0.0 <= p <= 1.0
    ensures Radicand(z, p, m) >= 0.0
    ensures 4.0 * m * m * Radicand(z, p, m) == 4.0 * m * (p * (1.0 - p)) + z * z
  {
    var w, q, s := z * z, p * (1.0 - p), 4.0 * m * m;
    NonZero(m, s);
    SquareSign(z, z * z);
    NonNegativeProduct(p, 1.0 - p);
  }

  lemma HalfFrom(m: real, z: real, p: real, d: real, r: real, v: real, h: real)
    requires m * d == m + z * z && d * h == z * r && r * r == v
    requires 4.0 * m * m * v == 4.0 * m * (p * (1.0 - p)) + z * z
    ensures HalfEquation(m, z * z, p, h)
  {
    var a, b := m + z * z, m * (z * r);
    assert a * h == b by { assert (m * d) * h == m * (d * h); }
    assert a * a * (h * h) == (a * h) * (a * h);
    assert b * b == (z * z) * (m * m * (r * r));
    assert 4.0 * ((z * z) * (m * m * v)) == (z * z) * (4.0 * m * m * v);
  }

  // ------------------------------------------------------------------- the score test

  /** By how much the score statistic n(p - x)^2 exceeds its critical value z^2 x(1 - x). */
  ghost function Excess(m: real, w: real, p: real, x: real): real {
    m * ((p - x) * (p - x)) - w * (x * (1.0 - x))
  }

  /** A score test at z does not reject rate x when k of n trials succeeded. */
  ghost predicate NotRejected(z: real, k: nat, n: nat, x: real)
    requires n > 0
  {
    Excess(n as real, z * z, Rate(k, n), x) <= 0.0
  }

  /** Centre and half-width multiply out to the constant term of the quadratic. */
  lemma ProductOfEnds(m: real, w: real, p: real, c: real, h: real)
    requires m > 0.0 && w > 0.0 && CentreEquation(m, w, p, c) && HalfEquation(m, w, p, h)
    ensures (m + w) * (c * c - h * h) == m * (p * p)
  {
    var a, y := m + w, m * p;
    assert 2.0 * a * c == 2.0 * y + w;
    assert 4.0 * a * a * (c * c) == (2.0 * a * c) * (2.0 * a * c);
    assert (2.0 * y + w) * (2.0 * y + w) == 4.0 * (y * y) + 4.0 * (w * y) + w * w;
    assert m * (p * (1.0 - p)) == y - y * p;
    assert w * (4.0 * m * (p * (1.0 - p)) + w) == 4.0 * (w * y) - 4.0 * (w * (y * p)) + w * w;
    assert 4.0 * a * (a * (c * c - h * h)) == 4.0 * a * a * (c * c) - 4.0 * a * a * (h * h);
    assert 4.0 * a * (y * p) == 4.0 * (y * y) + 4.0 * (w * (y * p));
    Cancel(4.0 * a, a * (c * c - h * h), y * p);
    assert y * p == m * (p * p);
  }

  /** The excess is a parabola whose roots are the two ends of the interval. */
  lemma ExcessFactors(m: real, w: real, p: real, c: real, h: real, x: real, u: real, v: real)
    requires CentreEquation(m, w, p, c) && (m + w) * (c * c - h * h) == m * (p * p)
    requires u == x - (c - h) && v == x - (c + h)
    ensures Excess(m, w, p, x) == (m + w) * (u * v)
  {
    var a := m + w;
    assert u * v == x * x - 2.0 * (c * x) + (c * c - h * h);
    assert a * (x * x - 2.0 * (c * x) + (c * c - h * h)) == a * (x * x) - (2.0 * a * c) * x + a * (c * c - h * h);
    assert (2.0 * m * p + w) * x == 2.0 * m * (p * x) + w * x;
    assert m * ((p - x) * (p - x)) == m * (p * p) - 2.0 * m * (p * x) + m * (x * x);
    assert w * (x * (1.0 - x)) == w * x - w * (x * x);
  }

  lemma Parabola(a: real, u: real, v: real)
    requires a > 0.0 && v <= u
    ensures a * (u * v) <= 0.0 <==> v <= 0.0 <= u
  {
    if u < 0.0 {
      PositiveProduct(-u, -v);
      PositiveProduct(a, u * v);
    } else if 0.0 < v {
      PositiveProduct(u, v);
      PositiveProduct(a, u * v);
    } else {
      NonNegativeProduct(u, -v);
      NonNegativeProduct(a, -(u * v));
    }
  }

  lemma ExcessAt(z: real, k: nat, n: nat, sqrt: real -> real, x: real, u: real, v: real)
    requires Sample(z, k, n) && IsSquareRoot(sqrt)
    requires u == x - Low(z, k, n, sqrt) && v == x - High(z, k, n, sqrt)
    ensures Excess(n as real, z * z, Rate(k, n), x) == (n as real + z * z) * (u * v)
  {
    var m, w, p, c, h := n as real, z * z, Rate(k, n), Centre(z, k, n), Half(z, k, n, sqrt);
    CentreSatisfies(z, k, n);
    HalfSatisfies(z, k, n, sqrt);
    SquareSign(z, z * z);
    ProductOfEnds(m, w, p, c, h);
    ExcessFactors(m, w, p, c, h, x, u, v);
  }

  /** Main result: the interval is exactly the set of rates the score test keeps. */
  lemma IntervalInvertsScoreTest(z: real, k: nat, n: nat, sqrt: real -> real, x: real)
    requires Sample(z, k, n) && IsSquareRoot(sqrt)
    ensures Low(z, k, n, sqrt) <= x <= High(z, k, n, sqrt) <==> NotRejected(z, k, n, x)
  {
    var u, v := x - Low(z, k, n, sqrt), x - High(z, k, n, sqrt);
    ExcessAt(z, k, n, sqrt, x, u, v);
    HalfSatisfies(z, k, n, sqrt);
    SquareSign(z, z * z);
    Parabola(n as real + z * z, u, v);
  }

  // ---------------------------------------------------------------------- consequences

  /**
   The same in counts: the squared distance of the successes from their expected number is at
   most z squared times their variance.
   */
  lemma IntervalInCounts(z: real, k: nat, n: nat, sqrt: real -> real, x: real)
    requires Sample(z, k, n) && IsSquareRoot(sqrt)
    ensures var m, d := n as real, k as real - n as real * x;
      Low(z, k, n, sqrt) <= x <= High(z, k, n, sqrt) <==> d * d <= z * z * (m * x * (1.0 - x))
    ensures Rate(k, n) * n as real == k as real
  {
    IntervalInvertsScoreTest(z, k, n, sqrt, x);
    var m, p := n as real, Rate(k, n);
    RateOf(k as real, m, p);
    CountsOfExcess(m, z * z, p, k as real, x);
  }

  lemma RateOf(k: real, m: real, p: real)
    requires m > 0.0 && p == k / m
    ensures k == m * p && p * m == k
  {
  }

  lemma ScaledSign(m: real, a: real, b: real)
    requires m > 0.0
    ensures a <= b <==> m * a <= m * b
  {
    if a <= b {
      NonNegativeProduct(m, b - a);
      assert m * (b - a) == m * b - m * a;
    } else {
      PositiveProduct(m, a - b);
      assert m * (a - b) == m * a - m * b;
    }
  }

  lemma SquareOfScaled(m: real, y: real)
    ensures (m * y) * (m * y) == m * (m * (y * y))
  {
  }

  lemma Rearranged(m: real, w: real, a: real, b: real)
    ensures w * (m * a * b) == m * (w * (a * b))
  {
  }

  lemma CountsOfExcess(m: real, w: real, p: real, k: real, x: real)
    requires m > 0.0 && k == m * p
    ensures Excess(m, w, p, x) <= 0.0 <==> (k - m * x) * (k - m * x) <= w * (m * x * (1.0 - x))
  {
    var y := p - x;
    SquareOfScaled(m, y);
    SameDistance(m, p, k, x, y);
    Rearranged(m, w, x, 1.0 - x);
    var a, b := m * (y * y), w * (x * (1.0 - x));
    assert Excess(m, w, p, x) == a - b;
    SameSign(m, a, b, Excess(m, w, p, x), (k - m * x) * (k - m * x), w * (m * x * (1.0 - x)));
  }

  lemma SameSign(m: real, a: real, b: real, e: real, d: real, v: real)
    requires m > 0.0 && e == a - b && d == m * a && v == m * b
    ensures e <= 0.0 <==> d <= v
  {
    ScaledSign(m, a, b);
  }

  lemma SameDistance(m: real, p: real, k: real, x: real, y: real)
    requires k == m * p && y == p - x
    ensures (k - m * x) * (k - m * x) == (m * y) * (m * y)
  {
    assert k - m * x == m * y;
  }

  lemma CentrePositive(m: real, w: real, p: real, c: real)
    requires m > 0.0 && w > 0.0 && p >= 0.0 && CentreEquation(m, w, p, c)
    ensures c > 0.0
  {
    NonNegativeProduct(2.0 * m, p);
  }

  lemma EndsNonNegative(m: real, w: real, p: real, c: real, h: real)
    requires m > 0.0 && w > 0.0 && p >= 0.0 && h >= 0.0
    requires CentreEquation(m, w, p, c) && HalfEquation(m, w, p, h)
    ensures h <= c
  {
    CentrePositive(m, w, p, c);
    ProductOfEnds(m, w, p, c, h);
    SquareSign(p, p * p);
    NonNegativeProduct(m, p * p);
    if c < h {
      SquaresAscend(c, h);
    }
  }

  lemma LowNonNegative(z: real, k: nat, n: nat, sqrt: real -> real)
    requires Sample(z, k, n) && IsSquareRoot(sqrt)
    ensures Low(z, k, n, sqrt) >= 0.0
  {
    RateInUnit(k, n);
    CentreSatisfies(z, k, n);
    HalfSatisfies(z, k, n, sqrt);
    SquareSign(z, z * z);
    EndsNonNegative(n as real, z * z, Rate(k, n), Centre(z, k, n), Half(z, k, n, sqrt));
  }

  lemma MirrorCentre(m: real, w: real, p: real, c: real, c': real)
    requires m > 0.0 && w > 0.0 && CentreEquation(m, w, p, c) && CentreEquation(m, w, 1.0 - p, c')
    ensures c' == 1.0 - c
  {
    assert 2.0 * (m + w) * (1.0 - c) == 2.0 * (m + w) - 2.0 * (m + w) * c;
    assert 2.0 * m * (1.0 - p) == 2.0 * m - 2.0 * m * p;
    Cancel(2.0 * (m + w), c', 1.0 - c);
  }

  lemma MirrorRadicand(z: real, p: real, m: real)
    requires m > 0.0
    ensures Radicand(z, 1.0 - p, m) == Radicand(z, p, m)
  {
    assert (1.0 - p) * (1.0 - (1.0 - p)) == p * (1.0 - p);
  }

  /** Successes and failures are mirror images. */
  lemma Mirror(z: real, k: nat, n: nat, sqrt: real -> real)
    requires Sample(z, k, n)
    ensures Low(z, n - k, n, sqrt) == 1.0 - High(z, k, n, sqrt)
    ensures High(z, n - k, n, sqrt) == 1.0 - Low(z, k, n, sqrt)
  {
    RateInUnit(k, n);
    SquareSign(z, z * z);
    CentreSatisfies(z, k, n);
    CentreSatisfies(z, n - k, n);
    MirrorCentre(n as real, z * z, Rate(k, n), Centre(z, k, n), Centre(z, n - k, n));
    MirrorRadicand(z, Rate(k, n), n as real);
    assert Half(z, n - k, n, sqrt) == Half(z, k, n, sqrt);
  }

  lemma RateNotRejected(z: real, k: nat, n: nat)
    requires Sample(z, k, n)
    ensures NotRejected(z, k, n, Rate(k, n))
  {
    RateInUnit(k, n);
    SquareSign(z, z * z);
    NonNegativeProduct(Rate(k, n), 1.0 - Rate(k, n));
    NonNegativeProduct(z * z, Rate(k, n) * (1.0 - Rate(k, n)));
  }

  /** The observed rate lies inside the interval, and the interval inside [0, 1]. */
  lemma IntervalInUnit(z: real, k: nat, n: nat, sqrt: real -> real)
    requires Sample(z, k, n) && IsSquareRoot(sqrt)
    ensures 0.0 <= Low(z, k, n, sqrt) <= Rate(k, n) <= High(z, k, n, sqrt) <= 1.0
  {
    LowNonNegative(z, k, n, sqrt);
    LowNonNegative(z, n - k, n, sqrt);
    Mirror(z, k, n, sqrt);
    RateNotRejected(z, k, n);
    IntervalInvertsScoreTest(z, k, n, sqrt, Rate(k, n));
  }

  /** So neither clamp of a report ever changes a value, at the program's z or any other. */
  lemma ClampsNeverAct(z: real, k: nat, n: nat, sqrt: real -> real)
    requires Sample(z, k, n) && IsSquareRoot(sqrt)
    ensures Clamped(k, n, Low(z, k, n, sqrt), High(z, k, n, sqrt))
      == Report(k, n, Some(Bounds(Rate(k, n), Low(z, k, n, sqrt), High(z, k, n, sqrt))))
  {
    IntervalInUnit(z, k, n, sqrt);
  }

  /** The program's z is one that all results on samples cover. */
  lemma ProgramSample(k: nat, n: nat)
    requires 0 < n && k <= n
    ensures Sample(Z95, k, n)
  {
  }

  /** What is reported: nothing for no trials, else the interval as it was computed. */
  lemma ProportionIsInterval(z: real, k: nat, n: nat, sqrt: real -> real)
    requires z > 0.0 && k <= n && IsSquareRoot(sqrt)
    ensures Proportion(z, k, n, sqrt) ==
      if n == 0 then Report(k, n, None)
      else Report(k, n, Some(Bounds(Rate(k, n), Low(z, k, n, sqrt), High(z, k, n, sqrt))))
  {
    if n > 0 {
      ClampsNeverAct(z, k, n, sqrt);
    }
  }

  lemma RateRises(k: nat, n: nat)
    requires n > 0
    ensures Rate(k, n) < Rate(k + 1, n)
  {
    var m := n as real;
    QuotientRises(m, Rate(k, n), Rate(k + 1, n));
  }

  lemma QuotientRises(m: real, p: real, q: real)
    requires m > 0.0 && m * p < m * q
    ensures p < q
  {
    assert m * (q - p) == m * q - m * p;
  }

  lemma ExcessRises(m: real, w: real, p: real, p': real, x: real)
    requires m > 0.0 && x <= p < p'
    ensures Excess(m, w, p, x) < Excess(m, w, p', x)
  {
    var d, d' := p - x, p' - x;
    SquaresAscend(d, d');
    PositiveProduct(m, d' * d' - d * d);
    assert m * (d' * d' - d * d) == m * (d' * d') - m * (d * d);
  }

  lemma LowRises(z: real, k: nat, n: nat, sqrt: real -> real)
    requires Sample(z, k + 1, n) && IsSquareRoot(sqrt)
    ensures Low(z, k, n, sqrt) < Low(z, k + 1, n, sqrt)
  {
    var x := Low(z, k, n, sqrt);
    IntervalInUnit(z, k, n, sqrt);
    IntervalInUnit(z, k + 1, n, sqrt);
    RateRises(k, n);
    ExcessAt(z, k, n, sqrt, x, 0.0, x - High(z, k, n, sqrt));
    ExcessRises(n as real, z * z, Rate(k, n), Rate(k + 1, n), x);
    assert !NotRejected(z, k + 1, n, x);
    IntervalInvertsScoreTest(z, k + 1, n, sqrt, x);
  }

  /** One more success moves both ends up, strictly. */
  lemma MoreSuccessesRaiseBoth(z: real, k: nat, n: nat, sqrt: real -> real)
    requires Sample(z, k + 1, n) && IsSquareRoot(sqrt)
    ensures Low(z, k, n, sqrt) < Low(z, k + 1, n, sqrt)
    ensures High(z, k, n, sqrt) < High(z, k + 1, n, sqrt)
  {
    LowRises(z, k, n, sqrt);
    LowRises(z, n - k - 1, n, sqrt);
    Mirror(z, k, n, sqrt);
    Mirror(z, k + 1, n, sqrt);
  }
}
