/** What the numbers of a sample window mean, over exact reals: sums, spread, z-score and trend on its contents. */
module Statistics {
  import opened Reals

  // ---- what the window's numbers mean, on its contents ----

  function Sum(s: seq<real>): real {
    if s == [] then 0.0 else s[0] + Sum(s[1..])
  }

  function SumSq(s: seq<real>): (r: real)
    ensures r >= 0.0
  {
    hide Square;
    if s == [] then 0.0 else SquareSign(s[0]); Square(s[0]) + SumSq(s[1..])
  }

  lemma {:induction false} SumsConcat(a: seq<real>, b: seq<real>)
    ensures Sum(a + b) == Sum(a) + Sum(b) && SumSq(a + b) == SumSq(a) + SumSq(b)
  {
    hide Square;
    if a == [] {
      assert a + b == b;
    } else {
      assert (a + b)[1..] == a[1..] + b;
      SumsConcat(a[1..], b);
    }
  }

  function Mean(s: seq<real>): real {
    if s == [] then 0.0 else Sum(s) / |s| as real
  }

  /** Sum of squared distances from c: the textbook form the running sums stand in for. */
  function SquaredDistance(s: seq<real>, c: real): (r: real)
    ensures r >= 0.0
  {
    hide Square;
    if s == [] then 0.0 else SquareSign(s[0] - c); Square(s[0] - c) + SquaredDistance(s[1..], c)
  }

  /** Sample variance: mean squared distance from the mean with divisor n - 1; 0 below two values. */
  function Variance(s: seq<real>): (v: real)
    ensures v >= 0.0
  {
    if |s| < 2 then 0.0
    else
      QuotientSign(SquaredDistance(s, Mean(s)), |s| as real - 1.0);
      SquaredDistance(s, Mean(s)) / (|s| as real - 1.0)
  }

  /** The variance as the code computes it, from a count and the two running sums. */
  function OnePass(n: real, sum: real, sumSq: real): real
    requires n >= 2.0
  {
    (sumSq - Square(sum) / n) / (n - 1.0)
  }

  /** Sum of (x - c)^2 in terms of count, sum and sum of squares. */
  function Expanded(n: real, sum: real, sumSq: real, c: real): real {
    sumSq - 2.0 * (c * sum) + n * Square(c)
  }

  lemma ExpandStep(x: real, c: real, n: real, sum: real, q: real)
    ensures Square(x - c) + Expanded(n, sum, q, c) == Expanded(1.0 + n, x + sum, Square(x) + q, c)
  {
    hide Square;
    SquareOfSum2(x, c);
    assert c * (x + sum) == x * c + c * sum;
    assert (1.0 + n) * Square(c) == Square(c) + n * Square(c);
  }

  lemma {:induction false} ExpandDistance(s: seq<real>, c: real)
    ensures SquaredDistance(s, c) == Expanded(|s| as real, Sum(s), SumSq(s), c)
  {
    if s == [] {
    } else {
      hide Square, Expanded;
      var t := s[1..];
      ExpandDistance(t, c);
      ExpandStep(s[0], c, |t| as real, Sum(t), SumSq(t));
      assert |s| as real == 1.0 + |t| as real;
    }
  }

  lemma MeanCancels(n: real, sum: real, sumSq: real, m: real, dist: real)
    requires n >= 2.0 && m == sum / n
    requires dist == Expanded(n, sum, sumSq, m)
    ensures OnePass(n, sum, sumSq) == dist / (n - 1.0)
  {
    QuotientSquare(sum, n);
    assert n * Square(m) == m * sum by {
      assert n * m == sum;
      assert n * Square(m) == (n * m) * m;
    }
  }

  /** The one-pass formula equals the two-pass variance, so it is never negative. */
  lemma OnePassVariance(s: seq<real>)
    requires |s| >= 2
    ensures OnePass(|s| as real, Sum(s), SumSq(s)) == Variance(s)
  {
    ExpandDistance(s, Mean(s));
    hide Sum, SumSq, SquaredDistance, Square, OnePass, Expanded;
    MeanCancels(|s| as real, Sum(s), SumSq(s), Mean(s), SquaredDistance(s, Mean(s)));
  }

  // ---- Samuelson's inequality ----

  lemma Distribute(n: real, a: real, b: real)
    ensures (a + b) * n == n * a + n * b
  {
  }

  lemma CauchyLine(n: real, e: real, f: real, q: real, ps: real, pp: real, ss: real)
    requires n > 0.0 && ps == n * e && pp == n * (n * f) && ss <= n * q
    requires pp - 2.0 * ps + ss >= 0.0
    ensures 2.0 * e <= n * f + q
  {
    Distribute(n, n * f, q);
    Distribute(n, e, e);
    assert (e + e) * n == 2.0 * ps && (n * f + q) * n == pp + n * q;
    CancelPositive(e + e, n * f + q, n);
  }

  /** Cauchy's bound, one value at a time. */
  lemma CauchyStep(a: real, n: real, s: real, q: real)
    requires n >= 0.0 && q >= 0.0 && Square(s) <= n * q
    ensures Square(a + s) <= (n + 1.0) * (Square(a) + q)
  {
    hide Square;
    if n == 0.0 {
      if s != 0.0 {
        SquarePositive(s);
      }
      SquareOfSum2(a, 0.0);
      assert s == 0.0;
    } else {
      var p := n * a;
      SquareSign(p - s);
      SquareOfSum2(p, s);
      SquareOfSum2(a, s);
      SquareOfProduct(n, a);
      SquareTimes(n, Square(a));
      assert p * s == n * (a * s);
      CauchyLine(n, a * s, Square(a), q, p * s, Square(p), Square(s));
    }
  }

  lemma {:induction false} SquareOfSum(s: seq<real>)
    ensures Square(Sum(s)) <= |s| as real * SumSq(s)
  {
    if s == [] {
    } else {
      hide Square;
      SquareOfSum(s[1..]);
      CauchyStep(s[0], |s[1..]| as real, Sum(s[1..]), SumSq(s[1..]));
      assert |s| as real == |s[1..]| as real + 1.0;
    }
  }

  /** A deviation d that a window of n values with variance v can contain: |d| <= (n - 1)/sqrt(n) * sqrt(v), squared. */
  predicate WithinReach(n: real, d: real, v: real) {
    n * Square(d) <= Square(n - 1.0) * v
  }

  lemma SamuelsonLine(n: real, k: real, p: real, xx: real, rr: real, rx: real, left: real, right: real)
    requires n == k + 1.0 && k >= 1.0 && rr <= k * p
    requires left == k * (k * xx) - 2.0 * (k * rx) + rr
    requires right == rr + 2.0 * rx + xx
    ensures left <= k * (n * (p + xx) - right)
  {
    ProductNonNegative(n, k * p - rr);
    assert k * (n * (p + xx) - right) - left == n * (k * p - rr);
  }

  lemma DeviationSquare(k: real, x: real, r: real)
    ensures Square(k * x - r) == k * (k * Square(x)) - 2.0 * (k * (r * x)) + Square(r)
  {
  }

  lemma SamuelsonAlgebra(n: real, k: real, x: real, r: real, p: real, sum: real, sumSq: real)
    requires n == k + 1.0 && k >= 1.0 && Square(r) <= k * p
    requires sum == r + x && sumSq == p + Square(x)
    ensures Square(k * x - r) <= k * (n * sumSq - Square(sum))
  {
    hide Square;
    DeviationSquare(k, x, r);
    SquareOfSum2(r, x);
    SamuelsonLine(n, k, p, Square(x), Square(r), r * x, Square(k * x - r), Square(sum));
  }

  lemma ScaleBack(n: real, k: real, d: real, dev: real, sum: real, sumSq: real)
    requires n == k + 1.0 && k >= 1.0 && dev == n * d
    requires Square(dev) <= k * (n * sumSq - Square(sum))
    ensures WithinReach(n, d, OnePass(n, sum, sumSq))
  {
    var v := OnePass(n, sum, sumSq);
    hide Square;
    SquareOfProduct(n, d);
    SquareTimes(n, Square(d));
    SquareTimes(k, v);
    ScaleLine(n, k, Square(sum), sumSq, Square(d), v);
  }

  lemma ScaleLine(n: real, k: real, ss: real, q: real, dd: real, v: real)
    requires n == k + 1.0 && k >= 1.0 && v == (q - ss / n) / k
    requires n * (n * dd) <= k * (n * q - ss)
    ensures n * dd <= k * (k * v)
  {
    assert k * v == q - ss / n;
    assert n * (k * v) == n * q - ss;
    assert k * (n * (k * v)) == (k * (k * v)) * n;
    CancelPositive(n * dd, k * (k * v), n);
  }

  lemma SamuelsonFromParts(n: real, k: real, x: real, r: real, p: real, sum: real, sumSq: real, m: real)
    requires n == k + 1.0 && k >= 1.0 && Square(r) <= k * p
    requires sum == r + x && sumSq == p + Square(x)
    requires m == sum / n
    ensures WithinReach(n, x - m, OnePass(n, sum, sumSq))
  {
    hide Square, OnePass, WithinReach;
    SamuelsonAlgebra(n, k, x, r, p, sum, sumSq);
    var dev := k * x - r;
    assert dev == n * (x - m) by {
      assert n * m == sum;
    }
    ScaleBack(n, k, x - m, dev, sum, sumSq);
  }

  lemma TakeOut(s: seq<real>, k: nat)
    requires k < |s|
    ensures var rest := s[..k] + s[k + 1..];
      Sum(s) == Sum(rest) + s[k] && SumSq(s) == SumSq(rest) + Square(s[k])
  {
    hide Square;
    var tail := s[k..];
    assert s == s[..k] + tail && tail[1..] == s[k + 1..];
    SumsConcat(s[..k], tail);
    SumsConcat(s[..k], s[k + 1..]);
  }

  /** No value of a window is further from its mean than (n - 1)/sqrt(n) standard deviations. */
  lemma Samuelson(s: seq<real>, k: nat)
    requires |s| >= 2 && k < |s|
    ensures WithinReach(|s| as real, s[k] - Mean(s), Variance(s))
  {
    hide Sum, SumSq, Variance, OnePass, Square;
    var rest := s[..k] + s[k + 1..];
    TakeOut(s, k);
    SquareOfSum(rest);
    OnePassVariance(s);
    SamuelsonFromParts(|s| as real, |rest| as real, s[k], Sum(rest), SumSq(rest),
                       Sum(s), SumSq(s), Mean(s));
  }

  // ---- z-scores ----

  const NEGLIGIBLE: real := 0.0000000001
  const NEGLIGIBLE_SQ: real := 0.00000000000000000001

  /** sd is the square root the code takes of the variance. */
  predicate IsDeviation(s: seq<real>, sd: real) {
    sd >= 0.0 && Square(sd) == Variance(s)
  }

  /** The score of `value` against a window with spread sd; a flat window answers 0 or 100. */
  function ZScore(s: seq<real>, value: real, sd: real): real {
    if sd < NEGLIGIBLE then Flat(value - Mean(s)) else (value - Mean(s)) / sd
  }

  function Flat(d: real): real {
    if Abs(d) < NEGLIGIBLE then 0.0 else 100.0
  }

  /** score > t for a deviation d under variance v, with no square root. */
  predicate Above(d: real, v: real, t: real) {
    if v < NEGLIGIBLE_SQ then Flat(d) > t
    else if t >= 0.0 then d > 0.0 && Square(d) > Square(t) * v
    else d >= 0.0 || Square(d) < Square(t) * v
  }

  /** |score| > t for a deviation d under variance v, with no square root. */
  predicate Beyond(d: real, v: real, t: real) {
    if v < NEGLIGIBLE_SQ then Flat(d) > t else t < 0.0 || Square(d) > Square(t) * v
  }

  predicate ZAbove(s: seq<real>, value: real, t: real) {
    Above(value - Mean(s), Variance(s), t)
  }

  predicate ZBeyond(s: seq<real>, value: real, t: real) {
    Beyond(value - Mean(s), Variance(s), t)
  }

  lemma QuotientAbove(d: real, sd: real, t: real)
    requires sd > 0.0
    ensures d / sd > t <==> d > t * sd
  {
    assert (d / sd) * sd == d;
  }

  lemma AboveIsScore(d: real, sd: real, t: real)
    requires sd >= NEGLIGIBLE && Square(sd) >= NEGLIGIBLE_SQ
    ensures Above(d, Square(sd), t) <==> d / sd > t
    ensures Beyond(d, Square(sd), t) <==> Abs(d / sd) > t
  {
    hide Square;
    var p := t * sd;
    QuotientAbove(d, sd, t);
    QuotientAbove(-d, sd, t);
    assert (-d) / sd == -(d / sd);
    SquareOfProduct(t, sd);
    SquareOrder(Abs(d), Abs(p));
    SquareOfAbs(d);
    SquareOfAbs(p);
    if t >= 0.0 {
      ProductNonNegative(t, sd);
    } else {
      ProductPositive(-t, sd);
      assert (-t) * sd == -p;
    }
    hide Square;
  }

  /** The square-free tests decide exactly the comparisons the code makes on the z-score. */
  lemma TestsMatchScore(s: seq<real>, value: real, sd: real, t: real)
    requires IsDeviation(s, sd)
    ensures ZAbove(s, value, t) <==> ZScore(s, value, sd) > t
    ensures ZBeyond(s, value, t) <==> Abs(ZScore(s, value, sd)) > t
  {
    assert Square(NEGLIGIBLE) == NEGLIGIBLE_SQ;
    hide Square, Variance, Mean;
    SquareOrder(sd, NEGLIGIBLE);
    if sd >= NEGLIGIBLE {
      AboveIsScore(value - Mean(s), sd, t);
    }
  }

  /** A spread the score treats honestly: exactly none, or one at least as large as the flatness cut-off. */
  predicate Steady(s: seq<real>) {
    Variance(s) == 0.0 || Variance(s) >= NEGLIGIBLE_SQ
  }

  lemma ReachNeedsSpread(n: real, d: real)
    requires n > 0.0 && d != 0.0
    ensures !WithinReach(n, d, 0.0)
  {
    hide Square;
    SquarePositive(d);
    ProductPositive(n, Square(d));
  }

  lemma ScoreReach(n: real, sd: real, z: real)
    requires n >= 2.0 && sd > 0.0
    requires WithinReach(n, z * sd, Square(sd))
    ensures Bounded(n, z)
  {
    hide Square;
    SquareOfProduct(z, sd);
    SquarePositive(sd);
    var v := Square(sd);
    assert n * (Square(z) * v) == (n * Square(z)) * v;
    CancelPositive(n * Square(z), Square(n - 1.0), v);
  }

  lemma SingleMean(s: seq<real>)
    ensures |s| == 1 ==> Mean(s) == s[0]
  {
    if |s| == 1 {
      assert s[1..] == [];
      assert Sum(s) == s[0] && |s| as real == 1.0;
    }
  }

  /** A spread below the cut-off under a deviation at or above it: the score is the fallback of 100. */
  predicate FallsBack(s: seq<real>, k: nat)
    requires k < |s|
  {
    Variance(s) < NEGLIGIBLE_SQ && Abs(s[k] - Mean(s)) >= NEGLIGIBLE
  }

  /** The bound of (n - 1)/sqrt(n) standard deviations on a score, squared. */
  predicate Bounded(n: real, z: real) {
    n * Square(z) <= Square(n - 1.0)
  }

  lemma HundredBounded(n: real)
    ensures Bounded(n, 100.0) <==> 10000.0 * n <= Square(n - 1.0)
  {
    assert Square(100.0) == 10000.0;
    hide Square;
  }

  lemma ZeroBounded(n: real)
    ensures Bounded(n, 0.0)
  {
    SquareSign(n - 1.0);
    assert Square(0.0) == 0.0;
    hide Square;
  }

  /**
   * A value of the window itself scores within +-(n - 1)/sqrt(n) exactly when it does not take the fallback, or the
   * window is so large that 100 is within the bound too. A window with no spread scores 0, never 100.
   */
  lemma OwnValueScore(s: seq<real>, k: nat, sd: real)
    requires k < |s| && IsDeviation(s, sd)
    ensures Bounded(|s| as real, ZScore(s, s[k], sd))
            <==> !FallsBack(s, k) || 10000.0 * |s| as real <= Square(|s| as real - 1.0)
    ensures sd == 0.0 ==> ZScore(s, s[k], sd) == 0.0
  {
    var n, d := |s| as real, s[k] - Mean(s);
    NegligibleSpread(s, sd);
    HundredBounded(n);
    ZeroBounded(n);
    DeviationInReach(s, k);
    hide Square, Variance, Mean, Bounded, WithinReach;
    if sd >= NEGLIGIBLE {
      assert (d / sd) * sd == d;
      LargeWindow(s, sd);
      ScoreReach(n, sd, d / sd);
    } else if sd == 0.0 && d != 0.0 {
      ZeroSquare();
      ReachNeedsSpread(|s| as real, d);
    }
  }

  lemma ZeroSquare()
    ensures Square(0.0) == 0.0
  {
  }

  lemma NegligibleSpread(s: seq<real>, sd: real)
    requires IsDeviation(s, sd)
    ensures sd < NEGLIGIBLE <==> Variance(s) < NEGLIGIBLE_SQ
  {
    assert Square(NEGLIGIBLE) == NEGLIGIBLE_SQ;
    hide Square, Variance;
    SquareOrder(sd, NEGLIGIBLE);
  }

  lemma LargeWindow(s: seq<real>, sd: real)
    requires s != [] && IsDeviation(s, sd) && sd > 0.0
    ensures |s| >= 2
  {
    hide Square;
    SquarePositive(sd);
  }

  /** Samuelson's inequality for windows of any size: a single value is its own mean. */
  lemma DeviationInReach(s: seq<real>, k: nat)
    requires k < |s|
    ensures WithinReach(|s| as real, s[k] - Mean(s), Variance(s))
    ensures |s| == 1 ==> s[k] - Mean(s) == 0.0
  {
    SingleMean(s);
    if |s| >= 2 {
      Samuelson(s, k);
    } else {
      assert Square(0.0) == 0.0;
      hide Square, Mean;
    }
  }

  // ---- which thresholds a window of n values can ever exceed ----

  /** (n - 1)/sqrt(n) <= t, squared: no value of an n-value window scores above t. */
  predicate OutOfReach(n: real, t: real) {
    Square(n - 1.0) <= Square(t) * n
  }

  lemma ReachLine(n: real, kk: real, tt: real, dd: real, v: real)
    requires n > 0.0 && v >= 0.0 && n * dd <= kk * v && kk <= tt * n
    ensures dd <= tt * v
  {
    TimesOrder(kk, tt * n, v);
    assert (tt * n) * v == (tt * v) * n;
    CancelPositive(dd, tt * v, n);
  }

  lemma OutOfReachDeviation(s: seq<real>, k: nat, t: real)
    requires k < |s| && OutOfReach(|s| as real, t)
    ensures Square(s[k] - Mean(s)) <= Square(t) * Variance(s)
  {
    DeviationInReach(s, k);
    hide Square, Variance, Mean;
    ReachLine(|s| as real, Square(|s| as real - 1.0), Square(t), Square(s[k] - Mean(s)), Variance(s));
  }

  /**
   * A threshold out of reach is exceeded by a value of the window exactly when the value falls back to 100 and the
   * threshold is below 100.
   */
  lemma OnlyFallbackExceeds(s: seq<real>, k: nat, t: real)
    requires k < |s| && t >= 0.0 && OutOfReach(|s| as real, t)
    ensures ZAbove(s, s[k], t) <==> FallsBack(s, k) && t < 100.0
    ensures ZBeyond(s, s[k], t) <==> FallsBack(s, k) && t < 100.0
  {
    OutOfReachDeviation(s, k, t);
    hide Square, Variance, Mean;
  }

  /** A negative threshold is exceeded unless the deviation is negative and exactly at the bound. */
  lemma NegativeThreshold(s: seq<real>, k: nat, t: real)
    requires k < |s| && t < 0.0 && OutOfReach(|s| as real, t)
    ensures ZAbove(s, s[k], t) <==>
      !(Variance(s) >= NEGLIGIBLE_SQ && s[k] < Mean(s) && Square(s[k] - Mean(s)) == Square(t) * Variance(s))
    ensures ZBeyond(s, s[k], t)
  {
    OutOfReachDeviation(s, k, t);
    hide Square, Variance, Mean;
  }

  /** n - 1 zeros and one spike of height a * n: the window that meets Samuelson's bound with equality. */
  function Spike(n: nat, a: real): seq<real>
    requires n >= 1
  {
    seq(n - 1, _ => 0.0) + [a * n as real]
  }

  lemma {:induction false} SumsOfZeros(n: nat)
    ensures Sum(seq(n, _ => 0.0)) == 0.0 && SumSq(seq(n, _ => 0.0)) == 0.0
  {
    if n == 0 {
    } else {
      var z := seq(n, _ => 0.0);
      assert z[1..] == seq(n - 1, _ => 0.0);
      SumsOfZeros(n - 1);
      ZeroSquare();
    }
  }

  lemma SpikeSums(n: nat, a: real)
    requires n >= 1
    ensures Sum(Spike(n, a)) == a * n as real && SumSq(Spike(n, a)) == Square(a * n as real)
  {
    hide Square;
    var x := a * n as real;
    SumsOfZeros(n - 1);
    SumsConcat(seq(n - 1, _ => 0.0), [x]);
    assert [x][1..] == [];
  }

  lemma SpikeNumbers(n: nat, a: real)
    requires n >= 2
    ensures |Spike(n, a)| == n && Mean(Spike(n, a)) == a && Variance(Spike(n, a)) == Square(a) * n as real
  {
    var s, x := Spike(n, a), n as real;
    SpikeSums(n, a);
    OnePassVariance(s);
    SpikeVariance(x, a);
    ProductQuotient(a, x);
    assert |s| as real == x;
    hide Square, Sum, SumSq, Variance, OnePass, Spike;
    assert Sum(s) == a * x && SumSq(s) == Square(a * x);
    assert Variance(s) == OnePass(x, Sum(s), SumSq(s));
  }

  lemma ProductQuotient(a: real, x: real)
    requires x != 0.0
    ensures (a * x) / x == a
  {
  }

  lemma SpikeVariance(x: real, a: real)
    requires x >= 2.0
    ensures OnePass(x, a * x, Square(a * x)) == Square(a) * x
  {
    var q, v := Square(a), Square(a) * x;
    assert Square(a * x) / x == v by {
      SquareOfProduct(a, x);
      assert Square(a * x) == v * x;
      ProductQuotient(v, x);
    }
    assert Square(a * x) - v == v * (x - 1.0) by {
      SquareOfProduct(a, x);
      assert Square(a * x) == v * x;
    }
    hide Square;
    ProductQuotient(v, x - 1.0);
  }

  /** The spike whose deviation is exactly the cut-off. */
  function FlatSpike(n: nat): seq<real>
    requires n >= 3
  {
    Spike(n, NEGLIGIBLE / (n as real - 1.0))
  }

  lemma FlatSpikeFallsBack(n: nat)
    requires n >= 3
    ensures |FlatSpike(n)| == n && FallsBack(FlatSpike(n), n - 1)
  {
    var x, k := n as real, n as real - 1.0;
    var a := NEGLIGIBLE / k;
    SpikeNumbers(n, a);
    assert a * k == NEGLIGIBLE;
    assert a * x - a == NEGLIGIBLE;
    SmallerThanSquare(x, k, a);
    hide Square, Variance, Mean;
    assert FlatSpike(n)[n - 1] == a * x;
  }

  lemma SmallerThanSquare(x: real, k: real, a: real)
    requires x == k + 1.0 && k >= 2.0 && a * k == NEGLIGIBLE
    ensures Square(a) * x < NEGLIGIBLE_SQ
  {
    assert Square(NEGLIGIBLE) == NEGLIGIBLE_SQ;
    ProductNonNegative(k - 2.0, k);
    assert Square(k) - x == (k - 2.0) * k + k - 1.0;
    hide Square;
    SquareOfProduct(a, k);
    SquarePositive(a);
    ProductPositive(Square(a), Square(k) - x);
    assert Square(a) * (Square(k) - x) == Square(a) * Square(k) - Square(a) * x;
  }

  /**
   * The fallback of 100 for a value of the window itself happens in windows of three values or more, and only there.
   */
  lemma FallbackIff(n: nat)
    requires n >= 1
    ensures (exists s: seq<real> :: |s| == n && FallsBack(s, n - 1)) <==> n >= 3
  {
    if n >= 3 {
      FlatSpikeFallsBack(n);
    } else {
      forall s: seq<real> | |s| == n
        ensures !FallsBack(s, n - 1)
      {
        SmallNeverFallsBack(s, n - 1);
      }
    }
  }

  lemma SmallNeverFallsBack(s: seq<real>, k: nat)
    requires k < |s| <= 2
    ensures !FallsBack(s, k)
  {
    var d := s[k] - Mean(s);
    DeviationInReach(s, k);
    assert Square(1.0) == 1.0 && Square(NEGLIGIBLE) == NEGLIGIBLE_SQ;
    hide Square, Variance, Mean;
    if |s| == 2 {
      SquareOrder(Abs(d), NEGLIGIBLE);
      SquareOfAbs(d);
    }
  }

  /**
   * The thresholds the newest value of some window of n values exceeds: exactly those within reach, and through the
   * fallback every one below 100 once there are three values.
   */
  lemma ExceedableIff(n: nat, t: real)
    requires n >= 1 && t >= 0.0
    ensures (exists s: seq<real> :: |s| == n && ZAbove(s, s[n - 1], t)) <==>
      !OutOfReach(n as real, t) || (n >= 3 && t < 100.0)
    ensures (exists s: seq<real> :: |s| == n && Steady(s) && ZAbove(s, s[n - 1], t)) <==> !OutOfReach(n as real, t)
  {
    FallbackIff(n);
    if OutOfReach(n as real, t) {
      forall s: seq<real> | |s| == n
        ensures ZAbove(s, s[n - 1], t) <==> FallsBack(s, n - 1) && t < 100.0
        ensures Steady(s) ==> !FallsBack(s, n - 1)
      {
        OnlyFallbackExceeds(s, n - 1, t);
        SteadyNeverFallsBack(s, n - 1);
      }
      hide ZAbove, FallsBack, Steady, OutOfReach;
      if n >= 3 && t < 100.0 {
        var s: seq<real> :| |s| == n && FallsBack(s, n - 1);
        assert ZAbove(s, s[n - 1], t);
      }
    } else {
      SpikeExceeds(n, t);
      hide ZAbove, Steady, OutOfReach, Spike;
      var s := Spike(n, 1.0);
      assert |s| == n && Steady(s) && ZAbove(s, s[n - 1], t);
    }
  }

  lemma SteadyNeverFallsBack(s: seq<real>, k: nat)
    requires k < |s|
    ensures Steady(s) ==> !FallsBack(s, k)
  {
    var d := s[k] - Mean(s);
    DeviationInReach(s, k);
    hide Square, Variance, Mean;
    if d != 0.0 && Variance(s) == 0.0 {
      ReachNeedsSpread(|s| as real, d);
    }
  }

  lemma SpikeExceeds(n: nat, t: real)
    requires n >= 1 && t >= 0.0 && !OutOfReach(n as real, t)
    ensures var s := Spike(n, 1.0); |s| == n && Steady(s) && ZAbove(s, s[n - 1], t)
  {
    if n == 1 {
      ZeroSquare();
      SquareSign(t);
    } else {
      assert Square(1.0) == 1.0;
      SpikeNumbers(n, 1.0);
      assert Spike(n, 1.0)[n - 1] == n as real;
      hide Square, Variance, Mean;
    }
  }

  lemma ReachGrowsLine(n: real, c: real)
    requires 1.0 <= n <= c
    ensures Square(n - 1.0) * c <= Square(c - 1.0) * n
  {
    var gap := (c - n) * (n * c - 1.0);
    ProductNonNegative(n - 1.0, c - 1.0);
    assert n * c - 1.0 == (n - 1.0) * (c - 1.0) + (n - 1.0) + (c - 1.0);
    ProductNonNegative(c - n, n * c - 1.0);
    assert Square(c - 1.0) * n - Square(n - 1.0) * c == gap;
  }

  /** A threshold out of reach of c values is out of reach of every smaller window. */
  lemma ReachGrows(n: real, c: real, t: real)
    requires 1.0 <= n <= c && OutOfReach(c, t)
    ensures OutOfReach(n, t)
  {
    hide Square;
    ReachGrowsLine(n, c);
    var kk, cc, tt := Square(n - 1.0), Square(c - 1.0), Square(t);
    TimesOrder(cc, tt * c, n);
    assert (tt * c) * n == (tt * n) * c;
    CancelPositive(kk, tt * n, c);
  }

  // ---- trend ----

  /** Mean of the newer half minus mean of the older half; 0 below three values. */
  function Trend(s: seq<real>): real {
    if |s| < 3 then 0.0
    else
      var half := |s| / 2;
      Mean(s[half..]) - Mean(s[..half])
  }

  predicate Within(s: seq<real>, lo: real, hi: real) {
    forall i :: 0 <= i < |s| ==> lo <= s[i] <= hi
  }

  lemma {:induction false} SumWithin(s: seq<real>, lo: real, hi: real)
    requires Within(s, lo, hi)
    ensures |s| as real * lo <= Sum(s) <= |s| as real * hi
  {
    if s == [] {
    } else {
      var m := |s[1..]| as real;
      SumWithin(s[1..], lo, hi);
      assert |s| as real == m + 1.0;
      assert (m + 1.0) * lo == m * lo + lo && (m + 1.0) * hi == m * hi + hi;
    }
  }

  lemma MeanWithin(s: seq<real>, lo: real, hi: real)
    requires s != [] && Within(s, lo, hi)
    ensures lo <= Mean(s) <= hi
  {
    SumWithin(s, lo, hi);
    var n := |s| as real;
    assert Mean(s) * n == Sum(s);
    assert lo * n == n * lo && hi * n == n * hi;
    CancelPositive(lo, Mean(s), n);
    CancelPositive(Mean(s), hi, n);
  }

  /** The trend never exceeds the spread of the window in either direction. */
  lemma TrendWithinSpread(s: seq<real>, lo: real, hi: real)
    requires s != [] && Within(s, lo, hi)
    ensures lo - hi <= Trend(s) <= hi - lo
  {
    assert lo <= s[0] <= hi;
    if |s| >= 3 {
      MeanWithin(s[|s| / 2..], lo, hi);
      MeanWithin(s[..|s| / 2], lo, hi);
    }
  }

  predicate NonDecreasing(s: seq<real>) {
    forall i, j :: 0 <= i <= j < |s| ==> s[i] <= s[j]
  }

  /** A window that never falls has a trend between 0 and its total rise. */
  lemma RisingTrend(s: seq<real>)
    requires s != [] && NonDecreasing(s)
    ensures 0.0 <= Trend(s) <= s[|s| - 1] - s[0]
  {
    TrendWithinSpread(s, s[0], s[|s| - 1]);
    if |s| >= 3 {
      var half := |s| / 2;
      MeanWithin(s[half..], s[half], s[|s| - 1]);
      MeanWithin(s[..half], s[0], s[half]);
    }
  }

  /** The trend weighs the total of each half with the length of the other; it is 0 below three values. */
  lemma TrendWeighsHalves(s: seq<real>)
    ensures |s| < 3 ==> Trend(s) == 0.0
    ensures |s| >= 3 ==>
      var half := |s| / 2;
      var older, newer := half as real, (|s| - half) as real;
      newer * older * Trend(s) == older * Sum(s[half..]) - newer * Sum(s[..half])
  {
    if |s| >= 3 {
      var half := |s| / 2;
      var older, newer := half as real, (|s| - half) as real;
      var a, b := Mean(s[..half]), Mean(s[half..]);
      assert a * older == Sum(s[..half]) && b * newer == Sum(s[half..]);
      hide Mean, Sum;
      assert newer * older * (b - a) == older * (b * newer) - newer * (a * older);
    }
  }

  /** Values on a straight line. */
  function Line(first: real, slope: real, n: nat): (s: seq<real>)
    ensures |s| == n
  {
    seq(n, i requires 0 <= i < n => first + slope * i as real)
  }

  lemma {:induction false} LineSum(first: real, slope: real, n: nat)
    ensures 2.0 * Sum(Line(first, slope, n)) == n as real * (2.0 * first + slope * (n as real - 1.0))
    decreases n
  {
    if n == 0 {
    } else {
      var s, m := Line(first, slope, n), n as real - 1.0;
      LineRest(first, slope, n, 1);
      LineSum(first + slope, slope, n - 1);
      assert slope * 1 as real == slope;
      hide Line;
      assert m * (2.0 * (first + slope) + slope * (m - 1.0)) + 2.0 * first == (m + 1.0) * (2.0 * first + slope * m);
    }
  }

  lemma LineRest(first: real, slope: real, n: nat, k: nat)
    requires k <= n
    ensures Line(first, slope, n)[k..] == Line(first + slope * k as real, slope, n - k)
    ensures Line(first, slope, n)[..k] == Line(first, slope, k)
    ensures n > 0 ==> Line(first, slope, n)[0] == first
  {
    forall i | 0 <= i < n - k
      ensures Line(first, slope, n)[k..][i] == Line(first + slope * k as real, slope, n - k)[i]
    {
      assert (k + i) as real == k as real + i as real;
      assert slope * (k as real + i as real) == slope * k as real + slope * i as real;
    }
  }

  lemma LineMean(first: real, slope: real, n: nat)
    requires n > 0
    ensures Mean(Line(first, slope, n)) == first + slope * (n as real - 1.0) / 2.0
  {
    LineSum(first, slope, n);
    var m, mean := n as real, first + slope * (n as real - 1.0) / 2.0;
    hide Sum, Line;
    assert m * (2.0 * first + slope * (m - 1.0)) == 2.0 * (mean * m);
    assert (mean * m) / m == mean;
  }

  /** Readings that rise by the same amount each time have that amount times half their number as their trend. */
  lemma TrendOfLine(first: real, slope: real, n: nat)
    requires n >= 3
    ensures Trend(Line(first, slope, n)) == slope * n as real / 2.0
  {
    var half := n / 2;
    var h, s := half as real, Line(first, slope, n);
    LineRest(first, slope, n, half);
    LineMean(first, slope, half);
    LineMean(first + slope * h, slope, n - half);
    var older, newer := Mean(s[..half]), Mean(s[half..]);
    assert Trend(s) == newer - older;
    hide *;
    assert (n - half) as real == n as real - h;
    LineTrendNumbers(first, slope, h, n as real, older, newer);
  }

  lemma LineTrendNumbers(first: real, slope: real, h: real, n: real, older: real, newer: real)
    requires older == first + slope * (h - 1.0) / 2.0 && newer == first + slope * h + slope * (n - h - 1.0) / 2.0
    ensures newer - older == slope * n / 2.0
  {
    assert slope * (n - h - 1.0) == slope * n - slope * h - slope;
    assert slope * (h - 1.0) == slope * h - slope;
  }
}
