/** `manual_correlation`: Pearson's coefficient computed from running sums, and
    the trend and strength tests made on it.

    The model stays in exact real arithmetic and never takes the square root:
    a coefficient is kept as the pair (numerator, radicand) and stands for
    numerator / sqrt(radicand). Every comparison the source makes on the
    coefficient is decided from that pair.

    Products go through `Mul` and squares through `Sq`, so that the sign
    facts about them are stated once, in the lemmas of the first section. */
module Correlation {

  function Mul(a: real, b: real): real {
    a * b
  }

  /** `a**2` */
  function Sq(a: real): real {
    Mul(a, a)
  }

  function Sum(xs: seq<real>): real {
    if xs == [] then 0.0 else xs[0] + Sum(xs[1..])
  }

  /** `sum(xi**2 for xi in xs)` */
  function SumSquares(xs: seq<real>): real {
    if xs == [] then 0.0 else Sq(xs[0]) + SumSquares(xs[1..])
  }

  /** `sum(xi*yi for xi, yi in zip(xs, ys))`; `zip` stops at the shorter. */
  function SumProducts(xs: seq<real>, ys: seq<real>): real {
    if xs == [] || ys == [] then 0.0 else Mul(xs[0], ys[0]) + SumProducts(xs[1..], ys[1..])
  }

  /** The coefficient `manual_correlation` returns. `Ratio(p, q)` stands for
      p / sqrt(q); `Zero` is the literal 0 of the guard cases. */
  datatype Coefficient = Zero | Ratio(numerator: real, radicand: real)

  function ManualCorrelation(x: seq<real>, y: seq<real>): Coefficient {
    if |x| != |y| || |x| == 0 then Zero
    else
      var n := |x| as real;
      var sumX, sumY := Sum(x), Sum(y);
      var numerator := SumProducts(x, y) - Mul(sumX, sumY) / n;
      var radicand := Mul(SumSquares(x) - Sq(sumX) / n, SumSquares(y) - Sq(sumY) / n);
      if radicand == 0.0 then Zero else Ratio(numerator, radicand)
  }

  /** `r` is the real number the coefficient `c` stands for: 0, or the number
      with the numerator's sign whose square times the radicand is the
      numerator squared. */
  ghost predicate IsValue(c: Coefficient, r: real) {
    match c
    case Zero => r == 0.0
    case Ratio(p, q) => Mul(Sq(r), q) == Sq(p) && (r > 0.0 <==> p > 0.0) && (r < 0.0 <==> p < 0.0)
  }

  predicate AllEqual(xs: seq<real>) {
    forall i :: 0 <= i < |xs| ==> xs[i] == xs[0]
  }

  // ----- signs of products -----

  /** The sign of a product with a positive factor is the sign of the other. */
  lemma MulByPositive(a: real, b: real)
    requires b > 0.0
    ensures a > 0.0 ==> Mul(a, b) > 0.0
    ensures a == 0.0 ==> Mul(a, b) == 0.0
    ensures a < 0.0 ==> Mul(a, b) < 0.0
  {
  }

  lemma MulOfNegatives(a: real, b: real)
    requires a < 0.0 && b < 0.0
    ensures Mul(a, b) > 0.0
  {
  }

  lemma MulByZero(a: real, b: real)
    requires a == 0.0 || b == 0.0
    ensures Mul(a, b) == 0.0
  {
  }

  lemma SquareSign(a: real)
    ensures Sq(a) >= 0.0
    ensures a != 0.0 ==> Sq(a) > 0.0
  {
    if a > 0.0 {
      MulByPositive(a, a);
    } else if a < 0.0 {
      MulOfNegatives(a, a);
    }
  }

  lemma MulCommutes(a: real, b: real)
    ensures Mul(a, b) == Mul(b, a)
  {
  }

  /** a^2 - b^2 = (a - b)(a + b) */
  lemma DifferenceOfSquares(a: real, b: real)
    ensures Sq(a) - Sq(b) == Mul(a - b, a + b)
  {
  }

  /** s q - k q = (s - k) q */
  lemma MulDifference(s: real, k: real, q: real)
    ensures Mul(s, q) - Mul(k, q) == Mul(s - k, q)
  {
  }

  /** For q > 0, s q compares with k q as s compares with k. */
  lemma ScaleCompare(s: real, k: real, q: real)
    requires q > 0.0
    ensures Mul(s, q) > Mul(k, q) <==> s > k
    ensures Mul(s, q) == Mul(k, q) <==> s == k
  {
    MulDifference(s, k, q);
    MulByPositive(s - k, q);
  }

  /** For t > 0, r^2 compares with t^2 as |r| compares with t. */
  lemma SquareCompare(r: real, t: real)
    requires t > 0.0
    ensures Sq(r) > Sq(t) <==> (if r < 0.0 then -r else r) > t
    ensures Sq(r) == Sq(t) <==> (if r < 0.0 then -r else r) == t
  {
    var a := if r < 0.0 then -r else r;
    assert Sq(a) == Sq(r);
    DifferenceOfSquares(a, t);
    MulByPositive(a - t, a + t);
  }

  // ----- algebra of the running sums -----

  lemma StepSquares(x0: real, c: real, n: real, n1: real, s: real, s1: real,
                    q: real, q1: real, sx: real, sx1: real)
    requires n == n1 + 1.0 && q == Sq(x0) + q1 && sx == x0 + sx1
    requires s1 == q1 - 2.0 * Mul(c, sx1) + Mul(n1, Sq(c))
    requires s == Sq(x0 - c) + s1
    ensures s == q - 2.0 * Mul(c, sx) + Mul(n, Sq(c))
  {
  }

  lemma StepProducts(x0: real, y0: real, a: real, b: real, n: real, n1: real, s: real, s1: real,
                     p: real, p1: real, sx: real, sx1: real, sy: real, sy1: real)
    requires n == n1 + 1.0 && p == Mul(x0, y0) + p1 && sx == x0 + sx1 && sy == y0 + sy1
    requires s1 == p1 - Mul(a, sy1) - Mul(b, sx1) + Mul(n1, Mul(a, b))
    requires s == Mul(x0 - a, y0 - b) + s1
    ensures s == p - Mul(a, sy) - Mul(b, sx) + Mul(n, Mul(a, b))
  {
  }

  lemma StepCombination(u0: real, v0: real, p: real, q: real, s: real, s1: real,
                        uu: real, uu1: real, uv: real, uv1: real, vv: real, vv1: real)
    requires uu == Sq(u0) + uu1 && uv == Mul(u0, v0) + uv1 && vv == Sq(v0) + vv1
    requires s1 == Mul(Sq(p), vv1) - 2.0 * Mul(Mul(p, q), uv1) + Mul(Sq(q), uu1)
    requires s == Sq(p * v0 - q * u0) + s1
    ensures s == Mul(Sq(p), vv) - 2.0 * Mul(Mul(p, q), uv) + Mul(Sq(q), uu)
  {
  }

  function Centered(xs: seq<real>, c: real): (r: seq<real>)
    ensures |r| == |xs| && forall i :: 0 <= i < |xs| ==> r[i] == xs[i] - c
  {
    seq(|xs|, i requires 0 <= i < |xs| => xs[i] - c)
  }

  /** The values p v_i - q u_i. */
  function Combination(u: seq<real>, v: seq<real>, p: real, q: real): seq<real>
    requires |u| == |v|
  {
    if u == [] then [] else [p * v[0] - q * u[0]] + Combination(u[1..], v[1..], p, q)
  }

  lemma {:induction false} SumSquaresNonNegative(u: seq<real>)
    ensures SumSquares(u) >= 0.0
    ensures SumSquares(u) == 0.0 <==> forall i :: 0 <= i < |u| ==> u[i] == 0.0
  {
    if u != [] {
      var t := u[1..];
      SumSquaresNonNegative(t);
      SquareSign(u[0]);
      if forall i :: 0 <= i < |u| ==> u[i] == 0.0 {
        assert forall i :: 0 <= i < |t| ==> t[i] == u[i + 1];
      }
      if SumSquares(u) == 0.0 {
        forall i | 0 <= i < |u| ensures u[i] == 0.0 {
          if i > 0 {
            assert u[i] == t[i - 1];
          }
        }
      }
    }
  }

  lemma {:induction false} SumProductsOfZero(u: seq<real>, v: seq<real>)
    requires forall i :: 0 <= i < |u| ==> u[i] == 0.0
    ensures SumProducts(u, v) == 0.0
  {
    if u != [] && v != [] {
      MulByZero(u[0], v[0]);
      SumProductsOfZero(u[1..], v[1..]);
    }
  }

  /** Sum of squares of the centred values: SXX - 2c SX + n c^2. */
  lemma {:induction false} CenteredSquares(xs: seq<real>, c: real)
    ensures SumSquares(Centered(xs, c)) == SumSquares(xs) - 2.0 * Mul(c, Sum(xs)) + Mul(|xs| as real, Sq(c))
  {
    if xs != [] {
      var w := Centered(xs, c);
      assert w[1..] == Centered(xs[1..], c);
      CenteredSquares(xs[1..], c);
      StepSquares(xs[0], c, |xs| as real, |xs[1..]| as real, SumSquares(w), SumSquares(w[1..]),
        SumSquares(xs), SumSquares(xs[1..]), Sum(xs), Sum(xs[1..]));
    }
  }

  /** Sum of products of the centred values: SXY - a SY - b SX + n a b. */
  lemma {:induction false} CenteredProducts(xs: seq<real>, ys: seq<real>, a: real, b: real)
    requires |xs| == |ys|
    ensures SumProducts(Centered(xs, a), Centered(ys, b))
         == SumProducts(xs, ys) - Mul(a, Sum(ys)) - Mul(b, Sum(xs)) + Mul(|xs| as real, Mul(a, b))
  {
    if xs != [] {
      var u, v := Centered(xs, a), Centered(ys, b);
      assert u[1..] == Centered(xs[1..], a);
      assert v[1..] == Centered(ys[1..], b);
      CenteredProducts(xs[1..], ys[1..], a, b);
      StepProducts(xs[0], ys[0], a, b, |xs| as real, |xs[1..]| as real, SumProducts(u, v), SumProducts(u[1..], v[1..]),
        SumProducts(xs, ys), SumProducts(xs[1..], ys[1..]), Sum(xs), Sum(xs[1..]), Sum(ys), Sum(ys[1..]));
    }
  }

  /** sum((p v_i - q u_i)^2) = p^2 SVV - 2pq SUV + q^2 SUU. */
  lemma {:induction false} CombinationSquares(u: seq<real>, v: seq<real>, p: real, q: real)
    requires |u| == |v|
    ensures SumSquares(Combination(u, v, p, q))
         == Mul(Sq(p), SumSquares(v)) - 2.0 * Mul(Mul(p, q), SumProducts(u, v)) + Mul(Sq(q), SumSquares(u))
  {
    if u != [] {
      var w := Combination(u, v, p, q);
      assert w[1..] == Combination(u[1..], v[1..], p, q);
      CombinationSquares(u[1..], v[1..], p, q);
      StepCombination(u[0], v[0], p, q, SumSquares(w), SumSquares(w[1..]),
        SumSquares(u), SumSquares(u[1..]), SumProducts(u, v), SumProducts(u[1..], v[1..]),
        SumSquares(v), SumSquares(v[1..]));
    }
  }

  /** a^2 c - 2ab b + b^2 a = a (ac - b^2) */
  lemma DiscriminantIdentity(a: real, b: real, c: real)
    ensures Mul(Sq(a), c) - 2.0 * Mul(Mul(a, b), b) + Mul(Sq(b), a) == Mul(Mul(a, c) - Sq(b), a)
  {
  }

  /** Cauchy-Schwarz: SUV^2 <= SUU * SVV. */
  lemma CauchySchwarz(u: seq<real>, v: seq<real>)
    requires |u| == |v|
    ensures Sq(SumProducts(u, v)) <= Mul(SumSquares(u), SumSquares(v))
  {
    var a, b, c := SumSquares(u), SumProducts(u, v), SumSquares(v);
    SumSquaresNonNegative(u);
    if a == 0.0 {
      SumProductsOfZero(u, v);
      MulByZero(a, c);
      MulByZero(b, b);
    } else {
      CombinationSquares(u, v, a, b);
      SumSquaresNonNegative(Combination(u, v, a, b));
      DiscriminantIdentity(a, b, c);
      MulByPositive(Mul(a, c) - Sq(b), a);
    }
  }

  lemma MulSuccessor(n1: real, c: real)
    ensures Mul(n1 + 1.0, c) == c + Mul(n1, c)
  {
  }

  lemma {:induction false} SumOfConstant(xs: seq<real>, c: real)
    requires forall i :: 0 <= i < |xs| ==> xs[i] == c
    ensures Sum(xs) == Mul(|xs| as real, c)
  {
    if xs != [] {
      SumOfConstant(xs[1..], c);
      MulSuccessor(|xs[1..]| as real, c);
    } else {
      MulByZero(0.0, c);
    }
  }

  lemma MeanOfConstant(n: real, s: real, c: real)
    requires n > 0.0 && s == Mul(n, c)
    ensures s / n == c
  {
  }

  /** With m = s / n: 2 m s - n m^2 = s^2 / n. */
  lemma MeanSquares(n: real, sx: real)
    requires n > 0.0
    ensures 2.0 * Mul(sx / n, sx) - Mul(n, Sq(sx / n)) == Sq(sx) / n
  {
    var m := sx / n;
    assert sx == n * m;
    assert Mul(m, sx) == n * (m * m);
    assert Sq(sx) == n * (n * (m * m));
  }

  /** With mx = sx / n and my = sy / n: mx sy + my sx - n mx my = sx sy / n. */
  lemma MeanProducts(n: real, sx: real, sy: real)
    requires n > 0.0
    ensures Mul(sx / n, sy) + Mul(sy / n, sx) - Mul(n, Mul(sx / n, sy / n)) == Mul(sx, sy) / n
  {
    var mx, my := sx / n, sy / n;
    assert sx == n * mx && sy == n * my;
    assert Mul(mx, sy) == n * (mx * my);
    assert Mul(my, sx) == n * (mx * my);
    assert Mul(sx, sy) == n * (n * (mx * my));
  }

  /** With the mean m = SX/n, SXX - SX^2/n is the sum of (x_i - m)^2. */
  lemma MeanCentredSquares(x: seq<real>)
    requires |x| > 0
    ensures SumSquares(x) - Sq(Sum(x)) / (|x| as real) == SumSquares(Centered(x, Sum(x) / (|x| as real)))
  {
    var n := |x| as real;
    CenteredSquares(x, Sum(x) / n);
    MeanSquares(n, Sum(x));
  }

  /** With the means mx, my, SXY - SX SY/n is the sum of (x_i - mx)(y_i - my). */
  lemma MeanCentredProducts(x: seq<real>, y: seq<real>)
    requires |x| == |y| && |x| > 0
    ensures SumProducts(x, y) - Mul(Sum(x), Sum(y)) / (|x| as real)
         == SumProducts(Centered(x, Sum(x) / (|x| as real)), Centered(y, Sum(y) / (|x| as real)))
  {
    var n := |x| as real;
    CenteredProducts(x, y, Sum(x) / n, Sum(y) / n);
    MeanProducts(n, Sum(x), Sum(y));
  }

  /** The centred sum of squares is zero exactly when all values are equal. */
  lemma NoSpreadIffAllEqual(x: seq<real>)
    requires |x| > 0
    ensures SumSquares(Centered(x, Sum(x) / (|x| as real))) == 0.0 <==> AllEqual(x)
  {
    var n := |x| as real;
    var m := Sum(x) / n;
    var w := Centered(x, m);
    SumSquaresNonNegative(w);
    if AllEqual(x) {
      SumOfConstant(x, x[0]);
      MeanOfConstant(n, Sum(x), x[0]);
      assert m == x[0];
      forall i | 0 <= i < |w| ensures w[i] == 0.0 {
        assert x[i] == x[0];
      }
    }
    if SumSquares(w) == 0.0 {
      forall i | 0 <= i < |x| ensures x[i] == m {
        assert w[i] == 0.0;
      }
    }
  }

  // ----- what manual_correlation returns -----

  /** The guard cases: the result is 0 exactly when the lengths differ, there
      is no data, or the x values or the y values are all equal (no variance
      on one side); the value under the root is never negative, so the root
      is always defined. */
  lemma ManualCorrelationZeroIff(x: seq<real>, y: seq<real>)
    ensures ManualCorrelation(x, y).Zero?
        <==> (|x| != |y| || |x| == 0 || AllEqual(x) || AllEqual(y))
    ensures ManualCorrelation(x, y).Ratio? ==> ManualCorrelation(x, y).radicand > 0.0
  {
    if |x| == |y| && |x| > 0 {
      var n := |x| as real;
      MeanCentredSquares(x);
      MeanCentredSquares(y);
      NoSpreadIffAllEqual(x);
      NoSpreadIffAllEqual(y);
      var vx := SumSquares(Centered(x, Sum(x) / n));
      var vy := SumSquares(Centered(y, Sum(y) / n));
      SumSquaresNonNegative(Centered(x, Sum(x) / n));
      SumSquaresNonNegative(Centered(y, Sum(y) / n));
      if vx > 0.0 && vy > 0.0 {
        MulByPositive(vx, vy);
      } else {
        MulByZero(vx, vy);
      }
    }
  }

  /** The numerator squared never exceeds the radicand (Cauchy–Schwarz on the
      centred sequences), so the coefficient lies in [-1, 1] without naming
      the square root. */
  lemma ManualCorrelationPairBounded(x: seq<real>, y: seq<real>)
    ensures ManualCorrelation(x, y).Ratio? ==>
      Sq(ManualCorrelation(x, y).numerator) <= ManualCorrelation(x, y).radicand
  {
    var c := ManualCorrelation(x, y);
    if c.Ratio? {
      var n := |x| as real;
      MeanCentredSquares(x);
      MeanCentredSquares(y);
      MeanCentredProducts(x, y);
      ManualCorrelationZeroIff(x, y);
      CauchySchwarz(Centered(x, Sum(x) / n), Centered(y, Sum(y) / n));
    }
  }

  /** The coefficient lies in [-1, 1]: any real the pair stands for does. */
  lemma ManualCorrelationBounded(x: seq<real>, y: seq<real>, r: real)
    requires IsValue(ManualCorrelation(x, y), r)
    ensures -1.0 <= r <= 1.0
  {
    var c := ManualCorrelation(x, y);
    if c.Ratio? {
      ManualCorrelationPairBounded(x, y);
      ManualCorrelationZeroIff(x, y);
      var q := c.radicand;
      assert Mul(Sq(r), q) <= Mul(1.0, q);
      ScaleCompare(Sq(r), 1.0, q);
      SquareCompare(r, 1.0);
    }
  }

  // ----- the tests made on the coefficient -----

  /** `corr > 0` */
  predicate IsPositive(c: Coefficient) {
    c.Ratio? && c.numerator > 0.0
  }

  /** `abs(corr) > 0.7`, i.e. corr^2 > 0.49 */
  predicate IsStrong(c: Coefficient) {
    c.Ratio? && Sq(c.numerator) > 0.49 * c.radicand
  }

  /** The two tests decided on the pair agree with the same tests on the
      number the pair stands for. */
  lemma LabelsAgreeWithValue(c: Coefficient, r: real)
    requires c.Ratio? ==> c.radicand > 0.0
    requires IsValue(c, r)
    ensures IsPositive(c) <==> r > 0.0
    ensures IsStrong(c) <==> (if r < 0.0 then -r else r) > 0.7
  {
    if c.Ratio? {
      var q := c.radicand;
      assert 0.49 * q == Mul(Sq(0.7), q);
      ScaleCompare(Sq(r), Sq(0.7), q);
      SquareCompare(r, 0.7);
    }
  }

  /** Three years with totals 10, 20, 30: a perfect increasing line, whose
      coefficient is exactly 1. */
  lemma PerfectIncreasingTrend(r: real)
    requires IsValue(ManualCorrelation([2020.0, 2021.0, 2022.0], [10.0, 20.0, 30.0]), r)
    ensures r == 1.0
    ensures IsPositive(ManualCorrelation([2020.0, 2021.0, 2022.0], [10.0, 20.0, 30.0]))
    ensures IsStrong(ManualCorrelation([2020.0, 2021.0, 2022.0], [10.0, 20.0, 30.0]))
  {
    var x, y := [2020.0, 2021.0, 2022.0], [10.0, 20.0, 30.0];
    assert Sum(x) == 6063.0 && Sum(y) == 60.0;
    assert SumSquares(x) == 12253325.0 && SumSquares(y) == 1400.0;
    assert SumProducts(x, y) == 121280.0;
    assert ManualCorrelation(x, y) == Ratio(20.0, 400.0);
    assert Mul(Sq(r), 400.0) == Mul(1.0, 400.0);
    ScaleCompare(Sq(r), 1.0, 400.0);
    SquareCompare(r, 1.0);
  }
}
