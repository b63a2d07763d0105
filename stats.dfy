/** Population statistics of a sample of reals, as numpy's `mean` and `std`
    (with its default `ddof=0`) compute them, and the outlier test that
    `AstroImage.mask_blank` applies to its histogram counts, stated without
    a square root. */
module Stats {

  function Sum(xs: seq<real>): real {
    if xs == [] then 0.0 else xs[0] + Sum(xs[1..])
  }

  /** Sum of squares; never negative. */
  function SumSq(xs: seq<real>): (r: real)
    ensures r >= 0.0
  {
    if xs == [] then 0.0 else Square(xs[0]) + SumSq(xs[1..])
  }

  function Square(x: real): (r: real)
    ensures r >= 0.0
  {
    x * x
  }

  lemma {:induction false} SumAppend(xs: seq<real>, ys: seq<real>)
    ensures Sum(xs + ys) == Sum(xs) + Sum(ys)
    ensures SumSq(xs + ys) == SumSq(xs) + SumSq(ys)
  {
    if xs == [] {
      assert xs + ys == ys;
    } else {
      assert (xs + ys)[1..] == xs[1..] + ys;
      SumAppend(xs[1..], ys);
    }
  }

  /** Removing element `i` takes it out of the length and both sums. */
  lemma SumWithout(ys: seq<real>, i: int)
    requires 0 <= i < |ys|
    ensures |ys| == |ys[..i] + ys[i + 1..]| + 1
    ensures Sum(ys) == Sum(ys[..i] + ys[i + 1..]) + ys[i]
    ensures SumSq(ys) == SumSq(ys[..i] + ys[i + 1..]) + Square(ys[i])
  {
    assert ys == ys[..i] + ([ys[i]] + ys[i + 1..]);
    SumAppend(ys[..i], [ys[i]] + ys[i + 1..]);
    SumAppend([ys[i]], ys[i + 1..]);
    SumAppend(ys[..i], ys[i + 1..]);
  }

  /** numpy's `mean`. */
  function Mean(xs: seq<real>): real
    requires |xs| > 0
  {
    Sum(xs) / |xs| as real
  }

  /** The deviations of a sample from a centre `m`. */
  function Deviations(xs: seq<real>, m: real): (ys: seq<real>)
    ensures |ys| == |xs| && forall i :: 0 <= i < |xs| ==> ys[i] == xs[i] - m
  {
    seq(|xs|, i requires 0 <= i < |xs| => xs[i] - m)
  }

  /** Deviations from any centre sum to the sum less n times the centre. */
  lemma {:induction false} SumDeviations(xs: seq<real>, m: real)
    ensures Sum(Deviations(xs, m)) == Sum(xs) - |xs| as real * m
  {
    if xs != [] {
      assert Deviations(xs, m)[1..] == Deviations(xs[1..], m);
      SumDeviations(xs[1..], m);
    }
  }

  /** numpy's `var` (the square of `std`): the mean squared deviation from
      the mean; never negative. */
  function Variance(xs: seq<real>): (v: real)
    requires |xs| > 0
    ensures v >= 0.0
  {
    SumSq(Deviations(xs, Mean(xs))) / |xs| as real
  }

  /** The count test of `mask_blank`, `c > mean(xs) + 5*std(xs) + t`,
      squared out. numpy's mean of an empty array is NaN, and a comparison
      with NaN is false, so no count exceeds the critical value of an empty
      sample. */
  predicate ExceedsCritical(c: real, xs: seq<real>, t: real): (b: bool)
    ensures b ==> |xs| > 0 && c > Mean(xs) + t
  {
    && |xs| > 0
    && c - Mean(xs) - t > 0.0
    && Square(c - Mean(xs) - t) > 25.0 * Variance(xs)
  }

  /** With `sd` the standard deviation, the squared-out test is the test
      `c > mean + 5*sd + t` of the source; in particular an exceeding count
      lies above the mean plus the threshold. */
  lemma ExceedsCriticalIff(c: real, xs: seq<real>, t: real, sd: real)
    requires |xs| > 0 && sd >= 0.0 && Square(sd) == Variance(xs)
    ensures ExceedsCritical(c, xs, t) <==> c > Mean(xs) + 5.0 * sd + t
    ensures ExceedsCritical(c, xs, t) ==> c > Mean(xs) + t
  {
    var d := c - Mean(xs) - t;
    var e := 5.0 * sd;
    assert 25.0 * Variance(xs) == e * e;
    assert Square(d) == d * d;
    if d > e {
      SquareStrict(e, d);
    } else if d > 0.0 {
      SquareMono(d, e);
    }
  }

  lemma SquareStrict(a: real, b: real)
    requires 0.0 <= a < b
    ensures a * a < b * b
  {
    var d := b - a;
    assert b * b == a * a + 2.0 * a * d + d * d;
    assert a * d >= 0.0;
    assert d * d > 0.0;
  }

  lemma SquareMono(a: real, b: real)
    requires 0.0 <= a <= b
    ensures a * a <= b * b
  {
    assert a * a <= a * b <= b * b;
  }

  /** The square of a sum is at most the length times the sum of squares
      (the Cauchy-Schwarz inequality against the all-ones vector). */
  lemma {:induction false} SquaredSumBound(ys: seq<real>)
    ensures Square(Sum(ys)) <= |ys| as real * SumSq(ys)
  {
    if ys != [] {
      var y, s, q, k := ys[0], Sum(ys[1..]), SumSq(ys[1..]), (|ys| - 1) as real;
      SquaredSumBound(ys[1..]);
      assert s * s <= k * q;
      if k == 0.0 {
        assert ys[1..] == [];
      } else {
        CrossTermBound(y, s, q, k);
      }
      assert Square(y + s) == y * y + 2.0 * y * s + s * s;
      assert Square(y + s) <= (k + 1.0) * (y * y + q);
    }
  }

  lemma CrossTermBound(y: real, s: real, q: real, k: real)
    requires k > 0.0 && s * s <= k * q
    ensures 2.0 * y * s <= k * y * y + q
  {
    var g := k * y * y + q - 2.0 * y * s;
    assert k * g == (k * y - s) * (k * y - s) + (k * q - s * s);
    assert Square(k * y - s) >= 0.0;
  }

  /** Samuelson's inequality: no element of a sample of n lies further
      than sqrt(n - 1) standard deviations from the mean. */
  lemma Samuelson(xs: seq<real>, i: int)
    requires 0 <= i < |xs|
    ensures Square(xs[i] - Mean(xs)) <= (|xs| - 1) as real * Variance(xs)
  {
    var ys := Deviations(xs, Mean(xs));
    DeviationsFromMean(xs);
    ZeroSumBound(ys, i);
    DivideOut(Square(ys[i]), SumSq(ys), |xs| as real);
  }

  /** Deviations from the mean sum to zero. */
  lemma DeviationsFromMean(xs: seq<real>)
    requires |xs| > 0
    ensures Sum(Deviations(xs, Mean(xs))) == 0.0
  {
    SumDeviations(xs, Mean(xs));
    assert |xs| as real * Mean(xs) == Sum(xs);
  }

  /** In a sample that sums to zero, n times the square of any element is
      at most n - 1 times the sum of squares. */
  lemma ZeroSumBound(ys: seq<real>, i: int)
    requires 0 <= i < |ys| && Sum(ys) == 0.0
    ensures |ys| as real * Square(ys[i]) <= (|ys| as real - 1.0) * SumSq(ys)
  {
    SumWithout(ys, i);
    ZeroSumStep(ys, ys[..i] + ys[i + 1..], ys[i]);
  }

  /** `ZeroSumBound` for an element `y` and the sample `zs` of the others. */
  lemma ZeroSumStep(ys: seq<real>, zs: seq<real>, y: real)
    requires Sum(ys) == 0.0 && |ys| == |zs| + 1
    requires Sum(ys) == Sum(zs) + y && SumSq(ys) == SumSq(zs) + Square(y)
    ensures |ys| as real * Square(y) <= (|ys| as real - 1.0) * SumSq(ys)
  {
    NegatedSumBound(zs, y);
    AddOwnSquare(Square(y), SumSq(zs), SumSq(ys), |zs| as real, |ys| as real);
  }

  /** A value whose negation is the sum of a sample has a square of at
      most the sample's size times its sum of squares. */
  lemma NegatedSumBound(zs: seq<real>, y: real)
    requires Sum(zs) == -y
    ensures Square(y) <= |zs| as real * SumSq(zs)
  {
    SquareOfNegation(Sum(zs), y);
    SquaredSumBound(zs);
  }

  lemma AddOwnSquare(a: real, r: real, q: real, k: real, n: real)
    requires a <= k * r && q == r + a && n == k + 1.0
    ensures n * a <= (n - 1.0) * q
  {
  }

  lemma SquareOfNegation(x: real, y: real)
    requires x == -y
    ensures Square(x) == Square(y)
  {
  }

  lemma DivideOut(a: real, q: real, n: real)
    requires n >= 1.0 && n * a <= (n - 1.0) * q
    ensures a <= (n - 1.0) * (q / n)
  {
    assert (n - 1.0) * (q / n) == ((n - 1.0) * q) / n;
    assert a == (n * a) / n;
  }

  /** With at most 26 values and a non-negative threshold, no value
      exceeds the critical count: even the largest lies within five
      standard deviations of the mean. */
  lemma FewValuesNeverExceed(xs: seq<real>, i: int, t: real)
    requires 0 <= i < |xs| <= 26 && t >= 0.0
    ensures !ExceedsCritical(xs[i], xs, t)
  {
    Samuelson(xs, i);
    WithinFive(xs[i], Mean(xs), t, Variance(xs), |xs| as real);
  }

  /** A value within sqrt(n - 1) standard deviations of the mean, for n at
      most 26, is within five of them, and a non-negative threshold only
      brings it closer. */
  lemma WithinFive(c: real, m: real, t: real, v: real, n: real)
    requires t >= 0.0 && v >= 0.0 && n <= 26.0
    requires Square(c - m) <= (n - 1.0) * v
    ensures !(c - m - t > 0.0 && Square(c - m - t) > 25.0 * v)
  {
    var d, e := c - m - t, c - m;
    if d > 0.0 {
      SquareMono(d, e);
      assert Square(d) <= Square(e);
      assert (26.0 - n) * v >= 0.0;
      assert (n - 1.0) * v <= 25.0 * v;
    }
  }
}
