/** The log-domain weight normalisation of one filter step and the
    effective sample size (Neff) computed from the normalised weights.
    Everything is over the mathematical reals; `exp` is a parameter of
    which only positivity and exp(0) = 1 are assumed. */
module Weights {

  /** What the normalisation needs of the exponential function. */
  ghost predicate ExpLike(exp: real -> real) {
    exp(0.0) == 1.0 && forall x :: exp(x) > 0.0
  }

  /** The sum of a sequence, accumulated left to right. */
  function Sum(s: seq<real>): real {
    if |s| == 0 then 0.0 else Sum(s[..|s| - 1]) + s[|s| - 1]
  }

  /** The sum of squares of a sequence, accumulated left to right. */
  function SumSquares(s: seq<real>): real {
    if |s| == 0 then 0.0 else SumSquares(s[..|s| - 1]) + s[|s| - 1] * s[|s| - 1]
  }

  /** The running maximum, updated left to right as `lmax = w > lmax ? w : lmax`. */
  function MaxOf(s: seq<real>): real
    requires |s| > 0
  {
    if |s| == 1 then s[0]
    else
      var m := MaxOf(s[..|s| - 1]);
      if s[|s| - 1] > m then s[|s| - 1] else m
  }

  /** The gain that scales the log-weights of `n` particles before they are
      exponentiated: the reciprocal of `obsSigmaGain` times `n`. */
  function Gain(obsSigmaGain: real, n: nat): real
    requires obsSigmaGain != 0.0 && n > 0
  {
    NonZeroProduct(obsSigmaGain, n as real);
    1.0 / (obsSigmaGain * n as real)
  }

  /** The unnormalised weight of one particle whose log-weight is `w`. */
  function Unnormalized(w: real, gain: real, lmax: real, exp: real -> real): real {
    exp(gain * (w - lmax))
  }

  /** The unnormalised weights, in particle order. */
  function Exps(ws: seq<real>, gain: real, lmax: real, exp: real -> real): seq<real> {
    seq(|ws|, i requires 0 <= i < |ws| => Unnormalized(ws[i], gain, lmax, exp))
  }

  /** Every entry divided by `c`. */
  function Scaled(s: seq<real>, c: real): seq<real>
    requires c != 0.0
  {
    seq(|s|, i requires 0 <= i < |s| => s[i] / c)
  }

  /** The normalised weight vector of the log-weights `ws`: each
      exp(gain * (w_i - lmax)) divided by the sum of all of them. */
  function Normalized(ws: seq<real>, gain: real, exp: real -> real): seq<real>
    requires |ws| > 0 && ExpLike(exp)
  {
    var us := Exps(ws, gain, MaxOf(ws), exp);
    ExpsBounds(ws, gain, exp);
    Scaled(us, Sum(us))
  }

  /** The effective sample size of a weight vector. */
  function Neff(w: seq<real>): real
    requires SumSquares(w) != 0.0
  {
    1.0 / SumSquares(w)
  }

  // ---------------------------------------------------------------------
  // The maximum

  /** `MaxOf` is an upper bound of the sequence and is attained by one of its entries. */
  lemma {:induction false} MaxOfBounds(s: seq<real>)
    requires |s| > 0
    ensures forall i :: 0 <= i < |s| ==> s[i] <= MaxOf(s)
    ensures exists i :: 0 <= i < |s| && s[i] == MaxOf(s)
  {
    if |s| > 1 {
      var p := s[..|s| - 1];
      MaxOfBounds(p);
      assert forall i :: 0 <= i < |p| ==> p[i] == s[i];
      var k :| 0 <= k < |p| && p[k] == MaxOf(p);
      if s[|s| - 1] > MaxOf(p) {
        assert s[|s| - 1] == MaxOf(s);
      } else {
        assert s[k] == MaxOf(s);
      }
    } else {
      assert s[0] == MaxOf(s);
    }
  }

  /** The maximum of a sequence whose entries are all equal is that entry. */
  lemma {:induction false} MaxOfConstant(s: seq<real>)
    requires |s| > 0
    requires forall i :: 0 <= i < |s| ==> s[i] == s[0]
    ensures MaxOf(s) == s[0]
  {
    MaxOfBounds(s);
  }

  // ---------------------------------------------------------------------
  // Sums

  /** In a sequence of positive numbers every entry is at most the sum. */
  lemma {:induction false} SumDominatesPositiveTerms(s: seq<real>)
    requires forall i :: 0 <= i < |s| ==> s[i] > 0.0
    ensures Sum(s) >= 0.0
    ensures forall i :: 0 <= i < |s| ==> s[i] <= Sum(s)
  {
    if |s| > 0 {
      var p := s[..|s| - 1];
      assert forall i :: 0 <= i < |p| ==> p[i] == s[i];
      SumDominatesPositiveTerms(p);
    }
  }

  /** Dividing every entry by `c` divides the sum by `c`. */
  lemma {:induction false} SumScaled(s: seq<real>, c: real)
    requires c != 0.0
    ensures Sum(Scaled(s, c)) == Sum(s) / c
  {
    if |s| > 0 {
      var p := s[..|s| - 1];
      assert Scaled(s, c)[..|s| - 1] == Scaled(p, c);
      SumScaled(p, c);
      assert Sum(Scaled(s, c)) == Sum(p) / c + s[|s| - 1] / c;
    }
  }

  /** For entries in [0, 1] the sum of squares does not exceed the sum. */
  lemma {:induction false} SumSquaresAtMostSum(s: seq<real>)
    requires forall i :: 0 <= i < |s| ==> 0.0 <= s[i] <= 1.0
    ensures SumSquares(s) <= Sum(s)
  {
    if |s| > 0 {
      var p, x := s[..|s| - 1], s[|s| - 1];
      assert forall i :: 0 <= i < |p| ==> p[i] == s[i];
      SumSquaresAtMostSum(p);
      SquareAtMost(x);
      assert SumSquares(s) == SumSquares(p) + x * x;
      assert Sum(s) == Sum(p) + x;
    }
  }

  /** A sum of squares is never negative. */
  lemma {:induction false} SumSquaresNonNegative(s: seq<real>)
    ensures SumSquares(s) >= 0.0
  {
    if |s| > 0 {
      SumSquaresNonNegative(s[..|s| - 1]);
      SquareNonNegative(s[|s| - 1]);
    }
  }

  /** The Cauchy-Schwarz inequality for a sum: (sum s)^2 <= n * sum s^2. */
  lemma {:induction false} SquaredSumAtMostScaledSumSquares(s: seq<real>)
    ensures Sum(s) * Sum(s) <= (|s| as real) * SumSquares(s)
  {
    if |s| > 0 {
      var p, x := s[..|s| - 1], s[|s| - 1];
      SquaredSumAtMostScaledSumSquares(p);
      SumSquaresNonNegative(p);
      CauchySchwarzStep(|p| as real, Sum(p), SumSquares(p), x);
      assert Sum(s) == Sum(p) + x;
      assert SumSquares(s) == SumSquares(p) + x * x;
      assert |s| as real == |p| as real + 1.0;
    }
  }

  /** A sequence whose entries all equal `c` sums to n c, and its squares to n c^2. */
  lemma {:induction false} SumsOfConstant(s: seq<real>, c: real)
    requires forall i :: 0 <= i < |s| ==> s[i] == c
    ensures Sum(s) == (|s| as real) * c
    ensures SumSquares(s) == (|s| as real) * c * c
  {
    if |s| > 0 {
      var p := s[..|s| - 1];
      assert forall i :: 0 <= i < |p| ==> p[i] == s[i];
      SumsOfConstant(p, c);
      assert (|s| as real) * c == (|p| as real) * c + c;
      assert (|s| as real) * c * c == (|p| as real) * c * c + c * c;
    }
  }

  // ---------------------------------------------------------------------
  // The normalisation and Neff

  /** Every unnormalised weight is positive and at most their sum, and the
      sum is at least 1, because the term of the maximal weight is exp(0) = 1. */
  lemma ExpsBounds(ws: seq<real>, gain: real, exp: real -> real)
    requires |ws| > 0 && ExpLike(exp)
    ensures var us := Exps(ws, gain, MaxOf(ws), exp);
      |us| == |ws| && Sum(us) >= 1.0 &&
      forall i :: 0 <= i < |us| ==> 0.0 < us[i] <= Sum(us)
  {
    var us := Exps(ws, gain, MaxOf(ws), exp);
    assert forall i :: 0 <= i < |us| ==> us[i] > 0.0;
    SumDominatesPositiveTerms(us);
    MaxOfBounds(ws);
    var k :| 0 <= k < |ws| && ws[k] == MaxOf(ws);
    assert gain * (ws[k] - MaxOf(ws)) == 0.0 by { ProductWithZero(gain, ws[k] - MaxOf(ws)); }
    assert us[k] == Unnormalized(ws[k], gain, MaxOf(ws), exp) == exp(0.0);
  }

  /** The normalised weights form a probability vector in particle order:
      one entry per particle, each in (0, 1], summing to 1. */
  lemma NormalizedIsDistribution(ws: seq<real>, gain: real, exp: real -> real)
    requires |ws| > 0 && ExpLike(exp)
    ensures |Normalized(ws, gain, exp)| == |ws|
    ensures forall i :: 0 <= i < |ws| ==> 0.0 < Normalized(ws, gain, exp)[i] <= 1.0
    ensures Sum(Normalized(ws, gain, exp)) == 1.0
  {
    var us := Exps(ws, gain, MaxOf(ws), exp);
    ExpsBounds(ws, gain, exp);
    var z := Sum(us);
    var w := Normalized(ws, gain, exp);
    assert w == Scaled(us, z);
    forall i | 0 <= i < |ws|
      ensures 0.0 < w[i] <= 1.0
    {
      RatioInUnitInterval(us[i], z);
    }
    SumScaled(us, z);
    QuotientOfSelf(z);
  }

  /** Neff lies between 1 (all mass on one particle) and N (uniform weights). */
  lemma NeffBounds(ws: seq<real>, gain: real, exp: real -> real)
    requires |ws| > 0 && ExpLike(exp)
    ensures SumSquares(Normalized(ws, gain, exp)) > 0.0
    ensures 1.0 <= Neff(Normalized(ws, gain, exp)) <= |ws| as real
  {
    var w := Normalized(ws, gain, exp);
    NormalizedIsDistribution(ws, gain, exp);
    SumSquaresAtMostSum(w);
    SquaredSumAtMostScaledSumSquares(w);
    ReciprocalBounds(SumSquares(w), |ws| as real);
  }

  /** When all log-weights are equal, every normalised weight is 1/N and Neff is exactly N. */
  lemma NeffOfEqualWeights(ws: seq<real>, gain: real, exp: real -> real)
    requires |ws| > 0 && ExpLike(exp)
    requires forall i :: 0 <= i < |ws| ==> ws[i] == ws[0]
    ensures forall i :: 0 <= i < |ws| ==> Normalized(ws, gain, exp)[i] == 1.0 / (|ws| as real)
    ensures SumSquares(Normalized(ws, gain, exp)) > 0.0
    ensures Neff(Normalized(ws, gain, exp)) == |ws| as real
  {
    var n := |ws| as real;
    MaxOfConstant(ws);
    var us := Exps(ws, gain, MaxOf(ws), exp);
    forall i | 0 <= i < |us|
      ensures us[i] == 1.0
    {
      assert gain * (ws[i] - MaxOf(ws)) == 0.0 by { ProductWithZero(gain, ws[i] - MaxOf(ws)); }
    }
    SumsOfConstant(us, 1.0);
    var w := Normalized(ws, gain, exp);
    assert w == Scaled(us, n);
    SumsOfConstant(w, 1.0 / n);
    UniformSquares(n);
  }

  // ---------------------------------------------------------------------
  // Facts of real arithmetic used above

  lemma ProductWithZero(a: real, b: real)
    requires b == 0.0
    ensures a * b == 0.0
  {
  }

  lemma SquareNonNegative(x: real)
    ensures x * x >= 0.0
  {
  }

  lemma SquareAtMost(x: real)
    requires 0.0 <= x <= 1.0
    ensures x * x <= x
  {
    assert x * x <= x * 1.0;
  }

  lemma RatioInUnitInterval(a: real, z: real)
    requires 0.0 < a <= z
    ensures 0.0 < a / z <= 1.0
  {
  }

  lemma QuotientOfSelf(z: real)
    requires z != 0.0
    ensures z / z == 1.0
  {
  }

  lemma ProductOfPositives(a: real, b: real)
    requires a > 0.0 && b > 0.0
    ensures a * b > 0.0
  {
  }

  lemma NonZeroProduct(a: real, b: real)
    requires a != 0.0 && b > 0.0
    ensures a * b != 0.0
  {
    if a < 0.0 { ProductOfPositives(-a, b); } else { ProductOfPositives(a, b); }
  }

  lemma SquareOfNonZero(x: real)
    requires x != 0.0
    ensures x * x > 0.0
  {
    if x < 0.0 { ProductOfPositives(-x, -x); } else { ProductOfPositives(x, x); }
  }

  /** m (q - 2 a x + m x^2) - (a - m x)^2 == m q - a^2 */
  lemma CauchySchwarzIdentity(m: real, a: real, q: real, x: real)
    ensures m * (q - 2.0 * a * x + m * x * x) - (a - m * x) * (a - m * x) == m * q - a * a
  {
  }

  lemma NonNegativeFactor(m: real, y: real)
    requires m > 0.0 && m * y >= 0.0
    ensures y >= 0.0
  {
    if y < 0.0 { ProductOfPositives(m, -y); }
  }

  /** From a^2 <= m q (the inequality for a prefix of length m) to the one for the prefix extended by x. */
  lemma CauchySchwarzStep(m: real, a: real, q: real, x: real)
    requires m >= 0.0 && q >= 0.0 && a * a <= m * q
    ensures (a + x) * (a + x) <= (m + 1.0) * (q + x * x)
  {
    if m > 0.0 {
      // 2 a x <= q + m x^2, since m (q - 2 a x + m x^2) >= (a - m x)^2 >= 0.
      CauchySchwarzIdentity(m, a, q, x);
      SquareNonNegative(a - m * x);
      NonNegativeFactor(m, q - 2.0 * a * x + m * x * x);
      assert (a + x) * (a + x) == a * a + 2.0 * a * x + x * x;
      assert (m + 1.0) * (q + x * x) == m * q + q + m * x * x + x * x;
    } else if a != 0.0 {
      SquareOfNonZero(a);
    }
  }

  /** For q <= 1 and n q >= 1 (with n positive), q is positive and its reciprocal lies in [1, n]. */
  lemma ReciprocalBounds(q: real, n: real)
    requires n > 0.0 && q <= 1.0 && 1.0 <= n * q
    ensures q > 0.0
    ensures 1.0 <= 1.0 / q <= n
  {
    if q <= 0.0 {
      NonNegativeFactor(n, q);
    }
    assert (1.0 / q) * q == 1.0;
  }

  lemma UniformSquares(n: real)
    requires n > 0.0
    ensures n * (1.0 / n) * (1.0 / n) == 1.0 / n
    ensures 1.0 / (1.0 / n) == n
  {
  }
}
