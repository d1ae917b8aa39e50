/**
  The three Python variants of the exclusivity-probability function. Each is a loop over the
  sample sizes A that builds running products, and each is proved to return the value its
  specification function in module Likelihood defines; the lemmas there relate the three values.
 */
module AlgorithmsPy {
  import opened Falling
  import opened Likelihood

  /**
    The not-optimised variant: multiplies p by comb(N - sum(A[:i]), a) / comb(N, A[i]) for every
    sample and returns 1 - p, propagating the ValueError or ZeroDivisionError a step raises.
   */
  method NotOptimized(A: seq<int>, N: int) returns (r: Outcome)
    ensures r == NaiveLikelihood(A, N)
  {
    var p: real := 1.0;
    var i := 0;
    while i < |A|
      invariant 0 <= i <= |A|
      invariant NaiveProduct(A[..i], N) == Value(p)
    {
      var rest, a := N - Sum(A[..i]), A[i];
      NaiveStep(A, N, i, p);
      if rest < 0 || a < 0 || N < 0 {
        NaiveRaisedPersists(A, N, i + 1);
        return Raised(ValueError);
      }
      if Choose(N, a) == 0 {
        NaiveRaisedPersists(A, N, i + 1);
        return Raised(ZeroDivisionError);
      }
      p := p * (Choose(rest, a) as real / Choose(N, a) as real);
      i := i + 1;
    }
    assert A[..i] == A;
    r := Value(1.0 - p);
  }

  /**
    The algebraically optimised variant: denom is the product of range(N - a + 1, N + 1) over the
    samples, numer is range(N - sum(A) + 1, N + 1) multiplied out, and the result 1 - numer / denom.
   */
  method AlgebraicallyOptimized(A: seq<int>, N: int) returns (r: Outcome)
    ensures r == AlgebraicLikelihood(A, N)
  {
    var sum := 0;
    var denom := 1;
    var i := 0;
    while i < |A|
      invariant 0 <= i <= |A|
      invariant denom == Windows(A[..i], N, N + 1) && sum == Sum(A[..i])
    {
      PrefixStep(A, i);
      var a := A[i];
      denom := denom * RangeProd(N - a + 1, N + 1);
      sum := sum + a;
      i := i + 1;
    }
    assert A[..i] == A;
    var numer := RangeProd(N - sum + 1, N + 1);
    r := Ratio(numer, denom);
  }

  /**
    The completely optimised variant. It sorts the samples and computes each window product h by
    extending the previous one downwards from the start of the last window, so that every integer
    of the population is multiplied in once per window only where the windows differ. The numerator
    extends the last h down to N - sum(A) + 1. An empty A raises IndexError at `A_sorted[0]`.
   */
  method CompletelyOptimized(A: seq<int>, N: int) returns (r: Outcome)
    ensures r == CompleteLikelihood(A, N)
    ensures |A| > 0 && NonNegative(A) ==> r == AlgebraicLikelihood(A, N)
  {
    var sorted := SortedCopy(A);
    if |sorted| == 0 {
      return Raised(IndexError);
    }
    var numer, denom := SortedProducts(sorted, N);
    r := Ratio(numer, denom);
    CompleteFromSorted(A, N);
    if NonNegative(A) {
      CompleteAgreesWithAlgebraic(A, N);
    }
  }

  /**
    The loop of the completely optimised variant over the sorted samples: the first window, then
    each later h as the previous h times range(N - a + 1, start of the previous window), with denom
    the product of all of them and numer the last h extended down to N - sum + 1.
   */
  method SortedProducts(sorted: seq<int>, N: int) returns (numer: int, denom: int)
    requires |sorted| > 0
    ensures numer == IncNumer(sorted, N) && denom == IncDenom(sorted, N)
  {
    var start := N - sorted[0] + 1;
    var h := RangeProd(start, N + 1);
    var sum := sorted[0];
    denom := h;
    var lastH := h;
    assert sorted[..1] == [sorted[0]];
    var i := 1;
    while i < |sorted|
      invariant 1 <= i <= |sorted|
      invariant lastH == IncH(sorted[..i], N) && start == LastStart(sorted[..i], N)
      invariant denom == IncDenom(sorted[..i], N) && sum == Sum(sorted[..i])
    {
      IncStep(sorted, N, i);
      var a := sorted[i];
      h := lastH;
      var initial := N - a + 1;
      h := h * RangeProd(initial, start);
      denom := denom * h;
      sum := sum + a;
      lastH := h;
      start := initial;
      i := i + 1;
    }
    assert sorted[..i] == sorted;
    numer := lastH * RangeProd(N - sum + 1, start);
  }
}
