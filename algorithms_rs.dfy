/**
  The Rust port of the exclusivity-probability engine. Sample sizes and the population are
  `u64`, so every subtraction must stay at or above zero and every product must fit in 64
  bits, or the program panics. Here `u64` is the integers 0 .. 2^64 - 1: each variable the
  source declares `u64` has that type, and the verifier shows that no step leaves the range
  under the stated preconditions. The final `f64` division is exact real division.

  The completely optimised variant as written sorts a copy of the samples but then loops over
  the unsorted ones; CompletelyOptimizedAsWritten models that loop and UnsortedLoopDisagrees
  shows an input where it gives another value, and CompletelyOptimized is the loop over the
  sorted copy, proved equal to the algebraic value.
 */
module AlgorithmsRs {
  import opened Falling
  import opened Likelihood

  const U64_MAX: int := 0xFFFF_FFFF_FFFF_FFFF

  /** Rust's unsigned 64-bit integer. */
  type u64 = x: int | 0 <= x <= U64_MAX

  /** factorial(n): the product 1 * 2 * ... * n, which is 1 for n = 0. */
  function Factorial(n: u64): (f: u64)
    requires Fact(n) <= U64_MAX
    ensures f == Fact(n)
  {
    FactIsRangeProd(n);
    RangeProd(1, n + 1)
  }

  lemma {:induction false} FactIsRangeProd(n: nat)
    ensures RangeProd(1, n + 1) == Fact(n)
  {
    if n > 0 {
      FactIsRangeProd(n - 1);
    }
  }

  /**
    comb(n, r): the product of n - r + 1 ..= n divided by r!. The division is exact, so the
    result is the binomial coefficient C(n, r). The source needs r <= n (otherwise n - r
    underflows), n - r + 1 in range, and the product H(n, r) in range; r! is then in range too.
   */
  function Comb(n: u64, r: u64): (c: u64)
    requires r <= n && n - r + 1 <= U64_MAX && H(n, r) <= U64_MAX
    ensures c == Choose(n, r)
    ensures c * Fact(r) == H(n, r)
  {
    WindowIsH(n, r);
    FactIsH(r);
    HMono(r, n, r);
    ChooseFalling(n, r);
    FactPositive(r);
    DivExact(Choose(n, r), Fact(r));
    RangeProd(n - r + 1, n + 1) / Factorial(r)
  }

  // ---------------------------------------------------------------- bounds on prefixes

  /** A prefix of samples that are at least 0 sums to no more than the whole. */
  lemma SumPrefix(s: seq<int>, i: int)
    requires NonNegative(s) && 0 <= i <= |s|
    ensures NonNegative(s[..i]) && NonNegative(s[i..])
    ensures 0 <= Sum(s[..i]) <= Sum(s)
  {
    assert s == s[..i] + s[i..];
    SumConcat(s[..i], s[i..]);
    SumNonNegative(s[..i]);
    SumNonNegative(s[i..]);
  }

  /** The algebraic denominator of a prefix is at least 1 and divides into the whole one. */
  lemma {:induction false} DenominatorPrefix(s: seq<int>, n: int, i: int)
    requires NonNegative(s) && Sum(s) <= n && 0 <= i <= |s|
    ensures 1 <= Denominator(s[..i], n) <= Denominator(s, n)
    decreases |s|
  {
    if i == |s| {
      assert s[..i] == s;
      DenominatorPositive(s, n);
    } else {
      var pre, a := s[..|s| - 1], s[|s| - 1];
      FormulaStep(s, n);
      assert s[..i] == pre[..i];
      DenominatorPrefix(pre, n, i);
      HPositive(n, a);
      MulMono(Denominator(pre, n), 1, Denominator(pre, n), H(n, a));
    }
  }

  /** Within a population that holds the samples, every h of the incremental loop is at least 1 and at most denom. */
  lemma {:induction false} IncPositive(s: seq<int>, n: int)
    requires NonNegative(s) && Sum(s) <= n
    ensures 1 <= IncH(s, n) <= IncDenom(s, n)
  {
    if s != [] {
      var pre, a := s[..|s| - 1], s[|s| - 1];
      FormulaStep(s, n);
      IncPositive(pre, n);
      var g := RangeProd(n - a + 1, LastStart(pre, n));
      RangeProdPositive(n - a + 1, LastStart(pre, n));
      MulMono(1, 1, IncH(pre, n), g);
      MulMono(1, IncH(s, n), IncDenom(pre, n), IncH(s, n));
    }
  }

  /** The incremental denominator of a prefix is no larger than the whole one. */
  lemma {:induction false} IncDenomPrefix(s: seq<int>, n: int, i: int)
    requires NonNegative(s) && Sum(s) <= n && 0 <= i <= |s|
    ensures IncDenom(s[..i], n) <= IncDenom(s, n)
    decreases |s|
  {
    if i < |s| {
      var pre := s[..|s| - 1];
      FormulaStep(s, n);
      assert s[..i] == pre[..i];
      IncDenomPrefix(pre, n, i);
      IncPositive(pre, n);
      IncPositive(s, n);
      MulMono(IncDenom(pre, n), 1, IncDenom(pre, n), IncH(s, n));
    } else {
      assert s[..i] == s;
    }
  }

  /**
    One step of the incremental loop over samples within the population: the range product g
    that extends h, the new h and the new denom all lie between 1 and the final denom.
   */
  lemma IncFits(s: seq<int>, n: int, i: int)
    requires NonNegative(s) && Sum(s) <= n && 0 <= i < |s|
    ensures 0 <= s[i] <= n && Sum(s[..i + 1]) <= n
    ensures var g := RangeProd(n - s[i] + 1, LastStart(s[..i], n));
      1 <= g <= IncH(s[..i + 1], n) <= IncDenom(s[..i + 1], n) <= IncDenom(s, n)
  {
    var pre, cur := s[..i], s[..i + 1];
    assert 0 <= s[i] <= n && Sum(cur) <= n && 1 <= IncH(pre, n) by {
      PrefixStep(s, i);
      SumPrefix(s, i);
      SumPrefix(s, i + 1);
      IncPositive(pre, n);
    }
    assert IncH(cur, n) <= IncDenom(cur, n) <= IncDenom(s, n) by {
      SumPrefix(s, i + 1);
      IncPositive(cur, n);
      IncDenomPrefix(s, n, i + 1);
    }
    var g, h0 := RangeProd(n - s[i] + 1, LastStart(pre, n)), IncH(pre, n);
    RangeProdPositive(n - s[i] + 1, LastStart(pre, n));
    assert IncH(cur, n) == h0 * g by {
      IncStep(s, n, i);
    }
    MulMono(1, g, h0, g);
  }

  // ---------------------------------------------------------------- the not-optimised variant

  /**
    The not-optimised variant: p *= comb(population - sum, a) / comb(population, a) and
    sum += a for every sample, then 1 - p. The samples must fit in the population and every
    comb(population, a) product in 64 bits; the result is the Python value, which equals the
    algebraic one.
   */
  method NotOptimized(samples: seq<u64>, population: u64) returns (r: real)
    requires population < U64_MAX && Sum(samples) <= population
    requires forall k :: 0 <= k < |samples| ==> H(population, samples[k]) <= U64_MAX
    ensures NaiveLikelihood(samples, population) == Value(r)
    ensures AlgebraicLikelihood(samples, population) == Value(r)
  {
    var p: real := 1.0;
    var sum: u64 := 0;
    var i := 0;
    while i < |samples|
      invariant 0 <= i <= |samples|
      invariant sum == Sum(samples[..i]) && NaiveProduct(samples[..i], population) == Value(p)
    {
      var a := samples[i];
      NaiveFits(samples, population, i);
      var numer := Comb(population - sum, a);
      var denom := Comb(population, a);
      var q := numer as real / denom as real;
      NaiveExtend(samples, population, i, p, q);
      p := p * q;
      sum := sum + a;
      i := i + 1;
    }
    assert samples[..i] == samples;
    r := 1.0 - p;
    NaiveAgreesWithAlgebraic(samples, population);
  }

  /** One more sample in the naive product, with the ratio of binomials passed in. */
  lemma NaiveExtend(s: seq<int>, n: int, i: int, p: real, q: real)
    requires 0 <= i < |s| && NaiveProduct(s[..i], n) == Value(p)
    requires 0 <= s[i] <= n - Sum(s[..i]) && Choose(n, s[i]) != 0
    requires q == Choose(n - Sum(s[..i]), s[i]) as real / Choose(n, s[i]) as real
    ensures NaiveProduct(s[..i + 1], n) == Value(p * q)
  {
    NaiveStep(s, n, i, p);
  }

  /** Before sample i the running sum leaves room for it, and both comb calls stay in range. */
  lemma NaiveFits(s: seq<u64>, n: u64, i: int)
    requires n < U64_MAX && Sum(s) <= n && 0 <= i < |s|
    requires H(n, s[i]) <= U64_MAX
    ensures Sum(s[..i + 1]) == Sum(s[..i]) + s[i] <= n
    ensures H(n - Sum(s[..i]), s[i]) <= U64_MAX && Choose(n, s[i]) >= 1
  {
    PrefixStep(s, i);
    SumPrefix(s, i);
    SumPrefix(s, i + 1);
    HMono(n - Sum(s[..i]), n, s[i]);
    ChoosePositive(n, s[i]);
  }

  // ---------------------------------------------------------------- the algebraically optimised variant

  /**
    The algebraically optimised variant: denom *= product(population - a + 1 ..= population)
    per sample, numer = product(population - sum + 1 ..= population). Its products fit whenever
    the final denominator does, and it returns the algebraic value.
   */
  method AlgebraicallyOptimized(samples: seq<u64>, population: u64) returns (r: real)
    requires population < U64_MAX && Sum(samples) <= population
    requires Denominator(samples, population) <= U64_MAX
    ensures AlgebraicLikelihood(samples, population) == Value(r)
  {
    var sum: u64 := 0;
    var denom: u64 := 1;
    var i := 0;
    while i < |samples|
      invariant 0 <= i <= |samples|
      invariant denom == Denominator(samples[..i], population) && sum == Sum(samples[..i])
    {
      var a := samples[i];
      WindowFits(samples, population, i);
      var w: u64 := RangeProd(population - a + 1, population + 1);
      denom := denom * w;
      sum := sum + a;
      i := i + 1;
    }
    assert samples[..i] == samples;
    NumeratorBounds(samples, population);
    var numer: u64 := RangeProd(population - sum + 1, population + 1);
    r := 1.0 - numer as real / denom as real;
  }

  /** The window of sample i and the denominator after it lie between 1 and the final denominator. */
  lemma WindowFits(s: seq<u64>, n: u64, i: int)
    requires Sum(s) <= n && 0 <= i < |s|
    ensures Sum(s[..i + 1]) == Sum(s[..i]) + s[i] <= n
    ensures var w := RangeProd(n - s[i] + 1, n + 1);
      Denominator(s[..i + 1], n) == Denominator(s[..i], n) * w
      && 1 <= w <= Denominator(s[..i + 1], n) <= Denominator(s, n)
  {
    PrefixStep(s, i);
    SumPrefix(s, i);
    SumPrefix(s, i + 1);
    DenominatorPrefix(s, n, i);
    DenominatorPrefix(s, n, i + 1);
    var w := RangeProd(n - s[i] + 1, n + 1);
    RangeProdPositive(n - s[i] + 1, n + 1);
    MulMono(1, w, Denominator(s[..i], n), w);
  }

  // ---------------------------------------------------------------- the completely optimised variant

  /**
    The loop of the completely optimised variant over xs: initial_x = population - a + 1,
    h *= product(initial_x ..= initial_x_of_last_h - 1), denom *= h, and finally numer = h *
    product(population - sum + 1 ..= initial_x_of_last_h - 1). Every intermediate value fits
    when the final numer and denom do.
   */
  method IncrementalProducts(xs: seq<u64>, population: u64) returns (numer: u64, denom: u64)
    requires population < U64_MAX && Sum(xs) <= population
    requires IncDenom(xs, population) <= U64_MAX && IncNumer(xs, population) <= U64_MAX
    ensures numer == IncNumer(xs, population) && denom == IncDenom(xs, population)
  {
    var sum: u64 := 0;
    denom := 1;
    var h: u64 := 1;
    var initialXOfLastH: u64 := population + 1;
    var i := 0;
    while i < |xs|
      invariant 0 <= i <= |xs|
      invariant h == IncH(xs[..i], population) && initialXOfLastH == LastStart(xs[..i], population)
      invariant denom == IncDenom(xs[..i], population) && sum == Sum(xs[..i])
    {
      var a := xs[i];
      IncStep(xs, population, i);
      IncFits(xs, population, i);
      var initialX: u64 := population - a + 1;
      var g: u64 := RangeProd(initialX, initialXOfLastH);
      h := h * g;
      denom := denom * h;
      sum := sum + a;
      initialXOfLastH := initialX;
      i := i + 1;
    }
    assert xs[..i] == xs;
    NumeratorFits(xs, population);
    var g: u64 := RangeProd(population - sum + 1, initialXOfLastH);
    numer := h * g;
  }

  /** The closing range product of the incremental loop lies between 1 and numer. */
  lemma NumeratorFits(s: seq<u64>, n: u64)
    requires Sum(s) <= n
    ensures 1 <= RangeProd(n - Sum(s) + 1, LastStart(s, n)) <= IncNumer(s, n)
  {
    SumPrefix(s, 0);
    IncPositive(s, n);
    var g := RangeProd(n - Sum(s) + 1, LastStart(s, n));
    RangeProdPositive(n - Sum(s) + 1, LastStart(s, n));
    MulMono(1, g, IncH(s, n), g);
  }

  /**
    The completely optimised variant exactly as written: it sorts a copy of the samples but
    runs the loop over the samples in their given order. The result is 1 - numer / denom of the
    incremental products over that order, which is the algebraic value when the samples already
    ascend (and in general is not: see UnsortedLoopDisagrees).
   */
  method CompletelyOptimizedAsWritten(samples: seq<u64>, population: u64) returns (r: real)
    requires population < U64_MAX && Sum(samples) <= population
    requires IncDenom(samples, population) <= U64_MAX && IncNumer(samples, population) <= U64_MAX
    ensures Ratio(IncNumer(samples, population), IncDenom(samples, population)) == Value(r)
    ensures Ascending(samples) ==> AlgebraicLikelihood(samples, population) == Value(r)
  {
    var sortedSamples := SortedCopy(samples);
    var numer, denom := IncrementalProducts(samples, population);
    SumPrefix(samples, 0);
    IncPositive(samples, population);
    r := 1.0 - numer as real / denom as real;
    if Ascending(samples) {
      AscendingIsAlgebraic(samples, population);
    }
  }

  /** Over ascending samples the incremental products are the algebraic numerator and denominator. */
  lemma AscendingIsAlgebraic(s: seq<int>, n: int)
    requires Ascending(s) && NonNegative(s)
    ensures IncNumer(s, n) == Numerator(s, n) && IncDenom(s, n) == Denominator(s, n)
  {
    if s != [] {
      IncrementalMatchesAlgebraic(s, n);
    }
  }

  /**
    Samples [3, 2, 1] in a population of 10: the loop over the unsorted samples never extends
    h past the first window 8 * 9 * 10, so denom = 720^3 and numer = 720 * (5 * ... * 9), while
    the algebraic value is 1 - 151200 / 648000; the two results differ.
   */
  lemma UnsortedLoopDisagrees()
    ensures IncNumer([3, 2, 1], 10) == 10886400 && IncDenom([3, 2, 1], 10) == 373248000
    ensures AlgebraicLikelihood([3, 2, 1], 10) == Ratio(151200, 648000)
    ensures Ratio(IncNumer([3, 2, 1], 10), IncDenom([3, 2, 1], 10)) != AlgebraicLikelihood([3, 2, 1], 10)
  {
    var s := [3, 2, 1];
    assert s[..2] == [3, 2] && [3, 2][..1] == [3] && [3][..0] == [];
    assert IncH([3], 10) == 720 && LastStart([3], 10) == 8;
    assert IncH([3, 2], 10) == 720 && LastStart([3, 2], 10) == 9;
    assert IncH(s, 10) == 720 && LastStart(s, 10) == 10;
    assert IncDenom(s, 10) == 720 * 720 * 720;
    assert Sum(s) == 6 && RangeProd(5, 10) == 15120;
    assert Denominator(s, 10) == 720 * 90 * 10;
    assert Numerator(s, 10) == RangeProd(5, 11) == 151200;
    assert 10886400.0 / 373248000.0 != 151200.0 / 648000.0;
  }

  /**
    The completely optimised variant as evidently intended: the loop runs over the sorted copy,
    and the result is the algebraic value. Its products fit whenever the algebraic denominator does.
   */
  method CompletelyOptimized(samples: seq<u64>, population: u64) returns (r: real)
    requires population < U64_MAX && Sum(samples) <= population
    requires Denominator(samples, population) <= U64_MAX
    ensures AlgebraicLikelihood(samples, population) == Value(r)
  {
    SortedWithinU64(samples);
    var sortedSamples: seq<u64> := SortedCopy(samples);
    SortedProductsAreAlgebraic(samples, population);
    NumeratorBounds(samples, population);
    var numer, denom := IncrementalProducts(sortedSamples, population);
    r := 1.0 - numer as real / denom as real;
  }

  lemma SortedWithinU64(s: seq<u64>)
    ensures forall k :: 0 <= k < |SortedCopy(s)| ==> 0 <= SortedCopy(s)[k] <= U64_MAX
  {
    var xs := SortedCopy(s);
    forall k | 0 <= k < |xs|
      ensures 0 <= xs[k] <= U64_MAX
    {
      assert xs[k] in multiset(xs);
      assert xs[k] in multiset(s);
    }
  }

  /** Sorting keeps the sum, and the incremental products over the sorted copy are the algebraic ones. */
  lemma SortedProductsAreAlgebraic(s: seq<int>, n: int)
    requires NonNegative(s)
    ensures Sum(SortedCopy(s)) == Sum(s)
    ensures IncNumer(SortedCopy(s), n) == Numerator(s, n)
    ensures IncDenom(SortedCopy(s), n) == Denominator(s, n)
  {
    SortedCopyAscending(s);
    SortedNonNegative(s);
    PermutedIsAlgebraic(SortedCopy(s), s, n);
  }

  lemma PermutedIsAlgebraic(xs: seq<int>, s: seq<int>, n: int)
    requires multiset(xs) == multiset(s) && Ascending(xs) && NonNegative(xs)
    ensures Sum(xs) == Sum(s)
    ensures IncNumer(xs, n) == Numerator(s, n) && IncDenom(xs, n) == Denominator(s, n)
  {
    assert IncNumer(xs, n) == Numerator(xs, n) && IncDenom(xs, n) == Denominator(xs, n) by {
      AscendingIsAlgebraic(xs, n);
    }
    PermutationInvariant(xs, s, n, n + 1);
  }
}
