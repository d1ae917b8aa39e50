/**
  The Java port of the exclusivity-probability engine. Every intermediate quantity is a
  BigInteger, so it is an unbounded integer here; the sample sizes arrive in an array. The
  final BigDecimal division is exact real division, and a zero divisor throws
  ArithmeticException. Each variant is proved to compute the same integers as the Python one,
  and the three variants are proved to agree on the inputs the experiment generates.
 */
module AlgorithmsJava {
  import opened Falling
  import opened Likelihood

  datatype JavaError = ArithmeticException

  /** A Java call either returns a double or throws. */
  datatype JavaOutcome = Returned(value: real) | Thrown(error: JavaError)

  /** `1.0d - numer / denom`, where the BigDecimal division throws on a zero divisor. */
  function Divide(numer: int, denom: int): JavaOutcome
  {
    if denom == 0 then Thrown(ArithmeticException) else Returned(1.0 - numer as real / denom as real)
  }

  /** The Java result of a computation that Python performs: a raised exception becomes ArithmeticException. */
  function FromPython(o: Outcome): JavaOutcome
  {
    match o
    case Value(p) => Returned(p)
    case Raised(_) => Thrown(ArithmeticException)
  }

  lemma DivideIsRatio(numer: int, denom: int)
    ensures Divide(numer, denom) == FromPython(Ratio(numer, denom))
  {
  }

  /** BigInteger.divide: the quotient truncated toward zero (Dafny's own `/` is Euclidean). */
  function TruncDiv(a: int, b: int): int
    requires b > 0
  {
    if a >= 0 then a / b else -((-a) / b)
  }

  lemma TruncDivExact(c: int, b: int)
    requires b > 0
    ensures TruncDiv(c * b, b) == c
  {
    if c * b >= 0 {
      if c < 0 {
        MulMono(1, b, -c, b);
      }
      DivExact(c, b);
    } else {
      assert -(c * b) == (-c) * b;
      DivExact(-c, b);
    }
  }

  /**
    comb(n, r): ret = ret * (n - x) / (x + 1) for x from 0 to r - 1. Each division is exact, so
    the result is the falling factorial H(n, r) divided by r!, the binomial coefficient C(n, r)
    when n >= 0, and 1 when r <= 0.
   */
  method Comb(n: int, r: int) returns (ret: int)
    ensures ret == CombValue(n, r)
    ensures r <= 0 ==> ret == 1
    ensures r >= 0 ==> ret * Fact(r) == H(n, r)
    ensures n >= 0 && r >= 0 ==> ret == Choose(n, r)
  {
    ret := 1;
    var x := 0;
    while x < r
      invariant 0 <= x <= (if r > 0 then r else 0)
      invariant ret == Binomial(n, x)
    {
      BinomialStep(n, x);
      TruncDivExact(Binomial(n, x + 1), x + 1);
      ret := TruncDiv(ret * (n - x), x + 1);
      x := x + 1;
    }
    if r > 0 {
      BinomialFalling(n, r);
    } else {
      assert ret == Binomial(n, 0) == 1;
    }
  }

  /** What `comb(n, r)` returns: the generalised binomial coefficient, and 1 for r <= 0. */
  function CombValue(n: int, r: int): int
  {
    if r <= 0 then 1 else Binomial(n, r)
  }

  /** The repeated inner loop `for (a_j = lo; a_j < hi; a_j++) x = x.multiply(a_j)`. */
  method MultiplyRange(x: int, lo: int, hi: int) returns (r: int)
    ensures r == x * RangeProd(lo, hi)
  {
    r := x;
    var aj := lo;
    while aj < hi
      invariant lo <= aj <= (if lo <= hi then hi else lo)
      invariant r == x * RangeProd(lo, aj)
    {
      Assoc(x, RangeProd(lo, aj), aj);
      r := r * aj;
      aj := aj + 1;
    }
  }

  // ---------------------------------------------------------------- the not-optimised variant

  /**
    p after the samples of s: each step multiplies by comb(n - sum of the earlier samples, a)
    / comb(n, a), and the first zero comb(n, a) throws.
   */
  function NaiveProduct(s: seq<int>, n: int): JavaOutcome
  {
    if s == [] then Returned(1.0)
    else
      var pre, a := s[..|s| - 1], s[|s| - 1];
      match NaiveProduct(pre, n)
      case Thrown(e) => Thrown(e)
      case Returned(p) =>
        var numer, denom := CombValue(n - Sum(pre), a), CombValue(n, a);
        if denom == 0 then Thrown(ArithmeticException) else Returned(p * (numer as real / denom as real))
  }

  function NaiveOutcome(s: seq<int>, n: int): JavaOutcome
  {
    match NaiveProduct(s, n)
    case Returned(p) => Returned(1.0 - p)
    case Thrown(e) => Thrown(e)
  }

  /** One more sample in the Java naive product, after a prefix that threw nothing. */
  lemma NaiveStep(s: seq<int>, n: int, i: int, p: real, numer: int, denom: int)
    requires 0 <= i < |s| && NaiveProduct(s[..i], n) == Returned(p)
    requires numer == CombValue(n - Sum(s[..i]), s[i]) && denom == CombValue(n, s[i])
    ensures NaiveProduct(s[..i + 1], n) ==
      if denom == 0 then Thrown(ArithmeticException) else Returned(p * (numer as real / denom as real))
  {
    PrefixStep(s, i);
  }

  /** The same step when it returns, with the ratio passed in so that callers keep real division out of their context. */
  lemma NaiveExtend(s: seq<int>, n: int, i: int, p: real, numer: int, denom: int, q: real)
    requires 0 <= i < |s| && NaiveProduct(s[..i], n) == Returned(p)
    requires numer == CombValue(n - Sum(s[..i]), s[i]) && denom == CombValue(n, s[i]) && denom != 0
    requires q == numer as real / denom as real
    ensures NaiveProduct(s[..i + 1], n) == Returned(p * q)
  {
    PrefixStep(s, i);
  }

  lemma {:induction false} NaiveThrownPersists(s: seq<int>, n: int, i: int)
    requires 0 <= i <= |s| && NaiveProduct(s[..i], n).Thrown?
    ensures NaiveProduct(s, n) == NaiveProduct(s[..i], n)
    decreases |s| - i
  {
    if i < |s| {
      PrefixStep(s, i);
      NaiveThrownPersists(s, n, i + 1);
    } else {
      assert s[..i] == s;
    }
  }

  /**
    The not-optimised variant. For every i it recomputes sumToCurrent = A[0] + ... + A[i - 1]
    in an inner loop, then multiplies p by comb(N - sumToCurrent, A[i]) / comb(N, A[i]).
   */
  method NotOptimized(A: array<int>, N: int) returns (r: JavaOutcome)
    ensures r == NaiveOutcome(A[..], N)
  {
    var p: real := 1.0;
    var i := 0;
    while i < A.Length
      invariant 0 <= i <= A.Length
      invariant NaiveProduct(A[..i], N) == Returned(p)
    {
      var sumToCurrent := 0;
      var j := 0;
      while j < i
        invariant 0 <= j <= i && sumToCurrent == Sum(A[..j])
      {
        PrefixStep(A[..], j);
        sumToCurrent := sumToCurrent + A[j];
        j := j + 1;
      }
      var numer := Comb(N - sumToCurrent, A[i]);
      var denom := Comb(N, A[i]);
      assert A[..][..i] == A[..i] && A[..][..i + 1] == A[..i + 1];
      NaiveStep(A[..], N, i, p, numer, denom);
      if denom == 0 {
        NaiveThrownPersists(A[..], N, i + 1);
        assert A[..] == A[..A.Length];
        return Thrown(ArithmeticException);
      }
      p := p * (numer as real / denom as real);
      i := i + 1;
    }
    assert A[..i] == A[..];
    r := Returned(1.0 - p);
  }

  /** Over samples at least 0 summing to at most N, the Java naive product is the Python one, and neither raises. */
  lemma {:induction false} NaiveMatchesPython(s: seq<int>, n: int)
    requires NonNegative(s) && Sum(s) <= n
    ensures Likelihood.NaiveProduct(s, n).Value?
    ensures NaiveProduct(s, n) == Returned(Likelihood.NaiveProduct(s, n).p)
  {
    if s != [] {
      var i := |s| - 1;
      var pre, a := s[..i], s[i];
      FormulaStep(s, n);
      var rest := n - Sum(pre);
      assert 0 <= a <= rest;
      ChoosePositive(n, a);
      var numer, denom := CombValue(rest, a), CombValue(n, a);
      assert numer == Choose(rest, a) && denom == Choose(n, a);
      NaiveMatchesPython(pre, n);
      var pp := Likelihood.NaiveProduct(pre, n).p;
      assert s == pre + [a];
      var q := numer as real / denom as real;
      NaiveExtend(s, n, i, pp, numer, denom, q);
      assert s[..i + 1] == s;
      NaiveLast(s, n, pre, a, pp, q, pp * q);
    }
  }

  // ---------------------------------------------------------------- the algebraically optimised variant

  /**
    The algebraically optimised variant: for every sample a it multiplies denom by
    N - a + 1, ..., N, then multiplies numer by N - sum + 1, ..., N, exactly as the Python variant.
   */
  method AlgebraicallyOptimized(A: array<int>, N: int) returns (r: JavaOutcome)
    ensures r == FromPython(AlgebraicLikelihood(A[..], N))
  {
    var sum := 0;
    var numer := 1;
    var denom := 1;
    var i := 0;
    while i < A.Length
      invariant 0 <= i <= A.Length
      invariant denom == Denominator(A[..i], N) && sum == Sum(A[..i])
    {
      var a := A[i];
      assert A[..i + 1] == A[..i] + [a];
      denom := MultiplyRange(denom, N - a + 1, N + 1);
      sum := sum + a;
      i := i + 1;
    }
    assert A[..i] == A[..];
    numer := MultiplyRange(numer, N - sum + 1, N + 1);
    r := Divide(numer, denom);
  }

  // ---------------------------------------------------------------- the completely optimised variant

  /** Arrays.sort: the array ends up holding its old contents in ascending order. */
  method Sort(a: array<int>)
    modifies a
    ensures a[..] == SortedCopy(old(a[..]))
    ensures Ascending(a[..]) && multiset(a[..]) == multiset(old(a[..]))
  {
    var sorted := SortedCopy(a[..]);
    SortedCopyAscending(a[..]);
    forall k | 0 <= k < a.Length {
      a[k] := sorted[k];
    }
    assert a[..] == sorted;
  }

  /** What the completely optimised variant returns: 0 for no samples, otherwise the Python value. */
  function CompleteOutcome(s: seq<int>, n: int): JavaOutcome
  {
    if s == [] then Returned(0.0) else FromPython(CompleteLikelihood(s, n))
  }

  /**
    The completely optimised variant. It sorts a clone of A, then for each sample a extends h
    from N - a + 1 up to the start of the previous window, multiplies denom by h, and finally
    extends h from N - sum + 1 to form numer. With h = 1 and the previous window start N + 1
    before the first sample, an empty A yields 1 - 1 / 1 = 0 instead of an exception.
   */
  method CompletelyOptimized(A: array<int>, N: int) returns (r: JavaOutcome)
    ensures r == CompleteOutcome(A[..], N)
    ensures NonNegative(A[..]) ==> r == FromPython(AlgebraicLikelihood(A[..], N))
  {
    var sortedA := new int[A.Length](k requires 0 <= k < A.Length reads A => A[k]);
    assert sortedA[..] == A[..];
    Sort(sortedA);
    var numer, denom := SortedProducts(sortedA, N);
    r := Divide(numer, denom);
    CompleteFromProducts(A[..], N, numer, denom);
    if NonNegative(A[..]) {
      CompleteIsAlgebraic(A[..], N);
    }
  }

  /** numer and denom built over the sorted samples give the closed-form value, and 0 for no samples. */
  lemma CompleteFromProducts(s: seq<int>, n: int, numer: int, denom: int)
    requires numer == IncNumer(SortedCopy(s), n) && denom == IncDenom(SortedCopy(s), n)
    ensures Divide(numer, denom) == CompleteOutcome(s, n)
  {
    DivideIsRatio(numer, denom);
    if s != [] {
      CompleteFromSorted(s, n);
    } else {
      assert numer == 1 && denom == 1;
    }
  }

  /**
    The loop of the completely optimised variant over the sorted clone: each h is the previous h
    times N - a + 1, ..., up to the previous window start, denom the product of every h, and
    numer the last h times N - sum + 1, ..., up to the last window start.
   */
  method SortedProducts(sortedA: array<int>, N: int) returns (numer: int, denom: int)
    ensures numer == IncNumer(sortedA[..], N) && denom == IncDenom(sortedA[..], N)
  {
    var initialXofLastH := N + 1;
    var sum := 0;
    var h := 1;
    denom := 1;
    var i := 0;
    while i < sortedA.Length
      invariant 0 <= i <= sortedA.Length
      invariant h == IncH(sortedA[..i], N) && initialXofLastH == LastStart(sortedA[..i], N)
      invariant denom == IncDenom(sortedA[..i], N) && sum == Sum(sortedA[..i])
    {
      IncStep(sortedA[..], N, i);
      assert sortedA[..][..i] == sortedA[..i] && sortedA[..][..i + 1] == sortedA[..i + 1];
      var a := sortedA[i];
      var initialX := N - a + 1;
      h := MultiplyRange(h, initialX, initialXofLastH);
      denom := denom * h;
      sum := sum + a;
      initialXofLastH := initialX;
      i := i + 1;
    }
    assert sortedA[..i] == sortedA[..];
    numer := MultiplyRange(h, N - sum + 1, initialXofLastH);
  }

  /**
    On the inputs the experiment generates (samples at least 0 summing to at most N) the three
    Java variants return the same exact value, with no exception, even for an empty A.
   */
  lemma VariantsAgree(s: seq<int>, n: int)
    requires NonNegative(s) && Sum(s) <= n
    ensures NaiveOutcome(s, n) == FromPython(AlgebraicLikelihood(s, n)) == CompleteOutcome(s, n)
    ensures NaiveOutcome(s, n).Returned?
  {
    NaiveIsAlgebraic(s, n);
    CompleteIsAlgebraic(s, n);
  }

  lemma NaiveIsAlgebraic(s: seq<int>, n: int)
    requires NonNegative(s) && Sum(s) <= n
    ensures NaiveOutcome(s, n) == FromPython(AlgebraicLikelihood(s, n))
    ensures NaiveOutcome(s, n).Returned?
  {
    NaiveMatchesPython(s, n);
    var p := Likelihood.NaiveProduct(s, n).p;
    assert NaiveOutcome(s, n) == Returned(1.0 - p);
    assert Likelihood.NaiveLikelihood(s, n) == Value(1.0 - p);
    NaiveAgreesWithAlgebraic(s, n);
  }

  lemma CompleteIsAlgebraic(s: seq<int>, n: int)
    requires NonNegative(s)
    ensures CompleteOutcome(s, n) == FromPython(AlgebraicLikelihood(s, n))
  {
    if s != [] {
      CompleteAgreesWithAlgebraic(s, n);
    } else {
      assert AlgebraicLikelihood(s, n) == Ratio(1, 1);
    }
  }
}
