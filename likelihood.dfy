/**
  The quantity every variant of the engine computes, stated once over exact integers and reals.

  For sample sizes A and a population N the source returns 1 - numer / denom, where
  denom is the product over A of range(N - a + 1, N + 1) and numer is range(N - sum(A) + 1, N + 1)
  multiplied out. This module defines that value (AlgebraicLikelihood), the per-sample product of
  binomial ratios the naive variant multiplies (NaiveLikelihood), the value the completely optimised
  variant computes from the sorted samples (CompleteLikelihood, in closed form), and the incremental
  products IncH / IncDenom / IncNumer that the optimised loops build. The lemmas relate them.
 */
module Likelihood {
  import opened Falling

  /** Exceptions a Python variant can raise on integer input. */
  datatype PyError = ValueError | ZeroDivisionError | IndexError

  /** The outcome of one call of a variant: a value, or the exception it raised. */
  datatype Outcome = Value(p: real) | Raised(error: PyError)

  // ---------------------------------------------------------------- sequences

  function Sum(s: seq<int>): int
  {
    if s == [] then 0 else Sum(s[..|s| - 1]) + s[|s| - 1]
  }

  predicate NonNegative(s: seq<int>)
  {
    forall k :: 0 <= k < |s| ==> s[k] >= 0
  }

  predicate Ascending(s: seq<int>)
  {
    forall i, j :: 0 <= i < j < |s| ==> s[i] <= s[j]
  }

  function Min(s: seq<int>): (m: int)
    requires |s| > 0
    ensures m in s && forall k :: 0 <= k < |s| ==> m <= s[k]
  {
    if |s| == 1 then s[0]
    else
      var m := Min(s[..|s| - 1]);
      if s[|s| - 1] < m then s[|s| - 1] else m
  }

  function Max(s: seq<int>): (m: int)
    requires |s| > 0
    ensures m in s && forall k :: 0 <= k < |s| ==> s[k] <= m
  {
    if |s| == 1 then s[0]
    else
      var m := Max(s[..|s| - 1]);
      if s[|s| - 1] > m then s[|s| - 1] else m
  }

  /** Inserts x before the first element it does not exceed: one step of sorting by insertion. */
  function Insert(x: int, s: seq<int>): (r: seq<int>)
    ensures |r| == |s| + 1 && multiset(r) == multiset(s) + multiset{x}
  {
    if s == [] then [x]
    else if x <= s[0] then [x] + s
    else
      assert s == [s[0]] + s[1..];
      [s[0]] + Insert(x, s[1..])
  }

  /** Python's `sorted(A)` on integers: a fresh sequence with the same elements, in ascending order. */
  function SortedCopy(s: seq<int>): (r: seq<int>)
    ensures |r| == |s| && multiset(r) == multiset(s)
  {
    if s == [] then []
    else
      assert s == s[..|s| - 1] + [s[|s| - 1]];
      Insert(s[|s| - 1], SortedCopy(s[..|s| - 1]))
  }

  /** Inserting into an ascending sequence keeps it ascending; the head is the smaller of x and the old head. */
  lemma {:induction false} InsertAscending(x: int, s: seq<int>)
    requires Ascending(s)
    ensures Ascending(Insert(x, s))
    ensures Insert(x, s)[0] == if s == [] || x <= s[0] then x else s[0]
  {
    if s == [] {
    } else if x <= s[0] {
      ConsAscending(x, s);
    } else {
      var tail := s[1..];
      assert Ascending(tail);
      InsertAscending(x, tail);
      ConsAscending(s[0], Insert(x, tail));
    }
  }

  lemma ConsAscending(h: int, r: seq<int>)
    requires Ascending(r) && (|r| > 0 ==> h <= r[0])
    ensures Ascending([h] + r)
  {
    var t := [h] + r;
    forall i, j | 0 <= i < j < |t|
      ensures t[i] <= t[j]
    {
      if i > 0 {
        assert t[i] == r[i - 1] && t[j] == r[j - 1];
      } else {
        assert t[j] == r[j - 1] && r[0] <= r[j - 1];
      }
    }
  }

  /** The copy `sorted` returns is ascending. */
  lemma {:induction false} SortedCopyAscending(s: seq<int>)
    ensures Ascending(SortedCopy(s))
  {
    if s != [] {
      SortedCopyAscending(s[..|s| - 1]);
      InsertAscending(s[|s| - 1], SortedCopy(s[..|s| - 1]));
    }
  }

  // ---------------------------------------------------------------- the algebraic formula

  /** The product, over the samples a of s, of range(n - a + 1, top). */
  function Windows(s: seq<int>, n: int, top: int): int
  {
    if s == [] then 1 else Windows(s[..|s| - 1], n, top) * RangeProd(n - s[|s| - 1] + 1, top)
  }

  /** denom of the algebraic variant: the product of range(N - a + 1, N + 1) over the samples. */
  function Denominator(s: seq<int>, n: int): int
  {
    Windows(s, n, n + 1)
  }

  /** numer of the algebraic variant: range(N - sum(A) + 1, N + 1) multiplied out. */
  function Numerator(s: seq<int>, n: int): int
  {
    RangeProd(n - Sum(s) + 1, n + 1)
  }

  /** `1.0 - numer / denom`, in exact arithmetic, raising on a zero denominator. */
  function Ratio(numer: int, denom: int): Outcome
  {
    if denom == 0 then Raised(ZeroDivisionError) else Value(1.0 - numer as real / denom as real)
  }

  function AlgebraicLikelihood(s: seq<int>, n: int): Outcome
  {
    Ratio(Numerator(s, n), Denominator(s, n))
  }

  // ---------------------------------------------------------------- the naive formula

  /**
    The running product p of the naive variant after the samples of s: each step multiplies by
    comb(n - sum of the earlier samples, a) / comb(n, a); `math.comb` raises ValueError on a
    negative argument and the division raises ZeroDivisionError when comb(n, a) is 0.
   */
  function NaiveProduct(s: seq<int>, n: int): Outcome
  {
    if s == [] then Value(1.0)
    else
      var pre, a := s[..|s| - 1], s[|s| - 1];
      match NaiveProduct(pre, n)
      case Raised(e) => Raised(e)
      case Value(p) =>
        var rest := n - Sum(pre);
        if rest < 0 || a < 0 || n < 0 then Raised(ValueError)
        else if Choose(n, a) == 0 then Raised(ZeroDivisionError)
        else Value(p * (Choose(rest, a) as real / Choose(n, a) as real))
  }

  function NaiveLikelihood(s: seq<int>, n: int): Outcome
  {
    match NaiveProduct(s, n)
    case Value(p) => Value(1.0 - p)
    case Raised(e) => Raised(e)
  }

  // ---------------------------------------------------------------- the incremental products

  /** Start of the most recently computed window: N + 1 before any sample. */
  function LastStart(s: seq<int>, n: int): int
  {
    if s == [] then n + 1 else n - s[|s| - 1] + 1
  }

  /** h after the samples of s: the previous h times range(N - a + 1, previous window start). */
  function IncH(s: seq<int>, n: int): int
  {
    if s == [] then 1
    else IncH(s[..|s| - 1], n) * RangeProd(n - s[|s| - 1] + 1, LastStart(s[..|s| - 1], n))
  }

  /** denom after the samples of s: the product of every h computed so far. */
  function IncDenom(s: seq<int>, n: int): int
  {
    if s == [] then 1 else IncDenom(s[..|s| - 1], n) * IncH(s, n)
  }

  /** numer: the last h extended by range(N - sum + 1, last window start). */
  function IncNumer(s: seq<int>, n: int): int
  {
    IncH(s, n) * RangeProd(n - Sum(s) + 1, LastStart(s, n))
  }

  /**
    What the completely optimised variant returns, in closed form over any integers:
    every window reaches up to top = N + 1 - min(min(A), 0), and the numerator window
    starts at N - max(sum(A), max(A)) + 1. An empty A raises IndexError (`A_sorted[0]`).
   */
  function CompleteLikelihood(s: seq<int>, n: int): Outcome
  {
    if s == [] then Raised(IndexError)
    else
      var top := n + 1 - (if Min(s) < 0 then Min(s) else 0);
      var reach := if Sum(s) >= Max(s) then Sum(s) else Max(s);
      Ratio(RangeProd(n - reach + 1, top), Windows(s, n, top))
  }

  // ---------------------------------------------------------------- lemmas: sequences

  lemma PrefixStep(s: seq<int>, i: int)
    requires 0 <= i < |s|
    ensures s[..i + 1][..i] == s[..i] && s[..i + 1][i] == s[i]
  {
  }

  lemma {:induction false} SumNonNegative(s: seq<int>)
    requires NonNegative(s)
    ensures Sum(s) >= 0
  {
    if s != [] {
      SumNonNegative(s[..|s| - 1]);
    }
  }

  /** With no negative sample, the total is at least every single sample. */
  lemma {:induction false} SumAtLeastElement(s: seq<int>, k: int)
    requires NonNegative(s) && 0 <= k < |s|
    ensures s[k] <= Sum(s)
  {
    if k < |s| - 1 {
      SumAtLeastElement(s[..|s| - 1], k);
    } else {
      SumNonNegative(s[..|s| - 1]);
    }
  }

  lemma {:induction false} SumConcat(a: seq<int>, b: seq<int>)
    ensures Sum(a + b) == Sum(a) + Sum(b)
    decreases |b|
  {
    if b != [] {
      assert (a + b)[..|a + b| - 1] == a + b[..|b| - 1];
      assert (a + b)[|a + b| - 1] == b[|b| - 1];
      SumConcat(a, b[..|b| - 1]);
    } else {
      assert a + b == a;
    }
  }

  lemma {:induction false} WindowsConcat(a: seq<int>, b: seq<int>, n: int, top: int)
    ensures Windows(a + b, n, top) == Windows(a, n, top) * Windows(b, n, top)
    decreases |b|
  {
    if b != [] {
      assert (a + b)[..|a + b| - 1] == a + b[..|b| - 1];
      assert (a + b)[|a + b| - 1] == b[|b| - 1];
      WindowsConcat(a, b[..|b| - 1], n, top);
      var w := RangeProd(n - b[|b| - 1] + 1, top);
      assert Windows(a + b, n, top) == Windows(a + b[..|b| - 1], n, top) * w;
      assert Windows(b, n, top) == Windows(b[..|b| - 1], n, top) * w;
      Assoc(Windows(a, n, top), Windows(b[..|b| - 1], n, top), w);
    } else {
      assert a + b == a;
    }
  }

  lemma SumRemove(l: seq<int>, x: int, r: seq<int>)
    ensures Sum(l + [x] + r) == Sum(l + r) + x
  {
    var lx := l + [x];
    assert lx[..|lx| - 1] == l;
    SumConcat(lx, r);
    SumConcat(l, r);
  }

  lemma WindowsSnoc(l: seq<int>, x: int, n: int, top: int)
    ensures Windows(l + [x], n, top) == Windows(l, n, top) * RangeProd(n - x + 1, top)
  {
    assert (l + [x])[..|l|] == l;
  }

  lemma Regroup(whole: int, lx: int, l: int, r: int, lr: int, w: int)
    requires lx == l * w && whole == lx * r && lr == l * r
    ensures whole == lr * w
  {
  }

  /** Removing one element takes exactly its window out of the window product. */
  lemma WindowsRemove(l: seq<int>, x: int, r: seq<int>, n: int, top: int)
    ensures Windows(l + [x] + r, n, top) == Windows(l + r, n, top) * RangeProd(n - x + 1, top)
  {
    WindowsSnoc(l, x, n, top);
    WindowsConcat(l + [x], r, n, top);
    WindowsConcat(l, r, n, top);
    Regroup(Windows(l + [x] + r, n, top), Windows(l + [x], n, top), Windows(l, n, top),
            Windows(r, n, top), Windows(l + r, n, top), RangeProd(n - x + 1, top));
  }

  lemma RemoveMatching(pre: seq<int>, x: int, l: seq<int>, r: seq<int>)
    requires multiset(pre + [x]) == multiset(l + [x] + r)
    ensures multiset(pre) == multiset(l + r)
  {
    calc {
      multiset(pre);
      multiset(pre + [x]) - multiset{x};
      multiset(l + [x] + r) - multiset{x};
      multiset(l + r);
    }
  }

  /** sum(A) and the window product do not depend on the order of the samples. */
  lemma {:induction false} PermutationInvariant(s: seq<int>, t: seq<int>, n: int, top: int)
    requires multiset(s) == multiset(t)
    ensures Sum(s) == Sum(t) && Windows(s, n, top) == Windows(t, n, top)
    decreases |s|
  {
    if s == [] {
      assert |t| == |multiset(t)| == 0;
    } else {
      var x := s[|s| - 1];
      assert x in multiset(t) by {
        assert x in multiset(s);
      }
      var k :| 0 <= k < |t| && t[k] == x;
      var pre, l, r := s[..|s| - 1], t[..k], t[k + 1..];
      assert s == pre + [x];
      SplitAt(t, k);
      RemoveMatching(pre, x, l, r);
      PermutationInvariant(pre, l + r, n, top);
      RemoveStep(pre, x, l, r, n, top);
    }
  }

  lemma SplitAt(t: seq<int>, k: int)
    requires 0 <= k < |t|
    ensures t == t[..k] + [t[k]] + t[k + 1..]
  {
  }

  lemma RemoveStep(pre: seq<int>, x: int, l: seq<int>, r: seq<int>, n: int, top: int)
    requires Sum(pre) == Sum(l + r) && Windows(pre, n, top) == Windows(l + r, n, top)
    ensures Sum(pre + [x]) == Sum(l + [x] + r)
    ensures Windows(pre + [x], n, top) == Windows(l + [x] + r, n, top)
  {
    SumRemove(l, x, r);
    WindowsRemove(l, x, r, n, top);
    SumRemove(pre, x, []);
    WindowsRemove(pre, x, [], n, top);
    assert pre + [x] + [] == pre + [x] && pre + [] == pre;
  }

  lemma MinMaxPermutation(s: seq<int>, t: seq<int>)
    requires |s| > 0 && multiset(s) == multiset(t)
    ensures |t| > 0 && Min(s) == Min(t) && Max(s) == Max(t)
  {
    assert s[0] in multiset(t);
    assert Min(s) in multiset(t) && Max(s) in multiset(t);
    assert Min(t) in multiset(s) && Max(t) in multiset(s);
  }

  lemma SortedEnds(s: seq<int>)
    requires |s| > 0
    ensures |SortedCopy(s)| == |s|
    ensures SortedCopy(s)[0] == Min(s) && SortedCopy(s)[|s| - 1] == Max(s)
  {
    var xs := SortedCopy(s);
    SortedCopyAscending(s);
    MinMaxPermutation(s, xs);
    assert Min(xs) == xs[0] by {
      assert Min(xs) in xs;
    }
    assert Max(xs) == xs[|xs| - 1] by {
      assert Max(xs) in xs;
    }
  }

  lemma SortedNonNegative(s: seq<int>)
    requires NonNegative(s)
    ensures NonNegative(SortedCopy(s))
  {
    var xs := SortedCopy(s);
    forall k | 0 <= k < |xs| ensures xs[k] >= 0 {
      assert xs[k] in multiset(s);
    }
  }

  // ---------------------------------------------------------------- lemmas: formulas

  lemma WindowIsH(n: int, a: nat)
    ensures RangeProd(n - a + 1, n + 1) == H(n, a)
  {
    RangeProdIsH(n, a);
  }

  /** Over samples that are at least 0 and sum to at most N, every window is a positive falling factorial. */
  lemma {:induction false} DenominatorPositive(s: seq<int>, n: int)
    requires NonNegative(s) && Sum(s) <= n
    ensures Denominator(s, n) >= 1
  {
    if s != [] {
      var pre, a := s[..|s| - 1], s[|s| - 1];
      SumNonNegative(pre);
      DenominatorPositive(pre, n);
      WindowIsH(n, a);
      HPositive(n, a);
      MulMono(1, 1, Denominator(pre, n), H(n, a));
    }
  }

  /** One sample more: numer gains H(N - s, a) and denom gains H(N, a). */
  lemma FormulaStep(s: seq<int>, n: int)
    requires |s| > 0 && NonNegative(s) && Sum(s) <= n
    ensures var pre, a := s[..|s| - 1], s[|s| - 1];
      && NonNegative(pre) && 0 <= Sum(pre) && 0 <= a && Sum(pre) + a <= n
      && Numerator(s, n) == Numerator(pre, n) * H(n - Sum(pre), a)
      && Denominator(s, n) == Denominator(pre, n) * H(n, a)
  {
    var pre, a := s[..|s| - 1], s[|s| - 1];
    var sp := Sum(pre);
    SumNonNegative(pre);
    WindowIsH(n, sp);
    WindowIsH(n, sp + a);
    WindowIsH(n, a);
    HSplit(n, sp, a);
  }

  /** comb(rest, a) / comb(n, a) = H(rest, a) / H(n, a): the factorials cancel. */
  lemma ChooseRatio(rest: nat, n: nat, a: nat)
    requires a <= n
    ensures Choose(n, a) != 0 && H(n, a) != 0
    ensures Choose(rest, a) as real / Choose(n, a) as real == H(rest, a) as real / H(n, a) as real
  {
    ChooseFalling(rest, a);
    ChooseFalling(n, a);
    FactPositive(a);
    HPositive(n, a);
    RealCancel(Choose(rest, a), Choose(n, a), Fact(a));
  }

  lemma RealCancel(cr: int, cn: int, f: int)
    requires f > 0 && cn != 0
    ensures (cr * f) as real / (cn * f) as real == cr as real / cn as real
  {
    var x, y, z := cr as real, cn as real, f as real;
    assert (cr * f) as real == x * z;
    assert (cn * f) as real == y * z;
    assert (x * z) / (y * z) == x / y;
  }

  /** The real-number step of the telescoping: a ratio of binomials equal to a ratio of falling factorials. */
  lemma TelescopeArith(np: int, dp: int, cr: int, cn: int, hr: int, hn: int, num: int, den: int, pp: real, q: real, r: real)
    requires dp != 0 && cn != 0 && hn != 0 && den != 0
    requires pp == np as real / dp as real && q == cr as real / cn as real
    requires q == hr as real / hn as real
    requires num == np * hr && den == dp * hn && r == num as real / den as real
    ensures r == pp * q
  {
    var x, y, u, v := np as real, dp as real, hr as real, hn as real;
    assert num as real == x * u && den as real == y * v;
    assert (x / y) * (u / v) == (x * u) / (y * v);
  }

  /** One more sample in the naive product, after a prefix that raised nothing. */
  lemma NaiveStep(s: seq<int>, n: int, i: int, p: real)
    requires 0 <= i < |s| && NaiveProduct(s[..i], n) == Value(p)
    ensures var rest, a := n - Sum(s[..i]), s[i];
      NaiveProduct(s[..i + 1], n) ==
        if rest < 0 || a < 0 || n < 0 then Raised(ValueError)
        else if Choose(n, a) == 0 then Raised(ZeroDivisionError)
        else Value(p * (Choose(rest, a) as real / Choose(n, a) as real))
  {
    PrefixStep(s, i);
  }

  /** Once a step of the naive product raises, every longer run of samples raises the same exception. */
  lemma {:induction false} NaiveRaisedPersists(s: seq<int>, n: int, i: int)
    requires 0 <= i <= |s| && NaiveProduct(s[..i], n).Raised?
    ensures NaiveProduct(s, n) == NaiveProduct(s[..i], n)
    decreases |s| - i
  {
    if i < |s| {
      PrefixStep(s, i);
      NaiveRaisedPersists(s, n, i + 1);
    } else {
      assert s[..i] == s;
    }
  }

  /** One more sample in the incremental products. */
  lemma IncStep(s: seq<int>, n: int, i: int)
    requires 0 <= i < |s|
    ensures IncH(s[..i + 1], n) == IncH(s[..i], n) * RangeProd(n - s[i] + 1, LastStart(s[..i], n))
    ensures LastStart(s[..i + 1], n) == n - s[i] + 1
    ensures IncDenom(s[..i + 1], n) == IncDenom(s[..i], n) * IncH(s[..i + 1], n)
    ensures Sum(s[..i + 1]) == Sum(s[..i]) + s[i]
  {
    PrefixStep(s, i);
  }

  /**
    The naive product telescopes: for samples at least 0 summing to at most N, the product of
    comb(N - s_i, a_i) / comb(N, a_i) equals numer / denom of the algebraic variant, because
    comb(N - s, a) / comb(N, a) = H(N - s, a) / H(N, a) and H(N, s) H(N - s, a) = H(N, s + a).
   */
  lemma {:induction false} NaiveTelescopes(s: seq<int>, n: int)
    requires NonNegative(s) && Sum(s) <= n
    ensures Denominator(s, n) >= 1
    ensures NaiveProduct(s, n) == Value(Numerator(s, n) as real / Denominator(s, n) as real)
  {
    DenominatorPositive(s, n);
    if s != [] {
      var pre, a := s[..|s| - 1], s[|s| - 1];
      assert s == pre + [a];
      FormulaStep(s, n);
      var rest := n - Sum(pre);
      var np, dp, num, den := Numerator(pre, n), Denominator(pre, n), Numerator(s, n), Denominator(s, n);
      assert 0 <= a <= rest && num == np * H(rest, a) && den == dp * H(n, a);
      DenominatorPositive(pre, n);
      ChooseRatio(rest, n, a);
      NaiveTelescopes(pre, n);
      var pp := np as real / dp as real;
      var q := Choose(rest, a) as real / Choose(n, a) as real;
      var r := num as real / den as real;
      TelescopeArith(np, dp, Choose(rest, a), Choose(n, a), H(rest, a), H(n, a), num, den, pp, q, r);
      NaiveLast(s, n, pre, a, pp, q, r);
    } else {
      assert NaiveProduct(s, n) == Value(1.0);
      assert Numerator(s, n) == 1 && Denominator(s, n) == 1;
    }
  }

  /** The naive product over a run of samples whose last step raises nothing. */
  lemma NaiveLast(s: seq<int>, n: int, pre: seq<int>, a: int, pp: real, q: real, r: real)
    requires s == pre + [a] && NaiveProduct(pre, n) == Value(pp)
    requires 0 <= a <= n - Sum(pre) && Choose(n, a) != 0
    requires q == Choose(n - Sum(pre), a) as real / Choose(n, a) as real && r == pp * q
    ensures NaiveProduct(s, n) == Value(r)
  {
    assert s[..|s| - 1] == pre;
  }

  /** The naive and the algebraic variants agree exactly on every input the callers provide. */
  lemma NaiveAgreesWithAlgebraic(s: seq<int>, n: int)
    requires NonNegative(s) && Sum(s) <= n
    ensures NaiveLikelihood(s, n) == AlgebraicLikelihood(s, n)
    ensures NaiveLikelihood(s, n).Value?
  {
    NaiveTelescopes(s, n);
  }

  /** Numerator and denominator bounds: 0 < numer <= denom. */
  lemma {:induction false} NumeratorBounds(s: seq<int>, n: int)
    requires NonNegative(s) && Sum(s) <= n
    ensures 1 <= Numerator(s, n) <= Denominator(s, n)
  {
    if s == [] {
      assert Numerator(s, n) == RangeProd(n + 1, n + 1) == 1;
    } else {
      var pre, a := s[..|s| - 1], s[|s| - 1];
      FormulaStep(s, n);
      var sp := Sum(pre);
      NumeratorBounds(pre, n);
      HMono(n - sp, n, a);
      HPositive(n - sp, a);
      MulMono(1, 1, Numerator(pre, n), H(n - sp, a));
      MulMono(Numerator(pre, n), H(n - sp, a), Denominator(pre, n), H(n, a));
    }
  }

  lemma UnitRatio(x: real, y: real)
    requires 0.0 < x <= y
    ensures 0.0 < x / y <= 1.0
  {
    assert x / y * y == x;
  }

  /** For caller-valid input the probability exists and lies in [0, 1). */
  lemma AlgebraicInUnitInterval(s: seq<int>, n: int)
    requires NonNegative(s) && Sum(s) <= n
    ensures AlgebraicLikelihood(s, n).Value?
    ensures 0.0 <= AlgebraicLikelihood(s, n).p < 1.0
  {
    NumeratorBounds(s, n);
    UnitRatio(Numerator(s, n) as real, Denominator(s, n) as real);
  }

  /** The incremental products over ascending samples are the windows reaching up to top. */
  lemma {:induction false} IncHClosed(s: seq<int>, n: int, top: int)
    requires |s| > 0 && Ascending(s) && top == n + 1 - (if s[0] < 0 then s[0] else 0)
    ensures IncH(s, n) == RangeProd(n - s[|s| - 1] + 1, top)
  {
    var pre, a := s[..|s| - 1], s[|s| - 1];
    assert s == pre + [a];
    if |s| == 1 {
      assert pre == [] && a == s[0];
      if a < 0 {
        assert RangeProd(n - a + 1, n + 1) == 1;
      }
    } else {
      AscendingPrefix(s);
      IncHClosed(pre, n, top);
      IncHStep(pre, a, n, top);
    }
  }

  lemma AscendingPrefix(s: seq<int>)
    requires |s| > 1 && Ascending(s)
    ensures Ascending(s[..|s| - 1]) && s[..|s| - 1][0] == s[0]
    ensures s[0] <= s[|s| - 2] <= s[|s| - 1]
  {
  }

  lemma IncHStep(pre: seq<int>, a: int, n: int, top: int)
    requires |pre| > 0 && pre[|pre| - 1] <= a && n - pre[|pre| - 1] + 1 <= top
    requires IncH(pre, n) == RangeProd(n - pre[|pre| - 1] + 1, top)
    ensures IncH(pre + [a], n) == RangeProd(n - a + 1, top)
  {
    var p := pre[|pre| - 1];
    var s := pre + [a];
    assert s[..|s| - 1] == pre && s[|s| - 1] == a;
    assert LastStart(pre, n) == n - p + 1;
    var h, w1, w2 := IncH(pre, n), RangeProd(n - a + 1, n - p + 1), RangeProd(n - p + 1, top);
    assert IncH(s, n) == h * w1;
    RangeProdSplit(n - a + 1, n - p + 1, top);
    assert w1 * w2 == RangeProd(n - a + 1, top);
  }

  lemma {:induction false} IncDenomClosed(s: seq<int>, n: int, top: int)
    requires |s| > 0 && Ascending(s) && top == n + 1 - (if s[0] < 0 then s[0] else 0)
    ensures IncDenom(s, n) == Windows(s, n, top)
  {
    var pre := s[..|s| - 1];
    IncHClosed(s, n, top);
    if |s| > 1 {
      assert pre[0] == s[0] && Ascending(pre);
      IncDenomClosed(pre, n, top);
    } else {
      assert pre == [];
    }
  }

  lemma IncrementalClosedForm(s: seq<int>, n: int)
    requires |s| > 0 && Ascending(s)
    ensures IncH(s, n) == RangeProd(n - s[|s| - 1] + 1, n + 1 - (if s[0] < 0 then s[0] else 0))
    ensures IncDenom(s, n) == Windows(s, n, n + 1 - (if s[0] < 0 then s[0] else 0))
  {
    var top := n + 1 - (if s[0] < 0 then s[0] else 0);
    IncHClosed(s, n, top);
    IncDenomClosed(s, n, top);
  }

  lemma IncrementalNumerator(s: seq<int>, n: int, reach: int, top: int)
    requires |s| > 0 && Ascending(s)
    requires reach == (if Sum(s) >= s[|s| - 1] then Sum(s) else s[|s| - 1])
    requires top == n + 1 - (if s[0] < 0 then s[0] else 0)
    ensures IncNumer(s, n) == RangeProd(n - reach + 1, top)
  {
    var last, total := s[|s| - 1], Sum(s);
    IncHClosed(s, n, top);
    var h, r := IncH(s, n), RangeProd(n - total + 1, n - last + 1);
    assert IncNumer(s, n) == h * r;
    if total >= last {
      RangeProdSplit(n - total + 1, n - last + 1, top);
      assert h * r == r * h;
    } else {
      assert r == 1;
    }
  }

  /** The loop of the completely optimised variant, run over the sorted samples, yields CompleteLikelihood. */
  lemma CompleteFromSorted(s: seq<int>, n: int)
    requires |s| > 0
    ensures CompleteLikelihood(s, n) == Ratio(IncNumer(SortedCopy(s), n), IncDenom(SortedCopy(s), n))
  {
    var xs := SortedCopy(s);
    SortedEnds(s);
    SortedCopyAscending(s);
    CompleteFromAscending(xs, s, n, IncNumer(xs, n), IncDenom(xs, n));
  }

  lemma CompleteFromAscending(xs: seq<int>, s: seq<int>, n: int, numer: int, denom: int)
    requires |xs| == |s| > 0 && Ascending(xs) && multiset(xs) == multiset(s)
    requires xs[0] == Min(s) && xs[|xs| - 1] == Max(s)
    requires numer == IncNumer(xs, n) && denom == IncDenom(xs, n)
    ensures CompleteLikelihood(s, n) == Ratio(numer, denom)
  {
    var top := n + 1 - (if Min(s) < 0 then Min(s) else 0);
    var reach := if Sum(s) >= Max(s) then Sum(s) else Max(s);
    PermutationInvariant(xs, s, n, top);
    assert denom == Windows(s, n, top) by {
      IncDenomClosed(xs, n, top);
    }
    assert numer == RangeProd(n - reach + 1, top) by {
      IncrementalNumerator(xs, n, reach, top);
    }
    CompleteFromWindows(s, n, numer, denom, top, reach);
  }

  lemma CompleteFromWindows(s: seq<int>, n: int, numer: int, denom: int, top: int, reach: int)
    requires |s| > 0
    requires top == n + 1 - (if Min(s) < 0 then Min(s) else 0)
    requires reach == (if Sum(s) >= Max(s) then Sum(s) else Max(s))
    requires denom == Windows(s, n, top) && numer == RangeProd(n - reach + 1, top)
    ensures CompleteLikelihood(s, n) == Ratio(numer, denom)
  {
  }

  /** With no negative sample the completely optimised value is the algebraic one. */
  lemma CompleteAgreesWithAlgebraic(s: seq<int>, n: int)
    requires |s| > 0 && NonNegative(s)
    ensures CompleteLikelihood(s, n) == AlgebraicLikelihood(s, n)
  {
    SumAtLeastElement(s, 0);
    var k :| 0 <= k < |s| && s[k] == Max(s);
    SumAtLeastElement(s, k);
  }

  /** Reordering the samples changes neither the algebraic nor the completely optimised value. */
  lemma OrderIndependent(s: seq<int>, t: seq<int>, n: int)
    requires multiset(s) == multiset(t)
    ensures AlgebraicLikelihood(s, n) == AlgebraicLikelihood(t, n)
    ensures CompleteLikelihood(s, n) == CompleteLikelihood(t, n)
  {
    PermutationInvariant(s, t, n, n + 1);
    if s != [] {
      CompleteOrderIndependent(s, t, n);
    } else {
      assert |t| == |multiset(t)| == 0;
    }
  }

  lemma CompleteOrderIndependent(s: seq<int>, t: seq<int>, n: int)
    requires |s| > 0 && multiset(s) == multiset(t)
    ensures CompleteLikelihood(s, n) == CompleteLikelihood(t, n)
  {
    MinMaxPermutation(s, t);
    var top := n + 1 - (if Min(s) < 0 then Min(s) else 0);
    PermutationInvariant(s, t, n, top);
  }

  /** With samples at least 0, the incremental loop over ascending samples builds exactly the algebraic integers. */
  lemma IncrementalMatchesAlgebraic(s: seq<int>, n: int)
    requires |s| > 0 && Ascending(s) && NonNegative(s)
    ensures IncH(s, n) == H(n, s[|s| - 1])
    ensures IncDenom(s, n) == Denominator(s, n)
    ensures IncNumer(s, n) == Numerator(s, n)
  {
    IncrementalClosedForm(s, n);
    SumAtLeastElement(s, |s| - 1);
    assert s[0] >= 0;
    IncrementalNumerator(s, n, Sum(s), n + 1);
    WindowIsH(n, s[|s| - 1]);
  }
}
