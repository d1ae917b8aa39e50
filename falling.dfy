/**
  Exact integer combinatorics behind every variant of the exclusivity-probability engine:
  products over integer ranges (Python's `math.prod(range(lo, hi))`), the falling factorial
  H(n, k) = n (n-1) ... (n-k+1), factorials and binomial coefficients.
 */
module Falling {

  /** The product lo * (lo + 1) * ... * (hi - 1); the empty product 1 when lo >= hi. */
  function RangeProd(lo: int, hi: int): int
    decreases hi - lo
  {
    if lo >= hi then 1 else RangeProd(lo, hi - 1) * (hi - 1)
  }

  /** The falling factorial H(n, k): the number of ordered k-samples from n values. */
  function H(n: int, k: nat): int
    decreases k
  {
    if k == 0 then 1 else n * H(n - 1, k - 1)
  }

  function Fact(n: nat): nat
  {
    if n == 0 then 1 else n * Fact(n - 1)
  }

  /** Binomial coefficient by Pascal's rule; zero when k > n, as Python's `math.comb`. */
  function Choose(n: nat, k: nat): nat
  {
    if k == 0 then 1
    else if n == 0 then 0
    else Choose(n - 1, k - 1) + Choose(n - 1, k)
  }

  lemma MulMono(a: int, b: int, c: int, d: int)
    requires 0 <= a <= c && 0 <= b <= d
    ensures a * b <= c * d
  {
    assert a * b <= c * b;
    assert c * b <= c * d;
  }

  lemma MulCancel(a: int, b: int, f: int)
    requires f > 0 && a * f == b * f
    ensures a == b
  {
    assert (a - b) * f == 0;
  }

  lemma DivExact(c: int, d: int)
    requires d > 0
    ensures (c * d) / d == c
  {
    var q, r := (c * d) / d, (c * d) % d;
    assert (c - q) * d == r;
    SmallMultiple(c - q, d, r);
  }

  lemma SmallMultiple(m: int, d: int, r: int)
    requires d > 0 && m * d == r && 0 <= r < d
    ensures m == 0
  {
    if m >= 1 {
      MulMono(1, d, m, d);
    } else if m <= -1 {
      MulMono(1, d, -m, d);
    }
  }

  lemma Assoc(x: int, y: int, z: int)
    ensures x * (y * z) == (x * y) * z
  {
  }

  /** A range product splits at any point inside the range. */
  lemma {:induction false} RangeProdSplit(lo: int, mid: int, hi: int)
    requires lo <= mid <= hi
    ensures RangeProd(lo, mid) * RangeProd(mid, hi) == RangeProd(lo, hi)
    decreases hi - mid
  {
    if mid < hi {
      RangeProdSplit(lo, mid, hi - 1);
      assert RangeProd(mid, hi) == RangeProd(mid, hi - 1) * (hi - 1);
      assert RangeProd(lo, hi) == RangeProd(lo, hi - 1) * (hi - 1);
      Assoc(RangeProd(lo, mid), RangeProd(mid, hi - 1), hi - 1);
    }
  }

  /** The window [n - k + 1, n] multiplies out to the falling factorial H(n, k). */
  lemma {:induction false} RangeProdIsH(n: int, k: nat)
    decreases k
    ensures RangeProd(n - k + 1, n + 1) == H(n, k)
  {
    if k > 0 {
      RangeProdIsH(n - 1, k - 1);
      assert RangeProd(n - k + 1, n + 1) == RangeProd(n - k + 1, n) * n;
    }
  }

  /** Factors of a range product that all lie at or above 1 give a product of at least 1. */
  lemma {:induction false} RangeProdPositive(lo: int, hi: int)
    requires lo >= 1
    ensures RangeProd(lo, hi) >= 1
    decreases hi - lo
  {
    if lo < hi {
      RangeProdPositive(lo, hi - 1);
      MulMono(1, 1, RangeProd(lo, hi - 1), hi - 1);
    }
  }

  /** Extending a falling factorial by one factor at its low end. */
  lemma {:induction false} HExtend(n: int, k: nat)
    decreases k
    ensures H(n, k + 1) == H(n, k) * (n - k)
  {
    if k > 0 {
      HExtend(n - 1, k - 1);
      assert H(n - 1, k) == H(n - 1, k - 1) * (n - k);
      Assoc(n, H(n - 1, k - 1), n - k);
    }
  }

  /** H(n, s + a) = H(n, s) * H(n - s, a): the telescoping step of the engine. */
  lemma {:induction false} HSplit(n: int, s: nat, a: nat)
    decreases s
    ensures H(n, s + a) == H(n, s) * H(n - s, a)
  {
    if s > 0 {
      HSplit(n - 1, s - 1, a);
      assert H(n, s + a) == n * H(n - 1, s - 1 + a);
      assert H(n - 1, s - 1 + a) == H(n - 1, s - 1) * H(n - s, a);
      Assoc(n, H(n - 1, s - 1), H(n - s, a));
    }
  }

  lemma {:induction false} HPositive(n: int, k: nat)
    decreases k
    requires k <= n
    ensures H(n, k) >= 1
  {
    if k > 0 {
      HPositive(n - 1, k - 1);
      MulMono(1, 1, n, H(n - 1, k - 1));
    }
  }

  lemma {:induction false} HZero(n: nat, k: nat)
    requires n < k
    ensures H(n, k) == 0
  {
    if n > 0 {
      HZero(n - 1, k - 1);
    }
  }

  /** For a fixed sample size the falling factorial grows with the population. */
  lemma {:induction false} HMono(n: int, m: int, k: nat)
    decreases k
    requires k <= n <= m
    ensures H(n, k) <= H(m, k)
  {
    if k > 0 {
      HMono(n - 1, m - 1, k - 1);
      HPositive(n - 1, k - 1);
      MulMono(n, H(n - 1, k - 1), m, H(m - 1, k - 1));
    }
  }

  lemma {:induction false} FactIsH(n: nat)
    ensures Fact(n) == H(n, n)
  {
    if n > 0 {
      FactIsH(n - 1);
    }
  }

  lemma FactPositive(n: nat)
    ensures Fact(n) >= 1
  {
    FactIsH(n);
    HPositive(n, n);
  }

  lemma ChooseFallingArith(c1: int, c2: int, f1: int, k: int, h: int, n: int)
    requires c1 * f1 == h && c2 * (k * f1) == h * (n - k)
    ensures (c1 + c2) * (k * f1) == n * h
  {
    calc {
      (c1 + c2) * (k * f1);
      c1 * (k * f1) + c2 * (k * f1);
      k * (c1 * f1) + h * (n - k);
      k * h + h * (n - k);
      n * h;
    }
  }

  /** C(n, k) * k! = H(n, k): a binomial coefficient is a falling factorial divided by k!. */
  lemma {:induction false} ChooseFalling(n: nat, k: nat)
    ensures Choose(n, k) * Fact(k) == H(n, k)
  {
    if k == 0 {
    } else if n == 0 {
      assert H(0, k) == 0 * H(-1, k - 1);
    } else {
      ChooseFalling(n - 1, k - 1);
      ChooseFalling(n - 1, k);
      HExtend(n - 1, k - 1);
      ChooseFallingArith(Choose(n - 1, k - 1), Choose(n - 1, k), Fact(k - 1), k, H(n - 1, k - 1), n);
    }
  }

  /** C(n, k) is at least 1 whenever k <= n. */
  lemma ChoosePositive(n: nat, k: nat)
    requires k <= n
    ensures Choose(n, k) >= 1
  {
    ChooseFalling(n, k);
    HPositive(n, k);
  }

  /** (-1)^k. */
  function Sign(k: nat): int
  {
    if k == 0 then 1 else -Sign(k - 1)
  }

  /**
    The binomial coefficient extended to any integer n: H(n, k) / k!. It is C(n, k) for n >= 0 and
    (-1)^k C(k - 1 - n, k) below zero, which is what a multiplicative comb computes for a negative n.
   */
  function Binomial(n: int, k: nat): int
  {
    if n >= 0 then Choose(n, k)
    else if Sign(k) == 1 then Choose(k - 1 - n, k)
    else -(Choose(k - 1 - n, k) as int)
  }

  lemma {:induction false} SignUnit(k: nat)
    ensures Sign(k) == 1 || Sign(k) == -1
  {
    if k > 0 {
      SignUnit(k - 1);
    }
  }

  /** Reflecting a falling factorial through -1/2: H(n, k) = (-1)^k H(k - 1 - n, k). */
  lemma {:induction false} HReflect(n: int, k: nat)
    decreases k
    ensures H(n, k) == Sign(k) * H(k - 1 - n, k)
  {
    if k > 0 {
      HReflect(n, k - 1);
      HExtend(n, k - 1);
      var sg, g := Sign(k - 1), H(k - 2 - n, k - 1);
      assert H(k - 1 - n, k) == (k - 1 - n) * g;
      calc {
        H(n, k);
        H(n, k - 1) * (n - k + 1);
        (sg * g) * (n - k + 1);
        -sg * ((k - 1 - n) * g);
        Sign(k) * H(k - 1 - n, k);
      }
    }
  }

  /** Every generalised binomial coefficient is a falling factorial divided exactly by k!. */
  lemma BinomialFalling(n: int, k: nat)
    ensures Binomial(n, k) * Fact(k) == H(n, k)
  {
    if n >= 0 {
      ChooseFalling(n, k);
    } else {
      var m := k - 1 - n;
      ChooseFalling(m, k);
      HReflect(n, k);
      SignUnit(k);
      SignedProduct(Choose(m, k), Fact(k), H(m, k), Sign(k));
    }
  }

  lemma SignedProduct(c: int, f: int, h: int, sg: int)
    requires c * f == h && (sg == 1 || sg == -1)
    ensures (if sg == 1 then c else -c) * f == sg * h
  {
  }

  /** B(n, x) * (n - x) = B(n, x + 1) * (x + 1), which makes each step of a multiplicative comb exact. */
  lemma BinomialStep(n: int, x: nat)
    ensures Binomial(n, x) * (n - x) == Binomial(n, x + 1) * (x + 1)
  {
    BinomialFalling(n, x);
    BinomialFalling(n, x + 1);
    HExtend(n, x);
    FactPositive(x);
    ChooseStepArith(Binomial(n, x), Binomial(n, x + 1), Fact(x), H(n, x), n - x, x + 1);
  }

  lemma ChooseStepArith(c: int, c': int, f: int, h: int, m: int, j: int)
    requires f > 0 && c * f == h && c' * (j * f) == h * m
    ensures c * m == c' * j
  {
    calc {
      (c * m) * f;
      (c * f) * m;
      h * m;
      c' * (j * f);
      (c' * j) * f;
    }
    MulCancel(c * m, c' * j, f);
  }
}
