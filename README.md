# The Hannah Montana problem, modelled in Dafny

The repository benchmarks three ways to compute the likelihood of an exclusive
relationship. Given sample sizes A = [a1, ..., ak] drawn from a population of N values, the
likelihood is the probability that some two samples share a value:

    1 - H(N, a1 + ... + ak) / (H(N, a1) * ... * H(N, ak)),   H(n, k) = n (n - 1) ... (n - k + 1)

The three variants are:

- **not optimised**: multiplies the ratios comb(N - a1 - ... - a(i-1), ai) / comb(N, ai);
- **algebraically optimised**: multiplies out the falling factorials directly;
- **completely optimised**: sorts the samples and builds each window product from the
  previous one, so the shared factors are multiplied only once.

The repository implements the three variants in Python, Java and Rust. A Python experiment
runs the Python variants: it generates random sequences of sample sizes for every population
of a range, times each variant on each sequence, and records the results. A command-line
front end validates the experiment's options.

This project models:

- **Falling**: range products (`math.prod(range(lo, hi))`), falling factorials, factorials and
  binomial coefficients. It also has the generalised binomial coefficient, which a
  multiplicative `comb` computes for a negative n.
- **Likelihood**: the quantity every variant computes, defined once over exact integers and
  reals.
  - `AlgebraicLikelihood` is the formula.
  - `NaiveLikelihood` is the product of binomial ratios, with Python's exceptions.
  - `CompleteLikelihood` is the closed form of the completely optimised variant for any
    integer input.
  - `IncH`, `IncDenom` and `IncNumer` are the incremental products its loop builds.

  The lemmas prove that the three values agree on every input the experiment can produce, and
  that the result lies in [0, 1).
- **AlgorithmsPy**, **AlgorithmsJava**, **AlgorithmsRs**: each variant in each language as a
  method with its loops. Each method is proved against the specification functions.
  - Java's BigInteger is an unbounded `int`, and its `comb` divides with truncation toward zero.
  - Rust's `u64` is a subset type. The verifier checks that no intermediate value overflows
    under the stated preconditions.
- **Utils**: `generate_sequence`, with its random draws supplied as finite oracle sequences,
  and `grammatical_list`.
- **Experiments**: the experiment's counts, the order of populations, the enumeration of
  trials, each trial's sequence cap, the choice between serial and parallel runs, the serial run, and
  `execute_trial` with the measured runtimes given as parameters.
- **Cli**: the `--cores` and `--rng` callbacks, and how the benchmark command builds its
  experiment.

The model proves that `generate_sequence` never returns for n <= 2 (`Utils.GenerateSequence`).
`--rng` accepts a population of 2, so an experiment over such a range never finishes drawing
that population's first sequence.

## Model

| member | source | states |
|---|---|---|
| Falling.RangeProdIsH | src/algorithms.py:29-30 | the product of range(N - a + 1, N + 1) is the falling factorial H(N, a) |
| Falling.HSplit | src/algorithms.py:33-34 | H(n, s + a) = H(n, s) * H(n - s, a), the telescoping that makes the optimised formula exact |
| Falling.ChooseFalling | src/algorithms.py:16 | math.comb(n, k) times k! is H(n, k), so a ratio of combs is a ratio of falling factorials |
| Falling.BinomialFalling | algorithms/java/Algorithms.java:24-31 | the generalised binomial coefficient for any integer n is H(n, k) divided exactly by k! |
| Falling.BinomialStep | algorithms/java/Algorithms.java:27-28 | each step ret * (n - x) / (x + 1) of the multiplicative comb stays an exact binomial |
| Likelihood.Min | src/algorithms.py:51 | the smallest sample, which `A_sorted[0]` reads: a member of the list and at most every element |
| Likelihood.Max | src/utils.py:30 | `max(result)`: a member of the list and at least every element |
| Likelihood.SortedCopy | src/algorithms.py:43 | `sorted(A)` keeps the length and the multiset of the samples |
| Likelihood.SortedCopyAscending | src/algorithms.py:43 | `sorted(A)` is in ascending order |
| Likelihood.PermutationInvariant | src/algorithms.py:28-34 | sum(A) and the window product are the same for any reordering of A |
| Likelihood.DenominatorPositive | src/algorithms.py:28-30 | for samples at least 0 summing to at most N, denom is at least 1, so the division cannot fail |
| Likelihood.NumeratorBounds | src/algorithms.py:28-34 | 1 <= numer <= denom on those inputs |
| Likelihood.AlgebraicInUnitInterval | src/algorithms.py:20-35 | on those inputs the algebraic variant returns a probability in [0, 1) and raises nothing |
| Likelihood.NaiveTelescopes | src/algorithms.py:14-16 | the product of comb ratios telescopes to numer / denom of the algebraic formula |
| Likelihood.NaiveRaisedPersists | src/algorithms.py:15-16 | once a step raises, the whole call raises that exception |
| Likelihood.NaiveAgreesWithAlgebraic | src/algorithms.py:9-35 | the not-optimised and algebraically optimised variants return the same value, without exception, on samples at least 0 summing to at most N |
| Likelihood.IncrementalMatchesAlgebraic | src/algorithms.py:49-75 | over ascending samples at least 0, the incremental h, denom and numer equal H(N, max), the algebraic denom and the algebraic numer |
| Likelihood.CompleteFromSorted | src/algorithms.py:43-77 | the loop run over sorted(A) yields the closed form CompleteLikelihood |
| Likelihood.CompleteAgreesWithAlgebraic | src/algorithms.py:20-77 | on nonempty samples at least 0 the completely optimised value is the algebraic value, for any N |
| Likelihood.OrderIndependent | src/algorithms.py:43 | reordering the samples changes neither the algebraic nor the completely optimised value |
| AlgorithmsPy.NotOptimized | src/algorithms.py:9-17 | returns 1 - p for the product of comb ratios, or the ValueError / ZeroDivisionError a step raises |
| AlgorithmsPy.AlgebraicallyOptimized | src/algorithms.py:20-35 | returns 1 - numer / denom of the falling-factorial formula, raising ZeroDivisionError on a zero denom |
| AlgorithmsPy.CompletelyOptimized | src/algorithms.py:38-77 | returns the closed form, IndexError for an empty A, and the algebraic value for samples at least 0 |
| AlgorithmsPy.SortedProducts | src/algorithms.py:49-75 | the loop over the sorted samples builds the incremental numer and denom |
| AlgorithmsJava.DivideIsRatio | algorithms/java/Algorithms.java:100-103 | the BigDecimal division gives the Python value and throws where Python raises |
| AlgorithmsJava.TruncDivExact | algorithms/java/Algorithms.java:27-28 | BigInteger.divide of an exact multiple returns the cofactor, with truncation toward zero |
| AlgorithmsJava.Comb | algorithms/java/Algorithms.java:24-31 | comb(n, r) is 1 for r <= 0, times r! equals H(n, r), and is C(n, r) for n >= 0 |
| AlgorithmsJava.MultiplyRange | algorithms/java/Algorithms.java:89-91 | the inner loop multiplies x by every a_j with lo <= a_j < hi |
| AlgorithmsJava.NaiveThrownPersists | algorithms/java/Algorithms.java:52-64 | once a step throws, the whole call throws |
| AlgorithmsJava.NotOptimized | algorithms/java/Algorithms.java:42-67 | returns 1 - p for the product of comb ratios, throwing on a zero comb(N, a) |
| AlgorithmsJava.NaiveMatchesPython | algorithms/java/Algorithms.java:42-67 | on samples at least 0 summing to at most N the Java product equals the Python one and neither fails |
| AlgorithmsJava.AlgebraicallyOptimized | algorithms/java/Algorithms.java:78-104 | returns the algebraic value, throwing exactly where Python raises |
| AlgorithmsJava.Sort | algorithms/java/Algorithms.java:116-117 | the array is left ascending and holds the same multiset of values |
| AlgorithmsJava.SortedProducts | algorithms/java/Algorithms.java:130-148 | the loops over the sorted array build the incremental numer and denom |
| AlgorithmsJava.CompleteFromProducts | algorithms/java/Algorithms.java:143-152 | those products give 0 for an empty A and the closed form otherwise |
| AlgorithmsJava.CompletelyOptimized | algorithms/java/Algorithms.java:115-153 | returns 0 for an empty A, the closed form otherwise, and the algebraic value for samples at least 0 |
| AlgorithmsJava.VariantsAgree | algorithms/java/Algorithms.java:42-153 | the three Java variants return the same value, without exception, on samples at least 0 summing to at most N |
| AlgorithmsRs.Factorial | algorithms/algorithms.rs:12-14 | the product 1..=n is n!, and fits in u64 whenever n! does |
| AlgorithmsRs.Comb | algorithms/algorithms.rs:23-25 | the product (n - r + 1)..=n divided by r! is C(n, r), with no u64 overflow when H(n, r) fits |
| AlgorithmsRs.IncFits | algorithms/algorithms.rs:88-92 | every h and partial denom of the loop lies between 1 and the final denom, so no multiplication overflows |
| AlgorithmsRs.NotOptimized | algorithms/algorithms.rs:36-44 | returns 1 - p for the product of comb ratios, which is the algebraic value, with every u64 in range |
| AlgorithmsRs.AlgebraicallyOptimized | algorithms/algorithms.rs:55-65 | returns the algebraic value when denom fits in u64 |
| AlgorithmsRs.IncrementalProducts | algorithms/algorithms.rs:84-97 | the loop builds the incremental numer and denom in u64 without overflow |
| AlgorithmsRs.CompletelyOptimizedAsWritten | algorithms/algorithms.rs:76-100 | as written the loop runs over the unsorted samples: its value is the incremental ratio, which is the algebraic value only for ascending samples |
| AlgorithmsRs.UnsortedLoopDisagrees | algorithms/algorithms.rs:88-97 | for samples [3, 2, 1] and population 10 the as-written value differs from the algebraic one |
| AlgorithmsRs.CompletelyOptimized | algorithms/algorithms.rs:76-100 | with the loop over sorted_samples the variant returns the algebraic value for every input |
| AlgorithmsRs.SortedProductsAreAlgebraic | algorithms/algorithms.rs:77-78 | sorting keeps the sum, and the incremental products of the sorted copy are the algebraic numer and denom |
| Utils.FirstIndex | src/utils.py:31 | `list.index(x)` is the position of the first occurrence of x |
| Utils.PopFirstMax | src/utils.py:30-31 | popping the first maximum removes that one element, keeps the others in order and lowers the sum by the maximum |
| Utils.RepairKeepsBelow | src/utils.py:28-31 | after the repair the list sums below n again and its values stay within [1, max_value] |
| Utils.RepairForcesExit | src/utils.py:33-38 | once the sum has reached n, every roll below 1 exits as soon as two values remain |
| Utils.GenerateSequence | src/utils.py:22-42 | a returned sequence has at least two values in [1, max_value] summing below n; ValueError exactly for n <= 0 (before any draw) or for max_value < 1 (once a roll is drawn); for n <= 2 nothing is returned |
| Utils.InsertBeforeLast | src/utils.py:72 | `insert(-1, x)` adds one element and keeps the last one last |
| Utils.GrammaticalList | src/utils.py:52-76 | the leading items are joined by ", " and the conjunction comes before the last item, with or without the Oxford comma |
| Utils.GrammaticalListTwo | src/utils.py:59-62 | ['dog', 'cat'] gives "dog and cat" |
| Utils.GrammaticalListExamples | src/utils.py:64-67 | ['dog', 'cat', 'mouse'] gives "dog, cat, and mouse" |
| Utils.GrammaticalListNoOxford | src/utils.py:75-76 | without the Oxford comma ['x', 'y', 'z'] gives "x, y and z" |
| Utils.GrammaticalListShort | src/utils.py:69-74 | one item gives the conjunction and the item; no item gives a space and the conjunction |
| Experiments.Run | src/experiment.py:119-131 | calling a variant yields that variant's specified outcome |
| Experiments.VariantsAgreeOnValidInput | src/experiment.py:21-25 | on valid input all three variants return the algebraic value |
| Experiments.TotalPopulations | src/experiment.py:41-44 | no population for a reversed range; otherwise the count runs from the low end exactly to the high end |
| Experiments.TotalTrials | src/experiment.py:46-49 | at least 0 for trials_per_n >= 0, 0 exactly when there is no population or no trial per population, and negative for a negative trials_per_n |
| Experiments.TotalAlgotrials | src/experiment.py:36-39 | three times total_trials, one per variant |
| Experiments.AccountingExample | src/experiment.py:36-49 | the range [10, 12] with 5 trials per population gives 3 populations, 15 trials and 45 algorithm trials |
| Experiments.GeneratePopulations | src/experiment.py:51-65 | populations are visited upwards or downwards, each population of the range exactly once, TotalPopulations of them |
| Experiments.MaxValueBounds | src/experiment.py:153-155 | the cap is at least 2, is the floor of population * index / trials_per_n above 2, and is at most the population for indices 1..=trials_per_n |
| Experiments.TrialContextFactory | src/experiment.py:145-164 | the context echoes index, population and settings, and its sequence is one the generator can return under the cap |
| Experiments.GenerableIsValidInput | src/experiment.py:161 | every generated sequence is a valid input of the variants |
| Experiments.TrialPosition | src/experiment.py:67-78 | trial t is trial t % trials_per_n of the (t / trials_per_n)-th population |
| Experiments.Trials | src/experiment.py:67-78 | trial t carries population number t / trials_per_n and index t % trials_per_n + 1; a complete run has TotalPopulations * max(trials_per_n, 0) trials |
| Experiments.RunSerial | src/experiment.py:80-82 | runs every trial in the order trials() gives; a complete run records TotalAlgotrials variant results, and every trial that iterates records the algebraic value for all variants |
| Experiments.RunMode | src/experiment.py:93-97 | the run is serial exactly for 0 or 1 cores |
| Experiments.ExecuteTrial | src/experiment.py:109-142 | the trial echoes its context and records one result per variant, in order |
| Experiments.RecordMeaning | src/experiment.py:120-141 | a record holds an error exactly when the variant ran and raised, otherwise the runtime, and a result exactly when the variant ran |
| Experiments.GeneratedTrialsAgree | src/experiment.py:109-164 | every generated trial records the same algebraic result for all three variants, with no error |
| Cli.CoresAccepted | main.py:24-33 | a count above the CPU count is refused; an accepted count lies in [1, cpu_count] and is kept when positive |
| Cli.CoresIdempotent | main.py:24-33 | validating a validated count changes nothing |
| Cli.ValidatedCoresMode | main.py:24-33 | an experiment with validated cores runs serially exactly with one core, so 0 means serial |
| Cli.RangeAccepted | main.py:36-43 | a range is accepted exactly when both ends are at least 2, and comes back with the same ends, smaller first |
| Cli.RangeSymmetricIdempotent | main.py:36-43 | the order of the ends does not matter, and validating again changes nothing |
| Cli.ValidatedRangePopulations | main.py:36-43 | a validated range holds at least one population, and every one is at least 2 |
| Cli.BenchmarkKeepsValidatedRange | main.py:63-72 | the benchmark's second ordering leaves a validated range unchanged and passes the other options through |

## Left out

- Floating point: Python and Rust floats, and Java doubles with the 15-digit BigDecimal context, are exact reals. The model proves the exact value each variant rounds.
- Likelihood.Ratio: Python's `numer / denom` raises OverflowError when the quotient lies beyond the float range. That is reachable only with a negative N (N = -1 and A = [1] * 200 gives 200! / 1). The model returns a value there instead.
- AlgorithmsJava: `int` and `Integer` sums and `N - a + 1` are unbounded. 32-bit overflow is not modelled.
- AlgorithmsRs.NotOptimized: requires the samples to sum to at most the population and every H(population, a) to fit in u64. Outside that, Rust panics or wraps, which is not modelled.
- AlgorithmsRs.NotOptimized: also requires population below u64::MAX. The source needs that only where `n - r + 1` overflows at a sample of 0. Population u64::MAX with samples [], [1] or [1, 1] runs in the source but is excluded here.
- AlgorithmsRs.AlgebraicallyOptimized: requires the denominator to fit in u64, for the same reason.
- AlgorithmsRs.AlgebraicallyOptimized: also requires population below u64::MAX, which `population - a + 1` and `population - sum + 1` need only for a sample of 0 or a sum of 0. Population u64::MAX with samples [1] is excluded although it runs.
- AlgorithmsRs.CompletelyOptimized: requires the denominator to fit in u64, for the same reason, and population below u64::MAX so that `population + 1` exists.
- AlgorithmsRs.CompletelyOptimizedAsWritten: requires the incremental products to fit in u64, and population below u64::MAX so that `population + 1` exists.
- AlgorithmsRs.IncrementalProducts: has the same u64 preconditions.
- The Rust `main` demo, algorithms.ts and config.py are not part of this model.
- Utils.GenerateSequence: the unbounded `while True` runs one round per supplied roll. Running out of rolls or picks is reported as Exhausted, not as a loop that goes on drawing.
- Utils.GenerateSequence: the random draws are oracle parameters whose ranges are preconditions (rolls in [0, 1), picks in [1, max_value]).
- generate_file_basename reads the clock and is not modelled.
- The bcolors constants are not modelled.
- Experiments.MaxValue: `population * index / trials_per_n` is exact division truncated toward zero. Float rounding of very large products is not modelled.
- Experiments.TrialContextFactory: a generator that raises is reported as None, not as an exception.
- Experiments.Trials: a generator that raises or needs more draws ends the enumeration (complete is false), rather than propagating an exception or running on.
- Experiments.ExecuteTrial: runtimes are parameters. timeit, the clock, and the traceback text of an error are not modelled; the error is recorded as the exception's kind.
- Experiments.RunSerial: the serial run executes each trial after trials() has enumerated them all, where the source interleaves generation and execution. The results are the same, in the same order.
- Experiments: the parallel run is not modelled. The order `imap_unordered` returns results in, the chunk size and the process pool are concurrency.
- Experiments: the progress bars are I/O and are not modelled.
- Cli: click's BadArgumentUsage message text is not modelled.
- Cli: `multiprocessing.cpu_count()` is a parameter.
- Cli: the benchmark's result dictionary, timestamps, JSON encoding and the xz-compressed file are I/O.
- AlgorithmsJava.Sort: `Arrays.sort` and Rust's `sort` are modelled by their contract, sorting by insertion in `Likelihood.SortedCopy`. Their algorithms are not modelled.

## Findings

| source | as written | input that shows it | evidently intended | confidence | as-written member | corrected member |
|---|---|---|---|---|---|---|
| algorithms/algorithms.rs:88 | the completely optimised loop iterates `samples`, so the `sorted_samples` built at lines 77-78 is never used | samples [3, 2, 1], population 10: numer 10886400 and denom 373248000 instead of 151200 and 648000, so 1 - 0.02916... instead of 1 - 0.2333... | `for a in &sorted_samples`, as in the Python and Java variants | not executed | AlgorithmsRs.CompletelyOptimizedAsWritten, AlgorithmsRs.UnsortedLoopDisagrees | AlgorithmsRs.CompletelyOptimized |
