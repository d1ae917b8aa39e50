/**
  The benchmarking experiment: which populations and trials it enumerates, in which order,
  how each trial's sequence cap is chosen, and what one executed trial records. The random
  draws of each trial's sequence and the measured runtimes are parameters; the timing itself,
  the progress bars and the process pool are not modelled.
 */
module Experiments {
  import opened Wrappers
  import opened Falling
  import opened Likelihood
  import opened Utils
  import AlgorithmsPy

  // ---------------------------------------------------------------- the algorithms

  datatype Algorithm = NotOptimized | AlgebraicallyOptimized | CompletelyOptimized

  /** The three variants, in the order every trial runs them. */
  const ALGORITHMS: seq<Algorithm> := [NotOptimized, AlgebraicallyOptimized, CompletelyOptimized]

  /** The `__name__` each variant is recorded under. */
  function Name(a: Algorithm): string
  {
    match a
    case NotOptimized => "likelihood_of_an_exclusive_relationship_not_optimized"
    case AlgebraicallyOptimized => "likelihood_of_an_exclusive_relationship_algebraically_optimized"
    case CompletelyOptimized => "likelihood_of_an_exclusive_relationship_completely_optimized"
  }

  /** What calling a variant on (sequence, population) yields. */
  function Evaluate(a: Algorithm, s: seq<int>, n: int): Outcome
  {
    match a
    case NotOptimized => NaiveLikelihood(s, n)
    case AlgebraicallyOptimized => AlgebraicLikelihood(s, n)
    case CompletelyOptimized => CompleteLikelihood(s, n)
  }

  /** Calls the variant. */
  method Run(a: Algorithm, s: seq<int>, n: int) returns (o: Outcome)
    ensures o == Evaluate(a, s, n)
  {
    match a
    case NotOptimized => o := AlgorithmsPy.NotOptimized(s, n);
    case AlgebraicallyOptimized => o := AlgorithmsPy.AlgebraicallyOptimized(s, n);
    case CompletelyOptimized => o := AlgorithmsPy.CompletelyOptimized(s, n);
  }

  /** On a nonempty sequence of samples at least 0 that fits in the population, all three variants return the algebraic value. */
  lemma VariantsAgreeOnValidInput(s: seq<int>, n: int)
    requires |s| > 0 && NonNegative(s) && Sum(s) <= n
    ensures AlgebraicLikelihood(s, n).Value?
    ensures forall k :: 0 <= k < |ALGORITHMS| ==> Evaluate(ALGORITHMS[k], s, n) == AlgebraicLikelihood(s, n)
  {
    NaiveAgreesWithAlgebraic(s, n);
    CompleteAgreesWithAlgebraic(s, n);
  }

  // ---------------------------------------------------------------- the experiment and its counts

  /** The experiment's settings; `populationRange` holds the two ends of the range of populations. */
  datatype Experiment = Experiment(
    trialsPerN: int,
    iterationsPerTrial: int,
    populationRange: (int, int),
    cores: int,
    ascending: bool)

  /** total_populations: the number of integers from the low end to the high end, and none for a reversed range. */
  function TotalPopulations(e: Experiment): (c: nat)
    ensures c == 0 <==> e.populationRange.1 < e.populationRange.0
    ensures c > 0 ==> e.populationRange.0 + c - 1 == e.populationRange.1
  {
    var c := e.populationRange.1 - e.populationRange.0 + 1;
    if c > 0 then c else 0
  }

  /**
    total_trials: trials_per_n for every population. A negative trials_per_n makes it negative
    although no trial is ever generated.
   */
  function TotalTrials(e: Experiment): (t: int)
    ensures e.trialsPerN >= 0 ==> t >= 0
    ensures t == 0 <==> TotalPopulations(e) == 0 || e.trialsPerN == 0
    ensures e.trialsPerN < 0 && TotalPopulations(e) > 0 ==> t < 0
  {
    TotalPopulations(e) * e.trialsPerN
  }

  /** total_algotrials: one algorithm trial per variant in each trial, three times total_trials. */
  function TotalAlgotrials(e: Experiment): (a: int)
    ensures a == 3 * TotalTrials(e)
  {
    |ALGORITHMS| * TotalTrials(e)
  }

  /** The range [10, 12] with 5 trials per population: 3 populations, 15 trials and 45 algorithm trials. */
  lemma AccountingExample(iterations: int, cores: int, ascending: bool)
    ensures var e := Experiment(5, iterations, (10, 12), cores, ascending);
      TotalPopulations(e) == 3 && TotalTrials(e) == 15 && TotalAlgotrials(e) == 45
  {
  }

  /** The k-th population visited: counting up from the low end, or down from the high end. */
  function Population(e: Experiment, k: int): int
  {
    if e.ascending then e.populationRange.0 + k else e.populationRange.1 - k
  }

  /**
    _generate_populations: the range low ..= high, upwards when ascending and downwards
    otherwise. Every population of the range is visited exactly once, so there are
    TotalPopulations of them.
   */
  method GeneratePopulations(e: Experiment) returns (ns: seq<int>)
    ensures |ns| == TotalPopulations(e)
    ensures forall k :: 0 <= k < |ns| ==> ns[k] == Population(e, k)
    ensures forall p :: p in ns <==> e.populationRange.0 <= p <= e.populationRange.1
    ensures forall i, j :: 0 <= i < j < |ns| ==> ns[i] != ns[j]
  {
    var low, high := e.populationRange.0, e.populationRange.1;
    ns := [];
    var n := if e.ascending then low else high;
    while if e.ascending then n <= high else n >= low
      invariant |ns| <= TotalPopulations(e)
      invariant n == Population(e, |ns|)
      invariant forall k :: 0 <= k < |ns| ==> ns[k] == Population(e, k)
      decreases if e.ascending then high - n else n - low
    {
      ns := ns + [n];
      n := if e.ascending then n + 1 else n - 1;
    }
    forall p | low <= p <= high
      ensures p in ns
    {
      var k := if e.ascending then p - low else high - p;
      assert ns[k] == p;
    }
  }

  // ---------------------------------------------------------------- trial contexts

  /** Python's `int(a / b)` on exact values: the quotient truncated toward zero. */
  function TruncQuotient(a: int, b: int): int
    requires b != 0
  {
    var q := (if a >= 0 then a else -a) / (if b > 0 then b else -b);
    if (a >= 0) == (b > 0) then q else -q
  }

  /** The sequence cap of a trial: int(population * index / trials_per_n), raised to 2 when it is at most 1. */
  function MaxValue(e: Experiment, index: int, population: int): int
    requires e.trialsPerN != 0
  {
    var m := TruncQuotient(population * index, e.trialsPerN);
    if m <= 1 then 2 else m
  }

  /**
    The cap is at least 2; above 2 it is the floor of population * index / trials_per_n; and for a
    population of at least 2 and an index in 1 ..= trials_per_n it never exceeds the population.
   */
  lemma MaxValueBounds(e: Experiment, index: int, population: int)
    requires e.trialsPerN != 0
    ensures MaxValue(e, index, population) >= 2
    ensures var m, t := MaxValue(e, index, population), e.trialsPerN;
      t > 0 && population * index >= 0 && m > 2 ==> m * t <= population * index < (m + 1) * t
    ensures 0 < index <= e.trialsPerN && 2 <= population ==> MaxValue(e, index, population) <= population
  {
    var t, a := e.trialsPerN, population * index;
    if t > 0 && a >= 0 {
      var q := a / t;
      assert q == TruncQuotient(a, t);
      assert q * t <= a < (q + 1) * t;
      if 0 < index <= t && 2 <= population {
        MulMono(population, index, population, t);
        if q > population {
          MulMono(population + 1, t, q, t);
        }
      }
    }
  }

  /** The random draws that generate_sequence makes for one trial. */
  datatype Draws = Draws(rolls: seq<real>, picks: seq<int>)

  /** Rolls lie in [0, 1) and picks in [1, max_value], as `random.uniform` and `random.randint` promise. */
  predicate ValidDraws(d: Draws, maxValue: int)
  {
    && (forall k :: 0 <= k < |d.rolls| ==> 0.0 <= d.rolls[k] < 1.0)
    && (forall k :: 0 <= k < |d.picks| ==> 1 <= d.picks[k] <= maxValue)
  }

  datatype TrialContext = TrialContext(
    index: int,
    iterationsPerTrial: int,
    population: int,
    sequence: seq<int>,
    trialsPerN: int)

  /** A sequence the generator can return for a population under a cap. */
  predicate Generable(s: seq<int>, population: int, maxValue: int)
  {
    2 <= |s| && InRange(s, maxValue) && Sum(s) < population
  }

  /**
    trial_context_factory: the context echoes index, population and the experiment's settings,
    and its sequence is what generate_sequence(population, max_value) returns. None stands for
    a generator that raised or needed more draws than given.
   */
  method TrialContextFactory(e: Experiment, index: int, population: int, draws: Draws) returns (ctx: Option<TrialContext>)
    requires e.trialsPerN != 0 && ValidDraws(draws, MaxValue(e, index, population))
    ensures ctx.Some? ==> ctx.value.index == index && ctx.value.population == population
    ensures ctx.Some? ==> ctx.value.iterationsPerTrial == e.iterationsPerTrial && ctx.value.trialsPerN == e.trialsPerN
    ensures ctx.Some? ==> Generable(ctx.value.sequence, population, MaxValue(e, index, population))
  {
    var maxValue := MaxValue(e, index, population);
    var generated := GenerateSequence(population, maxValue, draws.rolls, draws.picks);
    if generated.Generated? {
      ctx := Some(TrialContext(index, e.iterationsPerTrial, population, generated.values, e.trialsPerN));
    } else {
      ctx := None;
    }
  }

  /** A generated sequence is a valid input of every variant: at least one sample, each at least 0, summing within the population. */
  lemma GenerableIsValidInput(s: seq<int>, population: int, maxValue: int)
    requires Generable(s, population, maxValue)
    ensures |s| > 0 && NonNegative(s) && Sum(s) <= population
  {
  }

  /** The t-th trial splits into its population's position and its index within that population. */
  lemma TrialPosition(p: int, t: int, i: int)
    requires t > 0 && p >= 0 && 0 <= i < t
    ensures (p * t + i) / t == p && (p * t + i) % t == i
  {
    var q, r := (p * t + i) / t, (p * t + i) % t;
    assert (q - p) * t == i - r;
    if q > p {
      MulMono(1, t, q - p, t);
    } else if q < p {
      MulMono(1, t, p - q, t);
    }
  }

  /**
    Trial t of an enumeration belongs to the (t / trials_per_n)-th population visited, carries
    index t % trials_per_n + 1 and the experiment's iteration count, and holds a sequence the
    generator can return under that trial's cap.
   */
  predicate Enumerated(e: Experiment, contexts: seq<TrialContext>)
  {
    forall t :: 0 <= t < |contexts| ==>
      && e.trialsPerN > 0
      && contexts[t].population == Population(e, t / e.trialsPerN)
      && contexts[t].index == t % e.trialsPerN + 1
      && contexts[t].iterationsPerTrial == e.iterationsPerTrial
      && Generable(contexts[t].sequence, contexts[t].population, MaxValue(e, contexts[t].index, contexts[t].population))
  }

  /**
    trials(): for every population in the order _generate_populations visits them, trials_per_n
    contexts with indices 1 ..= trials_per_n. Trial t draws from draws[t]; the enumeration stops
    early (complete is false) when a generator raises or needs more draws than given. A complete
    run has max(trials_per_n, 0) trials per population, which is TotalTrials when trials_per_n >= 0.
   */
  method Trials(e: Experiment, draws: seq<Draws>) returns (contexts: seq<TrialContext>, complete: bool)
    requires e.trialsPerN > 0 ==> forall t :: 0 <= t < |draws| ==>
      ValidDraws(draws[t], MaxValue(e, t % e.trialsPerN + 1, Population(e, t / e.trialsPerN)))
    ensures complete ==> |contexts| == TotalPopulations(e) * (if e.trialsPerN > 0 then e.trialsPerN else 0)
    ensures complete && e.trialsPerN >= 0 ==> |contexts| == TotalTrials(e)
    ensures Enumerated(e, contexts)
  {
    var populations := GeneratePopulations(e);
    var perN := if e.trialsPerN > 0 then e.trialsPerN else 0;
    contexts := [];
    var p := 0;
    while p < |populations|
      invariant 0 <= p <= |populations|
      invariant |contexts| == p * perN
      invariant Enumerated(e, contexts)
    {
      var i := 0;
      while i < e.trialsPerN
        invariant 0 <= i <= perN
        invariant |contexts| == p * perN + i
        invariant Enumerated(e, contexts)
      {
        var t := |contexts|;
        if t >= |draws| {
          return contexts, false;
        }
        TrialPosition(p, e.trialsPerN, i);
        var ctx := TrialContextFactory(e, i + 1, populations[p], draws[t]);
        if ctx.None? {
          return contexts, false;
        }
        contexts := contexts + [ctx.value];
        i := i + 1;
      }
      assert |contexts| == (p + 1) * perN;
      p := p + 1;
    }
    complete := true;
  }

  // ---------------------------------------------------------------- running

  datatype Mode = Serial | Parallel

  /** run(): the serial path for 0 or 1 cores, the process pool otherwise. */
  function RunMode(e: Experiment): (m: Mode)
    ensures m == Serial <==> e.cores == 0 || e.cores == 1
  {
    if e.cores in {0, 1} then Serial else Parallel
  }

  /** One variant's record: its name, its total runtime, its last result, or the error it raised. */
  datatype AlgorithmResult = AlgorithmResult(
    algorithm: string,
    runtime: Option<real>,
    result: Option<real>,
    error: Option<PyError>)

  datatype TrialResult = TrialResult(
    population: int,
    sequence: seq<int>,
    index: int,
    iterations: int,
    results: seq<AlgorithmResult>)

  /**
    execute_trial: echoes the context, then runs every variant iterations_per_trial times in
    ALGORITHMS order and appends one record each. A variant that raises gets no runtime and no
    result but the error, and the later variants still run. With no iteration the statement never
    runs, so the record has a runtime and no result. `runtimes` are the measured times.
   */
  method ExecuteTrial(context: TrialContext, runtimes: seq<real>) returns (tr: TrialResult)
    requires |runtimes| == |ALGORITHMS|
    ensures tr.population == context.population && tr.sequence == context.sequence
    ensures tr.index == context.index && tr.iterations == context.iterationsPerTrial
    ensures |tr.results| == |ALGORITHMS|
    ensures forall k :: 0 <= k < |ALGORITHMS| ==>
      tr.results[k] == Record(ALGORITHMS[k], context.sequence, context.population, context.iterationsPerTrial, runtimes[k])
  {
    var s, n := context.sequence, context.population;
    var results: seq<AlgorithmResult> := [];
    var k := 0;
    while k < |ALGORITHMS|
      invariant 0 <= k <= |ALGORITHMS| && |results| == k
      invariant forall j :: 0 <= j < k ==> results[j] == Record(ALGORITHMS[j], s, n, context.iterationsPerTrial, runtimes[j])
    {
      var algorithm := ALGORITHMS[k];
      var entry: AlgorithmResult;
      if context.iterationsPerTrial > 0 {
        var o := Run(algorithm, s, n);
        if o.Raised? {
          entry := AlgorithmResult(Name(algorithm), None, None, Some(o.error));
        } else {
          entry := AlgorithmResult(Name(algorithm), Some(runtimes[k]), Some(o.p), None);
        }
      } else {
        entry := AlgorithmResult(Name(algorithm), Some(runtimes[k]), None, None);
      }
      assert entry == Record(algorithm, s, n, context.iterationsPerTrial, runtimes[k]);
      results := results + [entry];
      k := k + 1;
    }
    tr := TrialResult(n, s, context.index, context.iterationsPerTrial, results);
  }

  /** The record one variant leaves in a trial's results. */
  function Record(a: Algorithm, s: seq<int>, n: int, iterations: int, runtime: real): AlgorithmResult
  {
    if iterations <= 0 then AlgorithmResult(Name(a), Some(runtime), None, None)
    else
      match Evaluate(a, s, n)
      case Raised(e) => AlgorithmResult(Name(a), None, None, Some(e))
      case Value(p) => AlgorithmResult(Name(a), Some(runtime), Some(p), None)
  }

  /**
    A record names its variant; it holds an error exactly when the variant ran and raised, and
    then neither runtime nor result; otherwise it holds the measured runtime, and a result exactly
    when the variant ran, which is the variant's value.
   */
  lemma RecordMeaning(a: Algorithm, s: seq<int>, n: int, iterations: int, runtime: real)
    ensures var o, r := Evaluate(a, s, n), Record(a, s, n, iterations, runtime);
      && r.algorithm == Name(a)
      && (r.error.Some? <==> iterations > 0 && o.Raised?)
      && (r.error.Some? ==> r.runtime.None? && r.result.None? && r.error.value == o.error)
      && (r.error.None? ==> r.runtime == Some(runtime))
      && (r.result.Some? <==> iterations > 0 && o.Value?)
      && (r.result.Some? ==> o == Value(r.result.value))
  {
  }

  /**
    Every trial the experiment generates records the same result for all three variants, with
    no error: the generated sequence is a valid input, on which the variants agree.
   */
  lemma GeneratedTrialsAgree(context: TrialContext, tr: TrialResult, maxValue: int, runtimes: seq<real>)
    requires Generable(context.sequence, context.population, maxValue) && context.iterationsPerTrial > 0
    requires |runtimes| == |ALGORITHMS| && |tr.results| == |ALGORITHMS|
    requires forall k :: 0 <= k < |ALGORITHMS| ==>
      tr.results[k] == Record(ALGORITHMS[k], context.sequence, context.population, context.iterationsPerTrial, runtimes[k])
    ensures AlgebraicLikelihood(context.sequence, context.population).Value?
    ensures forall k :: 0 <= k < |ALGORITHMS| ==>
      tr.results[k].error.None? && tr.results[k].result == Some(AlgebraicLikelihood(context.sequence, context.population).p)
  {
    GenerableIsValidInput(context.sequence, context.population, maxValue);
    VariantsAgreeOnValidInput(context.sequence, context.population);
  }

  /** A trial's result holds one record per variant, and when the trial iterates each is the algebraic value without error. */
  predicate Agreeing(tr: TrialResult)
  {
    && |tr.results| == |ALGORITHMS|
    && (tr.iterations > 0 ==> forall k :: 0 <= k < |ALGORITHMS| ==>
          && tr.results[k].error.None? && tr.results[k].result.Some?
          && AlgebraicLikelihood(tr.sequence, tr.population) == Value(tr.results[k].result.value))
  }

  /**
    Result t of a run belongs to the (t / trials_per_n)-th population visited and carries index
    t % trials_per_n + 1 and the experiment's iteration count; all its variants agree.
   */
  predicate Ran(e: Experiment, results: seq<TrialResult>)
  {
    forall t :: 0 <= t < |results| ==>
      && e.trialsPerN > 0
      && results[t].population == Population(e, t / e.trialsPerN)
      && results[t].index == t % e.trialsPerN + 1
      && results[t].iterations == e.iterationsPerTrial
      && Agreeing(results[t])
  }

  /**
    serial(): execute_trial on every trial, in the order trials() produces them; runtimes[t] holds
    the measured times of trial t. A complete run records TotalAlgotrials results when
    trials_per_n >= 0, and every trial that iterates records the algebraic value for all variants.
   */
  method RunSerial(e: Experiment, draws: seq<Draws>, runtimes: seq<seq<real>>) returns (results: seq<TrialResult>, complete: bool)
    requires e.trialsPerN > 0 ==> forall t :: 0 <= t < |draws| ==>
      ValidDraws(draws[t], MaxValue(e, t % e.trialsPerN + 1, Population(e, t / e.trialsPerN)))
    requires forall t :: 0 <= t < |runtimes| ==> |runtimes[t]| == |ALGORITHMS|
    ensures complete ==> |results| == TotalPopulations(e) * (if e.trialsPerN > 0 then e.trialsPerN else 0)
    ensures complete && e.trialsPerN >= 0 ==> |ALGORITHMS| * |results| == TotalAlgotrials(e)
    ensures Ran(e, results)
  {
    var contexts, generated := Trials(e, draws);
    results := [];
    var t := 0;
    while t < |contexts| && t < |runtimes|
      invariant 0 <= t <= |contexts| && |results| == t
      invariant Ran(e, results)
    {
      var context := contexts[t];
      assert context.population == Population(e, t / e.trialsPerN) && context.index == t % e.trialsPerN + 1;
      var tr := ExecuteTrial(context, runtimes[t]);
      if context.iterationsPerTrial > 0 {
        GeneratedTrialsAgree(context, tr, MaxValue(e, context.index, context.population), runtimes[t]);
      }
      results := results + [tr];
      t := t + 1;
    }
    complete := generated && t == |contexts|;
  }
}
