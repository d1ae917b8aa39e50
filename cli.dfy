/**
  The command-line entry point's option callbacks: the validation of the number of cores and
  of the range of populations before an experiment is built from them.
 */
module Cli {
  import opened Wrappers
  import opened Experiments

  /** click's BadArgumentUsage; its message text is not modelled. */
  datatype CliError = BadArgumentUsage

  /**
    cores_input_callback: 0 means one core, a negative count means every CPU, and a count above
    the CPU count is refused. `cpuCount` is what `multiprocessing.cpu_count()` reports.
   */
  function CoresInputCallback(value: int, cpuCount: int): Result<int, CliError>
  {
    if value == 0 then Ok(1)
    else if value < 0 then Ok(cpuCount)
    else if value > cpuCount then Err(BadArgumentUsage)
    else Ok(value)
  }

  /**
    A machine with at least one CPU accepts every count up to its CPU count and refuses the rest;
    an accepted count is kept as given when positive and always lies in [1, cpu_count].
   */
  lemma CoresAccepted(value: int, cpuCount: int)
    requires cpuCount >= 1
    ensures CoresInputCallback(value, cpuCount).Err? <==> value > cpuCount
    ensures var r := CoresInputCallback(value, cpuCount);
      r.Ok? ==> 1 <= r.value <= cpuCount && (value > 0 ==> r.value == value)
  {
  }

  /** Validating a validated count changes nothing. */
  lemma CoresIdempotent(value: int, cpuCount: int)
    requires cpuCount >= 1
    ensures var r := CoresInputCallback(value, cpuCount);
      r.Ok? ==> CoresInputCallback(r.value, cpuCount) == r
  {
  }

  /** An experiment built with validated cores runs serially exactly when it was given one core. */
  lemma ValidatedCoresMode(e: Experiment, value: int, cpuCount: int)
    requires cpuCount >= 1
    requires CoresInputCallback(value, cpuCount) == Ok(e.cores)
    ensures RunMode(e) == Serial <==> e.cores == 1
    ensures value == 0 ==> RunMode(e) == Serial
  {
  }

  /**
    range_input_callback: the two ends are put in order, and a range with an end below 2 is
    refused.
   */
  function RangeInputCallback(value: (int, int)): Result<(int, int), CliError>
  {
    var v := if value.0 > value.1 then (value.1, value.0) else value;
    if v.0 < 2 || v.1 < 2 then Err(BadArgumentUsage) else Ok(v)
  }

  /**
    A range is accepted exactly when both ends are at least 2; the result holds the same two ends,
    the smaller first.
   */
  lemma RangeAccepted(value: (int, int))
    ensures RangeInputCallback(value).Ok? <==> value.0 >= 2 && value.1 >= 2
    ensures var r := RangeInputCallback(value);
      r.Ok? ==> 2 <= r.value.0 <= r.value.1 && multiset{r.value.0, r.value.1} == multiset{value.0, value.1}
  {
  }

  /** The order in which the ends are given does not matter, and an accepted range is validated again unchanged. */
  lemma RangeSymmetricIdempotent(a: int, b: int)
    ensures RangeInputCallback((a, b)) == RangeInputCallback((b, a))
    ensures var r := RangeInputCallback((a, b));
      r.Ok? ==> RangeInputCallback(r.value) == r
  {
  }

  /**
    An experiment over a validated range visits every population from the smaller end to the
    larger one and nothing else, which is at least one population.
   */
  lemma ValidatedRangePopulations(e: Experiment, value: (int, int))
    requires RangeInputCallback(value) == Ok(e.populationRange)
    ensures TotalPopulations(e) == e.populationRange.1 - e.populationRange.0 + 1 >= 1
    ensures forall k :: 0 <= k < TotalPopulations(e) ==> 2 <= Population(e, k)
  {
  }

  /**
    The benchmark command builds its experiment from the validated options, putting the range's
    ends in order once more. The `--ascending` flag is False unless given, so populations are
    visited downwards by default.
   */
  function BenchmarkExperiment(trials: int, rng: (int, int), iterations: int, cores: int, ascending: bool): Experiment
  {
    var r := if rng.0 > rng.1 then (rng.1, rng.0) else rng;
    Experiment(trials, iterations, r, cores, ascending)
  }

  /**
    After range_input_callback the second ordering is a no-op: the experiment covers exactly the
    validated range, whose populations are all at least 2.
   */
  lemma BenchmarkKeepsValidatedRange(trials: int, value: (int, int), iterations: int, cores: int, ascending: bool)
    requires RangeInputCallback(value).Ok?
    ensures var e := BenchmarkExperiment(trials, RangeInputCallback(value).value, iterations, cores, ascending);
      && e.populationRange == RangeInputCallback(value).value
      && 2 <= e.populationRange.0 <= e.populationRange.1
      && e.trialsPerN == trials && e.iterationsPerTrial == iterations && e.cores == cores && e.ascending == ascending
  {
  }
}
