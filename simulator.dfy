/**
 * The simulation: a population of politicians' ages, the public support
 * index (PSI) and the year counter, advanced year by year. The generator's
 * draws are supplied by the caller as a RandomSource.
 */
module Simulator {
  import opened Config
  import opened Population
  import opened Distribution

  /**
   * The generator's draws for a whole run:
   *  - influx(y): year y's influx count (the normal draw, truncated to an integer);
   *  - swapDraw(y, k): the position, in [0, k], that step k of year y's shuffle swaps with;
   *  - lifespan(y, k): the life-expectancy threshold drawn for the agent at position k
   *    after year y's shuffle, rounded down (for an integer age, exceeding a real
   *    threshold and exceeding its floor are the same).
   */
  datatype RandomSource = RandomSource(influx: nat -> int, swapDraw: (nat, nat) -> nat, lifespan: (nat, nat) -> int)

  /** A uniform draw in [0, k] never exceeds k. */
  ghost predicate WellFormed(src: RandomSource) {
    forall y: nat, k: nat :: src.swapDraw(y, k) <= k
  }

  function SwapDraws(src: RandomSource, y: nat, n: nat): (draws: seq<nat>)
    requires WellFormed(src)
    ensures ValidSwapDraws(draws, n)
  {
    seq(n, k requires 0 <= k => src.swapDraw(y, k))
  }

  function Lifespans(src: RandomSource, y: nat, n: nat): (thresholds: seq<int>)
    ensures |thresholds| == n
  {
    seq(n, k requires 0 <= k => src.lifespan(y, k))
  }

  /** The starting population: the four cohorts at their tiers' minimum ages, in this order. */
  function InitialRoster(): seq<int> {
    Cohort(QuaestorsPerYear, MinAgeQuaestor) + Cohort(AedilesPerYear, MinAgeAedile)
      + Cohort(PraetorsPerYear, MinAgePraetor) + Cohort(ConsulsPerYear, MinAgeConsul)
  }

  /** What one year does to the population: shuffle, then age, then cull. */
  function YearStep(ages: seq<int>, draws: seq<nat>, thresholds: seq<int>): seq<int>
    requires ValidSwapDraws(draws, |ages|) && |thresholds| == |ages|
  {
    Survivors(Aged(Shuffled(ages, draws)), thresholds)
  }

  /** Iteration y of the run loop: the year's influx, then one year. */
  function RunYear(ages: seq<int>, src: RandomSource, y: nat): seq<int>
    requires WellFormed(src)
  {
    var admitted := ages + Entrants(src.influx(y));
    YearStep(admitted, SwapDraws(src, y, |admitted|), Lifespans(src, y, |admitted|))
  }

  /** The population after the first `years` iterations of the run loop. */
  function History(start: seq<int>, src: RandomSource, years: nat): seq<int>
    requires WellFormed(src)
    decreases years
  {
    if years == 0 then start else RunYear(History(start, src, years - 1), src, years - 1)
  }

  class Simulation {
    var psi: int
    var year: int
    var politicians: seq<int>

    ghost predicate Valid()
      reads this
    {
      AllEligible(politicians)
    }

    /** 20 politicians at 30, then 10 at 36, 8 at 39 and 2 at 42; PSI 100, year 0. */
    constructor ()
      ensures Valid()
      ensures politicians == InitialRoster()
      ensures |politicians| == 40
      ensures forall k :: 0 <= k < 20 ==> politicians[k] == 30
      ensures forall k :: 20 <= k < 30 ==> politicians[k] == 36
      ensures forall k :: 30 <= k < 38 ==> politicians[k] == 39
      ensures forall k :: 38 <= k < 40 ==> politicians[k] == 42
      ensures psi == 100 && year == 0
    {
      var roster: seq<int> := [];
      for i := 0 to QuaestorsPerYear
        invariant roster == Cohort(i, MinAgeQuaestor)
      {
        CohortGrow(i, MinAgeQuaestor);
        roster := roster + [MinAgeQuaestor];
      }
      ghost var done := roster;
      for i := 0 to AedilesPerYear
        invariant roster == done + Cohort(i, MinAgeAedile)
      {
        CohortGrow(i, MinAgeAedile);
        roster := roster + [MinAgeAedile];
      }
      done := roster;
      for i := 0 to PraetorsPerYear
        invariant roster == done + Cohort(i, MinAgePraetor)
      {
        CohortGrow(i, MinAgePraetor);
        roster := roster + [MinAgePraetor];
      }
      done := roster;
      for i := 0 to ConsulsPerYear
        invariant roster == done + Cohort(i, MinAgeConsul)
      {
        CohortGrow(i, MinAgeConsul);
        roster := roster + [MinAgeConsul];
      }
      InitialRosterShape();
      psi := StartingPsi;
      year := 0;
      politicians := roster;
    }

    /** The influx loop of a run year: `influx` entrants at the entry age; none if it is not positive. */
    method Admit(influx: int)
      requires Valid()
      modifies this`politicians
      ensures Valid()
      ensures politicians == old(politicians) + Entrants(influx)
    {
      ghost var start := politicians;
      var i := 0;
      while i < influx
        invariant 0 <= i <= (if influx > 0 then influx else 0)
        invariant politicians == start + Cohort(i, MinAgeQuaestor)
      {
        CohortGrow(i, MinAgeQuaestor);
        politicians := politicians + [MinAgeQuaestor];
        i := i + 1;
      }
      CohortWithin(i, MinAgeQuaestor);
    }

    /** Randomizes the order: step k swaps positions k and draws[k]. */
    method Shuffle(draws: seq<nat>)
      requires ValidSwapDraws(draws, |politicians|)
      modifies this`politicians
      ensures politicians == Shuffled(old(politicians), draws)
    {
      ghost var start := politicians;
      var n := |politicians|;
      for i := 0 to n
        invariant |politicians| == n
        invariant politicians == ShuffleSteps(start, draws, i)
      {
        var j := draws[i];
        var t := politicians[i];
        politicians := politicians[i := politicians[j]];
        politicians := politicians[j := t];
      }
    }

    /** Every politician turns one year older, in place. */
    method AgeAll()
      modifies this`politicians
      ensures politicians == Aged(old(politicians))
    {
      ghost var start := politicians;
      var n := |politicians|;
      for i := 0 to n
        invariant |politicians| == n
        invariant forall k :: 0 <= k < i ==> politicians[k] == start[k] + 1
        invariant forall k :: i <= k < n ==> politicians[k] == start[k]
      {
        politicians := politicians[i := politicians[i] + 1];
      }
    }

    /**
     * Removes every politician whose age exceeds its own threshold, compacting
     * the survivors to the front in their order and then erasing the rest.
     */
    method Cull(thresholds: seq<int>)
      requires |thresholds| == |politicians|
      modifies this`politicians
      ensures politicians == Survivors(old(politicians), thresholds)
    {
      ghost var start := politicians;
      var n := |politicians|;
      var kept := 0;
      for i := 0 to n
        invariant |politicians| == n && kept <= i
        invariant politicians[..kept] == Survivors(start[..i], thresholds[..i])
        invariant forall k :: i <= k < n ==> politicians[k] == start[k]
      {
        assert start[..i + 1][..i] == start[..i] && thresholds[..i + 1][..i] == thresholds[..i];
        assert politicians[i] == start[i];
        if !(politicians[i] > thresholds[i]) {
          politicians := politicians[kept := politicians[i]];
          kept := kept + 1;
        }
      }
      assert start[..n] == start && thresholds[..n] == thresholds;
      politicians := politicians[..kept];
    }

    /**
     * One simulated year: shuffle, age, cull, then the PSI update. Every PSI
     * term multiplies a penalty by a quota minus itself, so PSI never moves.
     */
    method SimulateYear(draws: seq<nat>, thresholds: seq<int>)
      requires Valid()
      requires ValidSwapDraws(draws, |politicians|) && |thresholds| == |politicians|
      modifies this
      ensures Valid()
      ensures politicians == YearStep(old(politicians), draws, thresholds)
      ensures psi == old(psi) && year == old(year)
    {
      ghost var start := politicians;
      Shuffle(draws);
      AgeAll();
      Cull(thresholds);
      YearStepKeepsEligible(start, draws, thresholds);

      psi := psi + UnfilledPositionPenalty * (QuaestorsPerYear - QuaestorsPerYear) +
        UnfilledPositionPenalty * (AedilesPerYear - AedilesPerYear) +
        UnfilledPositionPenalty * (PraetorsPerYear - PraetorsPerYear) +
        UnfilledPositionPenalty * (ConsulsPerYear - ConsulsPerYear);

      // Euclidean and truncating remainders agree on being zero
      if year % YearsBetweenConsulReelection == 0 {
        psi := psi + ConsecutiveConsulReelectionPenalty * (ConsulsPerYear - ConsulsPerYear);
      }
    }

    /** The run loop: for each year 0 .. 199, the influx, then one simulated year. */
    method Run(src: RandomSource)
      requires Valid() && WellFormed(src)
      modifies this
      ensures Valid()
      ensures politicians == History(old(politicians), src, TotalYears)
      ensures psi == old(psi) && year == TotalYears
    {
      ghost var start := politicians;
      year := 0;
      while year < TotalYears
        invariant 0 <= year <= TotalYears
        invariant Valid() && psi == old(psi)
        invariant politicians == History(start, src, year)
      {
        ghost var before := politicians;
        Admit(src.influx(year));
        ghost var admitted := politicians;
        SimulateYear(SwapDraws(src, year, |politicians|), Lifespans(src, year, |politicians|));
        assert politicians == RunYear(before, src, year);
        year := year + 1;
      }
    }

    /** The report's counts and age totals per tier, from the current population. */
    method CalculateAgeDistribution() returns (d: AgeDistribution)
      ensures d == DistributionOf(politicians)
    {
      var quaestors, aediles, praetors, consuls := Bucketize(politicians);
      var quaestorSummary := CalculateSummary(quaestors);
      var aedileSummary := CalculateSummary(aediles);
      var praetorSummary := CalculateSummary(praetors);
      var consulSummary := CalculateSummary(consuls);
      d := AgeDistribution(quaestorSummary, aedileSummary, praetorSummary, consulSummary);
    }
  }

  /**
   * The whole program without its output: build the simulation, run it, read
   * the final PSI and the age distribution.
   */
  method SimulateProgram(src: RandomSource) returns (finalPsi: int, report: AgeDistribution)
    requires WellFormed(src)
    ensures finalPsi == StartingPsi
    ensures report == DistributionOf(History(InitialRoster(), src, TotalYears))
  {
    var simulation := new Simulation();
    simulation.Run(src);
    finalPsi := simulation.psi;
    report := simulation.CalculateAgeDistribution();
  }

  lemma InitialRosterShape()
    ensures |InitialRoster()| == 40
    ensures forall k :: 0 <= k < 20 ==> InitialRoster()[k] == 30
    ensures forall k :: 20 <= k < 30 ==> InitialRoster()[k] == 36
    ensures forall k :: 30 <= k < 38 ==> InitialRoster()[k] == 39
    ensures forall k :: 38 <= k < 40 ==> InitialRoster()[k] == 42
    ensures WithinAges(InitialRoster(), MinAgeQuaestor, MinAgeConsul)
  {
  }

  /** Every age after a year is an age from before it, plus one. */
  lemma YearStepMembers(ages: seq<int>, draws: seq<nat>, thresholds: seq<int>)
    requires ValidSwapDraws(draws, |ages|) && |thresholds| == |ages|
    ensures forall x :: x in YearStep(ages, draws, thresholds) ==> x - 1 in ages
  {
    var shuffled := Shuffled(ages, draws);
    ShufflePermutes(ages, draws);
    assert forall x :: x in shuffled ==> x in multiset(ages);
    AgedMembers(shuffled);
    SurvivorsFrom(Aged(shuffled), thresholds);
  }

  /** The population invariant survives a year: aging only raises ages and culling only removes. */
  lemma YearStepKeepsEligible(ages: seq<int>, draws: seq<nat>, thresholds: seq<int>)
    requires ValidSwapDraws(draws, |ages|) && |thresholds| == |ages|
    requires AllEligible(ages)
    ensures AllEligible(YearStep(ages, draws, thresholds))
  {
    YearStepMembers(ages, draws, thresholds);
  }

  /** One iteration of the run loop raises the upper age bound by at most one and keeps the lower one. */
  lemma RunYearWithin(ages: seq<int>, src: RandomSource, y: nat, hi: int)
    requires WellFormed(src) && WithinAges(ages, MinAgeQuaestor, hi) && MinAgeQuaestor <= hi
    ensures WithinAges(RunYear(ages, src, y), MinAgeQuaestor, hi + 1)
  {
    InfluxAppends(ages, src.influx(y), hi);
    var admitted := ages + Entrants(src.influx(y));
    YearStepMembers(admitted, SwapDraws(src, y, |admitted|), Lifespans(src, y, |admitted|));
  }

  /** Over a run from a roster aged 30 to 42, after y years every age lies in [30, 42 + y]: at most 242, well inside a 32-bit int. */
  lemma {:induction false} HistoryWithinAges(start: seq<int>, src: RandomSource, years: nat)
    requires WellFormed(src) && WithinAges(start, MinAgeQuaestor, MinAgeConsul)
    ensures WithinAges(History(start, src, years), MinAgeQuaestor, MinAgeConsul + years)
    decreases years
  {
    if years > 0 {
      HistoryWithinAges(start, src, years - 1);
      RunYearWithin(History(start, src, years - 1), src, years - 1, MinAgeConsul + years - 1);
    }
  }

  /** When nobody's threshold is reached a year only ages everybody, in some order. */
  lemma YearStepNoDeaths(ages: seq<int>, draws: seq<nat>, thresholds: seq<int>, hi: int)
    requires ValidSwapDraws(draws, |ages|) && |thresholds| == |ages|
    requires forall x :: x in ages ==> x <= hi
    requires forall k :: 0 <= k < |thresholds| ==> thresholds[k] > hi
    ensures |YearStep(ages, draws, thresholds)| == |ages|
    ensures multiset(YearStep(ages, draws, thresholds)) == multiset(Aged(ages))
  {
    var shuffled := Shuffled(ages, draws);
    ShufflePermutes(ages, draws);
    forall k | 0 <= k < |shuffled| ensures Aged(shuffled)[k] <= thresholds[k] {
      assert shuffled[k] in multiset(ages);
      assert shuffled[k] in ages;
      assert Aged(shuffled)[k] == shuffled[k] + 1;
    }
    SurvivorsAll(Aged(shuffled), thresholds);
    AgingCommutesWithShuffle(ages, draws, |ages|);
    ShufflePermutes(Aged(ages), draws);
  }

  /** When every threshold is at most the entry age everybody dies, entrants included. */
  lemma YearStepAllDie(ages: seq<int>, draws: seq<nat>, thresholds: seq<int>)
    requires ValidSwapDraws(draws, |ages|) && |thresholds| == |ages|
    requires AllEligible(ages)
    requires forall k :: 0 <= k < |thresholds| ==> thresholds[k] <= MinAgeQuaestor
    ensures YearStep(ages, draws, thresholds) == []
  {
    var shuffled := Shuffled(ages, draws);
    ShufflePermutes(ages, draws);
    forall k | 0 <= k < |shuffled| ensures Aged(shuffled)[k] > thresholds[k] {
      assert shuffled[k] in multiset(ages);
      assert shuffled[k] in ages;
      assert Aged(shuffled)[k] == shuffled[k] + 1;
    }
    SurvivorsNone(Aged(shuffled), thresholds);
  }

  /**
   * One year from the starting roster with no influx and nobody's threshold
   * reached: still 40 politicians, 20 at 31, 10 at 37, 8 at 40 and 2 at 43.
   */
  lemma FirstYearWithoutDeaths(src: RandomSource)
    requires WellFormed(src) && src.influx(0) == 0
    requires forall k: nat :: src.lifespan(0, k) > MinAgeConsul
    ensures |History(InitialRoster(), src, 1)| == 40
    ensures multiset(History(InitialRoster(), src, 1))
         == multiset(Cohort(20, 31) + Cohort(10, 37) + Cohort(8, 40) + Cohort(2, 43))
  {
    var roster := InitialRoster();
    assert Entrants(src.influx(0)) == [];
    assert roster + Entrants(src.influx(0)) == roster;
    assert History(InitialRoster(), src, 0) == roster;
    InitialRosterShape();
    YearStepNoDeaths(roster, SwapDraws(src, 0, 40), Lifespans(src, 0, 40), MinAgeConsul);
    AgedAppend(Cohort(20, 30) + Cohort(10, 36) + Cohort(8, 39), Cohort(2, 42));
    AgedAppend(Cohort(20, 30) + Cohort(10, 36), Cohort(8, 39));
    AgedAppend(Cohort(20, 30), Cohort(10, 36));
    AgedCohort(20, 30);
    AgedCohort(10, 36);
    AgedCohort(8, 39);
    AgedCohort(2, 42);
  }

  /** One year in which every threshold is at most 30 leaves nobody, whatever the influx. */
  lemma FirstYearAllDie(start: seq<int>, src: RandomSource)
    requires WellFormed(src) && AllEligible(start)
    requires forall k: nat :: src.lifespan(0, k) <= MinAgeQuaestor
    ensures History(start, src, 1) == []
  {
    var admitted := start + Entrants(src.influx(0));
    assert History(start, src, 0) == start;
    CohortWithin(if src.influx(0) > 0 then src.influx(0) else 0, MinAgeQuaestor);
    YearStepAllDie(admitted, SwapDraws(src, 0, |admitted|), Lifespans(src, 0, |admitted|));
  }

  /** Each tier's bucket of the starting roster is exactly that tier's cohort. */
  lemma InitialBucket(t: Tier)
    ensures Bucket(InitialRoster(), t) == match t
      case Quaestor => Cohort(20, 30)
      case Aedile => Cohort(10, 36)
      case Praetor => Cohort(8, 39)
      case Consul => Cohort(2, 42)
  {
    var q, a, p, c := Cohort(20, 30), Cohort(10, 36), Cohort(8, 39), Cohort(2, 42);
    BucketAppend(q + a + p, c, t);
    BucketAppend(q + a, p, t);
    BucketAppend(q, a, t);
    BucketCohort(20, 30, t);
    BucketCohort(10, 36, t);
    BucketCohort(8, 39, t);
    BucketCohort(2, 42, t);
    var parts := Bucket(q, t) + Bucket(a, t) + Bucket(p, t) + Bucket(c, t);
    assert Bucket(InitialRoster(), t) == parts;
    match t
    case Quaestor => assert parts == q + [] + [] + [];
    case Aedile => assert parts == [] + a + [] + [];
    case Praetor => assert parts == [] + [] + p + [];
    case Consul => assert parts == [] + [] + [] + c;
  }

  /** The starting roster's report: 20 aged 600 in all, 10 aged 360, 8 aged 312, 2 aged 84. */
  lemma InitialDistribution()
    ensures DistributionOf(InitialRoster())
         == AgeDistribution(Summary(20, 600), Summary(10, 360), Summary(8, 312), Summary(2, 84))
  {
    InitialBucket(Quaestor);
    InitialBucket(Aedile);
    InitialBucket(Praetor);
    InitialBucket(Consul);
    SumCohort(20, 30);
    SumCohort(10, 36);
    SumCohort(8, 39);
    SumCohort(2, 42);
  }
}
