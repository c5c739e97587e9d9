/**
 * The population is a sequence of ages, one per politician. This module
 * gives the value-level meaning of each step a simulated year applies to it:
 * influx, shuffle, aging and culling.
 */
module Population {
  import opened Config

  /** Every age lies in [lo, hi]. */
  predicate WithinAges(ages: seq<int>, lo: int, hi: int) {
    forall x :: x in ages ==> lo <= x <= hi
  }

  /** The population invariant: nobody is younger than the entry-tier minimum age. */
  predicate AllEligible(ages: seq<int>) {
    forall x :: x in ages ==> x >= MinAgeQuaestor
  }

  /** `n` politicians of the same age. */
  function Cohort(n: nat, age: int): seq<int> {
    seq(n, _ => age)
  }

  lemma CohortGrow(n: nat, age: int)
    ensures Cohort(n + 1, age) == Cohort(n, age) + [age]
  {
    assert Cohort(n + 1, age)[..n] == Cohort(n, age);
  }

  lemma CohortWithin(n: nat, age: int)
    ensures |Cohort(n, age)| == n
    ensures forall x :: x in Cohort(n, age) ==> x == age
  {
  }

  // ---------------------------------------------------------------- influx

  /**
   * The agents one year's influx admits: the influx loop runs `n` times, so a
   * count that is not positive admits nobody.
   */
  function Entrants(n: int): seq<int> {
    Cohort(if n > 0 then n else 0, MinAgeQuaestor)
  }

  /** Influx appends max(0, n) entrants at the entry age, leaves the existing prefix untouched and keeps ages within bounds. */
  lemma InfluxAppends(ages: seq<int>, n: int, hi: int)
    requires WithinAges(ages, MinAgeQuaestor, hi) && MinAgeQuaestor <= hi
    ensures WithinAges(ages + Entrants(n), MinAgeQuaestor, hi)
    ensures |ages + Entrants(n)| == |ages| + (if n > 0 then n else 0)
    ensures (ages + Entrants(n))[..|ages|] == ages
    ensures n <= 0 ==> ages + Entrants(n) == ages
  {
    CohortWithin(if n > 0 then n else 0, MinAgeQuaestor);
    assert (ages + Entrants(n))[..|ages|] == ages;
    if n <= 0 {
      assert Entrants(n) == [];
    }
  }

  // --------------------------------------------------------------- shuffle

  /**
   * The draws of one shuffle of `n` agents: step k exchanges position k with
   * position draws[k], a value in [0, k] drawn uniformly by the generator.
   */
  predicate ValidSwapDraws(draws: seq<nat>, n: nat) {
    |draws| == n && forall k :: 0 <= k < n ==> draws[k] <= k
  }

  /** Exchanges the ages at positions i and j. */
  function Swap(s: seq<int>, i: nat, j: nat): seq<int>
    requires i < |s| && j < |s|
  {
    s[i := s[j]][j := s[i]]
  }

  /** A swap keeps the multiset of ages. */
  lemma SwapPermutes(s: seq<int>, i: nat, j: nat)
    requires i < |s| && j < |s|
    ensures multiset(Swap(s, i, j)) == multiset(s)
  {
    var t := s[i := s[j]];
    assert multiset(t) == multiset(s) - multiset{s[i]} + multiset{s[j]};
    assert t[j] == s[j];
    assert multiset(t[j := s[i]]) == multiset(t) - multiset{s[j]} + multiset{s[i]};
  }

  /** The population after the first `steps` swaps of a shuffle. */
  function ShuffleSteps(s: seq<int>, draws: seq<nat>, steps: nat): (r: seq<int>)
    requires ValidSwapDraws(draws, |s|) && steps <= |s|
    ensures |r| == |s|
    decreases steps
  {
    if steps == 0 then s
    else Swap(ShuffleSteps(s, draws, steps - 1), steps - 1, draws[steps - 1])
  }

  /** The population after a whole shuffle: one swap per position, in order. */
  function Shuffled(s: seq<int>, draws: seq<nat>): (r: seq<int>)
    requires ValidSwapDraws(draws, |s|)
  {
    ShuffleSteps(s, draws, |s|)
  }

  lemma {:induction false} ShuffleStepsPermutes(s: seq<int>, draws: seq<nat>, steps: nat)
    requires ValidSwapDraws(draws, |s|) && steps <= |s|
    ensures multiset(ShuffleSteps(s, draws, steps)) == multiset(s)
    decreases steps
  {
    if steps > 0 {
      var i, j := steps - 1, draws[steps - 1];
      var before, after := ShuffleSteps(s, draws, i), ShuffleSteps(s, draws, steps);
      assert after == Swap(before, i, j);
      calc {
        multiset(after);
        multiset(Swap(before, i, j));
        { SwapPermutes(before, i, j); }
        multiset(before);
        { ShuffleStepsPermutes(s, draws, i); }
        multiset(s);
      }
    }
  }

  /** Shuffling keeps the population size and the multiset of ages. */
  lemma ShufflePermutes(s: seq<int>, draws: seq<nat>)
    requires ValidSwapDraws(draws, |s|)
    ensures |Shuffled(s, draws)| == |s|
    ensures multiset(Shuffled(s, draws)) == multiset(s)
  {
    ShuffleStepsPermutes(s, draws, |s|);
  }

  // ----------------------------------------------------------------- aging

  /** Every politician one year older. */
  function Aged(s: seq<int>): seq<int> {
    seq(|s|, k requires 0 <= k < |s| => s[k] + 1)
  }

  /** Every age after aging is some age from before, plus one. */
  lemma AgedMembers(s: seq<int>)
    ensures forall x :: x in Aged(s) ==> x - 1 in s
  {
    forall x | x in Aged(s) ensures x - 1 in s {
      var k :| 0 <= k < |s| && Aged(s)[k] == x;
      assert s[k] == x - 1;
    }
  }

  lemma AgedSwap(s: seq<int>, i: nat, j: nat)
    requires i < |s| && j < |s|
    ensures Aged(Swap(s, i, j)) == Swap(Aged(s), i, j)
  {
  }

  /** Aging commutes with shuffling: it does not matter whether agents age before or after. */
  lemma {:induction false} AgingCommutesWithShuffle(s: seq<int>, draws: seq<nat>, steps: nat)
    requires ValidSwapDraws(draws, |s|) && steps <= |s|
    ensures Aged(ShuffleSteps(s, draws, steps)) == ShuffleSteps(Aged(s), draws, steps)
    decreases steps
  {
    if steps > 0 {
      var i, j := steps - 1, draws[steps - 1];
      var before, agedBefore := ShuffleSteps(s, draws, i), ShuffleSteps(Aged(s), draws, i);
      AgingCommutesWithShuffle(s, draws, i);
      var after := ShuffleSteps(s, draws, steps);
      assert after == Swap(before, i, j);
      calc {
        Aged(after);
        Aged(Swap(before, i, j));
        { AgedSwap(before, i, j); }
        Swap(Aged(before), i, j);
        Swap(agedBefore, i, j);
        ShuffleSteps(Aged(s), draws, steps);
      }
    }
  }

  lemma AgedAppend(a: seq<int>, b: seq<int>)
    ensures Aged(a + b) == Aged(a) + Aged(b)
  {
  }

  lemma AgedCohort(n: nat, age: int)
    ensures Aged(Cohort(n, age)) == Cohort(n, age + 1)
  {
  }

  // --------------------------------------------------------------- culling

  /**
   * The agents the mortality step keeps: an agent is removed when its age
   * exceeds its own threshold, and the survivors keep their relative order.
   */
  function Survivors(ages: seq<int>, thresholds: seq<int>): (r: seq<int>)
    requires |thresholds| == |ages|
    ensures |r| <= |ages|
    decreases |ages|
  {
    if ages == [] then []
    else
      var n := |ages| - 1;
      Survivors(ages[..n], thresholds[..n]) + (if ages[n] > thresholds[n] then [] else [ages[n]])
  }

  /** The positions, in increasing order, of the agents the mortality step keeps. */
  function KeptPositions(ages: seq<int>, thresholds: seq<int>): (kept: seq<nat>)
    requires |thresholds| == |ages|
    ensures forall m :: 0 <= m < |kept| ==> kept[m] < |ages|
    decreases |ages|
  {
    if ages == [] then []
    else
      var n := |ages| - 1;
      KeptPositions(ages[..n], thresholds[..n]) + (if ages[n] > thresholds[n] then [] else [n])
  }

  /** Survivors are the ages at the kept positions, in order. */
  lemma {:induction false} SurvivorsAtKept(ages: seq<int>, thresholds: seq<int>)
    requires |thresholds| == |ages|
    ensures |KeptPositions(ages, thresholds)| == |Survivors(ages, thresholds)|
    ensures forall m :: 0 <= m < |KeptPositions(ages, thresholds)| ==>
      Survivors(ages, thresholds)[m] == ages[KeptPositions(ages, thresholds)[m]]
    decreases |ages|
  {
    if ages != [] {
      var n := |ages| - 1;
      SurvivorsAtKept(ages[..n], thresholds[..n]);
    }
  }

  /** The kept positions increase strictly, so survivors keep their relative order. */
  lemma {:induction false} KeptIncreasing(ages: seq<int>, thresholds: seq<int>)
    requires |thresholds| == |ages|
    ensures forall m, m' :: 0 <= m < m' < |KeptPositions(ages, thresholds)| ==>
      KeptPositions(ages, thresholds)[m] < KeptPositions(ages, thresholds)[m']
    decreases |ages|
  {
    if ages != [] {
      var n := |ages| - 1;
      KeptIncreasing(ages[..n], thresholds[..n]);
    }
  }

  /** A position is kept exactly when its agent's age is at most its threshold. */
  lemma {:induction false} KeptExactly(ages: seq<int>, thresholds: seq<int>)
    requires |thresholds| == |ages|
    ensures forall i :: 0 <= i < |ages| ==> (i in KeptPositions(ages, thresholds) <==> ages[i] <= thresholds[i])
    decreases |ages|
  {
    if ages != [] {
      var n := |ages| - 1;
      var front, frontLimits := ages[..n], thresholds[..n];
      KeptExactly(front, frontLimits);
      var prefix := KeptPositions(front, frontLimits);
      assert n !in prefix;
      forall i | 0 <= i < n ensures i in prefix <==> ages[i] <= thresholds[i] {
        assert front[i] == ages[i] && frontLimits[i] == thresholds[i];
      }
    }
  }

  /**
   * Culling keeps exactly the agents whose age is at most their threshold, in
   * their original order: `kept` lists their positions in increasing order.
   */
  lemma SurvivorsAreKept(ages: seq<int>, thresholds: seq<int>) returns (kept: seq<nat>)
    requires |thresholds| == |ages|
    ensures |kept| == |Survivors(ages, thresholds)|
    ensures forall m :: 0 <= m < |kept| ==> kept[m] < |ages| && Survivors(ages, thresholds)[m] == ages[kept[m]]
    ensures forall m, m' :: 0 <= m < m' < |kept| ==> kept[m] < kept[m']
    ensures forall i :: 0 <= i < |ages| ==> (i in kept <==> ages[i] <= thresholds[i])
  {
    kept := KeptPositions(ages, thresholds);
    SurvivorsAtKept(ages, thresholds);
    KeptIncreasing(ages, thresholds);
    KeptExactly(ages, thresholds);
  }

  /** Culling only removes: every survivor comes from the population. */
  lemma {:induction false} SurvivorsFrom(ages: seq<int>, thresholds: seq<int>)
    requires |thresholds| == |ages|
    ensures forall x :: x in Survivors(ages, thresholds) ==> x in ages
    decreases |ages|
  {
    if ages != [] {
      var n := |ages| - 1;
      assert forall x :: x in ages[..n] ==> x in ages;
      SurvivorsFrom(ages[..n], thresholds[..n]);
      assert ages[n] in ages;
    }
  }

  /** Nobody dies when every threshold is at least the agent's age. */
  lemma {:induction false} SurvivorsAll(ages: seq<int>, thresholds: seq<int>)
    requires |thresholds| == |ages|
    requires forall k :: 0 <= k < |ages| ==> ages[k] <= thresholds[k]
    ensures Survivors(ages, thresholds) == ages
    decreases |ages|
  {
    if ages != [] {
      var n := |ages| - 1;
      SurvivorsAll(ages[..n], thresholds[..n]);
      assert ages[..n] + [ages[n]] == ages;
    }
  }

  /** Everybody dies when every threshold is below the agent's age. */
  lemma {:induction false} SurvivorsNone(ages: seq<int>, thresholds: seq<int>)
    requires |thresholds| == |ages|
    requires forall k :: 0 <= k < |ages| ==> ages[k] > thresholds[k]
    ensures Survivors(ages, thresholds) == []
    decreases |ages|
  {
    if ages != [] {
      var n := |ages| - 1;
      SurvivorsNone(ages[..n], thresholds[..n]);
    }
  }
}
