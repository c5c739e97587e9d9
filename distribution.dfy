/**
 * The age-distribution report: each politician falls into the office tier of
 * its age band, and every tier's bucket is summarised by its size and the
 * total of its ages.
 */
module Distribution {
  import opened Config
  import opened Population

  datatype Tier = Quaestor | Aedile | Praetor | Consul

  datatype Option<T> = None | Some(value: T)

  /** Count and total age of one bucket. */
  datatype Summary = Summary(count: nat, total: int)

  datatype AgeDistribution = AgeDistribution(quaestor: Summary, aedile: Summary, praetor: Summary, consul: Summary)

  /** The tier an age is reported under: the chain of band tests of the report, first match wins. */
  function Classify(age: int): Option<Tier> {
    if age >= MinAgeQuaestor && age < MinAgeAedile then Some(Quaestor)
    else if age >= MinAgeAedile && age < MinAgePraetor then Some(Aedile)
    else if age >= MinAgePraetor && age < MinAgeConsul then Some(Praetor)
    else if age >= MinAgeConsul then Some(Consul)
    else None
  }

  function Rank(t: Tier): nat {
    match t
    case Quaestor => 0
    case Aedile => 1
    case Praetor => 2
    case Consul => 3
  }

  function MinimumAge(t: Tier): int {
    match t
    case Quaestor => MinAgeQuaestor
    case Aedile => MinAgeAedile
    case Praetor => MinAgePraetor
    case Consul => MinAgeConsul
  }

  /** The next tier up the ladder. */
  function Successor(t: Tier): (u: Tier)
    requires t != Consul
    ensures Rank(u) == Rank(t) + 1
  {
    match t
    case Quaestor => Aedile
    case Aedile => Praetor
    case Praetor => Consul
  }

  /** An age belongs to the highest tier whose minimum age it has reached. */
  predicate InBand(age: int, t: Tier) {
    MinimumAge(t) <= age && forall u :: Rank(u) > Rank(t) ==> age < MinimumAge(u)
  }

  /**
   * The report's classification agrees with the bands: an age is reported
   * under tier t exactly when it lies in t's band, and under no tier exactly
   * when it is below the entry minimum.
   */
  lemma ClassifyMatchesBands(age: int, t: Tier)
    ensures Classify(age) == Some(t) <==> InBand(age, t)
    ensures Classify(age) == None <==> age < MinAgeQuaestor
  {
    assert Rank(Aedile) == 1 && Rank(Praetor) == 2 && Rank(Consul) == 3;
    if Classify(age) == Some(t) {
      forall u | Rank(u) > Rank(t) ensures age < MinimumAge(u) {
        if u == Aedile {} else if u == Praetor {} else if u == Consul {}
      }
    }
  }

  /** The four buckets of the report are disjoint and cover every eligible age. */
  lemma ExactlyOneTier(age: int)
    requires age >= MinAgeQuaestor
    ensures Classify(age).Some?
    ensures forall t, u :: InBand(age, t) && InBand(age, u) ==> t == u
  {
    forall t, u | InBand(age, t) && InBand(age, u) ensures t == u {
      ClassifyMatchesBands(age, t);
      ClassifyMatchesBands(age, u);
    }
  }

  /** The ages, in population order, that the report puts in tier t's bucket. */
  function Bucket(ages: seq<int>, t: Tier): (b: seq<int>)
    ensures |b| <= |ages|
    decreases |ages|
  {
    if ages == [] then []
    else
      var n := |ages| - 1;
      Bucket(ages[..n], t) + (if Classify(ages[n]) == Some(t) then [ages[n]] else [])
  }

  function Sum(ages: seq<int>): int
    decreases |ages|
  {
    if ages == [] then 0 else Sum(ages[..|ages| - 1]) + ages[|ages| - 1]
  }

  /** What the report states about one bucket. */
  function SummaryOf(bucket: seq<int>): Summary {
    Summary(|bucket|, Sum(bucket))
  }

  function DistributionOf(ages: seq<int>): AgeDistribution {
    AgeDistribution(SummaryOf(Bucket(ages, Quaestor)), SummaryOf(Bucket(ages, Aedile)),
                    SummaryOf(Bucket(ages, Praetor)), SummaryOf(Bucket(ages, Consul)))
  }

  /** The bucketing loop of the report: one pass, each age pushed onto its tier's bucket. */
  method Bucketize(ages: seq<int>) returns (quaestors: seq<int>, aediles: seq<int>, praetors: seq<int>, consuls: seq<int>)
    ensures quaestors == Bucket(ages, Quaestor) && aediles == Bucket(ages, Aedile)
    ensures praetors == Bucket(ages, Praetor) && consuls == Bucket(ages, Consul)
  {
    quaestors, aediles, praetors, consuls := [], [], [], [];
    for i := 0 to |ages|
      invariant quaestors == Bucket(ages[..i], Quaestor) && aediles == Bucket(ages[..i], Aedile)
      invariant praetors == Bucket(ages[..i], Praetor) && consuls == Bucket(ages[..i], Consul)
    {
      assert ages[..i + 1][..i] == ages[..i];
      var age := ages[i];
      if age >= MinAgeQuaestor && age < MinAgeAedile {
        quaestors := quaestors + [age];
      } else if age >= MinAgeAedile && age < MinAgePraetor {
        aediles := aediles + [age];
      } else if age >= MinAgePraetor && age < MinAgeConsul {
        praetors := praetors + [age];
      } else if age >= MinAgeConsul {
        consuls := consuls + [age];
      }
    }
    assert ages[..|ages|] == ages;
  }

  /**
   * The summary of one bucket: nothing for an empty bucket, otherwise its
   * size and the total of its ages, accumulated in a loop.
   */
  method CalculateSummary(ages: seq<int>) returns (s: Summary)
    ensures ages == [] ==> s == Summary(0, 0)
    ensures s.count == |ages| && s.total == Sum(ages)
  {
    if ages == [] {
      return Summary(0, 0);
    }
    var totalAges := 0;
    for i := 0 to |ages|
      invariant totalAges == Sum(ages[..i])
    {
      assert ages[..i + 1][..i] == ages[..i];
      totalAges := totalAges + ages[i];
    }
    assert ages[..|ages|] == ages;
    s := Summary(|ages|, totalAges);
  }

  /** An age is in tier t's bucket exactly when it is in the population and classified under t. */
  lemma {:induction false} BucketMembers(ages: seq<int>, t: Tier, x: int)
    ensures x in Bucket(ages, t) <==> x in ages && Classify(x) == Some(t)
    decreases |ages|
  {
    if ages != [] {
      var n := |ages| - 1;
      BucketMembers(ages[..n], t, x);
      assert ages == ages[..n] + [ages[n]];
    }
  }

  lemma SumSnoc(s: seq<int>, x: int)
    ensures Sum(s + [x]) == Sum(s) + x
  {
    assert (s + [x])[..|s|] == s;
  }

  /** Appending a politician extends its own tier's bucket and no other. */
  lemma BucketSnoc(ages: seq<int>, x: int, t: Tier)
    ensures Classify(x) == Some(t) ==> Bucket(ages + [x], t) == Bucket(ages, t) + [x]
    ensures Classify(x) != Some(t) ==> Bucket(ages + [x], t) == Bucket(ages, t)
    ensures |Bucket(ages + [x], t)| == |Bucket(ages, t)| + (if Classify(x) == Some(t) then 1 else 0)
    ensures Sum(Bucket(ages + [x], t)) == Sum(Bucket(ages, t)) + (if Classify(x) == Some(t) then x else 0)
  {
    assert (ages + [x])[..|ages|] == ages;
    if Classify(x) == Some(t) {
      SumSnoc(Bucket(ages, t), x);
    } else {
      assert Bucket(ages, t) + [] == Bucket(ages, t);
    }
  }

  /**
   * Tier t's bucket holds every copy of each age classified under t, and
   * nothing else: as multisets, it is the population restricted to t's band.
   */
  lemma {:induction false} BucketMultiset(ages: seq<int>, t: Tier)
    ensures forall x :: multiset(Bucket(ages, t))[x] == if Classify(x) == Some(t) then multiset(ages)[x] else 0
    decreases |ages|
  {
    if ages != [] {
      var n := |ages| - 1;
      var prefix, y := ages[..n], ages[n];
      assert ages == prefix + [y];
      BucketMultiset(prefix, t);
      BucketSnoc(prefix, y, t);
      assert multiset(ages) == multiset(prefix) + multiset{y};
    }
  }

  /**
   * When every age is eligible, the four buckets together hold exactly the
   * population's multiset of ages.
   */
  lemma BucketsPartition(ages: seq<int>)
    requires AllEligible(ages)
    ensures multiset(Bucket(ages, Quaestor)) + multiset(Bucket(ages, Aedile))
          + multiset(Bucket(ages, Praetor)) + multiset(Bucket(ages, Consul)) == multiset(ages)
  {
    BucketMultiset(ages, Quaestor);
    BucketMultiset(ages, Aedile);
    BucketMultiset(ages, Praetor);
    BucketMultiset(ages, Consul);
    var whole := multiset(Bucket(ages, Quaestor)) + multiset(Bucket(ages, Aedile))
      + multiset(Bucket(ages, Praetor)) + multiset(Bucket(ages, Consul));
    forall x ensures whole[x] == multiset(ages)[x] {
      if x !in ages {
        assert multiset(ages)[x] == 0;
      }
    }
  }

  /**
   * When every age is eligible, the four bucket sizes add up to the population
   * size and the four age totals to the sum of all ages.
   */
  lemma {:induction false} BucketSizes(ages: seq<int>)
    requires AllEligible(ages)
    ensures |Bucket(ages, Quaestor)| + |Bucket(ages, Aedile)| + |Bucket(ages, Praetor)| + |Bucket(ages, Consul)| == |ages|
    ensures Sum(Bucket(ages, Quaestor)) + Sum(Bucket(ages, Aedile))
          + Sum(Bucket(ages, Praetor)) + Sum(Bucket(ages, Consul)) == Sum(ages)
    decreases |ages|
  {
    if ages != [] {
      var n := |ages| - 1;
      var prefix, x := ages[..n], ages[n];
      assert ages == prefix + [x];
      assert x in ages;
      assert forall y :: y in prefix ==> y in ages;
      BucketSizes(prefix);
      BucketSnoc(prefix, x, Quaestor);
      BucketSnoc(prefix, x, Aedile);
      BucketSnoc(prefix, x, Praetor);
      BucketSnoc(prefix, x, Consul);
      SumSnoc(prefix, x);
    }
  }

  /** Every age in tier t's bucket lies in t's band. */
  lemma BucketWithin(ages: seq<int>, t: Tier)
    ensures forall x :: x in Bucket(ages, t) ==> MinimumAge(t) <= x
    ensures t != Consul ==> forall x :: x in Bucket(ages, t) ==> x < MinimumAge(Successor(t))
  {
    forall x | x in Bucket(ages, t) ensures MinimumAge(t) <= x && (t != Consul ==> x < MinimumAge(Successor(t))) {
      BucketMembers(ages, t, x);
    }
  }

  /**
   * The average age the report derives from a non-empty bucket's summary lies
   * in the tier's band: total >= minimum age * count, and below the next
   * tier's minimum age * count.
   */
  lemma SummaryWithinBand(ages: seq<int>, t: Tier)
    ensures SummaryOf(Bucket(ages, t)).total >= MinimumAge(t) * SummaryOf(Bucket(ages, t)).count
    ensures t != Consul && Bucket(ages, t) != [] ==>
      SummaryOf(Bucket(ages, t)).total < MinimumAge(Successor(t)) * SummaryOf(Bucket(ages, t)).count
  {
    var b := Bucket(ages, t);
    BucketWithin(ages, t);
    SumAtLeast(b, MinimumAge(t));
    if t != Consul {
      var top := MinimumAge(Successor(t));
      SumBelow(b, top);
    }
  }

  lemma {:induction false} SumBelow(ages: seq<int>, top: int)
    requires forall x :: x in ages ==> x < top
    ensures ages != [] ==> Sum(ages) < top * |ages|
    decreases |ages|
  {
    if ages != [] {
      var n := |ages| - 1;
      assert ages[n] in ages;
      assert forall x :: x in ages[..n] ==> x in ages;
      SumBelow(ages[..n], top);
      assert top * |ages| == top * n + top;
    }
  }

  lemma {:induction false} SumAtLeast(ages: seq<int>, lo: int)
    requires forall x :: x in ages ==> lo <= x
    ensures lo * |ages| <= Sum(ages)
    decreases |ages|
  {
    if ages != [] {
      var n := |ages| - 1;
      assert ages[n] in ages;
      assert forall x :: x in ages[..n] ==> x in ages;
      SumAtLeast(ages[..n], lo);
      assert lo * |ages| == lo * n + lo;
    }
  }

  /** Bucketing commutes with concatenation. */
  lemma {:induction false} BucketAppend(a: seq<int>, b: seq<int>, t: Tier)
    ensures Bucket(a + b, t) == Bucket(a, t) + Bucket(b, t)
    decreases |b|
  {
    if b == [] {
      assert a + b == a;
    } else {
      var n := |b| - 1;
      assert (a + b)[..|a + b| - 1] == a + b[..n];
      assert (a + b)[|a + b| - 1] == b[n];
      BucketAppend(a, b[..n], t);
    }
  }

  /** A cohort lands whole in its tier's bucket and nowhere else. */
  lemma {:induction false} BucketCohort(n: nat, age: int, t: Tier)
    ensures Bucket(Cohort(n, age), t) == if Classify(age) == Some(t) then Cohort(n, age) else []
  {
    if n > 0 {
      BucketCohort(n - 1, age, t);
      assert Cohort(n, age)[..n - 1] == Cohort(n - 1, age);
      assert Cohort(n, age)[n - 1] == age;
      CohortGrow(n - 1, age);
    }
  }

  lemma {:induction false} SumCohort(n: nat, age: int)
    ensures Sum(Cohort(n, age)) == n * age
  {
    if n > 0 {
      SumCohort(n - 1, age);
      assert Cohort(n, age)[..n - 1] == Cohort(n - 1, age);
      assert Cohort(n, age)[n - 1] == age;
      assert n * age == (n - 1) * age + age;
    }
  }

  /** The report accounts for every eligible politician: counts add up to the population size, totals to the sum of all ages. */
  lemma ReportCoversPopulation(ages: seq<int>)
    requires AllEligible(ages)
    ensures var d := DistributionOf(ages);
      d.quaestor.count + d.aedile.count + d.praetor.count + d.consul.count == |ages| &&
      d.quaestor.total + d.aedile.total + d.praetor.total + d.consul.total == Sum(ages)
  {
    BucketSizes(ages);
  }
}
