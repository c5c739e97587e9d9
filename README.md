# Roman career-ladder population simulation, modelled in Dafny

The program simulates 200 years of a population of politicians, each known
only by an age. Every year a number of 30-year-old entrants joins. The
population is then shuffled, everybody ages by one year, and every politician
whose age exceeds a freshly drawn life expectancy is removed. A public support
index (PSI) starts at 100 and is updated every year. After the run the program
reports the final PSI and, for each office tier (Quaestor [30,36),
Aedile [36,39), Praetor [39,42), Consul [42,∞)), the number of politicians and
their average age.

The model follows the `Simulation` class:

- `config.dfy`: the constants the core reads.
- `population.dfy`: the value-level meaning of each yearly step on the
  sequence of ages. These are influx (`Entrants`), shuffle (`Shuffled`, one swap
  per position), aging (`Aged`) and stable culling (`Survivors`), together with
  their lemmas.
- `distribution.dfy`: tier classification (`Classify`), the tier buckets
  (`Bucket`), the per-bucket count and total (`Summary`), and the two loops of
  the report (`Bucketize`, `CalculateSummary`).
- `simulator.dfy`: the class `Simulation`, whose fields are `psi`, `year` and
  `politicians: seq<int>`. It has the constructor, the in-place steps `Admit`,
  `Shuffle`, `AgeAll` and `Cull`, and `SimulateYear`, `Run` and
  `CalculateAgeDistribution`. Beside the class are the whole-run specification
  (`History`), the program's entry point without output (`SimulateProgram`) and
  the run-level lemmas.

The generator's draws are inputs. A `RandomSource` gives, for every year `y`:

- the influx count `influx(y)`: the normal draw, already truncated to an integer;
- for every shuffle step `k`, the swap partner `swapDraw(y, k)` in `[0, k]`;
- for every agent position `k` after the shuffle, the life-expectancy threshold
  `lifespan(y, k)`, rounded down. For an integer age, exceeding a real number
  and exceeding its floor are the same test.

Every PSI term is a penalty times a quota minus that same quota. So PSI never
changes, and the model proves that it stays 100 through a run.

## Model

| member | source | states |
|---|---|---|
| `Simulator.Simulation.constructor` | ConsoleApplication1.cpp:39-53 | 40 politicians: 20 at 30, then 10 at 36, 8 at 39 and 2 at 42, in that order; PSI 100, year 0; the population invariant holds |
| `Simulator.InitialRosterShape` | ConsoleApplication1.cpp:39-53 | the starting roster has 40 entries with the four cohorts at positions 0-19, 20-29, 30-37 and 38-39, all aged between 30 and 42 |
| `Simulator.Simulation.Admit` | ConsoleApplication1.cpp:84-86 | the influx loop appends `max(0, n)` politicians aged 30 to the unchanged population and keeps the invariant |
| `Population.InfluxAppends` | ConsoleApplication1.cpp:84-86 | influx adds exactly `max(0, n)` entrants, never removes anyone, leaves the existing prefix as it was, adds nothing for a negative count, and keeps ages within their bounds |
| `Simulator.Simulation.Shuffle` | ConsoleApplication1.cpp:56 | the in-place swaps produce `Shuffled` of the old population |
| `Population.SwapPermutes` | ConsoleApplication1.cpp:56 | one swap of two positions keeps the multiset of ages |
| `Population.ShufflePermutes` | ConsoleApplication1.cpp:56 | shuffling keeps the population size and the multiset of ages |
| `Population.ShuffleStepsPermutes` | ConsoleApplication1.cpp:56 | every prefix of the shuffle's swaps keeps the multiset of ages |
| `Population.ShuffleSteps` | ConsoleApplication1.cpp:56 | every prefix of the shuffle's swaps keeps the population size |
| `Simulator.Simulation.AgeAll` | ConsoleApplication1.cpp:57-59 | every element of the population is exactly one greater than before, and the length is unchanged |
| `Population.AgedMembers` | ConsoleApplication1.cpp:57-59 | every age after aging is an age from before, plus one |
| `Population.AgingCommutesWithShuffle` | ConsoleApplication1.cpp:56-59 | aging after the shuffle gives the same sequence as shuffling the aged population |
| `Simulator.Simulation.Cull` | ConsoleApplication1.cpp:62-63 | the in-place compaction followed by erase leaves `Survivors(old population, thresholds)` |
| `Population.Survivors` | ConsoleApplication1.cpp:62-63 | culling never makes the population larger |
| `Population.SurvivorsAreKept` | ConsoleApplication1.cpp:62-63 | the survivors are exactly the politicians whose age is at most their own threshold, in their original relative order |
| `Population.SurvivorsAtKept` | ConsoleApplication1.cpp:62-63 | there are as many kept positions as survivors, and the m-th survivor is the age at the m-th kept position |
| `Population.KeptIncreasing` | ConsoleApplication1.cpp:62-63 | the kept positions increase strictly, so culling keeps the survivors' relative order |
| `Population.KeptExactly` | ConsoleApplication1.cpp:62-63 | a position is kept exactly when its politician's age is at most that politician's threshold |
| `Population.KeptPositions` | ConsoleApplication1.cpp:62-63 | every kept position is a position of the population |
| `Population.SurvivorsFrom` | ConsoleApplication1.cpp:62-63 | every survivor comes from the population before culling |
| `Population.SurvivorsAll` | ConsoleApplication1.cpp:62-63 | when no age exceeds its threshold, culling keeps everybody in place |
| `Population.SurvivorsNone` | ConsoleApplication1.cpp:62-63 | when every age exceeds its threshold, culling removes everybody |
| `Simulator.Simulation.SimulateYear` | ConsoleApplication1.cpp:55-74 | a year's population is `YearStep` (shuffle, age, cull) of the old one; PSI and year are unchanged, through both the yearly term and the every-tenth-year term; the invariant holds |
| `Simulator.YearStepMembers` | ConsoleApplication1.cpp:55-63 | every age after a year is an age from before it, plus one |
| `Simulator.YearStepKeepsEligible` | ConsoleApplication1.cpp:55-63 | a year keeps every age at 30 or above |
| `Simulator.YearStepNoDeaths` | ConsoleApplication1.cpp:55-63 | when every threshold exceeds every age, a year keeps the population size and its ages are the old ones plus one, in some order |
| `Simulator.YearStepAllDie` | ConsoleApplication1.cpp:55-63 | when every threshold is at most 30, a year leaves nobody |
| `Simulator.Simulation.Run` | ConsoleApplication1.cpp:82-89 | the loop runs for years 0 to 199, each year's influx followed by one simulated year; the result is `History` over 200 years; PSI is unchanged and the year ends at 200 |
| `Simulator.HistoryWithinAges` | ConsoleApplication1.cpp:82-89 | from a roster aged 30 to 42, after y years every age lies in [30, 42 + y], so at most 242 |
| `Simulator.FirstYearWithoutDeaths` | ConsoleApplication1.cpp:82-89 | one year from the starting roster with no influx and no threshold reached leaves 40 politicians: 20 at 31, 10 at 37, 8 at 40 and 2 at 43 |
| `Simulator.FirstYearAllDie` | ConsoleApplication1.cpp:82-89 | one year with every threshold at most 30 leaves the population empty, whatever the influx |
| `Simulator.SimulateProgram` | ConsoleApplication1.cpp:145-158 | the final PSI is 100, and the report is the distribution of the 200-year history of the starting roster |
| `Distribution.ClassifyMatchesBands` | ConsoleApplication1.cpp:102-110 | an age is reported under tier t exactly when it is in t's band, which is the highest tier whose minimum age it has reached; an age is in no tier exactly when it is below 30 |
| `Distribution.ExactlyOneTier` | ConsoleApplication1.cpp:102-110 | every age of 30 or more falls in exactly one of the four bands |
| `Distribution.Bucketize` | ConsoleApplication1.cpp:100-111 | the bucketing loop yields, for each tier, the ages classified under it, in population order |
| `Distribution.BucketMembers` | ConsoleApplication1.cpp:100-111 | an age is in a tier's bucket exactly when it is in the population and classified under that tier |
| `Distribution.BucketWithin` | ConsoleApplication1.cpp:100-111 | every age in a tier's bucket is at least the tier's minimum age and below the next tier's minimum age |
| `Distribution.BucketSnoc` | ConsoleApplication1.cpp:100-111 | one more politician joins the bucket of its own tier and no other, so that bucket grows by one and its total by that age, while the others stay as they were |
| `Distribution.BucketMultiset` | ConsoleApplication1.cpp:100-111 | a tier's bucket holds each age as often as the population does when the age is classified under that tier, and never otherwise |
| `Distribution.BucketsPartition` | ConsoleApplication1.cpp:100-111 | for an eligible population, the four buckets together hold exactly its multiset of ages |
| `Distribution.BucketSizes` | ConsoleApplication1.cpp:100-111 | for an eligible population, the four bucket sizes add up to the population size and the four bucket totals add up to the total of all ages |
| `Distribution.CalculateSummary` | ConsoleApplication1.cpp:113-125 | an empty bucket summarises to (0, 0); otherwise the count is the bucket size and the total is the sum of its ages |
| `Distribution.SummaryWithinBand` | ConsoleApplication1.cpp:113-124 | a bucket's total is at least its tier's minimum age times its count, and, for a non-empty bucket below Consul, less than the next tier's minimum age times its count; so the average lies in the band |
| `Simulator.Simulation.CalculateAgeDistribution` | ConsoleApplication1.cpp:94-130 | the report's four summaries are those of the current population's buckets |
| `Distribution.ReportCoversPopulation` | ConsoleApplication1.cpp:94-130 | for an eligible population, the report's counts add up to the population size and its totals add up to the sum of all ages |
| `Simulator.InitialBucket` | ConsoleApplication1.cpp:100-111 | each tier's bucket of the starting roster is exactly that tier's starting cohort |
| `Simulator.InitialDistribution` | ConsoleApplication1.cpp:113-130 | the starting roster reports 20 Quaestors aged 600 in all, 10 Aediles aged 360, 8 Praetors aged 312 and 2 Consuls aged 84 |

## Left out

- Random number generation (`std::random_device`, `std::mt19937`, the two `std::normal_distribution`s, ConsoleApplication1.cpp:77-80): these are foreign library calls that sample floating-point values. Their draws are the caller's `RandomSource`, so the influx and life-expectancy means and standard deviations (ConsoleApplication1.cpp:22-25) are not used.
- The `static_cast<int>` truncation of the influx draw (ConsoleApplication1.cpp:83): this converts a floating-point value to an integer, so the integer count is the input instead.
- `Simulator.Simulation.Shuffle`: the exact swap schedule of `std::shuffle` is implementation-defined. The model takes the usual one: step k swaps position k with a uniformly drawn position in [0, k]. That every permutation can arise this way is not proved.
- `Distribution.CalculateSummary`: states the count and the integer total, not the `double` average (ConsoleApplication1.cpp:122), because that is floating-point. `SummaryWithinBand` bounds the total by the count instead.
- The fill-rate percentages (ConsoleApplication1.cpp:152-155): they are floating-point and depend only on constants.
- Output with `std::cout` (ConsoleApplication1.cpp:132-136, 149-155): this is I/O. `SimulateProgram` returns what `main` prints.
- Integer widths: ages, PSI and the year are unbounded integers. `HistoryWithinAges` shows ages stay at or below 242, and PSI never changes, so 32-bit `int` cannot overflow. The `unsigned __int64` age total is an unbounded integer too.
- The PSI update as the design evidently intended (a quota minus the tier's actual count): not modelled, because the program computes a quota minus itself, and that is what the model does.
- The unused `MINIMUM_SERVICE_*` constants (ConsoleApplication1.cpp:11-13): they are never read. The `reserve` call (ConsoleApplication1.cpp:40) only sets capacity.
- The `Politician` class (ConsoleApplication1.cpp:28-34) holds only an age, so an agent is an `int`.
- `getFinalPSI` (ConsoleApplication1.cpp:92) is a plain field read. `SimulateProgram` reads `psi` directly.
