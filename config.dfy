/** The compile-time parameters of the simulation that its core reads. */
module Config {
  const TotalYears: nat := 200

  // Lower age bound of each office tier
  const MinAgeQuaestor: int := 30
  const MinAgeAedile: int := 36
  const MinAgePraetor: int := 39
  const MinAgeConsul: int := 42

  const YearsBetweenConsulReelection: int := 10

  // Nominal yearly quota of each office, also the size of each starting cohort
  const QuaestorsPerYear: nat := 20
  const AedilesPerYear: nat := 10
  const PraetorsPerYear: nat := 8
  const ConsulsPerYear: nat := 2

  const StartingPsi: int := 100
  const UnfilledPositionPenalty: int := -5
  const ConsecutiveConsulReelectionPenalty: int := -10
}
