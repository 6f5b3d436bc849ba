/**
 The risk scorer of the autopilot: one telemetry sample is turned into an
 integer risk score by three fixed threshold checks, and a deployment failure
 is predicted when that score reaches 70.

 The metrics are `real`s: the scorer only compares them against constants and
 never computes with them, so the model needs no floating-point arithmetic.
 */
module AnomalyDetector {

  /** One telemetry sample, as produced by the metric collector. */
  datatype MetricSample = MetricSample(
    timestamp: real,      // seconds since the epoch
    cpuUsage: real,       // percent
    memoryUsage: real,    // percent
    errorRate: real,      // errors per second
    recentCommits: nat)

  // Each threshold is strict: a metric contributes only when it is ABOVE its limit.
  const CpuLimit: real := 85.0
  const MemoryLimit: real := 80.0
  const ErrorRateLimit: real := 2.5

  const CpuWeight: int := 40
  const MemoryWeight: int := 30
  const ErrorRateWeight: int := 30

  /** A score at or above this predicts a failure. */
  const FailScore: int := 70

  /** The points one check adds: its weight when the metric exceeded its limit. */
  function Points(exceeded: bool, weight: int): int {
    if exceeded then weight else 0
  }

  /**
   The risk score of a sample: the sum of the three guarded contributions.
   Only the six subset sums of {40, 30, 30} can occur, all within 0..100, so
   the score never needs clamping.
   */
  function RiskScore(m: MetricSample): (score: int)
    ensures 0 <= score <= 100
    ensures score in {0, 30, 40, 60, 70, 100}
  {
    Points(m.cpuUsage > CpuLimit, CpuWeight)
    + Points(m.memoryUsage > MemoryLimit, MemoryWeight)
    + Points(m.errorRate > ErrorRateLimit, ErrorRateWeight)
  }

  /**
   The failure decision, stated without the score: a failure is predicted
   exactly when the CPU exceeds its limit together with at least one of
   memory and error rate. Memory and error rate alone reach only 60.
   */
  predicate WillFail(m: MetricSample): (fails: bool)
    ensures fails <==>
      m.cpuUsage > CpuLimit && (m.memoryUsage > MemoryLimit || m.errorRate > ErrorRateLimit)
  {
    RiskScore(m) >= FailScore
  }

  /**
   The scorer as the source runs it: an accumulator starts at 0 and each
   check that fires adds its points; the decision is taken from the total.
   */
  method PredictFailure(m: MetricSample) returns (willFail: bool, riskScore: int)
    ensures riskScore == RiskScore(m)
    ensures willFail <==> riskScore >= FailScore
    ensures willFail == WillFail(m)
  {
    riskScore := 0;
    if m.cpuUsage > CpuLimit {
      riskScore := riskScore + CpuWeight;
    }
    if m.memoryUsage > MemoryLimit {
      riskScore := riskScore + MemoryWeight;
    }
    if m.errorRate > ErrorRateLimit {
      riskScore := riskScore + ErrorRateWeight;
    }
    willFail := riskScore >= FailScore;
  }

  /** Every one of the six possible scores is reached by some sample. */
  lemma EveryScoreLevelOccurs(v: int)
    requires v in {0, 30, 40, 60, 70, 100}
    ensures exists m :: RiskScore(m) == v
  {
    var cpu := if v in {40, 70, 100} then 90.0 else 50.0;
    var memory := if v in {30, 60, 70, 100} then 85.0 else 50.0;
    var errors := if v in {60, 100} then 5.0 else 1.0;
    var m := MetricSample(0.0, cpu, memory, errors, 0);
    assert RiskScore(m) == v;
  }

  /**
   A metric exactly at its limit contributes nothing; any amount above the
   limit contributes the full weight.
   */
  lemma ThresholdsAreStrict(t: real, commits: nat, above: real)
    requires above > 0.0
    ensures RiskScore(MetricSample(t, CpuLimit, MemoryLimit, ErrorRateLimit, commits)) == 0
    ensures RiskScore(MetricSample(t, CpuLimit + above, MemoryLimit, ErrorRateLimit, commits)) == CpuWeight
    ensures RiskScore(MetricSample(t, CpuLimit, MemoryLimit + above, ErrorRateLimit, commits)) == MemoryWeight
    ensures RiskScore(MetricSample(t, CpuLimit, MemoryLimit, ErrorRateLimit + above, commits)) == ErrorRateWeight
  {
  }

  /**
   Raising metrics never lowers the score and never withdraws a failure
   prediction; raising a single metric with the others fixed is the special
   case where the other two are equal.
   */
  lemma RiskIsMonotone(m: MetricSample, m': MetricSample)
    requires m.cpuUsage <= m'.cpuUsage
    requires m.memoryUsage <= m'.memoryUsage
    requires m.errorRate <= m'.errorRate
    ensures RiskScore(m) <= RiskScore(m')
    ensures WillFail(m) ==> WillFail(m')
  {
  }

  /**
   Memory and error rate above their limits are not enough on their own:
   with the CPU at or below its limit the score is at most 60.
   */
  lemma NoFailureWithoutCpu(m: MetricSample)
    requires m.cpuUsage <= CpuLimit
    ensures RiskScore(m) <= 60
    ensures !WillFail(m)
  {
  }

  /** The timestamp and the commit count play no part in the assessment. */
  lemma OnlyThreeMetricsMatter(m: MetricSample, m': MetricSample)
    requires m.cpuUsage == m'.cpuUsage
    requires m.memoryUsage == m'.memoryUsage
    requires m.errorRate == m'.errorRate
    ensures RiskScore(m) == RiskScore(m')
    ensures WillFail(m) == WillFail(m')
  {
  }

  /** Four worked samples: (cpu, memory, error rate) and the expected outcome. */
  lemma WorkedScenarios(t: real, commits: nat)
    ensures var m := MetricSample(t, 90.0, 50.0, 1.0, commits);
      RiskScore(m) == 40 && !WillFail(m)
    ensures var m := MetricSample(t, 90.0, 85.0, 1.0, commits);
      RiskScore(m) == 70 && WillFail(m)
    ensures var m := MetricSample(t, 50.0, 50.0, 5.0, commits);
      RiskScore(m) == 30 && !WillFail(m)
    ensures var m := MetricSample(t, 90.0, 85.0, 5.0, commits);
      RiskScore(m) == 100 && WillFail(m)
  {
  }
}
