/** The AI-usage penalty of assignment grading, as test-grading.js pins it down:
    five tiers of the detected AI percentage, each with a fixed deduction
    and a severity, and a final score that is the base score plus the
    (non-positive) deduction. The implementing function is not part of this
    model; the table below is the one the assertions of the test fix. */
module AiPenalty {
  import Wrappers

  datatype Severity = None | Low | Medium | High | Critical

  datatype PenaltyInfo = PenaltyInfo(penalty: int, severity: Severity)

  /** `calculateAIPenalty`: a missing percentage counts as no AI use. The
      severity ranks as the number of thresholds passed, and the penalty is
      the deduction of the severity. */
  function CalculatePenalty(ai: Wrappers.Option<int>): (r: PenaltyInfo)
    ensures Rank(r.severity) == if ai.None? then 0 else Passed(ai.value)
    ensures r.penalty == Deduction(r.severity)
  {
    if ai.None? || ai.value <= 20 then PenaltyInfo(0, None)
    else if ai.value <= 40 then PenaltyInfo(-10, Low)
    else if ai.value <= 60 then PenaltyInfo(-25, Medium)
    else if ai.value <= 80 then PenaltyInfo(-50, High)
    else PenaltyInfo(-100, Critical)
  }

  /** The deduction of each severity. */
  function Deduction(s: Severity): int {
    match s
    case None => 0
    case Low => -10
    case Medium => -25
    case High => -50
    case Critical => -100
  }

  /** The severity as a rank, `None` lowest. */
  function Rank(s: Severity): nat {
    match s
    case None => 0
    case Low => 1
    case Medium => 2
    case High => 3
    case Critical => 4
  }

  /** How many of the thresholds 20, 40, 60 and 80 the percentage passes. */
  function Passed(ai: int): nat {
    (if ai > 20 then 1 else 0) + (if ai > 40 then 1 else 0)
    + (if ai > 60 then 1 else 0) + (if ai > 80 then 1 else 0)
  }

  /** The final score of `gradeAssignment`. */
  function FinalScore(baseScore: int, ai: Wrappers.Option<int>): int {
    baseScore + CalculatePenalty(ai).penalty
  }

  /** More AI use never costs less, and never ranks lower. */
  lemma PenaltyMonotone(a: int, b: int)
    requires a <= b
    ensures CalculatePenalty(Wrappers.Some(b)).penalty <= CalculatePenalty(Wrappers.Some(a)).penalty
    ensures Rank(CalculatePenalty(Wrappers.Some(a)).severity) <= Rank(CalculatePenalty(Wrappers.Some(b)).severity)
  {
  }

  /** The deduction lies between nothing and the whole hundred, and is
      nothing exactly when the severity is `None`. */
  lemma PenaltyBounds(ai: Wrappers.Option<int>)
    ensures -100 <= CalculatePenalty(ai).penalty <= 0
    ensures CalculatePenalty(ai).penalty == 0 <==> CalculatePenalty(ai).severity == None
  {
  }

  /** The boundary values, the invalid inputs and the tier examples the
      test asserts. */
  lemma PenaltyExamples()
    ensures CalculatePenalty(Wrappers.None) == PenaltyInfo(0, None)
    ensures CalculatePenalty(Wrappers.Some(0)).penalty == 0 && CalculatePenalty(Wrappers.Some(20)).penalty == 0
    ensures CalculatePenalty(Wrappers.Some(21)).penalty == -10 && CalculatePenalty(Wrappers.Some(40)).penalty == -10
    ensures CalculatePenalty(Wrappers.Some(41)).penalty == -25 && CalculatePenalty(Wrappers.Some(60)).penalty == -25
    ensures CalculatePenalty(Wrappers.Some(61)).penalty == -50 && CalculatePenalty(Wrappers.Some(80)).penalty == -50
    ensures CalculatePenalty(Wrappers.Some(81)).penalty == -100 && CalculatePenalty(Wrappers.Some(100)).penalty == -100
    ensures CalculatePenalty(Wrappers.Some(-5)).penalty == 0 && CalculatePenalty(Wrappers.Some(150)).penalty == -100
    ensures CalculatePenalty(Wrappers.Some(15)) == PenaltyInfo(0, None)
    ensures CalculatePenalty(Wrappers.Some(35)) == PenaltyInfo(-10, Low)
    ensures CalculatePenalty(Wrappers.Some(55)) == PenaltyInfo(-25, Medium)
    ensures CalculatePenalty(Wrappers.Some(72)) == PenaltyInfo(-50, High)
    ensures CalculatePenalty(Wrappers.Some(92)) == PenaltyInfo(-100, Critical)
  {
  }

  /** The final score is the base score less at most a hundred, and equals
      it when no AI use is found. */
  lemma FinalScoreRange(baseScore: int, ai: Wrappers.Option<int>)
    ensures baseScore - 100 <= FinalScore(baseScore, ai) <= baseScore
    ensures FinalScore(baseScore, ai) - baseScore == Deduction(CalculatePenalty(ai).severity)
    ensures ai.None? || ai.value <= 20 ==> FinalScore(baseScore, ai) == baseScore
  {
    PenaltyBounds(ai);
  }
}
