/** The progress figure of the poll: the count as a share of the goal, capped at 100. */
module Poll {
  /** The number of votes that fills the progress bar. */
  const PollGoal: int := 100000

  /** `(count / POLL_GOAL) * 100`, replaced by 100 when it exceeds 100, in exact arithmetic. */
  function Percentage(count: int): (p: real)
    ensures p <= 100.0
    ensures count <= PollGoal ==> p == (count * 100) as real / PollGoal as real
    ensures count >= PollGoal ==> p == 100.0
    ensures 0 <= count ==> 0.0 <= p
    ensures count < 0 ==> p < 0.0
  {
    var raw := (count as real / PollGoal as real) * 100.0;
    if raw > 100.0 then 100.0 else raw
  }

  /** More votes never show a smaller percentage. */
  lemma PercentageMonotone(a: int, b: int)
    requires a <= b
    ensures Percentage(a) <= Percentage(b)
  {
  }

  /** Below the goal every extra vote moves the bar. */
  lemma PercentageStrictBelowGoal(a: int, b: int)
    requires a < b <= PollGoal
    ensures Percentage(a) < Percentage(b)
  {
  }
}
