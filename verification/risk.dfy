/** The risk bar of a case card: the stored score clamped to a percentage. */
module Risk {
  import opened Wrappers

  /** `Math.max(0, Math.min(100, score ?? 0))`. */
  function RiskPercent(score: Option<real>): (pct: real)
    ensures 0.0 <= pct <= 100.0
    ensures score.None? ==> pct == 0.0
    ensures score.Some? && 0.0 <= score.value <= 100.0 ==> pct == score.value
    ensures score.Some? && score.value < 0.0 ==> pct == 0.0
    ensures score.Some? && score.value > 100.0 ==> pct == 100.0
  {
    var s := score.GetOr(0.0);
    if s < 0.0 then 0.0 else if s > 100.0 then 100.0 else s
  }
}
