/**
 * The integer part of the target display (app.js, `renderHeader` and
 * `renderRing`): the exp still needed for the target rank, and the progress
 * toward it in basis points (hundredths of a percent).
 */
module Progress {
  import opened Wrappers
  import opened Numbers

  /** Basis points of a full ring. */
  const Full: nat := 10000

  /** `targetExp - selCum`, shown as 0 once it is negative; null when the target has no exp. */
  function Need(targetExp: Option<nat>, cur: nat): (need: Option<nat>)
    ensures need.None? <==> targetExp.None?
    ensures need.Some? ==> cur + need.value >= targetExp.value
    ensures need.Some? && need.value > 0 ==> cur + need.value == targetExp.value
  {
    match targetExp
    case None => None
    case Some(t) =>
      var d := t - cur;
      Some(if d < 0 then 0 else d)
  }

  /**
   * `(currentCum * 10000n) / targetExp` clamped to the ring, or 0 when the target
   * exp is null or 0.
   */
  function ProgressBasisPoints(cur: nat, targetExp: Option<nat>): (bp: nat)
    ensures bp <= Full
    ensures targetExp.None? || targetExp.value == 0 ==> bp == 0
    ensures targetExp.Some? && targetExp.value > 0 ==> (bp == Full <==> cur >= targetExp.value)
    ensures targetExp.Some? && 0 < targetExp.value && cur < targetExp.value ==>
      bp * targetExp.value <= cur * Full < (bp + 1) * targetExp.value
  {
    if targetExp.Some? && targetExp.value > 0 then
      var t := targetExp.value;
      var p := cur * Full / t;
      QuotientBounds(cur * Full, t);
      ReachesFull(cur, t);
      Clamp(p, 0, Full)
    else 0
  }

  lemma QuotientBounds(x: nat, t: nat)
    requires t > 0
    ensures (x / t) * t <= x < (x / t + 1) * t
  {
  }

  lemma MulMonotone(a: nat, b: nat, c: nat)
    requires a <= b
    ensures a * c <= b * c
  {
  }

  /** The quotient reaches a full ring exactly when `cur` reaches the target. */
  lemma ReachesFull(cur: nat, t: nat)
    requires t > 0
    ensures cur * Full / t >= Full <==> cur >= t
  {
    var x := cur * Full;
    var q := x / t;
    QuotientBounds(x, t);
    if cur >= t {
      MulMonotone(t, cur, Full);
      if q < Full {
        MulMonotone(q + 1, Full, t);
        assert false;
      }
    } else {
      MulMonotone(cur + 1, t, Full);
      if q >= Full {
        MulMonotone(Full, q, t);
        assert false;
      }
    }
  }
}
