/** calculateAttendanceRate of the mobile client: present out of total as a
    whole percentage, 0 when there is nothing to count, rounded as Math.round
    rounds (floor of x + 1/2, so a tie goes up). */
module Helpers {
  import opened Rounding

  function CalculateAttendanceRate(present: int, total: int): (r: int)
    ensures total == 0 ==> r == 0
    ensures total > 0 ==> -total <= 2 * (100 * present - r * total) < total
    ensures total < 0 ==> total <= 2 * (r * total - 100 * present) < -total
  {
    if total == 0 then 0
    else if total > 0 then RoundHalfUp(100 * present, total)
    else RoundHalfUp(-100 * present, -total)
  }

  /** For 0 <= present <= total the rate is a percentage. */
  lemma {:induction false} CalculateAttendanceRateBounds(present: int, total: int)
    requires 0 <= present <= total
    ensures 0 <= CalculateAttendanceRate(present, total) <= 100
  {
    if total > 0 {
      RoundExact(0, total);
      RoundExact(100, total);
      RoundHalfUpMonotonic(0, 100 * present, total);
      RoundHalfUpMonotonic(100 * present, 100 * total, total);
    }
  }

  /** Nobody present gives 0; everybody present gives 100. */
  lemma {:induction false} CalculateAttendanceRateExtremes(total: int)
    ensures CalculateAttendanceRate(0, total) == 0
    ensures total > 0 ==> CalculateAttendanceRate(total, total) == 100
  {
    if total > 0 {
      RoundExact(0, total);
      RoundExact(100, total);
    } else if total < 0 {
      RoundExact(0, -total);
    }
  }

  /** For a fixed positive total, more present never lowers the rate. */
  lemma {:induction false} CalculateAttendanceRateMonotonic(p1: int, p2: int, total: int)
    requires total > 0 && p1 <= p2
    ensures CalculateAttendanceRate(p1, total) <= CalculateAttendanceRate(p2, total)
  {
    RoundHalfUpMonotonic(100 * p1, 100 * p2, total);
  }

  /** One present out of eight is 12.5%, which Math.round takes up to 13. */
  lemma CalculateAttendanceRateTieGoesUp()
    ensures CalculateAttendanceRate(1, 8) == 13
  {
  }
}
