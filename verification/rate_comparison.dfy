/** The client's percentage against the backend's: the same quotient, rounded
    half up by the client and half to even by the backend. */
module RateComparison {
  import opened Rounding
  import Helpers
  import Stats

  /** The two agree except when the exact percentage ends in exactly .5 with an
      even whole part; there the client shows one more. */
  lemma {:induction false} ClientVersusBackendRate(present: nat, total: nat)
    ensures total == 0 ==> Helpers.CalculateAttendanceRate(present, total) == Stats.Rate(present, total) == 0
    ensures total > 0 ==>
      var n := 100 * present;
      Helpers.CalculateAttendanceRate(present, total)
        == Stats.Rate(present, total) + (if 2 * (n % total) == total && (n / total) % 2 == 0 then 1 else 0)
  {
    if total > 0 {
      HalfUpVersusHalfEven(100 * present, total);
    }
  }

  /** So they never differ by more than one. */
  lemma {:induction false} ClientAndBackendRatesClose(present: nat, total: nat)
    ensures 0 <= Helpers.CalculateAttendanceRate(present, total) - Stats.Rate(present, total) <= 1
  {
    ClientVersusBackendRate(present, total);
  }

  /** One out of eight: the backend reports 12, the client 13. */
  lemma OneOfEightDiffers()
    ensures Stats.Rate(1, 8) == 12 && Helpers.CalculateAttendanceRate(1, 8) == 13
  {
  }
}
