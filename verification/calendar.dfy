/** Calendar-day arithmetic shared by the activity step and the sweep.

    A timestamp is an integer number of milliseconds on the local wall clock
    (the value `Date.getTime()` would give after shifting by the local
    timezone offset). A day index is the number of whole days since the epoch,
    rounded towards minus infinity, so that every timestamp belongs to exactly
    one day, including timestamps before the epoch.
 */
module Calendar {

  /** Milliseconds in one calendar day: 24 * 60 * 60 * 1000. */
  const MsPerDay: int := 86_400_000

  /** The day a timestamp falls on. Dafny's `/` on `int` is Euclidean, which
      for a positive divisor is floor division, as the day boundary needs. */
  function DayOf(t: int): int
  {
    t / MsPerDay
  }

  /** The timestamp of midnight at the start of day `d`. */
  function StartOfDay(d: int): int
  {
    d * MsPerDay
  }

  /** A timestamp with no time-of-day component. */
  predicate IsMidnight(t: int)
  {
    t % MsPerDay == 0
  }

  /** Midnight of the day `t` falls on, i.e. `setHours(0, 0, 0, 0)`:
      the last midnight not after `t`. */
  function Midnight(t: int): (m: int)
    ensures IsMidnight(m)
    ensures m <= t < m + MsPerDay
    ensures DayOf(m) == DayOf(t)
  {
    StartOfDay(DayOf(t))
  }

  /** Midnight is determined by the day alone: two timestamps share a
      midnight exactly when they share a day. */
  lemma MidnightSameDay(s: int, t: int)
    ensures Midnight(s) == Midnight(t) <==> DayOf(s) == DayOf(t)
  {
  }

  /** A later timestamp never falls on an earlier day. */
  lemma DayOfMonotone(s: int, t: int)
    requires s <= t
    ensures DayOf(s) <= DayOf(t)
  {
  }
}
