/** The participation-points / daily-streak engine: the streak fields of one
    user record and the two transitions that change them, the activity step
    run when the user creates a post or a reply, and the stale-streak sweep. */
module Streak {
  import opened Wrappers
  import opened Calendar

  /** The two kinds of qualifying activity: a top-level post (`/api/entry`)
      and a reply to an entry (`/api/entry/reply`). */
  datatype Kind = Post | Reply

  /** The streak fields of a user record. `lastPostDate` is the midnight
      timestamp of the day of the most recent counted activity, absent for a
      user who has never posted. */
  datatype UserStreak = UserStreak(
    currentStreak: nat,
    longestStreak: nat,
    participationPoints: nat,
    lastPostDate: Option<int>)

  /** The fields of a freshly created user record. */
  function NewUser(): (u: UserStreak)
    ensures Valid(u) && u.lastPostDate.None?
  {
    UserStreak(0, 0, 0, None)
  }

  /** What every reachable record satisfies: the current streak never exceeds
      the longest one, which never exceeds the points (every streak day earned
      a point); a stored date is a midnight; a user without a date has nothing,
      and a user with one has earned at least a point and a streak of one. */
  predicate Valid(u: UserStreak)
  {
    && u.currentStreak <= u.longestStreak <= u.participationPoints
    && (match u.lastPostDate
        case None => u.participationPoints == 0
        case Some(l) => IsMidnight(l) && 1 <= u.longestStreak)
  }

  /** The day of the last counted activity. */
  function LastDay(u: UserStreak): int
    requires u.lastPostDate.Some?
  {
    DayOf(u.lastPostDate.value)
  }

  /** The streak is still alive at `now`: the user has until the end of the
      day after their last activity to be active again. A user who has never
      posted has no live streak. */
  predicate IsLive(u: UserStreak, now: int)
  {
    u.lastPostDate.Some? && DayOf(now) - LastDay(u) <= 1
  }

  /** The record after an activity that opens a new day with streak `streak`:
      one more point, the longest streak raised to cover the new one, and the
      date moved to the midnight of the activity's day. */
  function CountDay(u: UserStreak, streak: nat, at: int): UserStreak
  {
    UserStreak(
      streak,
      if u.longestStreak < streak then streak else u.longestStreak,
      u.participationPoints + 1,
      Some(Midnight(at)))
  }

  /** The activity step, run when the user creates an entry of kind `kind` at
      timestamp `at`. By the day distance from the last activity:
      no previous activity, or two or more days: the streak restarts at 1;
      the next day: the streak grows by one; the same day: a post changes
      nothing. An activity dated before the last activity day changes nothing.

      A reply's point is not gated by the day's post point: a post and then a
      reply on the same day earn two points with a streak of one, while two
      posts on the same day earn one. The reply path is modelled as the post
      path plus a point for a reply on an already counted day. Two outcomes of
      this choice are not pinned down by the asserted behaviour: a second reply
      on the same day earns a point, and a post after a same-day reply earns
      none (see `ReplyThenPostOneDay`). */
  function OnActivity(u: UserStreak, kind: Kind, at: int): (r: UserStreak)
    ensures Valid(u) ==> Valid(r)
    // points never decrease and grow by at most one per activity
    ensures r.participationPoints == u.participationPoints
         || r.participationPoints == u.participationPoints + 1
    ensures r.longestStreak >= u.longestStreak
    ensures r.currentStreak <= u.currentStreak + 1
    // a counted activity stamps the midnight of its own day
    ensures r.lastPostDate != u.lastPostDate
            ==> r.lastPostDate == Some(Midnight(at)) && r.currentStreak >= 1
    // the record is never moved back to an earlier day
    ensures u.lastPostDate.Some? ==> r.lastPostDate.Some? && LastDay(u) <= LastDay(r)
    // after any activity not dated before the last one, the record is on its day
    ensures u.lastPostDate.None? || LastDay(u) <= DayOf(at)
            ==> r.lastPostDate == Some(Midnight(at)) || r.lastPostDate == u.lastPostDate
    ensures u.lastPostDate.None? || LastDay(u) <= DayOf(at)
            ==> r.lastPostDate.Some? && LastDay(r) == DayOf(at)
  {
    match u.lastPostDate
    case None => CountDay(u, 1, at)
    case Some(_) =>
      var delta := DayOf(at) - LastDay(u);
      if delta < 0 then u
      else if delta == 0 then
        if kind == Reply then u.(participationPoints := u.participationPoints + 1) else u
      else if delta == 1 then CountDay(u, u.currentStreak + 1, at)
      else CountDay(u, 1, at)
  }

  /** The stale-streak sweep for one user at time `now`: a streak whose last
      activity is two or more days before `now` drops to zero; nothing else
      in the record changes. */
  function Sweep(u: UserStreak, now: int): (r: UserStreak)
    // nothing but the current streak changes, and it can only drop to zero
    ensures r.currentStreak == 0 || r == u
    ensures r.(currentStreak := u.currentStreak) == u
    ensures Valid(u) ==> Valid(r)
    // a live streak is untouched; after the sweep only live streaks are nonzero
    ensures IsLive(u, now) ==> r == u
    ensures Valid(u) ==> (r.currentStreak > 0 <==> u.currentStreak > 0 && IsLive(u, now))
  {
    if u.currentStreak > 0 && u.lastPostDate.Some? && DayOf(now) - LastDay(u) >= 2
    then u.(currentStreak := 0)
    else u
  }

  /** A second post on the day of a counted post changes nothing: posting is
      rewarded once per day. */
  lemma SamePostDayIsIdempotent(u: UserStreak, s: int, t: int)
    requires DayOf(s) == DayOf(t)
    ensures OnActivity(OnActivity(u, Post, s), Post, t) == OnActivity(u, Post, s)
  {
  }

  /** Running the sweep again, at the same or a later time, is the same as
      running only the later sweep; in particular the sweep is idempotent. */
  lemma SweepAbsorbsEarlierSweep(u: UserStreak, n1: int, n2: int)
    requires n1 <= n2
    ensures Sweep(Sweep(u, n1), n2) == Sweep(u, n2)
  {
    DayOfMonotone(n1, n2);
  }

  /** A sweep never changes what a later activity produces: a streak the
      sweep zeroes is one the next activity would restart at 1 anyway. */
  lemma SweepIsTransparentToLaterActivity(u: UserStreak, now: int, kind: Kind, at: int)
    requires now <= at
    ensures OnActivity(Sweep(u, now), kind, at) == OnActivity(u, kind, at)
  {
    DayOfMonotone(now, at);
  }
}
