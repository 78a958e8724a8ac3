/** The asserted behaviour of the engine, one lemma per scenario, each stated
    for any timestamps with the same day distances as the scenario, starting
    from a freshly created user. The scenarios use the dates 2021-01-01,
    2021-01-02 and 2021-01-04 at midnight; `TestDates` shows those dates have
    the day distances the lemmas require. */
module Scenarios {
  import opened Wrappers
  import opened Calendar
  import opened Streak

  /** 2021-01-01T00:00 as milliseconds since the epoch, and the two later test dates. */
  const Jan1: int := 1_609_459_200_000
  const Jan2: int := Jan1 + MsPerDay
  const Jan4: int := Jan1 + 3 * MsPerDay

  lemma TestDates()
    ensures DayOf(Jan1) == 18628
    ensures DayOf(Jan2) == DayOf(Jan1) + 1 && DayOf(Jan4) == DayOf(Jan2) + 2
    ensures Midnight(Jan1) == Jan1 && Midnight(Jan2) == Jan2 && Midnight(Jan4) == Jan4
  {
  }

  /** Posts on two consecutive days: streak 2, longest 2, two points, and the
      date is the midnight of the second day. */
  lemma ConsecutivePosts(t1: int, t2: int)
    requires DayOf(t2) == DayOf(t1) + 1
    ensures var u := OnActivity(OnActivity(NewUser(), Post, t1), Post, t2);
            && u.currentStreak == 2 && u.longestStreak == 2
            && u.participationPoints == 2
            && u.lastPostDate == Some(Midnight(t2))
  {
  }

  /** Two posts on one day: streak 1, longest 1, one point; the date is that
      day's midnight. */
  lemma TwoPostsOneDay(t1: int, t2: int)
    requires DayOf(t2) == DayOf(t1)
    ensures var u := OnActivity(OnActivity(NewUser(), Post, t1), Post, t2);
            && u.currentStreak == 1 && u.longestStreak == 1
            && u.participationPoints == 1
            && u.lastPostDate == Some(Midnight(t2))
  {
    MidnightSameDay(t1, t2);
  }

  /** Posts on days D, D + 1 and D + 3: the gap restarts the streak at 1, the
      longest streak stays 2, and each day earned a point. */
  lemma MissedDayRestartsStreak(t1: int, t2: int, t3: int)
    requires DayOf(t2) == DayOf(t1) + 1 && DayOf(t3) == DayOf(t2) + 2
    ensures var u := OnActivity(OnActivity(OnActivity(NewUser(), Post, t1), Post, t2), Post, t3);
            && u.currentStreak == 1 && u.longestStreak == 2
            && u.participationPoints == 3
            && u.lastPostDate == Some(Midnight(t3))
  {
  }

  /** Post on D, sweep on D: streak 1; post on D + 1: streak 2; a sweep on
      D + 3 with no further post zeroes it. That the sweep on D + 1 keeps the
      streak at 2 follows from the model; the scenario reads the record before
      that sweep runs, so it only asserts the streak after the post. */
  lemma SweepAfterMissedDay(t1: int, t2: int, t4: int)
    requires DayOf(t2) == DayOf(t1) + 1 && DayOf(t4) == DayOf(t2) + 2
    ensures var s1 := Sweep(OnActivity(NewUser(), Post, t1), t1);
            var s2 := OnActivity(s1, Post, t2);
            var s3 := Sweep(s2, t2);
            && s1.currentStreak == 1
            && s2.currentStreak == 2
            && s3.currentStreak == 2
            && Sweep(s3, t4).currentStreak == 0
  {
  }

  /** A sweep after a single post keeps the streak exactly while the sweep's
      day is at most one day after the post's. */
  lemma SweepAfterOnePost(t: int, now: int)
    ensures Sweep(OnActivity(NewUser(), Post, t), now).currentStreak
            == if DayOf(now) - DayOf(t) <= 1 then 1 else 0
  {
  }

  /** A first reply earns a point and starts a streak. */
  lemma FirstReply(t: int)
    ensures var u := OnActivity(NewUser(), Reply, t);
            u.participationPoints == 1 && u.currentStreak == 1
  {
  }

  /** A post and then a reply on the same day: two points, streak 1. */
  lemma PostThenReplyOneDay(t1: int, t2: int)
    requires DayOf(t2) == DayOf(t1)
    ensures var u := OnActivity(OnActivity(NewUser(), Post, t1), Reply, t2);
            u.participationPoints == 2 && u.currentStreak == 1
  {
  }

  /** The other order on one day, which no scenario fixes: under the modelled
      reply rule, a reply and then a post earn one point, streak 1, because
      the post finds the day already counted. */
  lemma ReplyThenPostOneDay(t1: int, t2: int)
    requires DayOf(t2) == DayOf(t1)
    ensures var u := OnActivity(OnActivity(NewUser(), Reply, t1), Post, t2);
            u.participationPoints == 1 && u.currentStreak == 1
  {
  }

  /** Replies on two consecutive days: streak 2, two points. */
  lemma ConsecutiveReplies(t1: int, t2: int)
    requires DayOf(t2) == DayOf(t1) + 1
    ensures var u := OnActivity(OnActivity(NewUser(), Reply, t1), Reply, t2);
            u.participationPoints == 2 && u.currentStreak == 2
  {
  }
}
