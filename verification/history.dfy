/** Whole histories of a user's activity and of sweeps, and an independent
    description of what the streak fields must say about such a history:
    the set of days the user was active on, runs of consecutive active days,
    and the points those days earn. The theorems here show that running the
    engine step by step agrees with that description. */
module History {
  import opened Wrappers
  import opened Calendar
  import opened Streak

  /** One qualifying activity: its kind and its timestamp. */
  datatype Activity = Activity(kind: Kind, at: int)

  /** One call into the engine: an activity, or a sweep at time `now`. */
  datatype Event = Act(activity: Activity) | SweepAt(now: int)

  function Time(e: Event): int
  {
    match e
    case Act(a) => a.at
    case SweepAt(now) => now
  }

  /** The record after the activities `acts`, in order, starting from `u`. */
  function Replay(u: UserStreak, acts: seq<Activity>): (r: UserStreak)
    ensures Valid(u) ==> Valid(r)
    ensures r.participationPoints >= u.participationPoints
    ensures r.longestStreak >= u.longestStreak
    ensures |acts| > 0 ==> r.lastPostDate.Some?
  {
    if |acts| == 0 then u
    else
      var a := acts[|acts| - 1];
      OnActivity(Replay(u, acts[..|acts| - 1]), a.kind, a.at)
  }

  /** The record after the events of `trace`, in order, starting from `u`.
      Its contract is the monotonicity of the lifetime counters: whatever the
      interleaving of activities and sweeps, neither the points nor the
      longest streak ever decrease, and a valid record stays valid. */
  function Run(u: UserStreak, trace: seq<Event>): (r: UserStreak)
    ensures Valid(u) ==> Valid(r)
    ensures r.participationPoints >= u.participationPoints
    ensures r.longestStreak >= u.longestStreak
  {
    if |trace| == 0 then u
    else
      var before := Run(u, trace[..|trace| - 1]);
      match trace[|trace| - 1]
      case Act(a) => OnActivity(before, a.kind, a.at)
      case SweepAt(now) => Sweep(before, now)
  }

  /** Activities arrive in time order. */
  predicate Chronological(acts: seq<Activity>)
  {
    forall i, j :: 0 <= i <= j < |acts| ==> acts[i].at <= acts[j].at
  }

  /** Events arrive in time order. */
  predicate ChronologicalEvents(trace: seq<Event>)
  {
    forall i, j :: 0 <= i <= j < |trace| ==> Time(trace[i]) <= Time(trace[j])
  }

  /** The activities of a trace, in order, without the sweeps. */
  function Activities(trace: seq<Event>): (acts: seq<Activity>)
    ensures forall a :: a in acts ==> Act(a) in trace
    ensures |acts| <= |trace|
  {
    if |trace| == 0 then []
    else
      var rest := Activities(trace[..|trace| - 1]);
      match trace[|trace| - 1]
      case Act(a) => rest + [a]
      case SweepAt(_) => rest
  }

  /** The calendar days on which at least one activity happened. */
  function ActiveDays(acts: seq<Activity>): set<int>
  {
    if |acts| == 0 then {}
    else ActiveDays(acts[..|acts| - 1]) + {DayOf(acts[|acts| - 1].at)}
  }

  /** Replies made on a day that already had an activity before them. */
  function SameDayReplies(acts: seq<Activity>): nat
  {
    if |acts| == 0 then 0
    else
      var a := acts[|acts| - 1];
      var rest := acts[..|acts| - 1];
      SameDayReplies(rest) + if a.kind == Reply && DayOf(a.at) in ActiveDays(rest) then 1 else 0
  }

  /** The number of consecutive days in `days` ending with day `d`. */
  function StreakEndingAt(days: set<int>, d: int): (n: nat)
    ensures n <= |days|
    ensures n == 0 <==> d !in days
    decreases |days|
  {
    if d in days then 1 + StreakEndingAt(days - {d}, d - 1) else 0
  }

  /** The run is what its name says: `d`, `d - 1`, ... down to `d - n + 1` are
      all in `days`, and the day just before them is not. */
  lemma {:induction false} StreakIsMaximalRun(days: set<int>, d: int)
    ensures var n := StreakEndingAt(days, d);
            && (forall e :: d - n < e <= d ==> e in days)
            && d - n !in days
    decreases |days|
  {
    if d in days {
      var n := StreakEndingAt(days - {d}, d - 1);
      StreakIsMaximalRun(days - {d}, d - 1);
      forall e | d - 1 - n < e <= d
        ensures e in days
      {
        if e < d {
          assert e in days - {d};
        }
      }
    }
  }

  /** `m` is the length of the longest run of consecutive days in `days`. */
  predicate IsLongestRun(days: set<int>, m: nat)
  {
    && (forall e {:trigger StreakEndingAt(days, e)} :: e in days ==> StreakEndingAt(days, e) <= m)
    && (days == {} ==> m == 0)
    && (days != {} ==> exists e :: e in days && StreakEndingAt(days, e) == m)
  }

  /** What the streak fields say about a chronological activity history:
      a fresh record if there was none; otherwise the date is the midnight of
      the last activity, the current streak is the run of active days ending
      on that day, the longest streak is the longest run of active days, and
      the points are one per active day plus one per reply on an already
      active day. */
  predicate MatchesHistory(u: UserStreak, acts: seq<Activity>)
  {
    if |acts| == 0 then u == NewUser()
    else
      var last := acts[|acts| - 1];
      && u.lastPostDate == Some(Midnight(last.at))
      && u.currentStreak == StreakEndingAt(ActiveDays(acts), DayOf(last.at))
      && IsLongestRun(ActiveDays(acts), u.longestStreak)
      && u.participationPoints == |ActiveDays(acts)| + SameDayReplies(acts)
  }

  /** In a chronological history no active day lies after the last activity's day. */
  lemma {:induction false} ActiveDaysBounded(acts: seq<Activity>)
    requires |acts| > 0 && Chronological(acts)
    ensures forall e :: e in ActiveDays(acts) ==> e <= DayOf(acts[|acts| - 1].at)
  {
    var rest := acts[..|acts| - 1];
    var last := acts[|acts| - 1];
    if |rest| > 0 {
      assert Chronological(rest);
      ActiveDaysBounded(rest);
      DayOfMonotone(rest[|rest| - 1].at, last.at);
    }
  }

  /** A day added above `e` does not change the run ending at `e`. */
  lemma {:induction false} StreakIgnoresLaterDay(days: set<int>, x: int, e: int)
    requires e < x
    ensures StreakEndingAt(days + {x}, e) == StreakEndingAt(days, e)
    decreases |days|
  {
    if e in days {
      assert (days + {x}) - {e} == (days - {e}) + {x};
      StreakIgnoresLaterDay(days - {e}, x, e - 1);
    }
  }

  /** A new day above every active day extends the run ending the day before. */
  lemma StreakOfNewLastDay(days: set<int>, d: int)
    requires forall e :: e in days ==> e < d
    ensures StreakEndingAt(days + {d}, d) == 1 + StreakEndingAt(days, d - 1)
  {
    assert (days + {d}) - {d} == days;
  }

  /** A new day above every active day makes the longest run the larger of
      the old longest run and the run ending on the new day. */
  lemma LongestRunExtends(days: set<int>, d: int, m: nat)
    requires forall e :: e in days ==> e < d
    requires IsLongestRun(days, m)
    ensures var s := StreakEndingAt(days + {d}, d);
            IsLongestRun(days + {d}, if m < s then s else m)
  {
    var s := StreakEndingAt(days + {d}, d);
    var m' := if m < s then s else m;
    forall e | e in days + {d}
      ensures StreakEndingAt(days + {d}, e) <= m'
    {
      if e != d {
        StreakIgnoresLaterDay(days, d, e);
      }
    }
    if m < s || days == {} {
      assert d in days + {d};
    } else {
      var w :| w in days && StreakEndingAt(days, w) == m;
      StreakIgnoresLaterDay(days, d, w);
      assert w in days + {d};
    }
  }

  /** An activity on a day after every active day: the streak fields move
      from the history `days` to the history `days + {d}`. */
  lemma NewDayStep(u: UserStreak, days: set<int>, kind: Kind, at: int)
    requires u.lastPostDate.Some?
    requires forall e :: e in days ==> e <= LastDay(u)
    requires LastDay(u) < DayOf(at)
    requires u.currentStreak == StreakEndingAt(days, LastDay(u))
    requires IsLongestRun(days, u.longestStreak)
    ensures var r := OnActivity(u, kind, at);
            && r.currentStreak == StreakEndingAt(days + {DayOf(at)}, DayOf(at))
            && IsLongestRun(days + {DayOf(at)}, r.longestStreak)
            && r.participationPoints == u.participationPoints + 1
  {
    var d := DayOf(at);
    StreakOfNewLastDay(days, d);
    LongestRunExtends(days, d, u.longestStreak);
    if d == LastDay(u) + 1 {
      assert OnActivity(u, kind, at) == CountDay(u, u.currentStreak + 1, at);
    } else {
      assert d - 1 !in days;
      assert OnActivity(u, kind, at) == CountDay(u, 1, at);
    }
  }

  /** Running the engine over a chronological activity history from a fresh
      user yields exactly the fields the history determines. */
  lemma {:induction false} ReplayMatchesHistory(acts: seq<Activity>)
    requires Chronological(acts)
    ensures MatchesHistory(Replay(NewUser(), acts), acts)
  {
    if |acts| == 0 {
      return;
    }
    var rest := acts[..|acts| - 1];
    var a := acts[|acts| - 1];
    var d := DayOf(a.at);
    var days := ActiveDays(rest);
    assert ActiveDays(acts) == days + {d};
    var r := Replay(NewUser(), acts);
    if |rest| == 0 {
      assert days == {};
      StreakOfNewLastDay(days, d);
      LongestRunExtends(days, d, 0);
      return;
    }
    assert Chronological(rest);
    ReplayMatchesHistory(rest);
    ActiveDaysBounded(rest);
    var u := Replay(NewUser(), rest);
    assert r == OnActivity(u, a.kind, a.at);
    var prev := rest[|rest| - 1].at;
    DayOfMonotone(prev, a.at);
    assert LastDay(u) == DayOf(prev);
    if d == DayOf(prev) {
      assert d in days;
      MidnightSameDay(prev, a.at);
      assert ActiveDays(acts) == days;
    } else {
      assert d !in days;
      NewDayStep(u, days, a.kind, a.at);
    }
  }

  /** With posts only, the points are exactly the number of active days:
      one point per calendar day, however many posts that day has. */
  lemma PostsEarnOnePointPerDay(acts: seq<Activity>)
    requires Chronological(acts)
    requires forall i :: 0 <= i < |acts| ==> acts[i].kind == Post
    ensures Replay(NewUser(), acts).participationPoints == |ActiveDays(acts)|
  {
    ReplayMatchesHistory(acts);
    NoSameDayRepliesWithoutReplies(acts);
  }

  lemma {:induction false} NoSameDayRepliesWithoutReplies(acts: seq<Activity>)
    requires forall i :: 0 <= i < |acts| ==> acts[i].kind == Post
    ensures SameDayReplies(acts) == 0
  {
    if |acts| > 0 {
      NoSameDayRepliesWithoutReplies(acts[..|acts| - 1]);
    }
  }

  /** In a chronological trace the sweeps matter only as its last events:
      the record equals the activities' replay, swept once at the last sweep
      if the trace ends with sweeps. */
  lemma {:induction false} RunCollapsesSweeps(u: UserStreak, trace: seq<Event>)
    requires ChronologicalEvents(trace)
    ensures Run(u, trace) == if |trace| > 0 && trace[|trace| - 1].SweepAt?
                             then Sweep(Replay(u, Activities(trace)), trace[|trace| - 1].now)
                             else Replay(u, Activities(trace))
  {
    if |trace| == 0 {
      return;
    }
    var rest := trace[..|trace| - 1];
    assert ChronologicalEvents(rest);
    RunCollapsesSweeps(u, rest);
    var x := Replay(u, Activities(rest));
    match trace[|trace| - 1]
    case Act(a) =>
      assert Activities(trace) == Activities(rest) + [a];
      assert Activities(trace)[..|Activities(trace)| - 1] == Activities(rest);
      if |rest| > 0 && rest[|rest| - 1].SweepAt? {
        SweepIsTransparentToLaterActivity(x, rest[|rest| - 1].now, a.kind, a.at);
      }
    case SweepAt(now) =>
      if |rest| > 0 && rest[|rest| - 1].SweepAt? {
        SweepAbsorbsEarlierSweep(x, rest[|rest| - 1].now, now);
      }
  }

  /** The activities of a chronological trace are chronological. */
  lemma {:induction false} ActivitiesChronological(trace: seq<Event>)
    requires ChronologicalEvents(trace)
    ensures Chronological(Activities(trace))
  {
    if |trace| == 0 {
      return;
    }
    var rest := trace[..|trace| - 1];
    assert ChronologicalEvents(rest);
    ActivitiesChronological(rest);
    match trace[|trace| - 1]
    case Act(a) =>
      var acts := Activities(trace);
      assert acts == Activities(rest) + [a];
      forall i | 0 <= i < |acts| - 1
        ensures acts[i].at <= a.at
      {
        assert acts[i] in Activities(rest);
        var k :| 0 <= k < |rest| && rest[k] == Act(acts[i]);
        assert Time(trace[k]) <= Time(trace[|trace| - 1]);
      }
    case SweepAt(_) =>
  }

  /** The whole engine from a fresh user, over any chronological sequence of
      posts, replies and sweeps: the fields agree with the activity history,
      except that a trace ending with a sweep has that sweep applied. */
  lemma EngineMatchesHistory(trace: seq<Event>)
    requires ChronologicalEvents(trace)
    ensures MatchesHistory(Replay(NewUser(), Activities(trace)), Activities(trace))
    ensures Run(NewUser(), trace) == if |trace| > 0 && trace[|trace| - 1].SweepAt?
                                     then Sweep(Replay(NewUser(), Activities(trace)), trace[|trace| - 1].now)
                                     else Replay(NewUser(), Activities(trace))
  {
    ActivitiesChronological(trace);
    ReplayMatchesHistory(Activities(trace));
    RunCollapsesSweeps(NewUser(), trace);
  }
}
