# Participation points and daily streaks

A Dafny model of the participation-points / daily-streak engine of the ufit
backend. A user record carries four streak fields: `currentStreak`,
`longestStreak`, `participation_points` and `lastPostDate`. Two transitions
change them:

- the **activity step**, run when the user creates a post (`/api/entry`) or a
  reply (`/api/entry/reply`) at some time, and
- the **stale-streak sweep** (`resetUserStreaks` in `utils/cronJobs`), which
  zeroes the current streak of users whose last activity day is two or more
  days before "now".

The implementation of both lives in files that are not part of this model;
the behaviour modelled is the one asserted by
`backend/tests/participation_points_distribution.test.js`, and every test
scenario there is a lemma here.

Files:

- `calendar.dfy` (`Calendar`): timestamps as integer milliseconds, `DayOf`
  (floor to a day index), `Midnight` (the `setHours(0, 0, 0, 0)` of a
  timestamp).
- `wrappers.dfy` (`Wrappers`): `Option`, for the absent `lastPostDate`.
- `streak.dfy` (`Streak`): the `UserStreak` record, its invariant `Valid`,
  `OnActivity` and `Sweep`, and lemmas about one or two steps.
- `cron_jobs.dfy` (`CronJobs`): `ResetUserStreaks`, the sweep over the whole
  user population.
- `history.dfy` (`History`): traces of activities and sweeps, an independent
  description of what the fields must say about a history (the set of active
  days, runs of consecutive active days, points per active day), and the
  theorems that the engine agrees with it.
- `scenarios.dfy` (`Scenarios`): the test scenarios, stated for any
  timestamps with the scenario's day distances.

Modelling decisions:

- The activity step's day-distance table: no previous activity or a gap of two
  or more days restarts the streak at 1; the next day adds one to it; both
  award a point, raise `longestStreak` to at least `currentStreak` and set
  `lastPostDate` to the midnight of the activity's day. A second post on the
  same day changes nothing.
- A reply's point is not gated by the day's post point: a post and then a
  reply on one day earn two points with streak 1 (test lines 134-148), while
  two posts on one day earn one (lines 66-79). The model gives a reply the
  post's behaviour plus one point when it falls on a day already counted.
  The tests are equally consistent with a once-per-day rule for each kind
  separately; the two outcomes where the readings differ are listed under
  "## Left out".
- An activity dated before the last activity day is a no-op (neither the
  date nor any counter moves back). No test exercises it.
- The sweep takes "now" as a parameter instead of reading a mocked global
  clock.
- The record invariant `Valid` includes `longestStreak <= participation_points`,
  an extra property: every day that extends a streak also earns a point.
  That points never decrease is a separate, step-to-step fact, proved by the
  contracts of `OnActivity`, `Replay` and `Run`.

## Model

| member | source | states |
|---|---|---|
| Calendar.Midnight | backend/tests/participation_points_distribution.test.js:63 | the stored date is a midnight, on the same day as the timestamp, no later than it and less than a day before it |
| Calendar.MidnightSameDay | backend/tests/participation_points_distribution.test.js:75-78 | two timestamps share a midnight exactly when they share a calendar day |
| Calendar.DayOfMonotone | backend/tests/participation_points_distribution.test.js:50-57 | a later timestamp never falls on an earlier day |
| Streak.NewUser | backend/tests/participation_points_distribution.test.js:34-35 | a freshly created user has no date and satisfies the record invariant |
| Streak.OnActivity | backend/tests/participation_points_distribution.test.js:50-99 | the activity step keeps the invariant, never lowers points or the longest streak, raises points by at most one, never moves the date back, and leaves the record on the activity's own day (at its midnight) whenever the activity is not backdated |
| Streak.Sweep | backend/tests/participation_points_distribution.test.js:101-120 | the sweep changes only the current streak, only to zero, leaves a live streak (last activity today or yesterday) alone, and afterwards a valid record has a nonzero streak exactly when it had one and it is live |
| Streak.SamePostDayIsIdempotent | backend/tests/participation_points_distribution.test.js:66-79 | on any record, a second post on the same day as a post changes nothing |
| Streak.SweepAbsorbsEarlierSweep | backend/tests/participation_points_distribution.test.js:113-119 | a sweep followed by a sweep at the same or a later time equals the later sweep alone; the sweep is idempotent |
| Streak.SweepIsTransparentToLaterActivity | backend/tests/participation_points_distribution.test.js:101-120 | a sweep never changes the outcome of a later post or reply |
| CronJobs.ResetUserStreaks | backend/tests/participation_points_distribution.test.js:101-120 | sweeping the population sweeps each user, keeps valid records valid and leaves nonzero streaks only where they are live |
| History.Replay | backend/tests/participation_points_distribution.test.js:81-99 | over any sequence of activities the record stays valid, and neither points nor the longest streak decrease |
| History.Run | backend/tests/participation_points_distribution.test.js:101-120 | over any interleaving of activities and sweeps the record stays valid, and neither points nor the longest streak decrease |
| History.StreakIsMaximalRun | backend/tests/participation_points_distribution.test.js:81-99 | the reference streak ending on a day is a run of consecutive active days that cannot be extended backwards |
| History.LongestRunExtends | backend/tests/participation_points_distribution.test.js:81-99 | a new last active day makes the longest run the larger of the old longest run and the run ending on the new day |
| History.ReplayMatchesHistory | backend/tests/participation_points_distribution.test.js:50-99 | from a new user, after chronological activities: the date is the last activity's midnight, the current streak is the run of active days ending that day, the longest streak is the longest run of active days, and the points are the active days plus the replies on already active days |
| History.PostsEarnOnePointPerDay | backend/tests/participation_points_distribution.test.js:66-79 | with posts only, the points equal the number of distinct active days |
| History.RunCollapsesSweeps | backend/tests/participation_points_distribution.test.js:101-120 | in a chronological trace only trailing sweeps matter: the result is the activities' replay, swept at the last sweep if the trace ends with one |
| History.ActivitiesChronological | backend/tests/participation_points_distribution.test.js:101-120 | dropping the sweeps from a chronological trace leaves the activities chronological |
| History.EngineMatchesHistory | backend/tests/participation_points_distribution.test.js:50-166 | from a new user, any chronological trace of posts, replies and sweeps ends in the state the activity history determines, with a final sweep applied if the trace ends with one |
| Scenarios.TestDates | backend/tests/participation_points_distribution.test.js:52-56 | 2021-01-01, 2021-01-02 and 2021-01-04 at midnight are days 18628, 18629 and 18631 and are their own midnights |
| Scenarios.ConsecutivePosts | backend/tests/participation_points_distribution.test.js:50-64 | posts on consecutive days give streak 2, longest 2, 2 points and the second day's midnight |
| Scenarios.TwoPostsOneDay | backend/tests/participation_points_distribution.test.js:66-79 | two posts on one day give streak 1, longest 1, 1 point and that day's midnight |
| Scenarios.MissedDayRestartsStreak | backend/tests/participation_points_distribution.test.js:81-99 | posts on D, D+1, D+3 give streak 1, longest 2, 3 points and the last day's midnight |
| Scenarios.SweepAfterMissedDay | backend/tests/participation_points_distribution.test.js:101-120 | a sweep on the post's day keeps streak 1; after a post the next day the streak is 2; a sweep two days after that post zeroes it (that a sweep on the second day keeps streak 2 is a consequence of the model, not asserted: the record is read before that sweep) |
| Scenarios.SweepAfterOnePost | backend/tests/participation_points_distribution.test.js:101-119 | after a single post a sweep keeps the streak exactly when it runs at most one day later |
| Scenarios.FirstReply | backend/tests/participation_points_distribution.test.js:122-132 | a first reply gives 1 point and streak 1 |
| Scenarios.PostThenReplyOneDay | backend/tests/participation_points_distribution.test.js:134-148 | a post and a reply on one day give 2 points and streak 1 |
| Scenarios.ConsecutiveReplies | backend/tests/participation_points_distribution.test.js:150-166 | replies on consecutive days give streak 2 and 2 points |

## Left out

- HTTP requests, login and tokens, password hashing, and the creation of
  entries: fixture plumbing around the engine; an activity is just a kind and
  a timestamp.
- The user store (loading and saving records through mongoose, a missing
  user, storage errors and retries): the record is an immutable value and
  the population a sequence.
- The mocked global clock: every transition takes its time as a parameter.
- Timezones: timestamps are local wall-clock milliseconds, so `setHours(0, 0, 0, 0)`
  is floor division by a day; the test dates are read as midnights in a
  timezone at UTC. Daylight-saving days of 23 or 25 hours are not modelled.
- Concurrency between simultaneous posts, or between a post and the sweep:
  not sequential logic.
- The frontend (`frontend/src/App.jsx` route guards and rendering,
  `frontend/src/slices/userSlice.js` Redux reducers) and the user's other
  fields such as weight and height: unrelated to the engine.
- Two same-day reply outcomes are the modelled rule's choice, not fixed by
  the tests: a second reply on the same day earns a point, and a post after a
  same-day reply earns none (`Scenarios.ReplyThenPostOneDay`). Under a
  once-per-day rule for each kind the first would earn nothing and the second
  a point; the user record has no field that would track a reply day
  separately, so the model keeps the single `lastPostDate`.
