/** The periodic job that turns time passing without activity into broken
    streaks, applied to the whole user population. */
module CronJobs {
  import opened Streak

  /** `resetUserStreaks`: sweeps every user record at time `now`, in order.
      The population is a sequence of records; how records are loaded and
      saved is not modelled. */
  method ResetUserStreaks(users: seq<UserStreak>, now: int) returns (swept: seq<UserStreak>)
    ensures |swept| == |users|
    ensures forall i :: 0 <= i < |users| ==> swept[i] == Sweep(users[i], now)
    // every valid record stays valid, and keeps a nonzero streak only if it is live
    ensures forall i :: 0 <= i < |users| && Valid(users[i]) ==> Valid(swept[i])
    ensures forall i :: 0 <= i < |users| && Valid(users[i]) && swept[i].currentStreak > 0
              ==> IsLive(swept[i], now)
  {
    swept := [];
    var k := 0;
    while k < |users|
      invariant 0 <= k <= |users|
      invariant |swept| == k
      invariant forall i :: 0 <= i < k ==> swept[i] == Sweep(users[i], now)
    {
      swept := swept + [Sweep(users[k], now)];
      k := k + 1;
    }
  }
}
