/** The rate limiter object (common/rate_limiter.h): its calls and its timer callback, each shown to be a
    step of `RateLimiterRuns`. */
module RateLimiter {
  import opened RateLimiterRuns

  class RateLimiter<T> {
    var entries: seq<Entry<T>>
    /** The timers started and not yet run by the io_context. */
    var timers: seq<Timer>
    ghost var now: Time
    ghost var held: seq<(Bucket, T)>
    ghost var released: seq<Release<T>>

    ghost function View(): State<T>
      reads this
    {
      State(entries, timers, now, held, released)
    }

    ghost predicate Valid()
      reads this
    {
      Paired(View())
    }

    constructor (start: Time)
      ensures Valid() && View() == Init(start)
    {
      entries, timers, now, held, released := [], [], start, [], [];
    }

    /** `maybe_rate_limit`: takes the object in if the bucket is limited. */
    method MaybeRateLimit(b: Bucket, thing: T) returns (limited: bool)
      requires Valid()
      modifies `entries, `held
      ensures Valid() && View() == HoldStep(old(View()), b, thing)
      ensures limited == Limited(old(entries), b)
      ensures held == if limited then old(held) + [(b, thing)] else old(held)
      ensures !limited ==> entries == old(entries)
      ensures limited ==>
                var k := Find(old(entries), b);
                && |entries| == |old(entries)|
                && entries[k] == Entry(b, old(entries)[k].until, old(entries)[k].objs + [thing])
                && forall i :: 0 <= i < |entries| && i != k ==> entries[i] == old(entries)[i]
    {
      StepKeepsPaired(View(), Hold(b, thing));
      var it := Find(entries, b);
      if it == |entries| {
        return false;
      }
      entries := entries[it := entries[it].(objs := entries[it].objs + [thing])];
      held := held + [(b, thing)];
      return true;
    }

    /** `rate_limit`, with no object or with one. */
    method RateLimit(b: Bucket, until: Time, objs: seq<T>)
      requires Valid() && |objs| <= 1
      modifies `entries, `timers, `held
      ensures Valid() && View() == LimitStep(old(View()), b, until, objs)
      ensures timers == old(timers) + [Timer(b, until)] && |entries| == |old(entries)| + 1
      ensures var k := UpperBound(old(entries), b);
              entries[k] == Entry(b, until, objs) && entries[..k] + entries[k + 1..] == old(entries)
    {
      LimitKeepsPaired(View(), b, until, objs);
      var where := UpperBound(entries, b);
      entries := entries[..where] + [Entry(b, until, objs)] + entries[where..];
      assert entries[where] == Entry(b, until, objs);
      assert entries[..where] + entries[where + 1..] == old(entries);
      held := held + seq(|objs|, i requires 0 <= i < |objs| => (b, objs[i]));
      MakeTimerForBucket(b, until);
    }

    method MakeTimerForBucket(b: Bucket, until: Time)
      modifies `timers
      ensures timers == old(timers) + [Timer(b, until)]
    {
      timers := timers + [Timer(b, until)];
    }

    /** The callback of a timer that has expired.  It uses what `lower_bound` finds without a check: there is
        always an entry there, of its own bucket. */
    method OnTimer(i: nat) returns (finished: seq<T>)
      requires Valid() && i < |timers| && timers[i].until <= now
      modifies `entries, `timers, `released
      ensures Valid() && View() == FireStep(old(View()), i)
      ensures Find(old(entries), old(timers[i]).bucket) < |old(entries)|
      ensures finished == old(entries)[Find(old(entries), old(timers[i]).bucket)].objs
      ensures timers == old(timers[..i] + timers[i + 1..]) && |entries| == |old(entries)| - 1
    {
      FireKeepsPaired(View(), i);
      CallbackHits(View(), i);
      var timer := timers[i];
      timers := timers[..i] + timers[i + 1..];
      var it := LowerBound(entries, timer.bucket);
      finished := entries[it].objs;
      released := released + Batch(entries[it], now);
      entries := entries[..it] + entries[it + 1..];
    }
  }
}
