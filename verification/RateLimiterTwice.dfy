/** When limiting a bucket again does no harm (common/rate_limiter.h).  The precondition of `rate_limit` is more than
    release on time needs: what matters is that no deadline still to come for the bucket lies after the new one. */
module RateLimiterTwice {
  import opened RateLimiterRuns

  // ----- Counting deadlines -----

  function Count(l: seq<Timer>, f: Timer -> bool): nat {
    if l == [] then 0 else (if f(l[0]) then 1 else 0) + Count(l[1..], f)
  }

  lemma {:induction false} CountAppend(l: seq<Timer>, r: seq<Timer>, f: Timer -> bool)
    ensures Count(l + r, f) == Count(l, f) + Count(r, f)
  {
    if l == [] {
      assert l + r == r;
    } else {
      assert (l + r)[1..] == l[1..] + r;
      CountAppend(l[1..], r, f);
    }
  }

  lemma CountInsert(l: seq<Timer>, k: nat, x: Timer, f: Timer -> bool)
    requires k <= |l|
    ensures Count(InsertAt(l, k, x), f) == Count(l, f) + (if f(x) then 1 else 0)
  {
    assert l == l[..k] + l[k..];
    CountAppend(l[..k], l[k..], f);
    CountAppend(l[..k] + [x], l[k..], f);
    CountAppend(l[..k], [x], f);
    assert Count([x], f) == (if f(x) then 1 else 0) + Count([], f);
  }

  lemma CountRemove(l: seq<Timer>, k: nat, f: Timer -> bool)
    requires k < |l|
    ensures Count(RemoveAt(l, k), f) + (if f(l[k]) then 1 else 0) == Count(l, f)
  {
    CountInsert(RemoveAt(l, k), k, l[k], f);
    assert InsertAt(RemoveAt(l, k), k, l[k]) == l;
  }

  lemma {:induction false} CountSome(l: seq<Timer>, f: Timer -> bool)
    ensures Count(l, f) > 0 <==> exists i :: 0 <= i < |l| && f(l[i])
  {
    if l != [] {
      CountSome(l[1..], f);
      if Count(l[1..], f) > 0 {
        var i :| 0 <= i < |l[1..]| && f(l[1..][i]);
        assert f(l[i + 1]);
      }
      if i :| 0 <= i < |l| && f(l[i]) {
        assert i > 0 ==> f(l[1..][i - 1]);
      }
    }
  }

  function Of(b: Bucket): Timer -> bool { (t: Timer) => t.bucket == b }

  function After(b: Bucket, x: Time): Timer -> bool { (t: Timer) => t.bucket == b && t.until > x }

  function By(b: Bucket, x: Time): Timer -> bool { (t: Timer) => t.bucket == b && t.until <= x }

  lemma {:induction false} CountSplit(l: seq<Timer>, b: Bucket, x: Time)
    ensures Count(l, Of(b)) == Count(l, After(b, x)) + Count(l, By(b, x))
  {
    if l != [] {
      CountSplit(l[1..], b, x);
    }
  }

  // ----- Timers and entries match where it matters -----

  /** The deadlines of the entries. */
  function Dues<T>(s: seq<Entry<T>>): seq<Timer> {
    seq(|s|, i requires 0 <= i < |s| => Timer(s[i].bucket, s[i].until))
  }

  /** As many timers as entries for every bucket, and for every time still to come as many after it. */
  ghost predicate Matched<T>(s: State<T>) {
    && (forall b :: Count(Dues(s.entries), Of(b)) == Count(s.timers, Of(b)))
    && (forall b, x :: x >= s.now ==> Count(Dues(s.entries), After(b, x)) == Count(s.timers, After(b, x)))
  }

  /** Within a bucket an entry whose deadline is still to come is before no entry with an earlier one. */
  ghost predicate Steady<T>(s: seq<Entry<T>>, now: Time) {
    forall i, j :: 0 <= i < j < |s| && s[i].bucket == s[j].bucket ==> s[i].until <= now || s[i].until <= s[j].until
  }

  ghost predicate Timely<T>(s: State<T>) {
    Sorted(s.entries) && Matched(s) && Steady(s.entries, s.now) && NoneEarly(s.released)
  }

  /** No deadline still to come for the bucket lies after the new one. */
  predicate Harmless<T>(s: State<T>, b: Bucket, until: Time) {
    forall i :: 0 <= i < |s.entries| && s.entries[i].bucket == b ==>
      s.entries[i].until <= until || s.entries[i].until <= s.now
  }

  predicate Moderate<T>(s: State<T>, m: Move<T>) {
    m.Limit? || m.LimitWith? ==> Harmless(s, m.bucket, m.until)
  }

  predicate ModerateRun<T>(s: State<T>, moves: seq<Move<T>>)
    decreases |moves|
  {
    moves == [] || (Moderate(s, moves[0]) && ModerateRun(Step(s, moves[0]), moves[1..]))
  }

  /** Keeping the stated precondition is a special case. */
  lemma {:induction false} AllowedIsModerate<T>(s: State<T>, moves: seq<Move<T>>)
    requires AllowedRun(s, moves)
    ensures ModerateRun(s, moves)
    decreases |moves|
  {
    hide Step;
    if moves != [] {
      AllowedIsModerate(Step(s, moves[0]), moves[1..]);
    }
  }

  /** An expired timer of a bucket means an expired entry of it, and the other way round. */
  lemma ExpiredTogether<T>(s: State<T>, b: Bucket)
    requires Matched(s)
    ensures (exists i :: 0 <= i < |s.timers| && By(b, s.now)(s.timers[i]))
        <==> (exists j :: 0 <= j < |s.entries| && By(b, s.now)(Dues(s.entries)[j]))
  {
    hide Count, Of, After, By;
    CountSplit(s.timers, b, s.now);
    CountSplit(Dues(s.entries), b, s.now);
    CountSome(s.timers, By(b, s.now));
    CountSome(Dues(s.entries), By(b, s.now));
  }

  /** So the entry a callback finds, the oldest of its bucket, has expired too. */
  lemma FoundExpired<T>(s: State<T>, i: nat)
    requires Sorted(s.entries) && Matched(s) && Steady(s.entries, s.now)
    requires i < |s.timers| && s.timers[i].until <= s.now
    ensures var k := LowerBound(s.entries, s.timers[i].bucket);
            k < |s.entries| && s.entries[k].bucket == s.timers[i].bucket && s.entries[k].until <= s.now
  {
    hide Matched, LowerBound, Find;
    var b := s.timers[i].bucket;
    assert By(b, s.now)(s.timers[i]);
    ExpiredTogether(s, b);
    var j :| 0 <= j < |s.entries| && By(b, s.now)(Dues(s.entries)[j]);
    assert s.entries[j].bucket == b;
    LowerBoundHits(s.entries, b);
  }

  // ----- Every step keeps it -----

  lemma MatchedLimit<T>(s: State<T>, b: Bucket, until: Time, objs: seq<T>)
    requires Matched(s)
    ensures Matched(LimitStep(s, b, until, objs))
  {
    hide Count, Of, After, By, UpperBound;
    var t := LimitStep(s, b, until, objs);
    var (k, x) := (UpperBound(s.entries, b), Timer(b, until));
    assert Dues(t.entries) == InsertAt(Dues(s.entries), k, x);
    assert t.timers == InsertAt(s.timers, |s.timers|, x);
    forall c ensures Count(Dues(t.entries), Of(c)) == Count(t.timers, Of(c)) {
      CountInsert(Dues(s.entries), k, x, Of(c));
      CountInsert(s.timers, |s.timers|, x, Of(c));
    }
    forall c, y | y >= t.now ensures Count(Dues(t.entries), After(c, y)) == Count(t.timers, After(c, y)) {
      CountInsert(Dues(s.entries), k, x, After(c, y));
      CountInsert(s.timers, |s.timers|, x, After(c, y));
    }
  }

  /** Removing an expired entry and an expired timer of one bucket. */
  lemma MatchedRemove<T>(s: State<T>, i: nat, k: nat, t: State<T>)
    requires Matched(s) && i < |s.timers| && k < |s.entries|
    requires s.timers[i].until <= s.now && s.entries[k].until <= s.now && s.entries[k].bucket == s.timers[i].bucket
    requires t.entries == RemoveAt(s.entries, k) && t.timers == RemoveAt(s.timers, i) && t.now == s.now
    ensures Matched(t)
  {
    hide Count;
    assert Dues(t.entries) == RemoveAt(Dues(s.entries), k);
    forall c ensures Count(Dues(t.entries), Of(c)) == Count(t.timers, Of(c)) {
      CountRemove(Dues(s.entries), k, Of(c));
      CountRemove(s.timers, i, Of(c));
    }
    forall c, y | y >= t.now ensures Count(Dues(t.entries), After(c, y)) == Count(t.timers, After(c, y)) {
      CountRemove(Dues(s.entries), k, After(c, y));
      CountRemove(s.timers, i, After(c, y));
    }
  }

  lemma InsertedAt<A>(s: seq<A>, k: nat, x: A, i: nat)
    requires k <= |s| && i <= |s|
    ensures |InsertAt(s, k, x)| == |s| + 1
    ensures InsertAt(s, k, x)[i] == if i < k then s[i] else if i == k then x else s[i - 1]
  {
  }

  lemma SteadyPair<T>(s: seq<Entry<T>>, e: Entry<T>, now: Time, i: nat, j: nat)
    requires Sorted(s) && Steady(s, now) && i < j <= |s|
    requires forall i :: 0 <= i < |s| && s[i].bucket == e.bucket ==> s[i].until <= e.until || s[i].until <= now
    ensures var t := InsertAt(s, UpperBound(s, e.bucket), e);
            |t| == |s| + 1 && (t[i].bucket == t[j].bucket ==> t[i].until <= now || t[i].until <= t[j].until)
  {
    hide InsertAt, UpperBound;
    var k := UpperBound(s, e.bucket);
    InsertedAt(s, k, e, i);
    InsertedAt(s, k, e, j);
    if i == k {
      assert e.bucket < s[k].bucket <= s[j - 1].bucket;
    }
  }

  lemma SteadyInsert<T>(s: seq<Entry<T>>, e: Entry<T>, now: Time)
    requires Sorted(s) && Steady(s, now)
    requires forall i :: 0 <= i < |s| && s[i].bucket == e.bucket ==> s[i].until <= e.until || s[i].until <= now
    ensures Steady(InsertAt(s, UpperBound(s, e.bucket), e), now)
  {
    hide InsertAt, UpperBound;
    var t := InsertAt(s, UpperBound(s, e.bucket), e);
    InsertedAt(s, UpperBound(s, e.bucket), e, 0);
    forall i, j | 0 <= i < j < |t| && t[i].bucket == t[j].bucket ensures t[i].until <= now || t[i].until <= t[j].until {
      SteadyPair(s, e, now, i, j);
    }
  }

  lemma SortedRemove<T>(s: seq<Entry<T>>, k: nat)
    requires Sorted(s) && k < |s|
    ensures |RemoveAt(s, k)| == |s| - 1 && Sorted(RemoveAt(s, k))
    ensures forall i :: 0 <= i < |s| - 1 ==> RemoveAt(s, k)[i] == s[if i < k then i else i + 1]
  {
  }

  lemma SteadyRemove<T>(s: seq<Entry<T>>, k: nat, now: Time)
    requires Sorted(s) && Steady(s, now) && k < |s|
    ensures Sorted(RemoveAt(s, k)) && Steady(RemoveAt(s, k), now)
  {
    hide RemoveAt;
    SortedRemove(s, k);
  }

  lemma FireKeepsTimely<T>(s: State<T>, i: nat)
    requires Timely(s) && i < |s.timers| && s.timers[i].until <= s.now
    ensures Timely(FireStep(s, i))
  {
    hide Matched, NoneEarly, RemoveAt, LowerBound, Batch;
    FoundExpired(s, i);
    var k := LowerBound(s.entries, s.timers[i].bucket);
    MatchedRemove(s, i, k, FireStep(s, i));
    SteadyRemove(s.entries, k, s.now);
    BatchOnTime(s.released, s.entries[k], s.now);
  }

  lemma LimitKeepsTimely<T>(s: State<T>, b: Bucket, until: Time, objs: seq<T>)
    requires Timely(s) && Harmless(s, b, until)
    ensures Timely(LimitStep(s, b, until, objs))
  {
    hide Matched, InsertAt, UpperBound;
    MatchedLimit(s, b, until, objs);
    SortedInsert(s.entries, Entry(b, until, objs));
    SteadyInsert(s.entries, Entry(b, until, objs), s.now);
  }

  lemma HoldKeepsTimely<T>(s: State<T>, b: Bucket, x: T)
    requires Timely(s)
    ensures Timely(HoldStep(s, b, x))
  {
    hide Count;
    assert Dues(HoldStep(s, b, x).entries) == Dues(s.entries);
  }

  lemma StepKeepsTimely<T>(s: State<T>, m: Move<T>)
    requires Timely(s) && Moderate(s, m)
    ensures Timely(Step(s, m))
  {
    hide Count;
    match m
    case Hold(b, x) => HoldKeepsTimely(s, b, x);
    case Limit(b, until) => LimitKeepsTimely(s, b, until, []);
    case LimitWith(b, until, x) => LimitKeepsTimely(s, b, until, [x]);
    case Tick(t) =>
    case Fire(i) =>
      if i < |s.timers| && s.timers[i].until <= s.now {
        FireKeepsTimely(s, i);
      }
  }

  /** Nothing is released early on any run on which each call's deadline is at or after those still to come for
      its bucket. */
  lemma {:induction false} RunKeepsTimely<T>(s: State<T>, moves: seq<Move<T>>)
    requires Timely(s) && ModerateRun(s, moves)
    ensures Timely(Run(s, moves)) && NoneEarly(Run(s, moves).released)
    decreases |moves|
  {
    hide Step, Matched, Steady;
    if moves != [] {
      StepKeepsTimely(s, moves[0]);
      RunKeepsTimely(Step(s, moves[0]), moves[1..]);
    }
  }

  lemma NoneEarlyFromTheStart<T>(now: Time, moves: seq<Move<T>>)
    requires ModerateRun(Init<T>(now), moves)
    ensures NoneEarly(Run(Init<T>(now), moves).released)
  {
    assert Timely(Init<T>(now));
    RunKeepsTimely(Init<T>(now), moves);
  }

  // ----- And no less will do -----

  predicate LimitFree<T>(moves: seq<Move<T>>) {
    forall i :: 0 <= i < |moves| ==> !moves[i].Limit? && !moves[i].LimitWith?
  }

  lemma {:induction false} LimitFreeIsModerate<T>(s: State<T>, moves: seq<Move<T>>)
    requires LimitFree(moves)
    ensures ModerateRun(s, moves)
    decreases |moves|
  {
    hide Step;
    if moves != [] {
      assert forall i :: 0 <= i < |moves[1..]| ==> moves[1..][i] == moves[i + 1];
      LimitFreeIsModerate(Step(s, moves[0]), moves[1..]);
    }
  }

  /** Holding an object in the oldest entry of a bucket, not expired, and running an expired timer of it. */
  lemma EarlyNow<T>(s: State<T>, b: Bucket, i: nat, x: T)
    requires Sorted(s.entries) && Limited(s.entries, b) && s.entries[Find(s.entries, b)].until > s.now
    requires i < |s.timers| && s.timers[i].bucket == b && s.timers[i].until <= s.now
    ensures !NoneEarly(Run(s, [Hold(b, x), Fire(i)]).released)
  {
    hide Find, LowerBound, NoneEarly, Batch;
    var k := Find(s.entries, b);
    var s1 := HoldStep(s, b, x);
    assert s1.entries[k].bucket == b;
    assert forall l :: 0 <= l < |s.entries| ==> s1.entries[l].bucket == s.entries[l].bucket;
    LowerBoundHits(s1.entries, b);
    assert Find(s1.entries, b) == k;
    var s2 := FireStep(s1, i);
    BatchEarly(s.released, s1.entries[k], s.now);
    var moves: seq<Move<T>> := [Hold(b, x), Fire(i)];
    var last: seq<Move<T>> := [Fire(i)];
    assert moves[1..] == last && last[1..] == [];
    assert Run(s, moves) == Run(s1, last) == Run(s2, last[1..]) == s2;
  }

  lemma TwoFree<T>(b: Bucket, x: T, i: nat)
    ensures LimitFree([Hold(b, x), Fire(i)])
  {
  }

  lemma OneMoreFree<T>(i: nat, rest: seq<Move<T>>)
    requires LimitFree(rest)
    ensures LimitFree([Fire(i)] + rest)
  {
  }

  /** An entry not yet expired, before an expired one of its bucket: the timers that have expired reach it. */
  lemma {:induction false} EarlyLater<T>(s: State<T>, b: Bucket, k: nat, j: nat, x: T) returns (moves: seq<Move<T>>)
    requires Sorted(s.entries) && Matched(s) && k < j < |s.entries|
    requires s.entries[k].bucket == b == s.entries[j].bucket && s.entries[j].until <= s.now < s.entries[k].until
    ensures LimitFree(moves) && !NoneEarly(Run(s, moves).released)
    decreases |s.entries|
  {
    hide Matched, NoneEarly, Find, LowerBound, Batch, RemoveAt, Sorted, LimitFree;
    assert By(b, s.now)(Dues(s.entries)[j]);
    ExpiredTogether(s, b);
    var i :| 0 <= i < |s.timers| && By(b, s.now)(s.timers[i]);
    LowerBoundHits(s.entries, b);
    var f := Find(s.entries, b);
    if s.entries[f].until > s.now {
      EarlyNow(s, b, i, x);
      moves := [Hold(b, x), Fire(i)];
      TwoFree(b, x, i);
    } else {
      var t := FireStep(s, i);
      MatchedRemove(s, i, f, t);
      SortedRemove(s.entries, f);
      var rest := EarlyLater(t, b, k - 1, j - 1, x);
      moves := [Fire(i)] + rest;
      OneMoreFree(i, rest);
      assert moves[1..] == rest;
    }
  }

  /** Limiting a bucket does no harm, whatever follows of calls that do none, exactly when no deadline still to come
      for it lies after the new one. */
  lemma HarmlessExactly<T>(s: State<T>, b: Bucket, until: Time, objs: seq<T>, x: T)
    requires Timely(s)
    ensures Harmless(s, b, until) <==>
            forall moves :: ModerateRun(LimitStep(s, b, until, objs), moves) ==>
              NoneEarly(Run(LimitStep(s, b, until, objs), moves).released)
  {
    hide Matched, Steady, NoneEarly, InsertAt, UpperBound;
    var t := LimitStep(s, b, until, objs);
    if Harmless(s, b, until) {
      LimitKeepsTimely(s, b, until, objs);
      forall moves | ModerateRun(t, moves) ensures NoneEarly(Run(t, moves).released) {
        RunKeepsTimely(t, moves);
      }
    } else {
      var k :| 0 <= k < |s.entries| && s.entries[k].bucket == b && s.entries[k].until > until && s.entries[k].until > s.now;
      var moves := HarmDone(s, b, until, objs, k, x);
      LimitFreeIsModerate(t, moves);
    }
  }

  lemma HarmDone<T>(s: State<T>, b: Bucket, until: Time, objs: seq<T>, k: nat, x: T) returns (moves: seq<Move<T>>)
    requires Timely(s) && k < |s.entries| && s.entries[k].bucket == b
    requires s.entries[k].until > until && s.entries[k].until > s.now
    ensures LimitFree(moves) && !NoneEarly(Run(LimitStep(s, b, until, objs), moves).released)
  {
    hide NoneEarly, Count;
    var t := LimitStep(s, b, until, objs);
    var e := Entry(b, until, objs);
    var place := UpperBound(s.entries, b);
    MatchedLimit(s, b, until, objs);
    SortedInsert(s.entries, e);
    var v := if until < s.now then s.now else until;
    var u := Step(t, Tick(v));
    assert Matched(u);
    assert k < place && t.entries[k] == s.entries[k] && t.entries[place] == e;
    var rest := EarlyLater(u, b, k, place, x);
    moves := [Tick(v)] + rest;
    assert moves[1..] == rest;
  }
}
