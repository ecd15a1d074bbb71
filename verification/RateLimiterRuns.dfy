/** The rate limiter (common/rate_limiter.h) as a state machine: calls, the passing of time and timer
    callbacks in any order.  Buckets are compared with `std::less`; here they are integers. */
module RateLimiterRuns {
  import opened Wrappers

  type Bucket = int
  type Time = int

  datatype Entry<T> = Entry(bucket: Bucket, until: Time, objs: seq<T>)
  datatype Timer = Timer(bucket: Bucket, until: Time)
  datatype Release<T> = Release(bucket: Bucket, obj: T, until: Time, at: Time)

  /** `held` and `released` are history: what was taken in for which bucket, and what was given back under
      which deadline and when. */
  datatype State<T> = State(entries: seq<Entry<T>>, timers: seq<Timer>, now: Time,
                            held: seq<(Bucket, T)>, released: seq<Release<T>>)

  // ----- The searches -----

  predicate Sorted<T>(s: seq<Entry<T>>) {
    forall i, j :: 0 <= i < j < |s| ==> s[i].bucket <= s[j].bucket
  }

  predicate StrictlySorted<T>(s: seq<Entry<T>>) {
    forall i, j :: 0 <= i < j < |s| ==> s[i].bucket < s[j].bucket
  }

  predicate Limited<T>(s: seq<Entry<T>>, b: Bucket) {
    exists i :: 0 <= i < |s| && s[i].bucket == b
  }

  /** `ranges::find`: the first entry of the bucket, or the end. */
  function Find<T>(s: seq<Entry<T>>, b: Bucket): (k: nat)
    ensures k <= |s|
    ensures forall i :: 0 <= i < k ==> s[i].bucket != b
    ensures k < |s| ==> s[k].bucket == b
    ensures k < |s| <==> Limited(s, b)
  {
    if s == [] || s[0].bucket == b then 0
    else
      var k := Find(s[1..], b);
      assert Limited(s[1..], b) ==> Limited(s, b) by {
        if Limited(s[1..], b) {
          assert s[1..][k] == s[k + 1];
        }
      }
      assert Limited(s, b) ==> Limited(s[1..], b) by {
        if Limited(s, b) {
          var i :| 0 <= i < |s| && s[i].bucket == b;
          assert s[1..][i - 1] == s[i];
        }
      }
      1 + k
  }

  /** `ranges::upper_bound`: the first entry after the bucket's place. */
  function UpperBound<T>(s: seq<Entry<T>>, b: Bucket): (k: nat)
    ensures k <= |s| && forall i :: 0 <= i < k ==> s[i].bucket <= b
    ensures k < |s| ==> b < s[k].bucket
  {
    if s == [] || b < s[0].bucket then 0 else 1 + UpperBound(s[1..], b)
  }

  /** `ranges::lower_bound`. */
  function LowerBound<T>(s: seq<Entry<T>>, b: Bucket): (k: nat)
    ensures k <= |s| && forall i :: 0 <= i < k ==> s[i].bucket < b
    ensures k < |s| ==> b <= s[k].bucket
  {
    if s == [] || b <= s[0].bucket then 0 else 1 + LowerBound(s[1..], b)
  }

  /** In a sorted list the lower bound of a limited bucket is its first entry. */
  lemma LowerBoundHits<T>(s: seq<Entry<T>>, b: Bucket)
    requires Sorted(s) && Limited(s, b)
    ensures LowerBound(s, b) < |s| && s[LowerBound(s, b)].bucket == b && LowerBound(s, b) == Find(s, b)
  {
    var i :| 0 <= i < |s| && s[i].bucket == b;
    assert i >= LowerBound(s, b);
  }

  // ----- Steps -----

  datatype Move<T> = Hold(bucket: Bucket, obj: T) | Limit(bucket: Bucket, until: Time)
                   | LimitWith(bucket: Bucket, until: Time, obj: T) | Tick(to: Time) | Fire(timer: nat)

  function InsertAt<A>(s: seq<A>, k: nat, x: A): seq<A>
    requires k <= |s|
  {
    s[..k] + [x] + s[k..]
  }

  function RemoveAt<A>(s: seq<A>, k: nat): seq<A>
    requires k < |s|
  {
    s[..k] + s[k + 1..]
  }

  /** `maybe_rate_limit`. */
  function HoldStep<T>(s: State<T>, b: Bucket, x: T): State<T> {
    var k := Find(s.entries, b);
    if k == |s.entries| then s
    else s.(entries := s.entries[k := s.entries[k].(objs := s.entries[k].objs + [x])], held := s.held + [(b, x)])
  }

  /** Both forms of `rate_limit`, and the timer they start. */
  function LimitStep<T>(s: State<T>, b: Bucket, until: Time, objs: seq<T>): State<T> {
    s.(entries := InsertAt(s.entries, UpperBound(s.entries, b), Entry(b, until, objs)),
       timers := s.timers + [Timer(b, until)],
       held := s.held + seq(|objs|, i requires 0 <= i < |objs| => (b, objs[i])))
  }

  function Batch<T>(e: Entry<T>, now: Time): seq<Release<T>> {
    seq(|e.objs|, i requires 0 <= i < |e.objs| => Release(e.bucket, e.objs[i], e.until, now))
  }

  /** The timer callback. */
  function FireStep<T>(s: State<T>, i: nat): State<T>
    requires i < |s.timers|
  {
    var k := LowerBound(s.entries, s.timers[i].bucket);
    var rest := s.(timers := RemoveAt(s.timers, i));
    if k == |s.entries| then rest
    else rest.(entries := RemoveAt(s.entries, k), released := s.released + Batch(s.entries[k], s.now))
  }

  /** A move that cannot happen now changes nothing, so every sequence of moves is a run. */
  function Step<T>(s: State<T>, m: Move<T>): State<T> {
    match m
    case Hold(b, x) => HoldStep(s, b, x)
    case Limit(b, until) => LimitStep(s, b, until, [])
    case LimitWith(b, until, x) => LimitStep(s, b, until, [x])
    case Tick(t) => if s.now <= t then s.(now := t) else s
    case Fire(i) => if i < |s.timers| && s.timers[i].until <= s.now then FireStep(s, i) else s
  }

  function Run<T>(s: State<T>, moves: seq<Move<T>>): State<T>
    decreases |moves|
  {
    if moves == [] then s else Run(Step(s, moves[0]), moves[1..])
  }

  function Init<T>(now: Time): State<T> { State([], [], now, [], []) }

  /** The stated precondition of `rate_limit`: the bucket is not limited already. */
  predicate Allowed<T>(s: State<T>, m: Move<T>) {
    m.Limit? || m.LimitWith? ==> !Limited(s.entries, m.bucket)
  }

  predicate AllowedRun<T>(s: State<T>, moves: seq<Move<T>>)
    decreases |moves|
  {
    moves == [] || (Allowed(s, moves[0]) && AllowedRun(Step(s, moves[0]), moves[1..]))
  }

  // ----- What every run keeps, allowed or not -----

  function EntryBuckets<T>(s: seq<Entry<T>>): seq<Bucket> { seq(|s|, i requires 0 <= i < |s| => s[i].bucket) }

  function TimerBuckets(t: seq<Timer>): seq<Bucket> { seq(|t|, i requires 0 <= i < |t| => t[i].bucket) }

  /** Sorted, and as many timers as entries for every bucket. */
  ghost predicate Paired<T>(s: State<T>) {
    Sorted(s.entries) && multiset(EntryBuckets(s.entries)) == multiset(TimerBuckets(s.timers))
  }

  lemma InsertBuckets<T>(s: seq<Entry<T>>, k: nat, e: Entry<T>)
    requires k <= |s|
    ensures multiset(EntryBuckets(InsertAt(s, k, e))) == multiset(EntryBuckets(s)) + multiset{e.bucket}
  {
    var p := EntryBuckets(s);
    assert EntryBuckets(InsertAt(s, k, e)) == p[..k] + [e.bucket] + p[k..];
    assert p == p[..k] + p[k..];
  }

  lemma RemoveBuckets<T>(s: seq<Entry<T>>, k: nat)
    requires k < |s|
    ensures multiset(EntryBuckets(RemoveAt(s, k))) == multiset(EntryBuckets(s)) - multiset{s[k].bucket}
    ensures s[k].bucket in multiset(EntryBuckets(s))
  {
    var p := EntryBuckets(s);
    assert EntryBuckets(RemoveAt(s, k)) == p[..k] + p[k + 1..];
    assert p == p[..k] + [p[k]] + p[k + 1..];
  }

  lemma RemoveTimerBuckets(t: seq<Timer>, i: nat)
    requires i < |t|
    ensures multiset(TimerBuckets(RemoveAt(t, i))) == multiset(TimerBuckets(t)) - multiset{t[i].bucket}
    ensures t[i].bucket in multiset(TimerBuckets(t))
  {
    var p := TimerBuckets(t);
    assert TimerBuckets(RemoveAt(t, i)) == p[..i] + p[i + 1..];
    assert p == p[..i] + [p[i]] + p[i + 1..];
  }

  lemma SortedInsert<T>(s: seq<Entry<T>>, e: Entry<T>)
    requires Sorted(s)
    ensures Sorted(InsertAt(s, UpperBound(s, e.bucket), e))
    ensures StrictlySorted(s) && !Limited(s, e.bucket) ==> StrictlySorted(InsertAt(s, UpperBound(s, e.bucket), e))
  {
    var k := UpperBound(s, e.bucket);
    var t := InsertAt(s, k, e);
    forall i, j | 0 <= i < j < |t|
      ensures t[i].bucket <= t[j].bucket
      ensures StrictlySorted(s) && !Limited(s, e.bucket) ==> t[i].bucket < t[j].bucket
    {
      assert i < k ==> t[i] == s[i];
      assert i > k ==> t[i] == s[i - 1];
      assert j < k ==> t[j] == s[j];
      assert j > k ==> t[j] == s[j - 1];
      assert t[k] == e;
      assert j > k && k < |s| ==> s[k].bucket <= s[j - 1].bucket;
    }
  }

  /** The callback of a pending timer always finds an entry of its own bucket, the oldest one. */
  lemma CallbackHits<T>(s: State<T>, i: nat)
    requires Paired(s) && i < |s.timers|
    ensures var b := s.timers[i].bucket;
            var k := LowerBound(s.entries, b);
            k < |s.entries| && s.entries[k].bucket == b && k == Find(s.entries, b)
  {
    var b := s.timers[i].bucket;
    RemoveTimerBuckets(s.timers, i);
    assert b in multiset(EntryBuckets(s.entries));
    assert b in EntryBuckets(s.entries);
    var j :| 0 <= j < |s.entries| && EntryBuckets(s.entries)[j] == b;
    assert s.entries[j].bucket == b;
    LowerBoundHits(s.entries, b);
  }

  lemma LimitKeepsPaired<T>(s: State<T>, b: Bucket, until: Time, objs: seq<T>)
    requires Paired(s)
    ensures Paired(LimitStep(s, b, until, objs))
  {
    var e := Entry(b, until, objs);
    SortedInsert(s.entries, e);
    InsertBuckets(s.entries, UpperBound(s.entries, b), e);
    assert TimerBuckets(s.timers + [Timer(b, until)]) == TimerBuckets(s.timers) + [b];
  }

  lemma FireKeepsPaired<T>(s: State<T>, i: nat)
    requires Paired(s) && i < |s.timers|
    ensures Paired(FireStep(s, i))
  {
    CallbackHits(s, i);
    var k := LowerBound(s.entries, s.timers[i].bucket);
    RemoveTimerBuckets(s.timers, i);
    RemoveBuckets(s.entries, k);
  }

  lemma StepKeepsPaired<T>(s: State<T>, m: Move<T>)
    requires Paired(s)
    ensures Paired(Step(s, m))
  {
    match m
    case Hold(b, x) =>
      assert EntryBuckets(HoldStep(s, b, x).entries) == EntryBuckets(s.entries);
    case Limit(b, until) => LimitKeepsPaired(s, b, until, []);
    case LimitWith(b, until, x) => LimitKeepsPaired(s, b, until, [x]);
    case Tick(t) =>
    case Fire(i) =>
      if i < |s.timers| {
        FireKeepsPaired(s, i);
      }
  }

  /** Over every run, even one that limits a bucket twice: the entries stay sorted, each has a timer of its
      bucket still to come, and no callback finds another bucket's entry or the end. */
  lemma {:induction false} RunKeepsPaired<T>(s: State<T>, moves: seq<Move<T>>)
    requires Paired(s)
    ensures Paired(Run(s, moves))
    ensures forall i :: 0 <= i < |Run(s, moves).timers| ==>
              var r := Run(s, moves);
              LowerBound(r.entries, r.timers[i].bucket) < |r.entries|
              && r.entries[LowerBound(r.entries, r.timers[i].bucket)].bucket == r.timers[i].bucket
    decreases |moves|
  {
    if moves == [] {
      forall i | 0 <= i < |s.timers|
        ensures LowerBound(s.entries, s.timers[i].bucket) < |s.entries|
             && s.entries[LowerBound(s.entries, s.timers[i].bucket)].bucket == s.timers[i].bucket
      {
        CallbackHits(s, i);
      }
    } else {
      StepKeepsPaired(s, moves[0]);
      RunKeepsPaired(Step(s, moves[0]), moves[1..]);
    }
  }

  /** What the entries hold, and what was given back, with the buckets. */
  ghost function Stored<T>(s: seq<Entry<T>>): multiset<(Bucket, T)> {
    if s == [] then multiset{} else multiset(Tagged(s[0])) + Stored(s[1..])
  }

  function Tagged<T>(e: Entry<T>): seq<(Bucket, T)> { seq(|e.objs|, i requires 0 <= i < |e.objs| => (e.bucket, e.objs[i])) }

  function GivenBack<T>(log: seq<Release<T>>): seq<(Bucket, T)> {
    seq(|log|, i requires 0 <= i < |log| => (log[i].bucket, log[i].obj))
  }

  /** Nothing is lost or made up. */
  ghost predicate Conserved<T>(s: State<T>) {
    multiset(s.held) == multiset(GivenBack(s.released)) + Stored(s.entries)
  }

  lemma {:induction false} StoredInsert<T>(s: seq<Entry<T>>, k: nat, e: Entry<T>)
    requires k <= |s|
    ensures Stored(InsertAt(s, k, e)) == Stored(s) + multiset(Tagged(e))
  {
    var t := InsertAt(s, k, e);
    if k == 0 {
      assert t == [e] + s;
    } else {
      StoredInsert(s[1..], k - 1, e);
      assert t[1..] == InsertAt(s[1..], k - 1, e);
    }
  }

  lemma StoredRemove<T>(s: seq<Entry<T>>, k: nat)
    requires k < |s|
    ensures Stored(RemoveAt(s, k)) + multiset(Tagged(s[k])) == Stored(s)
  {
    hide Stored, InsertAt, RemoveAt, Tagged;
    InsertRemoved(s, k);
    StoredInsert(RemoveAt(s, k), k, s[k]);
  }

  lemma InsertRemoved<T>(s: seq<Entry<T>>, k: nat)
    requires k < |s|
    ensures k <= |RemoveAt(s, k)| && InsertAt(RemoveAt(s, k), k, s[k]) == s
  {
    var r := RemoveAt(s, k);
    assert r[..k] == s[..k] && r[k..] == s[k + 1..];
    assert s == s[..k] + [s[k]] + s[k + 1..];
  }

  lemma StoredHold<T>(s: seq<Entry<T>>, k: nat, x: T)
    requires k < |s|
    ensures Stored(s[k := s[k].(objs := s[k].objs + [x])]) == Stored(s) + multiset{(s[k].bucket, x)}
  {
    var e := s[k].(objs := s[k].objs + [x]);
    StoredRemove(s, k);
    StoredRemove(s[k := e], k);
    assert RemoveAt(s[k := e], k) == RemoveAt(s, k);
    assert Tagged(e) == Tagged(s[k]) + [(s[k].bucket, x)];
  }

  lemma StepConserves<T>(s: State<T>, m: Move<T>)
    requires Conserved(s)
    ensures Conserved(Step(s, m))
  {
    hide Stored, InsertAt, RemoveAt, UpperBound, LowerBound, Find;
    match m
    case Hold(b, x) =>
      var k := Find(s.entries, b);
      if k < |s.entries| {
        StoredHold(s.entries, k, x);
      }
    case Limit(b, until) =>
      StoredInsert(s.entries, UpperBound(s.entries, b), Entry(b, until, []));
    case LimitWith(b, until, x) =>
      StoredInsert(s.entries, UpperBound(s.entries, b), Entry(b, until, [x]));
      assert Tagged(Entry(b, until, [x])) == [(b, x)];
    case Tick(t) =>
    case Fire(i) =>
      if i < |s.timers| && s.timers[i].until <= s.now {
        var k := LowerBound(s.entries, s.timers[i].bucket);
        if k < |s.entries| {
          StoredRemove(s.entries, k);
          assert GivenBack(s.released + Batch(s.entries[k], s.now)) == GivenBack(s.released) + Tagged(s.entries[k]);
        }
      }
  }

  /** Over every run, allowed or not, each object held is released once or still stored, for its own bucket. */
  lemma {:induction false} RunConserves<T>(s: State<T>, moves: seq<Move<T>>)
    requires Conserved(s)
    ensures Conserved(Run(s, moves))
    decreases |moves|
  {
    hide Conserved;
    if moves != [] {
      StepConserves(s, moves[0]);
      RunConserves(Step(s, moves[0]), moves[1..]);
    }
  }

  // ----- What every allowed run keeps -----

  function HeldFor<T>(b: Bucket, log: seq<(Bucket, T)>): seq<T> {
    if log == [] then []
    else HeldFor(b, log[..|log| - 1]) + (if log[|log| - 1].0 == b then [log[|log| - 1].1] else [])
  }

  function ReleasedFor<T>(b: Bucket, log: seq<Release<T>>): seq<T> {
    if log == [] then []
    else ReleasedFor(b, log[..|log| - 1]) + (if log[|log| - 1].bucket == b then [log[|log| - 1].obj] else [])
  }

  /** The entry in force for a bucket. */
  function Lookup<T>(s: seq<Entry<T>>, b: Bucket): (e: Option<Entry<T>>)
    ensures e.Some? <==> Limited(s, b)
    ensures e.Some? ==> e.value.bucket == b && e.value in s
  {
    var k := Find(s, b);
    if k < |s| then Some(s[k]) else None
  }

  /** What is in the rate limiter for a bucket. */
  function Waiting<T>(b: Bucket, s: seq<Entry<T>>): seq<T> {
    match Lookup(s, b)
    case Some(e) => e.objs
    case None => []
  }

  /** One timer for each limited bucket, with the entry's own deadline, and no others. */
  ghost predicate Deadlines<T>(s: seq<Entry<T>>, timers: seq<Timer>) {
    && (forall i :: 0 <= i < |timers| ==>
          Lookup(s, timers[i].bucket).Some? && Lookup(s, timers[i].bucket).value.until == timers[i].until)
    && (forall i, j :: 0 <= i < j < |timers| ==> timers[i].bucket != timers[j].bucket)
    && (forall b :: Lookup(s, b).Some? ==> Timer(b, Lookup(s, b).value.until) in timers)
  }

  /** For every bucket, what was held, in order of arrival, is what was released and then what waits. */
  ghost predicate InOrder<T>(s: State<T>) {
    forall b: Bucket :: HeldFor(b, s.held) == ReleasedFor(b, s.released) + Waiting(b, s.entries)
  }

  predicate NoneEarly<T>(log: seq<Release<T>>) {
    forall i :: 0 <= i < |log| ==> log[i].until <= log[i].at
  }

  ghost predicate Inv<T>(s: State<T>) {
    StrictlySorted(s.entries) && Deadlines(s.entries, s.timers) && InOrder(s) && NoneEarly(s.released)
  }

  lemma HeldAppend<T>(b: Bucket, log: seq<(Bucket, T)>, c: Bucket, x: T)
    ensures HeldFor(b, log + [(c, x)]) == HeldFor(b, log) + (if c == b then [x] else [])
  {
    assert (log + [(c, x)])[..|log|] == log;
  }

  lemma {:induction false} ReleasedBatch<T>(b: Bucket, log: seq<Release<T>>, e: Entry<T>, now: Time)
    ensures ReleasedFor(b, log + Batch(e, now)) == ReleasedFor(b, log) + (if e.bucket == b then e.objs else [])
    decreases |e.objs|
  {
    var n := |e.objs|;
    if n == 0 {
      assert log + Batch(e, now) == log;
    } else {
      var f := e.(objs := e.objs[..n - 1]);
      ReleasedBatch(b, log, f, now);
      var all := log + Batch(e, now);
      assert all[..|all| - 1] == log + Batch(f, now);
      assert all[|all| - 1] == Release(e.bucket, e.objs[n - 1], e.until, now);
      assert e.objs == f.objs + [e.objs[n - 1]];
    }
  }

  /** In a strictly sorted list an entry is the one its bucket finds. */
  lemma LookupOwn<T>(s: seq<Entry<T>>, k: nat)
    requires StrictlySorted(s) && k < |s|
    ensures Find(s, s[k].bucket) == k && Lookup(s, s[k].bucket) == Some(s[k])
  {
  }

  lemma LookupNone<T>(s: seq<Entry<T>>, b: Bucket)
    requires forall i :: 0 <= i < |s| ==> s[i].bucket != b
    ensures Lookup(s, b) == None
  {
  }

  lemma LookupAfterInsert<T>(s: seq<Entry<T>>, e: Entry<T>, b: Bucket)
    requires StrictlySorted(s) && !Limited(s, e.bucket)
    ensures Lookup(InsertAt(s, UpperBound(s, e.bucket), e), b) == if b == e.bucket then Some(e) else Lookup(s, b)
  {
    hide Lookup, Find, UpperBound, Limited, Sorted;
    var k := UpperBound(s, e.bucket);
    var t := InsertAt(s, k, e);
    StrictIsSorted(s);
    SortedInsert(s, e);
    assert t[k] == e;
    if b == e.bucket {
      LookupOwn(t, k);
    } else if Find(s, b) < |s| {
      var f := Find(s, b);
      var g := if f < k then f else f + 1;
      assert t[g] == s[f];
      LookupOwn(s, f);
      LookupOwn(t, g);
    } else {
      LookupNone(s, b);
      LookupNone(t, b);
    }
  }

  lemma LookupAfterRemove<T>(s: seq<Entry<T>>, k: nat, b: Bucket)
    requires StrictlySorted(s) && k < |s|
    ensures StrictlySorted(RemoveAt(s, k))
    ensures Lookup(RemoveAt(s, k), b) == if b == s[k].bucket then None else Lookup(s, b)
  {
    hide Lookup, Find, Limited;
    var t := RemoveAt(s, k);
    if b == s[k].bucket || Find(s, b) == |s| {
      LookupNone(t, b);
      if b != s[k].bucket {
        LookupNone(s, b);
      }
    } else {
      var f := Find(s, b);
      var g := if f < k then f else f - 1;
      assert t[g] == s[f];
      LookupOwn(s, f);
      LookupOwn(t, g);
    }
  }

  lemma LookupAfterHold<T>(s: seq<Entry<T>>, k: nat, objs: seq<T>, b: Bucket)
    requires StrictlySorted(s) && k < |s|
    ensures StrictlySorted(s[k := s[k].(objs := objs)])
    ensures Lookup(s[k := s[k].(objs := objs)], b) == if b == s[k].bucket then Some(s[k].(objs := objs)) else Lookup(s, b)
  {
    hide Lookup, Find, Limited;
    var t := s[k := s[k].(objs := objs)];
    if b == s[k].bucket {
      LookupOwn(t, k);
    } else if Find(s, b) < |s| {
      LookupOwn(s, Find(s, b));
      LookupOwn(t, Find(s, b));
    } else {
      LookupNone(s, b);
      LookupNone(t, b);
    }
  }

  lemma LimitKeepsDeadlines<T>(s: seq<Entry<T>>, timers: seq<Timer>, e: Entry<T>)
    requires StrictlySorted(s) && Deadlines(s, timers) && !Limited(s, e.bucket)
    ensures Deadlines(InsertAt(s, UpperBound(s, e.bucket), e), timers + [Timer(e.bucket, e.until)])
  {
    hide Lookup, InsertAt, UpperBound, StrictlySorted, Limited;
    var (t, ts) := (InsertAt(s, UpperBound(s, e.bucket), e), timers + [Timer(e.bucket, e.until)]);
    forall b ensures Lookup(t, b) == if b == e.bucket then Some(e) else Lookup(s, b) {
      LookupAfterInsert(s, e, b);
    }
    assert ts[|timers|] == Timer(e.bucket, e.until);
    assert forall i :: 0 <= i < |timers| ==> ts[i] == timers[i] && Lookup(s, timers[i].bucket).Some?;
    assert forall tm :: tm in timers ==> tm in ts;
  }

  lemma FireKeepsDeadlines<T>(s: seq<Entry<T>>, timers: seq<Timer>, i: nat, k: nat)
    requires StrictlySorted(s) && Deadlines(s, timers) && i < |timers| && k < |s| && s[k].bucket == timers[i].bucket
    ensures Deadlines(RemoveAt(s, k), RemoveAt(timers, i))
  {
    hide Lookup, StrictlySorted, Limited;
    var (t, ts) := (RemoveAt(s, k), RemoveAt(timers, i));
    forall b ensures Lookup(t, b) == if b == s[k].bucket then None else Lookup(s, b) {
      LookupAfterRemove(s, k, b);
    }
    assert forall j :: 0 <= j < |ts| ==> ts[j] == timers[if j < i then j else j + 1];
    forall tm | tm in timers && tm != timers[i] ensures tm in ts {
      var g :| 0 <= g < |timers| && timers[g] == tm;
      assert ts[if g < i then g else g - 1] == tm;
    }
  }

  lemma HoldKeepsInv<T>(s: State<T>, b: Bucket, x: T)
    requires Inv(s)
    ensures Inv(HoldStep(s, b, x))
  {
    hide HeldFor, ReleasedFor, Lookup, Limited, StrictlySorted, NoneEarly;
    var t := HoldStep(s, b, x);
    var k := Find(s.entries, b);
    if k < |s.entries| {
      var e := s.entries[k].(objs := s.entries[k].objs + [x]);
      LookupOwn(s.entries, k);
      forall c ensures Lookup(t.entries, c) == if c == b then Some(e) else Lookup(s.entries, c) {
        LookupAfterHold(s.entries, k, e.objs, c);
      }
      LookupAfterHold(s.entries, k, e.objs, b);
      forall c: Bucket ensures HeldFor(c, t.held) == ReleasedFor(c, t.released) + Waiting(c, t.entries) {
        HeldAppend(c, s.held, b, x);
        assert HeldFor(c, s.held) == ReleasedFor(c, s.released) + Waiting(c, s.entries);
      }
    }
  }

  lemma LimitKeepsInv<T>(s: State<T>, b: Bucket, until: Time, objs: seq<T>)
    requires Inv(s) && !Limited(s.entries, b) && |objs| <= 1
    ensures Inv(LimitStep(s, b, until, objs))
  {
    hide HeldFor, ReleasedFor, Deadlines, Lookup, InsertAt, UpperBound, Limited, StrictlySorted, NoneEarly;
    var e := Entry(b, until, objs);
    var t := LimitStep(s, b, until, objs);
    StrictIsSorted(s.entries);
    SortedInsert(s.entries, e);
    LimitKeepsDeadlines(s.entries, s.timers, e);
    forall c: Bucket ensures HeldFor(c, t.held) == ReleasedFor(c, t.released) + Waiting(c, t.entries) {
      LookupAfterInsert(s.entries, e, c);
      assert HeldFor(c, s.held) == ReleasedFor(c, s.released) + Waiting(c, s.entries);
      if objs == [] {
        assert t.held == s.held;
      } else {
        assert t.held == s.held + [(b, objs[0])];
        HeldAppend(c, s.held, b, objs[0]);
      }
    }
  }

  lemma StrictIsSorted<T>(s: seq<Entry<T>>)
    requires StrictlySorted(s)
    ensures Sorted(s)
  {
  }

  lemma BatchOnTime<T>(log: seq<Release<T>>, e: Entry<T>, now: Time)
    requires NoneEarly(log) && e.until <= now
    ensures NoneEarly(log + Batch(e, now))
  {
  }

  lemma FireKeepsInv<T>(s: State<T>, i: nat)
    requires Inv(s) && i < |s.timers| && s.timers[i].until <= s.now
    ensures Inv(FireStep(s, i))
  {
    hide HeldFor, ReleasedFor, Lookup, Limited, StrictlySorted, NoneEarly, RemoveAt, Batch, Sorted, LowerBound,
      Find;
    var b := s.timers[i].bucket;
    var t := FireStep(s, i);
    StrictIsSorted(s.entries);
    LowerBoundHits(s.entries, b);
    var k := LowerBound(s.entries, b);
    LookupOwn(s.entries, k);
    FireKeepsDeadlines(s.entries, s.timers, i, k);
    LookupAfterRemove(s.entries, k, b);
    BatchOnTime(s.released, s.entries[k], s.now);
    forall c: Bucket ensures HeldFor(c, t.held) == ReleasedFor(c, t.released) + Waiting(c, t.entries) {
      LookupAfterRemove(s.entries, k, c);
      ReleasedBatch(c, s.released, s.entries[k], s.now);
      assert HeldFor(c, s.held) == ReleasedFor(c, s.released) + Waiting(c, s.entries);
    }
  }

  lemma StepKeepsInv<T>(s: State<T>, m: Move<T>)
    requires Inv(s) && Allowed(s, m)
    ensures Inv(Step(s, m))
  {
    match m
    case Hold(b, x) => HoldKeepsInv(s, b, x);
    case Limit(b, until) => LimitKeepsInv(s, b, until, []);
    case LimitWith(b, until, x) => LimitKeepsInv(s, b, until, [x]);
    case Tick(t) =>
    case Fire(i) =>
      if i < |s.timers| && s.timers[i].until <= s.now {
        FireKeepsInv(s, i);
      }
  }

  lemma {:induction false} RunKeepsInv<T>(s: State<T>, moves: seq<Move<T>>)
    requires Inv(s) && AllowedRun(s, moves)
    ensures Inv(Run(s, moves))
    decreases |moves|
  {
    hide Inv;
    if moves != [] {
      StepKeepsInv(s, moves[0]);
      RunKeepsInv(Step(s, moves[0]), moves[1..]);
    }
  }

  // ----- The theorems -----

  /** Over every allowed run: one entry per limited bucket, and one timer with its own deadline; everything held for a bucket is
      released once, in order of arrival, or still waits, and nothing is released before its deadline. */
  lemma ReleasedOnceInOrderOnTime<T>(now: Time, moves: seq<Move<T>>)
    requires AllowedRun(Init<T>(now), moves)
    ensures var s := Run(Init<T>(now), moves);
            && StrictlySorted(s.entries) && |s.entries| == |s.timers| && Deadlines(s.entries, s.timers)
            && (forall b :: HeldFor(b, s.held) == ReleasedFor(b, s.released) + Waiting(b, s.entries))
            && (forall r :: 0 <= r < |s.released| ==> s.released[r].until <= s.released[r].at)
  {
    var s0 := Init<T>(now);
    assert Inv(s0);
    RunKeepsInv(s0, moves);
    RunKeepsPaired(s0, moves);
    var s := Run(s0, moves);
    assert |multiset(EntryBuckets(s.entries))| == |EntryBuckets(s.entries)|;
    assert |multiset(TimerBuckets(s.timers))| == |TimerBuckets(s.timers)|;
  }

  /** Once every timer has fired nothing is left behind: all that was held has been released. */
  lemma NothingLeftBehind<T>(now: Time, moves: seq<Move<T>>, b: Bucket)
    requires AllowedRun(Init<T>(now), moves) && Run(Init<T>(now), moves).timers == []
    ensures var s := Run(Init<T>(now), moves);
            s.entries == [] && HeldFor(b, s.held) == ReleasedFor(b, s.released)
  {
    ReleasedOnceInOrderOnTime(now, moves);
  }

  /** Only time passes and timers expire. */
  predicate Elapsing<T>(moves: seq<Move<T>>) {
    forall i :: 0 <= i < |moves| ==> moves[i].Tick? || moves[i].Fire?
  }

  lemma {:induction false} FireAll<T>(s: State<T>) returns (moves: seq<Move<T>>)
    requires Paired(s) && Conserved(s) && forall i :: 0 <= i < |s.timers| ==> s.timers[i].until <= s.now
    ensures Elapsing(moves) && Run(s, moves).timers == [] && Paired(Run(s, moves)) && Conserved(Run(s, moves))
    ensures Run(s, moves).held == s.held
    decreases |s.timers|
  {
    hide Paired, Conserved, FireStep;
    moves := [];
    if s.timers != [] {
      var m: Move<T> := Fire(0);
      var t := Step(s, m);
      StepKeepsPaired(s, m);
      StepConserves(s, m);
      FiredTimer(s);
      var rest := FireAll(t);
      moves := [m] + rest;
      assert moves[1..] == rest;
    }
  }

  lemma FiredTimer<T>(s: State<T>)
    requires s.timers != []
    ensures var t := FireStep(s, 0); t.timers == s.timers[1..] && t.now == s.now && t.held == s.held
  {
  }

  function Latest(timers: seq<Timer>, now: Time): (t: Time)
    ensures t >= now && forall i :: 0 <= i < |timers| ==> timers[i].until <= t
  {
    if timers == [] then now
    else
      var rest := Latest(timers[1..], now);
      if timers[0].until > rest then timers[0].until else rest
  }

  /** From every state of every run, allowed or not, letting time pass until all timers have run gives back each
      object held, once, for its own bucket. */
  lemma AllGivenBack<T>(now: Time, before: seq<Move<T>>) returns (moves: seq<Move<T>>)
    ensures Elapsing(moves)
    ensures var s := Run(Run(Init<T>(now), before), moves);
            && s.entries == [] && s.timers == [] && s.held == Run(Init<T>(now), before).held
            && multiset(GivenBack(s.released)) == multiset(s.held)
  {
    hide Run, Step, FireStep;
    var s0 := Init<T>(now);
    InitConserves<T>(now);
    RunKeepsPaired(s0, before);
    RunConserves(s0, before);
    var s := Run(s0, before);
    var m: Move<T> := Tick(Latest(s.timers, s.now));
    StepKeepsPaired(s, m);
    StepConserves(s, m);
    var t := Step(s, m);
    assert t == s.(now := Latest(s.timers, s.now)) by {
      TickMoves(s, Latest(s.timers, s.now));
    }
    var rest := FireAll(t);
    moves := [m] + rest;
    RunFirst(s, m, rest);
    NoTimersNoEntries(Run(t, rest));
  }

  lemma InitConserves<T>(now: Time)
    ensures Paired(Init<T>(now)) && Conserved(Init<T>(now))
  {
  }

  lemma TickMoves<T>(s: State<T>, to: Time)
    requires s.now <= to
    ensures Step(s, Tick(to)) == s.(now := to)
  {
  }

  lemma RunFirst<T>(s: State<T>, m: Move<T>, rest: seq<Move<T>>)
    ensures Run(s, [m] + rest) == Run(Step(s, m), rest)
  {
    assert ([m] + rest)[1..] == rest;
  }

  lemma NoTimersNoEntries<T>(s: State<T>)
    requires Paired(s) && Conserved(s) && s.timers == []
    ensures s.entries == [] && multiset(GivenBack(s.released)) == multiset(s.held)
  {
    assert TimerBuckets(s.timers) == [];
    assert |multiset(EntryBuckets(s.entries))| == |EntryBuckets(s.entries)| == |s.entries|;
  }

  /** The precondition is exactly what keeps a bucket to one entry. */
  lemma LimitNeedsFreeBucket<T>(s: State<T>, b: Bucket, until: Time, objs: seq<T>)
    requires Inv(s)
    ensures StrictlySorted(LimitStep(s, b, until, objs).entries) <==> !Limited(s.entries, b)
  {
    var e := Entry(b, until, objs);
    var k := UpperBound(s.entries, b);
    var t := LimitStep(s, b, until, objs).entries;
    StrictIsSorted(s.entries);
    SortedInsert(s.entries, e);
    if Limited(s.entries, b) {
      var f := Find(s.entries, b);
      assert f < k && t[f] == s.entries[f] && t[k] == e;
    }
  }

  /** A callback releases what the oldest entry of its bucket holds. */
  lemma FireReleases<T>(s: State<T>, i: nat)
    requires Paired(s) && i < |s.timers|
    ensures var k := Find(s.entries, s.timers[i].bucket);
            k < |s.entries| && FireStep(s, i).released == s.released + Batch(s.entries[k], s.now)
  {
    CallbackHits(s, i);
  }

  lemma BatchEarly<T>(log: seq<Release<T>>, e: Entry<T>, now: Time)
    requires e.objs != [] && now < e.until
    ensures !NoneEarly(log + Batch(e, now))
  {
    assert (log + Batch(e, now))[|log|] == Release(e.bucket, e.objs[0], e.until, now);
  }

  lemma PairedSorted<T>(s: State<T>)
    requires Paired(s)
    ensures Sorted(s.entries)
  {
  }

  /** And when it is broken with an earlier deadline than the one in force, the objects already held under the
      later one are released early: the new timer's callback finds the old entry. */
  lemma EarlyWhenLimitedTwice<T>(s: State<T>, b: Bucket, until: Time)
    requires Paired(s) && Limited(s.entries, b) && s.entries[Find(s.entries, b)].objs != []
    requires s.now <= until < s.entries[Find(s.entries, b)].until
    ensures !NoneEarly(Run(s, [Limit(b, until), Tick(until), Fire(|s.timers|)]).released)
  {
    hide Paired, LowerBound, NoneEarly, Batch, UpperBound, InsertAt, RemoveAt, Sorted, Find;
    var e := s.entries[Find(s.entries, b)];
    var moves: seq<Move<T>> := [Limit(b, until), Tick(until), Fire(|s.timers|)];
    var s1 := Step(s, moves[0]);
    var s2 := s1.(now := until);
    var s3 := FireStep(s2, |s.timers|);
    assert moves[1..] == [moves[1], moves[2]] && moves[1..][1..] == [moves[2]] && [moves[2]][1..] == [];
    assert Run(s, moves) == Run(s1, moves[1..]) == Run(s2, [moves[2]]) == Run(s3, []) == s3;
    StepKeepsPaired(s, moves[0]);
    StepKeepsPaired(s1, moves[1]);
    PairedSorted(s);
    OldestFirst(s.entries, Entry(b, until, []));
    FireReleases(s2, |s.timers|);
    BatchEarly(s.released, e, until);
  }

  lemma OldestFirst<T>(s: seq<Entry<T>>, e: Entry<T>)
    requires Limited(s, e.bucket)
    ensures var t := InsertAt(s, UpperBound(s, e.bucket), e);
            Sorted(s) ==> Find(t, e.bucket) == Find(s, e.bucket) < |t| && t[Find(t, e.bucket)] == s[Find(s, e.bucket)]
  {
    var (f, k) := (Find(s, e.bucket), UpperBound(s, e.bucket));
    if Sorted(s) {
      var t := InsertAt(s, k, e);
      assert f < k by {
        assert k < |s| ==> e.bucket < s[k].bucket;
      }
      assert t[f] == s[f] && forall i :: 0 <= i < f ==> t[i] == s[i];
    }
  }
}
