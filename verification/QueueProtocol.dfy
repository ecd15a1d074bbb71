/** The coroutine queue (`async_queue_maybe_better` in common/concurrent_async_queue.h) as a state
    machine: each step is one section under the queue's mutex, or one resumption after it, so pushes,
    pops, resumptions and cancellations interleave freely. */
module QueueProtocol {
  import opened Wrappers

  /** What the mutex guards.  The newest waiter is first. */
  datatype Core<T, W> = Core(ring: seq<T>, overflow: seq<T>, waiters: seq<W>)

  /** The queue a reader sees. */
  function Queued<T, W>(c: Core<T, W>): seq<T> { c.ring + c.overflow }

  /** The ring holds one value at most (see `AsyncQueue.FullMeansOne`), the overflow is used only while the ring is
      full, and nobody waits while a value is there. */
  predicate WellFormed<T, W>(c: Core<T, W>) {
    && |c.ring| <= 1
    && (c.overflow != [] ==> |c.ring| == 1)
    && (c.waiters != [] ==> c.ring == [])
  }

  /** The section of `push` under the mutex, and the waiter it takes out, to be resumed afterwards. */
  function Push<T, W>(c: Core<T, W>, x: T): (Core<T, W>, Option<W>) {
    if c.waiters != [] then (c.(waiters := c.waiters[1..]), Some(c.waiters[0]))
    else if |c.ring| == 1 then (c.(overflow := c.overflow + [x]), None)
    else (c.(ring := c.ring + [x]), None)
  }

  /** `pop_1`. */
  function Pop1<T, W>(c: Core<T, W>): (Core<T, W>, T)
    requires c.ring != []
  {
    if c.overflow != [] then (c.(ring := c.ring[1..] + [c.overflow[0]], overflow := c.overflow[1..]), c.ring[0])
    else (c.(ring := c.ring[1..]), c.ring[0])
  }

  /** `await_suspend`: a value at once, or the awaiter on top of the waiter stack. */
  function Suspend<T, W>(c: Core<T, W>, w: W): (Core<T, W>, Option<T>) {
    if c.ring != [] then
      var p := Pop1(c);
      (p.0, Some(p.1))
    else (c.(waiters := [w] + c.waiters), None)
  }

  /** A push appends to the queue unless somebody waits; then the queue was empty and the value goes
      straight to the newest waiter. */
  lemma PushAppends<T, W>(c: Core<T, W>, x: T)
    requires WellFormed(c)
    ensures WellFormed(Push(c, x).0)
    ensures Push(c, x).1.None? <==> c.waiters == []
    ensures Push(c, x).1.None? ==> Queued(Push(c, x).0) == Queued(c) + [x] && Push(c, x).0.waiters == []
    ensures Push(c, x).1.Some? ==> Queued(c) == [] == Queued(Push(c, x).0)
    ensures Push(c, x).1.Some? ==> c.waiters == [Push(c, x).1.value] + Push(c, x).0.waiters
  {
  }

  /** A pop takes the oldest value, and suspends exactly when there is none. */
  lemma SuspendTakes<T, W>(c: Core<T, W>, w: W)
    requires WellFormed(c)
    ensures WellFormed(Suspend(c, w).0)
    ensures Suspend(c, w).1.None? <==> Queued(c) == []
    ensures Suspend(c, w).1.Some? ==> Queued(c) == [Suspend(c, w).1.value] + Queued(Suspend(c, w).0)
    ensures Suspend(c, w).1.Some? ==> Suspend(c, w).0.waiters == c.waiters
    ensures Suspend(c, w).1.None? ==> Queued(Suspend(c, w).0) == [] && Suspend(c, w).0.waiters == [w] + c.waiters
  {
  }

  // ----- Runs -----

  /** One `co_await pop()`: its awaiter is used once. */
  type Popper = nat

  datatype Outcome<T> = Got(value: T) | Cancelled

  /** `handing`: taken out by a push, not resumed yet.  `cancelling`: the lists `cancel_all` calls have
      taken out and are walking.  `pushed`, `delivered` and `used` are history. */
  datatype State<T> = State(core: Core<T, Popper>, handing: seq<(Popper, T)>, cancelling: seq<seq<Popper>>,
                            outcome: map<Popper, Outcome<T>>,
                            pushed: seq<T>, delivered: seq<(Popper, T)>, used: set<Popper>)

  datatype Move<T> = DoPush(value: T) | DoResume(index: nat) | DoPop(who: Popper)
                   | DoCancel | DoCancelNext(list: nat)

  function Init<T>(): State<T> {
    State(Core([], [], []), [], [], map[], [], [], {})
  }

  function DropAt<A>(s: seq<A>, i: nat): seq<A>
    requires i < |s|
  {
    s[..i] + s[i + 1..]
  }

  function PushStep<T>(s: State<T>, x: T): State<T> {
    var (core, waiter) := Push(s.core, x);
    var next := s.(core := core, pushed := s.pushed + [x]);
    if waiter.None? then next
    else next.(handing := s.handing + [(waiter.value, x)], delivered := s.delivered + [(waiter.value, x)])
  }

  function ResumeStep<T>(s: State<T>, i: nat): State<T>
    requires i < |s.handing|
  {
    s.(handing := DropAt(s.handing, i), outcome := s.outcome[s.handing[i].0 := Got(s.handing[i].1)])
  }

  function PopStep<T>(s: State<T>, a: Popper): State<T> {
    var (core, value) := Suspend(s.core, a);
    var next := s.(core := core, used := s.used + {a});
    if value.None? then next
    else next.(outcome := s.outcome[a := Got(value.value)], delivered := s.delivered + [(a, value.value)])
  }

  function CancelStep<T>(s: State<T>): State<T> {
    s.(core := s.core.(waiters := []), cancelling := s.cancelling + [s.core.waiters])
  }

  function CancelNextStep<T>(s: State<T>, j: nat): State<T>
    requires j < |s.cancelling| && s.cancelling[j] != []
  {
    s.(cancelling := s.cancelling[j := s.cancelling[j][1..]], outcome := s.outcome[s.cancelling[j][0] := Cancelled])
  }

  /** A move that cannot be made now changes nothing, so every sequence of moves is a run. */
  function Step<T>(s: State<T>, m: Move<T>): State<T> {
    match m
    case DoPush(x) => PushStep(s, x)
    case DoResume(i) => if i < |s.handing| then ResumeStep(s, i) else s
    case DoPop(a) => if a !in s.used then PopStep(s, a) else s
    case DoCancel => CancelStep(s)
    case DoCancelNext(j) => if j < |s.cancelling| && s.cancelling[j] != [] then CancelNextStep(s, j) else s
  }

  function Run<T>(s: State<T>, moves: seq<Move<T>>): State<T>
    decreases |moves|
  {
    if moves == [] then s else Run(Step(s, moves[0]), moves[1..])
  }

  // ----- What every run keeps -----

  function Poppers<T>(h: seq<(Popper, T)>): seq<Popper> { seq(|h|, i requires 0 <= i < |h| => h[i].0) }

  function Values<T>(h: seq<(Popper, T)>): seq<T> { seq(|h|, i requires 0 <= i < |h| => h[i].1) }

  function Listed(lists: seq<seq<Popper>>): multiset<Popper> {
    if lists == [] then multiset{} else multiset(lists[0]) + Listed(lists[1..])
  }

  /** Everyone who ever popped, by where they are now. */
  ghost function Places<T>(s: State<T>): multiset<Popper> {
    multiset(s.core.waiters) + multiset(Poppers(s.handing)) + Listed(s.cancelling) + multiset(s.outcome.Keys)
  }

  /** Each delivered value went to a popper of its own, who has it or is about to be resumed with it, and
      nobody has or is about to have a value that was not delivered to them. */
  ghost predicate Delivery<T>(delivered: seq<(Popper, T)>, handing: seq<(Popper, T)>, outcome: map<Popper, Outcome<T>>) {
    && (forall k, l :: 0 <= k < l < |delivered| ==> delivered[k].0 != delivered[l].0)
    && (forall k :: 0 <= k < |delivered| ==> Reached(delivered[k], handing, outcome))
    && (forall k :: 0 <= k < |handing| ==> handing[k] in delivered)
    && (forall a :: a in outcome && outcome[a].Got? ==> (a, outcome[a].value) in delivered)
  }

  ghost predicate Reached<T>(d: (Popper, T), handing: seq<(Popper, T)>, outcome: map<Popper, Outcome<T>>) {
    d in handing || (d.0 in outcome && outcome[d.0] == Got(d.1))
  }

  ghost predicate Inv<T>(s: State<T>) {
    && WellFormed(s.core)
    && s.pushed == Values(s.delivered) + Queued(s.core)
    && Places(s) == multiset(s.used)
    && Delivery(s.delivered, s.handing, s.outcome)
  }

  // ----- Bookkeeping about the lists -----

  lemma {:induction false} ListedAppend(lists: seq<seq<Popper>>, l: seq<Popper>)
    ensures Listed(lists + [l]) == Listed(lists) + multiset(l)
  {
    if lists != [] {
      assert (lists + [l])[0] == lists[0] && (lists + [l])[1..] == lists[1..] + [l];
      ListedAppend(lists[1..], l);
    } else {
      assert lists + [l] == [l];
    }
  }

  lemma {:induction false} ListedNext(lists: seq<seq<Popper>>, j: nat)
    requires j < |lists| && lists[j] != []
    ensures Listed(lists[j := lists[j][1..]]) + multiset{lists[j][0]} == Listed(lists)
  {
    var after := lists[j := lists[j][1..]];
    if j == 0 {
      assert lists[0] == [lists[0][0]] + lists[0][1..];
      assert after[1..] == lists[1..];
    } else {
      assert after[1..] == lists[1..][j - 1 := lists[1..][j - 1][1..]];
      ListedNext(lists[1..], j - 1);
    }
  }

  lemma PoppersAppend<T>(h: seq<(Popper, T)>, a: Popper, x: T)
    ensures Poppers(h + [(a, x)]) == Poppers(h) + [a] && Values(h + [(a, x)]) == Values(h) + [x]
  {
  }

  lemma PoppersDrop<T>(h: seq<(Popper, T)>, i: nat)
    requires i < |h|
    ensures multiset(Poppers(DropAt(h, i))) + multiset{h[i].0} == multiset(Poppers(h))
  {
    var p := Poppers(h);
    assert Poppers(DropAt(h, i)) == p[..i] + p[i + 1..];
    assert p == p[..i] + [p[i]] + p[i + 1..];
  }

  lemma KeysAdd<T>(m: map<Popper, Outcome<T>>, a: Popper, o: Outcome<T>)
    requires a !in m
    ensures multiset(m[a := o].Keys) == multiset(m.Keys) + multiset{a}
  {
    assert m[a := o].Keys == m.Keys + {a};
  }

  /** Nobody is counted twice. */
  lemma OneOfEach<T>(s: State<T>, a: Popper)
    requires Places(s) == multiset(s.used)
    ensures Places(s)[a] == if a in s.used then 1 else 0
    ensures a in s.outcome ==> multiset(s.core.waiters)[a] == multiset(Poppers(s.handing))[a] == Listed(s.cancelling)[a] == 0
    ensures a in s.core.waiters || a in Poppers(s.handing) || a in Listed(s.cancelling) ==> a !in s.outcome
  {
    assert a in s.outcome ==> multiset(s.outcome.Keys)[a] == 1;
    assert a in s.core.waiters ==> multiset(s.core.waiters)[a] >= 1;
    assert a in Poppers(s.handing) ==> multiset(Poppers(s.handing))[a] >= 1;
  }

  lemma HandingIsCounted<T>(h: seq<(Popper, T)>, d: (Popper, T))
    requires d in h
    ensures d.0 in Poppers(h) && multiset(Poppers(h))[d.0] >= 1
  {
    var i :| 0 <= i < |h| && h[i] == d;
    assert Poppers(h)[i] == d.0;
  }

  /** A delivered popper is used and no longer in line. */
  lemma DeliveredIsOut<T>(s: State<T>, k: nat)
    requires Inv(s) && k < |s.delivered|
    ensures s.delivered[k].0 in s.used
    ensures s.delivered[k].0 !in s.core.waiters && s.delivered[k].0 !in Listed(s.cancelling)
  {
    var a := s.delivered[k].0;
    OneOfEach(s, a);
    assert Reached(s.delivered[k], s.handing, s.outcome);
    if s.delivered[k] in s.handing {
      HandingIsCounted(s.handing, s.delivered[k]);
    }
    assert a in s.outcome ==> multiset(s.outcome.Keys)[a] == 1;
    assert a in s.core.waiters ==> multiset(s.core.waiters)[a] >= 1;
  }

  // ----- Deliveries -----

  lemma DeliverToHanding<T>(d: seq<(Popper, T)>, h: seq<(Popper, T)>, o: map<Popper, Outcome<T>>, a: Popper, x: T)
    requires Delivery(d, h, o) && forall k :: 0 <= k < |d| ==> d[k].0 != a
    ensures Delivery(d + [(a, x)], h + [(a, x)], o)
  {
    var (d1, h1) := (d + [(a, x)], h + [(a, x)]);
    assert d1[|d|] == (a, x) == h1[|h|];
    forall k | 0 <= k < |d1| ensures Reached(d1[k], h1, o) {
      if k < |d| {
        assert Reached(d[k], h, o);
      }
    }
    assert forall k :: 0 <= k < |h| ==> h[k] in d;
  }

  lemma DeliverAtOnce<T>(d: seq<(Popper, T)>, h: seq<(Popper, T)>, o: map<Popper, Outcome<T>>, a: Popper, x: T)
    requires Delivery(d, h, o) && a !in o && forall k :: 0 <= k < |d| ==> d[k].0 != a
    ensures Delivery(d + [(a, x)], h, o[a := Got(x)])
  {
    var (d1, o1) := (d + [(a, x)], o[a := Got(x)]);
    assert d1[|d|] == (a, x);
    forall k | 0 <= k < |d1| ensures Reached(d1[k], h, o1) {
      if k < |d| {
        assert Reached(d[k], h, o);
      }
    }
  }

  lemma DeliverResumed<T>(d: seq<(Popper, T)>, h: seq<(Popper, T)>, o: map<Popper, Outcome<T>>, i: nat)
    requires Delivery(d, h, o) && i < |h| && h[i].0 !in o
    ensures Delivery(d, DropAt(h, i), o[h[i].0 := Got(h[i].1)])
  {
    var (h1, o1) := (DropAt(h, i), o[h[i].0 := Got(h[i].1)]);
    forall k | 0 <= k < |d| ensures Reached(d[k], h1, o1) {
      assert Reached(d[k], h, o);
      if d[k] in h && d[k] != h[i] {
        var j :| 0 <= j < |h| && h[j] == d[k];
        assert h1[if j < i then j else j - 1] == d[k];
      }
    }
    forall k | 0 <= k < |h1| ensures h1[k] in d {
      assert h1[k] == h[if k < i then k else k + 1];
    }
  }

  lemma DeliverCancelled<T>(d: seq<(Popper, T)>, h: seq<(Popper, T)>, o: map<Popper, Outcome<T>>, a: Popper)
    requires Delivery(d, h, o) && forall k :: 0 <= k < |d| ==> d[k].0 != a
    ensures Delivery(d, h, o[a := Cancelled])
  {
    forall k | 0 <= k < |d| ensures Reached(d[k], h, o[a := Cancelled]) {
      assert Reached(d[k], h, o);
    }
  }

  // ----- Each step keeps the invariant -----

  /** Joining a value to the end of the queue, to the end of what was delivered when the queue is empty, or
      from the front of the queue to the end of what was delivered. */
  lemma Conserved<T>(pushed: seq<T>, delivered: seq<T>, queue: seq<T>, x: T)
    ensures pushed == delivered + queue ==> pushed + [x] == delivered + (queue + [x])
    ensures pushed == delivered + queue && queue == [] ==> pushed + [x] == (delivered + [x]) + queue
    ensures pushed == delivered + ([x] + queue) ==> pushed == (delivered + [x]) + queue
  {
  }

  lemma PushKeeps<T>(s: State<T>, x: T)
    requires Inv(s)
    ensures Inv(PushStep(s, x))
  {
    hide Listed, Delivery, Values, Poppers, Queued, WellFormed, Push;
    var t := PushStep(s, x);
    var (core, waiter) := Push(s.core, x);
    PushAppends(s.core, x);
    if waiter.Some? {
      var a := waiter.value;
      assert s.core.waiters == [a] + core.waiters;
      PoppersAppend(s.handing, a, x);
      PoppersAppend(s.delivered, a, x);
      assert a in s.core.waiters;
      forall k | 0 <= k < |s.delivered| ensures s.delivered[k].0 != a {
        DeliveredIsOut(s, k);
      }
      DeliverToHanding(s.delivered, s.handing, s.outcome, a, x);
      Conserved(s.pushed, Values(s.delivered), Queued(s.core), x);
      assert Places(t) == Places(s);
    } else {
      Conserved(s.pushed, Values(s.delivered), Queued(s.core), x);
    }
  }

  lemma ResumeKeeps<T>(s: State<T>, i: nat)
    requires Inv(s) && i < |s.handing|
    ensures Inv(ResumeStep(s, i)) && s.handing[i].0 !in s.outcome
  {
    hide Listed, WellFormed, Queued, Values, Delivery, DropAt;
    var t := ResumeStep(s, i);
    var (a, x) := s.handing[i];
    assert Poppers(s.handing)[i] == a;
    OneOfEach(s, a);
    PoppersDrop(s.handing, i);
    KeysAdd(s.outcome, a, Got(x));
    DeliverResumed(s.delivered, s.handing, s.outcome, i);
    assert Places(t) == Places(s);
  }

  lemma PopKeeps<T>(s: State<T>, a: Popper)
    requires Inv(s) && a !in s.used
    ensures Inv(PopStep(s, a))
  {
    hide Listed, Delivery, Values, Poppers, Queued, WellFormed, Suspend;
    var t := PopStep(s, a);
    var (core, value) := Suspend(s.core, a);
    SuspendTakes(s.core, a);
    assert multiset(t.used) == multiset(s.used) + multiset{a};
    UnusedHasNoOutcome(s, a);
    if value.Some? {
      var x := value.value;
      PoppersAppend(s.delivered, a, x);
      KeysAdd(s.outcome, a, Got(x));
      forall k | 0 <= k < |s.delivered| ensures s.delivered[k].0 != a {
        DeliveredIsOut(s, k);
      }
      DeliverAtOnce(s.delivered, s.handing, s.outcome, a, x);
      Conserved(s.pushed, Values(s.delivered), Queued(core), x);
    } else {
      assert Places(t) == Places(s) + multiset{a};
    }
  }

  lemma CancelKeeps<T>(s: State<T>)
    requires Inv(s)
    ensures Inv(CancelStep(s))
  {
    ListedAppend(s.cancelling, s.core.waiters);
    assert Queued(CancelStep(s).core) == Queued(s.core);
  }

  lemma CancelNextKeeps<T>(s: State<T>, j: nat)
    requires Inv(s) && j < |s.cancelling| && s.cancelling[j] != []
    ensures Inv(CancelNextStep(s, j)) && s.cancelling[j][0] !in s.outcome
  {
    hide Listed, WellFormed, Queued, Values, Delivery;
    var a := s.cancelling[j][0];
    var t := CancelNextStep(s, j);
    ListedNext(s.cancelling, j);
    OneOfEach(s, a);
    KeysAdd(s.outcome, a, Cancelled);
    assert Places(t) == Places(s);
    forall k | 0 <= k < |s.delivered| ensures s.delivered[k].0 != a {
      DeliveredIsOut(s, k);
    }
    DeliverCancelled(s.delivered, s.handing, s.outcome, a);
  }

  /** Every step keeps the invariant, never changes what a popper already got, and records exactly the pushes
      and pops made. */
  lemma StepKeepsInv<T>(s: State<T>, m: Move<T>)
    requires Inv(s)
    ensures Inv(Step(s, m))
    ensures forall a :: a in s.outcome ==> a in Step(s, m).outcome && Step(s, m).outcome[a] == s.outcome[a]
    ensures s.delivered <= Step(s, m).delivered
    ensures Step(s, m).pushed == if m.DoPush? then s.pushed + [m.value] else s.pushed
    ensures Step(s, m).used == if m.DoPop? then s.used + {m.who} else s.used
  {
    hide Inv;
    match m
    case DoPush(x) => PushKeeps(s, x);
    case DoResume(i) => if i < |s.handing| { ResumeKeeps(s, i); }
    case DoPop(a) => if a !in s.used { PopKeeps(s, a); UnusedHasNoOutcome(s, a); }
    case DoCancel => CancelKeeps(s);
    case DoCancelNext(j) => if j < |s.cancelling| && s.cancelling[j] != [] { CancelNextKeeps(s, j); }
  }

  lemma UnusedHasNoOutcome<T>(s: State<T>, a: Popper)
    requires Inv(s) && a !in s.used
    ensures a !in s.outcome
  {
    OneOfEach(s, a);
  }

  lemma InitInv<T>()
    ensures Inv(Init<T>())
  {
  }

  lemma {:induction false} RunKeepsInv<T>(s: State<T>, moves: seq<Move<T>>)
    requires Inv(s)
    ensures Inv(Run(s, moves))
    ensures forall a :: a in s.outcome ==> a in Run(s, moves).outcome && Run(s, moves).outcome[a] == s.outcome[a]
    ensures s.delivered <= Run(s, moves).delivered && s.pushed <= Run(s, moves).pushed
    decreases |moves|
  {
    hide Inv;
    if moves != [] {
      StepKeepsInv(s, moves[0]);
      RunKeepsInv(Step(s, moves[0]), moves[1..]);
    }
  }

  // ----- The theorems -----

  /** First in, first out over any run: what was delivered, in order, followed by what is queued, is what
      was pushed. */
  lemma Fifo<T>(moves: seq<Move<T>>)
    ensures var s := Run(Init<T>(), moves);
            Values(s.delivered) + Queued(s.core) == s.pushed
  {
    InitInv<T>();
    RunKeepsInv(Init<T>(), moves);
  }

  /** No lost wake-up: while somebody waits, every value pushed has been delivered. */
  lemma WaitingMeansDelivered<T>(moves: seq<Move<T>>)
    ensures var s := Run(Init<T>(), moves);
            s.core.waiters != [] ==> Values(s.delivered) == s.pushed
  {
    InitInv<T>();
    RunKeepsInv(Init<T>(), moves);
    var s := Run(Init<T>(), moves);
    assert s.core.waiters != [] ==> Queued(s.core) == [];
  }

  /** Every popper is in exactly one place: waiting, taken out by a push, taken out by a cancellation, or
      done. */
  lemma OnePlace<T>(moves: seq<Move<T>>, a: Popper)
    ensures var s := Run(Init<T>(), moves);
            multiset(s.core.waiters)[a] + multiset(Poppers(s.handing))[a] + Listed(s.cancelling)[a]
            + (if a in s.outcome then 1 else 0) == if a in s.used then 1 else 0
  {
    InitInv<T>();
    RunKeepsInv(Init<T>(), moves);
    OneOfEach(Run(Init<T>(), moves), a);
  }

  /** The k-th delivered value is the k-th pushed one.  It goes to one popper, who gets nothing else, now or
      after any further moves; and a popper has a value only if it was delivered to them. */
  lemma DeliveredOnce<T>(moves: seq<Move<T>>, more: seq<Move<T>>, k: nat)
    requires k < |Run(Init<T>(), moves).delivered|
    ensures var (s, t) := (Run(Init<T>(), moves), Run(Run(Init<T>(), moves), more));
            var (a, x) := s.delivered[k];
            && k < |s.pushed| && x == s.pushed[k]
            && k < |t.delivered| && t.delivered[k] == (a, x)
            && (forall l :: 0 <= l < |t.delivered| && l != k ==> t.delivered[l].0 != a)
            && (a in t.outcome ==> t.outcome[a] == Got(x))
            && (a !in t.outcome ==> (a, x) in t.handing)
  {
    InitInv<T>();
    var s := Run(Init<T>(), moves);
    RunKeepsInv(Init<T>(), moves);
    RunKeepsInv(s, more);
    var t := Run(s, more);
    assert t.delivered[k] == s.delivered[k];
    assert s.pushed[k] == Values(s.delivered)[k];
    var a := t.delivered[k].0;
    assert Reached(t.delivered[k], t.handing, t.outcome);
    OneOfEach(t, a);
    if t.delivered[k] in t.handing {
      HandingIsCounted(t.handing, t.delivered[k]);
    }
  }

  // ----- Everyone taken out is resumed -----

  /** A cancellation takes out everyone who waits, newest first, and leaves the values alone. */
  lemma CancelTakesAll<T>(s: State<T>)
    ensures var t := Step(s, DoCancel);
            && t.core.waiters == [] && Queued(t.core) == Queued(s.core)
            && t.cancelling == s.cancelling + [s.core.waiters] && t.handing == s.handing && t.outcome == s.outcome
  {
  }

  /** Only resumptions, by pushes and by cancellations that have let go of the mutex. */
  predicate Resumptions<T>(moves: seq<Move<T>>) {
    forall i :: 0 <= i < |moves| ==> moves[i].DoResume? || moves[i].DoCancelNext?
  }

  function Total(lists: seq<seq<Popper>>): nat {
    if lists == [] then 0 else |lists[0]| + Total(lists[1..])
  }

  lemma {:induction false} TotalNext(lists: seq<seq<Popper>>, j: nat)
    requires j < |lists| && lists[j] != []
    ensures Total(lists[j := lists[j][1..]]) + 1 == Total(lists)
  {
    var after := lists[j := lists[j][1..]];
    if j == 0 {
      assert after[1..] == lists[1..];
    } else {
      assert after[1..] == lists[1..][j - 1 := lists[1..][j - 1][1..]];
      TotalNext(lists[1..], j - 1);
    }
  }

  /** What a step of that kind does. */
  lemma ResumptionDoes<T>(s: State<T>)
    requires Inv(s)
    ensures s.handing != [] ==>
              var t := Step(s, DoResume(0));
              && t == s.(handing := s.handing[1..], outcome := s.outcome[s.handing[0].0 := Got(s.handing[0].1)])
              && t.handing == s.handing[1..]
    ensures forall j: nat :: j < |s.cancelling| && s.cancelling[j] != [] ==>
              Step(s, DoCancelNext(j)) == s.(cancelling := s.cancelling[j := s.cancelling[j][1..]],
                                             outcome := s.outcome[s.cancelling[j][0] := Cancelled])
  {
    if s.handing != [] {
      assert DropAt(s.handing, 0) == s.handing[1..];
    }
  }

  /** From every reachable state the resumptions under way can be completed: then whoever was handed a value has it,
      whoever was cancelled has the exception, and everybody else who ever popped still waits. */
  lemma {:induction false} Settle<T>(s: State<T>) returns (moves: seq<Move<T>>)
    requires Inv(s)
    ensures Resumptions(moves)
    ensures Run(s, moves).handing == [] && |Run(s, moves).cancelling| == |s.cancelling|
    ensures forall j :: 0 <= j < |s.cancelling| ==> Run(s, moves).cancelling[j] == []
    ensures Run(s, moves).core == s.core && Run(s, moves).used == s.used
    ensures forall h :: h in s.handing ==> h.0 in Run(s, moves).outcome && Run(s, moves).outcome[h.0] == Got(h.1)
    ensures forall j, a :: 0 <= j < |s.cancelling| && a in s.cancelling[j] ==>
              a in Run(s, moves).outcome && Run(s, moves).outcome[a] == Cancelled
    decreases |s.handing| + Total(s.cancelling)
  {
    hide Inv, Step, Total;
    ResumptionDoes(s);
    if s.handing != [] {
      var m: Move<T> := DoResume(0);
      var t := Step(s, m);
      StepKeepsInv(s, m);
      var rest := Settle(t);
      RunKeepsInv(t, rest);
      moves := [m] + rest;
      assert moves[1..] == rest;
      assert forall h :: h in s.handing ==> h == s.handing[0] || h in s.handing[1..];
    } else if j :| 0 <= j < |s.cancelling| && s.cancelling[j] != [] {
      var m: Move<T> := DoCancelNext(j);
      var t := Step(s, m);
      StepKeepsInv(s, m);
      TotalNext(s.cancelling, j);
      var rest := Settle(t);
      RunKeepsInv(t, rest);
      moves := [m] + rest;
      assert moves[1..] == rest;
      forall k, a | 0 <= k < |s.cancelling| && a in s.cancelling[k]
        ensures a in Run(s, moves).outcome && Run(s, moves).outcome[a] == Cancelled
      {
        if k == j && a == s.cancelling[j][0] {
          assert a in t.outcome && t.outcome[a] == Cancelled;
        } else {
          assert a in t.cancelling[k];
        }
      }
    } else {
      moves := [];
    }
  }

  /** So on every run, a cancellation once settled leaves nobody waiting: each popper has a value or the
      exception. */
  lemma CancelSettles<T>(moves: seq<Move<T>>) returns (more: seq<Move<T>>)
    ensures Resumptions(more)
    ensures var s := Run(Init<T>(), moves);
            var t := Run(Step(s, DoCancel), more);
            && t.outcome.Keys == s.used
            && (forall a :: a in s.core.waiters ==> a in t.outcome && t.outcome[a] == Cancelled)
            && (forall h :: h in s.handing ==> h.0 in t.outcome && t.outcome[h.0] == Got(h.1))
            && Queued(t.core) == Queued(s.core)
  {
    hide Inv, Step, Run, Queued, Total;
    InitInv<T>();
    RunKeepsInv(Init<T>(), moves);
    var s := Run(Init<T>(), moves);
    StepKeepsInv(s, DoCancel);
    CancelTakesAll(s);
    var c := Step(s, DoCancel);
    more := Settle(c);
    RunKeepsInv(c, more);
    var t := Run(c, more);
    assert c.cancelling[|s.cancelling|] == s.core.waiters;
    SettledMeansDone(t);
  }

  lemma {:induction false} AllEmpty(lists: seq<seq<Popper>>)
    requires forall j :: 0 <= j < |lists| ==> lists[j] == []
    ensures Listed(lists) == multiset{}
  {
    if lists != [] {
      AllEmpty(lists[1..]);
    }
  }

  lemma SettledMeansDone<T>(s: State<T>)
    requires Inv(s) && s.handing == [] && s.core.waiters == [] && forall j :: 0 <= j < |s.cancelling| ==> s.cancelling[j] == []
    ensures s.outcome.Keys == s.used
  {
    AllEmpty(s.cancelling);
    assert Poppers(s.handing) == [];
    assert multiset(s.outcome.Keys) == multiset(s.used);
    forall a ensures a in s.outcome.Keys <==> a in s.used {
      assert multiset(s.outcome.Keys)[a] == multiset(s.used)[a];
    }
  }

  /** Delivery order is not waiting order: a waiter can be passed over any number of times, because waiters
      are stacked and the newest is served first. */
  function PassOver(n: nat): seq<Move<int>> {
    if n == 0 then [DoPop(0)] else PassOver(n - 1) + [DoPop(n), DoPush(n), DoResume(0)]
  }

  lemma {:induction false} RunAppend<T>(s: State<T>, first: seq<Move<T>>, rest: seq<Move<T>>)
    ensures Run(s, first + rest) == Run(Run(s, first), rest)
    decreases |first|
  {
    if first == [] {
      assert first + rest == rest;
    } else {
      assert (first + rest)[1..] == first[1..] + rest;
      RunAppend(Step(s, first[0]), first[1..], rest);
    }
  }

  lemma {:induction false} NewestFirst(n: nat)
    ensures var s := Run(Init<int>(), PassOver(n));
            s.core == Core([], [], [0]) && s.handing == [] && |s.pushed| == n
    ensures forall k :: 1 <= k <= n ==> k in Run(Init<int>(), PassOver(n)).outcome
    ensures forall k :: k in Run(Init<int>(), PassOver(n)).used ==> k <= n
  {
    var s := Run(Init<int>(), PassOver(n));
    if n == 0 {
      assert s == Run(Step(Init<int>(), DoPop(0)), []);
      assert [0] + [] == [0];
    } else {
      var r := Run(Init<int>(), PassOver(n - 1));
      NewestFirst(n - 1);
      var last: seq<Move<int>> := [DoPop(n), DoPush(n), DoResume(0)];
      RunAppend(Init<int>(), PassOver(n - 1), last);
      var r1 := Step(r, DoPop(n));
      assert r1.core == Core([], [], [n] + [0]);
      var r2 := Step(r1, DoPush(n));
      assert r2.core.waiters == ([n] + [0])[1..] == [0];
      assert r2.handing == [(n, n)];
      var r3 := Step(r2, DoResume(0));
      assert last[1..] == [DoPush(n), DoResume(0)] && last[1..][1..] == [DoResume(0)];
      assert Run(r, last) == Run(r1, last[1..]) == Run(r2, [DoResume(0)]) == r3;
    }
  }
}
