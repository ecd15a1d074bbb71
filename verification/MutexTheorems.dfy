/** What every run of the mutex guarantees, for any number of agents and any interleaving. */
module MutexTheorems {
  import opened MutexProtocol

  // ----- Counting along a run -----

  function Count(events: seq<Event>, e: Event): nat {
    if events == [] then 0 else (if events[0] == e then 1 else 0) + Count(events[1..], e)
  }

  /** The awaiters handed the lock, in order. */
  function Served(events: seq<Event>): seq<Agent> {
    if events == [] then []
    else (if events[0].Popped? then [events[0].who] else []) + Served(events[1..])
  }

  function UnlockCalls(events: seq<Event>): nat {
    if events == [] then 0 else (if events[0].UnlockStarts? then 1 else 0) + UnlockCalls(events[1..])
  }

  function Releases(events: seq<Event>): nat {
    if events == [] then 0 else (if events[0].Released? then 1 else 0) + Releases(events[1..])
  }

  // ----- Safety -----

  predicate HasLock(s: State, a: Agent) { a < |s.pc| && Owns(s.pc[a]) }

  /** At most one agent holds the lock (counting an unlock or a hand-over in progress as holding). */
  lemma MutualExclusion(n: nat, moves: seq<Move>, a: Agent, b: Agent)
    requires var s := Run(Init(n), moves); HasLock(s, a) && HasLock(s, b)
    ensures a == b
  {
    InitInv(n);
    RunKeepsInv(Init(n), moves);
  }

  /** How often an agent appears in a list of awaiters. */
  function Occurrences(list: seq<Agent>, a: Agent): nat {
    if list == [] then 0 else (if list[0] == a then 1 else 0) + Occurrences(list[1..], a)
  }

  lemma {:induction false} OccursOnce(list: seq<Agent>, a: Agent)
    requires NoDuplicates(list)
    ensures Occurrences(list, a) == if a in list then 1 else 0
  {
    if list != [] {
      OccursOnce(list[1..], a);
    }
  }

  /** A suspended awaiter is in exactly one place, once: the stack in the word, the detached batch, or
      a hand-over under way; any other agent is in none. */
  lemma OnePlace(n: nat, moves: seq<Move>, a: Agent)
    requires a < n
    ensures var s := Run(Init(n), moves);
            |s.pc| == n
            && Occurrences(s.stack, a) + Occurrences(s.batch, a) + (if InFlight(s, a) then 1 else 0)
               == (if s.pc[a] == Suspended then 1 else 0)
  {
    InitInv(n);
    RunKeepsInv(Init(n), moves);
    RunKeepsLength(Init(n), moves);
    var s := Run(Init(n), moves);
    OccursOnce(s.stack, a);
    OccursOnce(s.batch, a);
  }

  lemma {:induction false} RunKeepsLength(s: State, moves: seq<Move>)
    ensures |Run(s, moves).pc| == |s.pc|
    decreases |moves|
  {
    if moves != [] {
      RunKeepsLength(Step(s, moves[0]).0, moves[1..]);
    }
  }

  lemma StepCounts(s: State, m: Move, a: Agent)
    requires Inv(s) && a < |s.pc|
    ensures var (u, e) := Step(s, m);
            |u.pc| == |s.pc|
            && (if e == Suspends(a) then 1 else 0) + (if s.pc[a] == Suspended then 1 else 0)
               == (if e == Resumed(a) then 1 else 0) + (if u.pc[a] == Suspended then 1 else 0)
  {
    hide Inv, Leads;
    if m.agent < |s.pc| && s.pc[m.agent].Resuming? {
      HandOverTarget(s, m.agent);
    }
  }

  lemma HandOverTarget(s: State, a: Agent)
    requires Inv(s) && a < |s.pc| && s.pc[a].Resuming?
    ensures s.pc[a].next < |s.pc| && s.pc[s.pc[a].next] == Suspended && s.pc[a].next != a
  {
  }

  /** Between any two points of a run an awaiter is resumed once per suspension: never twice, and
      never without having been suspended. */
  lemma {:induction false} ResumedOnce(s: State, moves: seq<Move>, a: Agent)
    requires Inv(s) && a < |s.pc|
    ensures |Run(s, moves).pc| == |s.pc|
    ensures Count(Events(s, moves), Suspends(a)) + (if s.pc[a] == Suspended then 1 else 0)
            == Count(Events(s, moves), Resumed(a)) + (if Run(s, moves).pc[a] == Suspended then 1 else 0)
    decreases |moves|
  {
    if moves != [] {
      StepKeepsInv(s, moves[0]);
      StepCounts(s, moves[0], a);
      ResumedOnce(Step(s, moves[0]).0, moves[1..], a);
    }
  }

  /** While an awaiter is queued or being resumed the word never reads unlocked, so a newcomer cannot
      slip in; and once it reads unlocked nobody is left waiting. */
  lemma NoBarging(n: nat, moves: seq<Move>, m: Move)
    ensures var s := Run(Init(n), moves);
            && (s.word == Unlocked ==> forall a :: 0 <= a < |s.pc| ==> s.pc[a] != Suspended)
            && (Step(s, m).1.Acquired? ==> s.stack == [] && s.batch == [] && forall a :: 0 <= a < |s.pc| ==> s.pc[a] != Suspended)
  {
    InitInv(n);
    RunKeepsInv(Init(n), moves);
  }

  /** The assertions in `unlock` hold: the mutex is locked when it starts, and there is an awaiter to
      resume when it pops one. */
  lemma UnlockAssertionsHold(n: nat, moves: seq<Move>, a: Agent)
    requires a < n
    ensures var s := Run(Init(n), moves);
            |s.pc| == n
            && (s.pc[a] == Holding ==> s.word != Unlocked)
            && (s.pc[a] == Popping ==> s.waiters.At? && Step(s, Move(a, Go)).1 == Popped(s.waiters.agent))
  {
    InitInv(n);
    RunKeepsInv(Init(n), moves);
    RunKeepsLength(Init(n), moves);
    var s := Run(Init(n), moves);
    if s.pc[a] == Popping {
      PopKeeps(s, a);
    }
  }

  // ----- Bounded bypass -----

  lemma StepServes(s: State, m: Move)
    requires Inv(s) && s.batch != []
    ensures var (u, e) := Step(s, m);
            && (if e.Popped? then e.who == s.batch[0] && u.batch == s.batch[1..] else u.batch == s.batch)
            && !e.Released?
  {
    if m.agent < |s.pc| && s.pc[m.agent].Popping? && m.action == Go {
      PopKeeps(s, m.agent);
    }
  }

  /** A detached batch is served to its end, in its own order, before anyone who registered later:
      the awaiters served from then on begin with the batch. */
  lemma {:induction false} BatchServedInOrder(s: State, moves: seq<Move>)
    requires Inv(s)
    ensures var served := Served(Events(s, moves));
            if |served| < |s.batch| then served + Run(s, moves).batch == s.batch else s.batch <= served
    decreases |moves|
  {
    hide Inv, Step;
    if moves != [] {
      var (u, e) := Step(s, moves[0]);
      StepKeepsInv(s, moves[0]);
      BatchServedInOrder(u, moves[1..]);
      if s.batch != [] {
        StepServes(s, moves[0]);
        assert e.Popped? ==> s.batch == [e.who] + u.batch;
      }
    }
  }

  /** An unlock that has been called and has not yet released or popped. */
  function Unfinished(s: State): nat {
    if 0 <= s.owner < |s.pc| && (s.pc[s.owner].Releasing? || s.pc[s.owner].Detaching? || s.pc[s.owner].Popping?) then 1 else 0
  }

  lemma StepUnlocks(s: State, m: Move)
    requires Inv(s)
    ensures var (u, e) := Step(s, m);
            (if e.UnlockStarts? then 1 else 0) + Unfinished(s)
            == (if e.Popped? then 1 else 0) + (if e.Released? then 1 else 0) + Unfinished(u)
  {
    if m.agent < |s.pc| && s.pc[m.agent].Popping? && m.action == Go {
      PopKeeps(s, m.agent);
    }
  }

  /** Every unlock call either releases the mutex or hands it to exactly one awaiter. */
  lemma {:induction false} UnlocksBalance(s: State, moves: seq<Move>)
    requires Inv(s)
    ensures var ev := Events(s, moves);
            UnlockCalls(ev) + Unfinished(s) == |Served(ev)| + Releases(ev) + Unfinished(Run(s, moves))
    decreases |moves|
  {
    if moves != [] {
      StepKeepsInv(s, moves[0]);
      StepUnlocks(s, moves[0]);
      UnlocksBalance(Step(s, moves[0]).0, moves[1..]);
    }
  }

  lemma {:induction false} NoReleaseWhileServing(s: State, moves: seq<Move>)
    requires Inv(s) && |Served(Events(s, moves))| < |s.batch|
    ensures Releases(Events(s, moves)) == 0
    decreases |moves|
  {
    if moves != [] {
      var (u, e) := Step(s, moves[0]);
      StepKeepsInv(s, moves[0]);
      StepServes(s, moves[0]);
      NoReleaseWhileServing(u, moves[1..]);
    }
  }

  /** While members of a detached batch are left, the number served is the number of unlocks finished, and they
      are the first ones of the batch. */
  lemma UnlocksServePrefix(s: State, moves: seq<Move>)
    requires Inv(s) && |Served(Events(s, moves))| < |s.batch|
    ensures var ev := Events(s, moves);
            var k := UnlockCalls(ev) + Unfinished(s) - Unfinished(Run(s, moves));
            0 <= k < |s.batch| && Served(ev) == s.batch[..k]
  {
    BatchServedInOrder(s, moves);
    UnlocksBalance(s, moves);
    NoReleaseWhileServing(s, moves);
  }

  /** An awaiter is taken off the batch only inside an unlock. */
  lemma PopIsUnlocking(s: State, m: Move)
    requires Inv(s) && Step(s, m).1.Popped?
    ensures Unfinished(s) == 1 && s.batch != [] && Step(s, m).1.who == s.batch[0]
  {
    PopKeeps(s, m.agent);
  }

  /** With a batch detached, its k-th member is taken off by the k-th unlock, for every k up to the length of the
      batch.  An unlock under way at the start, the one that detached the batch, counts as the first. */
  lemma KthUnlockServesKth(s: State, moves: seq<Move>, m: Move)
    requires Inv(s) && |Served(Events(s, moves))| < |s.batch| && Step(Run(s, moves), m).1.Popped?
    ensures var k := |Served(Events(s, moves))| + 1;
            && Step(Run(s, moves), m).1.who == s.batch[k - 1]
            && UnlockCalls(Events(s, moves)) + Unfinished(s) == k
  {
    hide Inv, Step, Unfinished;
    RunKeepsInv(s, moves);
    BatchServedInOrder(s, moves);
    UnlocksBalance(s, moves);
    NoReleaseWhileServing(s, moves);
    PopIsUnlocking(Run(s, moves), m);
  }

  // ----- Progress -----

  /** Whenever somebody is suspended somebody else owns the lock, and the owner's next step is never a
      wait: it changes the state. */
  lemma OwnerCanMove(n: nat, moves: seq<Move>, a: Agent)
    requires a < |Run(Init(n), moves).pc| && Run(Init(n), moves).pc[a] == Suspended
    ensures var s := Run(Init(n), moves);
            && 0 <= s.owner < |s.pc| && s.owner != a && HasLock(s, s.owner)
            && Step(s, Move(s.owner, Go)).0 != s
  {
    InitInv(n);
    RunKeepsInv(Init(n), moves);
    var s := Run(Init(n), moves);
    if s.pc[s.owner] == Popping {
      PopKeeps(s, s.owner);
    }
  }

  /** Only whoever owns the lock moves, and only forward. */
  predicate OwnersOnly(s: State, moves: seq<Move>)
    decreases |moves|
  {
    || moves == []
    || (moves[0].action == Go && moves[0].agent == s.owner && OwnersOnly(Step(s, moves[0]).0, moves[1..]))
  }

  /** How many wait, a hand-over under way included. */
  function WaitingCount(s: State): nat {
    |s.stack| + |s.batch| + (if 0 <= s.owner < |s.pc| && s.pc[s.owner].Resuming? then 1 else 0)
  }

  /** How far the owner is from handing over. */
  function StepsLeft(s: State): nat
    requires 0 <= s.owner < |s.pc|
  {
    match s.pc[s.owner]
    case Holding => 5
    case Releasing => 4
    case Detaching => 3
    case Popping => 2
    case _ => 1
  }

  /** A step of the owner hands over, gets closer to it, or releases a mutex nobody waits for. */
  lemma OwnerStep(s: State)
    requires Inv(s) && s.owner != NOBODY
    ensures 0 <= s.owner < |s.pc|
    ensures var u := Step(s, Move(s.owner, Go)).0;
            if u.owner == NOBODY then WaitingCount(s) == 0 && WaitingCount(u) == 0
            else 0 <= u.owner < |u.pc| && (WaitingCount(u) < WaitingCount(s)
                                           || (WaitingCount(u) == WaitingCount(s) && StepsLeft(u) < StepsLeft(s)))
  {
    if s.pc[s.owner] == Popping {
      PopKeeps(s, s.owner);
    }
  }

  /** From every reachable state in which the lock is held, the owners alone can run until nobody waits and the
      mutex is unlocked. */
  lemma {:induction false} Drain(s: State) returns (moves: seq<Move>)
    requires Inv(s) && s.owner != NOBODY
    ensures OwnersOnly(s, moves) && Inv(Run(s, moves))
    ensures Run(s, moves).word == Unlocked && forall a :: 0 <= a < |Run(s, moves).pc| ==> Run(s, moves).pc[a] != Suspended
    decreases WaitingCount(s), if 0 <= s.owner < |s.pc| then StepsLeft(s) else 0
  {
    hide Step, WaitingCount, StepsLeft, Inv;
    OwnerStep(s);
    var m := Move(s.owner, Go);
    StepKeepsInv(s, m);
    var u := Step(s, m).0;
    var rest: seq<Move> := [];
    if u.owner == NOBODY {
      UnownedIsFree(u);
    } else {
      rest := Drain(u);
    }
    moves := [m] + rest;
    assert moves[1..] == rest;
  }

  lemma UnownedIsFree(s: State)
    requires Inv(s) && s.owner == NOBODY
    ensures s.word == Unlocked && forall a :: 0 <= a < |s.pc| ==> s.pc[a] != Suspended
  {
  }

  // ----- No request is lost -----

  /** `co_await async_lock()` is under way and its awaiter is not registered yet. */
  predicate Asking(p: Pc) { p.Loading? || p.Trying? || p.Linked? }

  /** What one step, of any agent, can do to an agent: a request goes on until it is registered or has the lock,
      an awaiter stays suspended until it is resumed with the lock, and an owner stays one until it has released
      the lock or handed it over.  Nobody's place changes by another's step but that of an awaiter resumed. */
  lemma StepKeepsRequest(s: State, m: Move, a: Agent)
    requires Inv(s) && a < |s.pc|
    ensures |Step(s, m).0.pc| == |s.pc|
    ensures var (p, q, e) := (s.pc[a], Step(s, m).0.pc[a], Step(s, m).1);
            && (p == Idle && m == Move(a, Lock) ==> Asking(q))
            && (Asking(p) ==> Asking(q) || (q == Suspended && e == Suspends(a)) || (q == Holding && e == Acquired(a)))
            && (p == Suspended ==> q == Suspended || (q == Holding && e == Resumed(a)))
            && (Owns(p) ==> Owns(q) || (q == Idle && m.agent == a && (e == Released(a) || e.Resumed?)))
            && (m.agent != a ==> q == p || e == Resumed(a))
  {
    hide Leads;
    if m.agent < |s.pc| && s.pc[m.agent].Resuming? {
      HandOverTarget(s, m.agent);
    }
    if m.agent < |s.pc| && s.pc[m.agent] == Popping {
      PopKeeps(s, m.agent);
    }
  }

  /** How often an agent got the lock. */
  function Gained(events: seq<Event>, a: Agent): nat {
    Count(events, Acquired(a)) + Count(events, Resumed(a))
  }

  /** Over any run: a request is still being made, or waits, or has been granted; an awaiter still waits or has been
      granted the lock. */
  lemma {:induction false} RequestNeverLost(s: State, moves: seq<Move>, a: Agent)
    requires Inv(s) && a < |s.pc| && (Asking(s.pc[a]) || s.pc[a] == Suspended)
    ensures |Run(s, moves).pc| == |s.pc|
    ensures Gained(Events(s, moves), a) >= 1 || Run(s, moves).pc[a] == Suspended
            || (Asking(s.pc[a]) && Asking(Run(s, moves).pc[a]))
    decreases |moves|
  {
    hide Inv, Step;
    RunKeepsLength(s, moves);
    if moves != [] {
      var (u, e) := Step(s, moves[0]);
      StepKeepsInv(s, moves[0]);
      StepKeepsRequest(s, moves[0], a);
      if e != Acquired(a) && e != Resumed(a) {
        RequestNeverLost(u, moves[1..], a);
      }
    }
  }

  function Repeat(m: Move, k: nat): (moves: seq<Move>)
    ensures |moves| == k
  {
    if k == 0 then [] else [m] + Repeat(m, k - 1)
  }

  /** An agent that asks and moves alone has the lock after at most four of its own steps, three from its load on,
      if the mutex is unlocked, and is registered otherwise. */
  lemma {:induction false} Alone(s: State, a: Agent) returns (k: nat)
    requires Inv(s) && a < |s.pc| && Asking(s.pc[a])
    ensures 1 <= k <= AskingLeft(s, a) <= (if s.pc[a].Trying? then 4 else 3)
    ensures |Run(s, Repeat(Move(a, Go), k)).pc| == |s.pc| && Inv(Run(s, Repeat(Move(a, Go), k)))
    ensures Run(s, Repeat(Move(a, Go), k)).pc[a] == if s.word == Unlocked then Holding else Suspended
    decreases AskingLeft(s, a)
  {
    hide Inv;
    var m := Move(a, Go);
    var u := Step(s, m).0;
    SameLengths(s);
    StepKeepsInv(s, m);
    SeenIsLocked(s, a);
    k := 1;
    if Asking(u.pc[a]) {
      k := Alone(u, a);
      k := k + 1;
    } else {
      assert Repeat(m, 1) == [m] && [m][1..] == [];
      assert Run(s, [m]) == Run(u, []);
    }
    assert Repeat(m, k)[1..] == Repeat(m, k - 1);
  }

  lemma SeenIsLocked(s: State, a: Agent)
    requires Inv(s) && a < |s.pc|
    ensures s.pc[a].Linked? ==> s.pc[a].seen != Unlocked
  {
  }

  /** How many steps an asking agent has left when it moves alone. */
  function AskingLeft(s: State, a: Agent): nat
    requires a < |s.pc|
  {
    match s.pc[a]
    case Loading => 3
    case Trying(seen) => if seen == Unlocked then (if s.word == Unlocked then 1 else 3)
                         else if seen == s.word then 2 else if s.word == Unlocked then 3 else 4
    case Linked(seen) => if seen == s.word then 1 else if s.word == Unlocked then 2 else 3
    case _ => 0
  }

  lemma {:induction false} EventsAppend(s: State, first: seq<Move>, rest: seq<Move>, a: Agent)
    ensures Gained(Events(s, first + rest), a) == Gained(Events(s, first), a) + Gained(Events(Run(s, first), rest), a)
    decreases |first|
  {
    hide Step;
    if first == [] {
      assert first + rest == rest;
    } else {
      assert (first + rest)[1..] == first[1..] + rest;
      EventsAppend(Step(s, first[0]).0, first[1..], rest, a);
    }
  }

  /** So from every reachable state a request can be granted. */
  lemma CanBeGranted(s: State, a: Agent) returns (moves: seq<Move>)
    requires Inv(s) && a < |s.pc| && (Asking(s.pc[a]) || s.pc[a] == Suspended)
    ensures Gained(Events(s, moves), a) >= 1
  {
    hide Inv, Step, Run, Events, Gained;
    moves := [];
    assert Run(s, []) == s by {
      RunNothing(s);
    }
    if Asking(s.pc[a]) {
      var k := Alone(s, a);
      moves := Repeat(Move(a, Go), k);
      RequestNeverLost(s, moves, a);
    }
    var u := Run(s, moves);
    if u.pc[a] == Suspended {
      SuspendedMeansOwned(u, a);
      var rest := Drain(u);
      RequestNeverLost(u, rest, a);
      EventsAppend(s, moves, rest, a);
      moves := moves + rest;
    }
  }

  lemma RunNothing(s: State)
    ensures Run(s, []) == s
  {
  }

  lemma SuspendedMeansOwned(s: State, a: Agent)
    requires Inv(s) && a < |s.pc| && s.pc[a] == Suspended
    ensures s.owner != NOBODY
  {
  }

  // ----- The address that comes back -----

  /** Pushing on a head value that was read long ago is harmless: all that matters is that the word
      holds it now.  The new stack is the awaiter on top of the stack as it is, whatever happened
      since the load. */
  lemma StaleHeadHarmless(s: State, a: Agent)
    requires Inv(s) && a < |s.pc| && s.pc[a].Linked? && s.word == s.pc[a].seen
    ensures var u := Step(s, Move(a, Go)).0;
            Inv(u) && u.word == At(a) && u.stack == [a] + s.stack && Leads(u.next, u.word, [a] + s.stack)
  {
    StepKeepsInv(s, Move(a, Go));
  }

  lemma {:induction false} RunAppend(s: State, first: seq<Move>, second: seq<Move>)
    ensures Run(s, first + second) == Run(Run(s, first), second)
    decreases |first|
  {
    if first == [] {
      assert first + second == second;
    } else {
      assert (first + second)[1..] == first[1..] + second;
      RunAppend(Step(s, first[0]).0, first[1..], second);
    }
  }

  lemma Run2(s: State, m0: Move, m1: Move)
    ensures Run(s, [m0, m1]) == Step(Step(s, m0).0, m1).0
  {
    assert [m0, m1][1..] == [m1];
    assert Run(Step(s, m0).0, [m1]) == Step(Step(s, m0).0, m1).0;
  }

  lemma Run3(s: State, m0: Move, m1: Move, m2: Move)
    ensures Run(s, [m0, m1, m2]) == Step(Step(Step(s, m0).0, m1).0, m2).0
  {
    assert [m0, m1, m2][1..] == [m1, m2];
    Run2(Step(s, m0).0, m1, m2);
  }

  /** `co_await` up to the point where the agent has taken the lock or written its link. */
  function Ask(a: Agent): seq<Move> { [Move(a, Lock), Move(a, Go), Move(a, Go)] }

  function Go2(a: Agent): seq<Move> { [Move(a, Go), Move(a, Go)] }

  function Go3(a: Agent): seq<Move> { [Move(a, Go), Move(a, Go), Move(a, Go)] }

  const BEFORE := State(At(1), NoWaiters, [NoWaiters, NoWaiters, At(1)], [Holding, Suspended, Linked(At(1))], [1], [], 0)
  const BETWEEN := State(Unlocked, NoWaiters, [NoWaiters, NoWaiters, At(1)], [Idle, Idle, Linked(At(1))], [], [], NOBODY)

  lemma AskTwice(s: State, word: seq<Word>, last: Pc)
    requires |word| == 3 && s == State(Unlocked, NoWaiters, word, [Idle, Idle, last], [], [], NOBODY) && word[1] == NoWaiters
    ensures Run(Run(Run(s, Ask(0)), Ask(1)), [Move(1, Go)])
            == State(At(1), NoWaiters, word, [Holding, Suspended, last], [1], [], 0)
  {
    var s1 := State(NoWaiters, NoWaiters, word, [Holding, Idle, last], [], [], 0);
    assert Run(s, Ask(0)) == s1 by {
      Run3(s, Move(0, Lock), Move(0, Go), Move(0, Go));
    }
    var s2 := s1.(pc := [Holding, Linked(NoWaiters), last]);
    assert Run(s1, Ask(1)) == s2 by {
      Run3(s1, Move(1, Lock), Move(1, Go), Move(1, Go));
    }
    assert [Move(1, Go)][1..] == [];
    assert Step(s2, Move(1, Go)).0 == State(At(1), NoWaiters, word, [Holding, Suspended, last], [1], [], 0);
  }

  lemma HandOverAndRelease()
    ensures Run(Run(Run(BEFORE, Go2(0)), Go3(0)), Go2(1)) == BETWEEN
  {
    var s4 := BEFORE.(pc := [Detaching, Suspended, Linked(At(1))]);
    assert Run(BEFORE, Go2(0)) == s4 by {
      Run2(BEFORE, Move(0, Go), Move(0, Go));
    }
    var s5 := BEFORE.(word := NoWaiters, pc := [Idle, Holding, Linked(At(1))], stack := [], owner := 1);
    assert Run(s4, Go3(0)) == s5 by {
      Run3(s4, Move(0, Go), Move(0, Go), Move(0, Go));
    }
    Run2(s5, Move(1, Go), Move(1, Go));
  }

  lemma ReadHead(s: State)
    requires s == State(At(1), NoWaiters, [NoWaiters, NoWaiters, NoWaiters], [Holding, Suspended, Idle], [1], [], 0)
    ensures Run(s, Ask(2)) == BEFORE
  {
    Run3(s, Move(2, Lock), Move(2, Go), Move(2, Go));
  }

  const READS: seq<Move> := ((Ask(0) + Ask(1)) + [Move(1, Go)]) + Ask(2)
  const AWAY: seq<Move> := (Go2(0) + Go3(0)) + Go2(1)
  const BACK: seq<Move> := (Ask(0) + Ask(1)) + [Move(1, Go)]

  lemma HeadIsRead()
    ensures Run(Init(3), READS) == BEFORE
  {
    hide Run, Step;
    var none := [NoWaiters, NoWaiters, NoWaiters];
    assert Init(3) == State(Unlocked, NoWaiters, none, [Idle, Idle, Idle], [], [], NOBODY);
    RunAppend(Init(3), (Ask(0) + Ask(1)) + [Move(1, Go)], Ask(2));
    RunAppend(Init(3), Ask(0) + Ask(1), [Move(1, Go)]);
    RunAppend(Init(3), Ask(0), Ask(1));
    AskTwice(Init(3), none, Idle);
    ReadHead(State(At(1), NoWaiters, none, [Holding, Suspended, Idle], [1], [], 0));
  }

  lemma HeadGoesAway()
    ensures Run(BEFORE, AWAY) == BETWEEN
  {
    hide Run, Step;
    RunAppend(BEFORE, Go2(0) + Go3(0), Go2(1));
    RunAppend(BEFORE, Go2(0), Go3(0));
    HandOverAndRelease();
  }

  lemma HeadComesBack()
    ensures Run(BETWEEN, BACK) == BEFORE
  {
    hide Run, Step;
    RunAppend(BETWEEN, Ask(0) + Ask(1), [Move(1, Go)]);
    RunAppend(BETWEEN, Ask(0), Ask(1));
    AskTwice(BETWEEN, [NoWaiters, NoWaiters, At(1)], Linked(At(1)));
  }

  lemma StalePush()
    ensures Step(BEFORE, Move(2, Go)).0.stack == [2, 1]
  {
    assert [2] + [1] == [2, 1];
  }

  /** It does happen that an address comes back, in one run from the start: agent 2 reads head 1 and writes its
      link; awaiter 1 leaves the stack, gets the lock and releases it; it is pushed again, so the word reads
      head 1 once more when agent 2's stale compare-exchange runs, and succeeds. */
  lemma AddressReturns()
    ensures Run(Init(3), READS) == BEFORE && BEFORE.pc[2] == Linked(At(1)) && BEFORE.word == At(1)
    ensures Run(Init(3), READS + AWAY) == BETWEEN && BETWEEN.word == Unlocked
    ensures Run(Init(3), (READS + AWAY) + BACK) == BEFORE
    ensures Step(Run(Init(3), (READS + AWAY) + BACK), Move(2, Go)).0.stack == [2, 1]
  {
    hide Run, Step;
    HeadIsRead();
    HeadGoesAway();
    HeadComesBack();
    StalePush();
    RunAppend(Init(3), READS, AWAY);
    RunAppend(Init(3), READS + AWAY, BACK);
  }
}
