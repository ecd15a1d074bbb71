/** The lock-free coroutine mutex (common/async_mutex.h) as sequentially consistent atomic steps
    of any number of agents, each with its own program counter.  An agent stands for a coroutine
    together with the awaiter object it registers; it may lock again after unlocking, so awaiter
    addresses are reused. */
module MutexProtocol {

  type Agent = nat

  /** The atomic word `m_state`, and any `awaiter_for_lock*`: 1, 0 (also the null pointer), or an address. */
  datatype Word = Unlocked | NoWaiters | At(agent: Agent)

  datatype Pc =
    | Idle
    | Loading                  // in try_lock(this), before m_state.load()
    | Trying(seen: Word)       // the loop head, with the last value seen
    | Linked(seen: Word)       // m_next written, about to compare-exchange
    | Suspended                // await_suspend returned true
    | Holding                  // await_resume gave out the lock
    | Releasing                // in unlock(), m_waiters was null
    | Detaching                // the compare-exchange to unlocked failed
    | Popping                  // m_waiters is not null
    | Resuming(next: Agent)    // popped, about to call resume()

  /** `next` holds every awaiter's m_next.  `stack`, `batch` and `owner` are specification only: the
      awaiters the word leads to, those the holder has detached, and who owns the lock. */
  datatype State = State(word: Word, waiters: Word, next: seq<Word>, pc: seq<Pc>,
                         stack: seq<Agent>, batch: seq<Agent>, owner: int)

  const NOBODY := -1

  function Init(n: nat): State {
    State(Unlocked, NoWaiters, seq(n, _ => NoWaiters), seq(n, _ => Idle), [], [], NOBODY)
  }

  /** Lock: `co_await async_lock()`.  TryLock: the one-shot `try_lock()`.  Go: the next atomic step. */
  datatype Action = Lock | TryLock | Go
  datatype Move = Move(agent: Agent, action: Action)

  datatype Event = Quiet | Acquired(who: Agent) | Suspends(who: Agent) | UnlockStarts(who: Agent)
                 | Released(who: Agent) | Popped(who: Agent) | Resumed(who: Agent)

  function Goto(s: State, a: Agent, p: Pc): State
    requires a < |s.pc|
  {
    s.(pc := s.pc[a := p])
  }

  /** The lock is free and the agent takes it. */
  function Take(s: State, a: Agent): State
    requires a < |s.pc|
  {
    Goto(s, a, Holding).(word := NoWaiters, owner := a)
  }

  /** The awaiter becomes the new head of the stack in the word. */
  function Push(s: State, a: Agent): State
    requires a < |s.pc|
  {
    Goto(s, a, Suspended).(word := At(a), stack := [a] + s.stack)
  }

  /** The holder exchanges the whole stack out of the word. */
  function Detach(s: State, a: Agent): State
    requires a < |s.pc|
  {
    Goto(s, a, Popping).(waiters := s.word, word := NoWaiters, batch := s.stack, stack := [])
  }

  /** The holder takes the first awaiter off its batch. */
  function Pop(s: State, a: Agent): State
    requires a < |s.pc| && s.waiters.At? && s.waiters.agent < |s.next| && s.batch != []
  {
    Goto(s, a, Resuming(s.waiters.agent)).(waiters := s.next[s.waiters.agent], batch := s.batch[1..])
  }

  /** `resume()`: the lock passes from a to b without the word ever reading unlocked. */
  function HandOver(s: State, a: Agent, b: Agent): State
    requires a < |s.pc| && b < |s.pc|
  {
    Goto(Goto(s, a, Idle), b, Holding).(owner := b)
  }

  /** One atomic step.  A move that its agent cannot make now changes nothing, so every sequence of
      moves is a run. */
  function Step(s: State, m: Move): (State, Event) {
    var a := m.agent;
    if a >= |s.pc| || |s.next| != |s.pc| then (s, Quiet) else
    match (s.pc[a], m.action)
    case (Idle, Lock) => (Goto(s, a, Loading), Quiet)
    case (Idle, TryLock) => if s.word == Unlocked then (Take(s, a), Acquired(a)) else (s, Quiet)
    case (Loading, Go) => (Goto(s, a, Trying(s.word)), Quiet)
    case (Trying(seen), Go) =>
      if seen == Unlocked then
        if s.word == seen then (Take(s, a), Acquired(a)) else (Goto(s, a, Trying(s.word)), Quiet)
      else (Goto(s, a, Linked(seen)).(next := s.next[a := seen]), Quiet)
    case (Linked(seen), Go) =>
      if s.word == seen then (Push(s, a), Suspends(a)) else (Goto(s, a, Trying(s.word)), Quiet)
    case (Holding, Go) => (Goto(s, a, if s.waiters == NoWaiters then Releasing else Popping), UnlockStarts(a))
    case (Releasing, Go) =>
      if s.word == NoWaiters then (Goto(s, a, Idle).(word := Unlocked, owner := NOBODY), Released(a))
      else (Goto(s, a, Detaching), Quiet)
    case (Detaching, Go) => (Detach(s, a), Quiet)
    case (Popping, Go) =>
      if s.waiters.At? && s.waiters.agent < |s.next| && s.batch != [] then (Pop(s, a), Popped(s.waiters.agent))
      else (s, Quiet)
    case (Resuming(b), Go) => if b < |s.pc| then (HandOver(s, a, b), Resumed(b)) else (s, Quiet)
    case _ => (s, Quiet)
  }

  function Run(s: State, moves: seq<Move>): State
    decreases |moves|
  {
    if moves == [] then s else Run(Step(s, moves[0]).0, moves[1..])
  }

  function Events(s: State, moves: seq<Move>): seq<Event>
    decreases |moves|
  {
    if moves == [] then [] else [Step(s, moves[0]).1] + Events(Step(s, moves[0]).0, moves[1..])
  }

  // ----- The invariant -----

  /** w leads through the links to exactly the awaiters of list, in order. */
  predicate Leads(next: seq<Word>, w: Word, list: seq<Agent>)
    decreases |list|
  {
    if list == [] then w == NoWaiters
    else w == At(list[0]) && list[0] < |next| && Leads(next, next[list[0]], list[1..])
  }

  predicate Owns(p: Pc) {
    p.Holding? || p.Releasing? || p.Detaching? || p.Popping? || p.Resuming?
  }

  /** The awaiter a hand-over is under way to. */
  predicate InFlight(s: State, b: Agent) {
    0 <= s.owner < |s.pc| && s.pc[s.owner] == Resuming(b)
  }

  ghost predicate NoDuplicates(list: seq<Agent>) {
    forall i, j :: 0 <= i < j < |list| ==> list[i] != list[j]
  }

  ghost predicate Memory(s: State) {
    && |s.next| == |s.pc|
    && (if s.word == Unlocked then s.stack == [] else Leads(s.next, s.word, s.stack))
    && Leads(s.next, s.waiters, s.batch)
  }

  ghost predicate Ownership(s: State) {
    && (s.owner == NOBODY || 0 <= s.owner < |s.pc|)
    && (s.word == Unlocked <==> s.owner == NOBODY)
    && (forall a :: 0 <= a < |s.pc| ==> (Owns(s.pc[a]) <==> s.owner == a))
    && (s.owner == NOBODY ==> s.batch == [])
    && (s.owner != NOBODY ==>
         var p := s.pc[s.owner];
         && (p.Releasing? || p.Detaching? ==> s.batch == [])
         && (p.Detaching? ==> s.stack != [])
         && (p.Popping? ==> s.batch != []))
  }

  predicate Queued(s: State, a: Agent) {
    a in s.stack || a in s.batch
  }

  ghost predicate Waiting(s: State) {
    && NoDuplicates(s.stack) && NoDuplicates(s.batch)
    && (forall a :: a in s.stack ==> a !in s.batch)
    && (forall a :: a in s.stack || a in s.batch ==> a < |s.pc| && s.pc[a] == Suspended && !InFlight(s, a))
    && (forall a :: 0 <= a < |s.pc| && s.pc[a] == Suspended ==> Queued(s, a) || InFlight(s, a))
    && (0 <= s.owner < |s.pc| && s.pc[s.owner].Resuming? ==>
         s.pc[s.owner].next < |s.pc| && s.pc[s.pc[s.owner].next] == Suspended)
  }

  /** What an agent that is trying to register remembers. */
  ghost predicate Registering(s: State)
    requires |s.next| == |s.pc|
  {
    forall a :: 0 <= a < |s.pc| && s.pc[a].Linked? ==> s.next[a] == s.pc[a].seen && s.pc[a].seen != Unlocked
  }

  ghost predicate Inv(s: State) {
    Memory(s) && Ownership(s) && Waiting(s) && Registering(s)
  }

  lemma InitInv(n: nat)
    ensures Inv(Init(n))
  {
  }

  // ----- Each step keeps the invariant -----

  /** Writing the m_next of an awaiter that is not on a list leaves the list as it was. */
  lemma {:induction false} LeadsFrame(next: seq<Word>, w: Word, list: seq<Agent>, a: Agent, x: Word)
    requires Leads(next, w, list) && a < |next| && a !in list
    ensures Leads(next[a := x], w, list)
    decreases |list|
  {
    if list != [] {
      LeadsFrame(next, next[list[0]], list[1..], a, x);
    }
  }

  lemma PushKeeps(s: State, a: Agent)
    requires Inv(s) && a < |s.pc| && s.pc[a].Linked? && s.word == s.pc[a].seen
    ensures Inv(Push(s, a))
  {
    var u := Push(s, a);
    assert u.stack[1..] == s.stack;
    assert s.owner != a;
    assert a !in s.stack && a !in s.batch;
    assert forall b :: InFlight(u, b) <==> InFlight(s, b);
  }

  lemma DetachKeeps(s: State, a: Agent)
    requires Inv(s) && a < |s.pc| && s.pc[a].Detaching?
    ensures Inv(Detach(s, a))
  {
  }

  lemma PopKeeps(s: State, a: Agent)
    requires Inv(s) && a < |s.pc| && s.pc[a].Popping?
    ensures s.waiters == At(s.batch[0]) && s.batch[0] < |s.pc|
    ensures Inv(Pop(s, a))
  {
    var u := Pop(s, a);
    assert s.batch == [s.batch[0]] + u.batch;
    assert s.batch[0] !in u.batch;
  }

  lemma HandOverKeeps(s: State, a: Agent)
    requires Inv(s) && a < |s.pc| && s.pc[a].Resuming?
    ensures s.pc[a].next < |s.pc|
    ensures Inv(HandOver(s, a, s.pc[a].next))
  {
  }

  lemma TakeKeeps(s: State, a: Agent)
    requires Inv(s) && a < |s.pc| && (s.pc[a].Idle? || s.pc[a].Trying?) && s.word == Unlocked
    ensures Inv(Take(s, a))
  {
  }

  lemma LinkKeeps(s: State, a: Agent)
    requires Inv(s) && a < |s.pc| && s.pc[a].Trying? && s.pc[a].seen != Unlocked
    ensures Inv(Goto(s, a, Linked(s.pc[a].seen)).(next := s.next[a := s.pc[a].seen]))
  {
    assert !Queued(s, a);
    LeadsFrame(s.next, s.waiters, s.batch, a, s.pc[a].seen);
    if s.word != Unlocked {
      LeadsFrame(s.next, s.word, s.stack, a, s.pc[a].seen);
    }
  }

  /** A counter that moves between two states that say nothing about lists or ownership. */
  lemma GotoKeeps(s: State, a: Agent, p: Pc)
    requires Inv(s) && a < |s.pc| && !Owns(s.pc[a]) && s.pc[a] != Suspended
    requires !Owns(p) && p != Suspended && !p.Linked?
    ensures Inv(Goto(s, a, p))
  {
    assert forall b :: InFlight(Goto(s, a, p), b) <==> InFlight(s, b);
  }

  lemma UnlockKeeps(s: State, a: Agent)
    requires Inv(s) && a < |s.pc| && (s.pc[a].Holding? || s.pc[a].Releasing?)
    ensures s.pc[a].Holding? ==> Inv(Goto(s, a, if s.waiters == NoWaiters then Releasing else Popping))
    ensures s.pc[a].Releasing? && s.word != NoWaiters ==> Inv(Goto(s, a, Detaching))
    ensures s.pc[a].Releasing? && s.word == NoWaiters ==> Inv(Goto(s, a, Idle).(word := Unlocked, owner := NOBODY))
  {
  }

  /** The invariant survives every atomic step of every agent. */
  lemma StepKeepsInv(s: State, m: Move)
    requires Inv(s)
    ensures Inv(Step(s, m).0)
  {
    hide Inv, Take, Push, Detach, HandOver;
    SameLengths(s);
    var a := m.agent;
    if a < |s.pc| {
      match (s.pc[a], m.action)
      case (Idle, Lock) => GotoKeeps(s, a, Loading);
      case (Idle, TryLock) => if s.word == Unlocked { TakeKeeps(s, a); }
      case (Loading, Go) => GotoKeeps(s, a, Trying(s.word));
      case (Trying(seen), Go) =>
        if seen != Unlocked { LinkKeeps(s, a); }
        else if s.word == seen { TakeKeeps(s, a); }
        else { GotoKeeps(s, a, Trying(s.word)); }
      case (Linked(seen), Go) =>
        if s.word == seen { PushKeeps(s, a); } else { GotoKeeps(s, a, Trying(s.word)); }
      case (Holding, Go) => UnlockKeeps(s, a);
      case (Releasing, Go) => UnlockKeeps(s, a);
      case (Detaching, Go) => DetachKeeps(s, a);
      case (Popping, Go) => PopKeeps(s, a);
      case (Resuming(b), Go) => HandOverKeeps(s, a);
      case _ =>
    }
  }

  lemma SameLengths(s: State)
    requires Inv(s)
    ensures |s.next| == |s.pc|
  {
  }

  lemma {:induction false} RunKeepsInv(s: State, moves: seq<Move>)
    requires Inv(s)
    ensures Inv(Run(s, moves))
    decreases |moves|
  {
    if moves != [] {
      StepKeepsInv(s, moves[0]);
      RunKeepsInv(Step(s, moves[0]).0, moves[1..]);
    }
  }
}
