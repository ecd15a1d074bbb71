/** The mutex object itself: each method is one atomic step of `try_lock` or `unlock` as the code
    makes it, on the fields the code has, and is shown to be a step of the protocol. */
module AsyncMutex {
  import opened MutexProtocol

  class AsyncMutex {
    var state: Word
    var waiters: Word
    /** Every awaiter's m_next, by agent. */
    var links: array<Word>
    var pcs: array<Pc>
    ghost var stack: seq<Agent>
    ghost var batch: seq<Agent>
    ghost var owner: int

    ghost function View(): State
      reads this, links, pcs
    {
      State(state, waiters, links[..], pcs[..], stack, batch, owner)
    }

    ghost predicate Valid()
      reads this, links, pcs
    {
      Inv(View())
    }

    constructor (n: nat)
      ensures Valid() && View() == Init(n) && fresh(links) && fresh(pcs)
    {
      state, waiters := Unlocked, NoWaiters;
      links := new Word[n](_ => NoWaiters);
      pcs := new Pc[n](_ => Idle);
      stack, batch, owner := [], [], NOBODY;
      new;
      assert View() == Init(n);
      InitInv(n);
    }

    /** `compare_exchange_strong`; `seen` is what `expected` holds afterwards. */
    method CompareExchange(expected: Word, desired: Word) returns (done: bool, seen: Word)
      modifies `state
      ensures done == (old(state) == expected) && seen == old(state)
      ensures state == if done then desired else old(state)
    {
      seen := state;
      done := seen == expected;
      if done {
        state := desired;
      }
    }

    method Exchange(desired: Word) returns (seen: Word)
      modifies `state
      ensures seen == old(state) && state == desired
    {
      seen := state;
      state := desired;
    }

    /** `async_lock()` and its await_suspend begin. */
    method BeginLock(a: Agent)
      requires Valid() && a < pcs.Length && pcs[a] == Idle
      modifies pcs
      ensures Valid() && View() == Step(old(View()), Move(a, Lock)).0
    {
      StepKeepsInv(View(), Move(a, Lock));
      pcs[a] := Loading;
      assert pcs[..] == old(pcs[..])[a := Loading];
    }

    /** `auto old_state = m_state.load()`. */
    method Load(a: Agent)
      requires Valid() && a < pcs.Length && pcs[a] == Loading
      modifies pcs
      ensures Valid() && View() == Step(old(View()), Move(a, Go)).0
      ensures pcs[a] == Trying(state)
    {
      StepKeepsInv(View(), Move(a, Go));
      pcs[a] := Trying(state);
      assert pcs[..] == old(pcs[..])[a := Trying(state)];
    }

    /** The loop body down to its first shared access: try to take an unlocked mutex, or write m_next. */
    method TryOnce(a: Agent)
      requires Valid() && a < pcs.Length && pcs[a].Trying?
      modifies this, pcs, links
      ensures Valid() && View() == Step(old(View()), Move(a, Go)).0 && links == old(links) && pcs == old(pcs)
      ensures old(pcs[a].seen != Unlocked) ==> pcs[a] == Linked(links[a]) && links[a] == old(pcs[a].seen) && state == old(state)
      ensures old(pcs[a].seen == Unlocked == state) ==> pcs[a] == Holding && state == NoWaiters
      ensures old(pcs[a].seen == Unlocked != state) ==> pcs[a] == Trying(state) && state == old(state)
    {
      SameLengths(View());
      StepKeepsInv(View(), Move(a, Go));
      ghost var p := pcs[..];
      if pcs[a].seen == Unlocked {
        var done, seen := CompareExchange(Unlocked, NoWaiters);
        if done {
          pcs[a] := Holding;
          owner := a;
        } else {
          pcs[a] := Trying(seen);
        }
      } else {
        links[a] := pcs[a].seen;
        assert links[..] == old(links[..])[a := old(pcs[a].seen)];
        pcs[a] := Linked(pcs[a].seen);
      }
      assert pcs[..] == p[a := pcs[a]];
    }

    /** The compare-exchange that registers the awaiter; on failure the loop goes round. */
    method Register(a: Agent)
      requires Valid() && a < pcs.Length && pcs[a].Linked?
      modifies this, pcs
      ensures Valid() && View() == Step(old(View()), Move(a, Go)).0 && links == old(links) && pcs == old(pcs)
      ensures old(state == pcs[a].seen) ==> pcs[a] == Suspended && state == At(a) && stack == [a] + old(stack)
      ensures old(state != pcs[a].seen) ==> pcs[a] == Trying(state) && state == old(state)
    {
      StepKeepsInv(View(), Move(a, Go));
      ghost var p := pcs[..];
      var done, seen := CompareExchange(pcs[a].seen, At(a));
      if done {
        pcs[a] := Suspended;
        stack := [a] + stack;
      } else {
        pcs[a] := Trying(seen);
      }
      assert pcs[..] == p[a := pcs[a]];
    }

    /** The one-shot `try_lock()`. */
    method TryLockOnce(a: Agent) returns (locked: bool)
      requires Valid() && a < pcs.Length && pcs[a] == Idle
      modifies this, pcs
      ensures Valid() && View() == Step(old(View()), Move(a, TryLock)).0 && links == old(links) && pcs == old(pcs)
      ensures locked == (old(state) == Unlocked) == (pcs[a] == Holding)
      ensures state == if locked then NoWaiters else old(state)
    {
      StepKeepsInv(View(), Move(a, TryLock));
      ghost var p := pcs[..];
      var seen;
      locked, seen := CompareExchange(Unlocked, NoWaiters);
      if locked {
        pcs[a] := Holding;
        owner := a;
      }
      assert pcs[..] == p[a := pcs[a]];
    }

    /** `unlock()` looks at m_waiters. */
    method BeginUnlock(a: Agent)
      requires Valid() && a < pcs.Length && pcs[a] == Holding
      modifies pcs
      ensures Valid() && View() == Step(old(View()), Move(a, Go)).0
      ensures pcs[a] == if waiters == NoWaiters then Releasing else Popping
    {
      StepKeepsInv(View(), Move(a, Go));
      ghost var p := pcs[..];
      pcs[a] := if waiters == NoWaiters then Releasing else Popping;
      assert pcs[..] == p[a := pcs[a]];
    }

    /** Nobody detached: try to set the word to unlocked. */
    method TryRelease(a: Agent)
      requires Valid() && a < pcs.Length && pcs[a] == Releasing
      modifies this, pcs
      ensures Valid() && View() == Step(old(View()), Move(a, Go)).0 && links == old(links) && pcs == old(pcs)
      ensures old(state) == NoWaiters ==> state == Unlocked && pcs[a] == Idle
      ensures old(state) != NoWaiters ==> state == old(state) && pcs[a] == Detaching
    {
      StepKeepsInv(View(), Move(a, Go));
      ghost var p := pcs[..];
      var done, seen := CompareExchange(NoWaiters, Unlocked);
      if done {
        pcs[a] := Idle;
        owner := NOBODY;
      } else {
        pcs[a] := Detaching;
      }
      assert pcs[..] == p[a := pcs[a]];
    }

    /** `m_waiters = m_state.exchange(locked_no_waiters)`. */
    method DetachAll(a: Agent)
      requires Valid() && a < pcs.Length && pcs[a] == Detaching
      modifies this, pcs
      ensures Valid() && View() == Step(old(View()), Move(a, Go)).0 && links == old(links) && pcs == old(pcs)
      ensures waiters == old(state) && state == NoWaiters && pcs[a] == Popping && batch == old(stack)
    {
      StepKeepsInv(View(), Move(a, Go));
      ghost var p := pcs[..];
      waiters := Exchange(NoWaiters);
      batch, stack := stack, [];
      pcs[a] := Popping;
      assert pcs[..] == p[a := pcs[a]];
    }

    /** `auto next = std::exchange(m_waiters, m_waiters->m_next)`. */
    method PopNext(a: Agent)
      requires Valid() && a < pcs.Length && pcs[a] == Popping
      modifies this, pcs
      ensures Valid() && View() == Step(old(View()), Move(a, Go)).0 && links == old(links) && pcs == old(pcs)
      ensures old(waiters).At? && old(waiters).agent < links.Length && pcs[a] == Resuming(old(waiters).agent)
      ensures waiters == links[old(waiters).agent] && state == old(state)
    {
      SameLengths(View());
      PopKeeps(View(), a);
      StepKeepsInv(View(), Move(a, Go));
      ghost var p := pcs[..];
      var next := waiters.agent;
      waiters := links[next];
      batch := batch[1..];
      pcs[a] := Resuming(next);
      assert pcs[..] == p[a := pcs[a]];
    }

    /** `next->m_handle.resume()`: the resumed coroutine owns the lock. */
    method Resume(a: Agent)
      requires Valid() && a < pcs.Length && pcs[a].Resuming?
      modifies this, pcs
      ensures Valid() && View() == Step(old(View()), Move(a, Go)).0 && links == old(links) && pcs == old(pcs)
      ensures old(pcs[a]).next < pcs.Length && pcs[old(pcs[a]).next] == Holding && pcs[a] == Idle && state == old(state)
    {
      SameLengths(View());
      HandOverKeeps(View(), a);
      StepKeepsInv(View(), Move(a, Go));
      ghost var p := pcs[..];
      var next := pcs[a].next;
      pcs[a] := Idle;
      pcs[next] := Holding;
      owner := next;
      assert pcs[..] == p[a := Idle][next := Holding];
    }
  }
}
