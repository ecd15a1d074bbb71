/** The coroutine queue object (common/concurrent_async_queue.h): the ring buffer, the overflow and the
    linked stack of awaiters, each section under the mutex shown to be a step of `QueueProtocol`. */
module AsyncQueue {
  import opened Wrappers
  import opened QueueProtocol

  /** How many slots lie between head and tail. */
  function Length(head: nat, tail: nat, size: nat): (n: nat)
    requires head < size && tail < size
    ensures n < size
  {
    if head <= tail then tail - head else tail + size - head
  }

  /** `is_full`, as the code tests it. */
  predicate IsFull(head: nat, tail: nat, size: nat)
    requires head < size && tail < size
  {
    (head + 1) % size == tail
  }

  lemma Advance(i: nat, size: nat)
    requires i < size
    ensures (i + 1) % size == if i + 1 == size then 0 else i + 1
  {
    if i + 1 == size {
      assert size % size == 0;
    }
  }

  /** One slot on from an empty ring: one value, in the slot that was written. */
  lemma AfterPush(i: nat, size: nat)
    requires i < size && size >= 2
    ensures (i + 1) % size < size && Length(i, (i + 1) % size, size) == 1 && (i + 0) % size == i
  {
    Advance(i, size);
  }

  /** The test says full exactly when one value is stored, whatever the size. */
  lemma FullMeansOne(head: nat, tail: nat, size: nat)
    requires head < size && tail < size && size >= 2
    ensures IsFull(head, tail, size) <==> Length(head, tail, size) == 1
  {
    Advance(head, size);
  }

  /** So it is the test for "all but one slot used" of the comment beside it for no size but 2. */
  lemma FullIsNotAllButOne(size: nat)
    requires size >= 2
    ensures (forall head: nat, tail: nat :: head < size && tail < size ==>
               (IsFull(head, tail, size) <==> Length(head, tail, size) == size - 1))
        <==> size == 2
  {
    forall head: nat, tail: nat | head < size && tail < size
      ensures IsFull(head, tail, size) <==> Length(head, tail, size) == 1
    {
      FullMeansOne(head, tail, size);
    }
    assert Length(0, 1, size) == 1;
    assert IsFull(0, 1, size);
  }

  /** `ring_buffer_no_thread_stuffs`. */
  class Ring<T> {
    const size: nat
    const data: array<T>
    var head: nat
    var tail: nat

    ghost predicate Valid()
      reads this, data
    {
      && size >= 2 && data.Length == size && head < size && tail < size
      && Length(head, tail, size) <= 1
    }

    /** The slots from head up to tail. */
    ghost function Contents(): (s: seq<T>)
      requires Valid()
      reads this, data
      ensures |s| == Length(head, tail, size)
    {
      var (slots, first, length) := (data[..], head, Length(head, tail, size));
      seq(length, i requires 0 <= i < length && |slots| > 0 => slots[(first + i) % |slots|])
    }

    constructor (size: nat, blank: T)
      requires size >= 2
      ensures Valid() && Contents() == [] && this.size == size && fresh(data)
    {
      this.size := size;
      data := new T[size](_ => blank);
      head, tail := 0, 0;
    }

    predicate IsEmpty()
      reads this
    {
      head == tail
    }

    /** `try_push`. */
    method TryPush(x: T) returns (ok: bool)
      requires Valid()
      modifies `tail, data
      ensures Valid() && ok == (|old(Contents())| == 0)
      ensures Contents() == if ok then old(Contents()) + [x] else old(Contents())
    {
      hide IsFull;
      FullMeansOne(head, tail, size);
      AfterPush(tail, size);
      if IsFull(head, tail, size) {
        return false;
      }
      assert head == tail && old(Contents()) == [];
      data[tail] := x;
      tail := (tail + 1) % size;
      assert Contents() == [x];
      return true;
    }

    /** `try_pop`. */
    method TryPop() returns (value: Option<T>)
      requires Valid()
      modifies `head
      ensures Valid()
      ensures value == if old(Contents()) == [] then None else Some(old(Contents())[0])
      ensures Contents() == if old(Contents()) == [] then [] else old(Contents())[1..]
    {
      if IsEmpty() {
        return None;
      }
      Advance(head, size);
      assert head % size == head;
      value := Some(data[head]);
      head := (head + 1) % size;
    }
  }

  /** What `await_resume` finds: its value, or the exception of `cancel_all`. */
  datatype Slot<T> = Unset | Holds(outcome: Outcome<T>)

  /** `awaiter`.  `resumes` counts the calls of `coro.resume()`. */
  class Awaiter<T> {
    var next: Awaiter?<T>
    var thing: Slot<T>
    ghost var resumes: nat

    constructor ()
      ensures next == null && thing == Unset && resumes == 0
    {
      next, thing, resumes := null, Unset, 0;
    }
  }

  /** The awaiters linked from `first`, in order, are exactly `list`. */
  ghost predicate Linked<T>(first: Awaiter?<T>, list: seq<Awaiter<T>>)
    reads list
  {
    && (forall i, j :: 0 <= i < j < |list| ==> list[i] != list[j])
    && first == (if list == [] then null else list[0])
    && (forall i, j {:trigger list[i], list[j]} :: 0 <= i && j == i + 1 && j < |list| ==> list[i].next == list[j])
    && (list != [] ==> list[|list| - 1].next == null)
  }

  lemma LinkedTail<T>(first: Awaiter<T>, list: seq<Awaiter<T>>)
    requires Linked(first, list)
    ensures list != [] && list[0] == first && Linked(first.next, list[1..])
  {
    var rest := list[1..];
    forall i, j | 0 <= i && j == i + 1 && j < |rest| ensures rest[i].next == rest[j] {
      assert list[i + 1].next == list[j + 1];
    }
    if rest != [] {
      assert list[0].next == list[1];
    }
  }

  lemma LinkedPush<T>(top: Awaiter<T>, list: seq<Awaiter<T>>)
    requires Linked(top.next, list) && top !in list
    ensures Linked(top, [top] + list)
  {
    var all := [top] + list;
    forall i, j | 0 <= i && j == i + 1 && j < |all| ensures all[i].next == all[j] {
      if i > 0 {
        assert list[i - 1].next == list[j - 1];
      }
    }
  }

  /** `async_queue_maybe_better`. */
  class AsyncQueue<T> {
    const ring: Ring<T>
    var overflow: seq<T>
    var waiter: Awaiter?<T>
    /** The awaiters linked from `waiter`. */
    ghost var waiting: seq<Awaiter<T>>

    ghost function View(): Core<T, Awaiter<T>>
      requires ring.Valid()
      reads this, ring, ring.data
    {
      Core(ring.Contents(), overflow, waiting)
    }

    ghost predicate Valid()
      reads this, ring, ring.data, waiting
    {
      ring.Valid() && WellFormed(View()) && Linked(waiter, waiting)
    }

    constructor (blank: T)
      ensures Valid() && View() == Core([], [], []) && fresh(ring) && fresh(ring.data)
    {
      ring := new Ring(32, blank);
      overflow, waiter, waiting := [], null, [];
    }

    /** The section of `push` under the mutex. */
    method PushLocked(x: T) returns (toResume: Awaiter?<T>)
      requires Valid()
      modifies `overflow, `waiter, `waiting, ring, ring.data, waiting
      ensures Valid()
      ensures View() == Push(old(View()), x).0
      ensures toResume == match Push(old(View()), x).1 case None => null case Some(w) => w
      ensures toResume != null ==> toResume.thing == Holds(Got(x))
      ensures forall w :: w in old(waiting) ==> w.resumes == old(w.resumes) && w.next == old(w.next)
      ensures forall w :: w in old(waiting) && w != toResume ==> w.thing == old(w.thing)
    {
      if waiter != null {
        LinkedTail(waiter, waiting);
        toResume := waiter;
        waiter, waiting := waiter.next, waiting[1..];
        toResume.thing := Holds(Got(x));
      } else {
        assert waiting == [];
        toResume := null;
        var ok := ring.TryPush(x);
        if !ok {
          overflow := overflow + [x];
        }
      }
    }

    /** `push`: the waiter is resumed once, after the mutex is released. */
    method PushValue(x: T)
      requires Valid()
      modifies `overflow, `waiter, `waiting, ring, ring.data, waiting
      ensures Valid() && View() == Push(old(View()), x).0
      ensures forall w :: w in old(waiting) ==>
                if Some(w) == Push(old(View()), x).1 then w.thing == Holds(Got(x)) && w.resumes == old(w.resumes) + 1
                else w.thing == old(w.thing) && w.resumes == old(w.resumes)
    {
      var toResume := PushLocked(x);
      if toResume != null {
        toResume.resumes := toResume.resumes + 1;
      }
    }

    /** `pop_1`.  The result of putting the overflow's first value into the ring is ignored there: it is
        always accepted, so nothing is dropped. */
    method PopOne() returns (value: T)
      requires Valid() && ring.Contents() != []
      modifies `overflow, ring, ring.data
      ensures Valid() && (View(), value) == Pop1(old(View()))
      ensures waiting == old(waiting)
    {
      var front := ring.TryPop();
      if overflow != [] {
        var next := overflow[0];
        overflow := overflow[1..];
        var ok := ring.TryPush(next);
        assert ok;
      }
      value := front.value;
    }

    /** `await_suspend`. */
    method AwaitSuspend(a: Awaiter<T>) returns (suspended: bool)
      requires Valid() && a !in waiting
      modifies `overflow, `waiter, `waiting, ring, ring.data, a
      ensures Valid()
      ensures View() == Suspend(old(View()), a).0
      ensures suspended == Suspend(old(View()), a).1.None?
      ensures a.thing == if suspended then old(a.thing) else Holds(Got(Suspend(old(View()), a).1.value))
      ensures a.resumes == old(a.resumes)
    {
      if !ring.IsEmpty() {
        var value := PopOne();
        a.thing := Holds(Got(value));
        return false;
      }
      a.next := waiter;
      LinkedPush(a, waiting);
      waiter, waiting := a, [a] + waiting;
      return true;
    }

    /** The walk of `cancel_all` over the list it took out: everyone on it gets the exception and is
        resumed, once. */
    static method CancelEach(first: Awaiter?<T>, ghost all: seq<Awaiter<T>>)
      requires Linked(first, all)
      modifies all
      ensures forall w :: w in all ==> w.thing == Holds(Cancelled) && w.resumes == old(w.resumes) + 1
    {
      ghost var k: nat := 0;
      var waiters := first;
      while waiters != null
        invariant k <= |all| && waiters == if k < |all| then all[k] else null
        invariant forall j :: k <= j < |all| ==> all[j].resumes == old(all[j].resumes)
        invariant forall j :: k <= j < |all| ==> all[j].next == old(all[j].next)
        invariant forall j :: 0 <= j < k ==> all[j].thing == Holds(Cancelled) && all[j].resumes == old(all[j].resumes) + 1
        decreases |all| - k
      {
        var current := waiters;
        assert k + 1 < |all| ==> old(all[k].next) == all[k + 1];
        waiters := waiters.next;
        current.thing := Holds(Cancelled);
        current.resumes := current.resumes + 1;
        k := k + 1;
      }
    }

    /** `cancel_all`. */
    method CancelAll()
      requires Valid()
      modifies `waiter, `waiting, waiting
      ensures Valid() && View() == old(View()).(waiters := [])
      ensures forall w :: w in old(waiting) ==> w.thing == Holds(Cancelled) && w.resumes == old(w.resumes) + 1
    {
      var waiters := waiter;
      ghost var all := waiting;
      waiter, waiting := null, [];
      CancelEach(waiters, all);
    }
  }
}
