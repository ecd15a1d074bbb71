/** Identify scheduling in `client` (include/client.h): shards ask to identify, one at a time may, and two
    identifies must be five seconds apart.  Runs interleave requests, expired timers, acknowledgements and the
    passing of time. */
module IdentifyScheduler {

  type Shard = nat
  /** Milliseconds. */
  type Time = int

  const GAP: Time := 5000

  datatype Sending = Sending(shard: Shard, at: Time)

  /** `timers`: started and not expired; `outstanding`: identifies sent and not acknowledged.  The rest is
      history: every request, every scheduled shard and every identify sent. */
  datatype State = State(idle: bool, stack: seq<Shard>, last: Time,
                         timers: seq<Sending>, outstanding: seq<Shard>, now: Time,
                         queued: seq<Shard>, scheduled: seq<Shard>, sent: seq<Sending>)

  datatype Move = Queue(shard: Shard) | Expire(timer: nat) | Notify(which: nat) | Tick(to: Time)

  /** The first identify need not wait. */
  function Init(now: Time): State {
    State(true, [], now - 6000, [], [], now, [], [], [])
  }

  function Schedule(s: State, shard: Shard, last: Time): State {
    s.(last := last, timers := s.timers + [Sending(shard, last + GAP)], scheduled := s.scheduled + [shard])
  }

  /** `queue_to_identify`. */
  function QueueStep(s: State, shard: Shard): State {
    if s.idle then Schedule(s, shard, s.last).(idle := false, queued := s.queued + [shard])
    else s.(stack := s.stack + [shard], queued := s.queued + [shard])
  }

  /** `notify_identified`: the newest request is next. */
  function NotifyStep(s: State): State {
    if s.stack != [] then Schedule(s, s.stack[|s.stack| - 1], s.now).(stack := s.stack[..|s.stack| - 1])
    else s.(last := s.now, idle := true)
  }

  function RemoveAt<A>(s: seq<A>, i: nat): seq<A>
    requires i < |s|
  {
    s[..i] + s[i + 1..]
  }

  /** The timer callback: `send_identity`. */
  function ExpireStep(s: State, i: nat): State
    requires i < |s.timers|
  {
    var shard := s.timers[i].shard;
    s.(timers := RemoveAt(s.timers, i), outstanding := s.outstanding + [shard], sent := s.sent + [Sending(shard, s.now)])
  }

  /** A move that cannot happen now changes nothing.  Only an identify that was sent is acknowledged, and only
      once. */
  function Step(s: State, m: Move): State {
    match m
    case Queue(shard) => QueueStep(s, shard)
    case Expire(i) => if i < |s.timers| && s.timers[i].at <= s.now then ExpireStep(s, i) else s
    case Notify(i) =>
      if i < |s.outstanding| then NotifyStep(s.(outstanding := RemoveAt(s.outstanding, i))) else s
    case Tick(t) => if s.now <= t then s.(now := t) else s
  }

  function Run(s: State, moves: seq<Move>): State
    decreases |moves|
  {
    if moves == [] then s else Run(Step(s, moves[0]), moves[1..])
  }

  function Shards(l: seq<Sending>): seq<Shard> { seq(|l|, i requires 0 <= i < |l| => l[i].shard) }

  predicate Spaced(l: seq<Sending>) {
    forall i, j :: 0 <= i < j < |l| ==> l[j].at - l[i].at >= GAP
  }

  predicate AllBy(l: seq<Sending>, t: Time) {
    forall i :: 0 <= i < |l| ==> l[i].at <= t
  }

  ghost predicate Inv(s: State) {
    && (s.idle ==> s.stack == [])
    && |s.timers| + |s.outstanding| == (if s.idle then 0 else 1)
    && s.last <= s.now
    && Spaced(s.sent) && AllBy(s.sent, if s.outstanding == [] then s.last else s.now)
    && (s.timers != [] ==> s.timers[0].at == s.last + GAP)
    && s.scheduled == Shards(s.sent) + Shards(s.timers)
    && (s.outstanding != [] ==> s.sent != [] && s.outstanding[0] == s.sent[|s.sent| - 1].shard)
    && multiset(s.queued) == multiset(s.scheduled) + multiset(s.stack)
  }

  lemma ShardsAppend(l: seq<Sending>, x: Sending)
    ensures Shards(l + [x]) == Shards(l) + [x.shard]
  {
  }

  lemma ScheduleKeeps(s: State, shard: Shard, last: Time)
    requires s.timers == [] && s.scheduled == Shards(s.sent)
    ensures Schedule(s, shard, last).scheduled == Shards(s.sent) + Shards(Schedule(s, shard, last).timers)
    ensures Schedule(s, shard, last).timers == [Sending(shard, last + GAP)]
  {
    ShardsAppend([], Sending(shard, last + GAP));
  }

  lemma QueueKeepsInv(s: State, shard: Shard)
    requires Inv(s)
    ensures Inv(QueueStep(s, shard))
  {
    if s.idle {
      assert Shards(s.timers) == [] && s.scheduled == Shards(s.sent);
      ScheduleKeeps(s, shard, s.last);
    }
  }

  lemma ExpireKeepsInv(s: State, i: nat)
    requires Inv(s) && i < |s.timers| && s.timers[i].at <= s.now
    ensures Inv(ExpireStep(s, i))
  {
    var t := ExpireStep(s, i);
    var x := Sending(s.timers[i].shard, s.now);
    assert i == 0 && s.timers == [s.timers[0]] && t.timers == [];
    assert s.last + GAP <= s.now;
    assert Shards(s.timers) == [x.shard];
    ShardsAppend(s.sent, x);
    assert t.scheduled == Shards(t.sent) + Shards(t.timers);
    assert Spaced(t.sent) by {
      forall j, k | 0 <= j < k < |t.sent| ensures t.sent[k].at - t.sent[j].at >= GAP {
        if k == |s.sent| {
          assert s.sent[j].at <= s.last;
        }
      }
    }
  }

  lemma NotifyKeepsInv(s: State, i: nat)
    requires Inv(s) && i < |s.outstanding|
    ensures Inv(NotifyStep(s.(outstanding := RemoveAt(s.outstanding, i))))
  {
    var r := s.(outstanding := RemoveAt(s.outstanding, i));
    assert r.outstanding == [] && s.timers == [];
    assert Shards(s.timers) == [] && s.scheduled == Shards(s.sent);
    if s.stack != [] {
      var next := s.stack[|s.stack| - 1];
      ScheduleKeeps(r, next, s.now);
      assert s.stack == s.stack[..|s.stack| - 1] + [next];
    }
  }

  lemma TickKeepsInv(s: State, t: Time)
    requires Inv(s) && s.now <= t
    ensures Inv(s.(now := t))
  {
  }

  lemma StepKeepsInv(s: State, m: Move)
    requires Inv(s)
    ensures Inv(Step(s, m))
  {
    hide Inv, RemoveAt, QueueStep, NotifyStep, ExpireStep;
    match m
    case Queue(shard) => QueueKeepsInv(s, shard);
    case Expire(i) => if i < |s.timers| && s.timers[i].at <= s.now { ExpireKeepsInv(s, i); }
    case Notify(i) => if i < |s.outstanding| { NotifyKeepsInv(s, i); }
    case Tick(t) => if s.now <= t { TickKeepsInv(s, t); }
  }

  lemma {:induction false} RunKeepsInv(s: State, moves: seq<Move>)
    requires Inv(s)
    ensures Inv(Run(s, moves))
    decreases |moves|
  {
    hide Inv;
    if moves != [] {
      StepKeepsInv(s, moves[0]);
      RunKeepsInv(Step(s, moves[0]), moves[1..]);
    }
  }

  /** In every run at most one identify is outstanding, and while the flag says that no one identifies, nobody
      is scheduled, outstanding or waiting. */
  lemma OneAtATime(now: Time, moves: seq<Move>)
    ensures var s := Run(Init(now), moves);
            |s.outstanding| + |s.timers| <= 1
            && (s.idle <==> s.outstanding == [] && s.timers == [])
            && (s.idle ==> s.stack == [])
  {
    RunKeepsInv(Init(now), moves);
  }

  /** Any two identifies of a run are at least five seconds apart. */
  lemma FiveSecondsApart(now: Time, moves: seq<Move>, i: nat, j: nat)
    requires i < j < |Run(Init(now), moves).sent|
    ensures Run(Init(now), moves).sent[j].at - Run(Init(now), moves).sent[i].at >= 5000
  {
    RunKeepsInv(Init(now), moves);
  }

  /** The first request of all need not wait: its shard may identify at the time the client is made. */
  lemma FirstAtOnce(now: Time, shard: Shard)
    ensures Run(Init(now), [Queue(shard), Expire(0)]).sent == [Sending(shard, now)]
  {
    var s := Step(Init(now), Queue(shard));
    assert s.timers == [Sending(shard, now - 1000)];
    assert [Queue(shard), Expire(0)][1..] == [Expire(0)] && [Expire(0)][1..] == [];
    var t := Step(s, Expire(0));
    assert Run(s, [Expire(0)]) == Run(t, []) == t;
    assert t.sent == [Sending(shard, now)];
  }

  /** In any run, a request made while nobody identifies may go five seconds after the last acknowledgement, and the
      timer of an identify that is scheduled never stands further off than five seconds. */
  lemma WaitsNoLonger(now: Time, moves: seq<Move>, shard: Shard)
    ensures var s := Run(Init(now), moves);
            && (s.idle ==> Step(s, Queue(shard)).timers == [Sending(shard, s.last + 5000)])
            && (forall i :: 0 <= i < |s.timers| ==> s.timers[i].at <= s.now + 5000)
            && (s.timers != [] && s.timers[0].at <= s.now ==>
                  Step(s, Expire(0)).sent == s.sent + [Sending(s.timers[0].shard, s.now)] && Step(s, Expire(0)).timers == [])
  {
    RunKeepsInv(Init(now), moves);
    var s := Run(Init(now), moves);
    if s.timers != [] {
      assert s.timers == [s.timers[0]];
    }
  }

  /** The time of the last acknowledgement, as the code keeps it, is that of the last move `notify`. */
  lemma LastIsAcknowledged(s: State, m: Move)
    requires Inv(s)
    ensures Step(s, m).last == if m.Notify? && m.which < |s.outstanding| then s.now else s.last
  {
  }

  /** Each request is scheduled once or still waits, and each scheduled shard is sent once, in that order, or
      has its timer. */
  lemma ScheduledOnce(now: Time, moves: seq<Move>)
    ensures var s := Run(Init(now), moves);
            && multiset(s.queued) == multiset(s.scheduled) + multiset(s.stack)
            && s.scheduled == Shards(s.sent) + Shards(s.timers)
  {
    RunKeepsInv(Init(now), moves);
  }

  lemma NewestIsNext(s: State)
    requires |s.timers| == 0 && |s.outstanding| == 1 && s.stack != []
    ensures Step(s, Notify(0)).timers == [Sending(s.stack[|s.stack| - 1], s.now + 5000)]
    ensures Step(s, Notify(0)).stack == s.stack[..|s.stack| - 1]
  {
  }

  /** Nobody is forgotten: while a request waits, a timer is running or an acknowledgement is due, and that
      acknowledgement schedules the newest request five seconds later. */
  lemma SomebodyIsNext(now: Time, moves: seq<Move>)
    requires Run(Init(now), moves).stack != []
    ensures var s := Run(Init(now), moves);
            && |s.timers| + |s.outstanding| == 1
            && (s.outstanding != [] ==>
                  Step(s, Notify(0)).timers == [Sending(s.stack[|s.stack| - 1], s.now + 5000)]
                  && Step(s, Notify(0)).stack == s.stack[..|s.stack| - 1])
  {
    hide Step, Run;
    RunKeepsInv(Init(now), moves);
    var s := Run(Init(now), moves);
    if s.outstanding != [] {
      NewestIsNext(s);
    }
  }

  /** An acknowledgement nobody is waiting for breaks the rule.  With one identify scheduled or outstanding it
      either schedules a second one, five seconds from now, or raises the idle flag under the first.  Precisely,
      the invariant survives such a call exactly when nothing was scheduled or outstanding. */
  lemma StrayAcknowledgement(s: State)
    requires Inv(s)
    ensures Inv(NotifyStep(s)) <==> s.idle
  {
    if s.idle {
      assert NotifyStep(s) == s.(last := s.now, idle := true);
    }
  }

  /** The `client` object. */
  class Client {
    var noOneIsIdentifying: bool
    var lastIdentify: Time
    var identifyingStack: seq<Shard>
    var timers: seq<Sending>
    ghost var outstanding: seq<Shard>
    ghost var now: Time
    ghost var queued: seq<Shard>
    ghost var scheduled: seq<Shard>
    ghost var sent: seq<Sending>

    ghost function View(): State
      reads this
    {
      State(noOneIsIdentifying, identifyingStack, lastIdentify, timers, outstanding, now, queued, scheduled, sent)
    }

    ghost predicate Valid()
      reads this
    {
      Inv(View())
    }

    constructor (start: Time)
      ensures Valid() && View() == Init(start) && noOneIsIdentifying && lastIdentify == start - 6000
    {
      noOneIsIdentifying, lastIdentify, identifyingStack := true, start - 6000, [];
      timers, outstanding, now, queued, scheduled, sent := [], [], start, [], [], [];
    }

    method StartTimer(s: Shard)
      modifies `timers, `scheduled
      ensures timers == old(timers) + [Sending(s, lastIdentify + GAP)] && scheduled == old(scheduled) + [s]
    {
      timers := timers + [Sending(s, lastIdentify + GAP)];
      scheduled := scheduled + [s];
    }

    method QueueToIdentify(s: Shard)
      requires Valid()
      modifies `noOneIsIdentifying, `identifyingStack, `timers, `queued, `scheduled
      ensures Valid() && View() == QueueStep(old(View()), s)
      ensures queued == old(queued) + [s]
      ensures !noOneIsIdentifying
      ensures old(noOneIsIdentifying) ==> timers == old(timers) + [Sending(s, lastIdentify + 5000)]
      ensures old(noOneIsIdentifying) ==> identifyingStack == old(identifyingStack)
      ensures !old(noOneIsIdentifying) ==> timers == old(timers) && identifyingStack == old(identifyingStack) + [s]
    {
      hide Inv;
      QueueKeepsInv(View(), s);
      if noOneIsIdentifying {
        noOneIsIdentifying := false;
        StartTimer(s);
      } else {
        identifyingStack := identifyingStack + [s];
      }
      queued := queued + [s];
    }

    /** `notify_identified`, called at time `clock` for the identify outstanding. */
    method NotifyIdentified(clock: Time)
      requires Valid() && clock == now && |outstanding| > 0
      modifies `noOneIsIdentifying, `lastIdentify, `identifyingStack, `timers, `outstanding, `scheduled
      ensures Valid() && View() == Step(old(View()), Notify(0))
      ensures noOneIsIdentifying <==> old(identifyingStack) == []
      ensures old(identifyingStack) != [] ==>
                && old(identifyingStack) == identifyingStack + [old(identifyingStack)[|old(identifyingStack)| - 1]]
                && timers == [Sending(old(identifyingStack)[|old(identifyingStack)| - 1], clock + 5000)]
      ensures lastIdentify == clock && |outstanding| == |old(outstanding)| - 1 && sent == old(sent)
    {
      hide Inv;
      NotifyKeepsInv(View(), 0);
      outstanding := RemoveAt(outstanding, 0);
      lastIdentify := clock;
      if identifyingStack != [] {
        var next := identifyingStack[|identifyingStack| - 1];
        identifyingStack := identifyingStack[..|identifyingStack| - 1];
        StartTimer(next);
      } else {
        noOneIsIdentifying := true;
      }
    }

    /** The timer callback. */
    method OnTimer(i: nat) returns (shard: Shard)
      requires Valid() && i < |timers| && timers[i].at <= now
      modifies `timers, `outstanding, `sent
      ensures Valid() && View() == ExpireStep(old(View()), i) && shard == old(timers)[i].shard
      ensures sent == old(sent) + [Sending(shard, now)] && |timers| == |old(timers)| - 1
    {
      hide Inv;
      ExpireKeepsInv(View(), i);
      shard := timers[i].shard;
      timers := timers[..i] + timers[i + 1..];
      outstanding := outstanding + [shard];
      sent := sent + [Sending(shard, now)];
    }
  }
}
