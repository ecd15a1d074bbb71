/** `sherwood_v8_table`: the bytell hash map, with its control bytes and slots updated in place. */
module BytellHashMap {
  import opened Wrappers
  import opened HashPolicy
  import opened BytellTable
  import opened BytellChains
  import opened BytellInsert
  import opened BytellRoom
  import opened BytellGrowth

  /** Where the walk along a key's chain ends. */
  datatype Walk = Found(index: nat) | NoHead(index: nat) | EndOfChain(index: nat)

  class BytellHashMap<K(==), V> {
    const hash: K -> nat
    /** `next_size_over` of the hash policy. */
    const nextSize: nat -> nat
    /** The allocator refuses tables of more slots than this. */
    const maxSlots: nat

    var ctrl: array<nat>
    var slots: array<Option<(K, V)>>
    var numSlotsMinusOne: nat
    var numElements: nat
    ghost var rank: seq<nat>
    ghost var pred: seq<nat>
    ghost var pos: map<K, nat>

    function Slots(): nat
      reads this
    {
      numSlotsMinusOne + 1
    }

    function BucketCount(): nat
      reads this
    {
      if numSlotsMinusOne == 0 then 0 else numSlotsMinusOne + 1
    }

    ghost function View(): Table<K, V>
      reads this, ctrl, slots
    {
      Table(numSlotsMinusOne + 1, ctrl[..], slots[..], rank, pred, pos)
    }

    ghost function HomeOf(): K -> nat
      reads this
    {
      Homes(hash, numSlotsMinusOne + 1)
    }

    ghost function Rules(): Policy<K> {
      Policy(hash, nextSize, maxSlots)
    }

    /** Enough for `Rehash`: every pair is in a slot in use, whatever the links say. */
    ghost predicate Storing()
      reads this, ctrl, slots
    {
      && Stored(View()) && numElements == |pos| && Slots() <= maxSlots && (Slots() == 1 ==> pos == map[])
      && Rules().Rising()
    }

    ghost predicate Valid()
      reads this, ctrl, slots
    {
      Storing() && Chained(View(), HomeOf()) && ReservedOnly(View(), -1) && WithinLoad(numElements, Slots())
    }

    ghost function Contents(): map<K, V>
      reads this, ctrl, slots
      requires Storing()
    {
      BytellChains.Contents(View())
    }

    lemma ValidIsSound()
      requires Valid()
      ensures Sound(Rules(), View()) && Rules().Rising()
    {
    }

    lemma SoundIsValid()
      requires Sound(Rules(), View()) && Rules().Rising() && numElements == |pos|
      ensures Valid()
    {
    }

    /** What inserting a pair amounts to when the table need not grow. */
    ghost function StepFor(pair: (K, V)): Option<Table<K, V>>
      reads this, ctrl, slots
      requires Valid()
    {
      Fitted(Rules(), View(), pair)
    }

    /** What inserting it amounts to, growth and refusals included. */
    ghost function Inserted(pair: (K, V)): Outcome<Table<K, V>>
      reads this, ctrl, slots
      requires Valid() && pair.0 !in pos
    {
      Insert(Rules(), View(), pair)
    }

    /** What growing first and then inserting it amounts to. */
    ghost function GrownInserted(pair: (K, V)): Outcome<Table<K, V>>
      reads this, ctrl, slots
      requires Storing() && pair.0 !in pos
    {
      Regrown(Rules(), View(), pair)
    }

    /** What rehashing into an array of another size amounts to. */
    ghost function Resized(size: nat): Outcome<Table<K, V>>
      reads this, ctrl, slots
      requires Storing() && size >= 1
    {
      Rehashed(Rules(), View(), size)
    }

    /** A call ended as it does on values: in that table, or in that refusal. */
    ghost predicate Ended<T>(r: Outcome<T>, spec: Outcome<Table<K, V>>)
      reads this, ctrl, slots
    {
      if spec.Done? then r.Done? && View() == spec.value else r == Refused(spec.size)
    }

    /** What giving way at a home slot amounts to. */
    ghost function Relocated(block: nat): (Table<K, V>, bool)
      reads this, ctrl, slots
      requires Storing() && block < |pred| && Cut(View(), HomeOf(), block, pred[block]) && RanksBelow(View(), RankBound(rank))
    {
      Relocate(View(), HomeOf(), block, block, pred[block], RankBound(rank))
    }

    constructor (hash: K -> nat, nextSize: nat -> nat, maxSlots: nat)
      requires (forall x: nat :: nextSize(x) >= x) && maxSlots >= 1
      ensures Valid() && Contents() == map[] && fresh(ctrl) && fresh(slots)
      ensures this.hash == hash && this.nextSize == nextSize && this.maxSlots == maxSlots && Slots() == 1
    {
      this.hash, this.nextSize, this.maxSlots := hash, nextSize, maxSlots;
      ctrl := new nat[1](_ => EMPTY);
      slots := new Option<(K, V)>[1](_ => None);
      numSlotsMinusOne, numElements, rank, pred, pos := 0, 0, [0], [0], map[];
      new;
      assert Stored(View());
    }

    // ----- Walking -----

    /** `find` and `emplace` walk the chain alike: the home slot must be a direct hit, then the links
        are followed by adding the jump distance and reducing with index_for_hash. */
    method WalkChain(key: K) returns (w: Walk)
      requires Valid()
      ensures w.index < Slots()
      ensures w.Found? <==> key in pos
      ensures w.Found? ==> w.index == pos[key]
      ensures w.NoHead? ==> w.index == HomeOf()(key) && (ctrl[w.index] == EMPTY || (IsFull(ctrl[w.index]) && !IsDirect(ctrl[w.index])))
      ensures w.EndOfChain? ==> IsFull(ctrl[HomeOf()(key)]) && IsDirect(ctrl[HomeOf()(key)])
                                && RanksBelow(View(), RankBound(rank)) && w.index == Tail(View(), HomeOf(), HomeOf()(key), RankBound(rank))
    {
      hide HeadOk, NextOk, PrevOk, BytellChains.Contents, InsertStep, WithinLoad, Stored, Tail, ReservedOnly,
        RanksBelow, RankBound;
      ghost var t, home := View(), HomeOf();
      Sizes(t);
      Bounded(t);
      HomesBelow(hash, Slots(), key);
      var index := IndexForHash(hash(key), numSlotsMinusOne + 1);
      if key in pos {
        StoredAt(t, key);
        HeadOfChain(t, home, pos[key]);
      }
      NotReserved(t, index);
      if !IsDirect(ctrl[index]) {
        return NoHead(index);
      }
      HeadIsHome(t, home, index);
      w := WalkFrom(index, key);
    }

    /** From the head of the key's chain on. */
    method WalkFrom(head: nat, key: K) returns (w: Walk)
      requires Valid() && View().Full(head) && HomeOf()(KeyAt(View(), head)) == head == HomeOf()(key)
      requires RanksBelow(View(), RankBound(rank)) && rank[head] == 0
      ensures w.index < Slots() && !w.NoHead?
      ensures w.Found? <==> key in pos
      ensures w.Found? ==> w.index == pos[key]
      ensures w.EndOfChain? ==> w.index == Tail(View(), HomeOf(), head, RankBound(rank))
    {
      hide HeadOk, PrevOk, Step, BytellChains.Contents, InsertStep, WithinLoad, JumpDistance, Stored, ReservedOnly,
        RankBound, Homes;
      ghost var t, home, bound := View(), HomeOf(), RankBound(rank);
      Sizes(t);
      if key in pos {
        StoredAt(t, key);
      }
      var index := head;
      MetAt(t, index);
      while true
        invariant t.Full(index) && t.slot[index].Some? && home(KeyAt(t, index)) == home(key)
        invariant Tail(t, home, index, bound) == Tail(t, home, head, bound)
        invariant key in pos ==> t.rank[index] <= t.rank[pos[key]]
        decreases bound - t.rank[index]
      {
        MetAt(t, index);
        assert NextOk(t, home, index);
        if slots[index].value.0 == key {
          return Found(index);
        }
        var toNext := Jump(ctrl[index]);
        if key in pos && t.rank[index] == t.rank[pos[key]] {
          SameRankSameSlot(t, home, index, pos[key]);
        }
        if toNext == 0 {
          if key in pos {
            EarlierHasNext(t, home, index, pos[key]);
          }
          return EndOfChain(index);
        }
        FindStepsLikeNext(index, toNext, Slots());
        index := IndexForHash(index + JumpDistance(toNext), numSlotsMinusOne + 1);
        MetAt(t, index);
      }
    }

    method Find(key: K) returns (it: Option<nat>)
      requires Valid()
      ensures key in Contents() ==> it.Some? && it.value < Slots() && slots[it.value] == Some((key, Contents()[key]))
      ensures key !in Contents() ==> it == None
    {
      var w := WalkChain(key);
      it := if w.Found? then Some(w.index) else None;
    }

    method FindFreeIndex(parent: nat) returns (j: nat, index: nat)
      requires parent < Slots() && ctrl.Length == Slots()
      ensures j == FirstFree(ctrl[..], Slots(), parent, 1)
      ensures j != 0 ==> index == Step(parent, j, Slots())
    {
      j := 1;
      while j < NUM_JUMPS
        invariant 1 <= j <= NUM_JUMPS
        invariant FirstFree(ctrl[..], Slots(), parent, 1) == FirstFree(ctrl[..], Slots(), parent, j)
      {
        index := KeepInRange(parent + JumpDistance(j), numSlotsMinusOne + 1);
        if ctrl[index] == EMPTY {
          return;
        }
        j := j + 1;
      }
      return 0, 0;
    }

    /** Walks from the head of the child's chain to the slot that links to the child. */
    method FindParentBlock(child: nat) returns (parent: nat)
      requires Valid() && child < Slots() && IsFull(ctrl[child]) && !IsDirect(ctrl[child])
      ensures parent == pred[child] && parent < Slots()
    {
      hide PrevOk, BytellChains.Contents, InsertStep, WithinLoad, Step, JumpDistance;
      ghost var t, home := View(), HomeOf();
      HeadOfChain(t, home, child);
      parent := IndexForHash(hash(slots[child].value.0), numSlotsMinusOne + 1);
      assert HeadOk(t, home, parent) && HeadOk(t, home, child);
      while true
        invariant t.Full(parent) && home(KeyAt(t, parent)) == home(KeyAt(t, child))
        invariant t.rank[parent] < t.rank[child]
        decreases t.rank[child] - t.rank[parent]
      {
        EarlierHasNext(t, home, parent, child);
        assert NextOk(t, home, parent);
        var next := KeepInRange(parent + JumpDistance(Jump(ctrl[parent])), numSlotsMinusOne + 1);
        assert next == Next(t, parent) by {
          StepIs(parent, Jump(ctrl[parent]), Slots());
        }
        if next == child {
          return;
        }
        if t.rank[next] == t.rank[child] {
          SameRankSameSlot(t, home, next, child);
        }
        parent := next;
      }
    }

    // ----- Inserting -----

    /** `set_metadata`. */
    method SetMetadata(i: nat, c: nat)
      requires i < ctrl.Length
      modifies ctrl
      ensures ctrl[..] == old(ctrl[..])[i := c]
    {
      ctrl[i] := c;
    }

    /** `set_next`: the slot stays in use and of its kind, and links by the jump code given. */
    method SetNext(i: nat, j: nat)
      requires i < ctrl.Length && ctrl[i] <= 255 && IsFull(ctrl[i]) && j < NUM_JUMPS
      modifies ctrl
      ensures Jump(ctrl[i]) == j && (IsDirect(ctrl[i]) <==> old(IsDirect(ctrl[i])))
      ensures IsFull(ctrl[i]) && ctrl[i] <= 255
      ensures forall k :: 0 <= k < ctrl.Length && k != i ==> ctrl[k] == old(ctrl[k])
    {
      CodesDoNotCollide(ctrl[i], j);
      ctrl[i] := WithJump(ctrl[i], j);
    }

    /** Constructs, or destroys, the pair of a slot. */
    method SetSlot(i: nat, x: Option<(K, V)>)
      requires i < slots.Length
      modifies slots
      ensures slots[..] == old(slots[..])[i := x]
    {
      slots[i] := x;
    }

    /** Constructs a pair in its empty home slot. */
    method PutDirectAt(block: nat, pair: (K, V))
      requires Storing() && block < Slots()
      modifies `numElements, `rank, `pos, ctrl, slots
      ensures View() == PutDirect(old(View()), block, pair) && numElements == old(numElements) + 1
      ensures slots[block] == Some(pair)
    {
      hide Stored;
      Sizes(View());
      SetSlot(block, Some(pair));
      SetMetadata(block, DIRECT_HIT);
      assert slots[..][block] == Some(pair);
      rank, pos := rank[block := 0], pos[pair.0 := block];
      numElements := numElements + 1;
    }

    /** Constructs a pair in a free slot and links it from the chain's last slot. */
    method PutTailAt(parent: nat, index: nat, j: nat, pair: (K, V))
      requires Storing() && View().Full(parent) && index < Slots() && index != parent && j < NUM_JUMPS
      modifies `numElements, `rank, `pred, `pos, ctrl, slots
      ensures View() == PutTail(old(View()), parent, index, j, pair) && numElements == old(numElements) + 1
      ensures slots[index] == Some(pair)
    {
      hide Stored, IsFull, Jump, IsDirect, WithJump;
      Sizes(View());
      MetAt(View(), parent);
      SetSlot(index, Some(pair));
      SetMetadata(index, LIST_ENTRY);
      ghost var unlinked := ctrl[..];
      SetNext(parent, j);
      Relinked(unlinked, ctrl[..], parent, j);
      assert slots[..][index] == Some(pair);
      rank, pred, pos := rank[index := rank[parent] + 1], pred[index := parent], pos[pair.0 := index];
      numElements := numElements + 1;
    }

    /** One turn of the relocation loop: the pair at `it` moves to f, linked from `parent`; the slot
        it leaves becomes empty and the home slot is marked reserved while a tail remains. */
    method MoveEntry(block: nat, it: nat, parent: nat, f: nat, j: nat) returns (next: Option<nat>)
      requires Stored(View()) && View().Full(it) && View().Full(parent)
      requires it != parent && f != parent && f != it && f < Slots() && block < Slots() && Jump(ctrl[it]) < NUM_JUMPS
      requires j < NUM_JUMPS
      requires it == block || (ctrl[block] == RESERVED && block != f && block != parent)
      modifies `rank, `pred, `pos, ctrl, slots
      ensures View() == Move(old(View()), it, parent, f, j, Left(block, it, old(View()).HasNext(it)))
      ensures next == if old(View()).HasNext(it) then Some(Next(old(View()), it)) else None
    {
      hide Step, Stored, JumpDistance, Homes, IsFull, Jump, WithJump, IsDirect;
      Sizes(View());
      MetAt(View(), it);
      MetAt(View(), parent);
      ghost var t := View();
      var code := Jump(ctrl[it]);
      SetSlot(f, slots[it]);
      SetSlot(it, None);
      ghost var unlinked := ctrl[..];
      SetNext(parent, j);
      Relinked(unlinked, ctrl[..], parent, j);
      SetMetadata(f, LIST_ENTRY);
      assert slots[..] == t.slot[f := t.slot[it]][it := None];
      rank, pos := rank[f := rank[it]], pos[t.slot[it].value.0 := f];
      ghost var c := ctrl[..];
      SetMetadata(it, EMPTY);
      if code == 0 {
        pred := pred[f := parent];
        next := None;
      } else {
        StepIs(it, code, Slots());
        var n := KeepInRange(it + JumpDistance(code), numSlotsMinusOne + 1);
        MarkIsLeft(c, block, it);
        SetMetadata(block, RESERVED);
        pred := pred[n := f][f := parent];
        next := Some(n);
      }
    }

    /** The state at the head of the relocation loop: `f`, reached by jump `j` from `parent`, is free for the
        entry `it`. */
    ghost predicate Moving(home: K -> nat, bound: nat, block: nat, it: nat, parent: nat)
      reads this, ctrl, slots
    {
      && Cut(View(), home, it, parent) && RanksBelow(View(), bound) && block < Slots() && ReservedOnly(View(), block)
      && ctrl.Length == slots.Length == |rank| == Slots()
      && (it == block || ctrl[block] == RESERVED)
    }

    /** One turn of the relocation loop, for a free slot that was found. */
    method MoveOne(block: nat, it: nat, parent: nat, f: nat, j: nat, ghost home: K -> nat, ghost bound: nat)
      returns (next: Option<nat>)
      requires Moving(home, bound, block, it, parent) && parent < Slots() && it < |rank|
      requires j == FirstFree(ctrl[..], Slots(), parent, 1) && j != 0 && f == Step(parent, j, Slots())
      modifies `rank, `pred, `pos, ctrl, slots
      ensures next == None ==> old(Relocate(View(), home, block, it, parent, bound)) == (View(), true)
      ensures next.Some? ==> Moving(home, bound, block, next.value, f) && f < Slots() && next.value < |rank|
                             && rank[next.value] == old(rank[it]) + 1 && rank[next.value] < bound
      ensures next.Some? ==> Relocate(View(), home, block, next.value, f, bound)
                             == old(Relocate(View(), home, block, it, parent, bound))
    {
      hide HeadOk, NextOk, PrevOk, Step, Stored, Chained, FirstFree, BytellChains.Contents, Move, JumpDistance,
        Homes, SameOrder;
      ghost var t := View();
      CutFacts(t, home, it, parent);
      Sizes(t);
      FirstFreeEmpty(t.ctrl, t.n, parent);
      OneMove(t, home, block, it, parent, j, bound);
      next := MoveEntry(block, it, parent, f, j);
    }

    /** The relocation loop: it does what Relocate says, and reports whether it got to the end. */
    method RelocateTail(block: nat, firstParent: nat, firstJump: nat, firstFree: nat) returns (finished: bool)
      requires Valid() && block < |pred| && firstParent == pred[block] && ReservedOnly(View(), block)
      requires firstParent < Slots() && block < Slots() && ctrl.Length == Slots()
      requires firstJump == FirstFree(ctrl[..], Slots(), firstParent, 1) && firstJump != 0
      requires firstFree == Step(firstParent, firstJump, Slots())
      requires Cut(View(), HomeOf(), block, firstParent) && RanksBelow(View(), RankBound(rank))
      modifies `rank, `pred, `pos, ctrl, slots
      ensures (View(), finished) == old(Relocated(block))
    {
      hide HeadOk, NextOk, PrevOk, Step, Stored, Chained, FirstFree, WithinLoad, BytellChains.Contents,
        JumpDistance, Cut, RanksBelow, ReservedOnly, Homes, RankBound, Relocate;
      ghost var home, bound := HomeOf(), RankBound(rank);
      Sizes(View());
      CutFacts(View(), home, block, firstParent);
      RankAt(View(), block, bound);
      var it: nat, parent: nat, j: nat, f: nat := block, firstParent, firstJump, firstFree;
      while true
        invariant Moving(home, bound, block, it, parent) && parent < Slots() && it < |rank| && rank[it] < bound
        invariant j == FirstFree(ctrl[..], Slots(), parent, 1) && j != 0 && f == Step(parent, j, Slots())
        invariant Relocate(View(), home, block, it, parent, bound) == old(Relocated(block))
        decreases bound - rank[it]
      {
        var next := MoveOne(block, it, parent, f, j, home, bound);
        if next == None {
          return true;
        }
        it, parent := next.value, f;
        j, f := FindFreeIndex(parent);
        if j == 0 {
          RelocateStuck(View(), home, block, it, parent, bound);
          return false;
        }
      }
    }

    /** The home slot does not head a chain: it is empty, or a foreign chain runs through it and has
        to give way. */
    method EmplaceDirectHit(block: nat, pair: (K, V)) returns (r: Outcome<(nat, bool)>)
      requires Valid() && pair.0 !in pos && block < Slots() && block == HomeOf()(pair.0)
      requires ctrl[block] == EMPTY || (IsFull(ctrl[block]) && !IsDirect(ctrl[block]))
      modifies this, ctrl, slots
      ensures (ctrl == old(ctrl) || fresh(ctrl)) && (slots == old(slots) || fresh(slots))
      ensures r.Done? ==> Valid() && r.value.1 && r.value.0 < Slots() && slots[r.value.0] == Some(pair)
      ensures r.Done? ==> Contents() == old(Contents())[pair.0 := pair.1] && numElements == old(numElements) + 1
      ensures old(StepFor(pair)).Some? ==> r.Done? && View() == old(StepFor(pair)).value && Slots() == old(Slots())
      ensures old(StepFor(pair)).None? && r.Done? ==> Slots() >= 2 * old(Slots())
      ensures Ended(r, old(Inserted(pair)))
      decreases Room(maxSlots, Slots()), 3
    {
      hide HeadOk, NextOk, PrevOk, Step, Stored, Chained, FirstFree, BytellChains.Contents, Relocate, Tail, Room,
        JumpDistance, GrowRequest, Insert, Regrown, Abandoned, Holds, Fitted, Sound, WithinLoad, ReservedOnly,
        InsertStep, PutDirect, PutTail, Cut, RanksBelow, RankBound, Homes;
      ghost var t := View();
      Sizes(t);
      ValidIsSound();
      InsertUnfolds(Rules(), t, pair);
      NothingAbandoned(Rules(), t, pair);
      if AtCapacity(Slots(), numElements) {
        r := GrowAndEmplace(pair);
        return;
      }
      if ctrl[block] != EMPTY {
        r := GiveWay(block, pair);
        return;
      }
      FitsAtHome(Rules(), t, pair, block);
      FittedIsSound(Rules(), t, pair);
      PutDirectAt(block, pair);
      SoundIsValid();
      r := Done((block, true));
    }

    /** The home slot holds part of a foreign chain: its tail moves elsewhere first. */
    method GiveWay(block: nat, pair: (K, V)) returns (r: Outcome<(nat, bool)>)
      requires Valid() && pair.0 !in pos && block < Slots() && block == HomeOf()(pair.0)
      requires IsFull(ctrl[block]) && !IsDirect(ctrl[block]) && !AtCapacity(Slots(), numElements)
      modifies this, ctrl, slots
      ensures (ctrl == old(ctrl) || fresh(ctrl)) && (slots == old(slots) || fresh(slots))
      ensures r.Done? ==> Valid() && r.value.1 && r.value.0 < Slots() && slots[r.value.0] == Some(pair)
      ensures r.Done? ==> Contents() == old(Contents())[pair.0 := pair.1] && numElements == old(numElements) + 1
      ensures old(StepFor(pair)).Some? ==> r.Done? && View() == old(StepFor(pair)).value && Slots() == old(Slots())
      ensures old(StepFor(pair)).None? && r.Done? ==> Slots() >= 2 * old(Slots())
      ensures Ended(r, old(Inserted(pair)))
      decreases Room(maxSlots, Slots()), 2
    {
      hide HeadOk, NextOk, PrevOk, Step, Stored, Chained, FirstFree, BytellChains.Contents, Relocate, Tail, Room,
        JumpDistance, GrowRequest, Insert, Regrown, Abandoned, Holds, Fitted, Sound, WithinLoad, ReservedOnly,
        InsertStep, PutDirect, PutTail, Cut, RanksBelow, RankBound, Homes;
      ghost var t := View();
      Sizes(t);
      ValidIsSound();
      InsertUnfolds(Rules(), t, pair);
      FitsByMoving(Rules(), t, pair, block);
      FittedIsSound(Rules(), t, pair);
      var room := MakeRoom(block);
      if !room {
        r := GrowAndEmplace(pair);
        return;
      }
      PutDirectAt(block, pair);
      SoundIsValid();
      r := Done((block, true));
    }

    /** Relocates the tail that starts in the home slot.  When it gets stuck half-way the links are
        broken, but every pair is still in exactly one slot in use. */
    method MakeRoom(block: nat) returns (room: bool)
      requires Valid() && block < Slots() && IsFull(ctrl[block]) && !IsDirect(ctrl[block])
      requires block < |pred| && Cut(View(), HomeOf(), block, pred[block]) && RanksBelow(View(), RankBound(rank))
      modifies `rank, `pred, `pos, ctrl, slots
      ensures (View(), room) == old(Relocated(block))
      ensures Storing() && Contents() == old(Contents()) && pos.Keys == old(pos.Keys)
    {
      hide HeadOk, NextOk, PrevOk, Step, Stored, Chained, FirstFree, BytellChains.Contents, Relocate, WithinLoad,
        Cut, InsertStep, RanksBelow, RankBound, JumpDistance;
      ghost var t, home, bound := View(), HomeOf(), RankBound(rank);
      Sizes(t);
      RelocateKeeps(t, home, block, block, pred[block], bound);
      RelocateStuck(t, home, block, block, pred[block], bound);
      var parent := FindParentBlock(block);
      var j, free := FindFreeIndex(parent);
      room := false;
      if j != 0 {
        room := RelocateTail(block, parent, j, free);
      }
      KeptSize(t, View());
    }

    /** Appends to the chain that ends at `parent`. */
    method EmplaceNewKey(parent: nat, pair: (K, V)) returns (r: Outcome<(nat, bool)>)
      requires Valid() && pair.0 !in pos && HomeOf()(pair.0) < Slots()
      requires IsFull(ctrl[HomeOf()(pair.0)]) && IsDirect(ctrl[HomeOf()(pair.0)])
      requires RanksBelow(View(), RankBound(rank)) && parent == Tail(View(), HomeOf(), HomeOf()(pair.0), RankBound(rank))
      modifies this, ctrl, slots
      ensures (ctrl == old(ctrl) || fresh(ctrl)) && (slots == old(slots) || fresh(slots))
      ensures r.Done? ==> Valid() && r.value.1 && r.value.0 < Slots() && slots[r.value.0] == Some(pair)
      ensures r.Done? ==> Contents() == old(Contents())[pair.0 := pair.1] && numElements == old(numElements) + 1
      ensures old(StepFor(pair)).Some? ==> r.Done? && View() == old(StepFor(pair)).value && Slots() == old(Slots())
      ensures old(StepFor(pair)).None? && r.Done? ==> Slots() >= 2 * old(Slots())
      ensures Ended(r, old(Inserted(pair)))
      decreases Room(maxSlots, Slots()), 2
    {
      hide HeadOk, NextOk, PrevOk, Step, Stored, Chained, FirstFree, BytellChains.Contents, Relocate, Tail, Room,
        JumpDistance, GrowRequest, Insert, Regrown, Abandoned, Holds, Fitted, Sound, WithinLoad, ReservedOnly,
        InsertStep, PutDirect, PutTail, Cut, RanksBelow, RankBound, Homes;
      ghost var t := View();
      Sizes(t);
      ValidIsSound();
      InsertUnfolds(Rules(), t, pair);
      NothingAbandoned(Rules(), t, pair);
      if AtCapacity(Slots(), numElements) {
        r := GrowAndEmplace(pair);
        return;
      }
      FitsAtEnd(Rules(), t, pair, parent);
      var j, index := FindFreeIndex(parent);
      if j == 0 {
        r := GrowAndEmplace(pair);
        return;
      }
      FittedIsSound(Rules(), t, pair);
      PutTailAt(parent, index, j, pair);
      SoundIsValid();
      r := Done((index, true));
    }

    /** `grow(); return emplace(...)`: the links may be broken, the pairs are all there. */
    method GrowAndEmplace(pair: (K, V)) returns (r: Outcome<(nat, bool)>)
      requires Storing() && WithinLoad(numElements, Slots()) && pair.0 !in pos
      modifies this, ctrl, slots
      ensures (ctrl == old(ctrl) || fresh(ctrl)) && (slots == old(slots) || fresh(slots))
      ensures r.Done? ==> Valid() && r.value.1 && r.value.0 < Slots() && slots[r.value.0] == Some(pair)
      ensures r.Done? ==> Contents() == old(Contents())[pair.0 := pair.1] && numElements == old(numElements) + 1
      ensures r.Done? ==> Slots() >= 2 * old(Slots())
      ensures Ended(r, old(GrownInserted(pair)))
      decreases Room(maxSlots, Slots()), 1
    {
      hide Stored, Chained, ReservedOnly, BytellChains.Contents, WithinLoad, InsertStep, JumpDistance, GrowRequest,
        Insert, Rehashed, Holds;
      ghost var t := View();
      var g := Grow();
      if g.Refused? {
        return Refused(g.size);
      }
      ContentsSize(t);
      ContentsSize(View());
      r := Emplace(pair);
    }

    method Grow() returns (g: Outcome<()>)
      requires Storing()
      modifies this, ctrl, slots
      ensures g.Done? ==> Valid() && fresh(ctrl) && fresh(slots) && Slots() >= 2 * old(Slots())
      ensures g.Done? ==> Slots() >= nextSize(GrowRequest(old(Slots()), old(numElements)))
      ensures g.Done? ==> Contents() == old(Contents()) && numElements == old(numElements)
      ensures g.Refused? ==> (ctrl == old(ctrl) || fresh(ctrl)) && (slots == old(slots) || fresh(slots))
      ensures Ended(g, old(Resized(nextSize(GrowRequest(Slots(), numElements)))))
      decreases Room(maxSlots, Slots()), 0
    {
      hide Chained, ReservedOnly, WithinLoad, BytellChains.Contents, Homes, Stored, Rehashed;
      var request := if 10 < 2 * BucketCount() then 2 * BucketCount() else 10;
      assert nextSize(Requested(request, numElements)) >= 2 * Slots();
      g := Rehash(request);
    }

    method Rehash(num: nat) returns (g: Outcome<()>)
      requires Storing()
      requires Valid() || (Requested(num, numElements) > 0 && nextSize(Requested(num, numElements)) != Slots())
      modifies this, ctrl, slots
      ensures (ctrl == old(ctrl) || fresh(ctrl)) && (slots == old(slots) || fresh(slots))
      ensures g.Done? ==> Valid() && Contents() == old(Contents()) && numElements == old(numElements)
      ensures g.Done? && Requested(num, old(numElements)) > 0 ==> Slots() >= nextSize(Requested(num, old(numElements)))
      ensures g.Done? && Requested(num, old(numElements)) == 0 ==> Slots() == 1
      ensures g.Done? && Requested(num, old(numElements)) > 0 && nextSize(Requested(num, old(numElements))) != old(Slots())
              ==> fresh(ctrl) && fresh(slots)
      ensures var request := Requested(num, old(numElements));
              if request == 0 then g.Done?
              else if nextSize(request) == old(Slots()) then g.Done? && View() == old(View())
              else Ended(g, old(Resized(nextSize(Requested(num, numElements)))))
      ensures var size := nextSize(Requested(num, old(numElements)));
              Requested(num, old(numElements)) > 0 && size <= maxSlots && Open(Homes(hash, size), old(pos.Keys), size)
              ==> g.Done? && Slots() == size
      decreases Room(maxSlots, nextSize(Requested(num, numElements))), 8
    {
      hide Stored, Chained, ReservedOnly, BytellChains.Contents, InsertStep, JumpDistance, Rebuild, Rehashed, Open,
        Sound, Fitted, Insert, Holds, Denied, Affordable, Homes, WithinLoad;
      ContentsSize(View());
      var requested := Requested(num, numElements);
      if requested == 0 {
        InstallEmpty(1);
        return Done(());
      }
      var numItems := nextSize(requested);
      if numItems == numSlotsMinusOne + 1 {
        return Done(());
      }
      if numItems > maxSlots {
        RefusedAtOnce(Rules(), View(), numItems);
        return Refused(numItems);
      }
      ghost var t := View();
      Sizes(t);
      RehashEnds(Rules(), t, numItems);
      RehashedUnfolds(Rules(), t, numItems);
      var oldCtrl, oldSlots, oldEnd := ctrl, slots, BucketCount();
      InstallEmpty(numItems);
      g := Refill(oldCtrl, oldSlots, oldEnd, t);
    }

    /** Fresh storage of n empty slots. */
    method InstallEmpty(n: nat)
      requires 1 <= n <= maxSlots && (forall x: nat :: nextSize(x) >= x)
      modifies this
      ensures Valid() && Contents() == map[] && numElements == 0 && Slots() == n && fresh(ctrl) && fresh(slots)
      ensures View() == Empty(n)
    {
      ctrl := new nat[n](_ => EMPTY);
      slots := new Option<(K, V)>[n](_ => None);
      numSlotsMinusOne, numElements := n - 1, 0;
      rank, pred, pos := seq(n, _ => 0), seq(n, _ => 0), map[];
      assert View() == Empty(n);
      EmptyIsSound<K, V>(Rules(), n);
    }

    /** Scans an old array by its control bytes alone and inserts every pair it still holds. */
    method Refill(oldCtrl: array<nat>, oldSlots: array<Option<(K, V)>>, oldEnd: nat, ghost t: Table<K, V>) returns (g: Outcome<()>)
      requires Valid() && Contents() == map[]
      requires Stored(t) && oldCtrl[..] == t.ctrl && oldSlots[..] == t.slot
      requires oldEnd == (if t.n == 1 then 0 else t.n) && (t.n == 1 ==> t.pos == map[])
      requires oldCtrl != ctrl && oldSlots != slots
      modifies this, ctrl, slots
      ensures (ctrl == old(ctrl) || fresh(ctrl)) && (slots == old(slots) || fresh(slots))
      ensures g.Done? ==> Valid() && Contents() == BytellChains.Contents(t) && numElements == |t.pos|
      ensures g.Done? ==> Slots() >= old(Slots())
      ensures Ended(g, old(Rebuild(Rules(), t, 0, View())))
      decreases Room(maxSlots, Slots()), 7
    {
      hide Chained, ReservedOnly, BytellChains.Contents, Scanned, WithinLoad, InsertStep, RankBound, Stored,
        Homes, Rebuild, Sound, Holds, Valid, Refilling, Room;
      RefillStarts(t);
      ghost var before, spec := Slots(), Rebuild(Rules(), t, 0, View());
      for i := 0 to oldEnd
        invariant (ctrl == old(ctrl) || fresh(ctrl)) && (slots == old(slots) || fresh(slots))
        invariant oldCtrl[..] == t.ctrl && oldSlots[..] == t.slot
        invariant Refilling(t, i, spec) && Slots() >= before
      {
        LessRoom(maxSlots, before, Slots());
        var r := RefillFrom(oldCtrl, oldSlots, i, t, spec);
        if r.Refused? {
          return r;
        }
      }
      RefillOver(t, oldEnd, spec);
      g := Done(());
    }

    /** The scan has come to slot i, with `spec` to be the end of it all. */
    ghost predicate Refilling(t: Table<K, V>, i: nat, spec: Outcome<Table<K, V>>)
      reads this, ctrl, slots
    {
      && Valid() && Sound(Rules(), View()) && Stored(t) && i <= t.n && Contents() == Scanned(t, i)
      && Rebuild(Rules(), t, i, View()) == spec
    }

    lemma RefillStarts(t: Table<K, V>)
      requires Valid() && Contents() == map[] && Stored(t)
      ensures t.n >= 1 && Rules().Rising() && Sound(Rules(), View()) && Storing() && Contents() == Scanned(t, 0)
      ensures Refilling(t, 0, Rebuild(Rules(), t, 0, View()))
    {
      hide Chained, ReservedOnly, WithinLoad, Rebuild, BytellChains.Contents, Scanned, Homes;
      ScanStarts(t);
    }

    lemma RefillOver(t: Table<K, V>, i: nat, spec: Outcome<Table<K, V>>)
      requires Refilling(t, i, spec)
      requires i == (if t.n == 1 then 0 else t.n) && (t.n == 1 ==> t.pos == map[])
      ensures spec == Done(View()) && Valid() && Contents() == BytellChains.Contents(t) && numElements == |t.pos|
    {
      hide Chained, ReservedOnly, WithinLoad, Rebuild, BytellChains.Contents, Scanned, Homes, Stored, Sound;
      ScanOver(Rules(), t, i, View());
    }

    /** One slot of the old array. */
    method RefillFrom(oldCtrl: array<nat>, oldSlots: array<Option<(K, V)>>, i: nat, ghost t: Table<K, V>,
                      ghost spec: Outcome<Table<K, V>>) returns (r: Outcome<()>)
      requires Refilling(t, i, spec) && i < t.n
      requires oldCtrl[..] == t.ctrl && oldSlots[..] == t.slot && oldCtrl != ctrl && oldSlots != slots
      modifies this, ctrl, slots
      ensures (ctrl == old(ctrl) || fresh(ctrl)) && (slots == old(slots) || fresh(slots))
      ensures if r.Done? then Refilling(t, i + 1, spec) && Slots() >= old(Slots()) else spec == Refused(r.size)
      decreases Room(maxSlots, Slots()), 6
    {
      hide Chained, ReservedOnly, BytellChains.Contents, Scanned, WithinLoad, Stored, Homes, Denied, Open, Fitted,
        Holds, Affordable, GrowRequest, Insert, Rebuild, AtCapacity;
      ScanStarts(t);
      RebuildUnfolds(Rules(), t, i, View());
      ContentsSize(View());
      var metadata := oldCtrl[i];
      if metadata != EMPTY && metadata != RESERVED {
        var e := Emplace(oldSlots[i].value);
        if e.Refused? {
          return Refused(e.size);
        }
        ValidIsSound();
      }
      r := Done(());
    }

    /** Inserts unless the key is present. */
    method Emplace(pair: (K, V)) returns (r: Outcome<(nat, bool)>)
      requires Valid()
      modifies this, ctrl, slots
      ensures (ctrl == old(ctrl) || fresh(ctrl)) && (slots == old(slots) || fresh(slots))
      ensures r.Done? ==> Valid() && r.value.1 == (pair.0 !in old(Contents())) && Slots() >= old(Slots())
      ensures r.Done? ==> Contents() == if r.value.1 then old(Contents())[pair.0 := pair.1] else old(Contents())
      ensures r.Done? ==> pair.0 in Contents() && r.value.0 < Slots() && slots[r.value.0] == Some((pair.0, Contents()[pair.0]))
      ensures r.Done? ==> numElements == old(numElements) + if r.value.1 then 1 else 0
      ensures old(pair.0 in Contents()) ==> r.Done? && View() == old(View())
      ensures old(pair.0 !in Contents() && StepFor(pair).Some?) ==>
                r.Done? && View() == old(StepFor(pair)).value && Slots() == old(Slots())
      ensures old(pair.0 !in Contents() && StepFor(pair).None?) && r.Done? ==> Slots() >= 2 * old(Slots())
      ensures old(pair.0 !in pos) ==> Ended(r, old(Inserted(pair)))
      ensures old(pair.0 !in pos && StepFor(pair).None?) ==>
                var first := nextSize(GrowRequest(old(Slots()), old(numElements)));
                && first >= 1
                && (first > maxSlots ==> r == Refused(first)) && (r.Done? ==> Slots() >= first)
                && (first <= maxSlots && Open(Homes(hash, first), old(pos.Keys) + {pair.0}, first)
                    ==> r.Done? && Slots() == first)
                && (first <= maxSlots && old(numElements) <= 14 ==> r.Done?)
      ensures Affordable(Rules(), old(numElements) + 1) ==> r.Done?
      ensures r.Refused? ==> r.size > maxSlots && Denied(Rules(), old(pos.Keys) + {pair.0}, old(Slots()), r.size)
      decreases Room(maxSlots, Slots()), 5
    {
      hide HeadOk, NextOk, PrevOk, Step, Stored, Chained, FirstFree, BytellChains.Contents, Relocate, Tail, Room,
        InsertStep, WithinLoad, JumpDistance, GrowRequest, Homes, RanksBelow, RankBound, Affordable, Denied, Open,
        Insert, Sound, Holds, Fitted;
      ContentsSize(View());
      Sizes(View());
      assert pair == (pair.0, pair.1);
      HomesBelow(hash, Slots(), pair.0);
      var w := WalkChain(pair.0);
      if w.Found? {
        FoundValue(View(), pair.0);
        return Done((w.index, false));
      }
      r := EmplaceAbsent(w, pair);
    }

    /** For a walk that did not find the key. */
    method EmplaceAbsent(w: Walk, pair: (K, V)) returns (r: Outcome<(nat, bool)>)
      requires Valid() && pair.0 !in pos && !w.Found? && w.index < Slots()
      requires w.NoHead? ==> w.index == HomeOf()(pair.0) && (ctrl[w.index] == EMPTY || (IsFull(ctrl[w.index]) && !IsDirect(ctrl[w.index])))
      requires w.EndOfChain? ==>
                 && HomeOf()(pair.0) < Slots() && IsFull(ctrl[HomeOf()(pair.0)]) && IsDirect(ctrl[HomeOf()(pair.0)])
                 && RanksBelow(View(), RankBound(rank)) && w.index == Tail(View(), HomeOf(), HomeOf()(pair.0), RankBound(rank))
      modifies this, ctrl, slots
      ensures (ctrl == old(ctrl) || fresh(ctrl)) && (slots == old(slots) || fresh(slots))
      ensures r.Done? ==> Valid() && r.value.1 && Slots() >= old(Slots())
      ensures r.Done? ==> Contents() == old(Contents())[pair.0 := pair.1] && numElements == old(numElements) + 1
      ensures r.Done? ==> r.value.0 < Slots() && slots[r.value.0] == Some(pair)
      ensures Ended(r, old(Inserted(pair)))
      ensures old(StepFor(pair)).Some? ==> r.Done? && View() == old(StepFor(pair)).value && Slots() == old(Slots())
      ensures old(StepFor(pair)).None? && r.Done? ==> Slots() >= 2 * old(Slots())
      ensures old(StepFor(pair)).None? ==>
                var first := nextSize(GrowRequest(old(Slots()), old(numElements)));
                && first >= 1
                && (first > maxSlots ==> r == Refused(first)) && (r.Done? ==> Slots() >= first)
                && (first <= maxSlots && Open(Homes(hash, first), old(pos.Keys) + {pair.0}, first)
                    ==> r.Done? && Slots() == first)
                && (first <= maxSlots && old(numElements) <= 14 ==> r.Done?)
      ensures Affordable(Rules(), old(numElements) + 1) ==> r.Done?
      ensures r.Refused? ==> r.size > maxSlots && Denied(Rules(), old(pos.Keys) + {pair.0}, old(Slots()), r.size)
      decreases Room(maxSlots, Slots()), 4
    {
      hide HeadOk, NextOk, PrevOk, Step, Stored, Chained, FirstFree, BytellChains.Contents, Relocate, Tail, Room,
        InsertStep, WithinLoad, JumpDistance, GrowRequest, Homes, RanksBelow, RankBound, Affordable, Denied, Open,
        Insert, Sound, Holds, Fitted;
      Sizes(View());
      ValidIsSound();
      InsertEnds(Rules(), View(), pair);
      if w.NoHead? {
        r := EmplaceDirectHit(w.index, pair);
      } else {
        r := EmplaceNewKey(w.index, pair);
      }
    }

    /** Keys no table can hold are never all stored, whatever the hash policy and the allocator. */
    lemma NeverStored(k0: K, k1: K, blocker: nat -> K)
      requires Valid()
      ensures !Unfit(hash, Contents().Keys, k0, k1, blocker)
    {
      hide HeadOk, NextOk, PrevOk, Unfit;
      NoTableHolds(View(), hash, k0, k1, blocker);
      assert Contents().Keys == pos.Keys;
    }

    /** So inserting the last of them ends in a refusal, whatever the policy and the limit. */
    method EmplaceUnfit(pair: (K, V), ghost k0: K, ghost blocker: nat -> K) returns (r: Outcome<(nat, bool)>)
      requires Valid() && pair.0 !in Contents()
      requires Unfit(hash, Contents().Keys + {pair.0}, k0, pair.0, blocker)
      modifies this, ctrl, slots
      ensures r.Refused? && r.size > maxSlots && Denied(Rules(), old(pos.Keys) + {pair.0}, old(Slots()), r.size)
    {
      hide Unfit, Valid, Stored, BytellChains.Contents, GrowRequest, Denied, Insert, Fitted;
      ValidStores();
      ghost var keys := Contents().Keys;
      r := Emplace(pair);
      if r.Done? {
        ValidStores();
        assert Contents().Keys == keys + {pair.0};
        NeverStored(k0, pair.0, blocker);
      }
    }

    lemma ValidStores()
      requires Valid()
      ensures Storing()
    {
    }

    // ----- Erasing -----

    /** The writes that let the last pair of a chain fill the gap at `current`. */
    method DropAt(current: nat, last: nat, previous: nat)
      requires Storing() && View().Full(current) && View().Full(last) && current != last && last != previous
      requires !IsDirect(ctrl[last]) && previous == pred[last] && previous < Slots() && numElements > 0
      modifies `numElements, `pos, ctrl, slots
      ensures View() == Drop(old(View()), current, last) && numElements == old(numElements) - 1
    {
      ghost var c0, s0, key := ctrl[..], slots[..], slots[current].value.0;
      slots[current] := slots[last];
      slots[last] := None;
      ctrl[last] := EMPTY;
      ctrl[previous] := WithJump(ctrl[previous], 0);
      pos := pos[slots[current].value.0 := current] - {key};
      numElements := numElements - 1;
      assert slots[..] == s0[current := s0[last]][last := None];
      assert ctrl[..] == c0[previous := WithJump(c0[previous], 0)][last := EMPTY];
    }

    /** The writes that remove the last pair of a chain. */
    method DropLast(current: nat, parent: nat)
      requires Storing() && View().Full(current) && numElements > 0
      requires !IsDirect(ctrl[current]) ==> parent == pred[current] && parent < Slots() && parent != current
      modifies `numElements, `pos, ctrl, slots
      ensures View() == Drop(old(View()), current, current) && numElements == old(numElements) - 1
    {
      ghost var s0, key := slots[..], slots[current].value.0;
      if !IsDirect(ctrl[current]) {
        ctrl[parent] := WithJump(ctrl[parent], 0);
      }
      slots[current] := None;
      ctrl[current] := EMPTY;
      assert slots[..] == s0[current := s0[current]][current := None];
      assert pos[key := current] == pos;
      pos := pos - {key};
      numElements := numElements - 1;
    }

    /** Walks to the end of the chain, keeping the slot before. */
    method WalkToLast(current: nat) returns (previous: nat, last: nat)
      requires Valid() && View().Full(current) && View().HasNext(current)
      ensures View().Full(last) && !View().HasNext(last) && !IsDirect(ctrl[last])
      ensures HomeOf()(KeyAt(View(), last)) == HomeOf()(KeyAt(View(), current))
      ensures previous == pred[last] && previous < Slots() && last != current && last != previous
    {
      hide HeadOk, PrevOk, Step, BytellChains.Contents, InsertStep, WithinLoad, ReservedOnly, JumpDistance;
      ghost var t, home, bound := View(), HomeOf(), RankBound(rank);
      Bounded(t);
      assert NextOk(t, home, current);
      previous := current;
      StepIs(current, Jump(ctrl[current]), Slots());
      last := KeepInRange(current + JumpDistance(Jump(ctrl[current])), numSlotsMinusOne + 1);
      while Jump(ctrl[last]) != 0
        invariant t.Full(last) && !IsDirect(t.ctrl[last]) && home(KeyAt(t, last)) == home(KeyAt(t, current))
        invariant t.pred[last] == previous && t.Full(previous) && t.rank[last] == t.rank[previous] + 1 > t.rank[current]
        decreases bound - t.rank[last]
      {
        assert NextOk(t, home, last);
        previous := last;
        StepIs(previous, Jump(ctrl[previous]), Slots());
        last := KeepInRange(previous + JumpDistance(Jump(ctrl[previous])), numSlotsMinusOne + 1);
      }
    }

    /** Removes a pair with others after it: the last pair of its chain fills the gap. */
    method EraseInside(current: nat)
      requires Valid() && View().Full(current) && View().HasNext(current)
      modifies `numElements, `pos, ctrl, slots
      ensures Valid() && numElements == old(numElements) - 1
      ensures Contents() == old(Contents()) - {old(KeyAt(View(), current))}
    {
      hide HeadOk, NextOk, PrevOk, Step, Stored, BytellChains.Contents, InsertStep, WithinLoad, Drop, ReservedOnly,
        JumpDistance, Homes, RanksBelow, RankBound, Jump, IsFull, Chained, Sound;
      ghost var t := View();
      Sizes(t);
      ValidIsSound();
      MetAt(t, current);
      var previous, last := WalkToLast(current);
      MetAt(t, last);
      DropIsSound(Rules(), t, current, last);
      DropAt(current, last, previous);
      SoundIsValid();
    }

    /** Removes the last pair of a chain and clears the link to it. */
    method EraseEnd(current: nat)
      requires Valid() && View().Full(current) && !View().HasNext(current)
      modifies `numElements, `pos, ctrl, slots
      ensures Valid() && numElements == old(numElements) - 1
      ensures Contents() == old(Contents()) - {old(KeyAt(View(), current))}
    {
      hide HeadOk, NextOk, PrevOk, Step, Stored, BytellChains.Contents, InsertStep, WithinLoad, Drop, ReservedOnly,
        JumpDistance, Homes, RanksBelow, RankBound, Jump, IsFull, Chained, Next, Sound;
      ghost var t, home := View(), HomeOf();
      Sizes(t);
      ValidIsSound();
      MetAt(t, current);
      var parent := current;
      if !IsDirect(ctrl[current]) {
        parent := FindParentBlock(current);
        NotOwnParent(t, home, current);
      }
      DropIsSound(Rules(), t, current, current);
      DropLast(current, parent);
      SoundIsValid();
    }

    /** Removes the pair at `current`, by one or the other. */
    method EraseAt(current: nat)
      requires Valid() && View().Full(current)
      modifies `numElements, `pos, ctrl, slots
      ensures Valid() && numElements == old(numElements) - 1
      ensures Contents() == old(Contents()) - {old(KeyAt(View(), current))}
    {
      hide Chained, ReservedOnly, WithinLoad, BytellChains.Contents, Homes, InsertStep, Stored;
      Sizes(View());
      if Jump(ctrl[current]) != 0 {
        EraseInside(current);
      } else {
        EraseEnd(current);
      }
    }

    /** Removing an absent key changes nothing. */
    lemma AbsentKey(m: map<K, V>, key: K)
      requires key !in m
      ensures m - {key} == m
    {
    }

    method Erase(key: K) returns (removed: nat)
      requires Valid()
      modifies `numElements, `pos, ctrl, slots
      ensures Valid() && Contents() == old(Contents()) - {key}
      ensures removed == if key in old(Contents()) then 1 else 0
      ensures numElements == old(numElements) - removed
    {
      hide Chained, ReservedOnly, WithinLoad, BytellChains.Contents, Homes, InsertStep, Stored, Tail, RanksBelow,
        RankBound;
      ContentsSize(View());
      var w := WalkChain(key);
      if !w.Found? {
        AbsentKey(Contents(), key);
        return 0;
      }
      StoredAt(View(), key);
      EraseAt(w.index);
      removed := 1;
    }
  }
}
