/** The chain invariant of the bytell table, and what each rearrangement of chains does to it. */
module BytellChains {
  import opened Wrappers
  import opened BytellTable

  /** `ctrl` and `slot` are the table.  The rest is specification only: `rank` is a pair's place in
      its chain, `pred` the slot before it in the chain, `pos` where each key is stored. */
  datatype Table<K, V> = Table(n: nat, ctrl: seq<nat>, slot: seq<Option<(K, V)>>,
                               rank: seq<nat>, pred: seq<nat>, pos: map<K, nat>)
  {
    ghost predicate Full(i: int) { 0 <= i < |ctrl| && IsFull(ctrl[i]) }
    ghost predicate HasNext(i: int) { 0 <= i < |ctrl| && Jump(ctrl[i]) != 0 }
  }

  /** What `rehash` needs, links or no links: each pair in one slot in use, no key twice. */
  ghost predicate Stored<K, V>(t: Table<K, V>) {
    && t.n >= 1 && |t.ctrl| == |t.slot| == |t.rank| == |t.pred| == t.n
    && (forall i :: 0 <= i < t.n ==> t.ctrl[i] <= 255 && (IsFull(t.ctrl[i]) <==> t.slot[i].Some?))
    && (forall i :: 0 <= i < t.n && t.slot[i].Some? ==> t.slot[i].value.0 in t.pos && t.pos[t.slot[i].value.0] == i)
    && (forall k :: k in t.pos ==> t.pos[k] < t.n && t.slot[t.pos[k]].Some? && t.slot[t.pos[k]].value.0 == k)
  }

  function KeyAt<K, V>(t: Table<K, V>, i: int): K
    requires 0 <= i < |t.slot| && t.slot[i].Some?
  {
    t.slot[i].value.0
  }

  /** The slot the link of i leads to. */
  ghost function Next<K, V>(t: Table<K, V>, i: int): (s: nat)
    requires t.n >= 1 && |t.ctrl| == t.n && t.Full(i) && Jump(t.ctrl[i]) < NUM_JUMPS
    ensures s < t.n
  {
    Step(i, Jump(t.ctrl[i]), t.n)
  }

  /** A pair heads its chain exactly when it is in its home slot. */
  ghost predicate HeadOk<K, V>(t: Table<K, V>, home: K -> nat, i: int)
    requires Stored(t) && t.Full(i)
  {
    && (IsDirect(t.ctrl[i]) <==> home(KeyAt(t, i)) == i)
    && (IsDirect(t.ctrl[i]) <==> t.rank[i] == 0)
    && home(KeyAt(t, i)) < t.n
  }

  /** A link leads to the next pair of the same chain. */
  ghost predicate NextOk<K, V>(t: Table<K, V>, home: K -> nat, i: int)
    requires Stored(t) && t.Full(i)
  {
    && Jump(t.ctrl[i]) < NUM_JUMPS
    && (t.HasNext(i) ==>
         var j := Next(t, i);
         && t.Full(j) && !IsDirect(t.ctrl[j]) && home(KeyAt(t, j)) == home(KeyAt(t, i))
         && t.pred[j] == i && t.rank[j] == t.rank[i] + 1)
  }

  /** Every pair but a head is linked from its predecessor. */
  ghost predicate PrevOk<K, V>(t: Table<K, V>, i: int)
    requires Stored(t) && t.Full(i)
  {
    !IsDirect(t.ctrl[i]) ==>
      var p := t.pred[i];
      t.Full(p) && t.HasNext(p) && Jump(t.ctrl[p]) < NUM_JUMPS && Next(t, p) == i
  }

  ghost predicate Chained<K, V>(t: Table<K, V>, home: K -> nat) {
    && Stored(t)
    && (forall i :: t.Full(i) ==> HeadOk(t, home, i) && NextOk(t, home, i) && PrevOk(t, i))
  }

  /** Chained, except that the chain of `it` may be cut just before it: `parent` is the last pair
      that is linked from the head, `it` the first of the tail still to be moved. */
  ghost predicate Cut<K, V>(t: Table<K, V>, home: K -> nat, it: nat, parent: nat) {
    && Stored(t)
    && (forall i :: t.Full(i) ==> HeadOk(t, home, i) && NextOk(t, home, i) && (i != it ==> PrevOk(t, i)))
    && t.Full(it) && !IsDirect(t.ctrl[it]) && t.Full(parent) && t.pred[it] == parent
    && home(KeyAt(t, it)) == home(KeyAt(t, parent)) && t.rank[it] == t.rank[parent] + 1
    && (t.HasNext(parent) ==> Next(t, parent) == it)
  }

  ghost predicate RanksBelow<K, V>(t: Table<K, V>, bound: nat) {
    |t.rank| == |t.ctrl| && forall i :: t.Full(i) ==> t.rank[i] < bound
  }

  lemma RankAt<K, V>(t: Table<K, V>, i: nat, bound: nat)
    requires RanksBelow(t, bound) && t.Full(i)
    ensures t.rank[i] < bound
  {
  }

  /** Only `block` may carry the mark that keeps a slot from being reused. */
  ghost predicate ReservedOnly<K, V>(t: Table<K, V>, block: int) {
    forall i :: 0 <= i < |t.ctrl| && i != block ==> t.ctrl[i] != RESERVED
  }

  ghost function Contents<K, V>(t: Table<K, V>): map<K, V>
    requires Stored(t)
  {
    map k | k in t.pos :: t.slot[t.pos[k]].value.1
  }

  // ----- Consequences of the invariant -----

  lemma Sizes<K, V>(t: Table<K, V>)
    requires Stored(t)
    ensures t.n >= 1 && |t.ctrl| == |t.slot| == |t.rank| == |t.pred| == t.n
  {
  }

  lemma FullSlots<K, V>(t: Table<K, V>)
    requires Stored(t)
    ensures forall i :: 0 <= i < t.n ==> (t.Full(i) <==> t.slot[i].Some?)
  {
  }

  lemma CutFacts<K, V>(t: Table<K, V>, home: K -> nat, it: nat, parent: nat)
    requires Cut(t, home, it, parent)
    ensures Stored(t) && t.Full(it) && t.Full(parent) && it != parent
    ensures Jump(t.ctrl[it]) < NUM_JUMPS && (t.HasNext(it) ==> Next(t, it) != it && NextOk(t, home, it))
  {
    assert NextOk(t, home, it);
  }

  /** A chained table is the special case of a cut one whose link is still there. */
  lemma CutAnywhere<K, V>(t: Table<K, V>, home: K -> nat, it: nat)
    requires Chained(t, home) && t.Full(it) && !IsDirect(t.ctrl[it])
    ensures Cut(t, home, it, t.pred[it])
  {
    assert PrevOk(t, it) && NextOk(t, home, t.pred[it]);
  }

  /** The home slot of every stored key heads that key's chain. */
  lemma {:induction false} HeadPresent<K, V>(t: Table<K, V>, home: K -> nat, it: nat, parent: nat, i: nat)
    requires Cut(t, home, it, parent) && t.Full(i)
    ensures var h := home(KeyAt(t, i)); t.Full(h) && IsDirect(t.ctrl[h]) && home(KeyAt(t, h)) == h
    decreases t.rank[i]
  {
    assert HeadOk(t, home, i);
    if !IsDirect(t.ctrl[i]) {
      var p := t.pred[i];
      if i != it {
        assert PrevOk(t, i) && NextOk(t, home, p);
      }
      HeadPresent(t, home, it, parent, p);
    }
  }

  lemma {:induction false} HeadOfChain<K, V>(t: Table<K, V>, home: K -> nat, i: nat)
    requires Chained(t, home) && t.Full(i)
    ensures var h := home(KeyAt(t, i)); t.Full(h) && IsDirect(t.ctrl[h]) && home(KeyAt(t, h)) == h
    decreases t.rank[i]
  {
    assert HeadOk(t, home, i);
    if !IsDirect(t.ctrl[i]) {
      assert PrevOk(t, i) && NextOk(t, home, t.pred[i]);
      HeadOfChain(t, home, t.pred[i]);
    }
  }

  /** Two pairs of one chain at the same place are the same pair. */
  lemma {:induction false} SameRankSameSlot<K, V>(t: Table<K, V>, home: K -> nat, i: nat, j: nat)
    requires Chained(t, home) && t.Full(i) && t.Full(j)
    requires home(KeyAt(t, i)) == home(KeyAt(t, j)) && t.rank[i] == t.rank[j]
    ensures i == j
    decreases t.rank[i]
  {
    assert HeadOk(t, home, i) && HeadOk(t, home, j);
    if t.rank[i] > 0 {
      assert PrevOk(t, i) && NextOk(t, home, t.pred[i]);
      assert PrevOk(t, j) && NextOk(t, home, t.pred[j]);
      SameRankSameSlot(t, home, t.pred[i], t.pred[j]);
    }
  }

  /** A pair that is not the furthest of its chain has a link. */
  lemma {:induction false} EarlierHasNext<K, V>(t: Table<K, V>, home: K -> nat, i: nat, j: nat)
    requires Chained(t, home) && t.Full(i) && t.Full(j)
    requires home(KeyAt(t, i)) == home(KeyAt(t, j)) && t.rank[i] < t.rank[j]
    ensures t.HasNext(i)
    decreases t.rank[j]
  {
    assert HeadOk(t, home, j) && PrevOk(t, j);
    var p := t.pred[j];
    assert NextOk(t, home, p);
    if t.rank[p] == t.rank[i] {
      SameRankSameSlot(t, home, i, p);
    } else {
      EarlierHasNext(t, home, i, p);
    }
  }

  lemma NotReserved<K, V>(t: Table<K, V>, i: nat)
    requires Stored(t) && ReservedOnly(t, -1) && i < t.n
    ensures t.ctrl[i] == EMPTY || t.Full(i)
  {
  }

  lemma HeadIsHome<K, V>(t: Table<K, V>, home: K -> nat, i: nat)
    requires Chained(t, home) && i < t.n && IsDirect(t.ctrl[i])
    ensures t.Full(i) && home(KeyAt(t, i)) == i && t.rank[i] == 0
  {
    assert t.Full(i) && HeadOk(t, home, i);
  }

  lemma StoredAt<K, V>(t: Table<K, V>, k: K)
    requires Stored(t) && k in t.pos
    ensures t.Full(t.pos[k]) && KeyAt(t, t.pos[k]) == k
  {
  }

  lemma FoundValue<K, V>(t: Table<K, V>, k: K)
    requires Stored(t) && k in t.pos
    ensures k in Contents(t) && t.slot[t.pos[k]] == Some((k, Contents(t)[k]))
  {
  }

  lemma MetAt<K, V>(t: Table<K, V>, i: nat)
    requires Stored(t) && t.Full(i)
    ensures t.slot[i].Some? && KeyAt(t, i) in t.pos && t.pos[KeyAt(t, i)] == i && t.ctrl[i] <= 255
  {
  }

  // ----- Moving one entry of a cut chain -----

  /** `it` moves to the free slot f that jump code j reaches from `parent`; `it` is left as `after`. */
  ghost function Move<K, V>(t: Table<K, V>, it: nat, parent: nat, f: nat, j: nat, after: nat): Table<K, V>
    requires Stored(t) && t.Full(it) && t.Full(parent) && f < t.n && Jump(t.ctrl[it]) < NUM_JUMPS
  {
    t.(ctrl := t.ctrl[parent := WithJump(t.ctrl[parent], j)][f := LIST_ENTRY][it := after],
       slot := t.slot[f := t.slot[it]][it := None],
       rank := t.rank[f := t.rank[it]],
       pred := (if t.HasNext(it) then t.pred[Next(t, it) := f] else t.pred)[f := parent],
       pos := t.pos[t.slot[it].value.0 := f])
  }

  lemma MoveStored<K, V>(t: Table<K, V>, it: nat, parent: nat, f: nat, j: nat, after: nat)
    requires Stored(t) && t.Full(it) && t.Full(parent) && f < t.n && Jump(t.ctrl[it]) < NUM_JUMPS
    requires t.ctrl[f] == EMPTY && it != parent && j < NUM_JUMPS && (after == EMPTY || after == RESERVED)
    ensures Stored(Move(t, it, parent, f, j, after))
    ensures Move(t, it, parent, f, j, after).pos.Keys == t.pos.Keys
  {
    CodesDoNotCollide(t.ctrl[parent], j);
  }

  lemma MoveContents<K, V>(t: Table<K, V>, it: nat, parent: nat, f: nat, j: nat, after: nat)
    requires Stored(t) && t.Full(it) && t.Full(parent) && f < t.n && Jump(t.ctrl[it]) < NUM_JUMPS
    requires t.ctrl[f] == EMPTY && Stored(Move(t, it, parent, f, j, after))
    ensures Contents(Move(t, it, parent, f, j, after)) == Contents(t)
  {
  }

  lemma MoveAtParent<K, V>(t: Table<K, V>, home: K -> nat, it: nat, parent: nat, f: nat, j: nat, after: nat)
    requires Cut(t, home, it, parent)
    requires f < t.n && t.ctrl[f] == EMPTY && 0 < j < NUM_JUMPS && f == Step(parent, j, t.n)
    requires after == EMPTY || after == RESERVED
    requires Stored(Move(t, it, parent, f, j, after))
    ensures var u := Move(t, it, parent, f, j, after);
            u.Full(parent) && HeadOk(u, home, parent) && NextOk(u, home, parent) && PrevOk(u, parent)
  {
    hide Step;
    CodesDoNotCollide(t.ctrl[parent], j);
    assert HeadOk(t, home, parent) && PrevOk(t, parent);
  }

  /** What a move leaves of the links at every entry but the one that moved. */
  lemma MoveElsewhere<K, V>(t: Table<K, V>, home: K -> nat, it: nat, parent: nat, f: nat, j: nat, after: nat, i: nat)
    requires Cut(t, home, it, parent)
    requires f < t.n && t.ctrl[f] == EMPTY && 0 < j < NUM_JUMPS && f == Step(parent, j, t.n)
    requires after == EMPTY || after == RESERVED
    requires Stored(Move(t, it, parent, f, j, after)) && Move(t, it, parent, f, j, after).Full(i) && i != f
    ensures var u := Move(t, it, parent, f, j, after);
            HeadOk(u, home, i) && NextOk(u, home, i) && (!t.HasNext(it) || i != Next(t, it) ==> PrevOk(u, i))
  {
    hide Step;
    if i == parent {
      MoveAtParent(t, home, it, parent, f, j, after);
    } else {
      CodesDoNotCollide(t.ctrl[parent], j);
      assert t.Full(i) && i != it;
      assert HeadOk(t, home, i) && NextOk(t, home, i) && PrevOk(t, i) && NextOk(t, home, it);
    }
  }

  lemma MovedEntry<K, V>(t: Table<K, V>, home: K -> nat, it: nat, parent: nat, f: nat, j: nat, after: nat)
    requires Cut(t, home, it, parent)
    requires f < t.n && t.ctrl[f] == EMPTY && 0 < j < NUM_JUMPS && f == Step(parent, j, t.n)
    requires after == EMPTY || after == RESERVED
    requires Stored(Move(t, it, parent, f, j, after))
    ensures var u := Move(t, it, parent, f, j, after);
            u.Full(f) && !u.HasNext(f) && HeadOk(u, home, f) && NextOk(u, home, f) && PrevOk(u, f)
  {
    hide Step;
    CodesDoNotCollide(t.ctrl[parent], j);
    HeadPresent(t, home, it, parent, it);
    assert HeadOk(t, home, it) && NextOk(t, home, it);
  }

  /** If the moved entry had a link, the cut moves one entry on. */
  lemma MoveStep<K, V>(t: Table<K, V>, home: K -> nat, it: nat, parent: nat, f: nat, j: nat, after: nat)
    requires Cut(t, home, it, parent) && t.HasNext(it)
    requires f < t.n && t.ctrl[f] == EMPTY && 0 < j < NUM_JUMPS && f == Step(parent, j, t.n)
    requires after == EMPTY || after == RESERVED
    ensures NextOk(t, home, it)
    ensures Cut(Move(t, it, parent, f, j, after), home, Next(t, it), f)
  {
    hide Step, HeadOk, PrevOk;
    var u := Move(t, it, parent, f, j, after);
    assert NextOk(t, home, it);
    MoveStored(t, it, parent, f, j, after);
    MovedEntry(t, home, it, parent, f, j, after);
    forall i | u.Full(i)
      ensures HeadOk(u, home, i) && NextOk(u, home, i) && (i != Next(t, it) ==> PrevOk(u, i))
    {
      if i != f {
        MoveElsewhere(t, home, it, parent, f, j, after, i);
      }
    }
  }

  /** If it had none, the whole table is chained again. */
  lemma MoveLast<K, V>(t: Table<K, V>, home: K -> nat, it: nat, parent: nat, f: nat, j: nat, after: nat)
    requires Cut(t, home, it, parent) && !t.HasNext(it)
    requires f < t.n && t.ctrl[f] == EMPTY && 0 < j < NUM_JUMPS && f == Step(parent, j, t.n)
    requires after == EMPTY || after == RESERVED
    ensures Chained(Move(t, it, parent, f, j, after), home)
  {
    hide Step, HeadOk, PrevOk, NextOk, Next;
    var u := Move(t, it, parent, f, j, after);
    MoveStored(t, it, parent, f, j, after);
    MovedEntry(t, home, it, parent, f, j, after);
    forall i | u.Full(i)
      ensures HeadOk(u, home, i) && NextOk(u, home, i) && PrevOk(u, i)
    {
      if i != f {
        MoveElsewhere(t, home, it, parent, f, j, after, i);
      }
    }
  }

  // ----- Adding a pair -----

  /** The new pair becomes the head of the chain of its home slot b. */
  ghost function PutDirect<K, V>(t: Table<K, V>, b: nat, pair: (K, V)): Table<K, V>
    requires Stored(t) && b < t.n
  {
    t.(ctrl := t.ctrl[b := DIRECT_HIT], slot := t.slot[b := Some(pair)], rank := t.rank[b := 0], pos := t.pos[pair.0 := b])
  }

  /** The new pair goes to the free slot f, linked from the chain's last pair. */
  ghost function PutTail<K, V>(t: Table<K, V>, parent: nat, f: nat, j: nat, pair: (K, V)): Table<K, V>
    requires Stored(t) && parent < t.n && f < t.n
  {
    t.(ctrl := t.ctrl[f := LIST_ENTRY][parent := WithJump(t.ctrl[parent], j)], slot := t.slot[f := Some(pair)],
       rank := t.rank[f := t.rank[parent] + 1], pred := t.pred[f := parent], pos := t.pos[pair.0 := f])
  }

  lemma PutDirectStored<K, V>(t: Table<K, V>, b: nat, pair: (K, V))
    requires Stored(t) && b < t.n && !t.Full(b) && pair.0 !in t.pos
    ensures Stored(PutDirect(t, b, pair))
    ensures Contents(PutDirect(t, b, pair)) == Contents(t)[pair.0 := pair.1]
    ensures |PutDirect(t, b, pair).pos| == |t.pos| + 1
  {
  }

  lemma PutDirectChained<K, V>(t: Table<K, V>, home: K -> nat, b: nat, pair: (K, V))
    requires Chained(t, home) && b < t.n && !t.Full(b) && pair.0 !in t.pos && home(pair.0) == b
    ensures Chained(PutDirect(t, b, pair), home)
  {
    hide Step;
    var u := PutDirect(t, b, pair);
    PutDirectStored(t, b, pair);
    forall i | u.Full(i)
      ensures HeadOk(u, home, i) && NextOk(u, home, i) && PrevOk(u, i)
    {
      if i != b {
        assert t.Full(i) && HeadOk(t, home, i) && NextOk(t, home, i) && PrevOk(t, i);
      }
    }
  }

  lemma PutTailStored<K, V>(t: Table<K, V>, parent: nat, f: nat, j: nat, pair: (K, V))
    requires Stored(t) && t.Full(parent) && f < t.n && t.ctrl[f] == EMPTY && j < NUM_JUMPS && pair.0 !in t.pos
    ensures Stored(PutTail(t, parent, f, j, pair))
    ensures Contents(PutTail(t, parent, f, j, pair)) == Contents(t)[pair.0 := pair.1]
    ensures |PutTail(t, parent, f, j, pair).pos| == |t.pos| + 1
  {
    CodesDoNotCollide(t.ctrl[parent], j);
  }

  lemma PutTailElsewhere<K, V>(t: Table<K, V>, home: K -> nat, parent: nat, f: nat, j: nat, pair: (K, V), i: nat)
    requires Stored(t) && t.Full(parent) && !t.HasNext(parent)
    requires f < t.n && t.ctrl[f] == EMPTY && 0 < j < NUM_JUMPS && f == Step(parent, j, t.n)
    requires home(pair.0) == home(KeyAt(t, parent)) && t.Full(i)
    requires HeadOk(t, home, i) && NextOk(t, home, i) && PrevOk(t, i)
    requires Stored(PutTail(t, parent, f, j, pair))
    requires t.Full(home(pair.0))
    ensures PutTail(t, parent, f, j, pair).Full(i)
    ensures var u := PutTail(t, parent, f, j, pair);
            HeadOk(u, home, i) && NextOk(u, home, i) && PrevOk(u, i)
  {
    hide Step;
    CodesDoNotCollide(t.ctrl[parent], j);
  }

  lemma PutTailEntry<K, V>(t: Table<K, V>, home: K -> nat, parent: nat, f: nat, j: nat, pair: (K, V))
    requires Stored(t) && t.Full(parent) && HeadOk(t, home, parent)
    requires f < t.n && t.ctrl[f] == EMPTY && 0 < j < NUM_JUMPS && f == Step(parent, j, t.n)
    requires home(pair.0) == home(KeyAt(t, parent)) && t.Full(home(pair.0))
    requires Stored(PutTail(t, parent, f, j, pair))
    ensures PutTail(t, parent, f, j, pair).Full(f)
    ensures var u := PutTail(t, parent, f, j, pair);
            HeadOk(u, home, f) && NextOk(u, home, f) && PrevOk(u, f)
  {
    hide Step;
    CodesDoNotCollide(t.ctrl[parent], j);
  }

  lemma PutTailChained<K, V>(t: Table<K, V>, home: K -> nat, parent: nat, f: nat, j: nat, pair: (K, V))
    requires Chained(t, home) && t.Full(parent) && !t.HasNext(parent)
    requires f < t.n && t.ctrl[f] == EMPTY && 0 < j < NUM_JUMPS && f == Step(parent, j, t.n)
    requires pair.0 !in t.pos && home(pair.0) == home(KeyAt(t, parent))
    ensures Chained(PutTail(t, parent, f, j, pair), home)
  {
    hide Step, HeadOk, NextOk, PrevOk;
    var u := PutTail(t, parent, f, j, pair);
    PutTailStored(t, parent, f, j, pair);
    HeadOfChain(t, home, parent);
    PutTailEntry(t, home, parent, f, j, pair);
    forall i | u.Full(i)
      ensures HeadOk(u, home, i) && NextOk(u, home, i) && PrevOk(u, i)
    {
      if i != f {
        CodesDoNotCollide(t.ctrl[parent], j);
        PutTailElsewhere(t, home, parent, f, j, pair, i);
      }
    }
  }

  // ----- Removing a pair -----

  /** The chain's last pair fills the gap at `current` (which may be the last pair itself), its slot
      becomes empty and the link to it is cleared. */
  ghost function Drop<K, V>(t: Table<K, V>, current: nat, last: nat): Table<K, V>
    requires Stored(t) && t.Full(current) && t.Full(last)
  {
    t.(ctrl := (if IsDirect(t.ctrl[last]) || t.pred[last] >= t.n then t.ctrl else t.ctrl[t.pred[last] := WithJump(t.ctrl[t.pred[last]], 0)])[last := EMPTY],
       slot := t.slot[current := t.slot[last]][last := None],
       pos := t.pos[t.slot[last].value.0 := current] - {t.slot[current].value.0})
  }

  lemma DropStored<K, V>(t: Table<K, V>, current: nat, last: nat)
    requires Stored(t) && t.Full(current) && t.Full(last)
    requires !IsDirect(t.ctrl[last]) ==> t.Full(t.pred[last]) && t.pred[last] != last
    ensures Stored(Drop(t, current, last))
  {
    if !IsDirect(t.ctrl[last]) {
      CodesDoNotCollide(t.ctrl[t.pred[last]], 0);
    }
  }

  lemma DropContents<K, V>(t: Table<K, V>, current: nat, last: nat)
    requires Stored(t) && t.Full(current) && t.Full(last)
    requires Stored(Drop(t, current, last))
    ensures Contents(Drop(t, current, last)) == Contents(t) - {KeyAt(t, current)}
  {
  }

  lemma DropSize<K, V>(t: Table<K, V>, current: nat, last: nat)
    requires Stored(t) && t.Full(current) && t.Full(last)
    requires Stored(Drop(t, current, last))
    ensures |Drop(t, current, last).pos| == |t.pos| - 1
  {
    var u, k := Drop(t, current, last), KeyAt(t, current);
    assert u.pos.Keys == t.pos.Keys - {k};
    assert |u.pos| == |u.pos.Keys| && |t.pos| == |t.pos.Keys|;
  }

  lemma DropElsewhere<K, V>(t: Table<K, V>, home: K -> nat, current: nat, last: nat, i: nat)
    requires Stored(t) && t.Full(current) && t.Full(last) && !t.HasNext(last)
    requires home(KeyAt(t, current)) == home(KeyAt(t, last))
    requires HeadOk(t, home, last) && PrevOk(t, last)
    requires current == last || !IsDirect(t.ctrl[last])
    requires Stored(Drop(t, current, last)) && Drop(t, current, last).Full(i) && t.Full(i)
    requires HeadOk(t, home, i) && NextOk(t, home, i) && PrevOk(t, i)
    ensures var u := Drop(t, current, last);
            HeadOk(u, home, i) && NextOk(u, home, i) && PrevOk(u, i)
  {
    hide Step;
    if !IsDirect(t.ctrl[last]) {
      CodesDoNotCollide(t.ctrl[t.pred[last]], 0);
    }
  }

  lemma DropChained<K, V>(t: Table<K, V>, home: K -> nat, current: nat, last: nat)
    requires Chained(t, home) && t.Full(current) && t.Full(last) && !t.HasNext(last)
    requires home(KeyAt(t, current)) == home(KeyAt(t, last))
    requires current == last || !IsDirect(t.ctrl[last])
    ensures Chained(Drop(t, current, last), home)
  {
    hide Step, HeadOk, NextOk;
    var u := Drop(t, current, last);
    assert HeadOk(t, home, last) && PrevOk(t, last);
    if !IsDirect(t.ctrl[last]) {
      CodesDoNotCollide(t.ctrl[t.pred[last]], 0);
    }
    DropStored(t, current, last);
    forall i | u.Full(i)
      ensures HeadOk(u, home, i) && NextOk(u, home, i) && PrevOk(u, i)
    {
      DropElsewhere(t, home, current, last, i);
    }
  }

  /** Erasing a pair keeps every chain and removes exactly that key. */
  lemma DropAll<K, V>(t: Table<K, V>, home: K -> nat, current: nat, last: nat)
    requires Chained(t, home) && ReservedOnly(t, -1) && Stored(t)
    requires t.Full(current) && t.Full(last) && !t.HasNext(last)
    requires home(KeyAt(t, current)) == home(KeyAt(t, last))
    requires current == last || !IsDirect(t.ctrl[last])
    ensures var u := Drop(t, current, last);
            && Chained(u, home) && Stored(u) && ReservedOnly(u, -1) && u.n == t.n
            && Contents(u) == Contents(t) - {KeyAt(t, current)} && |u.pos| == |t.pos| - 1
  {
    DropChained(t, home, current, last);
    DropContents(t, current, last);
    DropSize(t, current, last);
  }

  lemma NotOwnParent<K, V>(t: Table<K, V>, home: K -> nat, i: nat)
    requires Chained(t, home) && t.Full(i) && !IsDirect(t.ctrl[i])
    ensures t.pred[i] != i && t.Full(t.pred[i])
  {
    assert PrevOk(t, i) && NextOk(t, home, t.pred[i]);
  }
}
