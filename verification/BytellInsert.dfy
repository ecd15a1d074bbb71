/** What one insertion does to the chains, as functions on table values: finding a free slot,
    relocating a foreign tail, and the complete step short of growing. */
module BytellInsert {
  import opened Wrappers
  import opened HashPolicy
  import opened BytellTable
  import opened BytellChains

  /** The smallest jump code from j on that reaches an empty slot, or 0. */
  ghost function FirstFree(ctrl: seq<nat>, n: nat, p: nat, j: nat): (r: nat)
    requires 0 < n == |ctrl| && 1 <= j <= NUM_JUMPS
    ensures r == 0 ==> forall i :: j <= i < NUM_JUMPS ==> ctrl[Step(p, i, n)] != EMPTY
    ensures r != 0 ==> j <= r < NUM_JUMPS && ctrl[Step(p, r, n)] == EMPTY
                       && forall i :: j <= i < r ==> ctrl[Step(p, i, n)] != EMPTY
    decreases NUM_JUMPS - j
  {
    if j == NUM_JUMPS then 0
    else if ctrl[Step(p, j, n)] == EMPTY then j
    else FirstFree(ctrl, n, p, j + 1)
  }

  lemma FirstFreeEmpty(ctrl: seq<nat>, n: nat, p: nat)
    requires 0 < n == |ctrl| && FirstFree(ctrl, n, p, 1) != 0
    ensures ctrl[Step(p, FirstFree(ctrl, n, p, 1), n)] == EMPTY
  {
  }

  /** The control byte a moved entry leaves behind. */
  function Left(block: nat, it: nat, hasNext: bool): nat {
    if it == block && hasNext then RESERVED else EMPTY
  }

  /** Clearing the slot and then marking the home slot is one write, or leaves an old mark as it is. */
  lemma MarkIsLeft(c: seq<nat>, block: nat, it: nat)
    requires block < |c| && it < |c| && (it == block || c[block] == RESERVED)
    ensures c[it := EMPTY][block := RESERVED] == c[it := Left(block, it, true)]
  {
  }

  lemma MoveRanks<K, V>(t: Table<K, V>, it: nat, parent: nat, f: nat, j: nat, after: nat, bound: nat)
    requires Stored(t) && t.Full(it) && t.Full(parent) && f < t.n && Jump(t.ctrl[it]) < NUM_JUMPS
    requires RanksBelow(t, bound) && t.ctrl[f] == EMPTY && it != parent && j < NUM_JUMPS
    requires after == EMPTY || after == RESERVED
    ensures RanksBelow(Move(t, it, parent, f, j, after), bound)
  {
    CodesDoNotCollide(t.ctrl[parent], j);
  }

  /** Moves `it` and then the rest of its tail, each entry to the first free slot its new
      predecessor reaches.  The flag is false when some entry finds none; the table is then as
      the relocation left it. */
  ghost function Relocate<K, V>(t: Table<K, V>, home: K -> nat, block: nat, it: nat, parent: nat, bound: nat): (Table<K, V>, bool)
    requires Cut(t, home, it, parent) && RanksBelow(t, bound)
    decreases bound - t.rank[it]
  {
    var j := FirstFree(t.ctrl, t.n, parent, 1);
    assert NextOk(t, home, it);
    if j == 0 then (t, false) else
      var f := Step(parent, j, t.n);
      var after := Left(block, it, t.HasNext(it));
      var u := Move(t, it, parent, f, j, after);
      if !t.HasNext(it) then (u, true) else
        MoveStep(t, home, it, parent, f, j, after);
        MoveRanks(t, it, parent, f, j, after, bound);
        assert u.rank[Next(t, it)] == t.rank[it] + 1;
        Relocate(u, home, block, Next(t, it), f, bound)
  }

  /** The pairs that a relocation starting at `it` leaves alone: other chains, and the chain's front. */
  ghost predicate Untouched<K, V>(t: Table<K, V>, home: K -> nat, it: nat, k: K)
    requires Stored(t) && t.Full(it) && k in t.pos
  {
    home(k) != home(KeyAt(t, it)) || t.rank[t.pos[k]] < t.rank[it]
  }

  /** Every key keeps its place in its chain, and untouched ones keep their slot. */
  ghost predicate SameOrder<K, V>(t: Table<K, V>, u: Table<K, V>, home: K -> nat, it: nat)
    requires Stored(t) && Stored(u) && t.Full(it) && u.n == t.n
  {
    && u.pos.Keys == t.pos.Keys
    && (forall k :: k in t.pos ==> u.rank[u.pos[k]] == t.rank[t.pos[k]])
    && (forall k :: k in t.pos && Untouched(t, home, it, k) ==> u.pos[k] == t.pos[k])
  }

  lemma MoveSameOrder<K, V>(t: Table<K, V>, home: K -> nat, it: nat, parent: nat, f: nat, j: nat, after: nat)
    requires Stored(t) && t.Full(it) && t.Full(parent) && f < t.n && Jump(t.ctrl[it]) < NUM_JUMPS
    requires t.ctrl[f] == EMPTY && it != parent && j < NUM_JUMPS && (after == EMPTY || after == RESERVED)
    ensures Stored(Move(t, it, parent, f, j, after))
    ensures SameOrder(t, Move(t, it, parent, f, j, after), home, it)
  {
    MoveStored(t, it, parent, f, j, after);
  }

  /** The home slot during a move: held by the mark while entries remain, free after the last. */
  lemma MoveReserved<K, V>(t: Table<K, V>, block: nat, it: nat, parent: nat, f: nat, j: nat)
    requires Stored(t) && t.Full(it) && t.Full(parent) && it != parent && f < t.n && Jump(t.ctrl[it]) < NUM_JUMPS
    requires block < t.n && ReservedOnly(t, block) && t.ctrl[f] == EMPTY && j < NUM_JUMPS
    requires it == block || t.ctrl[block] == RESERVED
    ensures var u := Move(t, it, parent, f, j, Left(block, it, t.HasNext(it)));
            && ReservedOnly(u, block) && (if t.HasNext(it) then u.ctrl[block] == RESERVED else !u.Full(block))
  {
    CodesDoNotCollide(t.ctrl[parent], j);
  }

  /** One turn of the relocation loop. */
  lemma OneMove<K, V>(t: Table<K, V>, home: K -> nat, block: nat, it: nat, parent: nat, j: nat, bound: nat)
    requires Cut(t, home, it, parent) && RanksBelow(t, bound) && block < t.n && ReservedOnly(t, block)
    requires it == block || t.ctrl[block] == RESERVED
    requires 0 < j < NUM_JUMPS && t.ctrl[Step(parent, j, t.n)] == EMPTY
    ensures NextOk(t, home, it)
    ensures var f := Step(parent, j, t.n);
            var u := Move(t, it, parent, f, j, Left(block, it, t.HasNext(it)));
            && Stored(u) && u.n == t.n && Contents(u) == Contents(t) && SameOrder(t, u, home, it)
            && ReservedOnly(u, block) && RanksBelow(u, bound)
            && (!t.HasNext(it) ==> Chained(u, home) && !u.Full(block))
            && (t.HasNext(it) ==>
                 && Cut(u, home, Next(t, it), f) && u.ctrl[block] == RESERVED
                 && home(KeyAt(u, Next(t, it))) == home(KeyAt(t, it)) && u.rank[Next(t, it)] == t.rank[it] + 1)
  {
    hide Step, HeadOk, PrevOk, SameOrder, BytellChains.Contents, Chained, Cut, RanksBelow, ReservedOnly;
    var f, after := Step(parent, j, t.n), Left(block, it, t.HasNext(it));
    CutFacts(t, home, it, parent);
    MoveStored(t, it, parent, f, j, after);
    MoveContents(t, it, parent, f, j, after);
    MoveSameOrder(t, home, it, parent, f, j, after);
    MoveRanks(t, it, parent, f, j, after, bound);
    MoveReserved(t, block, it, parent, f, j);
    if t.HasNext(it) {
      MoveStep(t, home, it, parent, f, j, after);
    } else {
      MoveLast(t, home, it, parent, f, j, after);
    }
  }

  /** Relocation loses and duplicates nothing, whether it finishes or gets stuck; when it finishes
      the whole table is chained and the home slot is free.  The reserved mark is why the home slot
      stays free: while the tail moves it is neither empty nor full. */
  lemma {:induction false} RelocateKeeps<K, V>(t: Table<K, V>, home: K -> nat, block: nat, it: nat, parent: nat, bound: nat)
    requires Cut(t, home, it, parent) && RanksBelow(t, bound) && block < t.n
    requires it == block || t.ctrl[block] == RESERVED
    requires ReservedOnly(t, block)
    ensures var (u, ok) := Relocate(t, home, block, it, parent, bound);
            && Stored(u) && u.n == t.n && Contents(u) == Contents(t) && SameOrder(t, u, home, it)
            && ReservedOnly(u, block)
            && (ok ==> Chained(u, home) && !u.Full(block))
    decreases bound - t.rank[it]
  {
    hide Step, HeadOk, NextOk, PrevOk, SameOrder, BytellChains.Contents, Chained, ReservedOnly;
    SameOrderRefl(t, home, it);
    var j := FirstFree(t.ctrl, t.n, parent, 1);
    if j != 0 {
      OneMove(t, home, block, it, parent, j, bound);
      if t.HasNext(it) {
        var f, nx := Step(parent, j, t.n), Next(t, it);
        var u := Move(t, it, parent, f, j, Left(block, it, true));
        RelocateKeeps(u, home, block, nx, f, bound);
        SameOrderTrans(t, u, Relocate(u, home, block, nx, f, bound).0, home, it, nx);
      }
    }
  }

  lemma RelocateStuck<K, V>(t: Table<K, V>, home: K -> nat, block: nat, it: nat, parent: nat, bound: nat)
    requires Cut(t, home, it, parent) && RanksBelow(t, bound)
    ensures FirstFree(t.ctrl, t.n, parent, 1) == 0 ==> Relocate(t, home, block, it, parent, bound) == (t, false)
  {
  }

  lemma KeptSize<K, V>(t: Table<K, V>, u: Table<K, V>)
    requires t.pos.Keys == u.pos.Keys
    ensures |t.pos| == |u.pos|
  {
    assert |t.pos| == |t.pos.Keys| && |u.pos| == |u.pos.Keys|;
  }

  lemma SameOrderRefl<K, V>(t: Table<K, V>, home: K -> nat, it: nat)
    requires Stored(t) && t.Full(it)
    ensures SameOrder(t, t, home, it)
  {
  }

  lemma SameOrderTrans<K, V>(t: Table<K, V>, u: Table<K, V>, w: Table<K, V>, home: K -> nat, it: nat, nx: nat)
    requires Stored(t) && Stored(u) && Stored(w) && u.n == t.n == w.n && t.Full(it) && u.Full(nx)
    requires home(KeyAt(u, nx)) == home(KeyAt(t, it)) && u.rank[nx] == t.rank[it] + 1
    requires SameOrder(t, u, home, it) && SameOrder(u, w, home, nx)
    ensures SameOrder(t, w, home, it)
  {
    forall k | k in t.pos && Untouched(t, home, it, k)
      ensures w.pos[k] == t.pos[k]
    {
      assert Untouched(u, home, nx, k);
    }
  }

  // ----- A whole insertion -----

  /** A bound for the ranks of a table. */
  ghost function RankBound(rank: seq<nat>): nat {
    if rank == [] then 1
    else
      var rest := RankBound(rank[1..]);
      if rank[0] < rest then rest else rank[0] + 1
  }

  lemma {:induction false} RankBoundCovers(rank: seq<nat>, i: nat)
    requires i < |rank|
    ensures rank[i] < RankBound(rank)
  {
    if i > 0 {
      RankBoundCovers(rank[1..], i - 1);
    }
  }

  lemma Bounded<K, V>(t: Table<K, V>)
    requires Stored(t)
    ensures RanksBelow(t, RankBound(t.rank))
  {
    forall i | t.Full(i)
      ensures t.rank[i] < RankBound(t.rank)
    {
      RankBoundCovers(t.rank, i);
    }
  }

  /** The last slot of the chain through i. */
  ghost function Tail<K, V>(t: Table<K, V>, home: K -> nat, i: nat, bound: nat): (r: nat)
    requires Chained(t, home) && t.Full(i) && RanksBelow(t, bound)
    ensures t.Full(r) && !t.HasNext(r) && home(KeyAt(t, r)) == home(KeyAt(t, i))
    decreases bound - t.rank[i]
  {
    assert NextOk(t, home, i);
    if t.HasNext(i) then Tail(t, home, Next(t, i), bound) else i
  }

  /** `is_full` at the load factor 15/16; a single slot counts as no table at all. */
  predicate AtCapacity(n: nat, elements: nat) {
    n == 1 || 16 * (elements + 1) > 15 * n
  }

  /** The table after inserting a new key without growing; None when the table has to grow first. */
  ghost function InsertStep<K, V>(t: Table<K, V>, home: K -> nat, pair: (K, V), bound: nat): Option<Table<K, V>>
    requires Chained(t, home) && RanksBelow(t, bound) && home(pair.0) < t.n
  {
    var b := home(pair.0);
    if AtCapacity(t.n, |t.pos|) then None
    else if t.ctrl[b] == EMPTY then Some(PutDirect(t, b, pair))
    else if !t.Full(b) then None
    else if IsDirect(t.ctrl[b]) then
      var p := Tail(t, home, b, bound);
      var j := FirstFree(t.ctrl, t.n, p, 1);
      if j == 0 then None else Some(PutTail(t, p, Step(p, j, t.n), j, pair))
    else
      CutAnywhere(t, home, b);
      var r := Relocate(t, home, b, b, t.pred[b], bound);
      if r.1 then RelocateFrame(t, home, b, b, t.pred[b], bound); Some(PutDirect(r.0, b, pair)) else None
  }

  lemma InsertIsRelocate<K, V>(t: Table<K, V>, home: K -> nat, pair: (K, V), bound: nat)
    requires Chained(t, home) && RanksBelow(t, bound) && home(pair.0) < t.n && !AtCapacity(t.n, |t.pos|)
    requires t.Full(home(pair.0)) && !IsDirect(t.ctrl[home(pair.0)])
    ensures Cut(t, home, home(pair.0), t.pred[home(pair.0)])
    ensures var b := home(pair.0);
            var r := Relocate(t, home, b, b, t.pred[b], bound);
            && Stored(r.0) && r.0.n == t.n
            && InsertStep(t, home, pair, bound) == if r.1 then Some(PutDirect(r.0, b, pair)) else None
  {
    var b := home(pair.0);
    CutAnywhere(t, home, b);
    RelocateFrame(t, home, b, b, t.pred[b], bound);
  }

  lemma {:induction false} RelocateFrame<K, V>(t: Table<K, V>, home: K -> nat, block: nat, it: nat, parent: nat, bound: nat)
    requires Cut(t, home, it, parent) && RanksBelow(t, bound)
    ensures Stored(Relocate(t, home, block, it, parent, bound).0) && Relocate(t, home, block, it, parent, bound).0.n == t.n
    decreases bound - t.rank[it]
  {
    var j := FirstFree(t.ctrl, t.n, parent, 1);
    assert NextOk(t, home, it);
    if j != 0 {
      var f := Step(parent, j, t.n);
      var after := Left(block, it, t.HasNext(it));
      MoveStored(t, it, parent, f, j, after);
      if t.HasNext(it) {
        MoveStep(t, home, it, parent, f, j, after);
        MoveRanks(t, it, parent, f, j, after, bound);
        RelocateFrame(Move(t, it, parent, f, j, after), home, block, Next(t, it), f, bound);
      }
    }
  }

  /** What an insertion has to give: a chained table with exactly one pair more. */
  ghost predicate Gained<K, V>(t: Table<K, V>, u: Table<K, V>, home: K -> nat, pair: (K, V)) {
    && Stored(t) && Stored(u) && Chained(u, home) && ReservedOnly(u, -1) && u.n == t.n
    && Contents(u) == Contents(t)[pair.0 := pair.1]
    && |u.pos| == |t.pos| + 1 && pair.0 in u.pos
  }

  lemma DirectGains<K, V>(t: Table<K, V>, home: K -> nat, pair: (K, V))
    requires Chained(t, home) && ReservedOnly(t, home(pair.0)) && home(pair.0) < t.n && pair.0 !in t.pos
    requires !t.Full(home(pair.0))
    ensures Gained(t, PutDirect(t, home(pair.0), pair), home, pair)
  {
    hide HeadOk, NextOk, PrevOk, BytellChains.Contents;
    PutDirectStored(t, home(pair.0), pair);
    PutDirectChained(t, home, home(pair.0), pair);
  }

  lemma TailGains<K, V>(t: Table<K, V>, home: K -> nat, pair: (K, V), p: nat, j: nat)
    requires Chained(t, home) && ReservedOnly(t, -1) && pair.0 !in t.pos
    requires t.Full(p) && !t.HasNext(p) && home(KeyAt(t, p)) == home(pair.0)
    requires 0 < j < NUM_JUMPS && t.ctrl[Step(p, j, t.n)] == EMPTY && Step(p, j, t.n) != home(pair.0) < t.n
    ensures Gained(t, PutTail(t, p, Step(p, j, t.n), j, pair), home, pair)
  {
    hide Step, HeadOk, NextOk, PrevOk, BytellChains.Contents;
    PutTailStored(t, p, Step(p, j, t.n), j, pair);
    PutTailChained(t, home, p, Step(p, j, t.n), j, pair);
    CodesDoNotCollide(t.ctrl[p], j);
  }

  /** An insertion that need not grow yields a chained table with exactly one pair more. */
  lemma InsertSound<K, V>(t: Table<K, V>, home: K -> nat, pair: (K, V), bound: nat)
    requires Chained(t, home) && RanksBelow(t, bound) && ReservedOnly(t, -1)
    requires home(pair.0) < t.n && pair.0 !in t.pos
    requires InsertStep(t, home, pair, bound).Some?
    ensures var u := InsertStep(t, home, pair, bound).value;
            && Stored(u) && Chained(u, home) && ReservedOnly(u, -1) && u.n == t.n
            && Contents(u) == Contents(t)[pair.0 := pair.1]
            && |u.pos| == |t.pos| + 1 && pair.0 in u.pos
  {
    hide Step, HeadOk, NextOk, PrevOk, BytellChains.Contents, Relocate, Tail, FirstFree, JumpDistance, RanksBelow;
    var b := home(pair.0);
    if t.ctrl[b] == EMPTY {
      DirectGains(t, home, pair);
    } else if IsDirect(t.ctrl[b]) {
      var p := Tail(t, home, b, bound);
      HeadIsHome(t, home, b);
      TailGains(t, home, pair, p, FirstFree(t.ctrl, t.n, p, 1));
    } else {
      CutAnywhere(t, home, b);
      RelocateKeeps(t, home, b, b, t.pred[b], bound);
      var u := Relocate(t, home, b, b, t.pred[b], bound).0;
      KeptSize(t, u);
      DirectGains(u, home, pair);
    }
  }

  // ----- Where the new pair comes in its chain -----

  /** The last pair of a chain has the highest place in it. */
  lemma TailIsLast<K, V>(t: Table<K, V>, home: K -> nat, p: nat, i: nat)
    requires Chained(t, home) && t.Full(p) && !t.HasNext(p) && t.Full(i) && home(KeyAt(t, i)) == home(KeyAt(t, p))
    ensures t.rank[i] <= t.rank[p]
  {
    hide HeadOk, NextOk, PrevOk;
    if t.rank[p] < t.rank[i] {
      EarlierHasNext(t, home, p, i);
    }
  }

  /** No key is at home where no chain of its own starts. */
  lemma NobodyAtHome<K, V>(t: Table<K, V>, home: K -> nat, b: nat, k: K)
    requires Chained(t, home) && b < t.n && (!t.Full(b) || !IsDirect(t.ctrl[b])) && k in t.pos
    ensures home(k) != b
  {
    hide HeadOk, NextOk, PrevOk;
    StoredAt(t, k);
    HeadOfChain(t, home, t.pos[k]);
  }

  /** Every pair keeps its place and the new one comes after all others of its chain. */
  ghost predicate AddedLast<K, V>(t: Table<K, V>, u: Table<K, V>, home: K -> nat, key: K)
    requires Stored(t) && Stored(u)
  {
    && key in u.pos
    && (forall k :: k in t.pos ==> k in u.pos && u.rank[u.pos[k]] == t.rank[t.pos[k]])
    && (forall k :: k in t.pos && home(k) == home(key) ==> u.rank[u.pos[key]] > t.rank[t.pos[k]])
  }

  lemma DirectIsLast<K, V>(t: Table<K, V>, u: Table<K, V>, home: K -> nat, pair: (K, V), b: nat)
    requires Stored(t) && Stored(u) && b < u.n && !u.Full(b) && pair.0 !in u.pos && Stored(PutDirect(u, b, pair))
    requires u.pos.Keys == t.pos.Keys && forall k :: k in t.pos ==> u.rank[u.pos[k]] == t.rank[t.pos[k]]
    requires forall k :: k in t.pos ==> home(k) != home(pair.0)
    ensures AddedLast(t, PutDirect(u, b, pair), home, pair.0)
  {
    forall k | k in t.pos ensures u.pos[k] != b {
      StoredAt(u, k);
    }
  }

  lemma TailIsAddedLast<K, V>(t: Table<K, V>, home: K -> nat, pair: (K, V), p: nat, f: nat, j: nat)
    requires Chained(t, home) && pair.0 !in t.pos && t.Full(p) && !t.HasNext(p) && home(KeyAt(t, p)) == home(pair.0)
    requires f < t.n && t.ctrl[f] == EMPTY && Stored(PutTail(t, p, f, j, pair))
    ensures AddedLast(t, PutTail(t, p, f, j, pair), home, pair.0)
  {
    hide HeadOk, NextOk, PrevOk;
    forall k | k in t.pos
      ensures t.pos[k] != f && (home(k) == home(pair.0) ==> t.rank[t.pos[k]] <= t.rank[p])
    {
      StoredAt(t, k);
      if home(k) == home(pair.0) {
        TailIsLast(t, home, p, t.pos[k]);
      }
    }
  }

  /** An insertion appends to the key's chain and leaves the order of every chain as it was, relocated or not. */
  lemma InsertAddsLast<K, V>(t: Table<K, V>, home: K -> nat, pair: (K, V), bound: nat)
    requires Chained(t, home) && RanksBelow(t, bound) && ReservedOnly(t, -1) && home(pair.0) < t.n && pair.0 !in t.pos
    requires InsertStep(t, home, pair, bound).Some?
    ensures Stored(InsertStep(t, home, pair, bound).value)
    ensures AddedLast(t, InsertStep(t, home, pair, bound).value, home, pair.0)
  {
    hide Step, HeadOk, NextOk, PrevOk, BytellChains.Contents, Relocate, Tail, FirstFree, JumpDistance, RanksBelow,
      AddedLast, PutDirect, PutTail;
    var b := home(pair.0);
    InsertSound(t, home, pair, bound);
    if t.Full(b) && IsDirect(t.ctrl[b]) {
      var p := Tail(t, home, b, bound);
      HeadIsHome(t, home, b);
      var j := FirstFree(t.ctrl, t.n, p, 1);
      TailIsAddedLast(t, home, pair, p, Step(p, j, t.n), j);
    } else {
      forall k | k in t.pos ensures home(k) != b {
        NobodyAtHome(t, home, b, k);
      }
      if t.ctrl[b] == EMPTY {
        DirectIsLast(t, t, home, pair, b);
      } else {
        CutAnywhere(t, home, b);
        OnlyReserved(t, b);
        RelocateKeeps(t, home, b, b, t.pred[b], bound);
        DirectIsLast(t, Relocate(t, home, b, b, t.pred[b], bound).0, home, pair, b);
      }
    }
  }

  lemma OnlyReserved<K, V>(t: Table<K, V>, block: int)
    requires ReservedOnly(t, -1)
    ensures ReservedOnly(t, block)
  {
  }

  // ----- A relocation at work -----

  function ModFour(k: nat): nat { k % 4 }

  ghost const BEFORE: Table<nat, nat> :=
    Table(4, [1, LIST_ENTRY, EMPTY, EMPTY], [Some((0, 0)), Some((4, 0)), None, None], [0, 1, 0, 0], [0, 0, 0, 0],
          map[0 := 0, 4 := 1])
  ghost const AFTER: Table<nat, nat> :=
    Table(4, [2, DIRECT_HIT, LIST_ENTRY, EMPTY], [Some((0, 0)), Some((1, 7)), Some((4, 0)), None], [0, 0, 1, 0], [0, 0, 0, 0],
          map[0 := 0, 1 := 1, 4 := 2])

  lemma BeforeIsChained()
    ensures Chained(BEFORE, ModFour) && Stored(BEFORE) && RanksBelow(BEFORE, 2) && ReservedOnly(BEFORE, -1)
  {
    var t := BEFORE;
    assert Stored(t);
    assert Next(t, 0) == 1 by {
      assert JumpDistance(1) == 1;
    }
    assert HeadOk(t, ModFour, 0) && NextOk(t, ModFour, 0) && PrevOk(t, 0);
    assert HeadOk(t, ModFour, 1) && NextOk(t, ModFour, 1) && PrevOk(t, 1);
  }

  lemma FirstFreeThere()
    ensures Step(0, 2, 4) == 2 && FirstFree(BEFORE.ctrl, 4, 0, 1) == 2
  {
    assert JumpDistance(1) == 1 && JumpDistance(2) == 2;
    assert Step(0, 1, 4) == 1;
    assert FirstFree(BEFORE.ctrl, 4, 0, 2) == 2;
  }

  ghost const MOVED: Table<nat, nat> :=
    Table(4, [2, EMPTY, LIST_ENTRY, EMPTY], [Some((0, 0)), None, Some((4, 0)), None], [0, 1, 1, 0], [0, 0, 0, 0],
          map[0 := 0, 4 := 2])

  lemma FourMoves()
    requires Stored(BEFORE)
    ensures Move(BEFORE, 1, 0, 2, 2, EMPTY) == MOVED
  {
    var u := Move(BEFORE, 1, 0, 2, 2, EMPTY);
    assert u.ctrl == MOVED.ctrl && u.slot == MOVED.slot;
    assert u.rank == MOVED.rank && u.pred == MOVED.pred && u.pos == MOVED.pos;
  }

  lemma OneTakesItsHome()
    requires Stored(MOVED)
    ensures PutDirect(MOVED, 1, (1, 7)) == AFTER
  {
    var u := PutDirect(MOVED, 1, (1, 7));
    assert u.ctrl == AFTER.ctrl && u.slot == AFTER.slot;
    assert u.rank == AFTER.rank && u.pred == AFTER.pred && u.pos == AFTER.pos;
  }

  /** Four slots; keys 0 and 4 share home slot 0, so 4 sits in slot 1, linked from slot 0.  Inserting 1, whose
      home that is, moves 4 on to slot 2, links it from slot 0 again, and makes 1 a head. */
  lemma RelocationExample()
    ensures Chained(BEFORE, ModFour) && RanksBelow(BEFORE, 2)
    ensures InsertStep(BEFORE, ModFour, (1, 7), 2) == Some(AFTER)
  {
    hide Chained, NextOk, HeadOk, PrevOk, FirstFree, Step, JumpDistance, Move, PutDirect, Stored;
    BeforeIsChained();
    FirstFreeThere();
    InsertIsRelocate(BEFORE, ModFour, (1, 7), 2);
    FourMoves();
    assert Relocate(BEFORE, ModFour, 1, 1, 0, 2) == (MOVED, true);
    OneTakesItsHome();
  }

  // ----- The chains of a table, as sequences -----

  ghost function ChainFrom<K, V>(t: Table<K, V>, home: K -> nat, i: nat, bound: nat): (c: seq<nat>)
    requires Chained(t, home) && t.Full(i) && RanksBelow(t, bound)
    decreases bound - t.rank[i]
  {
    assert NextOk(t, home, i);
    if t.HasNext(i) then [i] + ChainFrom(t, home, Next(t, i), bound) else [i]
  }

  lemma {:induction false} ChainFromLinked<K, V>(t: Table<K, V>, home: K -> nat, i: nat, bound: nat)
    requires Chained(t, home) && t.Full(i) && RanksBelow(t, bound)
    ensures var c := ChainFrom(t, home, i, bound);
            && |c| > 0 && c[0] == i && t.Full(c[|c| - 1]) && !t.HasNext(c[|c| - 1])
            && (forall x :: 0 <= x < |c| ==> t.Full(c[x]) && home(KeyAt(t, c[x])) == home(KeyAt(t, i)) && t.rank[c[x]] == t.rank[i] + x)
    decreases bound - t.rank[i]
  {
    hide Step, HeadOk, PrevOk;
    assert NextOk(t, home, i);
    if t.HasNext(i) {
      ChainFromLinked(t, home, Next(t, i), bound);
    }
  }

  /** The list that starts in bucket b holds exactly the pairs whose home is b, each once, and
      ends: chains are acyclic, terminated, single-home and together cover the table. */
  lemma ChainIsBucket<K, V>(t: Table<K, V>, home: K -> nat, b: nat, bound: nat)
    requires Chained(t, home) && RanksBelow(t, bound) && t.Full(b) && IsDirect(t.ctrl[b])
    ensures var c := ChainFrom(t, home, b, bound);
            && (forall i :: t.Full(i) ==> (home(KeyAt(t, i)) == b <==> i in c))
            && (forall x, y :: 0 <= x < y < |c| ==> c[x] != c[y])
            && !t.HasNext(c[|c| - 1])
  {
    ChainFromLinked(t, home, b, bound);
    assert HeadOk(t, home, b);
    var c := ChainFrom(t, home, b, bound);
    forall i | t.Full(i) && home(KeyAt(t, i)) == b
      ensures i in c
    {
      var last := c[|c| - 1];
      if t.rank[i] >= |c| {
        EarlierHasNext(t, home, last, i);
      } else {
        SameRankSameSlot(t, home, i, c[t.rank[i]]);
      }
    }
  }

  // ----- Scanning the old array -----

  ghost function Scanned<K, V>(t: Table<K, V>, i: nat): map<K, V>
    requires Stored(t)
  {
    map k | k in t.pos && t.pos[k] < i :: t.slot[t.pos[k]].value.1
  }

  lemma ScanStep<K, V>(t: Table<K, V>, i: nat)
    requires Stored(t) && i < t.n
    ensures !t.Full(i) ==> Scanned(t, i + 1) == Scanned(t, i)
    ensures t.Full(i) ==>
              var p := t.slot[i].value;
              p.0 !in Scanned(t, i) && Scanned(t, i + 1) == Scanned(t, i)[p.0 := p.1]
  {
  }

  lemma ScanSize<K, V>(t: Table<K, V>, i: nat)
    requires Stored(t) && i < t.n && t.Full(i)
    ensures |Scanned(t, i)| + 1 <= |t.pos|
  {
    var k := t.slot[i].value.0;
    SubsetSize(Scanned(t, i).Keys + {k}, t.pos.Keys);
    assert |Scanned(t, i)| == |Scanned(t, i).Keys| && |t.pos| == |t.pos.Keys|;
  }

  lemma ScanStarts<K, V>(t: Table<K, V>)
    requires Stored(t)
    ensures Scanned(t, 0) == map[] && t.n >= 1 && |t.ctrl| == |t.slot| == t.n
    ensures t.pos == map[] ==> Scanned(t, t.n) == map[]
  {
  }

  lemma ScanEnds<K, V>(t: Table<K, V>)
    requires Stored(t)
    ensures Scanned(t, 0) == map[] && Scanned(t, t.n) == Contents(t)
  {
  }

  lemma ContentsSize<K, V>(t: Table<K, V>)
    requires Stored(t)
    ensures |Contents(t)| == |t.pos| && (forall k :: k in Contents(t) <==> k in t.pos)
  {
    assert Contents(t).Keys == t.pos.Keys;
    assert |Contents(t)| == |Contents(t).Keys| && |t.pos| == |t.pos.Keys|;
  }

  /** The load factor 15/16; a single slot holds nothing. */
  ghost predicate WithinLoad(elements: nat, n: nat) {
    if n == 1 then elements == 0 else 16 * elements <= 15 * n
  }

  lemma FewerWithinLoad(more: nat, elements: nat, n: nat)
    requires WithinLoad(more, n) && elements <= more
    ensures WithinLoad(elements, n)
  {
  }

  lemma LoadAfterInsert(n: nat, elements: nat)
    requires elements >= 1 && !AtCapacity(n, elements - 1)
    ensures WithinLoad(elements, n)
  {
  }

  /** How far a table of n slots is from the allocation limit; 0 past it. */
  function Room(limit: nat, n: nat): nat {
    if n <= limit then limit + 1 - n else 0
  }

  lemma LessRoom(limit: nat, n: nat, larger: nat)
    requires n <= larger
    ensures Room(limit, larger) <= Room(limit, n)
  {
  }
}
