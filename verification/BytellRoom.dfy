/** When the bytell table has to grow, and when it need not.  A slot's chain can continue in at most 125 other
    slots: keys that seldom share a home slot fit, 126 keys fit every table that is large enough, whatever their
    hashes, and there are 127 keys that fit no table at all. */
module BytellRoom {
  import opened Wrappers
  import opened HashPolicy
  import opened BytellTable
  import opened BytellChains
  import opened BytellInsert

  // ----- How many slots the jumps reach -----

  function ShortFrom(n: nat, j: nat): (m: nat)
    requires j <= NUM_JUMPS
    ensures j <= m <= NUM_JUMPS && (forall i :: j <= i < m ==> JumpDistance(i) < n)
    ensures m < NUM_JUMPS ==> JumpDistance(m) >= n
    decreases NUM_JUMPS - j
  {
    if j == NUM_JUMPS || JumpDistance(j) >= n then j else ShortFrom(n, j + 1)
  }

  /** How many jumps, that of length 0 included, are shorter than the table: n of them up to 16 slots, at least
      16 beyond, and all 126 in the largest tables. */
  function ShortJumps(n: nat): (m: nat)
    ensures m <= NUM_JUMPS && (forall i :: 0 <= i < m ==> JumpDistance(i) < n)
    ensures m < NUM_JUMPS ==> JumpDistance(m) >= n
  {
    ShortFrom(n, 0)
  }

  lemma LargeJumpsStep(i: nat)
    requires i + 1 < |LARGE_JUMPS|
    ensures 2556 < LARGE_JUMPS[i] < LARGE_JUMPS[i + 1] <= LARGE_JUMPS[21]
  {
    assert i < 7 || 7 <= i < 14 || 14 <= i;
  }

  lemma HugeJumpsStep(i: nat)
    requires i + 1 < |HUGE_JUMPS|
    ensures LARGE_JUMPS[21] < HUGE_JUMPS[i] < HUGE_JUMPS[i + 1]
  {
    assert i < 7 || 7 <= i < 14 || 14 <= i;
  }

  /** The distances increase along the table. */
  lemma JumpsStep(j: nat)
    requires j + 1 < NUM_JUMPS
    ensures JumpDistance(j) < JumpDistance(j + 1)
  {
    if 16 <= j < 81 {
      var k := j - 10;
      assert (k + 1) * (k + 2) == k * (k + 1) + 2 * (k + 1);
    } else if 82 <= j < 103 {
      LargeJumpsStep(j - 82);
    } else if 104 <= j {
      HugeJumpsStep(j - 104);
    }
  }

  lemma {:induction false} JumpsIncrease(i: nat, j: nat)
    requires i < j < NUM_JUMPS
    ensures JumpDistance(i) < JumpDistance(j)
    decreases j
  {
    JumpsStep(j - 1);
    if i < j - 1 {
      JumpsIncrease(i, j - 1);
    }
  }

  /** Of which numbers the distances from the 17th on are the triangular numbers. */
  const LARGE_ROOTS: seq<nat> := [
    86, 129, 194, 291, 437, 656, 985, 1477, 2216, 3325, 4987, 7481, 11222, 16834, 25251, 37876, 56815,
    85222, 127834, 191751, 287626, 431439]
  const HUGE_ROOTS: seq<nat> := [
    647159, 970739, 1456109, 2184164, 3276246, 4914369, 7371554, 11057332, 16585998, 24878997, 37318496,
    55977744, 83966617, 125949925, 188924888, 283387333, 425081000, 637621500, 956432250, 1434648375,
    2151972563, 3227958844]

  function TriangleRoot(j: nat): nat
    requires 16 <= j < NUM_JUMPS
  {
    if j < 82 then j - 10 else if j < 104 then LARGE_ROOTS[j - 82] else HUGE_ROOTS[j - 104]
  }

  lemma LargeAreTriangular(i: nat)
    requires i < |LARGE_JUMPS|
    ensures 2 * LARGE_JUMPS[i] == LARGE_ROOTS[i] * (LARGE_ROOTS[i] + 1)
  {
    assert i < 7 || 7 <= i < 14 || 14 <= i;
  }

  lemma HugeAreTriangular(i: nat)
    requires i < |HUGE_JUMPS|
    ensures 2 * HUGE_JUMPS[i] == HUGE_ROOTS[i] * (HUGE_ROOTS[i] + 1)
  {
    assert i < 7 || 7 <= i < 14 || 14 <= i;
  }

  lemma {:induction false} EvenProduct(m: nat) returns (half: nat)
    ensures m * (m + 1) == 2 * half
  {
    half := 0;
    if m > 0 {
      half := EvenProduct(m - 1);
      half := half + m;
    }
  }

  lemma MiddleDistance(j: nat)
    requires 16 <= j < 82
    ensures 2 * JumpDistance(j) == (j - 10) * (j - 9)
  {
    var m: nat := j - 10;
    var half := EvenProduct(m);
    HalfOf(m * (m + 1), half);
    assert JumpDistance(j) == m * (m + 1) / 2;
  }

  lemma HalfOf(x: nat, half: nat)
    requires x == 2 * half
    ensures x / 2 == half
  {
  }

  /** The design of the table: the first sixteen integers, and triangular numbers from then on. */
  lemma JumpsAreTriangular(j: nat)
    requires j < NUM_JUMPS
    ensures if j < 16 then JumpDistance(j) == j else 2 * JumpDistance(j) == TriangleRoot(j) * (TriangleRoot(j) + 1)
  {
    if 16 <= j < 82 {
      MiddleDistance(j);
    } else if 82 <= j < 104 {
      LargeAreTriangular(j - 82);
    } else if j >= 104 {
      HugeAreTriangular(j - 104);
    }
  }

  lemma LargeRootsGrow(i: nat)
    requires i + 1 < |LARGE_ROOTS|
    ensures 3 * LARGE_ROOTS[i] <= 2 * LARGE_ROOTS[i + 1] + 1 && 2 * LARGE_ROOTS[i + 1] <= 3 * LARGE_ROOTS[i] + 2
  {
    assert i < 7 || 7 <= i < 14 || 14 <= i;
  }

  lemma HugeRootsGrow(i: nat)
    requires i + 1 < |HUGE_ROOTS|
    ensures 3 * HUGE_ROOTS[i] <= 2 * HUGE_ROOTS[i + 1] + 1 && 2 * HUGE_ROOTS[i + 1] <= 3 * HUGE_ROOTS[i] + 2
  {
    assert i < 7 || 7 <= i < 14 || 14 <= i;
  }

  /** They are the triangular numbers of the 66 numbers from 6 on, and then of 44 that start with 86 and grow by half
      each time, rounded. */
  lemma RootsGrow(j: nat)
    requires 16 <= j && j + 1 < NUM_JUMPS
    ensures TriangleRoot(16) == 6 && TriangleRoot(82) == 86
    ensures j < 81 ==> TriangleRoot(j + 1) == TriangleRoot(j) + 1
    ensures j >= 82 ==> 3 * TriangleRoot(j) <= 2 * TriangleRoot(j + 1) + 1 && 2 * TriangleRoot(j + 1) <= 3 * TriangleRoot(j) + 2
  {
    if 82 <= j < 103 {
      LargeRootsGrow(j - 82);
    } else if j >= 104 {
      HugeRootsGrow(j - 104);
    }
  }

  lemma StepOnce(p: nat, j: nat, n: nat)
    requires p < n && j < NUM_JUMPS && JumpDistance(j) < n
    ensures Step(p, j, n) == if p + JumpDistance(j) < n then p + JumpDistance(j) else p + JumpDistance(j) - n
  {
    hide JumpDistance;
    if p + JumpDistance(j) >= n {
      RemainderUnique(p + JumpDistance(j), 1, p + JumpDistance(j) - n, n);
    }
  }

  /** Short jumps lead to different slots. */
  lemma StepsDistinct(p: nat, i: nat, j: nat, n: nat)
    requires p < n && i < j < ShortJumps(n)
    ensures Step(p, i, n) != Step(p, j, n)
  {
    hide JumpDistance, Step;
    JumpsIncrease(i, j);
    StepOnce(p, i, n);
    StepOnce(p, j, n);
  }

  /** The slots that some jump leads to, that of length 0 included. */
  ghost function Reach(p: nat, n: nat): set<nat>
    requires n >= 1
  {
    set j: nat | j < NUM_JUMPS :: Step(p, j, n)
  }

  lemma {:induction false} FirstSteps(p: nat, n: nat, m: nat) returns (s: set<nat>)
    requires p < n && m <= ShortJumps(n)
    ensures s <= Reach(p, n) && |s| == m
    ensures forall x :: x in s ==> exists i: nat :: i < m && x == Step(p, i, n)
  {
    hide Step, JumpDistance, ShortJumps;
    s := {};
    if m > 0 {
      s := FirstSteps(p, n, m - 1);
      forall i: nat | i < m - 1 ensures Step(p, i, n) != Step(p, m - 1, n) {
        StepsDistinct(p, i, m - 1, n);
      }
      s := s + {Step(p, m - 1, n)};
    }
  }

  /** At least as many slots as there are short jumps. */
  lemma ReachSize(p: nat, n: nat)
    requires p < n
    ensures |Reach(p, n)| >= ShortJumps(n)
  {
    hide Reach, ShortJumps;
    var s := FirstSteps(p, n, ShortJumps(n));
    SubsetSize(s, Reach(p, n));
  }

  // ----- Enough room -----

  /** The home slots of some keys. */
  ghost function HomeSet<K>(home: K -> nat, keys: set<K>): set<nat> {
    set k | k in keys :: home(k)
  }

  lemma {:induction false} HomesAtMost<K>(home: K -> nat, keys: set<K>)
    ensures |HomeSet(home, keys)| <= |keys|
  {
    if keys != {} {
      var k :| k in keys;
      HomesAtMost(home, keys - {k});
      assert HomeSet(home, keys) == HomeSet(home, keys - {k}) + {home(k)};
    }
  }

  /** How many keys have to share a home slot with another: the number of list entries of a chained table. */
  ghost function Excess<K>(home: K -> nat, keys: set<K>): nat {
    HomesAtMost(home, keys);
    |keys| - |HomeSet(home, keys)|
  }

  /** There are none exactly when all homes are different. */
  lemma {:induction false} NoExcess<K>(home: K -> nat, keys: set<K>)
    ensures Excess(home, keys) == 0 <==> forall k, l :: k in keys && l in keys && home(k) == home(l) ==> k == l
  {
    if keys != {} {
      var k :| k in keys;
      var rest := keys - {k};
      NoExcess(home, rest);
      assert HomeSet(home, keys) == HomeSet(home, rest) + {home(k)};
    }
  }

  lemma {:induction false} ExcessGrows<K>(home: K -> nat, keys: set<K>, all: set<K>)
    requires keys <= all
    ensures Excess(home, keys) <= Excess(home, all)
    ensures HomeSet(home, keys) <= HomeSet(home, all)
    decreases |all - keys|
  {
    if k :| k in all - keys {
      assert HomeSet(home, keys + {k}) == HomeSet(home, keys) + {home(k)};
      assert all - (keys + {k}) == all - keys - {k};
      ExcessGrows(home, keys + {k}, all);
    } else {
      assert keys == all;
    }
  }

  /** More slots than any run of 126 jumps passes. */
  const BEYOND := NUM_JUMPS * LONGEST_JUMP

  /** A table of n slots takes these keys in any order: all homes are different, or from every slot the jumps
      lead to more slots that are nobody's home than there are list entries, or there are at most 126 keys and
      very many slots. */
  ghost predicate Open<K>(home: K -> nat, keys: set<K>, n: nat)
    requires n >= 1
  {
    || Excess(home, keys) == 0
    || (forall p: nat :: p < n ==> Excess(home, keys) < |Reach(p, n) - HomeSet(home, keys)|)
    || (|keys| <= NUM_JUMPS && n > BEYOND)
  }

  /** The same then holds of fewer keys. */
  lemma OpenForFewer<K>(home: K -> nat, keys: set<K>, all: set<K>, n: nat)
    requires n >= 1 && keys <= all && Open(home, all, n)
    ensures Open(home, keys, n)
  {
    hide Excess, Reach, HomeSet;
    ExcessGrows(home, keys, all);
    SubsetSize(keys, all);
    forall p: nat | p < n
      ensures |Reach(p, n) - HomeSet(home, all)| <= |Reach(p, n) - HomeSet(home, keys)|
    {
      SubsetSize(Reach(p, n) - HomeSet(home, all), Reach(p, n) - HomeSet(home, keys));
    }
  }

  /** Whatever their hashes, fewer keys than there are short jumps are taken. */
  lemma FewAreOpen<K>(home: K -> nat, keys: set<K>, n: nat)
    requires n >= 1 && |keys| < ShortJumps(n)
    ensures Open(home, keys, n)
  {
    hide ShortJumps, Reach;
    forall p: nat | p < n
      ensures Excess(home, keys) < |Reach(p, n) - HomeSet(home, keys)|
    {
      ReachSize(p, n);
      SetMinus(Reach(p, n), HomeSet(home, keys));
    }
  }

  lemma VeryLargeIsOpen<K>(home: K -> nat, keys: set<K>, n: nat)
    requires n >= 1 && |keys| <= NUM_JUMPS && n > BEYOND
    ensures Open(home, keys, n)
  {
  }

  lemma SetMinus<T>(a: set<T>, b: set<T>)
    ensures |a - b| + |b| >= |a|
  {
    assert a - b == a - a * b && |a - a * b| == |a| - |a * b|;
    SubsetSize(a * b, b);
  }

  lemma SlotInUse<K, V>(t: Table<K, V>, i: nat)
    requires Stored(t) && i < t.n && t.ctrl[i] != EMPTY && t.ctrl[i] != RESERVED
    ensures t.Full(i) && t.slot[i].Some? && KeyAt(t, i) in t.pos && t.pos[KeyAt(t, i)] == i
  {
  }

  /** Slots in use hold one key each. */
  lemma {:induction false} KeysInUse<K, V>(t: Table<K, V>, slots: set<nat>) returns (keys: set<K>)
    requires Stored(t) && forall i :: i in slots ==> t.Full(i)
    ensures keys <= t.pos.Keys && |keys| == |slots| && forall k :: k in keys ==> t.pos[k] in slots
  {
    keys := {};
    if slots != {} {
      var i :| i in slots;
      keys := KeysInUse(t, slots - {i});
      SlotInUse(t, i);
      keys := keys + {KeyAt(t, i)};
    }
  }

  lemma InUseAtMost<K, V>(t: Table<K, V>, slots: set<nat>)
    requires Stored(t) && forall i :: i in slots ==> t.Full(i)
    ensures |slots| <= |t.pos|
  {
    hide Stored;
    var keys := KeysInUse(t, slots);
    SubsetSize(keys, t.pos.Keys);
    assert |t.pos.Keys| == |t.pos|;
  }

  /** The home slot of every stored key is in use. */
  ghost predicate Headed<K, V>(t: Table<K, V>, home: K -> nat) {
    forall k :: k in t.pos ==> t.Full(home(k))
  }

  lemma CutHeaded<K, V>(t: Table<K, V>, home: K -> nat, it: nat, parent: nat)
    requires Cut(t, home, it, parent)
    ensures Headed(t, home)
  {
    hide HeadOk, NextOk, PrevOk;
    forall k | k in t.pos ensures t.Full(home(k)) {
      StoredAt(t, k);
      HeadPresent(t, home, it, parent, t.pos[k]);
    }
  }

  lemma ChainedHeaded<K, V>(t: Table<K, V>, home: K -> nat)
    requires Chained(t, home)
    ensures Headed(t, home)
  {
    hide HeadOk, NextOk, PrevOk;
    forall k | k in t.pos ensures t.Full(home(k)) {
      StoredAt(t, k);
      HeadOfChain(t, home, t.pos[k]);
    }
  }

  /** When no free slot is within reach, every slot within reach is in use or the reserved one. */
  lemma ReachInUse<K, V>(t: Table<K, V>, p: nat, block: int)
    requires Stored(t) && t.Full(p) && p < t.n && ReservedOnly(t, block) && FirstFree(t.ctrl, t.n, p, 1) == 0
    ensures forall i :: i in Reach(p, t.n) && i != block ==> t.Full(i)
  {
    hide Step, JumpDistance, FirstFree;
    StepZero(p, t.n);
    forall i | i in Reach(p, t.n) && i != block ensures t.Full(i) {
      var j: nat :| j < NUM_JUMPS && i == Step(p, j, t.n);
      if j > 0 {
        assert 1 <= j < NUM_JUMPS && t.ctrl[Step(p, j, t.n)] != EMPTY;
      }
    }
  }

  lemma StepZero(p: nat, n: nat)
    requires p < n
    ensures Step(p, 0, n) == p
  {
  }

  /** Then the slots within reach that are no home of any key hold list entries, and the stored keys have no more
      list entries than all the keys have. */
  lemma NoneFree<K, V>(t: Table<K, V>, home: K -> nat, keys: set<K>, p: nat, block: int)
    requires Stored(t) && Headed(t, home) && t.Full(p) && p < t.n && t.pos.Keys <= keys
    requires ReservedOnly(t, block) && (block == -1 || block in HomeSet(home, keys))
    requires FirstFree(t.ctrl, t.n, p, 1) == 0
    ensures Excess(home, keys) >= |Reach(p, t.n) - HomeSet(home, keys)|
  {
    hide Stored, Reach, FirstFree, ReservedOnly;
    var entries, heads := Reach(p, t.n) - HomeSet(home, keys), HomeSet(home, t.pos.Keys);
    ReachInUse(t, p, block);
    ExcessGrows(home, t.pos.Keys, keys);
    InUseAtMost(t, entries + heads);
    assert entries * heads == {};
    assert |t.pos.Keys| == |t.pos|;
  }

  /** Nor can it happen while fewer than 126 pairs are stored in a large table, unless a home slot is reserved. */
  lemma NoneFreeNoMark<K, V>(t: Table<K, V>, p: nat)
    requires Stored(t) && t.Full(p) && p < t.n && t.n > BEYOND && ReservedOnly(t, -1)
    requires FirstFree(t.ctrl, t.n, p, 1) == 0
    ensures |t.pos| >= NUM_JUMPS
  {
    hide Stored, Reach, FirstFree, ReservedOnly;
    ReachInUse(t, p, -1);
    ReachSize(p, t.n);
    InUseAtMost(t, Reach(p, t.n));
  }

  // ----- No way back to the head -----

  /** The slots of a chain up to i, one for each rank. */
  lemma {:induction false} ChainUpTo<K, V>(t: Table<K, V>, home: K -> nat, it: nat, parent: nat, i: nat) returns (slots: set<nat>)
    requires Cut(t, home, it, parent) && t.Full(i)
    ensures |slots| == t.rank[i] + 1
    ensures forall x :: x in slots ==> t.Full(x) && t.rank[x] <= t.rank[i]
    decreases t.rank[i]
  {
    slots := {i};
    assert HeadOk(t, home, i);
    if !IsDirect(t.ctrl[i]) {
      if i != it {
        assert PrevOk(t, i) && NextOk(t, home, t.pred[i]);
      }
      slots := ChainUpTo(t, home, it, parent, t.pred[i]);
      slots := slots + {i};
    }
  }

  lemma RankBelowSize<K, V>(t: Table<K, V>, home: K -> nat, it: nat, parent: nat, i: nat)
    requires Cut(t, home, it, parent) && t.Full(i)
    ensures t.rank[i] < |t.pos|
  {
    hide HeadOk, NextOk, PrevOk;
    var slots := ChainUpTo(t, home, it, parent, i);
    InUseAtMost(t, slots);
  }

  /** Slot i is s slots on from h, going round. */
  ghost predicate Away(h: nat, i: nat, s: nat, n: nat)
    requires n >= 1
  {
    i == (h + s) % n
  }

  lemma StepAway(h: nat, i: nat, s: nat, j: nat, n: nat)
    requires i < n && j < NUM_JUMPS && Away(h, i, s, n)
    ensures Away(h, Step(i, j, n), s + JumpDistance(j), n)
  {
    hide JumpDistance;
    FindStepsLikeNext(i, j, n);
    ModSum(h + s, JumpDistance(j), n);
  }

  lemma LinkedFrom<K, V>(t: Table<K, V>, home: K -> nat, it: nat, parent: nat, i: nat)
    requires Cut(t, home, it, parent) && t.Full(i) && i != it
    ensures if IsDirect(t.ctrl[i]) then home(KeyAt(t, i)) == i && t.rank[i] == 0
            else
              var p := t.pred[i];
              && t.Full(p) && 1 <= Jump(t.ctrl[p]) < NUM_JUMPS && i == Step(p, Jump(t.ctrl[p]), t.n)
              && home(KeyAt(t, p)) == home(KeyAt(t, i)) && t.rank[i] == t.rank[p] + 1
  {
    hide Step, JumpDistance;
    assert HeadOk(t, home, i);
    if !IsDirect(t.ctrl[i]) {
      assert PrevOk(t, i) && NextOk(t, home, t.pred[i]);
    }
  }

  /** An entry linked from its head is at most its rank times the longest jump away. */
  lemma {:induction false} LinkedAway<K, V>(t: Table<K, V>, home: K -> nat, it: nat, parent: nat, i: nat) returns (s: nat)
    requires Cut(t, home, it, parent) && t.Full(i) && home(KeyAt(t, i)) == home(KeyAt(t, it)) && t.rank[i] < t.rank[it]
    ensures Away(home(KeyAt(t, i)), i, s, t.n) && t.rank[i] <= s <= t.rank[i] * LONGEST_JUMP
    decreases t.rank[i]
  {
    hide Step, JumpDistance, Away, HeadOk, NextOk, PrevOk;
    LinkedFrom(t, home, it, parent, i);
    if IsDirect(t.ctrl[i]) {
      s := 0;
      NotAway(i, t.n);
    } else {
      var p := t.pred[i];
      s := LinkedAway(t, home, it, parent, p);
      StepAway(home(KeyAt(t, i)), p, s, Jump(t.ctrl[p]), t.n);
      JumpAtLeastOne(Jump(t.ctrl[p]));
      s := s + JumpDistance(Jump(t.ctrl[p]));
    }
  }

  lemma NotAway(i: nat, n: nat)
    requires i < n
    ensures Away(i, i, 0, n)
  {
    SmallMod(i, n);
  }

  lemma JumpAtLeastOne(j: nat)
    requires 1 <= j < NUM_JUMPS
    ensures JumpDistance(j) >= 1
  {
    JumpsIncrease(0, j);
  }

  lemma NotRound(h: nat, s: nat, n: nat)
    requires h < n && 1 <= s < n
    ensures !Away(h, h, s, n)
  {
    if h + s >= n {
      RemainderUnique(h + s, 1, h + s - n, n);
    } else {
      SmallMod(h + s, n);
    }
  }

  /** In a large table no jump leads from a list entry back to the head of its chain. */
  lemma NoWayBack<K, V>(t: Table<K, V>, home: K -> nat, it: nat, parent: nat)
    requires Cut(t, home, it, parent) && t.n > BEYOND && |t.pos| < NUM_JUMPS && t.rank[parent] >= 1
    ensures home(KeyAt(t, parent)) !in Reach(parent, t.n)
  {
    hide Step, HeadOk, NextOk, PrevOk, JumpDistance, Away;
    var h := home(KeyAt(t, parent));
    RankBelowSize(t, home, it, parent, it);
    HeadPresent(t, home, it, parent, parent);
    var s := LinkedAway(t, home, it, parent, parent);
    forall j: nat | j < NUM_JUMPS ensures Step(parent, j, t.n) != h {
      StepAway(h, parent, s, j, t.n);
      NotRound(h, s + JumpDistance(j), t.n);
    }
  }

  /** So a relocation of at most 125 pairs does not get stuck there either. */
  lemma NoneFreeMarked<K, V>(t: Table<K, V>, home: K -> nat, it: nat, parent: nat, block: nat)
    requires Cut(t, home, it, parent) && t.n > BEYOND && t.rank[parent] >= 1 && ReservedOnly(t, block)
    requires FirstFree(t.ctrl, t.n, parent, 1) == 0
    ensures |t.pos| >= NUM_JUMPS
  {
    hide HeadOk, NextOk, PrevOk, Reach, FirstFree, ReservedOnly;
    if |t.pos| < NUM_JUMPS {
      NoWayBack(t, home, it, parent);
      HeadPresent(t, home, it, parent, parent);
      var h := home(KeyAt(t, parent));
      ReachInUse(t, parent, block);
      ReachSize(parent, t.n);
      InUseAtMost(t, Reach(parent, t.n) - {block} + {h});
    }
  }

  // ----- Open tables take every key -----

  /** No entry of a relocation is ever stuck, when the pending key's home is the slot being cleared. */
  lemma MoveNotStuck<K, V>(t: Table<K, V>, home: K -> nat, keys: set<K>, block: nat, it: nat, parent: nat)
    requires Cut(t, home, it, parent) && block < t.n && ReservedOnly(t, block) && t.pos.Keys <= keys
    requires block in HomeSet(home, keys) && |t.pos| < |keys| && Open(home, keys, t.n) && Excess(home, keys) != 0
    requires t.ctrl[block] == RESERVED ==> t.rank[parent] >= 1
    ensures FirstFree(t.ctrl, t.n, parent, 1) != 0
  {
    hide HeadOk, NextOk, PrevOk, Reach, FirstFree, HomeSet, Excess;
    CutHeaded(t, home, it, parent);
    if FirstFree(t.ctrl, t.n, parent, 1) == 0 {
      NoneFree(t, home, keys, parent, block);
      if t.ctrl[block] == RESERVED {
        NoneFreeMarked(t, home, it, parent, block);
      } else {
        NoneFreeNoMark(t, parent);
      }
    }
  }

  /** So every relocation finishes. */
  lemma {:induction false} RelocateFinishes<K, V>(t: Table<K, V>, home: K -> nat, keys: set<K>, block: nat, it: nat,
                                                  parent: nat, bound: nat)
    requires Cut(t, home, it, parent) && RanksBelow(t, bound) && block < t.n && ReservedOnly(t, block)
    requires it == block || t.ctrl[block] == RESERVED
    requires t.ctrl[block] == RESERVED ==> t.rank[parent] >= 1
    requires t.pos.Keys <= keys && |t.pos| < |keys| && block in HomeSet(home, keys)
    requires Open(home, keys, t.n) && Excess(home, keys) != 0
    ensures Relocate(t, home, block, it, parent, bound).1
    decreases bound - t.rank[it]
  {
    hide Step, HeadOk, NextOk, PrevOk, BytellChains.Contents, Chained, ReservedOnly, Untouched, Open, Excess, HomeSet;
    CutFacts(t, home, it, parent);
    var j := FirstFree(t.ctrl, t.n, parent, 1);
    MoveNotStuck(t, home, keys, block, it, parent);
    OneMove(t, home, block, it, parent, j, bound);
    if t.HasNext(it) {
      var f, nx := Step(parent, j, t.n), Next(t, it);
      var u := Move(t, it, parent, f, j, Left(block, it, true));
      KeptSize(t, u);
      assert u.rank[f] == t.rank[it] == t.rank[parent] + 1;
      RelocateFinishes(u, home, keys, block, nx, f, bound);
    }
  }

  lemma OnlyAnywhere<K, V>(t: Table<K, V>, block: int)
    requires ReservedOnly(t, -1)
    ensures ReservedOnly(t, block)
    ensures forall i :: 0 <= i < |t.ctrl| ==> t.ctrl[i] != RESERVED
  {
  }

  /** When all homes are different the home slot of a key that is not stored is empty: no link is ever needed. */
  lemma OwnHomeEmpty<K, V>(t: Table<K, V>, home: K -> nat, keys: set<K>, key: K)
    requires Chained(t, home) && ReservedOnly(t, -1) && home(key) < t.n
    requires key in keys && key !in t.pos && t.pos.Keys <= keys && Excess(home, keys) == 0
    ensures t.ctrl[home(key)] == EMPTY
  {
    hide HeadOk, NextOk, PrevOk, Excess;
    var b := home(key);
    if t.ctrl[b] != EMPTY {
      NoExcess(home, keys);
      NotReserved(t, b);
      MetAt(t, b);
      HeadOfChain(t, home, b);
      var h := home(KeyAt(t, b));
      MetAt(t, h);
      assert false;
    }
  }

  /** Below the load factor an open table takes any of the keys without growing. */
  lemma OpenInserts<K, V>(t: Table<K, V>, home: K -> nat, keys: set<K>, pair: (K, V), bound: nat)
    requires Chained(t, home) && RanksBelow(t, bound) && ReservedOnly(t, -1) && home(pair.0) < t.n
    requires pair.0 in keys && pair.0 !in t.pos && t.pos.Keys <= keys
    requires !AtCapacity(t.n, |t.pos|) && Open(home, keys, t.n)
    ensures InsertStep(t, home, pair, bound).Some?
  {
    hide Step, HeadOk, NextOk, PrevOk, Relocate, FirstFree, Tail, RanksBelow, ReservedOnly, Excess, Reach;
    var b := home(pair.0);
    OnlyAnywhere(t, b);
    SubsetSize(t.pos.Keys + {pair.0}, keys);
    assert |t.pos.Keys| == |t.pos|;
    if t.ctrl[b] != EMPTY {
      if Excess(home, keys) == 0 {
        OwnHomeEmpty(t, home, keys, pair.0);
      }
      SlotInUse(t, b);
      if IsDirect(t.ctrl[b]) {
        TailNotStuck(t, home, keys, Tail(t, home, b, bound));
      } else {
        CutAnywhere(t, home, b);
        RelocateFinishes(t, home, keys, b, b, t.pred[b], bound);
      }
    }
  }

  lemma TailNotStuck<K, V>(t: Table<K, V>, home: K -> nat, keys: set<K>, p: nat)
    requires Chained(t, home) && ReservedOnly(t, -1) && t.Full(p) && p < t.n
    requires t.pos.Keys <= keys && |t.pos| < |keys| && Open(home, keys, t.n) && Excess(home, keys) != 0
    ensures FirstFree(t.ctrl, t.n, p, 1) != 0
  {
    hide HeadOk, NextOk, PrevOk, Reach, FirstFree, HomeSet, Excess;
    ChainedHeaded(t, home);
    if FirstFree(t.ctrl, t.n, p, 1) == 0 {
      NoneFree(t, home, keys, p, -1);
      NoneFreeNoMark(t, p);
    }
  }

  // ----- The sizes asked for -----

  /** The number of slots `rehash` asks the policy for: at least ceil(elements / 0.9375). */
  function Requested(num: nat, elements: nat): nat {
    var needed := (16 * elements + 14) / 15;
    if num < needed then needed else num
  }

  /** What `grow` asks for; a single slot counts as no bucket. */
  function GrowRequest(n: nat, elements: nat): (q: nat)
    ensures q >= 10 && (n != 1 ==> q >= 2 * n)
  {
    Requested(if n == 1 || 2 * n < 10 then 10 else 2 * n, elements)
  }

  /** The smallest number not below the one asked for at which the load factor of 15/16 is kept. */
  lemma RequestedIsLeast(num: nat, elements: nat, q: nat)
    ensures Requested(num, elements) >= num && 16 * elements <= 15 * Requested(num, elements)
    ensures q >= num && 16 * elements <= 15 * q ==> Requested(num, elements) <= q
  {
  }

  /** Growing asks for twice the slots, ten at least: the number of elements never matters. */
  lemma GrowthDoubles(n: nat, elements: nat)
    requires n >= 1 && WithinLoad(elements, n)
    ensures GrowRequest(n, elements) == if n < 5 then 10 else 2 * n
  {
  }

  /** A table of n slots holding some of the keys may have to grow before it takes another. */
  ghost predicate Needed<K>(hash: K -> nat, keys: set<K>, n: nat, elements: nat)
    requires n >= 1
  {
    AtCapacity(n, elements) || !Open(Homes(hash, n), keys, n)
  }

  /** No growth for a total of at most 126 elements asks for more than this. */
  function GrowthBound(total: nat): nat
    requires total <= NUM_JUMPS
  {
    10 + 4 * total + 2 * (if total < NUM_JUMPS then JumpDistance(total) else BEYOND)
  }

  /** A table that need grow is small: at the load limit, or no larger than the jump to come. */
  lemma RequestBounded<K>(hash: K -> nat, keys: set<K>, n: nat, elements: nat)
    requires n >= 1 && elements < |keys| <= NUM_JUMPS && Needed(hash, keys, n, elements)
    ensures GrowRequest(n, elements) <= GrowthBound(|keys|)
  {
    hide JumpDistance, ShortJumps, Open;
    if n > 1 && !AtCapacity(n, elements) {
      if |keys| == NUM_JUMPS && n > BEYOND {
        VeryLargeIsOpen(Homes(hash, n), keys, n);
      } else if |keys| < NUM_JUMPS {
        var m := ShortJumps(n);
        if m > |keys| {
          FewAreOpen(Homes(hash, n), keys, n);
        } else if m < |keys| {
          JumpsIncrease(m, |keys|);
        }
        assert JumpDistance(|keys|) >= n;
      }
    }
  }

  /** After one growth the load factor leaves room for the elements there were and one more. */
  lemma GrownHasCapacity(n: nat, elements: nat, larger: nat)
    requires n >= 1 && WithinLoad(elements, n) && larger >= GrowRequest(n, elements)
    ensures larger >= 10 && larger >= 2 * n && 16 * (elements + 1) <= 15 * larger && !AtCapacity(larger, elements)
  {
  }

  /** For up to 14 elements the first growth is always enough. */
  lemma FewFitAfterGrowth(n: nat, elements: nat, larger: nat)
    requires n >= 1 && WithinLoad(elements, n) && elements <= 14 && larger >= GrowRequest(n, elements)
    ensures elements + 1 < ShortJumps(larger)
  {
    hide ShortJumps;
    GrownHasCapacity(n, elements, larger);
    if ShortJumps(larger) < 16 {
      assert JumpDistance(ShortJumps(larger)) == ShortJumps(larger);
    }
  }

  // ----- Keys that fit no table -----

  /** Two keys of one hash, and for each of the 125 jump distances a key whose hash is that much larger. */
  ghost predicate Unfit<K>(hash: K -> nat, keys: set<K>, k0: K, k1: K, blocker: nat -> K) {
    && k0 in keys && k1 in keys && k0 != k1 && hash(k0) == hash(k1)
    && forall j :: 1 <= j < NUM_JUMPS ==> blocker(j) in keys && hash(blocker(j)) == hash(k0) + JumpDistance(j)
  }

  lemma HomeAway<K>(hash: K -> nat, n: nat, k0: K, kb: K, j: nat)
    requires n >= 1 && 1 <= j < NUM_JUMPS && hash(kb) == hash(k0) + JumpDistance(j)
    ensures Homes(hash, n)(kb) == Step(Homes(hash, n)(k0), j, n)
  {
    hide JumpDistance, Step;
    FindStepsLikeNext(Homes(hash, n)(k0), j, n);
    ModSum(hash(k0), JumpDistance(j), n);
  }

  /** The slot a jump away from a key's home heads a chain of its own if a stored key's hash is that much
      larger. */
  lemma BlockedSlot<K, V>(t: Table<K, V>, hash: K -> nat, k0: K, kb: K, j: nat)
    requires t.n >= 1 && Chained(t, Homes(hash, t.n)) && kb in t.pos
    requires 1 <= j < NUM_JUMPS && hash(kb) == hash(k0) + JumpDistance(j)
    ensures var s := Step(Homes(hash, t.n)(k0), j, t.n); t.Full(s) && IsDirect(t.ctrl[s])
  {
    hide HeadOk, NextOk, PrevOk, Step, JumpDistance;
    StoredAt(t, kb);
    HeadOfChain(t, Homes(hash, t.n), t.pos[kb]);
    HomeAway(hash, t.n, k0, kb, j);
  }

  /** A head whose chain holds a second key has a link. */
  lemma HeadHasNext<K, V>(t: Table<K, V>, home: K -> nat, b: nat, k: K)
    requires Chained(t, home) && t.Full(b) && IsDirect(t.ctrl[b]) && home(KeyAt(t, b)) == b
    requires k in t.pos && home(k) == b && t.pos[k] != b
    ensures t.HasNext(b)
  {
    hide NextOk, PrevOk;
    StoredAt(t, k);
    assert HeadOk(t, home, b) && HeadOk(t, home, t.pos[k]);
    EarlierHasNext(t, home, b, t.pos[k]);
  }

  /** No table of any size holds such keys: the head of the two keys' chain must link to the other, and every slot
      a link could lead to heads another chain. */
  lemma NoTableHolds<K, V>(t: Table<K, V>, hash: K -> nat, k0: K, k1: K, blocker: nat -> K)
    requires t.n >= 1 && Chained(t, Homes(hash, t.n))
    ensures !Unfit(hash, t.pos.Keys, k0, k1, blocker)
  {
    hide HeadOk, PrevOk, Step, JumpDistance;
    if Unfit(hash, t.pos.Keys, k0, k1, blocker) {
      var home := Homes(hash, t.n);
      var b := home(k0);
      StoredAt(t, k0);
      StoredAt(t, k1);
      HeadOfChain(t, home, t.pos[k0]);
      HeadHasNext(t, home, b, if t.pos[k0] != b then k0 else k1);
      assert NextOk(t, home, b);
      var j := Jump(t.ctrl[b]);
      BlockedSlot(t, hash, k0, blocker(j), j);
      assert false;
    }
  }

  /** So the last of them to come cannot be inserted, at any table size. */
  lemma GrowthCannotHelp<K, V>(t: Table<K, V>, hash: K -> nat, k0: K, blocker: nat -> K, pair: (K, V), bound: nat)
    requires t.n >= 1 && Chained(t, Homes(hash, t.n)) && RanksBelow(t, bound) && ReservedOnly(t, -1)
    requires pair.0 !in t.pos && Unfit(hash, t.pos.Keys + {pair.0}, k0, pair.0, blocker)
    ensures InsertStep(t, Homes(hash, t.n), pair, bound) == None
  {
    hide HeadOk, NextOk, PrevOk, Stored, ReservedOnly, RanksBelow, JumpDistance, InsertStep, Contents, Homes;
    HomesBelow(hash, t.n, pair.0);
    if InsertStep(t, Homes(hash, t.n), pair, bound).Some? {
      var u := InsertStep(t, Homes(hash, t.n), pair, bound).value;
      InsertSound(t, Homes(hash, t.n), pair, bound);
      InsertedKeys(t, u, pair);
      NoTableHolds(u, hash, k0, pair.0, blocker);
      assert false;
    }
  }

  lemma InsertedKeys<K, V>(t: Table<K, V>, u: Table<K, V>, pair: (K, V))
    requires Stored(t) && Stored(u) && Contents(u) == Contents(t)[pair.0 := pair.1]
    ensures u.pos.Keys == t.pos.Keys + {pair.0}
  {
    assert Contents(u).Keys == u.pos.Keys && Contents(t).Keys == t.pos.Keys;
  }

  // ----- Such keys exist -----

  /** A key that is its own hash, with a tag to tell equal hashes apart. */
  type Tagged = (nat, nat)

  function TaggedHash(k: Tagged): nat { k.0 }

  function TaggedBlocker(j: nat): Tagged {
    if j < NUM_JUMPS then (JumpDistance(j), 0) else (0, 0)
  }

  function TaggedKeys(m: nat): (keys: set<Tagged>)
    requires 1 <= m <= NUM_JUMPS
    ensures forall j :: 1 <= j < m ==> TaggedBlocker(j) in keys
    ensures (0, 0) in keys && (0, 1) in keys && |keys| == m + 1
    ensures forall k :: k in keys ==> k.0 <= JumpDistance(m - 1)
  {
    if m == 1 then {(0, 0), (0, 1)}
    else
      JumpsStep(m - 2);
      TaggedKeys(m - 1) + {TaggedBlocker(m - 1)}
  }

  lemma BlockerAt(j: nat)
    requires j < NUM_JUMPS
    ensures TaggedHash(TaggedBlocker(j)) == JumpDistance(j)
  {
  }

  lemma BlockersFit()
    ensures forall j: nat :: TaggedHash(TaggedBlocker(j)) < 0x1_0000_0000_0000_0000
  {
    hide JumpDistance;
  }

  /** The hashes 0, twice, and the 125 jump distances: 127 keys, with hashes below 2^64. */
  lemma UnfitKeys()
    ensures |TaggedKeys(NUM_JUMPS)| == 127
    ensures Unfit(TaggedHash, TaggedKeys(NUM_JUMPS), (0, 0), (0, 1), TaggedBlocker)
    ensures forall j: nat :: TaggedHash(TaggedBlocker(j)) < 0x1_0000_0000_0000_0000
  {
    hide JumpDistance, TaggedBlocker, TaggedKeys;
    BlockersFit();
    forall j: nat | 1 <= j < NUM_JUMPS
      ensures TaggedBlocker(j) in TaggedKeys(NUM_JUMPS) && TaggedHash(TaggedBlocker(j)) == JumpDistance(j)
    {
      BlockerAt(j);
    }
  }
}
