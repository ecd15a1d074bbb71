/** A whole insertion into the bytell table, growth and refused allocations included, as a function on table values:
    which table comes out, or which allocation is refused. */
module BytellGrowth {
  import opened Wrappers
  import opened HashPolicy
  import opened BytellTable
  import opened BytellChains
  import opened BytellInsert
  import opened BytellRoom

  /** A result, or the size of an allocation that was refused (`bad_alloc`). */
  datatype Outcome<+T> = Done(value: T) | Refused(size: nat)

  /** The hash, `next_size_over` of the hash policy, and the most slots the allocator grants. */
  datatype Policy<-K> = Policy(hash: K -> nat, nextSize: nat -> nat, maxSlots: nat)
  {
    ghost predicate Rising() { forall x: nat :: nextSize(x) >= x }

    /** The size that `grow` asks the allocator for. */
    function NextFor(n: nat, elements: nat): nat { nextSize(GrowRequest(n, elements)) }
  }

  /** A table in order between two calls. */
  ghost predicate Sound<K, V>(h: Policy<K>, t: Table<K, V>) {
    && Stored(t) && Chained(t, Homes(h.hash, t.n)) && ReservedOnly(t, -1)
    && WithinLoad(|t.pos|, t.n) && t.n <= h.maxSlots
  }

  lemma SoundFacts<K, V>(h: Policy<K>, t: Table<K, V>)
    requires Sound(h, t)
    ensures Stored(t) && 1 <= t.n <= h.maxSlots && WithinLoad(|t.pos|, t.n)
  {
  }

  /** Enough for a rehash. */
  ghost predicate Scannable<K, V>(t: Table<K, V>) {
    Stored(t) && WithinLoad(|t.pos|, t.n)
  }

  /** A result is a table in order with these contents, no smaller than n. */
  ghost predicate Holds<K, V>(h: Policy<K>, m: map<K, V>, n: nat, r: Outcome<Table<K, V>>) {
    r.Done? ==> Sound(h, r.value) && Contents(r.value) == m && r.value.n >= n
  }

  lemma HoldsRefused<K, V>(h: Policy<K>, m: map<K, V>, n: nat)
    ensures forall size :: Holds(h, m, n, Refused(size))
  {
  }

  lemma HoldsSmaller<K, V>(h: Policy<K>, m: map<K, V>, n: nat, larger: nat, r: Outcome<Table<K, V>>)
    requires Holds(h, m, larger, r) && n <= larger
    ensures Holds(h, m, n, r)
  {
  }

  /** n slots, all empty. */
  ghost function Empty<K, V>(n: nat): Table<K, V> {
    Table(n, seq(n, _ => EMPTY), seq(n, _ => None), seq(n, _ => 0), seq(n, _ => 0), map[])
  }

  lemma EmptyIsSound<K, V>(h: Policy<K>, n: nat)
    requires 1 <= n <= h.maxSlots
    ensures Stored<K, V>(Empty(n)) && Sound<K, V>(h, Empty(n)) && Contents<K, V>(Empty(n)) == map[]
  {
    var t: Table<K, V> := Empty(n);
    assert Stored(t);
  }

  /** The insertion of a new key where it fits. */
  ghost function Fitted<K, V>(h: Policy<K>, t: Table<K, V>, pair: (K, V)): (r: Option<Table<K, V>>)
    requires Sound(h, t)
  {
    Bounded(t);
    HomesBelow(h.hash, t.n, pair.0);
    InsertStep(t, Homes(h.hash, t.n), pair, RankBound(t.rank))
  }

  lemma FittedIsSound<K, V>(h: Policy<K>, t: Table<K, V>, pair: (K, V))
    requires Sound(h, t) && pair.0 !in t.pos
    ensures var r := Fitted(h, t, pair);
            r.Some? ==> Holds(h, Contents(t)[pair.0 := pair.1], t.n, Done(r.value)) && r.value.n == t.n
                        && Stored(r.value) && Contents(r.value) == Contents(t)[pair.0 := pair.1]
                        && Sound(h, r.value) && |r.value.pos| == |t.pos| + 1
  {
    hide Stored, Chained, ReservedOnly, Contents, Homes, RanksBelow, RankBound, Relocate, Tail, FirstFree;
    Sizes(t);
    Bounded(t);
    HomesBelow(h.hash, t.n, pair.0);
    var r := Fitted(h, t, pair);
    if r.Some? {
      InsertSound(t, Homes(h.hash, t.n), pair, RankBound(t.rank));
      LoadAfterInsert(t.n, |r.value.pos|);
    }
  }

  /** A new key fits only if it does not exceed 15/16 of the slots, one slot counting as none, and then it does where
      its home slot is empty. */
  lemma LoadDecides<K, V>(h: Policy<K>, t: Table<K, V>, pair: (K, V))
    requires Sound(h, t)
    ensures t.n == 1 || 16 * (|t.pos| + 1) > 15 * t.n ==> Fitted(h, t, pair).None?
    ensures t.n > 1 && 16 * (|t.pos| + 1) <= 15 * t.n && t.ctrl[Homes(h.hash, t.n)(pair.0)] == EMPTY ==>
              Fitted(h, t, pair) == Some(PutDirect(t, Homes(h.hash, t.n)(pair.0), pair))
  {
    hide Stored, HeadOk, NextOk, PrevOk, RanksBelow, RankBound, Relocate, Tail, FirstFree, PutDirect, Chained;
  }

  /** What a failed attempt leaves to be rehashed: the table itself, or one whose relocation got stuck. */
  ghost function Abandoned<K, V>(h: Policy<K>, t: Table<K, V>, pair: (K, V)): Table<K, V>
    requires Sound(h, t)
  {
    var home := Homes(h.hash, t.n);
    var b := home(pair.0);
    if AtCapacity(t.n, |t.pos|) || !t.Full(b) || IsDirect(t.ctrl[b]) then t
    else
      Bounded(t);
      CutAnywhere(t, home, b);
      Relocate(t, home, b, b, t.pred[b], RankBound(t.rank)).0
  }

  /** Only a relocation changes anything before growing. */
  lemma NothingAbandoned<K, V>(h: Policy<K>, t: Table<K, V>, pair: (K, V))
    requires Sound(h, t)
    ensures AtCapacity(t.n, |t.pos|) ==> Fitted(h, t, pair).None?
    ensures var b := Homes(h.hash, t.n)(pair.0);
            AtCapacity(t.n, |t.pos|) || !t.Full(b) || IsDirect(t.ctrl[b]) ==> Abandoned(h, t, pair) == t
  {
    hide Stored, HeadOk, NextOk, PrevOk;
  }

  /** The three ways to find room: an empty home slot, a free slot for the end of the chain, a relocation. */
  lemma FitsAtHome<K, V>(h: Policy<K>, t: Table<K, V>, pair: (K, V), b: nat)
    requires Sound(h, t) && b == Homes(h.hash, t.n)(pair.0) < t.n && !AtCapacity(t.n, |t.pos|)
    requires b < |t.ctrl| && t.ctrl[b] == EMPTY
    ensures Fitted(h, t, pair) == Some(PutDirect(t, b, pair))
  {
    hide Stored, HeadOk, NextOk, PrevOk, RanksBelow, RankBound, Relocate, Tail, FirstFree, PutDirect, Chained;
  }

  lemma FitsAtEnd<K, V>(h: Policy<K>, t: Table<K, V>, pair: (K, V), p: nat)
    requires Sound(h, t) && !AtCapacity(t.n, |t.pos|)
    requires var b := Homes(h.hash, t.n)(pair.0); b < t.n && t.Full(b) && IsDirect(t.ctrl[b])
    requires RanksBelow(t, RankBound(t.rank)) && p == Tail(t, Homes(h.hash, t.n), Homes(h.hash, t.n)(pair.0), RankBound(t.rank))
    ensures t.Full(p) && p < t.n == |t.ctrl| && p < |t.pred|
    ensures var j := FirstFree(t.ctrl, t.n, p, 1);
            if j == 0 then Fitted(h, t, pair) == None
            else j < NUM_JUMPS && Step(p, j, t.n) != p && Fitted(h, t, pair) == Some(PutTail(t, p, Step(p, j, t.n), j, pair))
  {
    hide HeadOk, NextOk, PrevOk, RanksBelow, RankBound, Relocate, Tail, FirstFree, PutTail, Chained, Step, ReservedOnly;
  }

  lemma FitsByMoving<K, V>(h: Policy<K>, t: Table<K, V>, pair: (K, V), b: nat)
    requires Sound(h, t) && b == Homes(h.hash, t.n)(pair.0) < t.n && !AtCapacity(t.n, |t.pos|)
    requires t.Full(b) && !IsDirect(t.ctrl[b])
    ensures b < |t.pred| && Cut(t, Homes(h.hash, t.n), b, t.pred[b]) && RanksBelow(t, RankBound(t.rank))
    ensures var (u, ok) := Relocate(t, Homes(h.hash, t.n), b, b, t.pred[b], RankBound(t.rank));
            && Abandoned(h, t, pair) == u && Stored(u) && u.n == t.n
            && Fitted(h, t, pair) == if ok then Some(PutDirect(u, b, pair)) else None
  {
    hide HeadOk, NextOk, PrevOk, RanksBelow, RankBound, Relocate, Tail, FirstFree, PutDirect, Stored, ReservedOnly;
    Sizes(t);
    Bounded(t);
    CutAnywhere(t, Homes(h.hash, t.n), b);
    InsertIsRelocate(t, Homes(h.hash, t.n), pair, RankBound(t.rank));
  }

  lemma AbandonedKeeps<K, V>(h: Policy<K>, t: Table<K, V>, pair: (K, V))
    requires Sound(h, t)
    ensures var u := Abandoned(h, t, pair);
            Scannable(u) && u.n == t.n && Contents(u) == Contents(t) && u.pos.Keys == t.pos.Keys && |u.pos| == |t.pos|
  {
    hide HeadOk, NextOk, PrevOk, Contents, Relocate, RanksBelow, RankBound, ReservedOnly, WithinLoad, Stored;
    Sizes(t);
    var home := Homes(h.hash, t.n);
    var b := home(pair.0);
    HomesBelow(h.hash, t.n, pair.0);
    if !(AtCapacity(t.n, |t.pos|) || !t.Full(b) || IsDirect(t.ctrl[b])) {
      Bounded(t);
      CutAnywhere(t, home, b);
      OnlyAnywhere(t, b);
      RelocateKeeps(t, home, b, b, t.pred[b], RankBound(t.rank));
      KeptSize(t, Abandoned(h, t, pair));
    }
  }

  /** The next slot of a scan: nothing, or a pair that was not met before. */
  lemma NextScanned<K, V>(left: Table<K, V>, i: nat, t: Table<K, V>)
    requires Stored(left) && Stored(t) && i < left.n && Contents(t) == Scanned(left, i)
    ensures i < |left.slot|
    ensures !left.Full(i) ==> Contents(t) == Scanned(left, i + 1)
    ensures left.Full(i) ==>
              var x := left.slot[i];
              x.Some? && x.value.0 !in t.pos && Contents(t)[x.value.0 := x.value.1] == Scanned(left, i + 1)
  {
    ScanStep(left, i);
    ContentsSize(t);
    FullSlots(left);
  }

  /** A pair in hand is as new to the rebuilt table as it was to the old one. */
  lemma StillNew<K, V>(h: Policy<K>, t: Table<K, V>, u: Table<K, V>, n: nat, pair: (K, V))
    requires Stored(t) && pair.0 !in t.pos && Holds(h, Contents(t), n, Done(u))
    ensures Sound(h, u) && u.n >= n && pair.0 !in u.pos && Stored(u) && Contents(u) == Contents(t)
    ensures u.pos.Keys == t.pos.Keys
  {
    ContentsSize(t);
    ContentsSize(u);
    assert u.pos.Keys == Contents(u).Keys && t.pos.Keys == Contents(t).Keys;
  }

  /** `emplace` of a key that is not there: where it fits, or after growing. */
  ghost function Insert<K, V>(h: Policy<K>, t: Table<K, V>, pair: (K, V)): (r: Outcome<Table<K, V>>)
    requires h.Rising() && Sound(h, t) && pair.0 !in t.pos
    ensures Holds(h, Contents(t)[pair.0 := pair.1], t.n, r)
    decreases Room(h.maxSlots, t.n), 1, 0
  {
    hide Stored, Chained, ReservedOnly, Contents, Homes, WithinLoad, Fitted, Abandoned, Sound, GrowRequest, Holds;
    SoundFacts(h, t);
    FittedIsSound(h, t, pair);
    if Fitted(h, t, pair).Some? then Done(Fitted(h, t, pair).value)
    else
      AbandonedKeeps(h, t, pair);
      var r := Regrown(h, Abandoned(h, t, pair), pair);
      HoldsSmaller(h, Contents(t)[pair.0 := pair.1], t.n, h.NextFor(t.n, |t.pos|), r);
      r
  }

  /** `grow(); return emplace(...)`. */
  ghost function Regrown<K, V>(h: Policy<K>, left: Table<K, V>, pair: (K, V)): (r: Outcome<Table<K, V>>)
    requires h.Rising() && Stored(left) && left.n <= h.maxSlots && pair.0 !in left.pos
    ensures Holds(h, Contents(left)[pair.0 := pair.1], h.NextFor(left.n, |left.pos|), r)
    decreases Room(h.maxSlots, left.n), 0, 0
  {
    hide Stored, Chained, ReservedOnly, Contents, Homes, WithinLoad, Sound, GrowRequest, Holds;
    var size := h.NextFor(left.n, |left.pos|);
    var g := Rehashed(h, left, size);
    HoldsRefused(h, Contents(left)[pair.0 := pair.1], size);
    if g.Refused? then Refused(g.size)
    else
      StillNew(h, left, g.value, size, pair);
      var r := Insert(h, g.value, pair);
      HoldsSmaller(h, Contents(left)[pair.0 := pair.1], size, g.value.n, r);
      r
  }

  /** `rehash` into a new array. */
  ghost function Rehashed<K, V>(h: Policy<K>, left: Table<K, V>, size: nat): (r: Outcome<Table<K, V>>)
    requires h.Rising() && Stored(left) && size >= 1
    ensures Holds(h, Contents(left), size, r)
    decreases Room(h.maxSlots, size), 3, 0
  {
    hide Stored, Chained, ReservedOnly, Contents, Homes, WithinLoad, Sound;
    if size > h.maxSlots then Refused(size)
    else
      EmptyIsSound<K, V>(h, size);
      ScanEnds(left);
      Rebuild(h, left, 0, Empty(size))
  }

  /** Its scan, from slot i of the old table on. */
  ghost function Rebuild<K, V>(h: Policy<K>, left: Table<K, V>, i: nat, t: Table<K, V>): (r: Outcome<Table<K, V>>)
    requires h.Rising() && Stored(left) && i <= left.n && Sound(h, t) && Contents(t) == Scanned(left, i)
    ensures Holds(h, Contents(left), t.n, r)
    decreases Room(h.maxSlots, t.n), 2, left.n - i
  {
    hide Stored, Chained, ReservedOnly, Contents, Homes, WithinLoad, Scanned, Sound;
    SoundFacts(h, t);
    ScanEnds(left);
    if i == left.n then Done(t)
    else
      NextScanned(left, i, t);
      if !left.Full(i) then Rebuild(h, left, i + 1, t)
      else
        var r := Insert(h, t, left.slot[i].value);
        if r.Refused? then Refused(r.size) else Rebuild(h, left, i + 1, r.value)
  }

  lemma InsertUnfolds<K, V>(h: Policy<K>, t: Table<K, V>, pair: (K, V))
    requires h.Rising() && Sound(h, t) && pair.0 !in t.pos
    ensures Fitted(h, t, pair).Some? ==> Insert(h, t, pair) == Done(Fitted(h, t, pair).value)
    ensures Fitted(h, t, pair).None? ==>
              var u := Abandoned(h, t, pair);
              && Stored(u) && u.n == t.n <= h.maxSlots && u.pos.Keys == t.pos.Keys
              && Insert(h, t, pair) == Regrown(h, u, pair)
  {
    hide Stored, Chained, ReservedOnly, Contents, Homes, WithinLoad, Fitted, Abandoned, GrowRequest, Holds;
    AbandonedKeeps(h, t, pair);
  }

  lemma RebuildUnfolds<K, V>(h: Policy<K>, left: Table<K, V>, i: nat, t: Table<K, V>)
    requires h.Rising() && Stored(left) && i < left.n && Sound(h, t) && Contents(t) == Scanned(left, i)
    ensures i < |left.slot|
    ensures !left.Full(i) ==> Contents(t) == Scanned(left, i + 1) && Rebuild(h, left, i, t) == Rebuild(h, left, i + 1, t)
    ensures left.Full(i) ==>
              && left.slot[i].Some? && left.slot[i].value.0 !in t.pos
              && var r := Insert(h, t, left.slot[i].value);
              && (r.Refused? ==> Rebuild(h, left, i, t) == Refused(r.size))
              && (r.Done? ==> Sound(h, r.value) && Contents(r.value) == Scanned(left, i + 1)
                              && Rebuild(h, left, i, t) == Rebuild(h, left, i + 1, r.value))
  {
    hide Stored, Chained, ReservedOnly, Contents, Homes, WithinLoad, Scanned, Sound, Insert;
    SoundFacts(h, t);
    NextScanned(left, i, t);
  }

  /** The scan is over; that of a single slot, which counts as no bucket, at once. */
  lemma ScanOver<K, V>(h: Policy<K>, left: Table<K, V>, i: nat, t: Table<K, V>)
    requires h.Rising() && Stored(left) && Sound(h, t) && Contents(t) == Scanned(left, i)
    requires i == (if left.n == 1 then 0 else left.n) && (left.n == 1 ==> left.pos == map[])
    ensures Rebuild(h, left, i, t) == Done(t) && Contents(t) == Contents(left) && |t.pos| == |left.pos|
  {
    hide Chained, Holds, Contents, Scanned;
    ScanEnds(left);
    ContentsSize(left);
    ContentsSize(t);
    if i < left.n {
      NextScanned(left, i, t);
      assert Rebuild(h, left, i, t) == Rebuild(h, left, left.n, t);
    }
  }

  lemma RehashedUnfolds<K, V>(h: Policy<K>, left: Table<K, V>, size: nat)
    requires h.Rising() && Stored(left) && 1 <= size <= h.maxSlots
    ensures Stored<K, V>(Empty(size)) && Sound<K, V>(h, Empty(size)) && Contents<K, V>(Empty(size)) == Scanned(left, 0) == map[]
    ensures Rehashed(h, left, size) == Rebuild(h, left, 0, Empty(size))
  {
    hide Chained, Holds, Sound, Contents, Rebuild, Stored, Scanned;
    EmptyIsSound<K, V>(h, size);
    ScanEnds(left);
  }

  /** Erasing keeps a table in order. */
  lemma DropIsSound<K, V>(h: Policy<K>, t: Table<K, V>, current: nat, last: nat)
    requires Sound(h, t) && t.Full(current) && t.Full(last) && !t.HasNext(last)
    requires |t.slot| == |t.ctrl| && t.slot[current].Some? && t.slot[last].Some?
    requires Homes(h.hash, t.n)(KeyAt(t, current)) == Homes(h.hash, t.n)(KeyAt(t, last))
    requires current == last || !IsDirect(t.ctrl[last])
    ensures Stored(t) && Stored(Drop(t, current, last)) && Sound(h, Drop(t, current, last))
    ensures Contents(Drop(t, current, last)) == Contents(t) - {KeyAt(t, current)}
    ensures |Drop(t, current, last).pos| == |t.pos| - 1
  {
    hide Stored, Chained, ReservedOnly, Contents, Drop, WithinLoad;
    DropAll(t, Homes(h.hash, t.n), current, last);
    FewerWithinLoad(|t.pos|, |t.pos| - 1, t.n);
  }

  // ----- The sizes asked for -----

  /** A table of n slots may grow to m on the way to holding these keys: each time because it may have to, with
      some of them stored, and to a size that is granted. */
  ghost predicate Grows<K>(h: Policy<K>, keys: set<K>, n: nat, m: nat)
    requires n >= 1
    decreases Room(h.maxSlots, n)
  {
    || n == m
    || exists e: nat ::
         && e < |keys| && Needed(h.hash, keys, n, e)
         && n < h.NextFor(n, e) <= h.maxSlots && Grows(h, keys, h.NextFor(n, e), m)
  }

  /** On that way a size is asked for that is not granted. */
  ghost predicate Denied<K>(h: Policy<K>, keys: set<K>, n: nat, size: nat)
    requires n >= 1
    decreases Room(h.maxSlots, n)
  {
    exists e: nat ::
      && e < |keys| && Needed(h.hash, keys, n, e)
      && if h.NextFor(n, e) > h.maxSlots then size == h.NextFor(n, e)
         else n < h.NextFor(n, e) && Denied(h, keys, h.NextFor(n, e), size)
  }

  lemma {:induction false} GrowsFurther<K>(h: Policy<K>, keys: set<K>, n: nat, m: nat, l: nat)
    requires n >= 1 && m >= 1 && Grows(h, keys, n, m) && Grows(h, keys, m, l)
    ensures Grows(h, keys, n, l)
    decreases Room(h.maxSlots, n)
  {
    hide Needed;
    if n != m {
      var e: nat :| e < |keys| && Needed(h.hash, keys, n, e)
                    && n < h.NextFor(n, e) <= h.maxSlots && Grows(h, keys, h.NextFor(n, e), m);
      GrowsFurther(h, keys, h.NextFor(n, e), m, l);
    }
  }

  lemma {:induction false} GrowsThenDenied<K>(h: Policy<K>, keys: set<K>, n: nat, m: nat, size: nat)
    requires n >= 1 && m >= 1 && Grows(h, keys, n, m) && Denied(h, keys, m, size)
    ensures Denied(h, keys, n, size)
    decreases Room(h.maxSlots, n)
  {
    hide Needed;
    if n != m {
      var e: nat :| e < |keys| && Needed(h.hash, keys, n, e)
                    && n < h.NextFor(n, e) <= h.maxSlots && Grows(h, keys, h.NextFor(n, e), m);
      GrowsThenDenied(h, keys, h.NextFor(n, e), m, size);
    }
  }

  lemma {:induction false} DeniedIsTooLarge<K>(h: Policy<K>, keys: set<K>, n: nat, size: nat)
    requires n >= 1 && Denied(h, keys, n, size)
    ensures size > h.maxSlots
    decreases Room(h.maxSlots, n)
  {
    hide Needed;
    var e: nat :| e < |keys| && Needed(h.hash, keys, n, e)
                  && if h.NextFor(n, e) > h.maxSlots then size == h.NextFor(n, e)
                     else n < h.NextFor(n, e) && Denied(h, keys, h.NextFor(n, e), size);
    if h.NextFor(n, e) <= h.maxSlots {
      DeniedIsTooLarge(h, keys, h.NextFor(n, e), size);
    }
  }

  /** An open table with room for all the keys never grows. */
  lemma OpenStays<K>(h: Policy<K>, keys: set<K>, n: nat)
    requires n >= 1 && Open(Homes(h.hash, n), keys, n) && 16 * |keys| <= 15 * n
    ensures forall m :: Grows(h, keys, n, m) ==> m == n
    ensures forall size :: !Denied(h, keys, n, size)
  {
    hide Open;
  }

  /** The allocator grants every size that up to 126 elements can make the table ask for. */
  ghost predicate Affordable<K>(h: Policy<K>, total: nat) {
    total <= NUM_JUMPS && forall q: nat :: q <= GrowthBound(total) ==> h.nextSize(q) <= h.maxSlots
  }

  lemma {:induction false} AffordableNotDenied<K>(h: Policy<K>, keys: set<K>, n: nat, size: nat)
    requires n >= 1 && Affordable(h, |keys|)
    ensures !Denied(h, keys, n, size)
    decreases Room(h.maxSlots, n)
  {
    hide Needed, GrowRequest, GrowthBound;
    forall e: nat | e < |keys| && Needed(h.hash, keys, n, e)
      ensures h.NextFor(n, e) <= h.maxSlots && (n < h.NextFor(n, e) ==> !Denied(h, keys, h.NextFor(n, e), size))
    {
      RequestBounded(h.hash, keys, n, e);
      if n < h.NextFor(n, e) {
        AffordableNotDenied(h, keys, h.NextFor(n, e), size);
      }
    }
  }

  /** The size of the result was grown to, or the refused size asked for, on the way to these keys. */
  ghost predicate Justified<K, V>(h: Policy<K>, keys: set<K>, n: nat, r: Outcome<Table<K, V>>)
    requires n >= 1
  {
    if r.Done? then Grows(h, keys, n, r.value.n) else Denied(h, keys, n, r.size)
  }

  lemma JustifiedFrom<K, V>(h: Policy<K>, keys: set<K>, n: nat, m: nat, r: Outcome<Table<K, V>>)
    requires n >= 1 && m >= 1 && Grows(h, keys, n, m) && Justified(h, keys, m, r)
    ensures Justified(h, keys, n, r)
  {
    hide Grows, Denied;
    if r.Done? {
      GrowsFurther(h, keys, n, m, r.value.n);
    } else {
      GrowsThenDenied(h, keys, n, m, r.size);
    }
  }

  lemma GrowsOnce<K>(h: Policy<K>, keys: set<K>, n: nat, e: nat)
    requires n >= 1 && e < |keys| && Needed(h.hash, keys, n, e) && n < h.NextFor(n, e)
    ensures h.NextFor(n, e) <= h.maxSlots ==> Grows(h, keys, n, h.NextFor(n, e))
    ensures h.NextFor(n, e) > h.maxSlots ==> Denied(h, keys, n, h.NextFor(n, e))
  {
    hide Needed, GrowRequest;
  }

  lemma NoFit<K, V>(h: Policy<K>, t: Table<K, V>, pair: (K, V), keys: set<K>)
    requires Sound(h, t) && pair.0 !in t.pos && t.pos.Keys + {pair.0} <= keys && Fitted(h, t, pair).None?
    ensures Needed(h.hash, keys, t.n, |t.pos|)
  {
    hide Stored, Chained, ReservedOnly, Homes, RanksBelow, RankBound, InsertStep, Open;
    Sizes(t);
    Bounded(t);
    HomesBelow(h.hash, t.n, pair.0);
    if !Needed(h.hash, keys, t.n, |t.pos|) {
      OpenInserts(t, Homes(h.hash, t.n), keys, pair, RankBound(t.rank));
    }
  }

  /** Every growth and every refusal of an insertion is one on the way to the keys it is to hold. */
  lemma {:induction false} InsertJustified<K, V>(h: Policy<K>, t: Table<K, V>, pair: (K, V), keys: set<K>)
    requires h.Rising() && Sound(h, t) && pair.0 !in t.pos && t.pos.Keys + {pair.0} <= keys
    ensures t.n >= 1 && Justified(h, keys, t.n, Insert(h, t, pair))
    decreases Room(h.maxSlots, t.n), 1, 0
  {
    hide Stored, Chained, ReservedOnly, Contents, Homes, WithinLoad, Fitted, Abandoned, Sound, GrowRequest, Holds,
      Needed, Regrown;
    SoundFacts(h, t);
    FittedIsSound(h, t, pair);
    if Fitted(h, t, pair).None? {
      NoFit(h, t, pair, keys);
      AbandonedKeeps(h, t, pair);
      SubsetSize(t.pos.Keys + {pair.0}, keys);
      assert |t.pos.Keys| == |t.pos|;
      GrowsOnce(h, keys, t.n, |t.pos|);
      var left := Abandoned(h, t, pair);
      RegrownJustified(h, left, pair, keys);
      var size := h.NextFor(t.n, |t.pos|);
      if size <= h.maxSlots {
        JustifiedFrom(h, keys, t.n, size, Regrown(h, left, pair));
      }
    }
  }

  lemma {:induction false} RegrownJustified<K, V>(h: Policy<K>, left: Table<K, V>, pair: (K, V), keys: set<K>)
    requires h.Rising() && Stored(left) && left.n <= h.maxSlots && pair.0 !in left.pos && left.pos.Keys + {pair.0} <= keys
    ensures var size := h.NextFor(left.n, |left.pos|);
            && (size > h.maxSlots ==> Regrown(h, left, pair) == Refused(size))
            && (size <= h.maxSlots ==> Justified(h, keys, size, Regrown(h, left, pair)))
    decreases Room(h.maxSlots, left.n), 0, 0
  {
    hide Stored, Chained, ReservedOnly, Contents, Homes, WithinLoad, Sound, GrowRequest, Holds, Needed, Insert, Grows,
      Denied, Rehashed;
    var size := h.NextFor(left.n, |left.pos|);
    if size <= h.maxSlots {
      RehashedJustified(h, left, size, keys);
      var g := Rehashed(h, left, size);
      if g.Done? {
        StillNew(h, left, g.value, size, pair);
        SoundFacts(h, g.value);
        InsertJustified(h, g.value, pair, keys);
        JustifiedFrom(h, keys, size, g.value.n, Insert(h, g.value, pair));
      }
    } else {
      RefusedAtOnce(h, left, size);
    }
  }

  lemma RefusedAtOnce<K, V>(h: Policy<K>, left: Table<K, V>, size: nat)
    requires h.Rising() && Stored(left) && size >= 1 && size > h.maxSlots
    ensures Rehashed(h, left, size) == Refused(size)
  {
  }

  /** A rehash that the allocator grants at once grows only for the keys there are. */
  lemma {:induction false} RehashedJustified<K, V>(h: Policy<K>, left: Table<K, V>, size: nat, keys: set<K>)
    requires h.Rising() && Stored(left) && 1 <= size <= h.maxSlots && left.pos.Keys <= keys
    ensures Justified(h, keys, size, Rehashed(h, left, size))
    decreases Room(h.maxSlots, size), 3, 0
  {
    hide Stored, Chained, ReservedOnly, Contents, Homes, WithinLoad, Sound, Rebuild, Grows, Denied;
    EmptyIsSound<K, V>(h, size);
    ScanEnds(left);
    RebuildJustified(h, left, 0, Empty(size), keys);
  }

  lemma {:induction false} RebuildJustified<K, V>(h: Policy<K>, left: Table<K, V>, i: nat, t: Table<K, V>, keys: set<K>)
    requires h.Rising() && Stored(left) && i <= left.n && Sound(h, t) && Contents(t) == Scanned(left, i)
    requires left.pos.Keys <= keys
    ensures t.n >= 1 && Justified(h, keys, t.n, Rebuild(h, left, i, t))
    decreases Room(h.maxSlots, t.n), 2, left.n - i
  {
    hide Stored, Chained, ReservedOnly, Contents, Homes, WithinLoad, Scanned, Sound, Needed, Insert, Denied;
    SoundFacts(h, t);
    ScanEnds(left);
    if i < left.n {
      NextScanned(left, i, t);
      if !left.Full(i) {
        RebuildJustified(h, left, i + 1, t, keys);
      } else {
        var pair := left.slot[i].value;
        ScannedKeys(left, i, t);
        InsertJustified(h, t, pair, keys);
        var r := Insert(h, t, pair);
        if r.Done? {
          RebuildJustified(h, left, i + 1, r.value, keys);
          JustifiedFrom(h, keys, t.n, r.value.n, Rebuild(h, left, i + 1, r.value));
        }
      }
    }
  }

  lemma ScannedKeys<K, V>(left: Table<K, V>, i: nat, t: Table<K, V>)
    requires Stored(left) && Stored(t) && i < left.n && Contents(t) == Scanned(left, i)
    ensures t.pos.Keys <= left.pos.Keys
    ensures left.Full(i) ==> left.slot[i].Some? && left.slot[i].value.0 in left.pos
  {
    ContentsSize(t);
    FullSlots(left);
    assert Scanned(left, i).Keys <= left.pos.Keys;
  }

  /** How an insertion ends, for every table, key, hash, policy and limit. */
  lemma InsertEnds<K, V>(h: Policy<K>, t: Table<K, V>, pair: (K, V))
    requires h.Rising() && Sound(h, t) && pair.0 !in t.pos
    ensures var keys, first, r := t.pos.Keys + {pair.0}, h.NextFor(t.n, |t.pos|), Insert(h, t, pair);
            && t.n >= 1 && first >= 1
            && (Fitted(h, t, pair).Some? ==> r == Done(Fitted(h, t, pair).value) && r.value.n == t.n)
            && (Fitted(h, t, pair).None? && first > h.maxSlots ==> r == Refused(first))
            && (Fitted(h, t, pair).None? && r.Done? ==> r.value.n >= first)
            && (first <= h.maxSlots && Open(Homes(h.hash, first), keys, first)
                ==> r.Done? && (Fitted(h, t, pair).None? ==> r.value.n == first))
            && (first <= h.maxSlots && |t.pos| <= 14 ==> r.Done?)
            && (Affordable(h, |t.pos| + 1) ==> r.Done?)
            && (r.Refused? ==> r.size > h.maxSlots && Denied(h, keys, t.n, r.size))
  {
    hide Stored, Chained, ReservedOnly, Contents, Homes, Fitted, Abandoned, Sound, GrowRequest, Needed, Regrown,
      Grows, Denied, Affordable, Open, ShortJumps;
    var keys, first := t.pos.Keys + {pair.0}, h.NextFor(t.n, |t.pos|);
    SoundFacts(h, t);
    FittedIsSound(h, t, pair);
    InsertJustified(h, t, pair, keys);
    assert |keys| == |t.pos.Keys| + 1 && |t.pos.Keys| == |t.pos|;
    var r := Insert(h, t, pair);
    if r.Refused? {
      DeniedIsTooLarge(h, keys, t.n, r.size);
      if Affordable(h, |keys|) {
        AffordableNotDenied(h, keys, t.n, r.size);
      }
    }
    if Fitted(h, t, pair).None? {
      AbandonedKeeps(h, t, pair);
      RegrownJustified(h, Abandoned(h, t, pair), pair, keys);
      GrownHasCapacity(t.n, |t.pos|, first);
      if |t.pos| <= 14 {
        FewFitAfterGrowth(t.n, |t.pos|, first);
        FewAreOpen(Homes(h.hash, first), keys, first);
      }
      if first <= h.maxSlots && Open(Homes(h.hash, first), keys, first) {
        OpenStays(h, keys, first);
      }
    }
  }

  /** How a rehash into a new array ends. */
  lemma RehashEnds<K, V>(h: Policy<K>, left: Table<K, V>, size: nat)
    requires h.Rising() && Stored(left) && size >= 1 && 16 * |left.pos| <= 15 * size
    ensures var r := Rehashed(h, left, size);
            && (size > h.maxSlots ==> r == Refused(size))
            && (size <= h.maxSlots && Open(Homes(h.hash, size), left.pos.Keys, size) ==> r.Done? && r.value.n == size)
            && (size <= h.maxSlots && r.Refused? ==> r.size > h.maxSlots && Denied(h, left.pos.Keys, size, r.size))
            && (size <= h.maxSlots && Affordable(h, |left.pos|) ==> r.Done?)
  {
    hide Stored, Contents, Homes, Grows, Denied, Affordable, Open, Rebuild;
    var keys, r := left.pos.Keys, Rehashed(h, left, size);
    assert |keys| == |left.pos|;
    if size <= h.maxSlots {
      RehashedJustified(h, left, size, keys);
      if r.Refused? {
        DeniedIsTooLarge(h, keys, size, r.size);
        if Affordable(h, |keys|) {
          AffordableNotDenied(h, keys, size, r.size);
        }
      }
      if Open(Homes(h.hash, size), keys, size) {
        OpenStays(h, keys, size);
      }
    }
  }
}
