/** The state of `sherwood_v3_table` (common/flat_hash_map.hpp) as a value, its
    invariant, and the facts about Robin Hood placement that the class relies on. */
module FlatTable {
  import opened Wrappers
  import opened HashPolicy

  const MIN_LOOKUPS: nat := 4

  /** `dist` is distance_from_desired (-1 for empty), `slot` the stored pair.  `pos` is
      specification only: where each stored key lives. */
  datatype Table<K, V> = Table(n: nat, maxLookups: nat, dist: seq<int>, slot: seq<Option<(K, V)>>, pos: map<K, nat>)
  {
    /** Index of the end sentinel, the last entry of the array. */
    function Sentinel(): int { n + maxLookups - 1 }
  }

  function ComputeMaxLookups(n: nat): (m: nat)
    ensures m >= 4 && m >= Log2(n) && (m == 4 || m == Log2(n))
  {
    if MIN_LOOKUPS < Log2(n) then Log2(n) else MIN_LOOKUPS
  }

  ghost predicate Layout<K, V>(t: Table<K, V>) {
    && t.n >= 1 && t.maxLookups >= MIN_LOOKUPS - 1 && |t.dist| == |t.slot| == t.n + t.maxLookups
    && t.dist[t.Sentinel()] == 0 && t.slot[t.Sentinel()] == None
    && (forall i :: 0 <= i < t.Sentinel() ==> t.dist[i] >= -1 && (t.dist[i] >= 0 <==> t.slot[i].Some?))
  }

  /** Every stored pair is where `pos` says, and nothing else is stored: no key twice, none lost. */
  ghost predicate Placed<K, V>(t: Table<K, V>)
    requires Layout(t)
  {
    && (forall k :: k in t.pos ==> t.pos[k] < t.Sentinel() && t.slot[t.pos[k]].Some? && t.slot[t.pos[k]].value.0 == k)
    && (forall i :: 0 <= i < t.Sentinel() && t.slot[i].Some? ==>
         t.slot[i].value.0 in t.pos && t.pos[t.slot[i].value.0] == i)
  }

  /** What `rehash` needs of the old array: it never looks at the labels beyond "has a value". */
  ghost predicate Loose<K, V>(t: Table<K, V>) {
    Layout(t) && Placed(t) && (t.n == 1 ==> t.pos == map[])
  }

  /** A label is the distance from the home bucket and stays below the probe limit. */
  ghost predicate Labelled<K, V>(t: Table<K, V>, home: K -> nat)
    requires Layout(t)
  {
    forall i :: 0 <= i < t.Sentinel() && t.slot[i].Some? ==>
      t.dist[i] < t.maxLookups && i - t.dist[i] == home(t.slot[i].value.0)
  }

  /** The Robin Hood order: a label is at most one more than the label before it. */
  ghost predicate Ordered<K, V>(t: Table<K, V>)
    requires Layout(t)
  {
    && t.dist[0] <= 0
    && (forall i, j :: 0 <= i <= t.Sentinel() && 0 <= j <= t.Sentinel() && j == i + 1 ==> t.dist[j] <= t.dist[i] + 1)
  }

  ghost predicate RobinHood<K, V>(t: Table<K, V>, home: K -> nat) {
    Loose(t) && Labelled(t, home) && Ordered(t)
  }

  /** The plain map the table stands for. */
  ghost function Contents<K, V>(t: Table<K, V>): map<K, V>
    requires Layout(t) && Placed(t)
  {
    map k | k in t.pos :: t.slot[t.pos[k]].value.1
  }

  /** Storing a pair under a key that is not stored yet. */
  ghost function Put<K, V>(t: Table<K, V>, i: nat, d: int, pair: (K, V)): Table<K, V>
    requires i < |t.dist| && i < |t.slot|
  {
    t.(dist := t.dist[i := d], slot := t.slot[i := Some(pair)], pos := t.pos[pair.0 := i])
  }

  /** Storing a pair in an occupied slot; the pair that was there leaves the table. */
  ghost function Exchange<K, V>(t: Table<K, V>, i: nat, d: int, pair: (K, V)): Table<K, V>
    requires i < |t.dist| && i < |t.slot| && t.slot[i].Some?
  {
    t.(dist := t.dist[i := d], slot := t.slot[i := Some(pair)], pos := t.pos[pair.0 := i] - {t.slot[i].value.0})
  }

  lemma Lengths<K, V>(t: Table<K, V>)
    requires Loose(t)
    ensures |t.dist| == |t.slot| == t.Sentinel() + 1
    ensures forall i :: 0 <= i < t.Sentinel() ==> (t.dist[i] >= 0 <==> t.slot[i].Some?)
  {
  }

  lemma NotStored<K, V>(t: Table<K, V>, key: K)
    requires Loose(t)
    ensures key in Contents(t) <==> key in t.pos
  {
  }

  // ----- Lookup -----

  /** Labels fall by at most one per step backwards, so a run of labels ends at each label. */
  lemma {:induction false} LabelsBefore<K, V>(t: Table<K, V>, p: nat, back: nat)
    requires Layout(t) && Ordered(t)
    requires p <= t.Sentinel() && back <= t.dist[p]
    ensures back <= p && t.dist[p - back] >= t.dist[p] - back
  {
    if back > 0 {
      LabelsBefore(t, p, back - 1);
      if p - (back - 1) == 0 {
        assert false;
      }
    }
  }

  /** Where a stored key sits relative to its home. */
  lemma StoredAt<K, V>(t: Table<K, V>, home: K -> nat, key: K)
    requires RobinHood(t, home) && key in t.pos
    ensures t.pos[key] < t.Sentinel() && t.slot[t.pos[key]].Some? && t.slot[t.pos[key]].value.0 == key
    ensures 0 <= t.dist[t.pos[key]] < t.maxLookups && t.pos[key] == home(key) + t.dist[t.pos[key]]
  {
  }

  lemma LabelBelow<K, V>(t: Table<K, V>, home: K -> nat, p: nat)
    requires RobinHood(t, home) && p < |t.dist|
    ensures t.dist[p] < t.maxLookups
  {
  }

  /** A pair met during a probe is where its key is stored. */
  lemma MetAt<K, V>(t: Table<K, V>, p: nat)
    requires Loose(t) && p < t.Sentinel() && t.slot[p].Some?
    ensures t.slot[p].value.0 in t.pos && t.pos[t.slot[p].value.0] == p
  {
  }

  /** Early stopping is sound: on the way from its home to a present key every label is at
      least the distance walked. */
  lemma LookupReaches<K, V>(t: Table<K, V>, home: K -> nat, key: K, distance: nat)
    requires RobinHood(t, home) && key in t.pos
    requires distance <= t.pos[key] - home(key)
    ensures t.dist[home(key) + distance] >= distance
    ensures home(key) + distance < t.Sentinel()
  {
    var p := t.pos[key];
    LabelsBefore(t, p, t.dist[p] - distance);
  }

  /** A probe that has seen labels 0.. up to its distance is still inside the array, and
      it cannot sit on the sentinel without stopping. */
  lemma ProbeInside<K, V>(t: Table<K, V>, home: K -> nat, start: nat, distance: nat)
    requires RobinHood(t, home) && start < t.n && start + distance <= t.Sentinel()
    requires t.dist[start + distance] >= distance
    ensures start + distance < t.Sentinel() && distance < t.maxLookups && t.slot[start + distance].Some?
  {
    if start + distance == t.Sentinel() {
      assert false;
    }
  }

  // ----- How many elements a long probe needs -----

  /** m consecutive occupied slots hold m different keys. */
  lemma {:induction false} RunOfOccupied<K, V>(t: Table<K, V>, from: nat, m: nat) returns (keys: set<K>)
    requires Layout(t) && Placed(t)
    requires from + m <= t.Sentinel()
    requires forall i :: from <= i < from + m ==> t.slot[i].Some?
    ensures |keys| == m && keys <= t.pos.Keys
    ensures forall k :: k in keys ==> from <= t.pos[k] < from + m
  {
    if m == 0 {
      keys := {};
    } else {
      var rest := RunOfOccupied(t, from, m - 1);
      var k := t.slot[from + m - 1].value.0;
      assert t.pos[k] == from + m - 1;
      assert k !in rest;
      keys := rest + {k};
    }
  }

  /** Reaching the probe limit takes at least max_lookups stored elements. */
  lemma LongProbe<K, V>(t: Table<K, V>, home: K -> nat, p: nat)
    requires RobinHood(t, home) && p < t.Sentinel() && t.dist[p] >= t.maxLookups - 1
    ensures |t.pos| >= t.maxLookups
  {
    var first := p - t.dist[p];
    forall i | first <= i < first + t.maxLookups
      ensures t.slot[i].Some?
    {
      LabelsBefore(t, p, p - i);
    }
    var keys := RunOfOccupied(t, first, t.maxLookups);
    SubsetSize(keys, t.pos.Keys);
    assert |t.pos.Keys| == |t.pos|;
  }

  // ----- One step of an insertion -----

  lemma PutLoose<K, V>(t: Table<K, V>, p: nat, d: nat, pair: (K, V))
    requires Loose(t) && t.n > 1 && p < t.Sentinel() && t.slot[p] == None && pair.0 !in t.pos
    ensures Loose(Put(t, p, d, pair))
  {
    var u := Put(t, p, d, pair);
    assert Layout(u);
  }

  /** Filling an empty slot at the right distance. */
  lemma PutInEmpty<K, V>(t: Table<K, V>, home: K -> nat, p: nat, d: nat, pair: (K, V))
    requires RobinHood(t, home) && t.n > 1 && p < t.Sentinel() && t.slot[p] == None
    requires pair.0 !in t.pos && d < t.maxLookups && p == home(pair.0) + d
    requires d > 0 ==> t.dist[p - 1] >= d - 1
    ensures RobinHood(Put(t, p, d, pair), home)
  {
    PutLoose(t, p, d, pair);
  }

  lemma PutContents<K, V>(t: Table<K, V>, p: nat, d: nat, pair: (K, V))
    requires Loose(t) && p < t.Sentinel() && t.slot[p] == None && pair.0 !in t.pos
    requires Loose(Put(t, p, d, pair))
    ensures Contents(Put(t, p, d, pair)) == Contents(t)[pair.0 := pair.1]
    ensures |Put(t, p, d, pair).pos| == |t.pos| + 1
  {
  }

  lemma ExchangeLoose<K, V>(t: Table<K, V>, p: nat, d: nat, pair: (K, V))
    requires Loose(t) && t.n > 1 && p < t.Sentinel() && t.slot[p].Some? && pair.0 !in t.pos
    ensures Loose(Exchange(t, p, d, pair))
    ensures t.slot[p].value.0 !in Exchange(t, p, d, pair).pos
    ensures |Exchange(t, p, d, pair).pos| == |t.pos|
  {
    var u, out := Exchange(t, p, d, pair), t.slot[p].value.0;
    assert Layout(u);
    assert u.pos.Keys == t.pos.Keys - {out} + {pair.0};
    assert |u.pos| == |u.pos.Keys| && |t.pos| == |t.pos.Keys|;
  }

  /** The two pairs trade places between the table and the hand that carries one of them. */
  lemma ExchangeContents<K, V>(t: Table<K, V>, p: nat, d: nat, pair: (K, V))
    requires Loose(t) && p < t.Sentinel() && t.slot[p].Some? && pair.0 !in t.pos
    requires Loose(Exchange(t, p, d, pair))
    ensures var out := t.slot[p].value;
            Contents(Exchange(t, p, d, pair))[out.0 := out.1] == Contents(t)[pair.0 := pair.1]
  {
  }

  /** Displacing a pair that is closer to its home keeps the order; the displaced pair is then
      the one to carry on, one step further. */
  lemma Displace<K, V>(t: Table<K, V>, home: K -> nat, p: nat, d: nat, pair: (K, V))
    requires RobinHood(t, home) && t.n > 1 && p < t.Sentinel() && t.slot[p].Some? && t.dist[p] < d
    requires pair.0 !in t.pos && d < t.maxLookups && p == home(pair.0) + d
    requires d > 0 ==> t.dist[p - 1] >= d - 1
    ensures RobinHood(Exchange(t, p, d, pair), home)
    ensures p == home(t.slot[p].value.0) + t.dist[p]
  {
    ExchangeLoose(t, p, d, pair);
  }

  // ----- Backward-shift erase -----

  /** Removing the pair at p. */
  ghost function TakeOut<K, V>(t: Table<K, V>, p: nat): Table<K, V>
    requires p < |t.dist| && p < |t.slot| && t.slot[p].Some?
  {
    t.(dist := t.dist[p := -1], slot := t.slot[p := None], pos := t.pos - {t.slot[p].value.0})
  }

  /** Moving the pair at h + 1 one step back into the empty slot h. */
  ghost function ShiftBack<K, V>(t: Table<K, V>, h: nat): Table<K, V>
    requires h + 1 < |t.dist| && h + 1 < |t.slot| && t.slot[h + 1].Some?
  {
    t.(dist := t.dist[h := t.dist[h + 1] - 1][h + 1 := -1],
       slot := t.slot[h := t.slot[h + 1]][h + 1 := None],
       pos := t.pos[t.slot[h + 1].value.0 := h])
  }

  /** In order everywhere except across the empty slot h that an erase is closing. */
  ghost predicate HoleAt<K, V>(t: Table<K, V>, home: K -> nat, h: nat) {
    && Loose(t) && Labelled(t, home) && h < t.Sentinel() && t.slot[h] == None
    && t.dist[0] <= 0 && t.dist[h + 1] <= (if h == 0 then -1 else t.dist[h - 1]) + 2
    && (forall i, j :: 0 <= i <= t.Sentinel() && 0 <= j <= t.Sentinel() && j == i + 1 && i != h ==> t.dist[j] <= t.dist[i] + 1)
  }

  lemma TakeOutLeavesHole<K, V>(t: Table<K, V>, home: K -> nat, p: nat)
    requires RobinHood(t, home) && t.n > 1 && p < t.Sentinel() && t.slot[p].Some?
    ensures HoleAt(TakeOut(t, p), home, p)
  {
    var u := TakeOut(t, p);
    assert Layout(u);
    assert Placed(u);
    if p > 0 {
      assert t.dist[p] <= t.dist[p - 1] + 1;
    }
    assert t.dist[p + 1] <= t.dist[p] + 1;
  }

  lemma TakeOutContents<K, V>(t: Table<K, V>, p: nat)
    requires Loose(t) && p < t.Sentinel() && t.slot[p].Some? && Loose(TakeOut(t, p))
    ensures Contents(TakeOut(t, p)) == Contents(t) - {t.slot[p].value.0}
    ensures |TakeOut(t, p).pos| == |t.pos| - 1
  {
    var k := t.slot[p].value.0;
    assert t.pos == (t.pos - {k})[k := p];
  }

  lemma ShiftLoose<K, V>(t: Table<K, V>, h: nat)
    requires Loose(t) && t.n > 1 && h + 1 < t.Sentinel() && t.slot[h] == None && t.dist[h + 1] > 0
    ensures Loose(ShiftBack(t, h))
  {
    var u := ShiftBack(t, h);
    assert Layout(u);
  }

  /** The hole moves one step on; a shifted pair keeps its label equal to its distance. */
  lemma ShiftMovesHole<K, V>(t: Table<K, V>, home: K -> nat, h: nat)
    requires HoleAt(t, home, h) && t.n > 1 && t.dist[h + 1] > 0
    ensures h + 1 < t.Sentinel() && t.slot[h + 1].Some?
    ensures HoleAt(ShiftBack(t, h), home, h + 1)
  {
    ShiftLoose(t, h);
  }

  lemma ShiftContents<K, V>(t: Table<K, V>, h: nat)
    requires Loose(t) && h + 1 < t.Sentinel() && t.slot[h] == None && t.slot[h + 1].Some? && Loose(ShiftBack(t, h))
    ensures Contents(ShiftBack(t, h)) == Contents(t)
    ensures |ShiftBack(t, h).pos| == |t.pos|
  {
    var u := ShiftBack(t, h);
    assert u.pos.Keys == t.pos.Keys;
    assert |u.pos| == |u.pos.Keys| && |t.pos| == |t.pos.Keys|;
  }

  lemma HoleClosed<K, V>(t: Table<K, V>, home: K -> nat, h: nat)
    requires HoleAt(t, home, h) && t.dist[h + 1] <= 0
    ensures RobinHood(t, home)
  {
  }

  // ----- Rehashing and its termination -----

  /** The pairs a scan of the old array has met before index i. */
  ghost function Scanned<K, V>(t: Table<K, V>, i: nat): map<K, V>
    requires Loose(t)
  {
    map k | k in t.pos && t.pos[k] < i :: t.slot[t.pos[k]].value.1
  }

  lemma ScanStep<K, V>(t: Table<K, V>, i: nat)
    requires Loose(t) && i < t.Sentinel()
    ensures t.slot[i] == None ==> Scanned(t, i + 1) == Scanned(t, i)
    ensures t.slot[i].Some? ==>
              var p := t.slot[i].value;
              p.0 !in Scanned(t, i) && Scanned(t, i + 1) == Scanned(t, i)[p.0 := p.1]
  {
  }

  lemma ScanSize<K, V>(t: Table<K, V>, i: nat)
    requires Loose(t) && i < t.Sentinel() && t.slot[i].Some?
    ensures |Scanned(t, i)| + 1 <= |t.pos|
  {
    var k := t.slot[i].value.0;
    SubsetSize(Scanned(t, i).Keys + {k}, t.pos.Keys);
    assert |Scanned(t, i)| == |Scanned(t, i).Keys| && |t.pos| == |t.pos.Keys|;
  }

  lemma ScanNothing<K, V>(t: Table<K, V>)
    requires Loose(t)
    ensures Scanned(t, 0) == map[]
  {
  }

  lemma ScanDone<K, V>(t: Table<K, V>)
    requires Loose(t)
    ensures Scanned(t, t.Sentinel()) == Contents(t)
  {
  }

  lemma ContentsSize<K, V>(t: Table<K, V>)
    requires Loose(t)
    ensures |Contents(t)| == |t.pos|
  {
    assert Contents(t).Keys == t.pos.Keys;
    assert |Contents(t)| == |Contents(t).Keys| && |t.pos| == |t.pos.Keys|;
  }

  lemma SameWithout<K, V>(a: map<K, V>, b: map<K, V>, k: K, v: V)
    requires k !in a && k !in b && a[k := v] == b[k := v]
    ensures a == b
  {
    assert a == a[k := v] - {k} == b[k := v] - {k} == b;
  }

  /** The slots and labels of fresh storage: nothing anywhere, and 0 at the end. */
  ghost predicate Blank<K, V>(t: Table<K, V>) {
    && t.n >= 1 && t.maxLookups >= MIN_LOOKUPS - 1 && |t.dist| == |t.slot| == t.n + t.maxLookups && t.pos == map[]
    && forall i :: 0 <= i < |t.dist| ==> t.slot[i] == None && t.dist[i] == (if i == t.Sentinel() then 0 else -1)
  }

  lemma BlankTable<K, V>(t: Table<K, V>, home: K -> nat)
    requires Blank(t)
    ensures Loose(t) && RobinHood(t, home) && Contents(t) == map[]
  {
  }

  /** The probe limit a table of n buckets carries; 3 is the default table. */
  predicate GoodLimit(n: nat, maxLookups: nat) {
    maxLookups == ComputeMaxLookups(n) || (n == 1 && maxLookups == MIN_LOOKUPS - 1)
  }

  lemma LimitAtLeast(n: nat, maxLookups: nat)
    requires GoodLimit(n, maxLookups)
    ensures maxLookups >= MIN_LOOKUPS - 1
  {
  }

  /** Every label of a table of up to 2^64 buckets fits the source's `int8_t`, and so does the probe limit. */
  lemma LabelsFitByte<K, V>(t: Table<K, V>, home: K -> nat)
    requires RobinHood(t, home) && GoodLimit(t.n, t.maxLookups) && t.n < 0x1_0000_0000_0000_0000
    ensures t.maxLookups <= 63 && forall i :: 0 <= i <= t.Sentinel() ==> -1 <= t.dist[i] < 63
  {
    hide Log2;
    Log2FitsByte(t.n);
  }

  /** The load factor of 1/2; a single bucket holds nothing. */
  ghost predicate WithinLoad(elements: nat, n: nat) {
    if n == 1 then elements == 0 else 2 * elements <= n
  }

  lemma FewerWithinLoad(more: nat, elements: nat, n: nat)
    requires WithinLoad(more, n) && elements <= more
    ensures WithinLoad(elements, n)
  {
  }

  /** After a growth there is room for one more. */
  lemma GrownFits(elements: nat, n: nat, larger: nat)
    requires n >= 1 && WithinLoad(elements, n) && larger >= 2 * n && larger >= 4
    ensures 2 * (elements + 1) <= larger
  {
  }

  /** How many more doublings `total` elements can cause. */
  function Doublings(total: nat, n: nat): nat {
    if Log2(n) <= total then total + 1 - Log2(n) else 0
  }

  /** Every reason to grow bounds the logarithm of the size by the number of elements. */
  lemma GrowthJustified(n: nat, maxLookups: nat, elements: nat, total: nat)
    requires n >= 1 && GoodLimit(n, maxLookups) && elements + 1 <= total
    requires n == 1 || elements >= maxLookups || 2 * (elements + 1) > n
    ensures Log2(n) <= total
  {
    if n > 1 && elements < maxLookups {
      Log2Below(n, total);
    }
  }

  lemma DoublingsDrop(total: nat, n: nat, larger: nat)
    requires n >= 1 && 2 * n <= larger && Log2(n) <= total
    ensures Doublings(total, larger) < Doublings(total, n)
  {
    Log2Doubles(n, larger);
  }

  lemma DoublingsMonotone(total: nat, n: nat, larger: nat)
    requires n <= larger
    ensures Doublings(total, larger) <= Doublings(total, n)
  {
    Log2Monotone(n, larger);
  }
}
