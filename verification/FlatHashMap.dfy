/** `sherwood_v3_table`: the Robin Hood hash map, with its arrays updated in place. */
module FlatHashMap {
  import opened Wrappers
  import opened HashPolicy
  import opened FlatTable

  /** How a turn of the displacement loop ends: the carried pair found an empty slot, it or the pair it displaced
      goes on at the next slot, or it is given up. */
  datatype Turn<+K, +V> = Settled | Onward(carried: (K, V), distance: nat) | GivenUp

  class FlatHashMap<K(==), V> {
    const hash: K -> nat
    /** `next_size_over` of the hash policy. */
    const nextSize: nat -> nat

    var distances: array<int>
    var values: array<Option<(K, V)>>
    var numSlotsMinusOne: nat
    var maxLookups: nat
    var numElements: nat
    ghost var pos: map<K, nat>

    function BucketCount(): nat
      reads this
    {
      numSlotsMinusOne + 1
    }

    ghost function View(): Table<K, V>
      reads this, distances, values
    {
      Table(numSlotsMinusOne + 1, maxLookups, distances[..], values[..], pos)
    }

    ghost function HomeOf(): K -> nat
      reads this
    {
      Homes(hash, numSlotsMinusOne + 1)
    }

    /** Enough for `Rehash`: the pairs are all there, whatever the labels say. */
    ghost predicate Storing()
      reads this, distances, values
    {
      && Loose(View()) && GoodLimit(numSlotsMinusOne + 1, maxLookups) && numElements == |pos|
      && (forall x: nat :: nextSize(x) >= x)
    }

    ghost predicate Valid()
      reads this, distances, values
    {
      Storing() && RobinHood(View(), HomeOf()) && WithinLoad(numElements, BucketCount())
    }

    ghost function Contents(): map<K, V>
      reads this, distances, values
      requires Storing()
    {
      FlatTable.Contents(View())
    }

    /** The index `end()` points at. */
    function End(): nat
      reads this
    {
      numSlotsMinusOne + maxLookups
    }

    /** One more pair fits for sure: it does not exceed the load factor of 1/2, and fewer pairs are stored than a
        probe may take steps. */
    ghost predicate Roomy()
      reads this
    {
      numSlotsMinusOne > 0 && numElements < maxLookups && 2 * (numElements + 1) <= BucketCount()
    }

    /** The size that `grow` gets from the policy. */
    function SizeAfter(n: nat, elements: nat): nat {
      nextSize(Requested(if 4 < 2 * n then 2 * n else 4, elements))
    }

    constructor (hash: K -> nat, nextSize: nat -> nat)
      requires forall x: nat :: nextSize(x) >= x
      ensures Valid() && Contents() == map[] && fresh(distances) && fresh(values)
      ensures this.hash == hash && this.nextSize == nextSize && BucketCount() == 1
    {
      this.hash, this.nextSize := hash, nextSize;
      distances := new int[MIN_LOOKUPS](i => if i == MIN_LOOKUPS - 1 then 0 else -1);
      values := new Option<(K, V)>[MIN_LOOKUPS](_ => None);
      numSlotsMinusOne, maxLookups, numElements, pos := 0, MIN_LOOKUPS - 1, 0, map[];
      new;
      assert Layout(View());
    }

    /** Overwrites one entry; `where` is the matching bookkeeping. */
    method Store(i: nat, d: int, x: Option<(K, V)>, ghost where: map<K, nat>)
      requires i < distances.Length && i < values.Length
      modifies distances, values, `pos
      ensures View() == old(View()).(dist := old(View()).dist[i := d], slot := old(View()).slot[i := x], pos := where)
    {
      distances[i] := d;
      values[i] := x;
      pos := where;
    }

    /** The walk `find` and `emplace` share: from the home bucket on, as long as labels are at
        least the distance walked. */
    method Probe(key: K) returns (at: nat, distance: nat)
      requires Valid()
      ensures at == HomeOf()(key) + distance && at <= End() && (distance > 0 ==> distances[at - 1] >= distance - 1)
      ensures key in pos ==> at == pos[key] && at < End() && distances[at] >= distance
      ensures key !in pos ==> distances[at] < distance
    {
      hide RobinHood, Placed, Labelled, Ordered, HoleAt, FlatTable.Contents;
      ghost var t, home := View(), HomeOf();
      if key in pos {
        StoredAt(t, home, key);
      }
      at := IndexForHash(hash(key), numSlotsMinusOne + 1);
      distance := 0;
      while distances[at] >= distance
        invariant at == home(key) + distance <= t.Sentinel()
        invariant distance > 0 ==> distances[at - 1] >= distance - 1
        invariant key in pos ==> at <= pos[key]
        decreases t.Sentinel() - at
      {
        ProbeInside(t, home, home(key), distance);
        MetAt(t, at);
        if values[at].value.0 == key {
          return;
        }
        at, distance := at + 1, distance + 1;
      }
      if key in pos {
        LookupReaches(t, home, key, distance);
      }
    }

    method Find(key: K) returns (it: nat)
      requires Valid()
      ensures key in Contents() ==> it < End() && values[it] == Some((key, Contents()[key]))
      ensures key !in Contents() ==> it == End()
    {
      var distance;
      it, distance := Probe(key);
      if distances[it] < distance {
        it := End();
      }
    }

    /** Inserts unless the key is present.  `total` bounds the number of elements; it only
        serves the termination measure. */
    method Emplace(pair: (K, V), ghost total: nat) returns (at: nat, inserted: bool)
      requires Valid() && numElements + 1 <= total
      modifies this, distances, values
      ensures Valid() && (distances == old(distances) || fresh(distances)) && (values == old(values) || fresh(values))
      ensures inserted == (pair.0 !in old(Contents()))
      ensures Contents() == if inserted then old(Contents())[pair.0 := pair.1] else old(Contents())
      ensures numElements == old(numElements) + if inserted then 1 else 0
      ensures at < End() && values[at] == Some((pair.0, Contents()[pair.0]))
      ensures BucketCount() >= old(BucketCount())
      ensures old(Roomy()) || !inserted ==> BucketCount() == old(BucketCount()) && maxLookups == old(maxLookups)
      decreases Doublings(total, BucketCount()), 4
    {
      var distance;
      at, distance := Probe(pair.0);
      if distances[at] >= distance {
        return at, false;
      }
      at := EmplaceNewKey(distance, at, pair, total);
      inserted := true;
    }

    method EmplaceNewKey(distance: nat, current: nat, pair: (K, V), ghost total: nat) returns (at: nat)
      requires Valid() && numElements + 1 <= total && pair.0 !in pos
      requires current == HomeOf()(pair.0) + distance && current <= End() && distances[current] < distance
      requires distance > 0 ==> distances[current - 1] >= distance - 1
      modifies this, distances, values
      ensures Valid() && (distances == old(distances) || fresh(distances)) && (values == old(values) || fresh(values))
      ensures Contents() == old(Contents())[pair.0 := pair.1] && numElements == old(numElements) + 1
      ensures at < End() && values[at] == Some(pair)
      ensures BucketCount() >= old(BucketCount())
      ensures old(numSlotsMinusOne == 0 || distance == maxLookups || 2 * (numElements + 1) > BucketCount())
              ==> BucketCount() >= 2 * old(BucketCount()) && BucketCount() >= SizeAfter(old(BucketCount()), old(numElements))
      ensures old(numElements) + 1 <= ComputeMaxLookups(SizeAfter(old(BucketCount()), old(numElements))) ==>
                BucketCount() == old(BucketCount()) || BucketCount() == SizeAfter(old(BucketCount()), old(numElements))
      ensures old(Roomy()) ==> BucketCount() == old(BucketCount()) && maxLookups == old(maxLookups)
      ensures old(numSlotsMinusOne > 0 && distance < maxLookups && 2 * (numElements + 1) <= BucketCount() && distances[current] < 0)
              ==> BucketCount() == old(BucketCount()) && at == current && distances[current] == distance
      decreases Doublings(total, BucketCount()), 3
    {
      hide RobinHood, Placed, Labelled, Ordered, HoleAt, FlatTable.Contents, Doublings, Log2, ComputeMaxLookups, SizeAfter;
      ghost var t, home, n := View(), HomeOf(), BucketCount();
      NotStored(t, pair.0);
      if distance > 0 {
        LabelBelow(t, home, current - 1);
      }
      if numSlotsMinusOne == 0 || distance == maxLookups || 2 * (numElements + 1) > BucketCount() {
        if distance == maxLookups {
          LongProbe(t, home, current - 1);
        }
        GrowthJustified(n, maxLookups, numElements, total);
        at := GrowAndEmplace(pair, total);
        return;
      }
      at := PlaceOrDisplace(distance, current, pair, total);
    }

    /** Within the load factor and below the probe limit: fills the empty slot, or displaces the pair there. */
    method PlaceOrDisplace(distance: nat, current: nat, pair: (K, V), ghost total: nat) returns (at: nat)
      requires Valid() && numElements + 1 <= total && pair.0 !in pos && pair.0 !in Contents()
      requires current == HomeOf()(pair.0) + distance && current <= End() && distances[current] < distance < maxLookups
      requires distance > 0 ==> distances[current - 1] >= distance - 1
      requires numSlotsMinusOne > 0 && 2 * (numElements + 1) <= BucketCount()
      modifies this, distances, values
      ensures Valid() && (distances == old(distances) || fresh(distances)) && (values == old(values) || fresh(values))
      ensures Contents() == old(Contents())[pair.0 := pair.1] && numElements == old(numElements) + 1
      ensures at < End() && values[at] == Some(pair)
      ensures BucketCount() >= old(BucketCount())
      ensures old(numElements) + 1 <= ComputeMaxLookups(SizeAfter(old(BucketCount()), old(numElements))) ==>
                BucketCount() == old(BucketCount()) || BucketCount() == SizeAfter(old(BucketCount()), old(numElements))
      ensures old(Roomy()) ==> BucketCount() == old(BucketCount()) && maxLookups == old(maxLookups)
      ensures old(distances[current] < 0) ==>
                BucketCount() == old(BucketCount()) && at == current && distances[current] == distance
      decreases Doublings(total, BucketCount()), 2, 1
    {
      hide RobinHood, Placed, Labelled, Ordered, HoleAt, FlatTable.Contents, Doublings, Log2, ComputeMaxLookups,
        SizeAfter, Loose, Layout, GoodLimit, Homes;
      ghost var n := BucketCount();
      Lengths(View());
      HomesBelow(hash, n, pair.0);
      if distances[current] < 0 {
        PlaceAt(current, distance, pair);
        return current;
      }
      var gaveUp, toInsert := DisplaceFrom(distance, current, pair);
      at := current;
      if gaveUp {
        GrowthJustified(n, maxLookups, numElements, total);
        at := GrowAndEmplace(toInsert, total);
      }
    }

    /** `grow(); return emplace(...)`. */
    method GrowAndEmplace(pair: (K, V), ghost total: nat) returns (at: nat)
      requires Storing() && WithinLoad(numElements, BucketCount()) && pair.0 !in Contents()
      requires numElements + 1 <= total && Log2(BucketCount()) <= total
      modifies this, distances, values
      ensures Valid() && (distances == old(distances) || fresh(distances)) && (values == old(values) || fresh(values))
      ensures Contents() == old(Contents())[pair.0 := pair.1] && numElements == old(numElements) + 1
      ensures at < End() && values[at] == Some(pair)
      ensures BucketCount() >= 2 * old(BucketCount()) && BucketCount() >= SizeAfter(old(BucketCount()), old(numElements))
      ensures old(numElements) + 1 <= ComputeMaxLookups(SizeAfter(old(BucketCount()), old(numElements))) ==>
                BucketCount() == SizeAfter(old(BucketCount()), old(numElements))
      decreases Doublings(total, BucketCount()), 2, 0
    {
      hide RobinHood, Placed, Labelled, Ordered, HoleAt, FlatTable.Contents, Doublings, Log2, ComputeMaxLookups, Loose,
        Layout, GoodLimit, Homes, WithinLoad;
      ghost var n, elements := BucketCount(), numElements;
      Grow(total);
      GrownFits(elements, n, BucketCount());
      DoublingsDrop(total, n, BucketCount());
      var inserted;
      at, inserted := Emplace(pair, total);
    }

    /** Fills an empty entry. */
    method PlaceAt(i: nat, d: nat, pair: (K, V))
      requires Valid() && numSlotsMinusOne > 0 && pair.0 !in pos && 2 * (numElements + 1) <= BucketCount()
      requires i < End() && distances[i] < 0 && d < maxLookups && i == HomeOf()(pair.0) + d
      requires d > 0 ==> distances[i - 1] >= d - 1
      modifies `numElements, `pos, distances, values
      ensures Valid() && Contents() == old(Contents())[pair.0 := pair.1] && numElements == old(numElements) + 1
      ensures values[..] == old(values[..])[i := Some(pair)] && distances[i] == d
    {
      hide RobinHood, Placed, Labelled, Ordered, FlatTable.Contents;
      ghost var t := View();
      PutInEmpty(t, HomeOf(), i, d, pair);
      PutContents(t, i, d, pair);
      Store(i, d, Some(pair), pos[pair.0 := i]);
      numElements := numElements + 1;
    }

    /** The two swaps of a displacement: `pair` goes into the entry, its old pair comes out. */
    method SwapAt(i: nat, d: nat, pair: (K, V)) returns (out: (K, V), outDistance: nat)
      requires Valid() && numSlotsMinusOne > 0 && pair.0 !in pos
      requires i < End() && 0 <= distances[i] < d < maxLookups && i == HomeOf()(pair.0) + d
      requires distances[i - 1] >= d - 1
      modifies `pos, distances, values
      ensures Valid() && out.0 !in pos && Contents()[out.0 := out.1] == old(Contents())[pair.0 := pair.1]
      ensures values[..] == old(values[..])[i := Some(pair)] && distances[i] == d
      ensures Some(out) == old(values[i]) && outDistance == old(distances[i]) && i == HomeOf()(out.0) + outDistance
    {
      hide RobinHood, Placed, Labelled, Ordered, FlatTable.Contents;
      ghost var t := View();
      Displace(t, HomeOf(), i, d, pair);
      ExchangeLoose(t, i, d, pair);
      ExchangeContents(t, i, d, pair);
      out, outDistance := values[i].value, distances[i];
      Store(i, d, Some(pair), pos[pair.0 := i] - {out.0});
    }

    /** The give-up swap: the carried pair goes where the new pair was put, under whatever label
        stands there, and the old contents are back. */
    method SwapBack(i: nat, carried: (K, V), ghost before: map<K, V>) returns (pair: (K, V))
      requires Valid() && numSlotsMinusOne > 0 && carried.0 !in pos && i < End() && distances[i] >= 0
      requires values[i].value.0 !in before
      requires Contents()[carried.0 := carried.1] == before[values[i].value.0 := values[i].value.1]
      modifies `pos, distances, values
      ensures Storing() && Contents() == before && Some(pair) == old(values[i])
    {
      hide RobinHood, Placed, Labelled, Ordered;
      ghost var t := View();
      ExchangeLoose(t, i, distances[i], carried);
      ExchangeContents(t, i, distances[i], carried);
      pair := values[i].value;
      Store(i, distances[i], Some(carried), pos[carried.0 := i] - {pair.0});
      SameWithout(Contents(), before, pair.0, pair.1);
    }

    /** The state at the head of the displacement loop: the pair in hand, at its distance from home, completes
        the table to the map `goal`. */
    ghost predicate Carrying(it: nat, d: nat, carried: (K, V), goal: map<K, V>)
      reads this, distances, values
    {
      && Valid() && numSlotsMinusOne > 0 && 2 * (numElements + 1) <= BucketCount()
      && distances.Length == values.Length == End() + 1
      && carried.0 !in pos && Contents()[carried.0 := carried.1] == goal
      && 0 < it < End() && 0 < d < maxLookups && it == HomeOf()(carried.0) + d && distances[it - 1] >= d - 1
    }

    /** One turn of the displacement loop. */
    method DisplaceTurn(it: nat, d: nat, carried: (K, V), ghost goal: map<K, V>) returns (turn: Turn<K, V>)
      requires Carrying(it, d, carried, goal)
      modifies `numElements, `pos, distances, values
      ensures values.Length == old(values.Length) && forall i :: 0 <= i < values.Length && i != it ==> values[i] == old(values[i])
      ensures turn.Settled? ==> Valid() && Contents() == goal && numElements == old(numElements) + 1
      ensures turn.Onward? ==> Carrying(it + 1, turn.distance, turn.carried, goal) && numElements == old(numElements)
      ensures turn.GivenUp? ==> View() == old(View()) && numElements == old(numElements) && numElements >= maxLookups
    {
      hide RobinHood, Loose, FlatTable.Contents, WithinLoad, Layout, Placed, Labelled, Ordered, GoodLimit,
        ComputeMaxLookups, Homes;
      Lengths(View());
      ghost var before := values[..];
      if distances[it] < 0 {
        PlaceAt(it, d, carried);
        turn := Settled;
      } else if distances[it] < d {
        var out, outDistance := SwapAt(it, d, carried);
        HomesBelow(hash, BucketCount(), out.0);
        turn := Onward(out, outDistance + 1);
      } else if d + 1 == maxLookups {
        LongProbe(View(), HomeOf(), it);
        turn := GivenUp;
      } else {
        HomesBelow(hash, BucketCount(), carried.0);
        turn := Onward(carried, d + 1);
      }
      assert forall i :: 0 <= i < values.Length && i != it ==> values[..][i] == before[i];
    }

    /** The first displacement: the new pair takes the slot it was found to belong in. */
    method DisplaceFirst(distance: nat, current: nat, pair: (K, V)) returns (out: (K, V), d: nat)
      requires Valid() && numSlotsMinusOne > 0 && pair.0 !in pos && 2 * (numElements + 1) <= BucketCount()
      requires current == HomeOf()(pair.0) + distance && distance < maxLookups && current < End()
      requires 0 <= distances[current] < distance && distances[current - 1] >= distance - 1
      modifies `pos, distances, values
      ensures Carrying(current + 1, d, out, old(Contents())[pair.0 := pair.1]) && values[current] == Some(pair)
    {
      hide RobinHood, Loose, FlatTable.Contents, WithinLoad, Layout, Placed, Labelled, Ordered, GoodLimit,
        ComputeMaxLookups, Homes;
      Lengths(View());
      var outDistance;
      out, outDistance := SwapAt(current, distance, pair);
      HomesBelow(hash, BucketCount(), out.0);
      assert values[..][current] == Some(pair);
      d := outDistance + 1;
    }

    /** The displacement loop.  Either the new pair sits at `current` and everything displaced
        found a place, or the table holds exactly its old contents and the new pair is back in hand. */
    method DisplaceFrom(distance: nat, current: nat, pair: (K, V)) returns (gaveUp: bool, toInsert: (K, V))
      requires Valid() && numSlotsMinusOne > 0 && pair.0 !in pos && 2 * (numElements + 1) <= BucketCount()
      requires current == HomeOf()(pair.0) + distance && distance < maxLookups && current < End()
      requires 0 <= distances[current] < distance && distances[current - 1] >= distance - 1
      modifies `numElements, `pos, distances, values
      ensures Storing()
      ensures !gaveUp ==> Valid() && Contents() == old(Contents())[pair.0 := pair.1]
                          && numElements == old(numElements) + 1 && values[current] == Some(pair)
      ensures gaveUp ==> Contents() == old(Contents()) && toInsert == pair
                         && numElements == old(numElements) && numElements >= maxLookups
    {
      hide RobinHood, Loose, FlatTable.Contents, WithinLoad, Layout, Placed, Labelled, Ordered, GoodLimit,
        ComputeMaxLookups, Homes, HomeOf;
      ghost var before, goal := Contents(), Contents()[pair.0 := pair.1];
      NotStored(View(), pair.0);
      var d;
      toInsert, d := DisplaceFirst(distance, current, pair);
      var it: nat := current + 1;
      while true
        invariant Carrying(it, d, toInsert, goal) && numElements == old(numElements)
        invariant current < it && values[current] == Some(pair)
        decreases End() - it
      {
        var turn := DisplaceTurn(it, d, toInsert, goal);
        match turn
        case Settled =>
          return false, toInsert;
        case GivenUp =>
          Lengths(View());
          toInsert := SwapBack(current, toInsert, before);
          return true, toInsert;
        case Onward(out, outDistance) =>
          toInsert, d := out, outDistance;
          it := it + 1;
      }
    }

    method Grow(ghost total: nat)
      requires Storing() && numElements <= total && Log2(BucketCount()) <= total
      modifies this, distances, values
      ensures Valid() && fresh(distances) && fresh(values)
      ensures Contents() == old(Contents()) && numElements == old(numElements)
      ensures BucketCount() >= 2 * old(BucketCount()) && BucketCount() >= SizeAfter(old(BucketCount()), old(numElements))
      ensures BucketCount() >= 4
      ensures old(numElements) <= ComputeMaxLookups(SizeAfter(old(BucketCount()), old(numElements))) ==>
                BucketCount() == SizeAfter(old(BucketCount()), old(numElements)) && maxLookups == ComputeMaxLookups(BucketCount())
      decreases Doublings(total, BucketCount()), 1
    {
      var request := if 4 < 2 * BucketCount() then 2 * BucketCount() else 4;
      var target := if request < 2 * numElements then 2 * numElements else request;
      assert nextSize(target) >= 2 * BucketCount();
      DoublingsDrop(total, BucketCount(), nextSize(target));
      Rehash(request, total);
    }

    /** The number of buckets `rehash` asks the policy for, at load factor 1/2. */
    static function Requested(num: nat, elements: nat): nat {
      if num < 2 * elements then 2 * elements else num
    }

    /** The smallest number not below the one asked for at which the load factor of 1/2 is kept. */
    static lemma RequestedIsLeast(num: nat, elements: nat, q: nat)
      ensures Requested(num, elements) >= num && 2 * elements <= Requested(num, elements)
      ensures q >= num && 2 * elements <= q ==> Requested(num, elements) <= q
    {
    }

    /** Growing asks for twice the buckets, four at least: the number of elements never matters. */
    lemma GrowthDoubles(n: nat, elements: nat)
      requires n >= 1 && WithinLoad(elements, n)
      ensures SizeAfter(n, elements) == nextSize(if n < 2 then 4 else 2 * n)
    {
    }

    method Rehash(num: nat, ghost total: nat)
      requires Storing() && numElements <= total
      requires Valid() || (Requested(num, numElements) > 0 && nextSize(Requested(num, numElements)) != BucketCount())
      modifies this, distances, values
      ensures Valid() && Contents() == old(Contents()) && numElements == old(numElements)
      ensures Requested(num, old(numElements)) > 0 ==> BucketCount() >= nextSize(Requested(num, old(numElements)))
      ensures Requested(num, old(numElements)) == 0 ==> BucketCount() == 1
      ensures (distances == old(distances) || fresh(distances)) && (values == old(values) || fresh(values))
      ensures Requested(num, old(numElements)) > 0 && nextSize(Requested(num, old(numElements))) != old(BucketCount())
              ==> fresh(distances) && fresh(values)
      ensures var size := nextSize(Requested(num, old(numElements)));
              Requested(num, old(numElements)) > 1 && old(numElements) <= ComputeMaxLookups(size) ==>
                BucketCount() == size && maxLookups == ComputeMaxLookups(size)
      decreases Doublings(total, nextSize(Requested(num, numElements))), 6
    {
      hide RobinHood, Placed, Labelled, Ordered, FlatTable.Contents, Scanned, Doublings, Log2;
      var requested := Requested(num, numElements);
      ContentsSize(View());
      if requested == 0 {
        ResetToEmptyState();
        return;
      }
      var numBuckets := nextSize(requested);
      if numBuckets == BucketCount() {
        return;
      }
      var newMaxLookups := ComputeMaxLookups(numBuckets);
      ghost var t := View();
      ContentsSize(t);
      var oldDistances, oldValues, oldEnd := distances, values, numSlotsMinusOne + maxLookups;
      InstallEmpty(numBuckets, newMaxLookups);
      Refill(oldDistances, oldValues, oldEnd, t, total);
    }

    /** Scans an old array and inserts every pair it still holds. */
    method Refill(oldDistances: array<int>, oldValues: array<Option<(K, V)>>, oldEnd: nat, ghost t: Table<K, V>, ghost total: nat)
      requires Valid() && Contents() == map[]
      requires Loose(t) && |t.pos| <= total && oldEnd == t.Sentinel()
      requires oldDistances[..] == t.dist && oldValues[..] == t.slot
      requires oldDistances != distances && oldValues != values
      modifies this, distances, values
      ensures Valid() && Contents() == FlatTable.Contents(t) && numElements == |t.pos|
      ensures BucketCount() >= old(BucketCount())
      ensures (distances == old(distances) || fresh(distances)) && (values == old(values) || fresh(values))
      ensures old(numSlotsMinusOne > 0 && |t.pos| <= maxLookups && 2 * |t.pos| <= BucketCount()) ==>
                BucketCount() == old(BucketCount()) && maxLookups == old(maxLookups)
      decreases Doublings(total, BucketCount()), 5
    {
      hide RobinHood, Placed, Labelled, Ordered, FlatTable.Contents, Scanned, Doublings, Log2, Loose, Layout,
        GoodLimit, ComputeMaxLookups, WithinLoad, Homes;
      ghost var before, limit := BucketCount(), maxLookups;
      ghost var roomy := numSlotsMinusOne > 0 && |t.pos| <= maxLookups && 2 * |t.pos| <= BucketCount();
      Lengths(t);
      ScanNothing(t);
      for i := 0 to oldEnd
        invariant Valid() && (distances == old(distances) || fresh(distances)) && (values == old(values) || fresh(values))
        invariant oldDistances[..] == t.dist && oldValues[..] == t.slot
        invariant Contents() == Scanned(t, i)
        invariant BucketCount() >= before && (roomy ==> BucketCount() == before && maxLookups == limit)
      {
        ScanStep(t, i);
        if oldDistances[i] >= 0 {
          ContentsSize(View());
          ScanSize(t, i);
          DoublingsMonotone(total, before, BucketCount());
          var at, inserted := Emplace(oldValues[i].value, total);
        }
      }
      ScanDone(t);
      ContentsSize(View());
      ContentsSize(t);
    }

    /** Allocates n buckets and the overhang for probing, all empty up to the sentinel. */
    method InstallEmpty(n: nat, limit: nat)
      requires n >= 1 && GoodLimit(n, limit) && (forall x: nat :: nextSize(x) >= x)
      modifies this
      ensures Valid() && Contents() == map[] && numElements == 0
      ensures BucketCount() == n && maxLookups == limit
      ensures fresh(distances) && fresh(values)
    {
      hide RobinHood, Loose, Layout, Placed, FlatTable.Contents, GoodLimit;
      LimitAtLeast(n, limit);
      distances := new int[n + limit](i => if i == n + limit - 1 then 0 else -1);
      values := new Option<(K, V)>[n + limit](_ => None);
      numSlotsMinusOne, maxLookups, numElements, pos := n - 1, limit, 0, map[];
      BlankTable(View(), HomeOf());
    }

    method ResetToEmptyState()
      requires Storing() && numElements == 0
      modifies this
      ensures Valid() && Contents() == map[] && numElements == 0 && BucketCount() == 1
      ensures fresh(distances) && fresh(values)
    {
      InstallEmpty(1, MIN_LOOKUPS - 1);
    }

    /** One step of the backward shift: the pair after the empty entry `h` moves into it. */
    method ShiftInto(h: nat)
      requires Storing() && numSlotsMinusOne > 0 && HoleAt(View(), HomeOf(), h) && distances[h + 1] > 0
      modifies `pos, distances, values
      ensures Storing() && h + 1 < End() && HoleAt(View(), HomeOf(), h + 1) && Contents() == old(Contents())
    {
      hide RobinHood, Placed, Labelled, Ordered, FlatTable.Contents;
      ghost var t := View();
      ShiftMovesHole(t, HomeOf(), h);
      ShiftContents(t, h);
      Store(h, distances[h + 1] - 1, values[h + 1], pos[values[h + 1].value.0 := h]);
      Store(h + 1, -1, None, pos);
      assert View() == ShiftBack(t, h);
    }

    /** Destroys the pair at i, which leaves a hole in its run. */
    method DestroyAt(i: nat)
      requires Valid() && i < End() && values[i].Some?
      modifies `numElements, `pos, distances, values
      ensures Storing() && HoleAt(View(), HomeOf(), i) && numElements == old(numElements) - 1 && numSlotsMinusOne > 0
      ensures Contents() == old(Contents()) - {old(values[i]).value.0}
    {
      hide RobinHood, Placed, Labelled, Ordered, FlatTable.Contents;
      ghost var t := View();
      MetAt(t, i);
      TakeOutLeavesHole(t, HomeOf(), i);
      TakeOutContents(t, i);
      Store(i, -1, None, pos - {values[i].value.0});
      numElements := numElements - 1;
    }

    /** Removes the pair at `toErase`, shifting the rest of its run back. */
    method EraseAt(toErase: nat)
      requires Valid() && toErase < End() && values[toErase].Some?
      modifies `numElements, `pos, distances, values
      ensures Valid() && Contents() == old(Contents()) - {old(values[toErase]).value.0}
      ensures numElements == old(numElements) - 1
    {
      hide RobinHood, Loose, HoleAt, FlatTable.Contents, WithinLoad, Layout, Placed, Labelled, Ordered, GoodLimit,
        ComputeMaxLookups, Homes, HomeOf;
      Lengths(View());
      DestroyAt(toErase);
      ghost var goal := Contents();
      var current: nat := toErase;
      while distances[current + 1] > 0
        invariant Storing() && current < End() && End() < distances.Length && HoleAt(View(), HomeOf(), current)
        invariant Contents() == goal && numElements == old(numElements) - 1
        decreases End() - current
      {
        ShiftInto(current);
        current := current + 1;
      }
      HoleClosed(View(), HomeOf(), current);
      FewerWithinLoad(old(numElements), numElements, BucketCount());
    }

    method Erase(key: K) returns (removed: nat)
      requires Valid()
      modifies `numElements, `pos, distances, values
      ensures Valid() && Contents() == old(Contents()) - {key}
      ensures removed == if key in old(Contents()) then 1 else 0
      ensures numElements == old(numElements) - removed
    {
      var found := Find(key);
      if found == End() {
        return 0;
      }
      EraseAt(found);
      removed := 1;
    }
  }
}
