# Verified models of the containers, numbers, synchronisation and parsers of a Discord client library

The library carries its own hash tables, a lock-free coroutine mutex, big unsigned integers, a few small
concurrent state machines and a parser-combinator kit. This project models each of them in Dafny and proves what
they are for. `dafny verify dfyconfig.toml` checks everything.

* **Robin Hood hash table** (`FlatTable.dfy`, `FlatHashMap.dfy`, `BitTricks.dfy`; `common/flat_hash_map.hpp`). `FlatTable` is the
  array as a value with its invariant (label = position - home, labels rise by at most one, sentinel at the end) and
  one lemma per kind of write. `FlatHashMap` is the class, with arrays written in place. It refines `map<K, V>`;
  growth ends for every hash, a constant one included, because every reason to grow bounds the logarithm of the size
  by the number of elements (`Doublings`). `BitTricks` shows that the smearing, multiplication and table of `log2` give
  that logarithm for every 64-bit word, and what `next_power_of_two` rounds up to.
* **Bytell hash table** (`BytellTable.dfy`, `BytellChains.dfy`, `BytellInsert.dfy`, `BytellRoom.dfy`,
  `BytellGrowth.dfy`, `BytellHashMap.dfy`; `common/bytell_hash_map.hpp`). One linked list per home bucket in a flat
  array. Ghost `rank` and `pred` per slot make "acyclic, disjoint, terminated, single-home" a conjunction of local
  conditions (`Chained`); `ChainIsBucket` turns it back into the statement about whole lists. `Cut` is the state in the
  middle of a relocation, and `Stored` what is left when a relocation gets stuck: that is all `rehash` needs. Growth of
  this table need *not* end: `BytellRoom` has a set of 127 keys, with their 64-bit hashes, that no table of any size
  holds (`NoTableHolds`, `UnfitKeys`), so the class has an allocation limit and its inserting methods return `Done` or
  `Refused`. The number is sharp: any 126 keys fit every table that is large enough (`OpenInserts`). `BytellGrowth`
  gives a whole insertion, growth and refusals included, as a function on table values, and each method of the class
  ends in exactly that table or that refusal. `InsertEnds` says how it ends. A refused size is one that a growth asks
  for on the way to the keys the table is to hold (`Denied`): first the size for the elements stored when the key does
  not fit, then, if that is granted, a size that a table of those slots may have to grow to for these keys, and so on.
  If the first size is granted and a table of it is `Open` for the keys, which depends only on their hashes, the
  insertion succeeds there. Up to 126 elements in all are always inserted if the sizes up to a bound computed from
  their number are granted.
* **Coroutine mutex** (`MutexProtocol.dfy`, `MutexTheorems.dfy`, `AsyncMutex.dfy`; `common/async_mutex.h`). Any number
  of agents, each with a program counter, take sequentially consistent atomic steps in any order. `AsyncMutex` has
  the code's own fields and one method per atomic step, each shown to be a protocol step. A request for the lock is
  never lost, in any interleaving, and from every reachable state it can be granted (`RequestNeverLost`, `CanBeGranted`).
* **Big integers** (`Digits.dfy`, `Decimal.dfy`, `BigUint.dfy`, `BigUintText.dfy`; `common/big_uint.h`). Base 2^32
  arithmetic, the nine-digits-at-a-time reader and the printer with its separate base-10 accumulator, joined by the
  round trips `PrintAndRead` and `ReadAndPrint`. That numerals stand in the order of their numbers (`NumeralsInOrder`)
  ties the text to its characters.
* **Coroutine queue** (`QueueProtocol.dfy`, `AsyncQueue.dfy`; `common/concurrent_async_queue.h`). The code's own
  fullness test makes the ring hold at most one value, whatever its size, although the comments beside it describe a
  ring with one slot wasted (`FullMeansOne`, `FullIsNotAllButOne`): the model follows the code. The queue is still
  first in, first out, because everything else goes to the overflow. Waiters are stacked: the newest is served
  first (`NewestFirst`).
* **Rate limiter** (`RateLimiterRuns.dfy`, `RateLimiterTwice.dfy`, `RateLimiter.dfy`; `common/rate_limiter.h`). Some
  guarantees hold on every run, others when the stated precondition (a bucket is not limited twice) is kept.
  `HarmlessExactly` says when limiting a bucket again does no harm: exactly when no deadline still to come for it lies
  after the new one.
* **Identify scheduling** (`IdentifyScheduler.dfy`; `include/client.h`).
* **Parser combinators** (`Parsing.dfy`, `NumberLists.dfy`; `command_parser/`). Sequencing, alternatives and
  delimited lists over arbitrary parsers, then lists of 64-bit numbers. `uint64_parser` does not fail on a number out of
  range: it yields 0 and takes all the digits, so a printed list is read back exactly when every number fits
  (`PrintAndReadList`).

Shared: `HashPolicy.dfy` (bucket of a hash, logarithm) and `Wrappers.dfy` (`Option`).

## Model

| member | source | states |
|---|---|---|
| HashPolicy.SameStep | common/flat_hash_map.hpp:1230-1237 | the full reduction of `find` and the cheap one of the list cursor give the same slot for every index |
| HashPolicy.BucketOf | common/flat_hash_map.hpp:1230-1233 | every hash that is a multiple of the bucket count and then an index has that index |
| HashPolicy.MaskIsRemainder | common/flat_hash_map.hpp:1243-1252 | masking with size - 1, bit by bit, is the remainder for every power-of-two size |
| BitTricks.ShiftDivides | common/flat_hash_map.hpp:221-227 | shifting a 64-bit word right divides its value, rounding down |
| BitTricks.SmearIs | common/flat_hash_map.hpp:221-226 | six shifts and ors set exactly the bits up to the top one |
| BitTricks.Log2TableIs | common/flat_hash_map.hpp:208-228 | for every word but 0 the top bit times the constant, modulo 2^64, shifted by 58, leads to the logarithm in the table |
| BitTricks.NextPowerOfTwoIs | common/flat_hash_map.hpp:253-264 | the power of two from the size up to, not including, its double; 0 in 64 bits exactly for 0 and beyond 2^63 |
| HashPolicy.Log2Doubles | common/flat_hash_map.hpp:868-871 | doubling a size raises its logarithm |
| FlatTable.LabelsFitByte | common/flat_hash_map.hpp:203-204 | in a table of fewer than 2^64 buckets every label and the probe limit fit `int8_t` |
| FlatTable.LookupReaches | common/flat_hash_map.hpp:539-549 | on the way from home to a stored key no label is smaller than the distance walked, so the early stop misses nothing |
| FlatTable.ProbeInside | common/flat_hash_map.hpp:539-549 | a probe that has not stopped stands on a stored pair before the sentinel, at a distance below the limit |
| FlatTable.RunOfOccupied | common/flat_hash_map.hpp:855-863 | m consecutive slots in use hold m different keys |
| FlatTable.LongProbe | common/flat_hash_map.hpp:855-863 | reaching the probe limit takes at least `max_lookups` stored elements |
| FlatTable.PutInEmpty | common/flat_hash_map.hpp:843-848 | filling an empty slot at the carried distance keeps the whole Robin Hood invariant |
| FlatTable.Displace | common/flat_hash_map.hpp:849-854 | exchanging with a pair closer to its home keeps the invariant, and the displaced pair's label is its distance from its own home |
| FlatTable.ExchangeContents | common/flat_hash_map.hpp:837-839 | an exchange keeps the map made of the table and the pair in hand |
| FlatTable.TakeOutLeavesHole | common/flat_hash_map.hpp:673-675 | destroying a pair leaves a table in order everywhere but across one hole |
| FlatTable.ShiftMovesHole | common/flat_hash_map.hpp:676-680 | one turn of the backward shift moves the hole on by one and keeps labels equal to distances; the next slot is never the sentinel |
| FlatTable.HoleClosed | common/flat_hash_map.hpp:676-681 | where the shift stops the invariant is whole again |
| FlatTable.GrowthJustified | common/flat_hash_map.hpp:826-830 | each of the three reasons to grow bounds the logarithm of the size by the number of elements |
| FlatTable.DoublingsDrop | common/flat_hash_map.hpp:868-871 | so each growth lowers the number of doublings still possible |
| FlatHashMap.FlatHashMap.constructor | common/flat_hash_map.hpp:789-794 | a new table is the empty map |
| FlatHashMap.FlatHashMap.Probe | common/flat_hash_map.hpp:578-586 | the walk ends at the key's slot when it is stored, and otherwise at the first label below the distance, inside the array |
| FlatHashMap.FlatHashMap.Find | common/flat_hash_map.hpp:539-549 | the pair of the key when the map has it, `end()` when not |
| FlatHashMap.FlatHashMap.Emplace | common/flat_hash_map.hpp:575-587 | inserts exactly when the key is absent; the map gains that pair and nothing else; terminates for any hash; no growth below the load factor while fewer pairs are stored than a probe may take steps |
| FlatHashMap.FlatHashMap.EmplaceNewKey | common/flat_hash_map.hpp:822-866 | the new pair is added once, found at the returned slot; the three conditions at the top force growth to at least the size `grow` asks for, exactly that size while the pairs are no more than its probe limit; an empty slot is filled without growing |
| FlatHashMap.FlatHashMap.PlaceAt | common/flat_hash_map.hpp:831-836 | writes the pair and its label in the empty slot and keeps the table valid |
| FlatHashMap.FlatHashMap.SwapAt | common/flat_hash_map.hpp:849-854 | table and carried pair together stay the same map, the slot holds the new pair and label |
| FlatHashMap.FlatHashMap.SwapBack | common/flat_hash_map.hpp:858-861 | putting the carried pair into the result slot restores exactly the old contents and gives the new pair back |
| FlatHashMap.FlatHashMap.DisplaceTurn | common/flat_hash_map.hpp:841-865 | one turn: the carried pair settles, or a pair goes on one slot further with the same map to complete, or the limit is reached with at least that many elements stored |
| FlatHashMap.FlatHashMap.DisplaceFrom | common/flat_hash_map.hpp:837-865 | either everything displaced found a place, or the contents are the old ones, the new pair is in hand and at least `max_lookups` elements are stored |
| FlatHashMap.FlatHashMap.Grow | common/flat_hash_map.hpp:868-871 | at least doubles the buckets and keeps the map; exactly the size asked for while the pairs are no more than its probe limit |
| FlatHashMap.FlatHashMap.Rehash | common/flat_hash_map.hpp:624-658 | keeps the map and the count and installs at least the size asked for, exactly that while the pairs are no more than its probe limit |
| FlatHashMap.FlatHashMap.RequestedIsLeast | common/flat_hash_map.hpp:624-626 | the smallest number not below the one asked for that keeps the load factor |
| FlatHashMap.FlatHashMap.GrowthDoubles | common/flat_hash_map.hpp:868-871 | growing asks for twice the buckets, four at least; the number of elements never matters |
| FlatHashMap.FlatHashMap.Refill | common/flat_hash_map.hpp:646-656 | scanning the old array rebuilds its map, each pair once, even if inner insertions grow again |
| FlatHashMap.FlatHashMap.EraseAt | common/flat_hash_map.hpp:671-682 | removes exactly the pair at the slot and keeps the invariant |
| FlatHashMap.FlatHashMap.Erase | common/flat_hash_map.hpp:671-682 | removes exactly the key and counts it |
| BytellTable.MasksAgree | common/bytell_hash_map.hpp:38-48 | the bit masks on a control byte and the arithmetic of the model are the same on every byte |
| BytellTable.CodesDoNotCollide | common/bytell_hash_map.hpp:36-50 | writing any usable jump code keeps a byte in use distinct from empty and reserved, and keeps its kind |
| BytellTable.StepDoesNotWrap | common/bytell_hash_map.hpp:58-78 | slot plus jump distance never wraps in 64 bits for tables of up to 2^63 slots |
| BytellTable.FindStepsLikeNext | common/bytell_hash_map.hpp:418-434 | `find` visits the slots `next()` visits |
| BytellChains.HeadOfChain | common/bytell_hash_map.hpp:939-944 | the home slot of every stored key heads that key's chain |
| BytellChains.SameRankSameSlot | common/bytell_hash_map.hpp:824-829 | two pairs of one chain at the same place are the same pair |
| BytellChains.MoveStep | common/bytell_hash_map.hpp:888-904 | moving one entry of a cut chain leaves the chain cut one entry later and every other link intact |
| BytellChains.MoveLast | common/bytell_hash_map.hpp:890-898 | moving the last entry makes the whole table chained again |
| BytellChains.DropAll | common/bytell_hash_map.hpp:586-613 | filling the gap from the chain's end, or unlinking its end, keeps every chain and removes exactly one pair |
| BytellChains.NotOwnParent | common/bytell_hash_map.hpp:606-607 | an entry is never its own predecessor |
| BytellInsert.OneMove | common/bytell_hash_map.hpp:888-910 | one turn of the relocation loop: contents, order within chains, the reserved mark and the cut-chain invariant |
| BytellInsert.RelocateKeeps | common/bytell_hash_map.hpp:888-910 | a relocation loses and duplicates nothing, finished or stuck, moves no other chain's keys, and when finished leaves every chain whole and the home slot free |
| BytellInsert.InsertSound | common/bytell_hash_map.hpp:862-937 | an insertion without growth gives a chained table with exactly the new pair more |
| BytellInsert.InsertIsRelocate | common/bytell_hash_map.hpp:880-915 | at a slot held by a foreign chain the insertion is the relocation of that entry and its tail followed by the new head |
| BytellInsert.InsertAddsLast | common/bytell_hash_map.hpp:862-937 | an insertion puts the new pair after all others of its chain and keeps the order of every chain, relocated or not |
| BytellInsert.RelocationExample | common/bytell_hash_map.hpp:880-915 | a concrete relocation: inserting 1 moves 4 out of its home slot and relinks it from 0 |
| BytellInsert.ChainIsBucket | common/bytell_hash_map.hpp:779-860 | the list from a bucket holds exactly the keys at home there, each once, and ends |
| BytellRoom.JumpsIncrease | common/bytell_hash_map.hpp:58-78 | the 126 jump distances strictly increase |
| BytellRoom.JumpsAreTriangular | common/bytell_hash_map.hpp:52-78 | the first 16 jump distances are the integers from 0, all others triangular numbers |
| BytellRoom.RootsGrow | common/bytell_hash_map.hpp:52-78 | of 66 consecutive numbers from 6 on, then of 44 from 86 on that grow by half each time |
| BytellRoom.StepsDistinct | common/bytell_hash_map.hpp:957-967 | jumps shorter than the table lead to different slots |
| BytellRoom.NoExcess | common/bytell_hash_map.hpp:862-937 | there are no list entries to place exactly when all homes are different |
| BytellRoom.OpenForFewer | common/bytell_hash_map.hpp:862-937 | a table open for some keys is open for any of them |
| BytellRoom.FewAreOpen | common/bytell_hash_map.hpp:957-967 | whatever the hashes, a table is open for fewer keys than it has short jumps |
| BytellRoom.NoneFree | common/bytell_hash_map.hpp:957-967 | finding no free slot takes as many list entries as there are slots within reach that are no key's home, also while a home slot is reserved |
| BytellRoom.NoWayBack | common/bytell_hash_map.hpp:888-910 | in a very large table no jump leads from a list entry back to the head of its chain |
| BytellRoom.NoneFreeMarked | common/bytell_hash_map.hpp:888-910 | there no relocation of up to 125 pairs finds itself without a free slot |
| BytellRoom.RelocateFinishes | common/bytell_hash_map.hpp:888-910 | in an open table every relocation finishes |
| BytellRoom.OwnHomeEmpty | common/bytell_hash_map.hpp:862-874 | when all homes are different the home slot of a new key is empty |
| BytellRoom.OpenInserts | common/bytell_hash_map.hpp:862-937 | below the load factor an open table takes any of the keys without growing, in any order, relocation included |
| BytellRoom.RequestBounded | common/bytell_hash_map.hpp:969-972 | a table that may have to grow for a total of at most 126 elements asks for no more than a bound in that total |
| BytellRoom.RequestedIsLeast | common/bytell_hash_map.hpp:527-529 | the smallest number not below the one asked for that keeps the load factor |
| BytellRoom.GrowthDoubles | common/bytell_hash_map.hpp:969-972 | growing asks for twice the slots, ten at least; the number of elements never matters |
| BytellRoom.FewFitAfterGrowth | common/bytell_hash_map.hpp:969-972 | for up to 14 elements the first growth asked for leaves more short jumps than elements |
| BytellRoom.NoTableHolds | common/bytell_hash_map.hpp:957-967 | no table of any size stores two keys of one hash together with a key at each of the 125 jump distances from it |
| BytellRoom.GrowthCannotHelp | common/bytell_hash_map.hpp:957-967 | the last of such keys is not inserted at any table size |
| BytellRoom.UnfitKeys | common/bytell_hash_map.hpp:58-78 | such keys exist: 127, with hashes below 2^64 |
| BytellGrowth.FittedIsSound | common/bytell_hash_map.hpp:862-937 | where a new key fits, the table stays in order, of its size, and gains exactly that pair |
| BytellGrowth.LoadDecides | common/bytell_hash_map.hpp:761-766 | nothing fits beyond 15/16 of the slots, and below it an empty home slot is taken |
| BytellGrowth.AbandonedKeeps | common/bytell_hash_map.hpp:899-909 | a relocation given up half-way leaves the same pairs to be rehashed |
| BytellGrowth.Insert | common/bytell_hash_map.hpp:862-937 | however often it grows, an insertion that is done gives a table in order with exactly the new pair more |
| BytellGrowth.Rebuild | common/bytell_hash_map.hpp:555-571 | the scan of the old array, with the growths within it, gives a table in order with the old contents |
| BytellGrowth.InsertJustified | common/bytell_hash_map.hpp:969-972 | each growth of an insertion, nested ones included, goes to a size that a table in need of growing for these keys asks for, and the refused size is one too |
| BytellGrowth.OpenStays | common/bytell_hash_map.hpp:969-972 | an open table with room under the load factor for all the keys never grows and is never refused anything |
| BytellGrowth.AffordableNotDenied | common/bytell_hash_map.hpp:969-972 | when all sizes up to the bound for the total are granted, none asked for on the way to up to 126 keys is refused |
| BytellGrowth.InsertEnds | common/bytell_hash_map.hpp:862-937 | without growing exactly when it fits; refused at once exactly when it does not and the first size is not granted; done at the first size when that is granted and open for the keys; done with up to 14 stored if that one is granted, and up to 126 in all if the sizes up to their bound are; a refused size is beyond the limit and was asked for on the way to these keys |
| BytellGrowth.RehashEnds | common/bytell_hash_map.hpp:527-573 | refused at once when the size is not granted; done at that size when it is granted and open for the keys stored; any other refusal is of a size asked for on the way to them |
| BytellHashMap.BytellHashMap.WalkChain | common/bytell_hash_map.hpp:463-490 | the walk ends at the key when it is stored, and otherwise at a non-head home slot or at the chain's last slot |
| BytellHashMap.BytellHashMap.Find | common/bytell_hash_map.hpp:410-436 | the slot of the key exactly when the map has it |
| BytellHashMap.BytellHashMap.FindFreeIndex | common/bytell_hash_map.hpp:957-967 | the first jump code that leads to an empty slot, or 0 when none does |
| BytellHashMap.BytellHashMap.FindParentBlock | common/bytell_hash_map.hpp:945-955 | terminates at the predecessor in the entry's own chain |
| BytellHashMap.BytellHashMap.MoveEntry | common/bytell_hash_map.hpp:890-902 | the writes of one turn are the model's `Move`, and the next entry is the one the old link led to |
| BytellHashMap.BytellHashMap.MoveOne | common/bytell_hash_map.hpp:890-902 | one turn of the loop leaves the same relocation still to do, one entry further, or has finished it |
| BytellHashMap.BytellHashMap.SetNext | common/bytell_hash_map.hpp:830-834 | a slot in use stays in use and of its kind, links by the jump code given, and no other control byte changes |
| BytellHashMap.BytellHashMap.RelocateTail | common/bytell_hash_map.hpp:888-910 | the loop does what `Relocate` says and reports whether it finished |
| BytellHashMap.BytellHashMap.MakeRoom | common/bytell_hash_map.hpp:880-910 | finding the parent and relocating keeps every pair in one slot in use, whether or not there was room |
| BytellHashMap.BytellHashMap.EmplaceDirectHit | common/bytell_hash_map.hpp:862-916 | inserts the pair once, without growing exactly when it fits, else after at least a doubling; ends in the very table, or the very refusal, of the value-level insertion |
| BytellHashMap.BytellHashMap.EmplaceNewKey | common/bytell_hash_map.hpp:918-937 | the same for appending to the key's own chain |
| BytellHashMap.BytellHashMap.GrowAndEmplace | common/bytell_hash_map.hpp:904-909 | from any table that still stores every pair, broken links or not, growing and inserting gives a valid table with the pending pair added once; ends in exactly the table or refusal of doing so on values |
| BytellHashMap.BytellHashMap.Grow | common/bytell_hash_map.hpp:969-972 | at least doubles the slots, reaches the size asked for and keeps the map; ends in exactly the table or refusal of a rehash to that size |
| BytellHashMap.BytellHashMap.Rehash | common/bytell_hash_map.hpp:527-573 | keeps the map; needs only that every pair is in a slot in use; never refused when nothing is allocated, otherwise ends in exactly the table or refusal of the value-level rehash; done at the size asked for when that is granted and open for the keys |
| BytellHashMap.BytellHashMap.Refill | common/bytell_hash_map.hpp:555-571 | scanning control bytes alone rebuilds the map of the old array, each pair once, in exactly the table the value-level scan gives, or with its refusal |
| BytellHashMap.BytellHashMap.Emplace | common/bytell_hash_map.hpp:463-490 | inserts exactly when the key is absent and returns the key's slot; ends in exactly the table or refusal of the value-level insertion; done at the first size when that is granted and open for the keys, never refused with up to 14 elements stored if it is granted, nor up to 126 in all while the sizes up to their bound are; a refused size is beyond the limit and was asked for on the way to these keys |
| BytellHashMap.BytellHashMap.NeverStored | common/bytell_hash_map.hpp:957-967 | keys that fit no table are never all stored, whatever the hash policy and the limit |
| BytellHashMap.BytellHashMap.EmplaceUnfit | common/bytell_hash_map.hpp:463-490 | inserting the last of them is always refused, for a size asked for on the way to them |
| BytellHashMap.BytellHashMap.WalkToLast | common/bytell_hash_map.hpp:589-597 | reaches the last slot of the chain and its predecessor |
| BytellHashMap.BytellHashMap.EraseInside | common/bytell_hash_map.hpp:589-603 | the chain's last pair fills the gap; exactly one pair goes |
| BytellHashMap.BytellHashMap.EraseEnd | common/bytell_hash_map.hpp:604-610 | the last pair goes and the link to it is cleared |
| BytellHashMap.BytellHashMap.EraseAt | common/bytell_hash_map.hpp:586-613 | removes exactly the pair at the slot, keeps every chain and the element count |
| BytellHashMap.BytellHashMap.Erase | common/bytell_hash_map.hpp:586-613 | removes exactly the key and counts it |
| MutexProtocol.StepKeepsInv | common/async_mutex.h:255-317 | every atomic step of every agent keeps the invariant of word, links, stack, batch and owner |
| MutexProtocol.RunKeepsInv | common/async_mutex.h:255-317 | so does every run |
| MutexTheorems.MutualExclusion | common/async_mutex.h:255-317 | in every run at most one agent holds the lock |
| MutexTheorems.OnePlace | common/async_mutex.h:212-271 | a suspended awaiter is in exactly one of the stack, the batch and a hand-over, once |
| MutexTheorems.ResumedOnce | common/async_mutex.h:219-232 | over any stretch of a run an awaiter is resumed once per suspension |
| MutexTheorems.NoBarging | common/async_mutex.h:255-276 | while anybody waits the word never reads unlocked and nobody acquires it |
| MutexTheorems.UnlockAssertionsHold | common/async_mutex.h:255-271 | both assertions in `unlock` hold in every run |
| MutexTheorems.BatchServedInOrder | common/async_mutex.h:265-270 | a detached batch is served in its order before anyone who registered later |
| MutexTheorems.UnlocksBalance | common/async_mutex.h:255-271 | every unlock either releases or hands over to one awaiter |
| MutexTheorems.UnlocksServePrefix | common/async_mutex.h:255-271 | while members of a batch are left, those served are its first ones, as many as unlocks finished |
| MutexTheorems.KthUnlockServesKth | common/async_mutex.h:255-271 | the k-th member of a detached batch is taken off by the k-th unlock, the detaching one counted, for every k up to the last |
| MutexTheorems.OwnerCanMove | common/async_mutex.h:255-271 | while somebody is suspended another agent owns the lock, and its next step changes the state |
| MutexTheorems.Drain | common/async_mutex.h:255-271 | from every reachable state the owners alone can run until nobody waits and the mutex is unlocked |
| MutexTheorems.StepKeepsRequest | common/async_mutex.h:299-317 | in every step a lock request goes on, is registered or gets the lock, a waiter waits until it is resumed with the lock, and an owner stays one until it releases or hands over; nobody is moved by another's step but a waiter resumed |
| MutexTheorems.RequestNeverLost | common/async_mutex.h:299-317 | over every run a request is still being made, waits or has been granted |
| MutexTheorems.Alone | common/async_mutex.h:299-317 | an agent that asks and moves alone has the lock, or is registered if it is taken, after at most four steps |
| MutexTheorems.CanBeGranted | common/async_mutex.h:255-317 | from every reachable state every request can be granted |
| MutexTheorems.StaleHeadHarmless | common/async_mutex.h:309-313 | a compare-exchange on a head read long before puts the awaiter on the stack as it is now |
| MutexTheorems.AddressReturns | common/async_mutex.h:299-317 | one run from the start in which the head leaves and returns between the read and the exchange |
| AsyncMutex.AsyncMutex.constructor | common/async_mutex.h:319-325 | the initial object is the protocol's initial state |
| AsyncMutex.AsyncMutex.BeginLock | common/async_mutex.h:219-221 | entering `try_lock` with an awaiter is a protocol step |
| AsyncMutex.AsyncMutex.Load | common/async_mutex.h:302 | the load is a protocol step |
| AsyncMutex.AsyncMutex.TryOnce | common/async_mutex.h:304-310 | one turn of the loop on the value last seen is a protocol step |
| AsyncMutex.AsyncMutex.Register | common/async_mutex.h:309-313 | a protocol step: the awaiter goes on top of the stack if the word holds what was read, and otherwise the loop goes round with the value found |
| AsyncMutex.AsyncMutex.TryLockOnce | common/async_mutex.h:273-276 | locks exactly when the word read unlocked |
| AsyncMutex.AsyncMutex.BeginUnlock | common/async_mutex.h:255-258 | looking at the batch is a protocol step |
| AsyncMutex.AsyncMutex.TryRelease | common/async_mutex.h:258-263 | the releasing compare-exchange is a protocol step |
| AsyncMutex.AsyncMutex.DetachAll | common/async_mutex.h:265 | the exchange that detaches the stack is a protocol step |
| AsyncMutex.AsyncMutex.PopNext | common/async_mutex.h:268-269 | taking the next awaiter off the batch is a protocol step; the pointer is never null |
| AsyncMutex.AsyncMutex.Resume | common/async_mutex.h:270 | resuming hands the lock over |
| Digits.TrimmedUnique | common/big_uint.h:298 | numerals without a zero on top are equal when their values are |
| BigUint.LimbEquality | common/big_uint.h:298 | limb equality is value equality |
| BigUint.LimbWeights | common/big_uint.h:17-27 | the second limb counts 2^32 times the first |
| BigUint.EqualsLimbMeansValue | common/big_uint.h:497-502 | comparing with a 32-bit number compares values |
| BigUint.TrimTrailingZeros | common/big_uint.h:564-568 | drops exactly the zero limbs on top |
| BigUint.SumStep | common/big_uint.h:201-205 | a limb sum with carry stays below 2^64 and carries exactly |
| BigUint.Plus | common/big_uint.h:178-210 | the exact sum, with no zero top limb |
| BigUint.DifferenceLimbExact | common/big_uint.h:232-241 | the wrapped 32-bit expressions give the borrow step exactly |
| BigUint.Minus | common/big_uint.h:216-247 | the exact difference when it is not negative, and otherwise the difference plus 2^32 to the longer length |
| BigUint.LimbProduct | common/big_uint.h:369-371 | a limb product plus carry stays below 2^64 and its high half is a limb |
| BigUint.TimesLimb | common/big_uint.h:385-401 | the exact product; nothing needs trimming |
| BigUint.Row | common/big_uint.h:361-376 | one shifted row of the schoolbook method |
| BigUint.Times | common/big_uint.h:355-383 | the exact product, with no zero top limb |
| BigUint.NineDigits | common/big_uint.h:112-119 | a chunk of up to nine digits and its power of ten fit 32 bits |
| BigUint.BigUint.FromDecimal | common/big_uint.h:94-133 | reads the value of any digit string, leading zeros and all; of any other text exactly the number that its chunks of nine, each as far as it starts with digits, add up to |
| BigUint.NumberRead | common/big_uint.h:112-123 | the text read is the text itself exactly when that is all digits, and nothing when it does not start with one |
| BigUint.ShortText | common/big_uint.h:112-123 | a text of up to nine characters is worth the digits it starts with |
| BigUint.LongText | common/big_uint.h:112-123 | a longer one is read as its first nine characters followed by the rest, unless it does not start with a digit |
| BigUint.BigUint.PlusAssign | common/big_uint.h:308-340 | the exact sum in place, also for `b += b` |
| BigUint.BigUint.TimesAssignLimb | common/big_uint.h:342-344 | the exact product in place |
| BigUintText.DecimalAccumulator.PlusLimb | common/big_uint.h:581-592 | adds a 32-bit number to the decimal digits exactly and keeps them shortest |
| BigUintText.DecimalAccumulator.Plus | common/big_uint.h:622-645 | adds two digit strings exactly; one digit longer at most, and then with a nonzero top |
| BigUintText.DecimalAccumulator.Scale | common/big_uint.h:608-620 | the value of the wrapped products; it is the exact product exactly when the product of every digit fits 64 bits, and then the digits stay shortest |
| BigUintText.DecimalAccumulator.ShiftLeft | common/big_uint.h:647-652 | the value is multiplied by that power of ten, the old digits follow that many zeros, also when the digits are empty |
| BigUintText.ToString | common/big_uint.h:666-680 | the canonical decimal text of the value |
| BigUintText.PrintAndRead | common/big_uint.h:666-680 | printing and reading gives the same limbs, for every number |
| BigUintText.ReadAndPrint | common/big_uint.h:94-133 | reading and printing a digit string gives it back exactly when it has no redundant leading zero and is not empty |
| Decimal.PrintThenParse | common/big_uint.h:658-660 | the canonical text of a number is canonical and stands for it |
| Decimal.ParseThenPrint | common/big_uint.h:94-133 | a digit string is the text of its value exactly when it is canonical |
| Decimal.OrderOfTexts | common/big_uint.h:94-133 | digit strings of one length stand for numbers in the order of their characters |
| Decimal.NumeralsInOrder | common/big_uint.h:658-660 | the numeral of a smaller number is shorter or comes first in character order, and only then; with one numeral for each number that fixes them all |
| QueueProtocol.PushAppends | common/concurrent_async_queue.h:238-254 | a push appends to the queue, or hands the value to the newest waiter, who waits only at an empty queue |
| QueueProtocol.SuspendTakes | common/concurrent_async_queue.h:270-280 | a pop takes the oldest value, and suspends exactly when there is none |
| QueueProtocol.StepKeepsInv | common/concurrent_async_queue.h:238-330 | every step keeps the invariant, no popper's outcome ever changes, and the history records exactly the pushes and pops made |
| QueueProtocol.RunKeepsInv | common/concurrent_async_queue.h:238-330 | so does every run |
| QueueProtocol.Fifo | common/concurrent_async_queue.h:238-330 | over any run, delivered values in order followed by the queue are the pushed values |
| QueueProtocol.WaitingMeansDelivered | common/concurrent_async_queue.h:242-246 | no lost wake-up: while somebody waits everything pushed has been delivered |
| QueueProtocol.OnePlace | common/concurrent_async_queue.h:262-316 | every popper is waiting, being resumed, being cancelled or done, exactly one of these |
| QueueProtocol.DeliveredOnce | common/concurrent_async_queue.h:242-280 | the k-th delivered value is the k-th pushed, goes to one popper for good, and that popper gets nothing else |
| QueueProtocol.NewestFirst | common/concurrent_async_queue.h:242-246 | for every n a run in which n later poppers are served while the first still waits |
| QueueProtocol.CancelTakesAll | common/concurrent_async_queue.h:301-306 | a cancellation takes out everyone who waits and leaves the values alone |
| QueueProtocol.Settle | common/concurrent_async_queue.h:301-316 | from every reachable state the resumptions under way can be completed: whoever was handed a value has it, whoever was cancelled the exception |
| QueueProtocol.CancelSettles | common/concurrent_async_queue.h:301-316 | on every run, after a cancellation is settled every popper has a value or the exception |
| AsyncQueue.FullMeansOne | common/concurrent_async_queue.h:185-187 | the fullness test holds exactly when one value is stored |
| AsyncQueue.FullIsNotAllButOne | common/concurrent_async_queue.h:181-187 | it is the test for all slots but one in use only for a ring of size 2 |
| AsyncQueue.Ring.TryPush | common/concurrent_async_queue.h:193-201 | accepts a value exactly when the ring is empty, and appends it |
| AsyncQueue.Ring.TryPop | common/concurrent_async_queue.h:203-211 | takes the first value, or none from an empty ring |
| AsyncQueue.AsyncQueue.PushLocked | common/concurrent_async_queue.h:240-254 | the section under the mutex is the model's push; only the waiter taken out is written |
| AsyncQueue.AsyncQueue.PushValue | common/concurrent_async_queue.h:238-259 | exactly that waiter is resumed, once, with the value |
| AsyncQueue.AsyncQueue.PopOne | common/concurrent_async_queue.h:322-330 | takes the first value and refills the ring from the overflow; the ignored result of the refill is always success |
| AsyncQueue.AsyncQueue.AwaitSuspend | common/concurrent_async_queue.h:270-280 | a value at once or a place on top of the waiter stack |
| AsyncQueue.AsyncQueue.CancelAll | common/concurrent_async_queue.h:301-316 | everyone waiting gets the exception and is resumed once; nobody waits afterwards |
| RateLimiterRuns.LowerBoundHits | common/rate_limiter.h:55 | in a sorted list the lower bound of a limited bucket is its first entry |
| RateLimiterRuns.CallbackHits | common/rate_limiter.h:53-59 | the unchecked dereference in the callback always finds an entry of the timer's own bucket |
| RateLimiterRuns.RunKeepsPaired | common/rate_limiter.h:14-63 | on every run the entries stay sorted and each bucket has as many timers as entries |
| RateLimiterRuns.RunConserves | common/rate_limiter.h:14-63 | on every run each object held is released once, for its own bucket, or still stored |
| RateLimiterRuns.ReleasedOnceInOrderOnTime | common/rate_limiter.h:14-63 | on every run that keeps the precondition: one entry per bucket and one timer with its own deadline, release in arrival order per bucket, never before the deadline |
| RateLimiterRuns.NothingLeftBehind | common/rate_limiter.h:53-61 | once all timers have run everything held has been released |
| RateLimiterRuns.AllGivenBack | common/rate_limiter.h:14-63 | from every state of every run, letting the timers run gives back each object held, once, for its own bucket |
| RateLimiterRuns.LookupAfterInsert | common/rate_limiter.h:26-29 | the new entry is in force for its bucket, and every other bucket keeps its entry |
| RateLimiterRuns.LookupAfterHold | common/rate_limiter.h:16-21 | only the objects of the limited bucket change |
| RateLimiterRuns.LookupAfterRemove | common/rate_limiter.h:55-57 | only the bucket of the removed entry is free afterwards |
| RateLimiterRuns.LimitNeedsFreeBucket | common/rate_limiter.h:25-42 | a call keeps one entry per bucket exactly when its bucket was free |
| RateLimiterRuns.EarlyWhenLimitedTwice | common/rate_limiter.h:25-42 | limiting again with an earlier deadline releases the held objects early |
| RateLimiterTwice.FoundExpired | common/rate_limiter.h:53-59 | the entry a callback finds has expired, though the timer may be another's |
| RateLimiterTwice.RunKeepsTimely | common/rate_limiter.h:14-63 | from any state reached so, nothing is released early on any run in which each deadline is at or after those still to come for its bucket |
| RateLimiterTwice.NoneEarlyFromTheStart | common/rate_limiter.h:14-63 | so nothing is released early on any such run from the start |
| RateLimiterTwice.HarmlessExactly | common/rate_limiter.h:25-42 | a call does no harm in any such continuation exactly when no deadline still to come for its bucket lies after the new one |
| RateLimiterTwice.AllowedIsModerate | common/rate_limiter.h:25-42 | keeping the stated precondition is a special case |
| RateLimiter.RateLimiter.MaybeRateLimit | common/rate_limiter.h:14-23 | takes the object in exactly when the bucket is limited |
| RateLimiter.RateLimiter.RateLimit | common/rate_limiter.h:25-42 | inserts the entry in its place and starts its timer |
| RateLimiter.RateLimiter.OnTimer | common/rate_limiter.h:48-63 | removes the bucket's oldest entry and returns its objects |
| IdentifyScheduler.StepKeepsInv | include/client.h:128-162 | every step keeps the invariant |
| IdentifyScheduler.OneAtATime | include/client.h:128-162 | at most one identify scheduled or outstanding, the idle flag exactly when none is, and then nobody waits |
| IdentifyScheduler.FiveSecondsApart | include/client.h:145-162 | any two identifies of a run are at least five seconds apart |
| IdentifyScheduler.FirstAtOnce | include/client.h:188-189 | the first request of all may identify at the time the client is made |
| IdentifyScheduler.WaitsNoLonger | include/client.h:128-162 | a request made while nobody identifies is scheduled exactly five seconds after the last acknowledgement, no timer stands further off than five seconds, and an expired one sends its shard now |
| IdentifyScheduler.LastIsAcknowledged | include/client.h:145-147 | the time kept is that of the last acknowledgement |
| IdentifyScheduler.ScheduledOnce | include/client.h:128-162 | each request is scheduled once or waits, each scheduled shard is sent once in that order |
| IdentifyScheduler.SomebodyIsNext | include/client.h:145-162 | while a request waits an acknowledgement is coming, and it schedules the newest request |
| IdentifyScheduler.StrayAcknowledgement | include/client.h:145-162 | an acknowledgement for nothing keeps the invariant exactly when nothing was scheduled |
| IdentifyScheduler.Client.QueueToIdentify | include/client.h:128-143 | the request is scheduled five seconds after the last acknowledgement if nobody identifies, and otherwise waits on the stack |
| IdentifyScheduler.Client.NotifyIdentified | include/client.h:145-162 | records the time and schedules the newest request, or raises the idle flag |
| IdentifyScheduler.Client.OnTimer | include/client.h:134-138 | the expired timer's shard identifies now |
| IdentifyScheduler.Client.constructor | include/client.h:188-191 | the first identify need not wait |
| Parsing.ConsecutiveMeans | command_parser/useful_parsing_stuff.h:33-61 | the sequence succeeds exactly when each parser succeeds on what the one before left, and fails with the first failure's reason |
| Parsing.ThreadsIsResult | command_parser/useful_parsing_stuff.h:33-61 | any such threading of all the parsers is the result |
| Parsing.ParseMultiConsecutive2 | command_parser/useful_parsing_stuff.h:84-110 | the early-exit form gives the same values and rest as the recursive one whenever that succeeds, and fails without a reason whenever it fails |
| Parsing.FirstSuccess | command_parser/useful_parsing_stuff.h:5-19 | the first success, or the last parser's failure |
| Parsing.ListParser1 | command_parser/list_parser.h:44-74 | the values of the successes one after the other up to the first failure, and the text it failed on; ends for every consuming parser; the rest is an end of the input |
| Parsing.NoProgressNoEnd | command_parser/list_parser.h:50-63 | a success that takes nothing keeps the loop going for ever |
| Parsing.EndsExactlyIfConsuming | command_parser/list_parser.h:50-63 | for a parser that leaves an end of its input the loop ends on every input exactly when each success takes something |
| Parsing.DelimiterConsumes | command_parser/list_parser.h:152-161 | the delimiter or the item taking something is enough for the loop to end |
| Parsing.ListParser3 | command_parser/list_parser.h:131-168 | nothing, with the text untouched, when there is no first item; else that item and then each delimiter with its item up to a text where none follows; ends whenever delimiter and item together take something; the rest is an end of the input and keeps a delimiter with no item |
| Parsing.ListParser2 | command_parser/list_parser.h:78-128 | empty, with the text untouched, when there is no first item; else items one by one while the terminator, tried first, fails; success at the terminator and failure where neither it nor an item follows |
| Parsing.TerminatedIsDelimited | command_parser/list_parser.h:78-168 | when no text both ends and continues a list, `list_parser2` is `list_parser3` followed by the terminator |
| NumberLists.LeavesAreProper | command_parser/useful_parsers.h:198-261 | the number and whitespace parsers leave an end of the input, and take something where they must |
| NumberLists.WhitespaceCodes | command_parser/useful_parsers.h:9-12 | whitespace is the space and the codes 9 to 13 |
| NumberLists.ReadDigits | command_parser/useful_parsers.h:248-261 | all digits are read, leading zeros too; a value of more than 64 bits reads as 0; no digit, no number |
| NumberLists.ReadNumeral | command_parser/useful_parsers.h:248-261 | a printed number is read to its end; one out of range reads as 0 |
| NumberLists.ReadWhitespace | command_parser/useful_parsers.h:198-216 | whitespace is taken to its end by both parsers; the one that demands some fails where there is none |
| NumberLists.ReadBlank | command_parser/useful_parsers.h:208-216 | a separator is read to its end |
| NumberLists.ReadJoined | command_parser/list_parser.h:131-168 | any printed list with any whitespace separators is read back up to the text that cannot continue it |
| NumberLists.PrintAndReadList | command_parser/list_parser.h:131-168 | a list joined by spaces is read with nothing left over, each number that fits 64 bits as itself and any other as 0 |

## Left out

- Allocators, iterators, range erase, copying and moving tables, exceptions from element types, user-set load factors, `reserve` and `shrink_to_fit` of the hash tables.
- Blocks of slots: the control bytes and data of a block are one flat array; the scan past the last slot in the last block, which is always empty, is not modelled. Storage of moved-from and destroyed values is "no value".
- The prime table: `next_size_over` is any function that returns at least its argument, and the reduction of a hash is the remainder by the slot count.
- Hashes and sizes are unbounded integers; `StepDoesNotWrap` and `LabelsFitByte` give the bounds under which the 64-bit and 8-bit values of the code are the same. The load factors 1/2 and 15/16 are exact rationals.
- Memory exhaustion in the Robin Hood table: its growth is bounded by the element count, so no limit is modelled; the bytell table has one because its growth is not bounded.
- BytellHashMap.BytellHashMap.Emplace: says nothing about the contents after a refused allocation, as the code gives no guarantee when one throws in the middle of a relocation or a rehash.
- BytellRoom.RequestBounded: for a total of exactly 126 elements the bound passes 2^64, so that case is about unbounded sizes; up to 125 it does not.
- Memory orders: the mutex steps are sequentially consistent. Coroutine handles are agents and counters; the destruction of an awaiter after its resumption is not modelled.
- `async_mutex1`, `async_mutex2` and the other queues of `common/concurrent_async_queue.h`, including the `push_all` operations.
- `sbo_vector` is a plain sequence of limbs.
- Debug printing in `to_string` and `push`, and the capacity hints computed with `log10`.
- Bitwise operators, signed and other-base constructors, wider comparisons and `operator-=` (through a moved-from operand) of `big_uint`.
- Timers cancelled before they expire, which the rate limiter and the client do only when the whole I/O context goes away.
- Parsing.ParseConsecutive: the tuple of values of different types is a sequence of values of one type, and parsers are functions, so parsers that change their own state and exceptions they throw are not covered.
- `list_parser`, `list_parser4`, number parsers of other types, quoted strings and the remaining leaf parsers of `command_parser/useful_parsers.h`: they add no harder property.
- HTTP, websocket, TLS, JSON, voice and REST code, event dispatch and data types of the API.
