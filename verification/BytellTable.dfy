/** The state of `sherwood_v8_table` (common/bytell_hash_map.hpp) as a value: one linked
    list per home bucket, threaded through a flat array by 7-bit jump codes. */
module BytellTable {
  import opened HashPolicy

  // ----- Control bytes -----

  const EMPTY := 255
  const RESERVED := 254
  const DIRECT_HIT := 0
  const LIST_ENTRY := 128
  const NUM_JUMPS := 126
  const LONGEST_JUMP := 5209859150892887590

  /** The 44 steeply growing distances at the end of the source's table. */
  const LARGE_JUMPS: seq<nat> := [
    3741, 8385, 18915, 42486, 95703, 215496, 485605, 1091503, 2456436, 5529475, 12437578,
    27986421, 62972253, 141700195, 318819126, 717314626, 1614000520, 3631437253, 8170829695,
    18384318876, 41364501751, 93070021080]
  const HUGE_JUMPS: seq<nat> := [
    209407709220, 471167588430, 1060127437995, 2385287281530, 5366895564381, 12075513791265,
    27169907873235, 61132301007778, 137547673121001, 309482258302503, 696335090510256,
    1566753939653640, 3525196427195653, 7931691866727775, 17846306747368716, 40154190394120111,
    90346928493040500, 203280588949935750, 457381324898247375, 1029107980662394500,
    2315492957028380766, 5209859150892887590]

  /** The table of 126 jump distances: the first 16 integers, the next 66 triangular numbers
      from 21 to 2556, then the steep ones. */
  function JumpDistance(j: nat): (d: nat)
    requires j < NUM_JUMPS
    ensures d <= LONGEST_JUMP
  {
    if j < 16 then j
    else if j < 82 then (j - 10) * (j - 9) / 2
    else if j < 104 then LARGE_JUMPS[j - 82]
    else HUGE_JUMPS[j - 104]
  }

  /** `distance_from_metadata`: the low seven bits. */
  function Jump(c: nat): (j: nat)
    ensures j < 128
  {
    c % 128
  }

  /** The top bit is clear on the head of a chain. */
  predicate IsDirect(c: nat) { c < 128 }

  /** `set_next`: the jump code is replaced, the top bit stays. */
  function WithJump(c: nat, j: nat): nat { c - c % 128 + j }

  predicate IsFull(c: nat) { c != EMPTY && c != RESERVED }

  lemma LowBits(c: bv8)
    ensures (c & 0x7f) as nat == Jump(c as nat)
    ensures (c & 0x80 == 0) == IsDirect(c as nat)
  {
    assert (c & 0x7f) == c % 128;
    assert (c & 0x80 == 0) == (c < 128);
  }

  /** The masks of the source and the arithmetic here agree on every byte. */
  lemma MasksAgree(c: bv8, j: bv8)
    requires j <= 127
    ensures (c & 0x7f) as nat == Jump(c as nat)
    ensures (c & 0x80 == 0) == IsDirect(c as nat)
    ensures ((c & !0x7f) | j) as nat == WithJump(c as nat, j as nat)
  {
    LowBits(c);
    assert ((c & !0x7f) | j) == c - (c & 0x7f) + j;
  }

  /** A byte in use, with any usable jump code, is never read as empty or reserved, and keeps its kind. */
  lemma CodesDoNotCollide(c: nat, j: nat)
    requires c <= 255 && IsFull(c) && j < NUM_JUMPS
    ensures IsFull(WithJump(c, j)) && WithJump(c, j) <= 255
    ensures Jump(WithJump(c, j)) == j && IsDirect(WithJump(c, j)) == IsDirect(c)
    ensures Jump(EMPTY) >= NUM_JUMPS && Jump(RESERVED) >= NUM_JUMPS
  {
    assert c - c % 128 == (if c < 128 then 0 else 128);
  }

  /** A byte is determined by its kind and its jump code: control bytes that differ at most in one link. */
  lemma Relinked(before: seq<nat>, after: seq<nat>, i: nat, j: nat)
    requires i < |before| == |after| && before[i] <= 255 && after[i] <= 255
    requires Jump(after[i]) == j && (IsDirect(after[i]) <==> IsDirect(before[i]))
    requires forall k :: 0 <= k < |before| && k != i ==> after[k] == before[k]
    ensures after == before[i := WithJump(before[i], j)]
  {
    var c, d := before[i], after[i];
    assert c - c % 128 == (if c < 128 then 0 else 128) && d - d % 128 == (if d < 128 then 0 else 128);
  }

  /** Where jump code j leads from slot i. */
  function Step(i: nat, j: nat, n: nat): (s: nat)
    requires 0 < n && j < NUM_JUMPS
    ensures s < n
  {
    KeepInRange(i + JumpDistance(j), n)
  }

  lemma StepIs(i: nat, j: nat, n: nat)
    requires 0 < n && j < NUM_JUMPS
    ensures Step(i, j, n) == KeepInRange(i + JumpDistance(j), n)
  {
  }

  /** The sum does not wrap in 64 bits for any table of up to 2^63 slots. */
  lemma StepDoesNotWrap(i: nat, j: nat)
    requires i < 0x8000_0000_0000_0000 && j < NUM_JUMPS
    ensures i + JumpDistance(j) < 0x1_0000_0000_0000_0000
  {
  }

  /** `find` reduces with index_for_hash, the cursor with keep_in_range. */
  lemma FindStepsLikeNext(i: nat, j: nat, n: nat)
    requires 0 < n && j < NUM_JUMPS
    ensures IndexForHash(i + JumpDistance(j), n) == Step(i, j, n)
  {
    SameStep(i + JumpDistance(j), n);
  }
}
