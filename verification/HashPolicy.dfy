/** The arithmetic both hash tables share: reducing a hash to a bucket, and the
    logarithm that bounds probing in the Robin Hood table. */
module HashPolicy {

  /** The bucket of a hash among n buckets: `hash % prime` for the prime policy and
      `hash & (n - 1)` for the power-of-two policy (common/flat_hash_map.hpp). */
  function IndexForHash(hash: nat, n: nat): (index: nat)
    requires 0 < n
    ensures index < n
  {
    hash % n
  }

  /** Hashes that differ by a multiple of the bucket count share a bucket, and the smallest of them is its index. */
  lemma BucketOf(multiple: nat, index: nat, n: nat)
    requires index < n
    ensures IndexForHash(multiple * n + index, n) == index
  {
    RemainderUnique(multiple * n + index, multiple, index, n);
  }

  /** The home bucket of every key, as one function value. */
  function Homes<K>(hash: K -> nat, n: nat): K -> nat
    requires 0 < n
  {
    (key: K) => IndexForHash(hash(key), n)
  }

  lemma HomesBelow<K>(hash: K -> nat, n: nat, key: K)
    requires 0 < n
    ensures Homes(hash, n)(key) < n
  {
  }

  /** The cheap reduction used while following links: only an index past the end is reduced. */
  function KeepInRange(index: nat, n: nat): (r: nat)
    requires 0 < n
    ensures r < n
  {
    if index > n - 1 then IndexForHash(index, n) else index
  }

  /** `find` steps with IndexForHash, the list cursor with KeepInRange; both land on the same slot. */
  lemma SameStep(index: nat, n: nat)
    requires 0 < n
    ensures KeepInRange(index, n) == IndexForHash(index, n)
  {
    if index < n {
      SmallMod(index, n);
    }
  }

  lemma SmallMod(x: nat, n: nat)
    requires x < n
    ensures x % n == x
  {
  }

  /** Floor of the binary logarithm; 0 for 0 and 1. */
  function Log2(x: nat): nat
  {
    if x < 2 then 0 else 1 + Log2(x / 2)
  }

  function Pow2(e: nat): (p: nat)
    ensures p >= 1
  {
    if e == 0 then 1 else 2 * Pow2(e - 1)
  }

  lemma {:induction false} Log2Bounds(x: nat)
    requires 0 < x
    ensures Pow2(Log2(x)) <= x < 2 * Pow2(Log2(x))
  {
    if x >= 2 {
      Log2Bounds(x / 2);
    }
  }

  lemma {:induction false} Log2Monotone(x: nat, y: nat)
    requires x <= y
    ensures Log2(x) <= Log2(y)
  {
    if x >= 2 {
      Log2Monotone(x / 2, y / 2);
    }
  }

  /** Doubling a size raises its logarithm. */
  lemma Log2Doubles(x: nat, y: nat)
    requires 0 < x && 2 * x <= y
    ensures Log2(y) >= Log2(x) + 1
  {
    Log2Monotone(2 * x, y);
    assert (2 * x) / 2 == x;
  }

  lemma {:induction false} Log2Below(x: nat, k: nat)
    requires x <= 2 * k
    ensures Log2(x) <= k
  {
    if x >= 4 {
      Log2Below(x / 2, k - 1);
    }
  }

  lemma {:induction false} Pow2Monotone(a: nat, b: nat)
    requires a <= b
    ensures Pow2(a) <= Pow2(b)
  {
    if a > 0 {
      Pow2Monotone(a - 1, b - 1);
    }
  }

  /** For a 64-bit size the logarithm fits the source's `int8_t`. */
  lemma Log2FitsByte(x: nat)
    requires x < 0x1_0000_0000_0000_0000
    ensures Log2(x) <= 63
  {
    if Log2(x) > 63 {
      Log2Bounds(x);
      Pow2Monotone(64, Log2(x));
      Pow2Of64();
    }
  }

  lemma Pow2Of64()
    ensures Pow2(64) == 0x1_0000_0000_0000_0000
  {
    assert Pow2(8) == 0x100 by {
      Pow2Sum(4, 4);
    }
    assert Pow2(16) == 0x1_0000 by {
      Pow2Sum(8, 8);
    }
    assert Pow2(32) == 0x1_0000_0000 by {
      Pow2Sum(16, 16);
    }
    Pow2Sum(32, 32);
  }

  lemma {:induction false} Pow2Sum(a: nat, b: nat)
    ensures Pow2(a + b) == Pow2(a) * Pow2(b)
  {
    if a > 0 {
      Pow2Sum(a - 1, b);
      assert Pow2(a + b) == 2 * Pow2(a - 1 + b);
    }
  }

  /** The bitwise conjunction of two words, bit by bit. */
  function BitAnd(x: nat, y: nat): nat {
    if x == 0 || y == 0 then 0 else (x % 2) * (y % 2) + 2 * BitAnd(x / 2, y / 2)
  }

  /** The power-of-two policy's mask computes the remainder. */
  lemma {:induction false} MaskIsRemainder(hash: nat, e: nat)
    ensures BitAnd(hash, Pow2(e) - 1) == IndexForHash(hash, Pow2(e))
  {
    if e > 0 && hash > 0 {
      var half := Pow2(e - 1);
      MaskIsRemainder(hash / 2, e - 1);
      assert (2 * half - 1) / 2 == half - 1 && (2 * half - 1) % 2 == 1;
      HalfRemainder(hash, half);
    } else if hash == 0 {
      SmallMod(0, Pow2(e));
    }
  }

  lemma HalfRemainder(x: nat, half: nat)
    requires half >= 1
    ensures x % (2 * half) == x % 2 + 2 * ((x / 2) % half)
  {
    var (q, r) := ((x / 2) / half, (x / 2) % half);
    assert x == 2 * (x / 2) + x % 2;
    assert x / 2 == q * half + r;
    assert x == q * (2 * half) + (x % 2 + 2 * r);
    RemainderUnique(x, q, x % 2 + 2 * r, 2 * half);
  }

  lemma TimesAtLeast(k: int, n: nat)
    requires k >= 1
    ensures k * n >= n
  {
    assert k * n == (k - 1) * n + n;
  }

  lemma RemainderUnique(y: nat, q: nat, r: nat, n: nat)
    requires r < n && y == q * n + r
    ensures y % n == r
  {
    var k := q - y / n;
    assert k * n == q * n - (y / n) * n;
    assert k * n == y % n - r;
    if k >= 1 {
      TimesAtLeast(k, n);
    } else if k <= -1 {
      TimesAtLeast(-k, n);
    }
  }

  lemma ModSum(a: nat, d: nat, n: nat)
    requires 0 < n
    ensures (a % n + d) % n == (a + d) % n
  {
    var z := a % n + d;
    assert a + d == (a / n) * n + z;
    assert z == (z / n) * n + z % n;
    assert (a / n + z / n) * n == (a / n) * n + (z / n) * n;
    RemainderUnique(a + d, a / n + z / n, z % n, n);
  }

  lemma {:induction false} SubsetSize<T>(a: set<T>, b: set<T>)
    requires a <= b
    ensures |a| <= |b|
  {
    if a != {} {
      var x :| x in a;
      SubsetSize(a - {x}, b - {x});
    }
  }
}
