/** The straight-line bit computations of the hash tables (common/flat_hash_map.hpp) on 64-bit words: the logarithm
    by a multiplication and a table, and rounding up to a power of two.  A word is its 64 bits, lowest first. */
module BitTricks {
  import opened Digits
  import opened HashPolicy

  const WIDTH: nat := 64

  type Word = seq<nat>

  predicate IsWord(w: Word) { |w| == WIDTH && Below(2, w) }

  function Shr(w: Word, n: nat): (r: Word)
    requires IsWord(w)
    ensures IsWord(r) && forall i :: 0 <= i < WIDTH ==> r[i] == if i + n < WIDTH then w[i + n] else 0
  {
    seq(WIDTH, i requires 0 <= i < WIDTH && IsWord(w) => if i + n < WIDTH then w[i + n] else 0)
  }

  function Or(a: Word, b: Word): (r: Word)
    requires IsWord(a) && IsWord(b)
    ensures IsWord(r) && forall i :: 0 <= i < WIDTH ==> (r[i] == 1 <==> a[i] == 1 || b[i] == 1)
  {
    seq(WIDTH, i requires 0 <= i < WIDTH && IsWord(a) && IsWord(b) => if a[i] == 1 then 1 else b[i])
  }

  /** Shifting divides, rounding down. */
  lemma ShiftDivides(w: Word, n: nat)
    requires IsWord(w) && n <= WIDTH
    ensures Val(2, Shr(w, n)) == Val(2, w) / Power(2, n)
  {
    hide Val, Power;
    var (low, high) := (w[..n], w[n..]);
    assert w == low + high;
    ValAppend(2, low, high);
    assert Shr(w, n) == high + Zeros(n);
    ValAppend(2, high, Zeros(n));
    ValZeros(2, n);
    assert Below(2, low);
    ValBelow(2, low);
    DivideExactly(Val(2, low), Val(2, high), Power(2, n));
  }

  lemma DivideExactly(low: nat, high: nat, p: nat)
    requires low < p
    ensures (low + p * high) / p == high
  {
    var (v, q) := (low + p * high, (low + p * high) / p);
    assert v == q * p + v % p;
    RemainderUnique(v, high, low, p);
    assert q * p == high * p;
    if q < high {
      TimesAtLeast(high - q, p);
    } else if q > high {
      TimesAtLeast(q - high, p);
    }
  }

  // ----- Smearing the top bit downwards -----

  /** What both computations begin with. */
  function Smear(w: Word): (r: Word)
    requires IsWord(w)
    ensures IsWord(r)
  {
    var a := Or(w, Shr(w, 1));
    var b := Or(a, Shr(a, 2));
    var c := Or(b, Shr(b, 4));
    var d := Or(c, Shr(c, 8));
    var e := Or(d, Shr(d, 16));
    Or(e, Shr(e, 32))
  }

  /** Some bit of w from i up to, but not including, i + n is set. */
  predicate SetWithin(w: Word, i: nat, n: nat) {
    exists j :: i <= j < i + n && j < |w| && w[j] == 1
  }

  predicate Spread(w: Word, x: Word, n: nat) {
    IsWord(w) && IsWord(x) && forall i :: 0 <= i < WIDTH ==> (x[i] == 1 <==> SetWithin(w, i, n))
  }

  lemma WithinTwice(w: Word, i: nat, n: nat)
    ensures SetWithin(w, i, 2 * n) <==> SetWithin(w, i, n) || SetWithin(w, i + n, n)
  {
  }

  lemma SpreadDoubles(w: Word, x: Word, n: nat)
    requires Spread(w, x, n)
    ensures Spread(w, Or(x, Shr(x, n)), 2 * n)
  {
    hide Shr, Or, SetWithin;
    var y := Or(x, Shr(x, n));
    forall i | 0 <= i < WIDTH ensures y[i] == 1 <==> SetWithin(w, i, 2 * n) {
      WithinTwice(w, i, n);
      if i + n >= WIDTH {
        NothingBeyond(w, i + n, n);
      }
    }
  }

  lemma NothingBeyond(w: Word, i: nat, n: nat)
    requires |w| <= i
    ensures !SetWithin(w, i, n)
  {
  }

  lemma SpreadSelf(w: Word)
    requires IsWord(w)
    ensures Spread(w, w, 1)
  {
    forall i | 0 <= i < WIDTH ensures w[i] == 1 <==> SetWithin(w, i, 1) {
    }
  }

  lemma SmearSpreads(w: Word)
    requires IsWord(w)
    ensures Spread(w, Smear(w), 64)
  {
    hide Spread, Or, Shr;
    SpreadSelf(w);
    var a := Or(w, Shr(w, 1));
    SpreadDoubles(w, w, 1);
    SpreadIsWord(w, a, 2);
    var b := Or(a, Shr(a, 2));
    SpreadDoubles(w, a, 2);
    var c := Or(b, Shr(b, 4));
    SpreadDoubles(w, b, 4);
    var d := Or(c, Shr(c, 8));
    SpreadDoubles(w, c, 8);
    var e := Or(d, Shr(d, 16));
    SpreadDoubles(w, d, 16);
    SpreadDoubles(w, e, 32);
  }

  lemma SpreadIsWord(w: Word, x: Word, n: nat)
    requires Spread(w, x, n)
    ensures IsWord(w) && IsWord(x)
  {
  }

  // ----- The top bit -----

  function Ones(n: nat): (s: seq<nat>)
    ensures |s| == n && forall i :: 0 <= i < n ==> s[i] == 1
  {
    seq(n, _ => 1)
  }

  lemma {:induction false} OnesValue(n: nat)
    ensures Val(2, Ones(n)) + 1 == Power(2, n)
  {
    if n > 0 {
      assert Ones(n)[1..] == Ones(n - 1);
      OnesValue(n - 1);
    }
  }

  lemma {:induction false} PowersAgree(e: nat)
    ensures Power(2, e) == Pow2(e)
  {
    if e > 0 {
      PowersAgree(e - 1);
    }
  }

  /** The place of the top bit is the logarithm. */
  lemma TopIsLog2(w: Word, k: nat)
    requires IsWord(w) && k < WIDTH && w[k] == 1 && forall i :: k < i < WIDTH ==> w[i] == 0
    ensures Log2(Val(2, w)) == k
  {
    hide Val, Power, Pow2, Log2;
    var (low, high) := (w[..k + 1], w[k + 1..]);
    assert w == low + high && high == Zeros(WIDTH - k - 1);
    ValAppend(2, low, high);
    ValZeros(2, WIDTH - k - 1);
    TopDigit(2, low);
    ValBelow(2, low);
    PowersAgree(k);
    PowersAgree(k + 1);
    DoublePower(k);
    Log2Unique(Val(2, w), k);
  }

  lemma DoublePower(k: nat)
    ensures Pow2(k + 1) == 2 * Pow2(k)
  {
  }

  lemma Log2Unique(v: nat, k: nat)
    requires Pow2(k) <= v < 2 * Pow2(k)
    ensures Log2(v) == k
  {
    hide Log2;
    Log2Bounds(v);
    var l := Log2(v);
    if l < k {
      Pow2Monotone(l + 1, k);
    } else if k < l {
      Pow2Monotone(k + 1, l);
    }
  }

  /** Where the top bit of a word is. */
  lemma {:induction false} FindTop(w: Word, n: nat) returns (k: nat)
    requires n <= |w| && Below(2, w) && forall i :: n <= i < |w| ==> w[i] == 0
    requires exists i :: 0 <= i < |w| && w[i] == 1
    ensures k < |w| && w[k] == 1 && forall i :: k < i < |w| ==> w[i] == 0
  {
    if w[n - 1] == 1 {
      k := n - 1;
    } else {
      k := FindTop(w, n - 1);
    }
  }

  lemma {:induction false} ZeroWord(w: Word)
    requires forall i :: 0 <= i < |w| ==> w[i] == 0
    ensures Val(2, w) == 0
  {
    assert w == Zeros(|w|);
    ValZeros(2, |w|);
  }

  /** A smeared word is all ones up to the top bit of the word. */
  lemma SmearIs(w: Word)
    requires IsWord(w) && Val(2, w) > 0
    ensures Val(2, Smear(w)) + 1 == 2 * Pow2(Log2(Val(2, w)))
    ensures Log2(Val(2, w)) < WIDTH
  {
    hide Val, Power, Pow2, Log2, Smear, Or, Shr;
    if forall i :: 0 <= i < |w| ==> w[i] != 1 {
      ZeroWord(w);
    }
    var k := FindTop(w, WIDTH);
    TopIsLog2(w, k);
    SmearSpreads(w);
    var s := Smear(w);
    forall i | 0 <= i < WIDTH ensures s[i] == if i <= k then 1 else 0 {
      if i <= k {
        assert SetWithin(w, i, 64);
      }
    }
    assert s == Ones(k + 1) + Zeros(WIDTH - k - 1);
    ValAppend(2, Ones(k + 1), Zeros(WIDTH - k - 1));
    ValZeros(2, WIDTH - k - 1);
    OnesValue(k + 1);
    PowersAgree(k + 1);
    DoublePower(k);
  }

  // ----- Rounding up to a power of two -----

  /** `next_power_of_two`, for the word that holds the size less one (all ones for size 0): the power of two from the size up to, but not
      including, its double.  In 64 bits it comes out as 0 exactly when that power is 2^64. */
  lemma NextPowerOfTwoIs(less: Word)
    requires IsWord(less)
    ensures var (size, r) := (Val(2, less) + 1, Val(2, Smear(less)) + 1);
            && (r == 1 || r == Pow2(Log2(Val(2, less)) + 1)) && size <= r < 2 * size
            && (r % 0x1_0000_0000_0000_0000 == 0 <==> size > 0x8000_0000_0000_0000)
  {
    hide Val, Log2, Smear;
    var v := Val(2, less);
    if v == 0 {
      SmearZero(less);
    } else {
      SmearIs(less);
      Log2Bounds(v);
      Pow2Of64();
      var k := Log2(v);
      if k < 63 {
        Pow2Monotone(k + 1, 63);
        assert Pow2(64) == 2 * Pow2(63);
      }
    }
  }

  lemma SmearZero(w: Word)
    requires IsWord(w) && Val(2, w) == 0
    ensures Val(2, Smear(w)) == 0
  {
    hide Smear, Or, Shr, Power, Val;
    if exists i :: 0 <= i < |w| && w[i] == 1 {
      var k := FindTop(w, WIDTH);
      TopIsNonzero(w, k);
      assert false;
    }
    SmearSpreads(w);
    ZeroWord(Smear(w));
  }

  lemma TopIsNonzero(w: Word, k: nat)
    requires IsWord(w) && k < WIDTH && w[k] == 1
    ensures Val(2, w) > 0
  {
    hide Val, Power;
    var (low, high) := (w[..k + 1], w[k + 1..]);
    assert w == low + high;
    ValAppend(2, low, high);
    TopDigit(2, low);
    assert Power(2, k) >= 1;
    assert Power(2, |low|) * Val(2, high) >= 0;
  }

  // ----- The logarithm -----

  /** The table of 64 entries. */
  function TableAt(i: nat): nat
    requires i < 64
  {
    match i
    case 0 => 63 case 1 => 0 case 2 => 58 case 3 => 1 case 4 => 59 case 5 => 47 case 6 => 53 case 7 => 2
    case 8 => 60 case 9 => 39 case 10 => 48 case 11 => 27 case 12 => 54 case 13 => 33 case 14 => 42 case 15 => 3
    case 16 => 61 case 17 => 51 case 18 => 37 case 19 => 40 case 20 => 49 case 21 => 18 case 22 => 28 case 23 => 20
    case 24 => 55 case 25 => 30 case 26 => 34 case 27 => 11 case 28 => 43 case 29 => 14 case 30 => 22 case 31 => 4
    case 32 => 62 case 33 => 57 case 34 => 46 case 35 => 52 case 36 => 38 case 37 => 26 case 38 => 32 case 39 => 41
    case 40 => 50 case 41 => 36 case 42 => 17 case 43 => 19 case 44 => 29 case 45 => 10 case 46 => 13 case 47 => 21
    case 48 => 56 case 49 => 45 case 50 => 25 case 51 => 31 case 52 => 35 case 53 => 16 case 54 => 9 case 55 => 12
    case 56 => 44 case 57 => 24 case 58 => 15 case 59 => 8 case 60 => 23 case 61 => 7 case 62 => 6 case _ => 5
  }

  const MULTIPLIER: nat := 0x07ED_D5E5_9A4E_28C2
  const WORD64: nat := 0x1_0000_0000_0000_0000

  /** The low 64 bits of the product with the constant. */
  function Product(p: nat): (y: nat)
    ensures y < WORD64
  {
    p * MULTIPLIER % WORD64
  }

  /** The six bits on top of a word: the product shifted by 58. */
  function TopSix(y: nat): (i: nat)
    requires y < WORD64
    ensures i < 64
  {
    y / 0x400_0000_0000_0000
  }

  /** Doubling in 64 bits. */
  function Doubled(y: nat): (d: nat)
    requires y < WORD64
    ensures d < WORD64
  {
    if y < 0x8000_0000_0000_0000 then 2 * y else 2 * y - WORD64
  }

  function After(n: nat, y: nat): (z: nat)
    requires y < WORD64
    ensures z < WORD64
  {
    if n == 0 then y else After(n - 1, Doubled(y))
  }

  /** For n doublings of y on, the table has k, k + 1 and so forth where the top six bits lead. */
  predicate RightFor(n: nat, k: nat, y: nat)
    requires y < WORD64
  {
    n == 0 || (TableAt(TopSix(y)) == k && RightFor(n - 1, k + 1, Doubled(y)))
  }

  lemma Row0()
    ensures RightFor(8, 0, 0x7ED_D5E5_9A4E_28C2) && After(8, 0x7ED_D5E5_9A4E_28C2) == 0xEDD5_E59A_4E28_C200
  {
  }

  lemma Row1()
    ensures RightFor(8, 8, 0xEDD5_E59A_4E28_C200) && After(8, 0xEDD5_E59A_4E28_C200) == 0xD5E5_9A4E_28C2_0000
  {
  }

  lemma Row2()
    ensures RightFor(8, 16, 0xD5E5_9A4E_28C2_0000) && After(8, 0xD5E5_9A4E_28C2_0000) == 0xE59A_4E28_C200_0000
  {
  }

  lemma Row3()
    ensures RightFor(8, 24, 0xE59A_4E28_C200_0000) && After(8, 0xE59A_4E28_C200_0000) == 0x9A4E_28C2_0000_0000
  {
  }

  lemma Row4()
    ensures RightFor(8, 32, 0x9A4E_28C2_0000_0000) && After(8, 0x9A4E_28C2_0000_0000) == 0x4E28_C200_0000_0000
  {
  }

  lemma Row5()
    ensures RightFor(8, 40, 0x4E28_C200_0000_0000) && After(8, 0x4E28_C200_0000_0000) == 0x28C2_0000_0000_0000
  {
  }

  lemma Row6()
    ensures RightFor(8, 48, 0x28C2_0000_0000_0000) && After(8, 0x28C2_0000_0000_0000) == 0xC200_0000_0000_0000
  {
  }

  lemma Row7()
    ensures RightFor(8, 56, 0xC200_0000_0000_0000) && After(8, 0xC200_0000_0000_0000) == 0x0
  {
  }

  lemma DoubledProduct(p: nat)
    ensures Product(2 * p) == Doubled(Product(p))
  {
    var (q, y) := (p * MULTIPLIER / WORD64, Product(p));
    assert p * MULTIPLIER == q * WORD64 + y;
    assert (2 * p) * MULTIPLIER == 2 * (p * MULTIPLIER);
    RemainderUnique(2 * p * MULTIPLIER, if y < 0x8000_0000_0000_0000 then 2 * q else 2 * q + 1, Doubled(y), WORD64);
  }

  lemma {:induction false} AfterIs(n: nat, k: nat)
    ensures After(n, Product(Pow2(k))) == Product(Pow2(k + n))
  {
    hide Product, Doubled;
    if n > 0 {
      DoublePower(k);
      DoubledProduct(Pow2(k));
      AfterIs(n - 1, k + 1);
    }
  }

  lemma {:induction false} RightAt(n: nat, k: nat, m: nat)
    requires RightFor(n, k, Product(Pow2(k))) && k <= m < k + n
    ensures TableAt(TopSix(Product(Pow2(m)))) == m
    decreases n
  {
    hide Product, Doubled, TopSix, TableAt;
    if k < m {
      DoublePower(k);
      DoubledProduct(Pow2(k));
      RightAt(n - 1, k + 1, m);
    }
  }

  lemma RowStarts()
    ensures Product(Pow2(0)) == 0x7ED_D5E5_9A4E_28C2
    ensures Product(Pow2(8)) == 0xEDD5_E59A_4E28_C200
    ensures Product(Pow2(16)) == 0xD5E5_9A4E_28C2_0000
    ensures Product(Pow2(24)) == 0xE59A_4E28_C200_0000
    ensures Product(Pow2(32)) == 0x9A4E_28C2_0000_0000
    ensures Product(Pow2(40)) == 0x4E28_C200_0000_0000
    ensures Product(Pow2(48)) == 0x28C2_0000_0000_0000
    ensures Product(Pow2(56)) == 0xC200_0000_0000_0000
  {
    hide RightFor, After, Product, Pow2;
    FirstProduct();
    Row0();
    AfterIs(8, 0);
    Row1();
    AfterIs(8, 8);
    Row2();
    AfterIs(8, 16);
    Row3();
    AfterIs(8, 24);
    Row4();
    AfterIs(8, 32);
    Row5();
    AfterIs(8, 40);
    Row6();
    AfterIs(8, 48);
  }

  lemma FirstProduct()
    ensures Product(Pow2(0)) == MULTIPLIER
  {
  }

  /** The table has k where the product of the k-th power of two leads, for all 64 of them. */
  lemma TableIsRight(k: nat)
    requires k < 64
    ensures TableAt(TopSix(Product(Pow2(k)))) == k
  {
    hide RightFor, After, Product, TableAt, TopSix, Pow2;
    RowStarts();
    if k < 8 {
      Row0();
      RightAt(8, 0, k);
    } else if k < 16 {
      Row1();
      RightAt(8, 8, k);
    } else if k < 24 {
      Row2();
      RightAt(8, 16, k);
    } else if k < 32 {
      Row3();
      RightAt(8, 24, k);
    } else if k < 40 {
      Row4();
      RightAt(8, 32, k);
    } else if k < 48 {
      Row5();
      RightAt(8, 40, k);
    } else if k < 56 {
      Row6();
      RightAt(8, 48, k);
    } else if k < 64 {
      Row7();
      RightAt(8, 56, k);
    }
  }

  /** `log2`: for every word but 0, the smeared word less its half is the top bit, and the table holds the logarithm
      rounded down at the place the multiplication gives for it. */
  lemma Log2TableIs(w: Word)
    requires IsWord(w) && Val(2, w) > 0
    ensures var s := Smear(w);
            var top := Val(2, s) - Val(2, Shr(s, 1));
            top == Pow2(Log2(Val(2, w))) && TableAt(TopSix(Product(top))) == Log2(Val(2, w))
  {
    hide Val, Log2, Smear, Shr, Product, TopSix, TableAt, Pow2;
    SmearIs(w);
    var (s, k) := (Smear(w), Log2(Val(2, w)));
    ShiftDivides(s, 1);
    PowersAgree(1);
    OnePower();
    HalfOfOnes(Val(2, s), Pow2(k), Power(2, 1));
    TableIsRight(k);
  }

  lemma HalfOfOnes(s: nat, p: nat, two: nat)
    requires s + 1 == 2 * p && two == 2
    ensures s - s / two == p
  {
  }

  lemma OnePower()
    ensures Pow2(0) == 1 && Pow2(1) == 2
  {
  }
}
