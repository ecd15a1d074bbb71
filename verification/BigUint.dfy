/** `big_uint` (common/big_uint.h): numbers as base 2^32 limbs, least significant first, with no zero
    limb on top. */
module BigUint {
  import opened Digits
  import opened Decimal

  const BASE: nat := 0x1_0000_0000
  const WORD64: nat := 0x1_0000_0000_0000_0000

  type Limbs = seq<nat>

  function Value(a: Limbs): nat { Val(BASE, a) }

  /** What every `big_uint` keeps: limbs fit 32 bits and the top limb is not zero. */
  predicate Normal(a: Limbs) { Below(BASE, a) && Trimmed(a) }

  /** Truncation to 32 bits. */
  function Wrap32(x: int): (r: nat)
    ensures r < BASE
  {
    x % BASE
  }

  /** Equal limbs are equal numbers. */
  lemma LimbEquality(a: Limbs, b: Limbs)
    requires Normal(a) && Normal(b)
    ensures a == b <==> Value(a) == Value(b)
  {
    if Value(a) == Value(b) {
      TrimmedUnique(BASE, a, b);
    }
  }

  /** The weight of a limb. */
  lemma LimbWeights(lo: nat, hi: nat)
    ensures Value([lo, hi]) == lo + 0x1_0000_0000 * hi
  {
    assert [lo, hi] == [lo] + [hi];
    ValSnoc(BASE, [lo], hi);
    assert Val(BASE, [lo]) == lo + BASE * Val(BASE, []);
    assert Power(BASE, 1) == BASE * Power(BASE, 0);
  }

  /** `operator==(uint32_t)`. */
  predicate EqualsLimb(a: Limbs, n: nat) {
    (n == 0 && a == []) || (|a| == 1 && a[0] == n)
  }

  lemma EqualsLimbMeansValue(a: Limbs, n: nat)
    requires Normal(a) && n < BASE
    ensures EqualsLimb(a, n) <==> Value(a) == n
  {
    var other: Limbs := if n == 0 then [] else [n];
    assert Value(other) == n by {
      assert Val(BASE, [n]) == n + BASE * Val(BASE, []);
    }
    LimbEquality(a, other);
  }

  /** `trim_trailing_zeros`. */
  method TrimTrailingZeros(a: Limbs) returns (r: Limbs)
    ensures r == Trim(a)
  {
    r := a;
    while |r| > 0 && r[|r| - 1] == 0
      invariant Trim(r) == Trim(a)
    {
      r := r[..|r| - 1];
    }
  }

  /** The loop of `operator+` and `operator+=`: the limb sums with their carries. */
  ghost predicate SumSoFar(r: Limbs, carry: nat, a: Limbs, b: Limbs, i: nat) {
    && |r| == i && Below(BASE, r) && carry <= 1
    && Value(r) + carry * Power(BASE, i) == Value(Padded(a, i)[..i]) + Value(Padded(b, i)[..i])
  }

  lemma NothingSummed(a: Limbs, b: Limbs)
    ensures SumSoFar([], 0, a, b, 0)
  {
  }

  lemma SumStep(r: Limbs, carry: nat, a: Limbs, b: Limbs, i: nat)
    requires SumSoFar(r, carry, a, b, i) && Below(BASE, a) && Below(BASE, b)
    ensures var t := DigitAt(a, i) + DigitAt(b, i) + carry;
            t < WORD64 && SumSoFar(r + [t % BASE], t / BASE, a, b, i + 1)
  {
    var x, y := DigitAt(a, i), DigitAt(b, i);
    assert x < BASE && y < BASE;
    var t := x + y + carry;
    PaddedNext(a, i);
    PaddedNext(b, i);
    ValSnoc(BASE, r, t % BASE);
    var p := Power(BASE, i);
    CarryStep(BASE, p, Value(r), Value(Padded(a, i)[..i]) + Value(Padded(b, i)[..i]), carry, x + y, t % BASE, t / BASE);
    MulSum(p, x, y);
  }

  /** Reading one digit further, zeros past the end. */
  lemma PaddedNext(a: Limbs, i: nat)
    ensures Value(Padded(a, i + 1)[..i + 1]) == Value(Padded(a, i)[..i]) + Power(BASE, i) * DigitAt(a, i)
  {
    assert Padded(a, i + 1)[..i + 1] == Padded(a, i)[..i] + [DigitAt(a, i)];
    ValSnoc(BASE, Padded(a, i)[..i], DigitAt(a, i));
  }

  lemma PaddedAll(a: Limbs, n: nat)
    requires |a| <= n
    ensures Value(Padded(a, n)[..n]) == Value(a)
  {
    ValPadded(BASE, a, n);
    assert Padded(a, n)[..n] == Padded(a, n);
  }

  lemma SumDone(r: Limbs, carry: nat, a: Limbs, b: Limbs, n: nat)
    requires SumSoFar(r, carry, a, b, n) && |a| <= n && |b| <= n
    ensures carry == 0 ==> Value(Trim(r)) == Value(a) + Value(b) && Normal(Trim(r))
    ensures carry != 0 ==> Value(Trim(r + [carry])) == Value(a) + Value(b) && Normal(Trim(r + [carry]))
  {
    PaddedAll(a, n);
    PaddedAll(b, n);
    ValSnoc(BASE, r, carry);
    TrimValue(BASE, r);
    TrimValue(BASE, r + [carry]);
  }

  function Max(x: nat, y: nat): nat { if x < y then y else x }

  /** `operator+`. */
  method Plus(a: Limbs, b: Limbs) returns (r: Limbs)
    requires Below(BASE, a) && Below(BASE, b)
    ensures Normal(r) && Value(r) == Value(a) + Value(b)
  {
    var size := Max(|a|, |b|);
    var ret: Limbs, carry: nat := [], 0;
    for i := 0 to size
      invariant SumSoFar(ret, carry, a, b, i)
    {
      SumStep(ret, carry, a, b, i);
      var t := DigitAt(a, i) + DigitAt(b, i) + carry;
      ret, carry := ret + [t % BASE], t / BASE;
    }
    SumDone(ret, carry, a, b, size);
    if carry != 0 {
      ret := ret + [carry];
    }
    r := TrimTrailingZeros(ret);
  }

  // ----- Subtraction -----

  ghost predicate DifferenceSoFar(r: Limbs, borrow: nat, a: Limbs, b: Limbs, i: nat) {
    && |r| == i && Below(BASE, r) && borrow <= 1
    && Value(r) - borrow * Power(BASE, i) == Value(Padded(a, i)[..i]) - Value(Padded(b, i)[..i])
  }

  lemma NothingSubtracted(a: Limbs, b: Limbs)
    ensures DifferenceSoFar([], 0, a, b, 0)
  {
  }

  /** The limb the source writes, in its own wrapping arithmetic. */
  function DifferenceLimb(x: nat, y: nat, borrow: nat): (d: nat)
    ensures d < BASE
  {
    if y > x - borrow then Wrap32(BASE - 1 - y - borrow + x + 1) else Wrap32(x - y - borrow)
  }

  function Borrow(x: nat, y: nat, borrow: nat): (c: nat)
    ensures c <= 1
  {
    if y > x - borrow then 1 else 0
  }

  lemma DifferenceLimbExact(x: nat, y: nat, borrow: nat)
    requires x < BASE && y < BASE && borrow <= 1
    ensures DifferenceLimb(x, y, borrow) == x - y - borrow + Borrow(x, y, borrow) * BASE
  {
  }

  lemma DifferenceStep(r: Limbs, borrow: nat, a: Limbs, b: Limbs, i: nat)
    requires DifferenceSoFar(r, borrow, a, b, i) && Below(BASE, a) && Below(BASE, b)
    ensures var (x, y) := (DigitAt(a, i), DigitAt(b, i));
            DifferenceSoFar(r + [DifferenceLimb(x, y, borrow)], Borrow(x, y, borrow), a, b, i + 1)
  {
    hide DifferenceLimb, Borrow, Val;
    var x, y := DigitAt(a, i), DigitAt(b, i);
    DifferenceLimbExact(x, y, borrow);
    PaddedNext(a, i);
    PaddedNext(b, i);
    ValSnoc(BASE, r, DifferenceLimb(x, y, borrow));
    assert Power(BASE, i + 1) == BASE * Power(BASE, i);
    DifferenceAlgebra(Power(BASE, i), Value(r), Value(Padded(a, i)[..i]), Value(Padded(b, i)[..i]), borrow, x, y,
                      DifferenceLimb(x, y, borrow), Borrow(x, y, borrow));
  }

  lemma DifferenceAlgebra(p: int, v: int, va: int, vb: int, c0: int, x: int, y: int, d: int, c: int)
    requires v - c0 * p == va - vb && d == x - y - c0 + c * BASE
    ensures v + p * d - c * (BASE * p) == va + p * x - (vb + p * y)
  {
    assert p * d == p * x - p * y - p * c0 + p * (c * BASE) by {
      MulSum(p, x, -y - c0 + c * BASE);
      MulSum(p, -y, -c0 + c * BASE);
      MulSum(p, -c0, c * BASE);
    }
    assert p * (c * BASE) == c * (BASE * p);
  }

  /** `operator-`: the exact difference when it is not negative, and otherwise the difference modulo
      2^(32 size), as many limbs as the longer operand has. */
  method Minus(a: Limbs, b: Limbs) returns (r: Limbs)
    requires Below(BASE, a) && Below(BASE, b)
    ensures Normal(r)
    ensures Value(a) >= Value(b) ==> Value(r) == Value(a) - Value(b)
    ensures Value(a) < Value(b) ==> Value(r) == Value(a) - Value(b) + Power(BASE, Max(|a|, |b|))
  {
    hide Val, Power, Padded;
    NothingSubtracted(a, b);
    var size := Max(|a|, |b|);
    var ret: Limbs, amountCarried: nat := [], 0;
    for i := 0 to size
      invariant DifferenceSoFar(ret, amountCarried, a, b, i)
    {
      DifferenceStep(ret, amountCarried, a, b, i);
      var x, y := DigitAt(a, i), DigitAt(b, i);
      if y > x - amountCarried {
        ret, amountCarried := ret + [Wrap32(BASE - 1 - y - amountCarried + x + 1)], 1;
      } else {
        ret, amountCarried := ret + [Wrap32(x - y - amountCarried)], 0;
      }
    }
    PaddedAll(a, size);
    PaddedAll(b, size);
    ValBelow(BASE, ret);
    TrimValue(BASE, ret);
    r := TrimTrailingZeros(ret);
  }

  // ----- Multiplication -----

  ghost predicate ProductSoFar(r: Limbs, carry: nat, a: Limbs, n: nat, i: nat) {
    && |r| == i <= |a| && Below(BASE, r) && carry < BASE
    && Value(r) + carry * Power(BASE, i) == Value(a[..i]) * n
  }

  lemma NothingMultiplied(a: Limbs, n: nat)
    ensures ProductSoFar([], 0, a, n, 0)
  {
  }

  lemma ProductStep(r: Limbs, carry: nat, a: Limbs, n: nat, i: nat)
    requires ProductSoFar(r, carry, a, n, i) && i < |a| && Below(BASE, a) && n < BASE
    ensures var t := a[i] * n + carry;
            t < WORD64 && t / BASE < BASE && ProductSoFar(r + [t % BASE], t / BASE, a, n, i + 1)
  {
    hide Val;
    LimbProduct(a[i], n, carry);
    var t := a[i] * n + carry;
    ValTake(BASE, a, i);
    ValSnoc(BASE, r, t % BASE);
    ProductAlgebra(Power(BASE, i), Value(r), Value(a[..i]), a[i], n, carry, t % BASE, t / BASE);
  }

  lemma ProductAlgebra(p: int, v: int, va: int, x: int, n: int, c0: int, d: int, c: int)
    requires v + c0 * p == va * n && x * n + c0 == d + BASE * c
    ensures v + p * d + c * (BASE * p) == (va + p * x) * n
  {
    CarryStep(BASE, p, v, va * n, c0, x * n, d, c);
    MulAssoc(p, x, n);
    assert (va + p * x) * n == va * n + (p * x) * n;
  }

  /** A limb product with a carry limb never exceeds 64 bits, and its high half is a limb. */
  lemma LimbProduct(x: nat, y: nat, c: nat)
    requires x < BASE && y < BASE && c < BASE
    ensures x * y + c < WORD64 && (x * y + c) / BASE < BASE
  {
    MulMono(x, y, BASE - 1);
    MulMono(BASE - 1, x, BASE - 1);
    assert x * y <= (BASE - 1) * (BASE - 1);
    assert (BASE - 1) * (BASE - 1) + (BASE - 1) == (BASE - 1) * BASE;
    DivBelow(x * y + c);
  }

  lemma DivBelow(t: nat)
    requires t < BASE * BASE
    ensures t / BASE < BASE
  {
  }

  lemma ProductDone(r: Limbs, carry: nat, a: Limbs, n: nat)
    requires ProductSoFar(r, carry, a, n, |a|)
    ensures |r| == |a|
    ensures carry == 0 ==> Value(r) == Value(a) * n && Below(BASE, r)
    ensures carry != 0 ==> Value(r + [carry]) == Value(a) * n && Below(BASE, r + [carry])
  {
    assert a[..|a|] == a;
    ValSnoc(BASE, r, carry);
  }

  /** The product of a number with a top limb by a nonzero limb has a top limb: nothing to trim. */
  lemma ProductTrimmed(r: Limbs, a: Limbs, n: nat)
    requires Below(BASE, r) && |r| == |a| && a != [] && Normal(a) && n >= 1 && Value(r) == Value(a) * n
    ensures Trimmed(r)
  {
    TopDigit(BASE, a);
    MulMono(Value(a), 1, n);
    if !Trimmed(r) {
      TrimValue(BASE, r);
      assert r == r[..|r| - 1] + [0];
      ValSnoc(BASE, r[..|r| - 1], 0);
      ValBelow(BASE, r[..|r| - 1]);
    }
  }

  /** `operator*(const big_uint&, uint32_t)`. */
  method TimesLimb(a: Limbs, n: nat) returns (r: Limbs)
    requires Normal(a) && n < BASE
    ensures Normal(r) && Value(r) == Value(a) * n
  {
    hide Val, Power, ProductSoFar;
    EmptyNumbers();
    EqualsLimbMeansValue(a, 0);
    if EqualsLimb(a, 0) || n == 0 {
      return [];
    }
    r := [];
    var carry: nat := 0;
    NothingMultiplied(a, n);
    for i := 0 to |a|
      invariant ProductSoFar(r, carry, a, n, i)
    {
      ProductStep(r, carry, a, n, i);
      var t := a[i] * n + carry;
      r, carry := r + [t % BASE], t / BASE;
    }
    ProductDone(r, carry, a, n);
    if carry != 0 {
      r := r + [carry];
    } else {
      ProductTrimmed(r, a, n);
    }
  }

  /** The partial product of one limb of b, shifted by its position. */
  method Row(a: Limbs, n: nat, j: nat) returns (rt: Limbs)
    requires Below(BASE, a) && n < BASE
    ensures Below(BASE, rt) && Value(rt) == Power(BASE, j) * (Value(a) * n)
  {
    hide Val, Power, ProductSoFar;
    var row: Limbs, carry: nat := [], 0;
    NothingMultiplied(a, n);
    for i := 0 to |a|
      invariant ProductSoFar(row, carry, a, n, i)
    {
      ProductStep(row, carry, a, n, i);
      var t := a[i] * n + carry;
      row, carry := row + [t % BASE], t / BASE;
    }
    ProductDone(row, carry, a, n);
    if carry != 0 {
      row := row + [carry];
    }
    rt := Zeros(j) + row;
    ValShift(BASE, row, j);
  }

  /** Schoolbook `operator*`. */
  method Times(a: Limbs, b: Limbs) returns (r: Limbs)
    requires Normal(a) && Normal(b)
    ensures Normal(r) && Value(r) == Value(a) * Value(b)
  {
    EqualsLimbMeansValue(a, 0);
    EqualsLimbMeansValue(b, 0);
    if EqualsLimb(a, 0) || EqualsLimb(b, 0) {
      return [];
    }
    r := [];
    for j := 0 to |b|
      invariant Normal(r) && Value(r) == Value(a) * Value(b[..j])
    {
      var rt := Row(a, b[j], j);
      ValTake(BASE, b, j);
      MulSum(Value(a), Value(b[..j]), Power(BASE, j) * b[j]);
      assert Power(BASE, j) * (Value(a) * b[j]) == Value(a) * (Power(BASE, j) * b[j]) by {
        MulAssoc(Power(BASE, j), Value(a), b[j]);
        MulAssoc(Value(a), Power(BASE, j), b[j]);
      }
      TrimValue(BASE, rt);
      var row := TrimTrailingZeros(rt);
      r := Plus(r, row);
    }
    assert b[..|b|] == b;
  }

  /** A chunk of up to nine digits, and its power of ten, fit a limb. */
  lemma NineDigits(chunk: string, k: nat)
    requires AllDigits(chunk) && |chunk| <= k <= 9
    ensures DecValue(chunk) < BASE && Power(10, k) < BASE
  {
    ValBelow(10, FromText(chunk));
    PowerMonotone(10, |chunk|, k);
    PowerMonotone(10, k, 9);
    assert Power(10, 9) == 1_000_000_000 by {
      PowerAdd(10, 3, 3);
      PowerAdd(10, 6, 3);
      assert Power(10, 3) == 1000;
    }
  }

  lemma EmptyNumbers()
    ensures AllDigits("") && DecValue("") == 0 && Value([]) == 0 && Normal([])
  {
  }

  /** What the reader makes of a text, nine characters at a time: the digits a chunk starts with count as if they
      stood at its end, and a chunk that starts with none ends the number. */
  function NumberRead(s: string): (d: string)
    ensures AllDigits(d) && (s != "" && !IsDigit(s[0]) ==> d == "")
    ensures d == s <==> AllDigits(s)
  {
    var k := if |s| < 9 then |s| else 9;
    var used := DigitPrefix(s[..k]);
    if used == 0 then ""
    else
      assert s == s[..k] + s[k..];
      seq(k - used, _ => '0') + s[..k][..used] + NumberRead(s[k..])
  }

  lemma NothingRead(s: string)
    requires DigitPrefix(s[..if |s| < 9 then |s| else 9]) == 0
    ensures NumberRead(s) == ""
  {
  }

  /** Reading one chunk. */
  lemma ChunkRead(done: string, rest: string, k: nat, used: nat)
    requires AllDigits(done) && k == (if |rest| < 9 then |rest| else 9) && used == DigitPrefix(rest[..k]) > 0
    ensures var chunk := seq(k - used, _ => '0') + rest[..k][..used];
            && NumberRead(rest) == chunk + NumberRead(rest[k..]) && AllDigits(done + chunk)
            && DecValue(done + chunk) == DecValue(done) * Power(10, k) + DecValue(rest[..k][..used])
  {
    hide DecValue, Power;
    var chunk := seq(k - used, _ => '0') + rest[..k][..used];
    assert AllDigits(chunk) && chunk[k - used..] == rest[..k][..used];
    SkipZeros(chunk, k - used);
    DecValueAppend(done, chunk);
  }

  lemma AlignedValue(digits: string, k: nat)
    requires AllDigits(digits) && |digits| <= k
    ensures AllDigits(seq(k - |digits|, _ => '0') + digits)
    ensures DecValue(seq(k - |digits|, _ => '0') + digits) == DecValue(digits)
  {
    var aligned := seq(k - |digits|, _ => '0') + digits;
    assert aligned[k - |digits|..] == digits;
    SkipZeros(aligned, k - |digits|);
  }

  /** A text of up to nine characters is worth the digits it starts with. */
  lemma ShortText(s: string)
    requires |s| <= 9
    ensures DecValue(NumberRead(s)) == DecValue(s[..DigitPrefix(s)])
    ensures |NumberRead(s)| == if DigitPrefix(s) == 0 then 0 else |s|
  {
    hide DecValue, NumberRead, DigitPrefix;
    var used := DigitPrefix(s);
    assert s[..|s|] == s && s[..0] == "" && s[|s|..] == "";
    if used == 0 {
      NothingRead(s);
    } else {
      EmptyNumbers();
      ChunkRead("", s, |s|, used);
      NothingRead("");
      assert NumberRead(s) == seq(|s| - used, _ => '0') + s[..used];
      AlignedValue(s[..used], |s|);
    }
  }

  /** A longer one is read as its first nine characters and then the rest, unless it starts with no digit. */
  lemma LongText(s: string)
    requires |s| > 9
    ensures NumberRead(s) == if IsDigit(s[0]) then NumberRead(s[..9]) + NumberRead(s[9..]) else ""
  {
    hide NumberRead, DecValue, Power, DigitPrefix;
    var chunk := s[..9];
    assert chunk[..9] == chunk && chunk[9..] == "" && chunk[0] == s[0];
    if IsDigit(s[0]) {
      EmptyNumbers();
      ChunkRead("", s, 9, DigitPrefix(chunk));
      ChunkRead("", chunk, 9, DigitPrefix(chunk));
      NothingRead("");
    }
  }

  /** A `big_uint` variable, for the operators that update it in place. */
  class BigUint {
    var data: Limbs

    ghost predicate Valid()
      reads this
    {
      Normal(data)
    }

    constructor ()
      ensures Valid() && data == []
    {
      data := [];
    }

    /** The decimal constructor: leading zeros are skipped, then nine digits at a time.  It stops at
        a chunk that does not start with a digit. */
    constructor FromDecimal(s: string)
      ensures Valid()
      ensures Value(data) == DecValue(NumberRead(s[LeadingZeros(s)..]))
      ensures AllDigits(s) ==> Value(data) == DecValue(s)
      ensures LeadingZeros(s) < |s| && !IsDigit(s[LeadingZeros(s)]) ==> data == []
    {
      data := [];
      new;
      hide Val, Power, Below, Trimmed, AllDigits, DecValue, NumberRead;
      var rest := s[LeadingZeros(s)..];
      if AllDigits(s) {
        SkipZeros(s, LeadingZeros(s));
      }
      ghost var all, done := rest, "";
      EmptyNumbers();
      while rest != []
        invariant Valid() && AllDigits(done) && Value(data) == DecValue(done)
        invariant NumberRead(all) == done + NumberRead(rest)
        decreases |rest|
      {
        var k := if |rest| < 9 then |rest| else 9;
        var used := DigitPrefix(rest[..k]);
        if used == 0 {
          break;
        }
        NineDigits(rest[..k][..used], k);
        ChunkRead(done, rest, k, used);
        TimesAssignLimb(Power(10, k));
        PlusAssignLimb(DecValue(rest[..k][..used]));
        done := done + (seq(k - used, _ => '0') + rest[..k][..used]);
        rest := rest[k..];
      }
      NothingRead(rest);
      assert done == NumberRead(all);
      if NumberRead(all) == "" {
        LimbEquality(data, []);
      }
    }

    /** `operator+=`: the limbs are overwritten one by one, which is right even for `b += b`. */
    method PlusAssign(b: BigUint)
      requires Valid() && b.Valid()
      modifies this
      ensures Valid() && Value(data) == old(Value(data)) + old(Value(b.data))
      ensures b != this ==> b.data == old(b.data)
    {
      hide Val, Power, Below;
      ghost var a0, b0 := data, b.data;
      var size := Max(|data|, |b.data|);
      ValPadded(BASE, data, size);
      data := Padded(data, size);
      var carry: nat := 0;
      NothingSummed(a0, b0);
      for i := 0 to size
        invariant |data| == size && (b != this ==> b.data == b0)
        invariant SumSoFar(data[..i], carry, a0, b0, i)
        invariant forall j :: i <= j < size ==> data[j] == DigitAt(a0, j)
      {
        SumStep(data[..i], carry, a0, b0, i);
        assert DigitAt(b.data, i) == DigitAt(b0, i);
        var t := DigitAt(data, i) + DigitAt(b.data, i) + carry;
        ghost var r := data[..i];
        data := data[i := t % BASE];
        assert data[..i + 1] == r + [t % BASE];
        carry := t / BASE;
      }
      assert data[..size] == data;
      SumDone(data, carry, a0, b0, size);
      if carry != 0 {
        data := data + [carry];
      }
      data := TrimTrailingZeros(data);
    }

    /** `operator+=` with a 32-bit operand, which is converted first. */
    method PlusAssignLimb(n: nat)
      requires Valid() && n < BASE
      modifies this
      ensures Valid() && Value(data) == old(Value(data)) + n
    {
      var other := new BigUint();
      if n != 0 {
        other.data := [n];
        assert Val(BASE, [n]) == n + BASE * Val(BASE, []);
      }
      PlusAssign(other);
    }

    /** `operator*=(uint32_t)`. */
    method TimesAssignLimb(n: nat)
      requires Valid() && n < BASE
      modifies this
      ensures Valid() && Value(data) == old(Value(data)) * n
    {
      data := TimesLimb(data, n);
    }
  }
}
