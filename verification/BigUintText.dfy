/** Printing a `big_uint` in decimal (`big_uint_to_string_accumulator` and `to_string` in
    common/big_uint.h), and the round trips between limbs and text. */
module BigUintText {
  import opened Digits
  import opened Decimal
  import opened BigUint

  /** A numeral as long as a shortest numeral that is not larger is itself a shortest one. */
  lemma KeepsTop(a: seq<nat>, r: seq<nat>)
    requires Below(10, r) && Trimmed(a) && |r| == |a| && Val(10, r) >= Val(10, a)
    ensures Trimmed(r)
  {
    if r != [] && r[|r| - 1] == 0 {
      TopDigit(10, a);
      assert r == r[..|r| - 1] + [0];
      ValSnoc(10, r[..|r| - 1], 0);
      ValBelow(10, r[..|r| - 1]);
    }
  }

  /** The digits so far and the carry are worth the digits read and what was added. */
  ghost predicate CarriedSoFar(r: seq<nat>, carry: nat, start: seq<nat>, added: nat, i: nat) {
    && i == |r| <= |start| && Below(10, r)
    && Val(10, r) + carry * Power(10, i) == Val(10, start[..i]) + added
  }

  lemma CarriedStep(r: seq<nat>, carry: nat, start: seq<nat>, added: nat, i: nat, d: nat)
    requires CarriedSoFar(r, carry, start, added, i) && i < |start|
    ensures var t := start[i] + d + carry;
            CarriedSoFar(r + [t % 10], t / 10, start, added + Power(10, i) * d, i + 1)
  {
    hide Val;
    var t := start[i] + d + carry;
    ValTake(10, start, i);
    ValSnoc(10, r, t % 10);
    CarryStep(10, Power(10, i), Val(10, r), Val(10, start[..i]) + added, carry, start[i] + d, t % 10, t / 10);
    MulSum(Power(10, i), start[i], d);
  }

  lemma CarriedDone(r: seq<nat>, carry: nat, start: seq<nat>, added: nat)
    requires CarriedSoFar(r, carry, start, added, |start|)
    ensures carry == 0 ==> Val(10, r) == Val(10, start) + added
    ensures carry == 0 && Trimmed(start) ==> Trimmed(r)
    ensures carry != 0 ==> Val(10, r + DigitsOf(carry)) == Val(10, start) + added
    ensures carry != 0 ==> Below(10, r + DigitsOf(carry)) && Trimmed(r + DigitsOf(carry))
  {
    hide Val, DigitsOf, Power;
    assert start[..|start|] == start;
    if carry == 0 {
      if Trimmed(start) {
        KeepsTop(start, r);
      }
    } else {
      ValAppend(10, r, DigitsOf(carry));
      DigitsOfValue(carry);
    }
  }

  /** Adding up one column after the other: what the columns of b below i are worth. */
  lemma ColumnsNext(b: seq<nat>, i: nat)
    ensures Val(10, Padded(b, i + 1)[..i + 1]) == Val(10, Padded(b, i)[..i]) + Power(10, i) * DigitAt(b, i)
  {
    assert Padded(b, i + 1)[..i + 1] == Padded(b, i)[..i] + [DigitAt(b, i)];
    ValSnoc(10, Padded(b, i)[..i], DigitAt(b, i));
  }

  lemma ColumnsAll(b: seq<nat>, n: nat)
    requires |b| <= n
    ensures Val(10, Padded(b, n)[..n]) == Val(10, b)
  {
    ValPadded(10, b, n);
    assert Padded(b, n)[..n] == Padded(b, n);
  }

  // ----- The multiplication of the printer -----

  /** The product of each digit with a factor, as a 64-bit word. */
  function Wrapped(data: seq<nat>, n: nat): (p: seq<nat>)
    ensures |p| == |data| && forall i :: 0 <= i < |p| ==> p[i] == data[i] * n % WORD64
  {
    seq(|data|, i requires 0 <= i < |data| => data[i] * n % WORD64)
  }

  /** The multiplication loop: the products added up at their places, a shortest numeral or no longer than the
      digits read (a zero digit contributes the one-digit text "0" at its place). */
  ghost predicate ScaledSoFar(ret: seq<nat>, products: seq<nat>, i: nat) {
    && i <= |products| && Below(10, ret) && (Trimmed(ret) || |ret| <= i)
    && Val(10, ret) == Val(10, products[..i])
  }

  /** Adding one printed product at its place keeps the sum a shortest numeral, unless all of it lies
      at or below that place. */
  lemma ScaledTop(ret: seq<nat>, i: nat, product: nat, term: seq<nat>, sum: seq<nat>)
    requires Trimmed(ret) || |ret| <= i
    requires term == Zeros(i) + DigitsOf(product)
    requires Below(10, sum) && Val(10, sum) == Val(10, ret) + Val(10, term)
    requires |sum| == Max(|ret|, |term|) || (|sum| == Max(|ret|, |term|) + 1 && Trimmed(sum))
    ensures Trimmed(sum) || |sum| <= i + 1
    ensures product != 0 ==> Trimmed(sum)
  {
    hide Val, Power;
    if Trimmed(sum) {
    } else if product == 0 {
      if |ret| > i {
        KeepsTop(ret, sum);
      }
    } else {
      DigitsOfValue(product);
      if |ret| <= |term| {
        KeepsTop(term, sum);
      } else {
        KeepsTop(ret, sum);
      }
    }
  }

  lemma ScaledStep(ret: seq<nat>, products: seq<nat>, i: nat, term: seq<nat>, sum: seq<nat>)
    requires ScaledSoFar(ret, products, i) && i < |products|
    requires term == Zeros(i) + DigitsOf(products[i])
    requires Below(10, sum) && Val(10, sum) == Val(10, ret) + Val(10, term)
    requires |sum| == Max(|ret|, |term|) || (|sum| == Max(|ret|, |term|) + 1 && Trimmed(sum))
    ensures ScaledSoFar(sum, products, i + 1)
    ensures products[i] != 0 ==> Trimmed(sum)
  {
    hide Val, DigitsOf, Power, Trimmed;
    ValShift(10, DigitsOf(products[i]), i);
    DigitsOfValue(products[i]);
    ValTake(10, products, i);
    ScaledTop(ret, i, products[i], term, sum);
  }

  /** No product of a digit with the factor exceeds 64 bits. */
  predicate ProductsFit(data: seq<nat>, n: nat) {
    forall i :: 0 <= i < |data| ==> data[i] * n < WORD64
  }

  lemma WrapsExactlyAbove(x: nat)
    ensures x % WORD64 <= x && (x % WORD64 == x <==> x < WORD64)
  {
  }

  lemma ProductOfSum(d: nat, v: nat, n: nat)
    ensures (d + 10 * v) * n == d * n + 10 * (v * n)
  {
  }

  lemma FitsFirst(data: seq<nat>, n: nat)
    requires data != []
    ensures ProductsFit(data, n) <==> data[0] * n < WORD64 && ProductsFit(data[1..], n)
  {
    assert data == [data[0]] + data[1..];
  }

  /** The wrapped products never add up to more than the exact ones, and to as much only if none wraps. */
  lemma {:induction false} WrappedValue(data: seq<nat>, n: nat)
    ensures Val(10, Wrapped(data, n)) <= Val(10, data) * n
    ensures Val(10, Wrapped(data, n)) == Val(10, data) * n <==> ProductsFit(data, n)
  {
    hide Wrapped;
    if data != [] {
      var rest, p := data[1..], data[0] * n;
      WrappedValue(rest, n);
      assert Wrapped(data, n)[1..] == Wrapped(rest, n);
      assert Wrapped(data, n)[0] == p % WORD64;
      FitsFirst(data, n);
      WrapsExactlyAbove(p);
      ProductOfSum(data[0], Val(10, rest), n);
    }
  }

  lemma TopProduct(data: seq<nat>, n: nat)
    requires ProductsFit(data, n) && Trimmed(data) && data != [] && n >= 1
    ensures Wrapped(data, n)[|data| - 1] != 0
  {
    MulMono(data[|data| - 1], 1, n);
  }

  /** A factor of which nine times fit is safe for all digits. */
  lemma NineTimesFit(data: seq<nat>, n: nat)
    requires Below(10, data) && 9 * n < WORD64
    ensures ProductsFit(data, n)
  {
    forall i | 0 <= i < |data| ensures data[i] * n < WORD64 {
      MulMono(n, data[i], 9);
    }
  }

  /** `big_uint_to_string_accumulator`: decimal digits, least significant first. */
  class DecimalAccumulator {
    var digits: seq<nat>

    ghost predicate Valid()
      reads this
    {
      Below(10, digits)
    }

    constructor (d: seq<nat>)
      requires Below(10, d)
      ensures Valid() && digits == d
    {
      digits := d;
    }

    /** `operator+=(uint32_t)`: the whole limb rides in the carry. */
    method PlusLimb(n: nat)
      requires Valid() && n < BASE
      modifies this
      ensures Valid() && Val(10, digits) == old(Val(10, digits)) + n
      ensures old(Trimmed(digits)) ==> Trimmed(digits)
    {
      hide Val, Power;
      ghost var start := digits;
      var carry := n;
      NothingCarried(start, n);
      for i := 0 to |digits|
        invariant |digits| == |start| && digits[i..] == start[i..]
        invariant CarriedSoFar(digits[..i], carry, start, n, i)
      {
        CarriedStep(digits[..i], carry, start, n, i, 0);
        assert digits[i] == digits[i..][0] == start[i];
        var r := digits[i] + carry;
        ghost var before := digits;
        digits := digits[i := r % 10];
        assert digits[..i + 1] == before[..i] + [r % 10];
        assert digits[i + 1..] == before[i..][1..] == start[i..][1..] == start[i + 1..];
        carry := r / 10;
      }
      assert digits[..|digits|] == digits;
      CarriedDone(digits, carry, start, n);
      if carry != 0 {
        digits := digits + DigitsOf(carry);
      }
    }

    /** `operator+=` of another accumulator. */
    method Plus(other: DecimalAccumulator)
      requires Valid() && other.Valid() && other != this
      modifies this
      ensures Valid() && Val(10, digits) == old(Val(10, digits)) + Val(10, other.digits)
      ensures var longer := Max(old(|digits|), |other.digits|);
              |digits| == longer || (|digits| == longer + 1 && Trimmed(digits))
    {
      hide Val, Power;
      var b := other.digits;
      var longer := Max(|digits|, |b|);
      ValPadded(10, digits, longer);
      if |b| > |digits| {
        digits := Padded(digits, |b|);
      }
      ghost var start := digits;
      var carry: nat := 0;
      NothingCarried(start, 0);
      NoColumns(b);
      for i := 0 to |digits|
        invariant |digits| == |start| && digits[i..] == start[i..] && carry <= 1
        invariant CarriedSoFar(digits[..i], carry, start, Val(10, Padded(b, i)[..i]), i)
      {
        CarriedStep(digits[..i], carry, start, Val(10, Padded(b, i)[..i]), i, DigitAt(b, i));
        ColumnsNext(b, i);
        assert digits[i] == digits[i..][0] == start[i];
        var r := digits[i] + DigitAt(b, i) + carry;
        ghost var before := digits;
        digits := digits[i := r % 10];
        assert digits[..i + 1] == before[..i] + [r % 10];
        assert digits[i + 1..] == before[i..][1..] == start[i..][1..] == start[i + 1..];
        assert start[i] < 10;
        carry := r / 10;
      }
      assert digits[..|digits|] == digits;
      ColumnsAll(b, |digits|);
      CarriedDone(digits, carry, start, Val(10, b));
      if carry != 0 {
        digits := digits + DigitsOf(carry);
      }
    }

    /** `operator*=(uint64_t)`: the products of the digits, each printed, shifted and added.  A product
        wraps at 64 bits, so the result is exact only if the product of every digit there is fits. */
    method Scale(n: nat)
      requires Valid() && n < WORD64
      modifies this
      ensures Valid() && Val(10, digits) == Val(10, Wrapped(old(digits), n))
      ensures Val(10, digits) == old(Val(10, digits)) * n <==> old(ProductsFit(digits, n))
      ensures old(ProductsFit(digits, n) && Trimmed(digits)) && n >= 1 ==> Trimmed(digits)
    {
      hide Val, Power;
      ghost var products := Wrapped(digits, n);
      var ret := new DecimalAccumulator([]);
      NothingScaled(products);
      for i := 0 to |digits|
        invariant ret.Valid() && fresh(ret) && digits == old(digits)
        invariant ScaledSoFar(ret.digits, products, i)
        invariant i > 0 && products[i - 1] != 0 ==> Trimmed(ret.digits)
        invariant i == 0 ==> ret.digits == []
      {
        var term := new DecimalAccumulator(DigitsOf(digits[i] * n % WORD64));
        term.ShiftLeft(i);
        assert term.digits == term.digits[..i] + term.digits[i..];
        ghost var before := ret.digits;
        ret.Plus(term);
        ScaledStep(before, products, i, term.digits, ret.digits);
      }
      assert products[..|digits|] == products;
      WrappedValue(digits, n);
      if ProductsFit(digits, n) && Trimmed(digits) && digits != [] && n >= 1 {
        TopProduct(digits, n);
      }
      digits := ret.digits;
    }

    /** `multiply_by_10_to_pow`: the digits are lengthened, shifted right over the new room (nothing happens
        when the shift is the whole length) and the vacated places filled with zeros. */
    method ShiftLeft(exp: nat)
      requires Valid()
      modifies this
      ensures Valid() && Val(10, digits) == Power(10, exp) * old(Val(10, digits))
      ensures |digits| == old(|digits|) + exp && digits[exp..] == old(digits) && digits[..exp] == Zeros(exp)
    {
      hide Val, Power;
      ghost var start := digits;
      var size := |digits| + exp;
      digits := Padded(digits, size);
      if 0 < exp < size {
        digits := digits[..exp] + digits[..size - exp];
      }
      digits := Zeros(exp) + digits[exp..];
      assert digits == Zeros(exp) + start;
      ValShift(10, start, exp);
    }
  }

  lemma NothingCarried(start: seq<nat>, n: nat)
    ensures CarriedSoFar(start[..0], n, start, n, 0)
  {
  }

  lemma NoColumns(b: seq<nat>)
    ensures Val(10, Padded(b, 0)[..0]) == 0
  {
  }

  lemma NothingScaled(products: seq<nat>)
    ensures ScaledSoFar([], products, 0)
  {
  }

  /** `to_string`: the canonical decimal text of the number. */
  method ToString(value: Limbs) returns (s: string)
    requires Normal(value)
    ensures s == Numeral(Value(value))
  {
    hide DigitsOf, ToText, Power;
    EqualsLimbMeansValue(value, 0);
    ZeroText();
    if EqualsLimb(value, 0) {
      return "0";
    }
    var acc := new DecimalAccumulator([]);
    var i: nat := |value|;
    while i > 0
      invariant i <= |value| && acc.Valid() && fresh(acc) && Trimmed(acc.digits)
      invariant Val(10, acc.digits) == Val(BASE, value[i..])
    {
      i := i - 1;
      assert value[i..][1..] == value[i + 1..];
      NineTimesFit(acc.digits, BASE);
      acc.Scale(BASE);
      acc.PlusLimb(value[i]);
    }
    assert value[0..] == value;
    assert acc.Valid();
    DigitsOfValue(Value(value));
    TrimmedUnique(10, acc.digits, DigitsOf(Value(value)));
    s := ToText(acc.digits);
  }

  lemma ZeroText()
    ensures Numeral(0) == "0"
  {
    assert DigitsOf(0) == [0];
    assert ToText([0]) == ToText([]) + [DigitChar(0)];
  }

  /** Printing and then reading gives back the same limbs. */
  method PrintAndRead(value: Limbs) returns (back: BigUint)
    requires Normal(value)
    ensures back.data == value
  {
    hide DigitsOf, ToText, Power;
    var s := ToString(value);
    PrintThenParse(Value(value));
    back := new BigUint.FromDecimal(s);
    LimbEquality(back.data, value);
  }

  /** Reading and then printing gives back the same digits exactly when they were canonical. */
  method ReadAndPrint(s: string) returns (t: string)
    requires AllDigits(s)
    ensures t == s <==> Canonical(s)
    ensures Canonical(t) && DecValue(t) == DecValue(s)
  {
    hide DigitsOf, ToText, Power;
    var number := new BigUint.FromDecimal(s);
    t := ToString(number.data);
    PrintThenParse(DecValue(s));
    ParseThenPrint(s);
  }
}
