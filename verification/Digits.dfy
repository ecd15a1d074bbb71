/** Positional numerals, least significant digit first, in any base.  The limbs of `big_uint` are
    numerals in base 2^32 and the digits of its printer are numerals in base 10. */
module Digits {

  function Power(b: nat, e: nat): (p: nat)
    ensures b >= 1 ==> p >= 1
  {
    if e == 0 then 1 else b * Power(b, e - 1)
  }

  function Val(b: nat, s: seq<nat>): nat {
    if s == [] then 0 else s[0] + b * Val(b, s[1..])
  }

  predicate Below(b: nat, s: seq<nat>) {
    forall i :: 0 <= i < |s| ==> s[i] < b
  }

  /** No zero on top: the numeral is the shortest one for its value. */
  predicate Trimmed(s: seq<nat>) {
    s == [] || s[|s| - 1] != 0
  }

  function Zeros(n: nat): (z: seq<nat>)
    ensures |z| == n && forall i :: 0 <= i < n ==> z[i] == 0
  {
    seq(n, _ => 0)
  }

  /** The digit at an index, 0 past the end. */
  function DigitAt(s: seq<nat>, i: nat): nat {
    if i < |s| then s[i] else 0
  }

  /** The numeral lengthened to n digits. */
  function Padded(s: seq<nat>, n: nat): seq<nat> {
    if |s| < n then s + Zeros(n - |s|) else s
  }

  // ----- Values -----

  lemma {:induction false} PowerAdd(b: nat, m: nat, n: nat)
    ensures Power(b, m + n) == Power(b, m) * Power(b, n)
  {
    if m > 0 {
      PowerAdd(b, m - 1, n);
      assert Power(b, m + n) == b * Power(b, m - 1 + n);
      MulAssoc(b, Power(b, m - 1), Power(b, n));
    }
  }

  lemma {:induction false} PowerMonotone(b: nat, m: nat, n: nat)
    requires b >= 1 && m <= n
    ensures Power(b, m) <= Power(b, n)
  {
    if m < n {
      PowerMonotone(b, m, n - 1);
      MulMono(Power(b, n - 1), 1, b);
    }
  }

  lemma MulAssoc(x: int, y: int, z: int)
    ensures x * (y * z) == (x * y) * z
  {
  }

  lemma MulSum(x: int, y: int, z: int)
    ensures x * (y + z) == x * y + x * z
  {
  }

  lemma {:induction false} ValAppend(b: nat, s: seq<nat>, t: seq<nat>)
    ensures Val(b, s + t) == Val(b, s) + Power(b, |s|) * Val(b, t)
  {
    if s == [] {
      assert s + t == t;
    } else {
      assert (s + t)[1..] == s[1..] + t;
      ValAppend(b, s[1..], t);
      MulSum(b, Val(b, s[1..]), Power(b, |s| - 1) * Val(b, t));
      MulAssoc(b, Power(b, |s| - 1), Val(b, t));
    }
  }

  lemma ValSnoc(b: nat, s: seq<nat>, x: nat)
    ensures Val(b, s + [x]) == Val(b, s) + Power(b, |s|) * x
  {
    ValAppend(b, s, [x]);
    assert Val(b, [x]) == x + b * Val(b, []);
  }

  lemma {:induction false} ValZeros(b: nat, n: nat)
    ensures Val(b, Zeros(n)) == 0
  {
    if n > 0 {
      assert Zeros(n)[1..] == Zeros(n - 1);
      ValZeros(b, n - 1);
    }
  }

  lemma ValShift(b: nat, s: seq<nat>, n: nat)
    ensures Val(b, Zeros(n) + s) == Power(b, n) * Val(b, s)
  {
    ValAppend(b, Zeros(n), s);
    ValZeros(b, n);
  }

  lemma ValPadded(b: nat, s: seq<nat>, n: nat)
    ensures Val(b, Padded(s, n)) == Val(b, s)
    ensures |s| <= n ==> |Padded(s, n)| == n
    ensures forall i :: 0 <= i < |Padded(s, n)| ==> Padded(s, n)[i] == DigitAt(s, i)
    ensures Below(b, s) && b > 0 ==> Below(b, Padded(s, n))
  {
    if |s| < n {
      ValAppend(b, s, Zeros(n - |s|));
      ValZeros(b, n - |s|);
    }
  }

  lemma ValTake(b: nat, s: seq<nat>, i: nat)
    requires i < |s|
    ensures Val(b, s[..i + 1]) == Val(b, s[..i]) + Power(b, i) * s[i]
  {
    assert s[..i + 1] == s[..i] + [s[i]];
    ValSnoc(b, s[..i], s[i]);
  }

  // ----- Bounds and uniqueness -----

  lemma {:induction false} ValBelow(b: nat, s: seq<nat>)
    requires Below(b, s)
    ensures Val(b, s) < Power(b, |s|)
  {
    if s != [] {
      ValBelow(b, s[1..]);
      assert Val(b, s[1..]) + 1 <= Power(b, |s| - 1);
      MulMono(b, Val(b, s[1..]) + 1, Power(b, |s| - 1));
      MulSum(b, Val(b, s[1..]), 1);
    }
  }

  lemma MulMono(b: nat, x: int, y: int)
    requires x <= y
    ensures b * x <= b * y
  {
  }

  lemma TopDigit(b: nat, s: seq<nat>)
    requires s != [] && s[|s| - 1] != 0
    ensures Val(b, s) >= Power(b, |s| - 1)
  {
    assert s == s[..|s| - 1] + [s[|s| - 1]];
    ValSnoc(b, s[..|s| - 1], s[|s| - 1]);
    MulMono(Power(b, |s| - 1), 1, s[|s| - 1]);
  }

  lemma DivModUnique(b: nat, x: nat, y: nat, p: nat, q: nat)
    requires x < b && y < b && x + b * p == y + b * q
    ensures x == y && p == q
  {
    if p < q {
      MulMono(b, p + 1, q);
      MulSum(b, p, 1);
    } else if q < p {
      MulMono(b, q + 1, p);
      MulSum(b, q, 1);
    }
  }

  /** Shortest numerals are unique: equal values mean equal digits.  For limbs this says that
      `operator==`, which compares limb by limb, compares numbers. */
  lemma {:induction false} TrimmedUnique(b: nat, s: seq<nat>, t: seq<nat>)
    requires Below(b, s) && Below(b, t) && Trimmed(s) && Trimmed(t) && Val(b, s) == Val(b, t)
    ensures s == t
    decreases |s| + |t|
  {
    if s == [] && t != [] {
      TopDigit(b, t);
    } else if t == [] && s != [] {
      TopDigit(b, s);
    } else if s != [] {
      DivModUnique(b, s[0], t[0], Val(b, s[1..]), Val(b, t[1..]));
      TrimmedUnique(b, s[1..], t[1..]);
      assert s == [s[0]] + s[1..] && t == [t[0]] + t[1..];
    }
  }

  /** Dropping the zeros on top. */
  function Trim(s: seq<nat>): (r: seq<nat>)
    ensures Trimmed(r) && |r| <= |s| && r == s[..|r|]
    ensures forall i :: |r| <= i < |s| ==> s[i] == 0
    ensures Trimmed(s) ==> r == s
  {
    if Trimmed(s) then s else Trim(s[..|s| - 1])
  }

  lemma {:induction false} TrimValue(b: nat, s: seq<nat>)
    ensures Val(b, Trim(s)) == Val(b, s)
    ensures Below(b, s) ==> Below(b, Trim(s))
  {
    if !Trimmed(s) {
      TrimValue(b, s[..|s| - 1]);
      assert s == s[..|s| - 1] + [0];
      ValSnoc(b, s[..|s| - 1], 0);
    }
  }

  // ----- One digit of an addition, a subtraction, a product -----

  lemma CarryStep(b: int, p: int, v: int, x: int, c: int, d: int, r: int, c2: int)
    requires v + c * p == x && d + c == r + b * c2
    ensures v + p * r + c2 * (b * p) == x + p * d
  {
    assert p * (d + c) == p * (r + b * c2);
    assert p * (d + c) == p * d + p * c;
    assert p * (r + b * c2) == p * r + p * (b * c2);
    assert p * (b * c2) == c2 * (b * p) by {
      MulAssoc(p, b, c2);
    }
  }
}
