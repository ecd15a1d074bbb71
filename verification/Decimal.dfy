/** Decimal text: what a digit string is worth, and the one canonical string of a number. */
module Decimal {
  import opened Digits

  predicate IsDigit(c: char) { '0' <= c <= '9' }

  predicate AllDigits(s: string) {
    forall i :: 0 <= i < |s| ==> IsDigit(s[i])
  }

  function DigitValue(c: char): nat
    requires IsDigit(c)
  {
    c as int - '0' as int
  }

  function DigitChar(d: nat): (c: char)
    requires d < 10
    ensures IsDigit(c) && DigitValue(c) == d
  {
    (d + '0' as int) as char
  }

  /** The digits of a string, least significant first. */
  function FromText(s: string): (d: seq<nat>)
    requires AllDigits(s)
    ensures |d| == |s| && Below(10, d)
    ensures forall i :: 0 <= i < |s| ==> d[i] == DigitValue(s[|s| - 1 - i])
  {
    if s == [] then [] else FromText(s[1..]) + [DigitValue(s[0])]
  }

  function ToText(d: seq<nat>): (s: string)
    requires Below(10, d)
    ensures |s| == |d| && AllDigits(s)
    ensures forall i :: 0 <= i < |d| ==> s[i] == DigitChar(d[|d| - 1 - i])
  {
    if d == [] then [] else ToText(d[1..]) + [DigitChar(d[0])]
  }

  lemma TextInverse(s: string, d: seq<nat>)
    requires AllDigits(s) && Below(10, d)
    ensures ToText(FromText(s)) == s && FromText(ToText(d)) == d
  {
    assert forall i :: 0 <= i < |s| ==> DigitChar(DigitValue(s[i])) == s[i];
  }

  /** The number a digit string stands for. */
  function DecValue(s: string): nat
    requires AllDigits(s)
  {
    Val(10, FromText(s))
  }

  lemma FromTextAppend(s: string, t: string)
    requires AllDigits(s) && AllDigits(t)
    ensures AllDigits(s + t) && FromText(s + t) == FromText(t) + FromText(s)
  {
    hide FromText;
    var (all, parts) := (FromText(s + t), FromText(t) + FromText(s));
    forall i | 0 <= i < |all| ensures all[i] == parts[i] {
      if i < |t| {
        assert (s + t)[|s + t| - 1 - i] == t[|t| - 1 - i];
      } else {
        assert (s + t)[|s + t| - 1 - i] == s[|s| - 1 - (i - |t|)];
      }
    }
  }

  lemma Swapped(x: int, y: int)
    ensures x * y == y * x
  {
  }

  lemma DecValueAppend(s: string, t: string)
    requires AllDigits(s) && AllDigits(t)
    ensures AllDigits(s + t) && DecValue(s + t) == DecValue(s) * Power(10, |t|) + DecValue(t)
  {
    hide Val, Power, FromText, AllDigits;
    FromTextAppend(s, t);
    ValAppend(10, FromText(t), FromText(s));
    Swapped(Power(10, |t|), DecValue(s));
  }

  /** The digits `std::to_string` prints, least significant first; 0 prints one digit. */
  function DigitsOf(n: nat): (d: seq<nat>)
    ensures d != [] && Below(10, d)
  {
    if n < 10 then [n] else [n % 10] + DigitsOf(n / 10)
  }

  lemma {:induction false} DigitsOfValue(n: nat)
    ensures Val(10, DigitsOf(n)) == n
    ensures n > 0 ==> Trimmed(DigitsOf(n))
  {
    if n < 10 {
      assert Val(10, [n]) == n + 10 * Val(10, []);
    } else {
      DigitsOfValue(n / 10);
      var rest := DigitsOf(n / 10);
      assert DigitsOf(n)[1..] == rest;
    }
  }

  /** The canonical decimal string of a number. */
  function Numeral(n: nat): string { ToText(DigitsOf(n)) }

  /** Digits only, at least one, and no redundant leading zero. */
  predicate Canonical(s: string) {
    s != [] && AllDigits(s) && (|s| > 1 ==> s[0] != '0')
  }

  /** Reading a printed number gives the number. */
  lemma PrintThenParse(n: nat)
    ensures Canonical(Numeral(n)) && DecValue(Numeral(n)) == n
  {
    DigitsOfValue(n);
    TextInverse([], DigitsOf(n));
    var d := DigitsOf(n);
    if |d| > 1 {
      assert n > 0;
      assert Numeral(n)[0] == DigitChar(d[|d| - 1]);
    }
  }

  /** Printing a read number gives the string back exactly when the string was canonical. */
  lemma ParseThenPrint(s: string)
    requires AllDigits(s)
    ensures Numeral(DecValue(s)) == s <==> Canonical(s)
  {
    var n := DecValue(s);
    if Canonical(s) {
      var d := FromText(s);
      DigitsOfValue(n);
      TextInverse(s, DigitsOf(n));
      if n == 0 {
        if |s| > 1 {
          TopDigit(10, d);
          assert false;
        }
        assert Val(10, d) == d[0] + 10 * Val(10, d[1..]);
        assert d == [0] == DigitsOf(0);
      } else {
        if |s| == 1 {
          assert Val(10, d) == d[0] + 10 * Val(10, d[1..]);
          assert d[1..] == [];
        }
        assert d[|d| - 1] == DigitValue(s[0]);
        TrimmedUnique(10, d, DigitsOf(n));
      }
    } else {
      PrintThenParse(n);
    }
  }

  // ----- The order of numbers is the order of their texts -----

  /** Of two texts of one length, the first one comes first in character order. */
  predicate ComesBefore(s: string, t: string)
    requires |s| == |t|
  {
    s != [] && (s[0] < t[0] || (s[0] == t[0] && ComesBefore(s[1..], t[1..])))
  }

  lemma FirstDigit(s: string)
    requires AllDigits(s) && s != []
    ensures AllDigits(s[1..]) && DecValue(s[1..]) < Power(10, |s| - 1)
    ensures DecValue(s) == DigitValue(s[0]) * Power(10, |s| - 1) + DecValue(s[1..])
  {
    hide Power;
    assert s == [s[0]] + s[1..];
    DecValueAppend([s[0]], s[1..]);
    OneDigit(s[0]);
    ValBelow(10, FromText(s[1..]));
  }

  lemma OneDigit(c: char)
    requires IsDigit(c)
    ensures DecValue([c]) == DigitValue(c)
  {
    var d := FromText([c]);
    assert d == [DigitValue(c)];
    assert Val(10, d) == d[0] + 10 * Val(10, d[1..]);
  }

  /** A larger first digit outweighs all that follows. */
  lemma FirstDigitDecides(x: nat, y: nat, p: nat, v: nat, w: nat)
    requires x < y && v < p
    ensures x * p + v < y * p + w
  {
    MulMono(p, x + 1, y);
    MulSum(p, x, 1);
  }

  /** Texts of one length stand for numbers in the order of their characters. */
  lemma {:induction false} OrderOfTexts(s: string, t: string)
    requires AllDigits(s) && AllDigits(t) && |s| == |t|
    ensures DecValue(s) < DecValue(t) <==> ComesBefore(s, t)
  {
    hide DecValue, Power;
    if s == [] {
      assert s == t;
    } else {
      FirstDigit(s);
      FirstDigit(t);
      OrderOfTexts(s[1..], t[1..]);
      var p := Power(10, |s| - 1);
      if s[0] < t[0] {
        FirstDigitDecides(DigitValue(s[0]), DigitValue(t[0]), p, DecValue(s[1..]), DecValue(t[1..]));
      } else if t[0] < s[0] {
        FirstDigitDecides(DigitValue(t[0]), DigitValue(s[0]), p, DecValue(t[1..]), DecValue(s[1..]));
      }
    }
  }

  lemma ShorterIsSmaller(s: string, t: string)
    requires Canonical(s) && Canonical(t) && |s| < |t|
    ensures DecValue(s) < DecValue(t)
  {
    ValBelow(10, FromText(s));
    TopDigit(10, FromText(t));
    PowerMonotone(10, |s|, |t| - 1);
  }

  /** The numeral of a smaller number is shorter or comes first in character order.  There is one numeral for each
      number and each canonical text is one, so this fixes them all: "0", "1", up to "9", "10", "11" and so on. */
  lemma NumeralsInOrder(m: nat, n: nat)
    ensures m < n <==> (|Numeral(m)| < |Numeral(n)|
                        || (|Numeral(m)| == |Numeral(n)| && ComesBefore(Numeral(m), Numeral(n))))
  {
    hide Numeral, DecValue;
    var s, t := Numeral(m), Numeral(n);
    PrintThenParse(m);
    PrintThenParse(n);
    if |s| < |t| {
      ShorterIsSmaller(s, t);
    } else if |t| < |s| {
      ShorterIsSmaller(t, s);
    } else {
      OrderOfTexts(s, t);
    }
  }

  /** How many characters from the front are '0'. */
  function LeadingZeros(s: string): (k: nat)
    ensures k <= |s| && (forall i :: 0 <= i < k ==> s[i] == '0') && (k < |s| ==> s[k] != '0')
  {
    if s == [] || s[0] != '0' then 0 else 1 + LeadingZeros(s[1..])
  }

  /** Leading zeros add nothing. */
  lemma {:induction false} SkipZeros(s: string, k: nat)
    requires AllDigits(s) && k <= |s| && forall i :: 0 <= i < k ==> s[i] == '0'
    ensures AllDigits(s[k..]) && DecValue(s) == DecValue(s[k..])
  {
    var z := s[..k];
    assert s == z + s[k..];
    DecValueAppend(z, s[k..]);
    assert FromText(z) == Zeros(k);
    ValZeros(10, k);
  }

  /** How many characters from the front `std::from_chars` reads as digits. */
  function DigitPrefix(s: string): (k: nat)
    ensures k <= |s| && AllDigits(s[..k]) && (k < |s| ==> !IsDigit(s[k]))
    ensures AllDigits(s) ==> k == |s|
  {
    if s == [] || !IsDigit(s[0]) then 0
    else
      var k := DigitPrefix(s[1..]);
      assert s[..k + 1] == [s[0]] + s[1..][..k];
      1 + k
  }
}
