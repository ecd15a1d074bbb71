/** The leaf parsers for numbers and whitespace (command_parser/useful_parsers.h), and what `list_parser3` makes
    of a list of printed numbers. */
module NumberLists {
  import opened Wrappers
  import opened Decimal
  import opened Parsing

  const WORD64: nat := 0x1_0000_0000_0000_0000

  /** `is_whitespace_char`: space, newline, tab, vertical tab, form feed, carriage return. */
  predicate IsWhitespace(c: char) {
    c == ' ' || c == '\n' || c == '\t' || c == '\U{0B}' || c == '\U{0C}' || c == '\r'
  }

  /** The space and the five control characters from tab to carriage return. */
  lemma WhitespaceCodes(c: char)
    ensures IsWhitespace(c) <==> c as int == 32 || 9 <= c as int <= 13
  {
  }

  /** How many characters from the front are whitespace. */
  function WhitespacePrefix(s: string): (k: nat)
    ensures k <= |s| && (forall i :: 0 <= i < k ==> IsWhitespace(s[i])) && (k < |s| ==> !IsWhitespace(s[k]))
  {
    if s == [] || !IsWhitespace(s[0]) then 0 else 1 + WhitespacePrefix(s[1..])
  }

  /** `whitespace_parser`: takes all there is, and never fails. */
  function WhitespaceParser(s: string): Result<nat> {
    var k := WhitespacePrefix(s);
    Success(k, s[k..])
  }

  /** `non_optional_whitespace_parser`. */
  function NonOptionalWhitespaceParser(s: string): Result<nat> {
    if s == [] || !IsWhitespace(s[0]) then Fail(None) else WhitespaceParser(s)
  }

  /** What `std::from_chars` leaves in a variable that was 0: a number out of range is not stored. */
  function Stored(n: nat): nat { if n < WORD64 then n else 0 }

  /** `uint64_parser`: as many digits as there are; it fails only if there are none. */
  function Uint64Parser(s: string): Result<nat> {
    var k := DigitPrefix(s);
    if k == 0 then Fail(None) else Success(Stored(DecValue(s[..k])), s[k..])
  }

  lemma LeavesAreProper()
    ensures Consuming(Uint64Parser) && Proper(WhitespaceParser) && Consuming(NonOptionalWhitespaceParser)
    ensures Proper(Uint64Parser) && Proper(NonOptionalWhitespaceParser)
  {
    hide DecValue;
    forall s ensures Uint64Parser(s).Success? ==> Suffix(Uint64Parser(s).rest, s) && |Uint64Parser(s).rest| < |s| {
      var k := DigitPrefix(s);
      assert |s[k..]| == |s| - k;
    }
    forall s ensures Suffix(WhitespaceParser(s).rest, s) {
    }
  }

  /** Digits are read to the last one, leading zeros and all; a number of more than 64 bits reads as 0.  There is
      nothing to read exactly when the text does not start with a digit. */
  lemma ReadDigits(digits: string, tail: string)
    requires AllDigits(digits) && (tail == [] || !IsDigit(tail[0]))
    ensures digits == [] ==> Uint64Parser(digits + tail).Fail?
    ensures digits != [] ==>
              Uint64Parser(digits + tail)
              == Success(if DecValue(digits) < 0x1_0000_0000_0000_0000 then DecValue(digits) else 0, tail)
  {
    hide DecValue;
    var s := digits + tail;
    var k := DigitPrefix(s);
    assert forall i :: 0 <= i < |digits| ==> s[i] == digits[i];
    assert tail == s[|digits|..];
    assert forall i :: 0 <= i < k ==> s[..k][i] == s[i] && IsDigit(s[i]);
    assert k == |digits|;
    assert s[..k] == digits && s[k..] == tail;
  }

  /** A printed number is read back to its end when no digit follows; one that does not fit reads as 0. */
  lemma ReadNumeral(n: nat, tail: string)
    requires tail == [] || !IsDigit(tail[0])
    ensures Uint64Parser(Numeral(n) + tail) == Success(Stored(n), tail)
    ensures Stored(n) == if n < 0x1_0000_0000_0000_0000 then n else 0
  {
    hide DecValue, Numeral;
    PrintThenParse(n);
    ReadDigits(Numeral(n), tail);
  }

  predicate Blank(sep: string) {
    sep != [] && forall i :: 0 <= i < |sep| ==> IsWhitespace(sep[i])
  }

  /** Whitespace is taken to the last character of it; where one is demanded, none is a failure. */
  lemma ReadWhitespace(sep: string, tail: string)
    requires (forall i :: 0 <= i < |sep| ==> IsWhitespace(sep[i])) && (tail == [] || !IsWhitespace(tail[0]))
    ensures WhitespaceParser(sep + tail) == Success(|sep|, tail)
    ensures NonOptionalWhitespaceParser(sep + tail) == if sep == [] then Fail(None) else Success(|sep|, tail)
  {
    var s := sep + tail;
    var k := WhitespacePrefix(s);
    assert forall i :: 0 <= i < |sep| ==> s[i] == sep[i];
    assert tail == s[|sep|..];
    assert k == |sep|;
    assert s[k..] == tail && (sep != [] ==> s[0] == sep[0]);
  }

  lemma ReadBlank(sep: string, tail: string)
    requires Blank(sep) && (tail == [] || !IsWhitespace(tail[0]))
    ensures NonOptionalWhitespaceParser(sep + tail) == Success(|sep|, tail)
  {
    ReadWhitespace(sep, tail);
  }

  /** Numbers after the first, each with the separator before it. */
  function JoinRest(xs: seq<nat>, seps: seq<string>): string
    requires |seps| == |xs|
  {
    if xs == [] then [] else seps[0] + Numeral(xs[0]) + JoinRest(xs[1..], seps[1..])
  }

  /** The numbers in decimal with the separators between them. */
  function Join(xs: seq<nat>, seps: seq<string>): string
    requires |seps| + 1 == |xs|
  {
    Numeral(xs[0]) + JoinRest(xs[1..], seps)
  }

  function StoredAll(xs: seq<nat>): (r: seq<nat>)
    ensures |r| == |xs| && forall i :: 0 <= i < |xs| ==> r[i] == Stored(xs[i])
  {
    if xs == [] then [] else [Stored(xs[0])] + StoredAll(xs[1..])
  }

  predicate AllBlank(seps: seq<string>) {
    forall i :: 0 <= i < |seps| ==> Blank(seps[i])
  }

  /** Text after a list that cannot continue it: not a digit, and no number after whitespace. */
  ghost predicate EndsList(tail: string) {
    && (tail == [] || !IsDigit(tail[0]))
    && DelimitedItem(NonOptionalWhitespaceParser, Uint64Parser)(tail).Fail?
  }

  lemma NumbersAreDelimited()
    ensures Consuming(DelimitedItem(NonOptionalWhitespaceParser, Uint64Parser))
  {
    LeavesAreProper();
    DelimiterConsumes(NonOptionalWhitespaceParser, Uint64Parser);
  }

  lemma BlankIsNoDigit(sep: string, tail: string)
    requires Blank(sep)
    ensures sep + tail != [] && !IsDigit((sep + tail)[0]) && IsWhitespace((sep + tail)[0])
  {
  }

  lemma NumeralIsDigit(n: nat, tail: string)
    ensures Numeral(n) + tail != [] && IsDigit((Numeral(n) + tail)[0]) && !IsWhitespace((Numeral(n) + tail)[0])
  {
    PrintThenParse(n);
  }

  lemma {:induction false} ReadRest(xs: seq<nat>, seps: seq<string>, tail: string)
    requires |seps| == |xs| && AllBlank(seps) && EndsList(tail)
    requires Consuming(DelimitedItem(NonOptionalWhitespaceParser, Uint64Parser))
    ensures JoinRest(xs, seps) + tail == [] || !IsDigit((JoinRest(xs, seps) + tail)[0])
    ensures Many(DelimitedItem(NonOptionalWhitespaceParser, Uint64Parser), JoinRest(xs, seps) + tail) == (StoredAll(xs), tail)
    decreases |xs|
  {
    hide Numeral, Blank, Stored, IsWhitespace, DigitPrefix;
    var q := DelimitedItem(NonOptionalWhitespaceParser, Uint64Parser);
    var all := JoinRest(xs, seps) + tail;
    if xs == [] {
      assert all == tail;
    } else {
      var rest := JoinRest(xs[1..], seps[1..]) + tail;
      assert all == seps[0] + (Numeral(xs[0]) + rest);
      BlankIsNoDigit(seps[0], Numeral(xs[0]) + rest);
      ReadRest(xs[1..], seps[1..], tail);
      NumeralIsDigit(xs[0], rest);
      ReadBlank(seps[0], Numeral(xs[0]) + rest);
      ReadNumeral(xs[0], rest);
      DelimitedItemIs(NonOptionalWhitespaceParser, Uint64Parser, all);
      assert q(all) == Success(Stored(xs[0]), rest);
    }
  }

  /** What `list_parser3` of numbers and whitespace makes of a printed list: all the numbers, and nothing of the
      text after it. */
  lemma ReadJoined(xs: seq<nat>, seps: seq<string>, tail: string)
    requires |seps| + 1 == |xs| && AllBlank(seps) && EndsList(tail)
    ensures Consuming(DelimitedItem(NonOptionalWhitespaceParser, Uint64Parser))
    ensures Delimited(Uint64Parser, NonOptionalWhitespaceParser, Join(xs, seps) + tail) == (StoredAll(xs), tail)
  {
    hide Numeral, Blank, Stored;
    NumbersAreDelimited();
    ReadRest(xs[1..], seps, tail);
    var rest := JoinRest(xs[1..], seps) + tail;
    assert Join(xs, seps) + tail == Numeral(xs[0]) + rest;
    ReadNumeral(xs[0], rest);
  }

  function Spaces(n: nat): (s: seq<string>)
    ensures |s| == n && forall i :: 0 <= i < n ==> s[i] == " "
  {
    seq(n, _ => " ")
  }

  /** The decimal text of a list, joined by single spaces. */
  function JoinSpaces(xs: seq<nat>): string {
    if xs == [] then [] else Join(xs, Spaces(|xs| - 1))
  }

  lemma EmptyEndsList()
    ensures EndsList([])
  {
    DelimitedItemIs(NonOptionalWhitespaceParser, Uint64Parser, []);
  }

  lemma StoredAllIsSame(xs: seq<nat>)
    ensures StoredAll(xs) == xs <==> forall i :: 0 <= i < |xs| ==> xs[i] < WORD64
  {
    if StoredAll(xs) == xs {
      forall i | 0 <= i < |xs| ensures xs[i] < WORD64 {
        assert StoredAll(xs)[i] == Stored(xs[i]);
      }
    }
  }

  /** Reading a printed list gives the list back, with nothing left over, exactly when every number fits 64
      bits. */
  method PrintAndReadList(xs: seq<nat>) returns (ys: seq<nat>, rest: string)
    ensures rest == [] && |ys| == |xs|
    ensures forall i :: 0 <= i < |xs| ==> ys[i] == if xs[i] < 0x1_0000_0000_0000_0000 then xs[i] else 0
    ensures ys == xs <==> forall i :: 0 <= i < |xs| ==> xs[i] < 0x1_0000_0000_0000_0000
  {
    NumbersAreDelimited();
    ghost var texts;
    ys, rest, texts := ListParser3(Uint64Parser, NonOptionalWhitespaceParser, JoinSpaces(xs));
    StoredAllIsSame(xs);
    if xs != [] {
      EmptyEndsList();
      ReadJoined(xs, Spaces(|xs| - 1), []);
      assert JoinSpaces(xs) + [] == JoinSpaces(xs);
    }
  }
}
