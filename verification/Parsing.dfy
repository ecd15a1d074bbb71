/** Parser combinators (command_parser/useful_parsing_stuff.h, list_parser.h, useful_parsers.h).  A parser is
    a function from the text to a value and the text left over, or a failure.  The values of one sequence of
    parsers share a type here, so the tuple the code returns is a sequence. */
module Parsing {
  import opened Wrappers

  datatype Result<+V> = Success(value: V, rest: string) | Fail(reason: Option<string>)

  type Parser<V> = string -> Result<V>

  predicate Suffix(rest: string, s: string) {
    |rest| <= |s| && rest == s[|s| - |rest|..]
  }

  /** What is left over is an end of the input. */
  ghost predicate Proper<V(!new)>(p: Parser<V>) {
    forall s :: p(s).Success? ==> Suffix(p(s).rest, s)
  }

  /** And a success takes at least one character. */
  ghost predicate Consuming<V(!new)>(p: Parser<V>) {
    forall s :: p(s).Success? ==> Suffix(p(s).rest, s) && |p(s).rest| < |s|
  }

  lemma SuffixTrans(a: string, b: string, c: string)
    requires Suffix(a, b) && Suffix(b, c)
    ensures Suffix(a, c)
  {
  }

  // ----- Sequencing -----

  /** `parse_consecutive`. */
  function ParseConsecutive<V>(s: string, ps: seq<Parser<V>>): Result<seq<V>>
    requires ps != []
    decreases |ps|
  {
    match ps[0](s)
    case Fail(reason) => Fail(reason)
    case Success(v, rest) =>
      if |ps| == 1 then Success([v], rest)
      else
        match ParseConsecutive(rest, ps[1..])
        case Fail(reason) => Fail(reason)
        case Success(vs, rest2) => Success([v] + vs, rest2)
  }

  /** The texts between the parsers: each parser takes the text the one before it left. */
  ghost predicate Threads<V>(s: string, ps: seq<Parser<V>>, values: seq<V>, texts: seq<string>) {
    && |values| <= |ps| && |texts| == |values| + 1 && texts[0] == s
    && forall i :: 0 <= i < |values| ==> ps[i](texts[i]) == Success(values[i], texts[i + 1])
  }

  /** `parse_consecutive` succeeds exactly when the parsers succeed one after the other, and fails with the
      reason of the first that fails. */
  lemma {:induction false} ConsecutiveMeans<V>(s: string, ps: seq<Parser<V>>) returns (values: seq<V>, texts: seq<string>)
    requires ps != []
    ensures Threads(s, ps, values, texts)
    ensures ParseConsecutive(s, ps).Success? <==> |values| == |ps|
    ensures |values| == |ps| ==> ParseConsecutive(s, ps) == Success(values, texts[|ps|])
    ensures |values| < |ps| ==> ps[|values|](texts[|values|]).Fail?
    ensures |values| < |ps| ==> ParseConsecutive(s, ps) == Fail(ps[|values|](texts[|values|]).reason)
    decreases |ps|
  {
    match ps[0](s)
    case Fail(reason) =>
      values, texts := [], [s];
    case Success(v, rest) =>
      if |ps| == 1 {
        values, texts := [v], [s, rest];
      } else {
        var vs, ts := ConsecutiveMeans(rest, ps[1..]);
        values, texts := [v] + vs, [s] + ts;
        forall i | 0 <= i < |values| ensures ps[i](texts[i]) == Success(values[i], texts[i + 1]) {
          if i > 0 {
            assert ps[1..][i - 1](ts[i - 1]) == Success(vs[i - 1], ts[i]);
          }
        }
      }
  }

  /** And the threading is unique, so any way to thread all the parsers is the result. */
  lemma {:induction false} ThreadsIsResult<V>(s: string, ps: seq<Parser<V>>, values: seq<V>, texts: seq<string>)
    requires ps != [] && Threads(s, ps, values, texts) && |values| == |ps|
    ensures ParseConsecutive(s, ps) == Success(values, texts[|ps|])
    decreases |ps|
  {
    assert ps[0](texts[0]) == Success(values[0], texts[1]);
    if |ps| == 1 {
      assert values == [values[0]];
    } else {
      assert Threads(texts[1], ps[1..], values[1..], texts[1..]) by {
        forall i | 0 <= i < |ps| - 1
          ensures ps[1..][i](texts[1..][i]) == Success(values[1..][i], texts[1..][i + 1])
        {
          assert ps[i + 1](texts[i + 1]) == Success(values[i + 1], texts[i + 2]);
        }
      }
      ThreadsIsResult(texts[1], ps[1..], values[1..], texts[1..]);
      assert values == [values[0]] + values[1..];
    }
  }

  /** `parse_multi_consecutive2`, the form that steps through the parsers and leaves at the first failure. It
      agrees with `parse_consecutive` on success, values and rest; of a failure it forgets the reason. */
  method ParseMultiConsecutive2<V>(input: string, ps: seq<Parser<V>>) returns (r: Result<seq<V>>)
    requires ps != []
    ensures ParseConsecutive(input, ps).Success? ==> r == ParseConsecutive(input, ps)
    ensures ParseConsecutive(input, ps).Fail? ==> r == Fail(None)
  {
    var s := input;
    var values: seq<V> := [];
    ghost var texts := [input];
    var i := 0;
    while i < |ps|
      invariant i == |values| <= |ps| && Threads(input, ps, values, texts) && texts[i] == s
    {
      match ps[i](s)
      case Fail(_) =>
        StopsAt(input, ps, values, texts);
        return Fail(None);
      case Success(v, rest) =>
        ghost var before := texts;
        values, texts := values + [v], texts + [rest];
        assert forall j :: 0 <= j <= i ==> texts[j] == before[j];
        s := rest;
        i := i + 1;
    }
    ThreadsIsResult(input, ps, values, texts);
    return Success(values, s);
  }

  lemma {:induction false} StopsAt<V>(s: string, ps: seq<Parser<V>>, values: seq<V>, texts: seq<string>)
    requires Threads(s, ps, values, texts) && |values| < |ps| && ps[|values|](texts[|values|]).Fail?
    ensures ParseConsecutive(s, ps) == Fail(ps[|values|](texts[|values|]).reason)
    decreases |ps|
  {
    if values != [] {
      assert ps[0](texts[0]) == Success(values[0], texts[1]);
      assert Threads(texts[1], ps[1..], values[1..], texts[1..]) by {
        forall i | 0 <= i < |values| - 1
          ensures ps[1..][i](texts[1..][i]) == Success(values[1..][i], texts[1..][i + 1])
        {
          assert ps[i + 1](texts[i + 1]) == Success(values[i + 1], texts[i + 2]);
        }
      }
      StopsAt(texts[1], ps[1..], values[1..], texts[1..]);
    }
  }

  /** `try_parse_multiple`. */
  function TryParseMultiple<V>(s: string, ps: seq<Parser<V>>): Result<V>
    requires ps != []
    decreases |ps|
  {
    if |ps| == 1 || ps[0](s).Success? then ps[0](s) else TryParseMultiple(s, ps[1..])
  }

  /** The result is the first success; if there is none, the last parser's failure. */
  lemma {:induction false} FirstSuccess<V>(s: string, ps: seq<Parser<V>>) returns (k: nat)
    requires ps != []
    ensures k < |ps| && TryParseMultiple(s, ps) == ps[k](s)
    ensures forall i :: 0 <= i < k ==> ps[i](s).Fail?
    ensures ps[k](s).Fail? ==> k == |ps| - 1
    decreases |ps|
  {
    if |ps| == 1 || ps[0](s).Success? {
      k := 0;
    } else {
      var j := FirstSuccess(s, ps[1..]);
      k := j + 1;
      forall i | 0 <= i < k ensures ps[i](s).Fail? {
        assert i > 0 ==> ps[1..][i - 1](s).Fail?;
      }
    }
  }

  // ----- Lists -----

  /** As many successes of a parser as there are, one after the other. */
  ghost function Many<V(!new)>(p: Parser<V>, s: string): (r: (seq<V>, string))
    requires Consuming(p)
    ensures Suffix(r.1, s) && p(r.1).Fail?
    decreases |s|
  {
    match p(s)
    case Fail(_) => ([], s)
    case Success(v, rest) =>
      var (vs, end) := Many(p, rest);
      ([v] + vs, end)
  }

  /** The texts between the successes of a parser, one after the other. */
  ghost predicate Repeats<V>(p: Parser<V>, s: string, values: seq<V>, texts: seq<string>) {
    && |texts| == |values| + 1 && texts[0] == s
    && forall i :: 0 <= i < |values| ==> p(texts[i]) == Success(values[i], texts[i + 1])
  }

  lemma NoneYet<V>(p: Parser<V>, s: string)
    ensures Repeats(p, s, [], [s])
  {
  }

  lemma OneMore<V>(p: Parser<V>, s: string, values: seq<V>, texts: seq<string>, v: V, rest: string)
    requires Repeats(p, s, values, texts) && p(texts[|values|]) == Success(v, rest)
    ensures Repeats(p, s, values + [v], texts + [rest])
  {
    assert forall i :: 0 <= i <= |values| ==> (texts + [rest])[i] == texts[i];
  }

  /** A loop that has these successes behind it, and all of the rest of the text before it. */
  ghost predicate ManySoFar<V(!new)>(p: Parser<V>, start: string, got: seq<V>, s: string)
    requires Consuming(p)
  {
    Many(p, start) == (got + Many(p, s).0, Many(p, s).1)
  }

  lemma ManyStarts<V(!new)>(p: Parser<V>, s: string)
    requires Consuming(p)
    ensures ManySoFar(p, s, [], s)
  {
    assert [] + Many(p, s).0 == Many(p, s).0;
  }

  lemma ManyGoesOn<V(!new)>(p: Parser<V>, start: string, got: seq<V>, s: string)
    requires Consuming(p) && ManySoFar(p, start, got, s)
    ensures p(s).Success? ==> ManySoFar(p, start, got + [p(s).value], p(s).rest)
    ensures p(s).Fail? ==> Many(p, start) == (got, s)
    ensures p(s).Success? ==> Suffix(p(s).rest, s) && |p(s).rest| < |s|
  {
    if p(s).Success? {
      var tail := Many(p, p(s).rest).0;
      assert got + ([p(s).value] + tail) == (got + [p(s).value]) + tail;
    } else {
      assert got + [] == got;
    }
  }

  /** `list_parser1`: the values of its successes up to the first failure, and the text it failed on. */
  method ListParser1<V(!new)>(p: Parser<V>, input: string) returns (ret: seq<V>, s: string, ghost texts: seq<string>)
    requires Consuming(p)
    ensures Repeats(p, input, ret, texts) && s == texts[|ret|] && p(s).Fail?
    ensures (ret, s) == Many(p, input)
    ensures Suffix(s, input)
  {
    hide Many, ManySoFar, Repeats, Suffix, Consuming;
    ret, s, texts := [], input, [input];
    NoneYet(p, input);
    ManyStarts(p, input);
    while true
      invariant Repeats(p, input, ret, texts) && |texts| == |ret| + 1 && s == texts[|ret|]
      invariant ManySoFar(p, input, ret, s)
      decreases |s|
    {
      ManyGoesOn(p, input, ret, s);
      var r := p(s);
      if r.Fail? {
        break;
      }
      OneMore(p, input, ret, texts, r.value, r.rest);
      ret, texts := ret + [r.value], texts + [r.rest];
      s := r.rest;
    }
  }

  /** The text after a number of rounds of that loop, if it gets so far. */
  function AfterRounds<V>(p: Parser<V>, s: string, n: nat): Option<string>
    decreases n
  {
    if n == 0 then Some(s)
    else
      match p(s)
      case Fail(_) => None
      case Success(_, rest) => AfterRounds(p, rest, n - 1)
  }

  /** A success that takes nothing keeps the loop going for ever, so some progress is needed. */
  lemma {:induction false} NoProgressNoEnd<V>(p: Parser<V>, s: string, n: nat)
    requires p(s).Success? && p(s).rest == s
    ensures AfterRounds(p, s, n) == Some(s)
  {
    if n > 0 {
      NoProgressNoEnd(p, s, n - 1);
    }
  }

  /** A parser that makes progress whenever it succeeds ends within one round more than there are characters. */
  lemma {:induction false} ProgressEnds<V(!new)>(p: Parser<V>, s: string)
    requires Consuming(p)
    ensures AfterRounds(p, s, |s| + 1) == None
    decreases |s|
  {
    if p(s).Success? {
      var rest := p(s).rest;
      ProgressEnds(p, rest);
      MoreRounds(p, rest, |rest| + 1, |s|);
    }
  }

  lemma {:induction false} MoreRounds<V>(p: Parser<V>, s: string, n: nat, m: nat)
    requires AfterRounds(p, s, n) == None && n <= m
    ensures AfterRounds(p, s, m) == None
    decreases n
  {
    if n > 0 && p(s).Success? {
      MoreRounds(p, p(s).rest, n - 1, m - 1);
    }
  }

  /** The loop of `list_parser1` ends on this input. */
  ghost predicate Ends<V>(p: Parser<V>, s: string) {
    exists n: nat :: AfterRounds(p, s, n) == None
  }

  /** For a parser that leaves an end of its input, taking something at each success is exactly what makes the
      loop of `list_parser1` end on every input. */
  lemma EndsExactlyIfConsuming<V(!new)>(p: Parser<V>)
    requires Proper(p)
    ensures Consuming(p) <==> forall s :: Ends(p, s)
  {
    if Consuming(p) {
      forall s ensures Ends(p, s) {
        ProgressEnds(p, s);
      }
    } else {
      var s :| p(s).Success? && !(Suffix(p(s).rest, s) && |p(s).rest| < |s|);
      assert p(s).rest == s;
      forall n: nat ensures AfterRounds(p, s, n) != None {
        NoProgressNoEnd(p, s, n);
      }
      assert !Ends(p, s);
    }
  }

  /** A delimiter and then an item, as the list parsers use `parse_consecutive`. */
  function DelimitedItem<V>(d: Parser<V>, p: Parser<V>): Parser<V> {
    s =>
      match ParseConsecutive(s, [d, p])
      case Fail(reason) => Fail(reason)
      case Success(vs, rest) => if |vs| == 2 then Success(vs[1], rest) else Fail(None)
  }

  lemma DelimitedItemIs<V>(d: Parser<V>, p: Parser<V>, s: string)
    ensures DelimitedItem(d, p)(s) ==
            match d(s)
            case Fail(reason) => Fail(reason)
            case Success(_, rest) => p(rest)
    ensures ParseConsecutive(s, [d, p]).Success? ==> |ParseConsecutive(s, [d, p]).value| == 2
  {
    var ps := [d, p];
    assert ps[1..] == [p];
    match d(s)
    case Fail(_) =>
    case Success(v, rest) =>
      assert ParseConsecutive(rest, ps[1..]) ==
             match p(rest)
             case Fail(reason) => Fail(reason)
             case Success(w, end) => Success([w], end);
  }

  lemma ConsecutiveIsItem<V>(d: Parser<V>, p: Parser<V>, s: string)
    ensures var r := ParseConsecutive(s, [d, p]);
            if r.Fail? then DelimitedItem(d, p)(s).Fail?
            else |r.value| == 2 && DelimitedItem(d, p)(s) == Success(r.value[1], r.rest)
  {
    DelimitedItemIs(d, p, s);
  }

  /** The delimiter or the item making progress is enough. */
  lemma DelimiterConsumes<V(!new)>(d: Parser<V>, p: Parser<V>)
    requires Proper(d) && Proper(p) && (Consuming(d) || Consuming(p))
    ensures Consuming(DelimitedItem(d, p))
  {
    var q := DelimitedItem(d, p);
    forall s | q(s).Success? ensures Suffix(q(s).rest, s) && |q(s).rest| < |s| {
      DelimitedItemIs(d, p, s);
      var mid := d(s).rest;
      assert d(s).Success? && p(mid).Success?;
      SuffixTrans(p(mid).rest, mid, s);
    }
  }

  /** Items with delimiters between them; a delimiter with no item after it is left over. */
  ghost function Delimited<V(!new)>(p: Parser<V>, d: Parser<V>, s: string): (r: (seq<V>, string))
    requires Consuming(DelimitedItem(d, p))
  {
    match p(s)
    case Fail(_) => ([], s)
    case Success(v, rest) =>
      var (vs, end) := Many(DelimitedItem(d, p), rest);
      ([v] + vs, end)
  }

  /** The texts between items that each have a delimiter before them. */
  ghost predicate ItemByItem<V>(p: Parser<V>, d: Parser<V>, s: string, values: seq<V>, texts: seq<string>) {
    && |texts| == |values| + 1 && texts[0] == s
    && forall i :: 0 <= i < |values| ==>
         d(texts[i]).Success? && p(d(texts[i]).rest) == Success(values[i], texts[i + 1])
  }

  lemma NoItemsYet<V>(p: Parser<V>, d: Parser<V>, s: string)
    ensures ItemByItem(p, d, s, [], [s])
  {
  }

  lemma OneMoreItem<V>(p: Parser<V>, d: Parser<V>, s: string, values: seq<V>, texts: seq<string>, v: V, rest: string)
    requires ItemByItem(p, d, s, values, texts)
    requires DelimitedItem(d, p)(texts[|values|]) == Success(v, rest)
    ensures ItemByItem(p, d, s, values + [v], texts + [rest])
  {
    DelimitedItemIs(d, p, texts[|values|]);
    assert forall i :: 0 <= i <= |values| ==> (texts + [rest])[i] == texts[i];
  }

  lemma NoMoreItems<V>(p: Parser<V>, d: Parser<V>, s: string)
    ensures DelimitedItem(d, p)(s).Fail? <==> NoItem(p, d, s)
  {
    DelimitedItemIs(d, p, s);
  }

  /** No delimiter here, or no item after it. */
  predicate NoItem<V>(p: Parser<V>, d: Parser<V>, s: string) {
    d(s).Success? ==> p(d(s).rest).Fail?
  }

  /** `list_parser3`.  Without a first item the result is empty and the text is left alone.  The loop ends because a
      delimiter with an item takes something each time; the text left over is an end of the input. */
  method ListParser3<V(!new)>(p: Parser<V>, d: Parser<V>, input: string)
    returns (ret: seq<V>, s: string, ghost texts: seq<string>)
    requires Consuming(DelimitedItem(d, p))
    ensures p(input).Fail? ==> ret == [] && s == input
    ensures p(input).Success? ==>
              && ret != [] && ret[0] == p(input).value
              && ItemByItem(p, d, p(input).rest, ret[1..], texts) && s == texts[|ret| - 1] && NoItem(p, d, s)
    ensures (ret, s) == Delimited(p, d, input)
    ensures Proper(p) ==> Suffix(s, input)
  {
    hide ItemByItem, NoItem, DelimitedItem, ParseConsecutive, Many, ManySoFar, Suffix, Consuming;
    ghost var q := DelimitedItem(d, p);
    ret, s, texts := [], input, [];
    var r1 := p(s);
    WholeIsSuffix(p, input);
    if r1.Fail? {
      return;
    }
    s := r1.rest;
    ret, texts := ret + [r1.value], [s];
    ghost var (items, after) := ([], s);
    NoItemsYet(p, d, s);
    ManyStarts(q, s);
    while true
      invariant Proper(p) ==> Suffix(s, input)
      invariant ret == [r1.value] + items && |texts| == |ret| && s == texts[|items|]
      invariant ItemByItem(p, d, after, items, texts) && ManySoFar(q, after, items, s)
      decreases |s|
    {
      ConsecutiveIsItem(d, p, s);
      ManyGoesOn(q, after, items, s);
      var result := ParseConsecutive(s, [d, p]);
      if result.Fail? {
        NoMoreItems(p, d, s);
        assert ret[1..] == items;
        break;
      }
      if Proper(p) {
        SuffixTrans(result.rest, s, input);
      }
      OneMoreItem(p, d, after, items, texts, result.value[1], result.rest);
      s := result.rest;
      items, texts := items + [result.value[1]], texts + [s];
      ret := ret + [result.value[1]];
    }
  }

  lemma WholeIsSuffix<V(!new)>(p: Parser<V>, s: string)
    ensures Suffix(s, s) && (Proper(p) && p(s).Success? ==> Suffix(p(s).rest, s))
  {
  }

  /** Delimited items up to a terminator, which is tried first each time. */
  ghost function UpToTerminator<V(!new)>(p: Parser<V>, d: Parser<V>, t: Parser<V>, s: string): Result<seq<V>>
    requires Consuming(DelimitedItem(d, p))
    decreases |s|
  {
    if t(s).Success? then Success([], t(s).rest)
    else
      match DelimitedItem(d, p)(s)
      case Fail(_) => Fail(None)
      case Success(v, rest) =>
        match UpToTerminator(p, d, t, rest)
        case Fail(_) => Fail(None)
        case Success(vs, end) => Success([v] + vs, end)
  }

  ghost function Terminated<V(!new)>(p: Parser<V>, d: Parser<V>, t: Parser<V>, s: string): Result<seq<V>>
    requires Consuming(DelimitedItem(d, p))
  {
    match p(s)
    case Fail(_) => Success([], s)
    case Success(v, rest) =>
      match UpToTerminator(p, d, t, rest)
      case Fail(_) => Fail(None)
      case Success(vs, end) => Success([v] + vs, end)
  }

  /** `list_parser2`.  With no first item it succeeds with the empty list and takes nothing, not even a
      terminator. */
  method ListParser2<V(!new)>(p: Parser<V>, d: Parser<V>, t: Parser<V>, input: string)
    returns (r: Result<seq<V>>, ghost items: seq<V>, ghost texts: seq<string>)
    requires Consuming(DelimitedItem(d, p))
    ensures p(input).Fail? ==> r == Success([], input)
    ensures p(input).Success? ==>
              && ItemByItem(p, d, p(input).rest, items, texts) && (forall i :: 0 <= i < |items| ==> t(texts[i]).Fail?)
              && var end := texts[|items|];
              && (t(end).Success? ==> r == Success([p(input).value] + items, t(end).rest))
              && (t(end).Fail? ==> r == Fail(None) && NoItem(p, d, end))
    ensures r == Terminated(p, d, t, input)
  {
    hide ItemByItem, NoItem, DelimitedItem, ParseConsecutive;
    ghost var q := DelimitedItem(d, p);
    var s := input;
    var result1 := p(s);
    items, texts := [], [];
    if result1.Fail? {
      r := Success([], s);
      return;
    }
    var ret := [result1.value];
    s := result1.rest;
    texts := [s];
    NoItemsYet(p, d, s);
    while true
      invariant ret == [result1.value] + items && ItemByItem(p, d, result1.rest, items, texts)
      invariant |texts| == |items| + 1 && s == texts[|items|]
      invariant forall i :: 0 <= i < |items| ==> t(texts[i]).Fail?
      invariant Terminated(p, d, t, input) ==
                match UpToTerminator(p, d, t, s)
                case Fail(_) => Fail(None)
                case Success(vs, end) => Success(ret + vs, end)
      decreases |s|
    {
      var terminal := t(s);
      if terminal.Success? {
        assert ret + [] == ret;
        r := Success(ret, terminal.rest);
        return;
      }
      ConsecutiveIsItem(d, p, s);
      var result := ParseConsecutive(s, [d, p]);
      if result.Fail? {
        assert q(s).Fail?;
        NoMoreItems(p, d, s);
        r := Fail(None);
        return;
      }
      assert q(s) == Success(result.value[1], result.rest);
      ghost var tail := UpToTerminator(p, d, t, result.rest);
      assert tail.Success? ==> ret + ([result.value[1]] + tail.value) == (ret + [result.value[1]]) + tail.value;
      OneMoreItem(p, d, result1.rest, items, texts, result.value[1], result.rest);
      s := result.rest;
      items, texts := items + [result.value[1]], texts + [s];
      ret := ret + [result.value[1]];
    }
  }

  /** When no text both ends the list and continues it, the terminated list is the delimited list followed by
      the terminator. */
  lemma TerminatedIsDelimited<V(!new)>(p: Parser<V>, d: Parser<V>, t: Parser<V>, s: string)
    requires Consuming(DelimitedItem(d, p))
    requires forall u :: t(u).Success? ==> DelimitedItem(d, p)(u).Fail?
    ensures var (vs, end) := Delimited(p, d, s);
            Terminated(p, d, t, s) == if vs == [] then Success([], s)
                                      else if t(end).Success? then Success(vs, t(end).rest) else Fail(None)
  {
    if p(s).Success? {
      UpToIsMany(p, d, t, p(s).rest);
    }
  }

  lemma {:induction false} UpToIsMany<V(!new)>(p: Parser<V>, d: Parser<V>, t: Parser<V>, s: string)
    requires Consuming(DelimitedItem(d, p))
    requires forall u :: t(u).Success? ==> DelimitedItem(d, p)(u).Fail?
    ensures var (vs, end) := Many(DelimitedItem(d, p), s);
            UpToTerminator(p, d, t, s) == if t(end).Success? then Success(vs, t(end).rest) else Fail(None)
    decreases |s|
  {
    var q := DelimitedItem(d, p);
    if q(s).Success? {
      UpToIsMany(p, d, t, q(s).rest);
    }
  }
}
