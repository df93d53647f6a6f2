/**
 * `xpathLiteral` of `live.js`: the XPath 1.0 expression it writes has the input string as its value
 * (sections 3.7 and 4.2 of the recommendation), whatever quotes the input holds.
 */
module XPathLiterals {
  import opened Unicode
  import opened Wrappers

  const SINGLE: u16 := 0x27
  const DOUBLE: u16 := 0x22
  const COMMA: u16 := 0x2c
  const SPACE: u16 := 0x20
  const CLOSE: u16 := 0x29

  // ------------------------------------------------------------------ the code

  /** `v.split("'")`: one piece more than there are single quotes. */
  function Split(v: JsString): (parts: seq<JsString>)
    ensures parts != []
  {
    if v == [] then [[]]
    else
      var rest := Split(v[1..]);
      if v[0] == SINGLE then [[]] + rest else [[v[0]] + rest[0]] + rest[1..]
  }

  function Join(parts: seq<JsString>, separator: JsString): JsString
    requires parts != []
  {
    if |parts| == 1 then parts[0] else parts[0] + (separator + Join(parts[1..], separator))
  }

  /** `', "'", '`: leave the literal, write a quoted single quote, open the next. */
  const SEPARATOR: JsString := [SINGLE, COMMA, SPACE, DOUBLE, SINGLE, DOUBLE, COMMA, SPACE, SINGLE]

  const CONCAT: JsString := Js("concat(")

  function XPathLiteral(v: JsString): JsString {
    if SINGLE in v then CONCAT + [SINGLE] + Join(Split(v), SEPARATOR) + [SINGLE, CLOSE]
    else [SINGLE] + v + [SINGLE]
  }

  // ----------------------------------------------------------- XPath evaluation

  function UpTo(s: JsString, quote: u16): (n: nat)
    ensures n <= |s| && (forall k :: 0 <= k < n ==> s[k] != quote) && (n < |s| ==> s[n] == quote)
  {
    if s == [] || s[0] == quote then 0 else 1 + UpTo(s[1..], quote)
  }

  /** Literal (production 29): a quoted string without its own quote; its value and length. */
  function LiteralAt(s: JsString): (r: Option<(JsString, nat)>)
    ensures r.Some? ==> 2 <= r.value.1 <= |s|
  {
    if s == [] || (s[0] != 0x27 && s[0] != 0x22) then None
    else
      var n := UpTo(s[1..], s[0]);
      if 1 + n >= |s| then None else Some((s[1..1 + n], n + 2))
  }

  function SkipSpace(s: JsString): (r: JsString)
    ensures |r| <= |s|
  {
    if s != [] && s[0] in {0x20, 0x9, 0xd, 0xa} then SkipSpace(s[1..]) else s
  }

  /** The literals between the parentheses of a call, up to and including its close. */
  function ArgumentsAt(s: JsString): Option<seq<JsString>>
    decreases |s|
  {
    match LiteralAt(SkipSpace(s))
    case None => None
    case Some((value, n)) =>
      var after := SkipSpace(SkipSpace(s)[n..]);
      if after == [0x29] then Some([value])
      else if after == [] || after[0] != 0x2c then None
      else
        var rest := ArgumentsAt(after[1..]);
        if rest.None? then None else Some([value] + rest.value)
  }

  function Concat(parts: seq<JsString>): JsString {
    if parts == [] then [] else parts[0] + Concat(parts[1..])
  }

  /** A literal, or `concat` of two or more literals; None for anything else. */
  function Evaluate(s: JsString): Option<JsString> {
    if StartsWith(s, Js("concat(")) then
      var arguments := ArgumentsAt(s[7..]);
      if arguments.None? || |arguments.value| < 2 then None else Some(Concat(arguments.value))
    else match LiteralAt(s)
      case None => None
      case Some((value, n)) => if n == |s| then Some(value) else None
  }

  // -------------------------------------------------------------------- proofs

  lemma LiteralIs(value: JsString, quote: u16, rest: JsString)
    requires (quote == SINGLE || quote == DOUBLE) && quote !in value
    ensures LiteralAt([quote] + (value + ([quote] + rest))) == Some((value, |value| + 2))
  {
    var tail := value + ([quote] + rest);
    var s := [quote] + tail;
    assert s[1..] == tail;
    assert forall k :: 0 <= k < |value| ==> tail[k] == value[k] != quote;
    assert tail[|value|] == quote;
    assert UpTo(tail, quote) == |value|;
    assert s[1..1 + |value|] == value;
  }

  /** The arguments a join of quote-free parts spells: the parts with a single quote between each two. */
  function Between(parts: seq<JsString>): seq<JsString>
    requires parts != []
  {
    if |parts| == 1 then parts else [parts[0], [SINGLE]] + Between(parts[1..])
  }

  predicate QuoteFree(parts: seq<JsString>) {
    forall i :: 0 <= i < |parts| ==> SINGLE !in parts[i]
  }

  lemma OneArgument(value: JsString, quote: u16, after: JsString)
    requires (quote == SINGLE || quote == DOUBLE) && quote !in value
    ensures
      var s := [quote] + (value + ([quote] + ([COMMA, SPACE] + after)));
      && ArgumentsAt(s) == (if ArgumentsAt([SPACE] + after).None? then None
                            else Some([value] + ArgumentsAt([SPACE] + after).value))
      && ArgumentsAt([SPACE] + s) == ArgumentsAt(s)
  {
    hide LiteralAt;
    var end := [COMMA, SPACE] + after;
    var s := [quote] + (value + ([quote] + end));
    LiteralIs(value, quote, end);
    NoSpaceToSkip(s);
    NoSpaceToSkip(end);
    assert s[|value| + 2..] == end;
    assert end[1..] == [SPACE] + after;
    assert ([SPACE] + s)[1..] == s;
    hide SkipSpace;
    assert SkipSpace([SPACE] + s) == SkipSpace(s) by {
      SkipOneSpace(s);
    }
  }

  lemma NoSpaceToSkip(s: JsString)
    requires s != [] && s[0] in {SINGLE, DOUBLE, COMMA}
    ensures SkipSpace(s) == s
  {
  }

  lemma SkipOneSpace(s: JsString)
    ensures SkipSpace([SPACE] + s) == SkipSpace(s)
  {
    assert ([SPACE] + s)[1..] == s;
  }

  lemma LastArgument(value: JsString)
    requires SINGLE !in value
    ensures
      var s := [SINGLE] + (value + [SINGLE, CLOSE]);
      ArgumentsAt(s) == Some([value]) && ArgumentsAt([SPACE] + s) == Some([value])
  {
    var s := [SINGLE] + (value + [SINGLE, CLOSE]);
    LiteralIs(value, SINGLE, [CLOSE]);
    assert [SINGLE] + [CLOSE] == [SINGLE, CLOSE];
    assert SkipSpace(s) == s && s[|value| + 2..] == [CLOSE];
    assert ([SPACE] + s)[1..] == s;
  }

  lemma {:induction false} ArgumentsAre(parts: seq<JsString>)
    requires parts != [] && QuoteFree(parts)
    ensures
      var s := [SINGLE] + Join(parts, SEPARATOR) + [SINGLE, CLOSE];
      ArgumentsAt(s) == Some(Between(parts)) && ArgumentsAt([SPACE] + s) == Some(Between(parts))
  {
    hide ArgumentsAt;
    var s := [SINGLE] + Join(parts, SEPARATOR) + [SINGLE, CLOSE];
    if |parts| == 1 {
      LastArgument(parts[0]);
      assert s == [SINGLE] + (parts[0] + [SINGLE, CLOSE]);
      assert parts == [parts[0]];
    } else {
      var t := [SINGLE] + Join(parts[1..], SEPARATOR) + [SINGLE, CLOSE];
      ArgumentsAre(parts[1..]);
      var quoted := [DOUBLE] + ([SINGLE] + ([DOUBLE] + ([COMMA, SPACE] + t)));
      OneArgument([SINGLE], DOUBLE, t);
      OneArgument(parts[0], SINGLE, quoted);
      assert s == [SINGLE] + (parts[0] + ([SINGLE] + ([COMMA, SPACE] + quoted)));
      assert [parts[0]] + ([[SINGLE]] + Between(parts[1..])) == Between(parts);
    }
  }

  lemma {:induction false} SplitIsQuoteFree(v: JsString)
    ensures QuoteFree(Split(v))
    ensures SINGLE in v ==> |Split(v)| > 1
  {
    if v != [] {
      SplitIsQuoteFree(v[1..]);
      var rest, parts := Split(v[1..]), Split(v);
      if v[0] == SINGLE {
        assert forall i :: 1 <= i < |parts| ==> parts[i] == rest[i - 1];
      } else {
        assert SINGLE in v ==> SINGLE in v[1..];
        assert forall i :: 1 <= i < |parts| ==> parts[i] == rest[i];
      }
    }
  }

  lemma JoinGrow(u: u16, parts: seq<JsString>, separator: JsString)
    requires parts != []
    ensures Join([[u] + parts[0]] + parts[1..], separator) == [u] + Join(parts, separator)
  {
    var grown := [[u] + parts[0]] + parts[1..];
    assert grown[1..] == parts[1..];
    if |parts| > 1 {
      var rest := separator + Join(parts[1..], separator);
      assert ([u] + parts[0]) + rest == [u] + (parts[0] + rest);
    }
  }

  /** Joining with the quote undoes splitting at it. */
  lemma {:induction false} JoinSplit(v: JsString)
    ensures Join(Split(v), [SINGLE]) == v
  {
    if v != [] {
      hide Join;
      JoinSplit(v[1..]);
      var rest := Split(v[1..]);
      assert v == [v[0]] + v[1..];
      if v[0] == SINGLE {
        JoinEmpty(rest, [SINGLE]);
      } else {
        JoinGrow(v[0], rest, [SINGLE]);
      }
    }
  }

  lemma JoinEmpty(rest: seq<JsString>, separator: JsString)
    requires rest != []
    ensures Join([[]] + rest, separator) == separator + Join(rest, separator)
  {
    var empty: JsString := [];
    assert ([empty] + rest)[1..] == rest;
  }

  /** The arguments concatenate to what the parts joined by the quote are. */
  lemma {:induction false} BetweenConcat(parts: seq<JsString>)
    requires parts != []
    ensures Concat(Between(parts)) == Join(parts, [SINGLE])
  {
    if |parts| == 1 {
      ConcatOne(parts[0]);
      assert parts == [parts[0]];
    } else {
      BetweenConcat(parts[1..]);
      hide Between, Join;
      ConcatTwo(parts[0], [SINGLE], Between(parts[1..]));
    }
  }

  lemma ConcatOne(a: JsString)
    ensures Concat([a]) == a
  {
    assert a + Concat([]) == a;
  }

  lemma ConcatTwo(a: JsString, b: JsString, rest: seq<JsString>)
    ensures Concat([a, b] + rest) == a + (b + Concat(rest))
  {
    var s := [a, b] + rest;
    assert s[1..] == [b] + rest;
    assert ([b] + rest)[1..] == rest;
  }

  lemma BetweenGrows(parts: seq<JsString>)
    requires |parts| > 1
    ensures |Between(parts)| >= 2
  {
  }

  /** The expression's value is the input, for every string. */
  lemma LiteralValue(v: JsString)
    ensures Evaluate(XPathLiteral(v)) == Some(v)
  {
    hide ArgumentsAt, Split, Join, Between;
    var s := XPathLiteral(v);
    if SINGLE in v {
      SplitIsQuoteFree(v);
      ArgumentsAre(Split(v));
      JoinSplit(v);
      BetweenConcat(Split(v));
      BetweenGrows(Split(v));
      assert s == CONCAT + ([SINGLE] + Join(Split(v), SEPARATOR) + [SINGLE, CLOSE]);
      assert s[|CONCAT|..] == [SINGLE] + Join(Split(v), SEPARATOR) + [SINGLE, CLOSE];
    } else {
      LiteralIs(v, SINGLE, []);
      assert s == [SINGLE] + (v + ([SINGLE] + []));
      assert s[0] != CONCAT[0];
    }
  }
}
