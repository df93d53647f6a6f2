/**
 * The text one series becomes in `metrics.ts`, and a reader for it: the label part of the Prometheus
 * text exposition format.
 */
module Exposition {
  import opened Unicode
  import opened Wrappers

  const QUOTE: u16 := '"' as int
  const BACKSLASH: u16 := '\\' as int
  const NEWLINE: u16 := '\n' as int
  const SPACE: u16 := ' ' as int
  const EQUALS: u16 := '=' as int
  const COMMA: u16 := ',' as int
  const OPEN: u16 := '{' as int
  const CLOSE: u16 := '}' as int
  const LETTER_N: u16 := 'n' as int

  /** `s.replace(/from/g, to)` for a single unit. */
  function ReplaceAll(s: JsString, from: u16, to: JsString): JsString {
    if s == [] then [] else (if s[0] == from then to else [s[0]]) + ReplaceAll(s[1..], from, to)
  }

  /** `escapeLabelValue`: three passes, the backslash first. */
  function EscapeLabelValue(v: JsString): JsString {
    ReplaceAll(ReplaceAll(ReplaceAll(v, BACKSLASH, [BACKSLASH, BACKSLASH]), NEWLINE, [BACKSLASH, LETTER_N]),
               QUOTE, [BACKSLASH, QUOTE])
  }

  function EscapeHelp(v: JsString): JsString {
    ReplaceAll(ReplaceAll(v, BACKSLASH, [BACKSLASH, BACKSLASH]), NEWLINE, [SPACE])
  }

  /** The same escape as one pass over the value. */
  function EscapeUnit(u: u16): JsString {
    if u == 0x5c then [0x5c, 0x5c]
    else if u == 0x0a then [0x5c, 0x6e]
    else if u == 0x22 then [0x5c, 0x22]
    else [u]
  }

  function EscapeOnce(v: JsString): JsString {
    if v == [] then [] else EscapeUnit(v[0]) + EscapeOnce(v[1..])
  }

  lemma {:induction false} ReplaceAppend(a: JsString, b: JsString, from: u16, to: JsString)
    ensures ReplaceAll(a + b, from, to) == ReplaceAll(a, from, to) + ReplaceAll(b, from, to)
    decreases |a|
  {
    if a == [] {
      assert a + b == b;
    } else {
      assert (a + b)[1..] == a[1..] + b;
      ReplaceAppend(a[1..], b, from, to);
    }
  }

  lemma ReplaceUnit(u: u16, from: u16, to: JsString)
    ensures ReplaceAll([u], from, to) == if u == from then to else [u]
  {
    assert [u][1..] == [];
  }

  lemma EscapeOneUnit(u: u16)
    ensures EscapeLabelValue([u]) == EscapeUnit(u)
  {
    ReplaceUnit(u, BACKSLASH, [BACKSLASH, BACKSLASH]);
    ReplaceUnit(u, NEWLINE, [BACKSLASH, LETTER_N]);
    ReplaceUnit(u, QUOTE, [BACKSLASH, QUOTE]);
    ReplacePair(BACKSLASH, BACKSLASH, NEWLINE, [BACKSLASH, LETTER_N]);
    ReplacePair(BACKSLASH, BACKSLASH, QUOTE, [BACKSLASH, QUOTE]);
    ReplacePair(BACKSLASH, LETTER_N, QUOTE, [BACKSLASH, QUOTE]);
  }

  lemma ReplacePair(x: u16, y: u16, from: u16, to: JsString)
    ensures ReplaceAll([x, y], from, to) == (if x == from then to else [x]) + (if y == from then to else [y])
  {
    assert [x, y] == [x] + [y];
    ReplaceAppend([x], [y], from, to);
    ReplaceUnit(x, from, to);
    ReplaceUnit(y, from, to);
  }

  lemma EscapeAppend(a: JsString, b: JsString)
    ensures EscapeLabelValue(a + b) == EscapeLabelValue(a) + EscapeLabelValue(b)
  {
    var d, n := [BACKSLASH, BACKSLASH], [BACKSLASH, LETTER_N];
    ReplaceAppend(a, b, BACKSLASH, d);
    var a1, b1 := ReplaceAll(a, BACKSLASH, d), ReplaceAll(b, BACKSLASH, d);
    ReplaceAppend(a1, b1, NEWLINE, n);
    ReplaceAppend(ReplaceAll(a1, NEWLINE, n), ReplaceAll(b1, NEWLINE, n), QUOTE, [BACKSLASH, QUOTE]);
  }

  /** The order of the three passes is right: together they escape each unit once. */
  lemma {:induction false} PassesAreOne(v: JsString)
    ensures EscapeLabelValue(v) == EscapeOnce(v)
    decreases |v|
  {
    if v != [] {
      assert v == [v[0]] + v[1..];
      hide EscapeLabelValue;
      EscapeAppend([v[0]], v[1..]);
      EscapeOneUnit(v[0]);
      PassesAreOne(v[1..]);
    } else {
      assert ReplaceAll([], BACKSLASH, [BACKSLASH, BACKSLASH]) == [];
    }
  }

  /** The passes in the order the comment beside them warns of. */
  function QuoteFirst(v: JsString): JsString {
    ReplaceAll(ReplaceAll(ReplaceAll(v, QUOTE, [BACKSLASH, QUOTE]), BACKSLASH, [BACKSLASH, BACKSLASH]),
               NEWLINE, [BACKSLASH, LETTER_N])
  }

  lemma QuoteFirstAppend(a: JsString, b: JsString)
    ensures QuoteFirst(a + b) == QuoteFirst(a) + QuoteFirst(b)
  {
    var q, d := [BACKSLASH, QUOTE], [BACKSLASH, BACKSLASH];
    ReplaceAppend(a, b, QUOTE, q);
    var a1, b1 := ReplaceAll(a, QUOTE, q), ReplaceAll(b, QUOTE, q);
    ReplaceAppend(a1, b1, BACKSLASH, d);
    ReplaceAppend(ReplaceAll(a1, BACKSLASH, d), ReplaceAll(b1, BACKSLASH, d), NEWLINE, [BACKSLASH, LETTER_N]);
  }

  lemma QuoteFirstUnit(u: u16)
    ensures QuoteFirst([u]) == if u == QUOTE then [BACKSLASH, BACKSLASH, QUOTE] else EscapeUnit(u)
  {
    var d, n := [BACKSLASH, BACKSLASH], [BACKSLASH, LETTER_N];
    ReplaceUnit(u, QUOTE, [BACKSLASH, QUOTE]);
    ReplaceUnit(u, BACKSLASH, d);
    ReplaceUnit(u, NEWLINE, n);
    ReplacePair(BACKSLASH, QUOTE, BACKSLASH, d);
    ReplacePair(BACKSLASH, BACKSLASH, NEWLINE, n);
    if u == QUOTE {
      assert [BACKSLASH, BACKSLASH, QUOTE] == d + [QUOTE];
      ReplaceAppend(d, [QUOTE], NEWLINE, n);
      ReplaceUnit(QUOTE, NEWLINE, n);
    }
  }

  function Quotes(v: JsString): nat {
    if v == [] then 0 else (if v[0] == QUOTE then 1 else 0) + Quotes(v[1..])
  }

  lemma {:induction false} QuoteFirstGrows(v: JsString)
    ensures |QuoteFirst(v)| == |EscapeOnce(v)| + Quotes(v)
    ensures Quotes(v) == 0 ==> QUOTE !in v && QuoteFirst(v) == EscapeOnce(v)
    ensures Quotes(v) > 0 ==> QUOTE in v
    decreases |v|
  {
    if v == [] {
      assert ReplaceAll([], QUOTE, [BACKSLASH, QUOTE]) == [];
    } else {
      assert v == [v[0]] + v[1..];
      hide QuoteFirst;
      QuoteFirstAppend([v[0]], v[1..]);
      QuoteFirstUnit(v[0]);
      QuoteFirstGrows(v[1..]);
    }
  }

  /**
   * The order matters: escaping the quote first, so that its own backslash is escaped again, is right for
   * exactly the values that have no quote.
   */
  lemma QuoteFirstExactly(v: JsString)
    ensures QuoteFirst(v) == EscapeLabelValue(v) <==> QUOTE !in v
  {
    hide QuoteFirst, EscapeLabelValue;
    PassesAreOne(v);
    QuoteFirstGrows(v);
  }

  // -------------------------------------------------------------- the reader

  /**
   * Reads a label value up to its closing quote, undoing the three escapes. A raw newline, an unknown
   * escape or the end of the text is an error.
   */
  function ReadValue(s: JsString): Option<(JsString, JsString)> {
    if s == [] || s[0] == 0x0a then None
    else if s[0] == 0x22 then Some(([], s[1..]))
    else if s[0] == 0x5c then
      if |s| < 2 then None
      else if s[1] == 0x5c then Prepend(0x5c, ReadValue(s[2..]))
      else if s[1] == 0x6e then Prepend(0x0a, ReadValue(s[2..]))
      else if s[1] == 0x22 then Prepend(0x22, ReadValue(s[2..]))
      else None
    else Prepend(s[0], ReadValue(s[1..]))
  }

  function Prepend(u: u16, r: Option<(JsString, JsString)>): Option<(JsString, JsString)> {
    if r.None? then None else Some(([u] + r.value.0, r.value.1))
  }

  /** Everything before the first of the stop units, and the text from there on. */
  function ReadUntil(s: JsString, stops: set<u16>): Option<(JsString, JsString)> {
    if s == [] then None
    else if s[0] in stops then Some(([], s))
    else Prepend(s[0], ReadUntil(s[1..], stops))
  }

  /** Label pairs, from a name up to the closing brace. */
  function ReadPairs(s: JsString): Option<(seq<(JsString, JsString)>, JsString)>
    decreases |s|
  {
    var name := ReadUntil(s, {0x3d});
    if name.None? || |name.value.1| < 2 || name.value.1[1] != 0x22 then None
    else
      var value := ReadValue(name.value.1[2..]);
      if value.None? || value.value.1 == [] then None
      else
        var pair := (name.value.0, value.value.0);
        UntilShrinks(s, {0x3d});
        ValueShrinks(name.value.1[2..]);
        if value.value.1[0] == 0x7d then Some(([pair], value.value.1[1..]))
        else if value.value.1[0] == 0x2c then
          var rest := ReadPairs(value.value.1[1..]);
          if rest.None? then None else Some(([pair] + rest.value.0, rest.value.1))
        else None
  }

  lemma UntilShrinks(s: JsString, stops: set<u16>)
    ensures ReadUntil(s, stops).Some? ==> |ReadUntil(s, stops).value.1| <= |s|
  {
  }

  lemma ValueShrinks(s: JsString)
    ensures ReadValue(s).Some? ==> |ReadValue(s).value.1| < |s|
  {
  }

  /** One sample line: the metric's name, its labels if it has any, a space, the value's text. */
  datatype Sample = Sample(name: JsString, labels: seq<(JsString, JsString)>, text: JsString)

  function ReadSample(s: JsString): Option<Sample> {
    var name := ReadUntil(s, {0x7b, 0x20});
    if name.None? then None
    else
      var rest := name.value.1;
      UntilStops(s, {0x7b, 0x20});
      if rest[0] == 0x20 then Some(Sample(name.value.0, [], rest[1..]))
      else
        var pairs := ReadPairs(rest[1..]);
        if pairs.None? || pairs.value.1 == [] || pairs.value.1[0] != 0x20 then None
        else Some(Sample(name.value.0, pairs.value.0, pairs.value.1[1..]))
  }

  lemma UntilStops(s: JsString, stops: set<u16>)
    ensures ReadUntil(s, stops).Some? ==> ReadUntil(s, stops).value.1 != [] && ReadUntil(s, stops).value.1[0] in stops
  {
  }

  // --------------------------------------------------------------- rendering

  /** What the metric constructor accepts as a metric or label name. */
  predicate IsName(name: JsString) {
    && name != []
    && (IsLetter(name[0]) || name[0] in {0x5f, 0x3a})
    && (forall i :: 0 <= i < |name| ==> IsWord(name[i]) || name[i] == 0x3a)
  }

  function Pairs(names: seq<JsString>, values: seq<JsString>): seq<(JsString, JsString)>
    requires |values| == |names|
  {
    seq(|names|, i requires 0 <= i < |names| => (names[i], values[i]))
  }

  /** One printed pair in front of `after`. */
  function PairText(name: JsString, value: JsString, after: JsString): JsString {
    name + ([EQUALS, QUOTE] + (EscapeLabelValue(value) + ([QUOTE] + after)))
  }

  /** The `name="value"` parts joined with commas. */
  function RenderPairs(pairs: seq<(JsString, JsString)>): JsString {
    if pairs == [] then []
    else
      PairText(pairs[0].0, pairs[0].1, if |pairs| == 1 then [] else [COMMA] + RenderPairs(pairs[1..]))
  }

  function RenderLabels(names: seq<JsString>, values: seq<JsString>): JsString
    requires |values| == |names|
  {
    if names == [] then [] else [OPEN] + (RenderPairs(Pairs(names, values)) + [CLOSE])
  }

  function RenderSample(name: JsString, names: seq<JsString>, values: seq<JsString>, text: JsString): JsString
    requires |values| == |names|
  {
    name + (RenderLabels(names, values) + ([SPACE] + text))
  }

  // ------------------------------------------------------------ main results

  lemma ReadEscapedUnit(u: u16, more: JsString)
    ensures ReadValue(EscapeUnit(u) + more) == Prepend(u, ReadValue(more))
  {
    var e := EscapeUnit(u);
    assert (e + more)[0] == e[0];
    assert (e + more)[|e|..] == more;
  }

  lemma ReadQuote(rest: JsString)
    ensures ReadValue([QUOTE] + rest) == Some(([], rest))
  {
    assert ([QUOTE] + rest)[1..] == rest;
  }

  /** Reading an escaped value back gives the value, and stops exactly at the quote that closes it. */
  lemma {:induction false} EscapeInverse(v: JsString, rest: JsString)
    ensures ReadValue(EscapeLabelValue(v) + ([QUOTE] + rest)) == Some((v, rest))
    decreases |v|
  {
    hide EscapeLabelValue, ReadValue, EscapeUnit;
    PassesAreOne(v);
    var tail := [QUOTE] + rest;
    if v == [] {
      assert EscapeOnce(v) + tail == tail;
      ReadQuote(rest);
    } else {
      PassesAreOne(v[1..]);
      EscapeInverse(v[1..], rest);
      var more := EscapeOnce(v[1..]) + tail;
      assert EscapeOnce(v) + tail == EscapeUnit(v[0]) + more;
      ReadEscapedUnit(v[0], more);
      assert [v[0]] + v[1..] == v;
    }
  }

  lemma {:induction false} ReplacedIsGone(s: JsString, from: u16, to: JsString)
    requires from !in to
    ensures from !in ReplaceAll(s, from, to)
    ensures forall u: u16 :: u !in s && u !in to ==> u !in ReplaceAll(s, from, to)
    decreases |s|
  {
    if s != [] {
      ReplacedIsGone(s[1..], from, to);
      assert s == [s[0]] + s[1..];
    }
  }

  /** Neither a label value nor a help text can break out of its line. */
  lemma NoRawNewline(v: JsString)
    ensures NEWLINE !in EscapeLabelValue(v) && NEWLINE !in EscapeHelp(v)
  {
    var d, n := [BACKSLASH, BACKSLASH], [BACKSLASH, LETTER_N];
    var w := ReplaceAll(v, BACKSLASH, d);
    ReplacedIsGone(w, NEWLINE, n);
    ReplacedIsGone(w, NEWLINE, [SPACE]);
    EscapedAddsNoNewline(ReplaceAll(w, NEWLINE, n));
  }

  lemma {:induction false} EscapedAddsNoNewline(s: JsString)
    requires NEWLINE !in s
    ensures NEWLINE !in ReplaceAll(s, QUOTE, [BACKSLASH, QUOTE])
    decreases |s|
  {
    if s != [] {
      assert s == [s[0]] + s[1..];
      EscapedAddsNoNewline(s[1..]);
    }
  }

  lemma {:induction false} UntilInverse(a: JsString, b: JsString, stops: set<u16>)
    requires (forall u <- a :: u !in stops) && b != [] && b[0] in stops
    ensures ReadUntil(a + b, stops) == Some((a, b))
    decreases |a|
  {
    if a == [] {
      assert a + b == b;
    } else {
      assert (a + b)[1..] == a[1..] + b;
      UntilInverse(a[1..], b, stops);
      assert [a[0]] + a[1..] == a;
    }
  }

  lemma NameStops(name: JsString)
    requires IsName(name)
    ensures forall u <- name :: u !in {EQUALS, OPEN, SPACE}
  {
  }

  lemma ReadPair(name: JsString, value: JsString, after: JsString)
    requires IsName(name) && after != []
    ensures
      var more := ReadPairs(after[1..]);
      ReadPairs(PairText(name, value, after))
      == if after[0] == CLOSE then Some(([(name, value)], after[1..]))
         else if after[0] == COMMA && more.Some? then Some(([(name, value)] + more.value.0, more.value.1))
         else None
  {
    hide EscapeLabelValue, IsName, ReadUntil, ReadValue;
    var quoted := EscapeLabelValue(value) + ([QUOTE] + after);
    NameStops(name);
    UntilInverse(name, [EQUALS, QUOTE] + quoted, {EQUALS});
    assert ([EQUALS, QUOTE] + quoted)[2..] == quoted;
    EscapeInverse(value, after);
  }

  lemma Associates(a: JsString, b: JsString, c: JsString)
    ensures (a + b) + c == a + (b + c)
  {
  }

  lemma PairTextAppend(name: JsString, value: JsString, after: JsString, tail: JsString)
    ensures PairText(name, value, after) + tail == PairText(name, value, after + tail)
  {
    hide EscapeLabelValue;
    var quoted := [QUOTE] + after;
    var escaped := EscapeLabelValue(value) + quoted;
    Associates(name, [EQUALS, QUOTE] + escaped, tail);
    Associates([EQUALS, QUOTE], escaped, tail);
    Associates(EscapeLabelValue(value), quoted, tail);
    Associates([QUOTE], after, tail);
  }

  /** Where the first of several printed pairs ends. */
  lemma PairsSplit(pairs: seq<(JsString, JsString)>, tail: JsString)
    requires pairs != []
    ensures
      RenderPairs(pairs) + tail
      == PairText(pairs[0].0, pairs[0].1,
                  if |pairs| == 1 then tail else [COMMA] + (RenderPairs(pairs[1..]) + tail))
  {
    hide PairText;
    if |pairs| == 1 {
      PairTextAppend(pairs[0].0, pairs[0].1, [], tail);
      assert [] + tail == tail;
    } else {
      var more := RenderPairs(pairs[1..]);
      PairTextAppend(pairs[0].0, pairs[0].1, [COMMA] + more, tail);
      Associates([COMMA], more, tail);
    }
  }

  lemma {:induction false} PairsInverse(pairs: seq<(JsString, JsString)>, rest: JsString)
    requires pairs != [] && forall i :: 0 <= i < |pairs| ==> IsName(pairs[i].0)
    ensures ReadPairs(RenderPairs(pairs) + ([CLOSE] + rest)) == Some((pairs, rest))
    decreases |pairs|
  {
    hide PairText, IsName, RenderPairs, ReadPairs;
    var tail := [CLOSE] + rest;
    PairsSplit(pairs, tail);
    if |pairs| == 1 {
      ReadPair(pairs[0].0, pairs[0].1, tail);
      assert tail[1..] == rest && pairs == [pairs[0]];
    } else {
      var more := RenderPairs(pairs[1..]) + tail;
      ReadPair(pairs[0].0, pairs[0].1, [COMMA] + more);
      assert ([COMMA] + more)[1..] == more;
      PairsInverse(pairs[1..], rest);
      assert pairs == [pairs[0]] + pairs[1..];
    }
  }

  /**
   * A rendered sample line reads back as exactly its name, its label pairs and its value text: no
   * label value can close its own quotes, add a label or end the line.
   */
  lemma SampleInverse(name: JsString, names: seq<JsString>, values: seq<JsString>, text: JsString)
    requires |values| == |names| && IsName(name) && forall i :: 0 <= i < |names| ==> IsName(names[i])
    ensures ReadSample(RenderSample(name, names, values, text)) == Some(Sample(name, Pairs(names, values), text))
  {
    hide IsName, RenderPairs, ReadPairs, ReadUntil;
    var end := [SPACE] + text;
    var rest := RenderLabels(names, values) + end;
    NameStops(name);
    if names == [] {
      assert rest == end && Pairs(names, values) == [];
    } else {
      var pairs := Pairs(names, values);
      PairsInverse(pairs, end);
      Associates([OPEN], RenderPairs(pairs) + [CLOSE], end);
      Associates(RenderPairs(pairs), [CLOSE], end);
      assert rest[1..] == RenderPairs(pairs) + ([CLOSE] + end);
    }
    UntilInverse(name, rest, {OPEN, SPACE});
    assert end[1..] == text;
  }

  /** Distinct value tuples of one metric render differently. */
  lemma LabelsAreInjective(names: seq<JsString>, v: seq<JsString>, w: seq<JsString>)
    requires |v| == |w| == |names| && forall i :: 0 <= i < |names| ==> IsName(names[i])
    ensures RenderLabels(names, v) == RenderLabels(names, w) <==> v == w
  {
    hide IsName, RenderPairs, ReadPairs;
    if names != [] && RenderLabels(names, v) == RenderLabels(names, w) {
      PairsInverse(Pairs(names, v), []);
      PairsInverse(Pairs(names, w), []);
      assert RenderLabels(names, v)[1..] == RenderPairs(Pairs(names, v)) + ([CLOSE] + []);
      assert RenderLabels(names, w)[1..] == RenderPairs(Pairs(names, w)) + ([CLOSE] + []);
      forall i | 0 <= i < |names|
        ensures v[i] == w[i]
      {
        assert Pairs(names, v)[i].1 == Pairs(names, w)[i].1;
      }
    }
  }
}
