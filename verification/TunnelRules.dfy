/**
 * The customer tunnel's allow list (`tunnelAllows` in `protocol.ts`): its string-suffix test for
 * wildcards is the rule on domain labels it is meant to be.
 */
module TunnelRules {
  import opened Unicode
  import opened Wrappers

  const DOT: u16 := 0x2e
  const STAR: u16 := 0x2a

  /** `toLowerCase`, of which nothing is assumed. */
  type Lowering = JsString -> JsString

  datatype Rule = Rule(host: JsString, port: Option<int>)

  predicate RuleAllows(r: Rule, h: JsString, port: int, lower: Lowering) {
    if r.port.Some? && r.port.value != port then false
    else
      var pattern := lower(r.host);
      if pattern == [STAR] then true
      else if StartsWith(pattern, [STAR, DOT]) then
        var suffix := pattern[1..];
        EndsWith(h, suffix) || h == suffix[1..]
      else h == pattern
  }

  predicate TunnelAllows(rules: seq<Rule>, host: JsString, port: int, lower: Lowering) {
    exists r <- rules :: RuleAllows(r, lower(host), port, lower)
  }

  // ------------------------------------------------------------------- labels

  /** A name cut at its dots; never empty. */
  function Labels(s: JsString): (ls: seq<JsString>)
    ensures ls != []
  {
    if s == [] then [[]]
    else
      var rest := Labels(s[1..]);
      if s[0] == 0x2e then [[]] + rest else [[s[0]] + rest[0]] + rest[1..]
  }

  predicate WholeSuffix(ls: seq<JsString>, of: seq<JsString>) {
    |ls| <= |of| && of[|of| - |ls|..] == ls
  }

  /** Cutting at a dot cuts the labels there. */
  lemma {:induction false} LabelsSplit(a: JsString, b: JsString)
    ensures Labels(a + [DOT] + b) == Labels(a) + Labels(b)
  {
    var s := a + [DOT] + b;
    if a == [] {
      assert s[1..] == b;
    } else {
      assert s[1..] == a[1..] + [DOT] + b;
      LabelsSplit(a[1..], b);
    }
  }

  /** Gluing labels with dots gives the name back. */
  function Glue(ls: seq<JsString>): JsString
    requires ls != []
  {
    if |ls| == 1 then ls[0] else ls[0] + [DOT] + Glue(ls[1..])
  }

  /** One more unit in front of the first label. */
  lemma GlueLonger(u: u16, ls: seq<JsString>)
    requires ls != []
    ensures Glue([[u] + ls[0]] + ls[1..]) == [u] + Glue(ls)
  {
    var longer := [[u] + ls[0]] + ls[1..];
    assert longer[0] == [u] + ls[0] && longer[1..] == ls[1..];
    if |ls| > 1 {
      assert ([u] + ls[0]) + [DOT] + Glue(ls[1..]) == [u] + (ls[0] + [DOT] + Glue(ls[1..]));
    }
  }

  /** One more, empty, label. */
  lemma GlueDot(ls: seq<JsString>)
    requires ls != []
    ensures Glue([[]] + ls) == [DOT] + Glue(ls)
  {
    assert ([[]] + ls)[1..] == ls;
    assert [] + [DOT] + Glue(ls) == [DOT] + Glue(ls);
  }

  lemma {:induction false} GlueLabels(s: JsString)
    ensures Glue(Labels(s)) == s
  {
    hide Glue;
    if s == [] {
      GlueOne([]);
    } else {
      GlueLabels(s[1..]);
      GlueLonger(s[0], Labels(s[1..]));
      GlueDot(Labels(s[1..]));
      assert s == [s[0]] + s[1..];
    }
  }

  lemma GlueOne(s: JsString)
    ensures Glue([s]) == s
  {
  }

  lemma {:induction false} GlueAppend(a: seq<JsString>, b: seq<JsString>)
    requires a != [] && b != []
    ensures Glue(a + b) == Glue(a) + [DOT] + Glue(b)
  {
    assert (a + b)[1..] == a[1..] + b;
    if |a| == 1 {
      assert a[1..] + b == b;
    } else {
      GlueAppend(a[1..], b);
    }
  }

  lemma SuffixHasLabels(h: JsString, name: JsString)
    requires EndsWith(h, [DOT] + name)
    ensures WholeSuffix(Labels(name), Labels(h))
  {
    hide Labels;
    var front := h[..|h| - |name| - 1];
    assert h == front + [DOT] + name;
    LabelsSplit(front, name);
  }

  lemma LabelsHaveSuffix(h: JsString, name: JsString)
    requires WholeSuffix(Labels(name), Labels(h))
    ensures EndsWith(h, [DOT] + name) || h == name
  {
    hide Labels, Glue;
    var p, hl := Labels(name), Labels(h);
    var front := hl[..|hl| - |p|];
    assert hl == front + p;
    GlueLabels(h);
    GlueLabels(name);
    if front == [] {
      assert hl == p;
    } else {
      GlueAppend(front, p);
      assert h == Glue(front) + ([DOT] + name);
    }
  }

  /**
   * The suffix test on strings is the rule on labels: the name's labels are a whole-label suffix of
   * the host's, the bare name included.
   */
  lemma SuffixIsLabels(h: JsString, name: JsString)
    ensures EndsWith(h, [DOT] + name) || h == name <==> WholeSuffix(Labels(name), Labels(h))
  {
    if EndsWith(h, [DOT] + name) {
      SuffixHasLabels(h, name);
    }
    if WholeSuffix(Labels(name), Labels(h)) {
      LabelsHaveSuffix(h, name);
    }
  }

  /** What a rule means, on labels. */
  ghost predicate RuleMeans(r: Rule, host: JsString, port: int, lower: Lowering) {
    && (r.port.None? || r.port.value == port)
    && var pattern := Labels(lower(r.host));
       if pattern == [[0x2a]] then true
       else if |pattern| > 1 && pattern[0] == [0x2a] then WholeSuffix(pattern[1..], Labels(lower(host)))
       else pattern == Labels(lower(host))
  }

  lemma LabelsInjective(a: JsString, b: JsString)
    ensures Labels(a) == Labels(b) <==> a == b
  {
    GlueLabels(a);
    GlueLabels(b);
  }

  lemma LabelsOfStar()
    ensures Labels([STAR]) == [[STAR]]
  {
    assert [STAR][1..] == [] && [STAR] + [] == [STAR];
  }

  lemma WildcardLabels(pattern: JsString)
    ensures StartsWith(pattern, [STAR, DOT]) <==> |Labels(pattern)| > 1 && Labels(pattern)[0] == [STAR]
    ensures StartsWith(pattern, [STAR, DOT]) ==> Labels(pattern)[1..] == Labels(pattern[2..])
  {
    var ls := Labels(pattern);
    if |ls| > 1 && ls[0] == [STAR] {
      GlueLabels(pattern);
      assert pattern == [STAR, DOT] + Glue(ls[1..]);
    }
    if StartsWith(pattern, [STAR, DOT]) {
      assert pattern == [STAR] + [DOT] + pattern[2..];
      LabelsSplit([STAR], pattern[2..]);
      LabelsOfStar();
    }
  }

  /** The list allows exactly the host and port pairs that some rule means. */
  lemma AllowsIsMeaning(rules: seq<Rule>, host: JsString, port: int, lower: Lowering)
    ensures TunnelAllows(rules, host, port, lower) <==> exists r <- rules :: RuleMeans(r, host, port, lower)
  {
    forall r <- rules
      ensures RuleAllows(r, lower(host), port, lower) <==> RuleMeans(r, host, port, lower)
    {
      RuleIsMeaning(r, host, port, lower);
    }
  }

  lemma RuleIsMeaning(r: Rule, host: JsString, port: int, lower: Lowering)
    ensures RuleAllows(r, lower(host), port, lower) <==> RuleMeans(r, host, port, lower)
  {
    hide Labels, WholeSuffix;
    var pattern, h := lower(r.host), lower(host);
    StarLabel(pattern);
    WildcardLabels(pattern);
    LabelsInjective(pattern, h);
    if StartsWith(pattern, [STAR, DOT]) {
      assert pattern[1..] == [DOT] + pattern[2..];
      SuffixIsLabels(h, pattern[2..]);
    }
  }

  lemma StarLabel(pattern: JsString)
    ensures pattern == [STAR] <==> Labels(pattern) == [[STAR]]
  {
    LabelsInjective(pattern, [STAR]);
    LabelsOfStar();
  }

  /** Hosts and rules that lower-case alike get the same answer, whatever lower-casing does. */
  lemma CaseInsensitive(rules: seq<Rule>, rules': seq<Rule>, host: JsString, host': JsString, port: int,
                       lower: Lowering)
    requires lower(host) == lower(host') && |rules| == |rules'|
    requires forall i :: 0 <= i < |rules| ==>
      lower(rules[i].host) == lower(rules'[i].host) && rules[i].port == rules'[i].port
    ensures TunnelAllows(rules, host, port, lower) == TunnelAllows(rules', host', port, lower)
  {
    forall i | 0 <= i < |rules|
      ensures RuleAllows(rules[i], lower(host), port, lower) == RuleAllows(rules'[i], lower(host'), port, lower)
    {
    }
    if r :| r in rules && RuleAllows(r, lower(host), port, lower) {
      var i :| 0 <= i < |rules| && rules[i] == r;
      assert RuleAllows(rules'[i], lower(host'), port, lower);
    }
    if r :| r in rules' && RuleAllows(r, lower(host'), port, lower) {
      var i :| 0 <= i < |rules'| && rules'[i] == r;
      assert RuleAllows(rules[i], lower(host), port, lower);
    }
  }

  /** ASCII letters without their case. */
  function Fold(u: u16): u16 {
    if 0x41 <= u <= 0x5a then u + 0x20 else u
  }

  function FoldAll(s: JsString): JsString {
    seq(|s|, i requires 0 <= i < |s| => Fold(s[i]))
  }

  predicate IsAscii(s: JsString) {
    forall i :: 0 <= i < |s| ==> s[i] < 0x80
  }

  /** What `toLowerCase` does to ASCII text. */
  ghost predicate LowersAscii(lower: Lowering) {
    forall s: JsString :: IsAscii(s) ==> lower(s) == FoldAll(s)
  }

  /** Two ASCII texts that differ at most in the case of their letters. */
  predicate SameLetters(a: JsString, b: JsString) {
    IsAscii(a) && IsAscii(b) && |a| == |b| && forall i :: 0 <= i < |a| ==> Fold(a[i]) == Fold(b[i])
  }

  /** Letter case of ASCII hosts and rules never matters. */
  lemma AsciiCaseInsensitive(rules: seq<Rule>, rules': seq<Rule>, host: JsString, host': JsString, port: int,
                            lower: Lowering)
    requires LowersAscii(lower) && SameLetters(host, host') && |rules| == |rules'|
    requires forall i :: 0 <= i < |rules| ==>
      SameLetters(rules[i].host, rules'[i].host) && rules[i].port == rules'[i].port
    ensures TunnelAllows(rules, host, port, lower) == TunnelAllows(rules', host', port, lower)
  {
    forall a: JsString, b: JsString | SameLetters(a, b)
      ensures lower(a) == lower(b)
    {
      assert FoldAll(a) == FoldAll(b);
    }
    CaseInsensitive(rules, rules', host, host', port, lower);
  }

  /** Rules only add: order and repetition are irrelevant, and more rules never allow less. */
  lemma Monotone(rules: seq<Rule>, more: seq<Rule>, host: JsString, port: int, lower: Lowering)
    requires forall r <- rules :: r in more
    ensures TunnelAllows(rules, host, port, lower) ==> TunnelAllows(more, host, port, lower)
  {
  }
}
