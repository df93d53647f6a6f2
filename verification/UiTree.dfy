/**
 * `parseUiTree` of `protocol.ts`: the two regular expressions as scanners, the entity decoder, and
 * the selection of elements; proved against a printer of UI hierarchies (XML 1.0 sections 4.1, 4.6).
 */
module UiTree {
  import opened Bytes
  import opened Unicode
  import opened Wrappers

  const LT: u16 := 0x3c
  const GT: u16 := 0x3e
  const QUOTE: u16 := 0x22
  const AMP: u16 := 0x26
  const HASH: u16 := 0x23
  const SEMICOLON: u16 := 0x3b
  const SLASH: u16 := 0x2f
  const EQUALS: u16 := 0x3d

  // --------------------------------------------------------------- scanning

  /** How many leading units satisfy `f`: a greedy character class. */
  function Run(s: JsString, f: u16 -> bool): (n: nat)
    ensures n <= |s| && (forall k :: 0 <= k < n ==> f(s[k])) && (n < |s| ==> !f(s[n]))
  {
    if s == [] || !f(s[0]) then 0 else 1 + Run(s[1..], f)
  }

  predicate IsTagChar(u: u16) { IsWord(u) || u == 0x2e }

  predicate IsAttrChar(u: u16) { IsWord(u) || u == 0x3a || u == 0x2d }

  predicate NotAngle(u: u16) { u != LT && u != GT }

  predicate NotQuote(u: u16) { u != QUOTE }

  datatype Tag = Tag(name: JsString, body: JsString)

  /** The body without the slash of `/>`. */
  function TrimSlash(body: JsString): JsString {
    if body != [] && body[|body| - 1] == SLASH then body[..|body| - 1] else body
  }

  /** `<([A-Za-z][\w.]*)\s([^<>]*?)\/?>` at the front of `s`: the groups and the length matched. */
  function TagAt(s: JsString): (r: Option<(Tag, nat)>)
    ensures r.Some? ==> 0 < r.value.1 <= |s|
  {
    if |s| < 2 || s[0] != LT || !IsLetter(s[1]) then None
    else
      var name := Run(s[1..], IsTagChar);
      if 1 + name >= |s| || !IsSpace(s[1 + name]) then None
      else
        var start := 2 + name;
        var body := Run(s[start..], NotAngle);
        if start + body >= |s| || s[start + body] != GT then None
        else Some((Tag(s[1..1 + name], TrimSlash(s[start..start + body])), start + body + 1))
  }

  /** `tag.exec` from here: the leftmost match, and how far it reaches. */
  function ExecTag(s: JsString): (r: Option<(Tag, nat)>)
    ensures r.Some? ==> 0 < r.value.1 <= |s|
  {
    if s == [] then None
    else if TagAt(s).Some? then TagAt(s)
    else match ExecTag(s[1..])
      case None => None
      case Some((tag, n)) => Some((tag, n + 1))
  }

  function TagsIn(s: JsString): seq<Tag> {
    match ExecTag(s)
    case None => []
    case Some((tag, n)) => [tag] + TagsIn(s[n..])
  }

  datatype Attr = Attr(name: JsString, value: JsString)

  /** `([\w:-]+)="([^"]*)"` at the front of `s`. */
  function AttrAt(s: JsString): (r: Option<(Attr, nat)>)
    ensures r.Some? ==> 0 < r.value.1 <= |s|
  {
    var name := Run(s, IsAttrChar);
    if name == 0 || name + 2 > |s| || s[name] != EQUALS || s[name + 1] != QUOTE then None
    else
      var value := Run(s[name + 2..], NotQuote);
      if name + 2 + value >= |s| then None
      else Some((Attr(s[..name], s[name + 2..name + 2 + value]), name + 3 + value))
  }

  function ExecAttr(s: JsString): (r: Option<(Attr, nat)>)
    ensures r.Some? ==> 0 < r.value.1 <= |s|
  {
    if s == [] then None
    else if AttrAt(s).Some? then AttrAt(s)
    else match ExecAttr(s[1..])
      case None => None
      case Some((attr, n)) => Some((attr, n + 1))
  }

  function AttrsIn(s: JsString): seq<Attr> {
    match ExecAttr(s)
    case None => []
    case Some((attr, n)) => [attr] + AttrsIn(s[n..])
  }

  // -------------------------------------------------------------- entities

  function DigitValue(u: u16): (n: nat)
    ensures n < 16
  {
    if IsDigit(u) then u - 0x30
    else if 0x61 <= u <= 0x66 then u - 0x61 + 10
    else if 0x41 <= u <= 0x46 then u - 0x41 + 10
    else 0
  }

  predicate IsHex(u: u16) { IsDigit(u) || 0x61 <= u <= 0x66 || 0x41 <= u <= 0x46 }

  function NumberOf(digits: JsString, base: nat): nat {
    if digits == [] then 0
    else NumberOf(digits[..|digits| - 1], base) * base + DigitValue(digits[|digits| - 1])
  }

  /** `String.fromCodePoint`, which throws above U+10FFFF and accepts surrogates. */
  function FromCodePoint(n: nat): Result<JsString, Fault> {
    if n < 0x1_0000 then Ok([n])
    else if n <= 0x10_ffff then Ok(Utf16(n))
    else Err(RangeError)
  }

  /** The five predefined entities. */
  function Named(s: JsString): Option<u16> {
    if s == Js("amp") then Some(AMP)
    else if s == Js("lt") then Some(LT)
    else if s == Js("gt") then Some(GT)
    else if s == Js("quot") then Some(QUOTE)
    else if s == Js("apos") then Some(0x27)
    else None
  }

  /** The reference at the front of `s` (after its ampersand), up to its semicolon. */
  function ReferenceAt(s: JsString): Option<(Result<JsString, Fault>, nat)> {
    if |s| >= 2 && s[0] == HASH && s[1] == 0x78 then
      var n := Run(s[2..], IsHex);
      if n == 0 || 2 + n >= |s| || s[2 + n] != SEMICOLON then None
      else Some((FromCodePoint(NumberOf(s[2..2 + n], 16)), 3 + n))
    else if |s| >= 1 && s[0] == HASH then
      var n := Run(s[1..], IsDigit);
      if n == 0 || 1 + n >= |s| || s[1 + n] != SEMICOLON then None
      else Some((FromCodePoint(NumberOf(s[1..1 + n], 10)), 2 + n))
    else
      var n := Run(s, IsLetter);
      if n >= |s| || s[n] != SEMICOLON || Named(s[..n]).None? then None
      else Some((Ok([Named(s[..n]).value]), n + 1))
  }

  /** `decodeXml`: one pass, left to right; what is not a reference is copied. */
  function DecodeXml(s: JsString): Result<JsString, Fault> {
    if s == [] then Ok([])
    else
      var reference := if s[0] == AMP then ReferenceAt(s[1..]) else None;
      match reference
      case Some((value, n)) =>
        var v :- value;
        var rest :- DecodeXml(if 1 + n <= |s| then s[1 + n..] else []);
        Ok(v + rest)
      case None =>
        var rest :- DecodeXml(s[1..]);
        Ok([s[0]] + rest)
  }

  // --------------------------------------------------------------- elements

  /** What JavaScript's `Number(string)` gives. */
  datatype JsNumber = NaN | PosInf | NegInf | Finite(v: real)

  predicate Positive(n: JsNumber) {
    n.PosInf? || (n.Finite? && n.v > 0.0)
  }

  type Attrs = map<JsString, JsString>

  function Get(a: Attrs, name: string): Option<JsString> {
    if Js(name) in a then Some(a[Js(name)]) else None
  }

  /** A truthy attribute: present and not empty. */
  function Said(a: Attrs, name: string): Option<JsString> {
    match Get(a, name)
    case Some(v) => if v == [] then None else Some(v)
    case None => None
  }

  predicate Says(a: Attrs, name: string, value: string) {
    Get(a, name) == Some(Js(value))
  }

  /** The length of `(-?\d+)` at the front of `s`. */
  function IntAt(s: JsString): (r: Option<nat>)
    ensures r.Some? ==> r.value <= |s|
  {
    var sign := if s != [] && s[0] == 0x2d then 1 else 0;
    var n := Run(s[sign..], IsDigit);
    if n == 0 then None else Some(sign + n)
  }

  /** `[x,y]` at the front of `s`: the two texts, and where it ends. */
  function PointAt(s: JsString): (r: Option<(JsString, JsString, nat)>)
    ensures r.Some? ==> r.value.2 <= |s|
  {
    if s == [] || s[0] != 0x5b || IntAt(s[1..]).None? then None
    else
      var n := IntAt(s[1..]).value;
      if 1 + n >= |s| || s[1 + n] != 0x2c || IntAt(s[2 + n..]).None? then None
      else
        var m := IntAt(s[2 + n..]).value;
        if 2 + n + m >= |s| || s[2 + n + m] != 0x5d then None
        else Some((s[1..1 + n], s[2 + n..2 + n + m], 3 + n + m))
  }

  datatype Box = Box(x: JsNumber, y: JsNumber, width: JsNumber, height: JsNumber)

  /** JavaScript's number arithmetic is a parameter: `Number(text)`, and the difference of two numbers. */
  datatype Arithmetic = Arithmetic(number: JsString -> JsNumber, minus: (JsNumber, JsNumber) -> JsNumber)

  function ParseBounds(s: JsString, num: Arithmetic): Option<Box> {
    match PointAt(s)
    case None => None
    case Some((left, top, n)) =>
      match PointAt(s[n..])
      case None => None
      case Some((right, bottom, m)) =>
        if n + m != |s| then None
        else
          var x, y := num.number(left), num.number(top);
          Some(Box(x, y, num.minus(num.number(right), x), num.minus(num.number(bottom), y)))
  }

  function Geometry(a: Attrs, num: Arithmetic): Option<Box> {
    var bounds := ParseBounds(if Get(a, "bounds").Some? then Get(a, "bounds").value else [], num);
    if bounds.Some? then bounds
    else if Get(a, "width").Some? && Get(a, "height").Some? then
      Some(Box(if Get(a, "x").Some? then num.number(Get(a, "x").value) else Finite(0.0),
               if Get(a, "y").Some? then num.number(Get(a, "y").value) else Finite(0.0),
               num.number(Get(a, "width").value), num.number(Get(a, "height").value)))
    else None
  }

  predicate Contains(s: JsString, part: JsString) {
    StartsWith(s, part) || (s != [] && Contains(s[1..], part))
  }

  const IOS: string := "XCUIElementType"

  predicate IsIos(name: JsString) {
    StartsWith(name, Js(IOS))
  }

  function OrElse(a: Option<JsString>, b: Option<JsString>): Option<JsString> {
    if a.Some? then a else b
  }

  function TextOf(name: JsString, a: Attrs): Option<JsString> {
    if IsIos(name) then OrElse(Said(a, "value"), Said(a, "label")) else Said(a, "text")
  }

  function LabelOf(name: JsString, a: Attrs): Option<JsString> {
    var raw := Said(a, if IsIos(name) then "label" else "content-desc");
    if raw.Some? && raw != TextOf(name, a) then raw else None
  }

  predicate Clickable(name: JsString, a: Attrs) {
    if IsIos(name) then
      || Contains(name, Js("Button")) || Contains(name, Js("Cell")) || Contains(name, Js("Link"))
      || Contains(name, Js("TextField")) || Contains(name, Js("SecureTextField")) || Contains(name, Js("Switch"))
      || Contains(name, Js("Tab")) || Contains(name, Js("SearchField")) || EndsWith(name, Js("Key"))
    else Says(a, "clickable", "true") || Says(a, "long-clickable", "true")
  }

  function AfterLastDot(s: JsString): JsString
    decreases |s|
  {
    if s == [] then []
    else if s[|s| - 1] == 0x2e then []
    else AfterLastDot(s[..|s| - 1]) + [s[|s| - 1]]
  }

  datatype Shape = Shape(
    kind: JsString, text: Option<JsString>, desc: Option<JsString>, id: Option<JsString>,
    box: Box, clickable: bool, focused: bool)

  function KindOf(name: JsString, a: Attrs): JsString {
    AfterLastDot(if IsIos(name) then name[|IOS|..] else if Get(a, "class").Some? then Get(a, "class").value else name)
  }

  /** The tests of the loop body, in its order; None is `continue`. */
  function Consider(name: JsString, a: Attrs, num: Arithmetic): Option<Shape> {
    match Geometry(a, num)
    case None => None
    case Some(box) =>
      if !(Positive(box.width) && Positive(box.height)) then None
      else if Says(a, "displayed", "false") || Says(a, "visible", "false") then None
      else
        var text, desc, clickable := TextOf(name, a), LabelOf(name, a), Clickable(name, a);
        if text.None? && desc.None? && !clickable && !Says(a, "focusable", "true") then None
        else Some(Shape(KindOf(name, a), text, desc, Said(a, if IsIos(name) then "name" else "resource-id"), box,
                        clickable, Says(a, "focused", "true") || Says(a, "hasFocus", "true")))
  }

  datatype UiElement = UiElement(index: nat, shape: Shape)

  function ReadAttrs(attrs: seq<Attr>, a: Attrs): Result<Attrs, Fault> {
    if attrs == [] then Ok(a)
    else
      var value :- DecodeXml(attrs[0].value);
      ReadAttrs(attrs[1..], a[attrs[0].name := value])
  }

  function Collect(tags: seq<Tag>, out: seq<UiElement>, max: int, num: Arithmetic): Result<seq<UiElement>, Fault> {
    if tags == [] || |out| >= max then Ok(out)
    else
      var a :- ReadAttrs(AttrsIn(tags[0].body), map[]);
      match Consider(tags[0].name, a, num)
      case None => Collect(tags[1..], out, max, num)
      case Some(shape) => Collect(tags[1..], out + [UiElement(|out|, shape)], max, num)
  }

  method ReadAttributes(body: JsString) returns (r: Result<Attrs, Fault>)
    ensures r == ReadAttrs(AttrsIn(body), map[])
  {
    hide DecodeXml, ExecAttr;
    var a: Attrs := map[];
    var p := 0;
    assert body[0..] == body;
    while true
      invariant p <= |body|
      invariant ReadAttrs(AttrsIn(body), map[]) == ReadAttrs(AttrsIn(body[p..]), a)
      decreases |body| - p
    {
      var m := ExecAttr(body[p..]);
      if m.None? {
        return Ok(a);
      }
      var value :- DecodeXml(m.value.0.value);
      a := a[m.value.0.name := value];
      assert body[p..][m.value.1..] == body[p + m.value.1..];
      p := p + m.value.1;
    }
  }

  method ParseUiTree(xml: JsString, max: int, num: Arithmetic) returns (r: Result<seq<UiElement>, Fault>)
    ensures r == Collect(TagsIn(xml), [], max, num)
  {
    hide Consider, ReadAttrs, AttrsIn, ExecTag;
    var out: seq<UiElement> := [];
    var p := 0;
    assert xml[0..] == xml;
    var m := ExecTag(xml);
    while m.Some? && |out| < max
      invariant p <= |xml| && m == ExecTag(xml[p..])
      invariant Collect(TagsIn(xml), [], max, num) == Collect(TagsIn(xml[p..]), out, max, num)
      decreases |xml| - p
    {
      var tag := m.value.0;
      assert xml[p..][m.value.1..] == xml[p + m.value.1..];
      p := p + m.value.1;
      m := ExecTag(xml[p..]);
      var a :- ReadAttributes(tag.body);
      var shape := Consider(tag.name, a, num);
      if shape.Some? {
        out := out + [UiElement(|out|, shape.value)];
      }
    }
    return Ok(out);
  }

  // ------------------------------------------- what the regular expressions say

  /** The tag expression read as a grammar: where its groups end in a match at the front of `s`. */
  ghost predicate TagGrammar(s: JsString, nameEnd: nat, bodyEnd: nat, end: nat) {
    && 2 <= nameEnd < bodyEnd < end <= |s|
    && s[0] == LT && IsLetter(s[1]) && (forall k :: 2 <= k < nameEnd ==> IsTagChar(s[k]))
    && IsSpace(s[nameEnd]) && (forall k :: nameEnd < k < bodyEnd ==> NotAngle(s[k]))
    && s[end - 1] == GT && (end == bodyEnd + 1 || (end == bodyEnd + 2 && s[bodyEnd] == SLASH))
  }

  lemma TagAtMatches(s: JsString)
    requires TagAt(s).Some?
    ensures
      var (tag, end) := TagAt(s).value;
      TagGrammar(s, 1 + |tag.name|, 2 + |tag.name| + |tag.body|, end)
  {
    hide Run, IsLetter, IsSpace, IsTagChar, NotAngle, TrimSlash;
    LetterIsTagChar(s[1]);
    var name := Run(s[1..], IsTagChar);
    assert s[1..][0] == s[1];
    var rest := s[2 + name..];
    var body := Run(rest, NotAngle);
    forall k | 2 <= k < 1 + name
      ensures IsTagChar(s[k])
    {
      assert s[k] == s[1..][k - 1];
    }
    forall k | 2 + name <= k < 2 + name + body
      ensures NotAngle(s[k])
    {
      assert s[k] == rest[k - 2 - name];
    }
    assert s[2 + name + body] == GT;
    TrimmedBody(rest[..body]);
    assert s[2 + name..2 + name + body] == rest[..body];
  }

  lemma LetterIsTagChar(u: u16)
    ensures IsLetter(u) ==> IsTagChar(u)
  {
  }

  lemma TrimmedBody(s: JsString)
    ensures TrimSlash(s) == s || (s != [] && s[|s| - 1] == SLASH && TrimSlash(s) == s[..|s| - 1])
  {
  }

  lemma TagAtIsOnly(s: JsString, nameEnd: nat, bodyEnd: nat, end: nat)
    requires TagGrammar(s, nameEnd, bodyEnd, end)
    ensures TagAt(s).Some? && TagAt(s).value.0.name == s[1..nameEnd] && TagAt(s).value.1 == end
    ensures |TagAt(s).value.0.body| <= bodyEnd - nameEnd - 1
  {
    hide TagAt, Run, IsSpace, IsLetter, TrimSlash;
    GrammarRuns(s, nameEnd, bodyEnd, end);
    TagAtParts(s, nameEnd - 1, end - nameEnd - 2);
    BodyIsShort(s, nameEnd, bodyEnd, end);
  }

  /** The scanner's two runs end where the grammar's groups do. */
  lemma GrammarRuns(s: JsString, nameEnd: nat, bodyEnd: nat, end: nat)
    requires TagGrammar(s, nameEnd, bodyEnd, end)
    ensures Run(s[1..], IsTagChar) == nameEnd - 1 && Run(s[nameEnd + 1..], NotAngle) == end - nameEnd - 2
    ensures s[end - 1] == GT
  {
    hide Run, IsSpace, IsLetter;
    SpaceIsNoTagChar(s[nameEnd]);
    var name, body := s[1..], s[nameEnd + 1..];
    assert forall k :: 0 <= k < nameEnd - 1 ==> name[k] == s[k + 1] && IsTagChar(s[k + 1]);
    assert forall k :: 0 <= k < end - nameEnd - 2 ==> body[k] == s[nameEnd + 1 + k] && NotAngle(body[k]);
    assert !IsTagChar(name[nameEnd - 1]) && !NotAngle(body[end - nameEnd - 2]);
    RunIs(name, nameEnd - 1, IsTagChar);
    RunIs(body, end - nameEnd - 2, NotAngle);
  }

  lemma BodyIsShort(s: JsString, nameEnd: nat, bodyEnd: nat, end: nat)
    requires TagGrammar(s, nameEnd, bodyEnd, end)
    ensures |TrimSlash(s[nameEnd + 1..end - 1])| <= bodyEnd - nameEnd - 1
  {
    hide IsTagChar, IsLetter, IsSpace, NotAngle;
    assert end == bodyEnd + 2 ==> s[nameEnd + 1..end - 1][bodyEnd - nameEnd - 1] == SLASH;
  }

  lemma SpaceIsNoTagChar(u: u16)
    requires IsSpace(u)
    ensures !IsTagChar(u) && !IsAttrChar(u)
  {
  }

  /**
   * The scanner finds a match exactly when the grammar has one; every match has the same name and
   * end, and the scanner's body is the lazy one.
   */
  lemma TagAtIsGrammar(s: JsString)
    ensures TagAt(s).Some? <==> exists nameEnd: nat, bodyEnd: nat, end: nat :: TagGrammar(s, nameEnd, bodyEnd, end)
    ensures forall nameEnd: nat, bodyEnd: nat, end: nat | TagGrammar(s, nameEnd, bodyEnd, end) ::
      && TagAt(s).Some? && TagAt(s).value.0.name == s[1..nameEnd] && TagAt(s).value.1 == end
      && |TagAt(s).value.0.body| <= bodyEnd - nameEnd - 1
  {
    if TagAt(s).Some? {
      TagAtMatches(s);
    }
    forall nameEnd: nat, bodyEnd: nat, end: nat | TagGrammar(s, nameEnd, bodyEnd, end) {
      TagAtIsOnly(s, nameEnd, bodyEnd, end);
    }
  }

  // ---------------------------------------------------------------- printer

  /** One unit of an attribute value, as a serializer may write it. */
  datatype Piece =
    | Raw(u: u16)
    | Entity(name: JsString)
    | Decimal(digits: JsString)
    | Hex(digits: JsString)

  predicate PieceFits(p: Piece) {
    match p
    case Raw(u) => u !in {0x3c, 0x3e, 0x22, 0x26}
    case Entity(name) => EntityUnit(name).Some?
    case Decimal(digits) => digits != [] && (forall u <- digits :: 0x30 <= u <= 0x39) && Place(digits, 10) <= 0x10_ffff
    case Hex(digits) =>
      && digits != [] && (forall u <- digits :: 0x30 <= u <= 0x39 || 0x61 <= u <= 0x66 || 0x41 <= u <= 0x46)
      && Place(digits, 16) <= 0x10_ffff
  }

  /** What XML's predefined entities stand for. */
  function EntityUnit(name: JsString): Option<u16> {
    if name == Js("amp") then Some(0x26)
    else if name == Js("lt") then Some(0x3c)
    else if name == Js("gt") then Some(0x3e)
    else if name == Js("quot") then Some(0x22)
    else if name == Js("apos") then Some(0x27)
    else None
  }

  /** What a digit stands for, in either case. */
  function Digit(u: u16): nat {
    if 0x30 <= u <= 0x39 then u - 0x30
    else if 0x61 <= u <= 0x66 then u - 0x57
    else if 0x41 <= u <= 0x46 then u - 0x37
    else 0
  }

  /** The number the digits stand for in positional notation. */
  function Place(digits: JsString, base: nat): nat {
    if digits == [] then 0 else Place(digits[..|digits| - 1], base) * base + Digit(digits[|digits| - 1])
  }

  /** A code point in UTF-16 (RFC 2781 section 2.1); a lone surrogate is itself. */
  function CodeUnits(n: nat): JsString
    requires n <= 0x10_ffff
  {
    if n < 0x1_0000 then [n] else [0xd800 + (n - 0x1_0000) / 0x400, 0xdc00 + (n - 0x1_0000) % 0x400]
  }

  type piece = p: Piece | PieceFits(p) witness Raw(0)

  function AfterAmp(p: piece): JsString
    requires !p.Raw?
  {
    match p
    case Entity(name) => name + [0x3b]
    case Decimal(digits) => [0x23] + (digits + [0x3b])
    case Hex(digits) => [0x23, 0x78] + (digits + [0x3b])
  }

  function PrintPiece(p: piece): JsString {
    if p.Raw? then [p.u] else [0x26] + AfterAmp(p)
  }

  function PieceValue(p: piece): JsString {
    match p
    case Raw(u) => [u]
    case Entity(name) => [EntityUnit(name).value]
    case Decimal(digits) => CodeUnits(Place(digits, 10))
    case Hex(digits) => CodeUnits(Place(digits, 16))
  }

  function PrintPieces(ps: seq<piece>): JsString {
    if ps == [] then [] else PrintPiece(ps[0]) + PrintPieces(ps[1..])
  }

  function ValueOf(ps: seq<piece>): JsString {
    if ps == [] then [] else PieceValue(ps[0]) + ValueOf(ps[1..])
  }

  lemma RunIs(s: JsString, n: nat, f: u16 -> bool)
    requires n <= |s| && (forall k :: 0 <= k < n ==> f(s[k])) && (n < |s| ==> !f(s[n]))
    ensures Run(s, f) == n
  {
  }

  lemma NamedIsLetters(name: JsString)
    requires Named(name).Some?
    ensures name != [] && forall k :: 0 <= k < |name| ==> IsLetter(name[k])
  {
  }

  lemma EntityAt(name: JsString, rest: JsString)
    requires Named(name).Some?
    ensures ReferenceAt(name + ([SEMICOLON] + rest)) == Some((Ok([Named(name).value]), |name| + 1))
  {
    NamedIsLetters(name);
    hide Named;
    var s := name + ([SEMICOLON] + rest);
    RunIs(s, |name|, IsLetter);
    assert s[..|name|] == name;
  }

  lemma DigitsRun(digits: JsString, rest: JsString, f: u16 -> bool)
    requires (forall k :: 0 <= k < |digits| ==> f(digits[k])) && !f(SEMICOLON)
    ensures Run(digits + ([SEMICOLON] + rest), f) == |digits|
  {
    hide Run;
    RunIs(digits + ([SEMICOLON] + rest), |digits|, f);
  }

  lemma DecimalAt(digits: JsString, rest: JsString)
    requires digits != [] && forall k :: 0 <= k < |digits| ==> IsDigit(digits[k])
    ensures
      ReferenceAt([HASH] + (digits + ([SEMICOLON] + rest)))
      == Some((FromCodePoint(NumberOf(digits, 10)), |digits| + 2))
  {
    hide Run, ReferenceAt, NumberOf, FromCodePoint;
    var tail := digits + ([SEMICOLON] + rest);
    assert ([HASH] + tail)[1] == digits[0];
    DigitsRun(digits, rest, IsDigit);
    Reads(digits, rest, [HASH]);
    DecimalReference([HASH] + tail, |digits|);
  }

  lemma SemicolonIsNoDigit()
    ensures !IsHex(SEMICOLON)
  {
  }

  lemma HexAt(digits: JsString, rest: JsString)
    requires digits != [] && forall k :: 0 <= k < |digits| ==> IsHex(digits[k])
    ensures
      ReferenceAt([HASH, 0x78] + (digits + ([SEMICOLON] + rest)))
      == Some((FromCodePoint(NumberOf(digits, 16)), |digits| + 3))
  {
    SemicolonIsNoDigit();
    hide Run, IsHex, ReferenceAt, NumberOf, FromCodePoint;
    var tail := digits + ([SEMICOLON] + rest);
    DigitsRun(digits, rest, IsHex);
    Reads(digits, rest, [HASH, 0x78]);
    HexReference([HASH, 0x78] + tail, |digits|);
  }

  lemma HexReference(s: JsString, n: nat)
    requires 0 < n && 2 + n < |s| && s[0] == HASH && s[1] == 0x78 && Run(s[2..], IsHex) == n && s[2 + n] == SEMICOLON
    ensures ReferenceAt(s) == Some((FromCodePoint(NumberOf(s[2..2 + n], 16)), 3 + n))
  {
    hide Run, IsHex, Named, NumberOf, FromCodePoint;
  }

  lemma DecimalReference(s: JsString, n: nat)
    requires 0 < n && 1 + n < |s| && s[0] == HASH && s[1] != 0x78 && Run(s[1..], IsDigit) == n && s[1 + n] == SEMICOLON
    ensures ReferenceAt(s) == Some((FromCodePoint(NumberOf(s[1..1 + n], 10)), 2 + n))
  {
    hide Run, IsHex, Named, NumberOf, FromCodePoint;
  }

  /** Where a printed number and its semicolon stand behind a prefix. */
  lemma Reads(digits: JsString, rest: JsString, prefix: JsString)
    ensures
      var tail := digits + ([SEMICOLON] + rest);
      var s, n := prefix + tail, |prefix|;
      && s[n..] == tail && |s| == n + |digits| + 1 + |rest| && s[n..n + |digits|] == digits && s[n + |digits|] == SEMICOLON
      && forall k :: 0 <= k < n ==> s[k] == prefix[k]
  {
    var s := prefix + (digits + ([SEMICOLON] + rest));
    assert s[|prefix|..|prefix| + |digits|] == digits;
  }

  lemma {:induction false} PlaceIsNumber(digits: JsString, base: nat)
    ensures Place(digits, base) == NumberOf(digits, base)
  {
    if digits != [] {
      PlaceIsNumber(digits[..|digits| - 1], base);
    }
  }

  lemma UnitsAre(n: nat)
    requires n <= 0x10_ffff
    ensures FromCodePoint(n) == Ok(CodeUnits(n))
  {
  }

  lemma EntityIsNamed(name: JsString)
    ensures EntityUnit(name) == Named(name)
  {
  }

  lemma PieceInverse(p: piece, rest: JsString)
    requires !p.Raw?
    ensures ReferenceAt(AfterAmp(p) + rest) == Some((Ok(PieceValue(p)), |AfterAmp(p)|))
  {
    hide ReferenceAt, Named, NumberOf, Place, CodeUnits, EntityUnit;
    var end := [SEMICOLON];
    match p
    case Entity(name) =>
      EntityIsNamed(name);
      EntityAt(name, rest);
      Regroup([], name, end, rest);
    case Decimal(digits) =>
      PlaceIsNumber(digits, 10);
      UnitsAre(Place(digits, 10));
      assert forall k :: 0 <= k < |digits| ==> digits[k] in digits;
      DecimalAt(digits, rest);
      Regroup([HASH], digits, end, rest);
    case Hex(digits) =>
      PlaceIsNumber(digits, 16);
      UnitsAre(Place(digits, 16));
      assert forall k :: 0 <= k < |digits| ==> digits[k] in digits;
      HexAt(digits, rest);
      Regroup([HASH, 0x78], digits, end, rest);
  }

  lemma Regroup(a: JsString, b: JsString, c: JsString, d: JsString)
    ensures (a + (b + c)) + d == a + (b + (c + d))
    ensures (b + c) + d == b + (c + d)
  {
  }

  lemma DecodeReference(a: JsString, rest: JsString, value: JsString)
    requires ReferenceAt(a + rest) == Some((Ok(value), |a|)) && DecodeXml(rest).Ok?
    ensures DecodeXml([AMP] + (a + rest)) == Ok(value + DecodeXml(rest).value)
  {
    hide ReferenceAt;
    var s := [AMP] + (a + rest);
    assert s[1..] == a + rest;
    assert s[1 + |a|..] == rest;
  }

  lemma DecodeRaw(u: u16, rest: JsString)
    requires u != AMP && DecodeXml(rest).Ok?
    ensures DecodeXml([u] + rest) == Ok([u] + DecodeXml(rest).value)
  {
    hide ReferenceAt;
    assert ([u] + rest)[1..] == rest;
  }

  lemma DecodeStep(p: piece, rest: JsString)
    requires DecodeXml(rest).Ok?
    ensures DecodeXml(PrintPiece(p) + rest) == Ok(PieceValue(p) + DecodeXml(rest).value)
  {
    hide DecodeXml, ReferenceAt, AfterAmp, Named, NumberOf, FromCodePoint;
    if p.Raw? {
      DecodeRaw(p.u, rest);
    } else {
      PieceInverse(p, rest);
      DecodeReference(AfterAmp(p), rest, PieceValue(p));
      assert PrintPiece(p) + rest == [AMP] + (AfterAmp(p) + rest);
    }
  }

  /** Decoding a printed value gives the value back, in one pass. */
  lemma {:induction false} DecodeInverse(ps: seq<piece>)
    ensures DecodeXml(PrintPieces(ps)) == Ok(ValueOf(ps))
  {
    hide PrintPiece, PieceValue;
    if ps != [] {
      DecodeInverse(ps[1..]);
      DecodeStep(ps[0], PrintPieces(ps[1..]));
    }
  }

  /** An attribute as printed: at least one space, the name, the quoted value. */
  datatype PrintedAttr = PrintedAttr(gap: JsString, name: JsString, value: seq<piece>)

  predicate AttrFits(a: PrintedAttr) {
    && a.gap != [] && (forall k :: 0 <= k < |a.gap| ==> IsSpace(a.gap[k]))
    && a.name != [] && (forall k :: 0 <= k < |a.name| ==> IsAttrChar(a.name[k]))
  }

  type attribute = a: PrintedAttr | AttrFits(a) witness PrintedAttr([0x20], [0x61], [])

  /**
   * An element with its children. `before` is text in front of it, `pad` white space at the end of its
   * opening tag, `end` the text before its closing tag; without one the opening tag closes itself.
   */
  datatype Node = Node(
    before: JsString, name: JsString, attrs: seq<attribute>, pad: JsString, children: seq<Node>, end: Option<JsString>)

  predicate NameFits(name: JsString) {
    name != [] && IsLetter(name[0]) && forall k :: 0 <= k < |name| ==> IsTagChar(name[k])
  }

  function PrintAttr(a: attribute): JsString {
    a.name + ([0x3d, 0x22] + (PrintPieces(a.value) + [0x22]))
  }

  function PrintAttrs(attrs: seq<attribute>): JsString {
    if attrs == [] then [] else attrs[0].gap + (PrintAttr(attrs[0]) + PrintAttrs(attrs[1..]))
  }

  function Given(attrs: seq<attribute>): seq<Attr> {
    if attrs == [] then []
    else [Attr(attrs[0].name, PrintPieces(attrs[0].value))] + Given(attrs[1..])
  }

  /** Neither a quote nor an angle bracket. */
  predicate Plain(s: JsString) {
    forall k :: 0 <= k < |s| ==> NotQuote(s[k]) && NotAngle(s[k])
  }

  lemma PlainAppend(s: JsString, t: JsString)
    requires Plain(s) && Plain(t)
    ensures Plain(s + t)
  {
    hide NotQuote, NotAngle;
  }

  lemma PlainDigits(digits: JsString)
    requires forall u <- digits :: 0x30 <= u <= 0x39 || 0x61 <= u <= 0x66 || 0x41 <= u <= 0x46
    ensures Plain(digits)
  {
    assert forall k :: 0 <= k < |digits| ==> digits[k] in digits;
  }

  lemma PiecePlain(p: piece)
    ensures Plain(PrintPiece(p))
  {
    match p
    case Raw(_) =>
    case Entity(name) =>
      EntityIsNamed(name);
      NamedIsLetters(name);
      LettersPlain(name);
      hide Plain;
      Marks();
      PlainAppend(name, [0x3b]);
      PlainAppend([0x26], AfterAmp(p));
    case Decimal(digits) =>
      PlainDigits(digits);
      hide Plain;
      Marks();
      PlainAppend(digits, [0x3b]);
      PlainAppend([0x23], digits + [0x3b]);
      PlainAppend([0x26], AfterAmp(p));
    case Hex(digits) =>
      PlainDigits(digits);
      hide Plain;
      Marks();
      PlainAppend(digits, [0x3b]);
      PlainAppend([0x23, 0x78], digits + [0x3b]);
      PlainAppend([0x26], AfterAmp(p));
  }

  lemma LettersPlain(name: JsString)
    requires forall k :: 0 <= k < |name| ==> IsLetter(name[k])
    ensures Plain(name)
  {
  }

  lemma Marks()
    ensures Plain([0x26]) && Plain([0x3b]) && Plain([0x23]) && Plain([0x23, 0x78])
  {
  }

  lemma {:induction false} PiecesPlain(ps: seq<piece>)
    ensures forall k :: 0 <= k < |PrintPieces(ps)| ==> NotQuote(PrintPieces(ps)[k]) && NotAngle(PrintPieces(ps)[k])
  {
    if ps != [] {
      PiecePlain(ps[0]);
      PiecesPlain(ps[1..]);
    }
  }

  lemma AttrPlain(a: attribute)
    ensures forall k :: 0 <= k < |a.gap + PrintAttr(a)| ==> NotAngle((a.gap + PrintAttr(a))[k])
    ensures PrintAttr(a) != [] && PrintAttr(a)[|PrintAttr(a)| - 1] == QUOTE
  {
    hide PrintPieces;
    PiecesPlain(a.value);
    assert forall k :: 0 <= k < |a.gap| ==> IsSpace(a.gap[k]);
    assert forall k :: 0 <= k < |a.name| ==> IsAttrChar(a.name[k]);
  }

  lemma {:induction false} AttrsPlain(attrs: seq<attribute>)
    ensures forall k :: 0 <= k < |PrintAttrs(attrs)| ==> NotAngle(PrintAttrs(attrs)[k])
    ensures attrs != [] ==> PrintAttrs(attrs) != [] && PrintAttrs(attrs)[|PrintAttrs(attrs)| - 1] == QUOTE
  {
    hide PrintAttr, NotAngle;
    if attrs != [] {
      AttrPlain(attrs[0]);
      AttrsPlain(attrs[1..]);
      FirstAttr(attrs[0].gap, PrintAttr(attrs[0]), PrintAttrs(attrs[1..]));
    }
  }

  lemma FirstAttr(gap: JsString, attr: JsString, rest: JsString)
    requires attr != [] && attr[|attr| - 1] == QUOTE && (rest != [] ==> rest[|rest| - 1] == QUOTE)
    requires forall k :: 0 <= k < |gap + attr| ==> NotAngle((gap + attr)[k])
    requires forall k :: 0 <= k < |rest| ==> NotAngle(rest[k])
    ensures
      var all := gap + (attr + rest);
      all != [] && all[|all| - 1] == QUOTE && forall k :: 0 <= k < |all| ==> NotAngle(all[k])
  {
    hide NotAngle;
    assert gap + (attr + rest) == (gap + attr) + rest;
  }

  lemma AttrAtInverse(a: attribute, rest: JsString)
    ensures AttrAt(PrintAttr(a) + rest) == Some((Attr(a.name, PrintPieces(a.value)), |PrintAttr(a)|))
  {
    hide Run, PrintPieces;
    PiecesPlain(a.value);
    var value := PrintPieces(a.value);
    var s := PrintAttr(a) + rest;
    var n := |a.name|;
    RunIs(s, n, IsAttrChar);
    assert s[n + 2..] == value + ([QUOTE] + rest);
    RunIs(value + ([QUOTE] + rest), |value|, NotQuote);
    assert s[..n] == a.name && s[n + 2..n + 2 + |value|] == value;
  }

  lemma SpaceStartsNothing(s: JsString)
    requires s != [] && IsSpace(s[0])
    ensures AttrAt(s).None?
  {
    RunIs(s, 0, IsAttrChar);
  }

  /** White space before an attribute is stepped over. */
  lemma {:induction false} GapSkipped(gap: JsString, rest: JsString)
    requires forall k :: 0 <= k < |gap| ==> IsSpace(gap[k])
    ensures AttrsIn(gap + rest) == AttrsIn(rest)
  {
    hide AttrAt, IsSpace;
    if gap == [] {
      assert gap + rest == rest;
    } else {
      var s := gap + rest;
      SpaceStartsNothing(s);
      assert s[1..] == gap[1..] + rest;
      GapSkipped(gap[1..], rest);
      var m := ExecAttr(s[1..]);
      assert m.Some? ==> s[m.value.1 + 1..] == s[1..][m.value.1..];
    }
  }

  lemma {:induction false} AttrsInverse(attrs: seq<attribute>, pad: JsString)
    requires forall k :: 0 <= k < |pad| ==> IsSpace(pad[k])
    ensures AttrsIn(PrintAttrs(attrs) + pad) == Given(attrs)
    decreases |attrs|
  {
    if attrs == [] {
      assert PrintAttrs(attrs) + pad == pad == pad + [];
      GapSkipped(pad, []);
      NoAttrs();
    } else {
      var a, rest := attrs[0], PrintAttrs(attrs[1..]) + pad;
      assert PrintAttrs(attrs) + pad == a.gap + (PrintAttr(a) + rest);
      AttrsInverse(attrs[1..], pad);
      AttrAtInverse(a, rest);
      GapSkipped(a.gap, PrintAttr(a) + rest);
      assert (PrintAttr(a) + rest)[|PrintAttr(a)|..] == rest;
    }
  }

  lemma NoAttrs()
    ensures AttrsIn([]) == []
  {
  }

  // ------------------------------------------------------------ hierarchies

  /** Text that starts no element: content, a closing tag, a declaration. */
  predicate Inert(s: JsString) {
    forall i :: 0 <= i < |s| && s[i] == 0x3c ==> i + 1 < |s| && !IsLetter(s[i + 1])
  }

  function OpenTag(name: JsString, text: JsString, slash: JsString): JsString {
    [0x3c] + (name + (text + (slash + [0x3e])))
  }

  /** What stands between a tag's name and its end. */
  function TagText(n: Node): JsString {
    PrintAttrs(n.attrs) + n.pad
  }

  function CloseTag(name: JsString): JsString {
    [0x3c, 0x2f] + name + [0x3e]
  }

  function Print(forest: seq<Node>): JsString {
    if forest == [] then []
    else
      var n := forest[0];
      n.before
      + ((if n.end.None? then OpenTag(n.name, TagText(n), [SLASH])
          else OpenTag(n.name, TagText(n), []) + (Print(n.children) + (n.end.value + CloseTag(n.name))))
         + Print(forest[1..]))
  }

  predicate NodeFits(n: Node) {
    && NameFits(n.name) && Inert(n.before) && (forall k :: 0 <= k < |n.pad| ==> IsSpace(n.pad[k]))
    && (n.end.None? ==> n.children == []) && (n.end.Some? ==> Inert(n.end.value))
  }

  predicate Fits(forest: seq<Node>) {
    if forest == [] then true
    else NodeFits(forest[0]) && Fits(forest[0].children) && Fits(forest[1..])
  }

  /** Every element, parents before children, as the document lists them. */
  function Preorder(forest: seq<Node>): seq<Node> {
    if forest == [] then [] else [forest[0]] + Preorder(forest[0].children) + Preorder(forest[1..])
  }

  function AttrMap(attrs: seq<attribute>, a: Attrs): Attrs {
    if attrs == [] then a else AttrMap(attrs[1..], a[attrs[0].name := ValueOf(attrs[0].value)])
  }

  lemma {:induction false} AttrMapRead(attrs: seq<attribute>, a: Attrs)
    ensures ReadAttrs(Given(attrs), a) == Ok(AttrMap(attrs, a))
  {
    if attrs != [] {
      DecodeInverse(attrs[0].value);
      AttrMapRead(attrs[1..], a[attrs[0].name := ValueOf(attrs[0].value)]);
    }
  }

  /** Where no match starts, the search moves on by one. */
  lemma SkipOne(s: JsString)
    requires s != [] && TagAt(s).None?
    ensures TagsIn(s) == TagsIn(s[1..])
  {
    hide TagAt;
    var m := ExecTag(s[1..]);
    assert m.Some? ==> s[m.value.1 + 1..] == s[1..][m.value.1..];
  }

  lemma NoTagAt(s: JsString)
    requires |s| < 2 || s[0] != LT || !IsLetter(s[1])
    ensures TagAt(s).None?
  {
  }

  /** Text that starts no element is stepped over. */
  lemma {:induction false} InertSkipped(t: JsString, rest: JsString)
    requires Inert(t)
    ensures TagsIn(t + rest) == TagsIn(rest)
  {
    hide TagAt, TagsIn, IsLetter;
    if t == [] {
      assert t + rest == rest;
    } else {
      var s := t + rest;
      assert s[0] == t[0] && (t[0] == LT ==> s[1] == t[1]);
      NoTagAt(s);
      SkipOne(s);
      assert s[1..] == t[1..] + rest;
      assert forall i :: 0 <= i < |t[1..]| && t[1..][i] == LT ==> t[i + 1] == LT;
      InertSkipped(t[1..], rest);
    }
  }

  lemma BareTagAt(name: JsString, after: JsString)
    requires NameFits(name) && after != [] && !IsTagChar(after[0]) && !IsSpace(after[0])
    ensures TagAt([LT] + (name + after)).None?
  {
    hide IsSpace, IsLetter, IsWord;
    var s := [LT] + (name + after);
    assert s[1..] == name + after;
    RunIs(name + after, |name|, IsTagChar);
    assert s[1 + |name|] == after[0];
  }

  lemma NameIsInert(name: JsString, end: JsString)
    requires NameFits(name) && LT !in end
    ensures Inert(name + end)
  {
    forall i | 0 <= i < |name + end|
      ensures (name + end)[i] != LT
    {
      if i < |name| {
        assert IsTagChar(name[i]);
      } else {
        assert end[i - |name|] in end;
      }
    }
  }

  /** An element without attributes is no match, and would not be kept if it were. */
  lemma BareTagSkipped(name: JsString, slash: JsString, rest: JsString)
    requires NameFits(name) && (slash == [] || slash == [SLASH])
    ensures TagsIn(OpenTag(name, [], slash) + rest) == TagsIn(rest)
  {
    hide TagAt, TagsIn, NameFits, Inert;
    var after := slash + [GT];
    var s := OpenTag(name, [], slash) + rest;
    assert s == [LT] + (name + (after + rest));
    BareTagAt(name, after + rest);
    SkipOne(s);
    assert s[1..] == (name + after) + rest;
    NameIsInert(name, after);
    InertSkipped(name + after, rest);
  }

  /** The text of a tag that has any starts with a space, has no angle bracket, and does not end in a slash. */
  lemma TextFits(n: Node)
    requires NodeFits(n) && TagText(n) != []
    ensures
      var text := TagText(n);
      && IsSpace(text[0]) && !IsTagChar(text[0]) && text[|text| - 1] != SLASH
      && forall k :: 0 <= k < |text| ==> NotAngle(text[k])
  {
    hide PrintAttrs, Inert, NameFits;
    AttrsPlain(n.attrs);
    if n.attrs != [] {
      FirstIsSpace(n.attrs);
    }
    SpaceIsPlain();
    var text := TagText(n);
    if n.attrs == [] {
      assert PrintAttrs([]) == [] by {
        PrintNothing();
      }
      assert text == n.pad;
    } else {
      assert text[0] == PrintAttrs(n.attrs)[0];
    }
    if n.pad == [] {
      assert text == PrintAttrs(n.attrs);
    } else {
      assert text[|text| - 1] == n.pad[|n.pad| - 1];
    }
    forall k | 0 <= k < |text|
      ensures NotAngle(text[k])
    {
      if k < |PrintAttrs(n.attrs)| {
        assert text[k] == PrintAttrs(n.attrs)[k];
      } else {
        assert text[k] == n.pad[k - |PrintAttrs(n.attrs)|];
      }
    }
  }

  lemma PrintNothing()
    ensures PrintAttrs([]) == []
  {
  }

  lemma SpaceIsPlain()
    ensures forall u: u16 :: IsSpace(u) ==> NotAngle(u) && !IsTagChar(u) && u != SLASH
  {
  }

  lemma FirstIsSpace(attrs: seq<attribute>)
    requires attrs != []
    ensures |PrintAttrs(attrs)| >= 2 && IsSpace(PrintAttrs(attrs)[0])
  {
    assert IsSpace(attrs[0].gap[0]);
  }

  lemma OpenTagAt(name: JsString, text: JsString, slash: JsString, rest: JsString)
    requires NameFits(name) && (slash == [] || slash == [SLASH])
    requires text != [] && text[|text| - 1] != SLASH && IsSpace(text[0]) && !IsTagChar(text[0])
    requires forall k :: 0 <= k < |text| ==> NotAngle(text[k])
    ensures
      var open := OpenTag(name, text, slash);
      TagAt(open + rest) == Some((Tag(name, text[1..]), |open|))
  {
    hide TagAt, Run, IsSpace, IsLetter, OpenTag, TrimSlash, IsTagChar, NotAngle, NameFits;
    NameStart(name);
    OpenRuns(name, text, slash, rest);
    TagAtParts(OpenTag(name, text, slash) + rest, |name|, |text| - 1 + |slash|);
  }

  /** What the scanner reads in an opening tag. */
  lemma OpenRuns(name: JsString, text: JsString, slash: JsString, rest: JsString)
    requires NameFits(name) && (slash == [] || slash == [SLASH])
    requires text != [] && text[|text| - 1] != SLASH && !IsTagChar(text[0])
    requires forall k :: 0 <= k < |text| ==> NotAngle(text[k])
    ensures
      var s := OpenTag(name, text, slash) + rest;
      var n, b := |name|, |text| - 1 + |slash|;
      && name != [] && 2 + n + b < |s| && s[0] == LT && s[1] == name[0] && s[1..1 + n] == name && s[1 + n] == text[0]
      && Run(s[1..], IsTagChar) == n && Run(s[2 + n..], NotAngle) == b && s[2 + n + b] == GT
      && TrimSlash(s[2 + n..2 + n + b]) == text[1..] && |OpenTag(name, text, slash)| == 3 + n + b
  {
    NameStart(name);
    hide Run, OpenTag, TrimSlash, IsTagChar, IsLetter, NotAngle, NameFits;
    OpenParts(name, text, slash, rest);
    NameRuns(name, text + (slash + ([GT] + rest)));
    TextRuns(text, slash, rest);
  }

  lemma NameStart(name: JsString)
    requires NameFits(name)
    ensures name != [] && IsLetter(name[0])
  {
  }

  lemma NameRuns(name: JsString, after: JsString)
    requires NameFits(name) && after != [] && !IsTagChar(after[0])
    ensures Run(name + after, IsTagChar) == |name|
  {
    hide IsTagChar, IsLetter;
    RunIs(name + after, |name|, IsTagChar);
  }

  lemma TextRuns(text: JsString, slash: JsString, rest: JsString)
    requires text != [] && text[|text| - 1] != SLASH && (slash == [] || slash == [SLASH])
    requires forall k :: 0 <= k < |text| ==> NotAngle(text[k])
    ensures
      var tail, b := text[1..] + (slash + ([GT] + rest)), |text| - 1 + |slash|;
      Run(tail, NotAngle) == b && b <= |tail| && TrimSlash(tail[..b]) == text[1..]
  {
    hide Run;
    var tail, b := text[1..] + (slash + ([GT] + rest)), |text| - 1 + |slash|;
    assert tail[b] == GT;
    assert forall k :: 0 <= k < |text| - 1 ==> tail[k] == text[k + 1];
    RunIs(tail, b, NotAngle);
    assert tail[..b] == text[1..] + slash;
  }

  /** Where the parts of an opening tag stand. */
  lemma OpenParts(name: JsString, text: JsString, slash: JsString, rest: JsString)
    requires name != [] && text != []
    ensures
      var s := OpenTag(name, text, slash) + rest;
      var tail := text[1..] + (slash + ([GT] + rest));
      var n, b := |name|, |text| - 1 + |slash|;
      && |s| == 2 + n + |tail| && |tail| == b + 1 + |rest|
      && s[0] == LT && s[1] == name[0] && s[1..] == name + (text + (slash + ([GT] + rest))) && s[1..1 + n] == name
      && s[1 + n] == text[0] && s[2 + n..] == tail && s[2 + n..2 + n + b] == tail[..b] && s[2 + n + b] == tail[b] == GT
      && |OpenTag(name, text, slash)| == 3 + n + b
  {
    var s := OpenTag(name, text, slash) + rest;
    var n, b := |name|, |text| - 1 + |slash|;
    assert s[1..] == name + (text + (slash + ([GT] + rest)));
    var u := s[2 + n..];
    assert u == text[1..] + (slash + ([GT] + rest));
    assert s[2 + n..2 + n + b] == u[..b];
  }

  lemma TagAtParts(s: JsString, n: nat, b: nat)
    requires 0 < n && 2 + n + b < |s| && s[0] == LT && IsLetter(s[1])
    requires Run(s[1..], IsTagChar) == n && IsSpace(s[1 + n])
    requires Run(s[2 + n..], NotAngle) == b && s[2 + n + b] == GT
    ensures TagAt(s) == Some((Tag(s[1..1 + n], TrimSlash(s[2 + n..2 + n + b])), 3 + n + b))
  {
  }

  lemma TagInverse(n: Node, slash: JsString, rest: JsString)
    requires NodeFits(n) && TagText(n) != [] && (slash == [] || slash == [SLASH])
    ensures
      TagAt(OpenTag(n.name, TagText(n), slash) + rest)
      == Some((Tag(n.name, TagText(n)[1..]), |OpenTag(n.name, TagText(n), slash)|))
  {
    hide TagText, OpenTag, TagAt;
    TextFits(n);
    OpenTagAt(n.name, TagText(n), slash, rest);
  }

  lemma BodyInverse(n: Node)
    requires NodeFits(n) && TagText(n) != []
    ensures AttrsIn(TagText(n)[1..]) == Given(n.attrs)
  {
    hide AttrsIn, PrintAttr, NameFits, Inert, IsSpace, Given, PrintAttrs;
    AttrsInverse(n.attrs, n.pad);
    if n.attrs == [] {
      PrintNothing();
      assert TagText(n) == n.pad;
      DropSpace(n.pad, []);
    } else {
      var a := n.attrs[0];
      assert AttrFits(a);
      SplitFirst(n.attrs, n.pad);
      DropSpace(a.gap, PrintAttr(a) + (PrintAttrs(n.attrs[1..]) + n.pad));
    }
  }

  lemma SplitFirst(attrs: seq<attribute>, pad: JsString)
    requires attrs != []
    ensures PrintAttrs(attrs) + pad == attrs[0].gap + (PrintAttr(attrs[0]) + (PrintAttrs(attrs[1..]) + pad))
  {
    hide PrintAttr;
  }

  /** The first of some white space makes no difference to the attributes behind it. */
  lemma DropSpace(gap: JsString, rest: JsString)
    requires gap != [] && forall k :: 0 <= k < |gap| ==> IsSpace(gap[k])
    ensures AttrsIn((gap + rest)[1..]) == AttrsIn(gap + rest)
    ensures rest == [] ==> AttrsIn(gap[1..]) == AttrsIn(gap)
  {
    hide AttrsIn, IsSpace;
    GapSkipped(gap, rest);
    GapSkipped(gap[1..], rest);
    assert (gap + rest)[1..] == gap[1..] + rest;
    assert rest == [] ==> gap + rest == gap && gap[1..] + rest == gap[1..];
  }

  /** What the loop keeps of `nodes`, appended to what it has, while there is room. */
  function Extend(out: seq<UiElement>, nodes: seq<Node>, max: int, num: Arithmetic): seq<UiElement>
    decreases |nodes|
  {
    if nodes == [] || |out| >= max then out
    else match Consider(nodes[0].name, AttrMap(nodes[0].attrs, map[]), num)
      case None => Extend(out, nodes[1..], max, num)
      case Some(shape) => Extend(out + [UiElement(|out|, shape)], nodes[1..], max, num)
  }

  lemma {:induction false} ExtendAppend(out: seq<UiElement>, a: seq<Node>, b: seq<Node>, max: int, num: Arithmetic)
    ensures Extend(out, a + b, max, num) == Extend(Extend(out, a, max, num), b, max, num)
    decreases |a|
  {
    hide Consider;
    if a == [] {
      assert a + b == b;
    } else if |out| < max {
      assert (a + b)[1..] == a[1..] + b;
      match Consider(a[0].name, AttrMap(a[0].attrs, map[]), num)
      case None => ExtendAppend(out, a[1..], b, max, num);
      case Some(shape) => ExtendAppend(out + [UiElement(|out|, shape)], a[1..], b, max, num);
    }
  }

  lemma BareIsNotKept(name: JsString, num: Arithmetic)
    ensures Consider(name, map[], num).None?
  {
    assert PointAt([]).None?;
  }

  lemma TagsStep(s: JsString, tag: Tag, n: nat)
    requires s != [] && TagAt(s) == Some((tag, n))
    ensures TagsIn(s) == [tag] + TagsIn(s[n..])
  {
    hide TagAt;
  }

  lemma CollectStep(n: Node, tag: Tag, tags: seq<Tag>, out: seq<UiElement>, max: int, num: Arithmetic)
    requires tag.name == n.name && ReadAttrs(AttrsIn(tag.body), map[]) == Ok(AttrMap(n.attrs, map[]))
    ensures Collect([tag] + tags, out, max, num) == Collect(tags, Extend(out, [n], max, num), max, num)
  {
    hide Consider, ReadAttrs, AttrsIn, AttrMap;
    assert ([tag] + tags)[1..] == tags;
  }

  /** One printed opening tag, seen by the loop. */
  lemma OpenCollected(n: Node, slash: JsString, rest: JsString, out: seq<UiElement>, max: int, num: Arithmetic)
    requires NodeFits(n) && (slash == [] || slash == [SLASH])
    ensures
      Collect(TagsIn(OpenTag(n.name, TagText(n), slash) + rest), out, max, num)
      == Collect(TagsIn(rest), Extend(out, [n], max, num), max, num)
  {
    hide Consider, TagAt, OpenTag, NameFits, Collect, TagsIn, ReadAttrs, AttrsIn, PrintAttrs, Given;
    var open := OpenTag(n.name, TagText(n), slash);
    if TagText(n) == [] {
      NoTextNoAttrs(n);
      BareTagSkipped(n.name, slash, rest);
      BareIsNotKept(n.name, num);
      ExtendNothing(out, max, num);
    } else {
      BodyInverse(n);
      TagInverse(n, slash, rest);
      var tag := Tag(n.name, TagText(n)[1..]);
      assert (open + rest)[|open|..] == rest;
      TagsStep(open + rest, tag, |open|);
      AttrMapRead(n.attrs, map[]);
      CollectStep(n, tag, TagsIn(rest), out, max, num);
    }
  }

  lemma NoTextNoAttrs(n: Node)
    requires TagText(n) == []
    ensures n.attrs == []
  {
    AttrsPlain(n.attrs);
  }

  /** One printed element, seen by the loop, whatever text follows it. */
  lemma {:induction false} NodeCollected(n: Node, rest: JsString, out: seq<UiElement>, max: int, num: Arithmetic)
    requires NodeFits(n) && Fits(n.children)
    ensures
      Collect(TagsIn(Print([n]) + rest), out, max, num)
      == Collect(TagsIn(rest), Extend(Extend(out, [n], max, num), Preorder(n.children), max, num), max, num)
    decreases n, 0
  {
    hide Collect, TagsIn, OpenTag, Extend, TagText, CloseTag, NodeFits;
    var out1 := Extend(out, [n], max, num);
    PrintOne(n, rest);
    NodeParts(n);
    if n.end.None? {
      InertSkipped(n.before, OpenTag(n.name, TagText(n), [SLASH]) + rest);
      OpenCollected(n, [SLASH], rest, out, max, num);
      ExtendNothing(out1, max, num);
    } else {
      var close := n.end.value + (CloseTag(n.name) + rest);
      InertSkipped(n.before, OpenTag(n.name, TagText(n), []) + (Print(n.children) + close));
      OpenCollected(n, [], Print(n.children) + close, out, max, num);
      ForestCollected(n.children, close, out1, max, num);
      InertSkipped(n.end.value, CloseTag(n.name) + rest);
      InertSkipped(CloseTag(n.name), rest);
    }
  }

  lemma NodeParts(n: Node)
    requires NodeFits(n)
    ensures Inert(n.before) && (n.end.None? ==> n.children == []) && (n.end.Some? ==> Inert(n.end.value))
    ensures Inert(CloseTag(n.name))
  {
    CloseIsInert(n.name);
  }

  lemma PrintOne(n: Node, rest: JsString)
    ensures n.end.None? ==> Print([n]) + rest == n.before + (OpenTag(n.name, TagText(n), [SLASH]) + rest)
    ensures
      n.end.Some? ==>
        Print([n]) + rest
        == n.before + (OpenTag(n.name, TagText(n), []) + (Print(n.children) + (n.end.value + (CloseTag(n.name) + rest))))
  {
    hide OpenTag, TagText, CloseTag;
    assert [n][1..] == [] && Print([]) == [];
    if n.end.None? {
      var open := OpenTag(n.name, TagText(n), [SLASH]);
      assert n.before + (open + []) + rest == n.before + (open + rest);
    } else {
      var open, inside, close := OpenTag(n.name, TagText(n), []), Print(n.children), CloseTag(n.name);
      Regroup(inside, n.end.value, close, rest);
      Regroup(n.before, open, inside + (n.end.value + close), rest);
      assert open + (inside + (n.end.value + close)) + [] == open + (inside + (n.end.value + close));
    }
  }

  lemma Splice(a: JsString, b: JsString, c: JsString, d: JsString)
    ensures (a + (b + c)) + d == (a + b) + (c + d)
  {
  }

  lemma PrintSplit(forest: seq<Node>, rest: JsString)
    requires forest != []
    ensures Print(forest) + rest == Print([forest[0]]) + (Print(forest[1..]) + rest)
  {
    hide OpenTag, TagText, CloseTag;
    assert [forest[0]][1..] == [] && Print([]) == [];
    var n := forest[0];
    var element := if n.end.None? then OpenTag(n.name, TagText(n), [SLASH])
                   else OpenTag(n.name, TagText(n), []) + (Print(n.children) + (n.end.value + CloseTag(n.name)));
    assert element + [] == element;
    Splice(n.before, element, Print(forest[1..]), rest);
  }

  /** A printed forest, seen by the loop, whatever text follows it. */
  lemma {:induction false} ForestCollected(forest: seq<Node>, rest: JsString, out: seq<UiElement>, max: int, num: Arithmetic)
    requires Fits(forest)
    ensures
      Collect(TagsIn(Print(forest) + rest), out, max, num)
      == Collect(TagsIn(rest), Extend(out, Preorder(forest), max, num), max, num)
    decreases forest, 1
  {
    hide Collect, TagsIn, Extend, NodeFits;
    if forest == [] {
      assert Print(forest) + rest == rest;
      ExtendNothing(out, max, num);
    } else {
      var n := forest[0];
      var out2 := Extend(Extend(out, [n], max, num), Preorder(n.children), max, num);
      PrintSplit(forest, rest);
      NodeCollected(n, Print(forest[1..]) + rest, out, max, num);
      ForestCollected(forest[1..], rest, out2, max, num);
      ExtendAppend(out, [n], Preorder(n.children), max, num);
      ExtendAppend(out, [n] + Preorder(n.children), Preorder(forest[1..]), max, num);
    }
  }

  lemma ExtendNothing(out: seq<UiElement>, max: int, num: Arithmetic)
    ensures Extend(out, [], max, num) == out
  {
  }

  lemma CloseIsInert(name: JsString)
    requires NameFits(name)
    ensures Inert(CloseTag(name))
  {
    var s := CloseTag(name);
    assert forall i :: 2 <= i < 2 + |name| ==> s[i] == name[i - 2] && IsTagChar(name[i - 2]);
  }

  function Shapes(nodes: seq<Node>, num: Arithmetic): seq<Shape> {
    if nodes == [] then []
    else match Consider(nodes[0].name, AttrMap(nodes[0].attrs, map[]), num)
      case None => Shapes(nodes[1..], num)
      case Some(shape) => [shape] + Shapes(nodes[1..], num)
  }

  /** `found` holds the first elements of `shapes`, as many as `max` allows, numbered from 0. */
  ghost predicate Listed(found: seq<UiElement>, shapes: seq<Shape>, max: nat) {
    && |found| == (if |shapes| < max then |shapes| else max)
    && forall i :: 0 <= i < |found| ==> found[i] == UiElement(i, shapes[i])
  }

  lemma {:induction false} ExtendListed(out: seq<UiElement>, before: seq<Shape>, nodes: seq<Node>, max: nat, num: Arithmetic)
    requires Listed(out, before, max)
    ensures Listed(Extend(out, nodes, max, num), before + Shapes(nodes, num), max)
    decreases |nodes|
  {
    hide Consider;
    if nodes == [] {
      assert before + [] == before;
    } else {
      match Consider(nodes[0].name, AttrMap(nodes[0].attrs, map[]), num)
      case None => ExtendListed(out, before, nodes[1..], max, num);
      case Some(shape) =>
        assert before + Shapes(nodes, num) == before + [shape] + Shapes(nodes[1..], num);
        ExtendListed(if |out| < max then out + [UiElement(|out|, shape)] else out, before + [shape], nodes[1..], max, num);
        if |out| >= max {
          ExtendFull(out, nodes[1..], max, num);
        }
    }
  }

  lemma ExtendFull(out: seq<UiElement>, nodes: seq<Node>, max: int, num: Arithmetic)
    requires |out| >= max
    ensures Extend(out, nodes, max, num) == out
  {
  }

  /**
   * Parsing a printed hierarchy, with any text that starts no element before, between, inside and after
   * the elements: exactly the elements worth showing, in document order, with every attribute value
   * decoded, numbered densely from 0, never more than `max`.
   */
  lemma HierarchyInverse(forest: seq<Node>, epilogue: JsString, max: nat, num: Arithmetic)
    requires Inert(epilogue) && Fits(forest)
    ensures
      var r := Collect(TagsIn(Print(forest) + epilogue), [], max, num);
      r.Ok? && Listed(r.value, Shapes(Preorder(forest), num), max)
  {
    hide Consider, TagsIn, Inert, Fits, Print;
    ForestCollected(forest, epilogue, [], max, num);
    assert epilogue + [] == epilogue;
    InertSkipped(epilogue, []);
    NoTags();
    ExtendListed([], [], Preorder(forest), max, num);
    assert [] + Shapes(Preorder(forest), num) == Shapes(Preorder(forest), num);
  }

  lemma NoTags()
    ensures TagsIn([]) == []
  {
  }

  /** The loop keeps an element exactly when it has area, is not hidden, and says or does something. */
  predicate WorthShowing(name: JsString, a: Attrs, num: Arithmetic) {
    && Geometry(a, num).Some? && Positive(Geometry(a, num).value.width) && Positive(Geometry(a, num).value.height)
    && !Says(a, "displayed", "false") && !Says(a, "visible", "false")
    && (TextOf(name, a).Some? || LabelOf(name, a).Some? || Clickable(name, a) || Says(a, "focusable", "true"))
  }

  lemma ConsiderKeeps(name: JsString, a: Attrs, num: Arithmetic)
    ensures Consider(name, a, num).Some? <==> WorthShowing(name, a, num)
  {
  }

  /** An element comes from one of these tags, which is worth showing. */
  ghost predicate FromTag(shape: Shape, tags: seq<Tag>, num: Arithmetic) {
    exists t <- tags ::
      var a := ReadAttrs(AttrsIn(t.body), map[]);
      a.Ok? && WorthShowing(t.name, a.value, num) && Consider(t.name, a.value, num) == Some(shape)
  }

  /** A list of elements as the loop leaves it. */
  ghost predicate Sound(out: seq<UiElement>, tags: seq<Tag>, max: int, num: Arithmetic) {
    && (|out| <= max || out == [])
    && forall i :: 0 <= i < |out| ==> out[i].index == i && FromTag(out[i].shape, tags, num)
  }

  lemma {:induction false} CollectSound(all: seq<Tag>, k: nat, out: seq<UiElement>, max: int, num: Arithmetic)
    requires k <= |all| && Sound(out, all, max, num)
    ensures
      var r := Collect(all[k..], out, max, num);
      r.Ok? ==> Sound(r.value, all, max, num)
    decreases |all| - k
  {
    hide Consider, WorthShowing, ReadAttrs, AttrsIn;
    if k < |all| && |out| < max {
      var t := all[k];
      assert all[k..][0] == t && all[k..][1..] == all[k + 1..] && t in all;
      var a := ReadAttrs(AttrsIn(t.body), map[]);
      if a.Ok? {
        ConsiderKeeps(t.name, a.value, num);
        match Consider(t.name, a.value, num)
        case None => CollectSound(all, k + 1, out, max, num);
        case Some(shape) =>
          assert FromTag(shape, all, num);
          CollectSound(all, k + 1, out + [UiElement(|out|, shape)], max, num);
      }
    }
  }

  /**
   * Whatever text is parsed: every element comes from a tag worth showing, the indices are dense from 0,
   * and there are never more than `max`.
   */
  lemma ParsedIsSound(xml: JsString, max: int, num: Arithmetic)
    ensures
      var r := Collect(TagsIn(xml), [], max, num);
      r.Ok? ==> Sound(r.value, TagsIn(xml), max, num)
  {
    hide TagsIn, Consider;
    assert TagsIn(xml)[0..] == TagsIn(xml);
    CollectSound(TagsIn(xml), 0, [], max, num);
  }
}
