/**
 * What an element of a UI hierarchy carries, field by field: which attribute of which platform decides it, and
 * when `parseUiTree` drops the element.
 */
module UiFields {
  import opened Bytes
  import opened UiTree
  import opened Unicode
  import opened Wrappers

  /** An attribute that is there and not empty. */
  predicate Full(a: Attrs, name: string) {
    Js(name) in a && a[Js(name)] != []
  }

  predicate Has(a: Attrs, name: string, value: string) {
    Js(name) in a && a[Js(name)] == Js(value)
  }

  // ------------------------------------------------------------------- geometry

  predicate AllDigits(s: JsString) {
    s != [] && forall i :: 0 <= i < |s| ==> 0x30 <= s[i] <= 0x39
  }

  /** Digits, with or without a minus sign. */
  predicate IsInteger(s: JsString) {
    AllDigits(s) || (s != [] && s[0] == 0x2d && AllDigits(s[1..]))
  }

  function Point(x: JsString, y: JsString): JsString {
    [0x5b] + (x + ([0x2c] + (y + [0x5d])))
  }

  /** `[left,top][right,bottom]` */
  function Bounds(left: JsString, top: JsString, right: JsString, bottom: JsString): JsString {
    Point(left, top) + Point(right, bottom)
  }

  predicate FourIntegers(left: JsString, top: JsString, right: JsString, bottom: JsString) {
    IsInteger(left) && IsInteger(top) && IsInteger(right) && IsInteger(bottom)
  }

  ghost predicate WrittenBounds(s: JsString, left: JsString, top: JsString, right: JsString, bottom: JsString) {
    FourIntegers(left, top, right, bottom) && s == Bounds(left, top, right, bottom)
  }

  function BoundsText(a: Attrs): JsString {
    if Js("bounds") in a then a[Js("bounds")] else []
  }

  /** The box of Android's bounds; without them that of the four iOS attributes; otherwise none. */
  ghost predicate BoxMeans(a: Attrs, num: Arithmetic, box: Option<Box>) {
    if exists l, t, r, b :: WrittenBounds(BoundsText(a), l, t, r, b) then
      exists l, t, r, b :: WrittenBounds(BoundsText(a), l, t, r, b)
        && box == Some(Box(num.number(l), num.number(t),
                           num.minus(num.number(r), num.number(l)), num.minus(num.number(b), num.number(t))))
    else if Js("width") in a && Js("height") in a then
      && box.Some?
      && box.value.x == (if Js("x") in a then num.number(a[Js("x")]) else Finite(0.0))
      && box.value.y == (if Js("y") in a then num.number(a[Js("y")]) else Finite(0.0))
      && box.value.width == num.number(a[Js("width")]) && box.value.height == num.number(a[Js("height")])
    else box == None
  }

  predicate AboveZero(n: JsNumber) {
    n == PosInf || (n.Finite? && n.v > 0.0)
  }

  // ------------------------------------------------------------- the other fields

  predicate Apple(name: JsString) {
    |name| >= 15 && name[..15] == Js("XCUIElementType")
  }

  predicate At(s: JsString, part: string, i: nat) {
    i + |part| <= |s| && s[i..i + |part|] == Js(part)
  }

  predicate Within(s: JsString, part: string) {
    exists i: nat :: i <= |s| && At(s, part, i)
  }

  function Chosen(a: Attrs, name: string): Option<JsString> {
    if Full(a, name) then Some(a[Js(name)]) else None
  }

  predicate TextMeans(name: JsString, a: Attrs, v: Option<JsString>) {
    && (!Apple(name) ==> v == Chosen(a, "text"))
    && (Apple(name) && Full(a, "value") ==> v == Some(a[Js("value")]))
    && (Apple(name) && !Full(a, "value") ==> v == Chosen(a, "label"))
  }

  /** The description, unless it says what the text says. */
  predicate LabelMeans(name: JsString, a: Attrs, text: Option<JsString>, v: Option<JsString>) {
    var raw := if Apple(name) then Chosen(a, "label") else Chosen(a, "content-desc");
    v == if raw == text then None else raw
  }

  predicate IdMeans(name: JsString, a: Attrs, v: Option<JsString>) {
    v == if Apple(name) then Chosen(a, "name") else Chosen(a, "resource-id")
  }

  predicate ClickMeans(name: JsString, a: Attrs, v: bool) {
    && (!Apple(name) ==> (v <==> Has(a, "clickable", "true") || Has(a, "long-clickable", "true")))
    && (Apple(name) ==>
          (v <==> || Within(name, "Button") || Within(name, "Cell") || Within(name, "Link")
                  || Within(name, "TextField") || Within(name, "SecureTextField") || Within(name, "Switch")
                  || Within(name, "Tab") || Within(name, "SearchField")
                  || (|name| >= 3 && name[|name| - 3..] == Js("Key"))))
  }

  /** The class name after its last dot. */
  predicate KindMeans(name: JsString, a: Attrs, kind: JsString) {
    var cls := if Apple(name) then name[15..] else if Js("class") in a then a[Js("class")] else name;
    && 0x2e !in kind && |kind| <= |cls| && cls[|cls| - |kind|..] == kind
    && (|kind| < |cls| ==> cls[|cls| - |kind| - 1] == 0x2e)
  }

  /** An element that is shown, and every field of it. */
  ghost predicate Shown(name: JsString, a: Attrs, num: Arithmetic, s: Shape) {
    && BoxMeans(a, num, Some(s.box)) && AboveZero(s.box.width) && AboveZero(s.box.height)
    && !Has(a, "displayed", "false") && !Has(a, "visible", "false")
    && (s.text.Some? || s.desc.Some? || s.clickable || Has(a, "focusable", "true"))
    && TextMeans(name, a, s.text) && LabelMeans(name, a, s.text, s.desc) && IdMeans(name, a, s.id)
    && ClickMeans(name, a, s.clickable) && KindMeans(name, a, s.kind)
    && (s.focused <==> Has(a, "focused", "true") || Has(a, "hasFocus", "true"))
  }

  /** An element without area, hidden, or with nothing to read and nothing to do. */
  ghost predicate Dropped(name: JsString, a: Attrs, num: Arithmetic) {
    || BoxMeans(a, num, None)
    || (exists box: Box :: BoxMeans(a, num, Some(box)) && !(AboveZero(box.width) && AboveZero(box.height)))
    || Has(a, "displayed", "false") || Has(a, "visible", "false")
    || (TextMeans(name, a, None) && LabelMeans(name, a, None, None) && ClickMeans(name, a, false)
        && !Has(a, "focusable", "true"))
  }

  // --------------------------------------------------------------------- proofs

  lemma {:induction false} RunOfDigits(s: JsString, rest: JsString)
    requires AllDigits(s) && (rest == [] || !IsDigit(rest[0]))
    ensures Run(s + rest, IsDigit) == |s|
  {
    RunIs(s + rest, |s|, IsDigit);
  }

  lemma IntegerAt(s: JsString, rest: JsString)
    requires IsInteger(s) && (rest == [] || !IsDigit(rest[0]))
    ensures IntAt(s + rest) == Some(|s|)
  {
    hide Run;
    if s[0] == 0x2d {
      assert (s + rest)[1..] == s[1..] + rest;
      RunOfDigits(s[1..], rest);
    } else {
      assert (s + rest)[0..] == s + rest;
      RunOfDigits(s, rest);
    }
  }

  lemma PointHere(x: JsString, y: JsString, rest: JsString)
    requires IsInteger(x) && IsInteger(y)
    ensures PointAt(Point(x, y) + rest) == Some((x, y, |Point(x, y)|))
  {
    hide IntAt, IsInteger;
    var s, after := Point(x, y) + rest, [0x2c] + (y + ([0x5d] + rest));
    assert s[1..] == x + after;
    IntegerAt(x, after);
    assert s[2 + |x|..] == y + ([0x5d] + rest);
    IntegerAt(y, [0x5d] + rest);
    assert s[1..1 + |x|] == x && s[2 + |x|..2 + |x| + |y|] == y;
  }

  lemma IntegerFound(s: JsString)
    requires IntAt(s).Some?
    ensures IsInteger(s[..IntAt(s).value])
  {
    var sign := if s != [] && s[0] == 0x2d then 1 else 0;
    var n := Run(s[sign..], IsDigit);
    hide Run;
    var t := s[..sign + n];
    assert forall k :: 0 <= k < n ==> s[sign..][k] == s[sign + k] && IsDigit(s[sign..][k]);
    if sign == 1 {
      assert forall k :: 0 <= k < n ==> t[1..][k] == s[1 + k];
    }
  }

  lemma PointFound(s: JsString)
    requires PointAt(s).Some?
    ensures
      var (x, y, n) := PointAt(s).value;
      IsInteger(x) && IsInteger(y) && s[..n] == Point(x, y)
  {
    hide IntAt, IsInteger;
    var n := IntAt(s[1..]).value;
    IntegerFound(s[1..]);
    IntegerFound(s[2 + n..]);
    var m := IntAt(s[2 + n..]).value;
    assert s[1..][..n] == s[1..1 + n] && s[2 + n..][..m] == s[2 + n..2 + n + m];
  }

  /** Bounds are read exactly where four integers are written between their brackets, in this order. */
  lemma BoundsRead(s: JsString, num: Arithmetic)
    ensures ParseBounds(s, num).Some? <==> exists l, t, r, b :: WrittenBounds(s, l, t, r, b)
    ensures forall l, t, r, b :: WrittenBounds(s, l, t, r, b) ==>
              ParseBounds(s, num)
              == Some(Box(num.number(l), num.number(t),
                          num.minus(num.number(r), num.number(l)), num.minus(num.number(b), num.number(t))))
  {
    hide PointAt, IsInteger, Point;
    forall l, t, r, b | WrittenBounds(s, l, t, r, b)
      ensures ParseBounds(s, num)
              == Some(Box(num.number(l), num.number(t),
                          num.minus(num.number(r), num.number(l)), num.minus(num.number(b), num.number(t))))
    {
      PointHere(l, t, Point(r, b));
      PointHere(r, b, []);
      assert Point(r, b) + [] == Point(r, b);
      assert s[|Point(l, t)|..] == Point(r, b);
    }
    if ParseBounds(s, num).Some? {
      var (l, t, n) := PointAt(s).value;
      var (r, b, m) := PointAt(s[n..]).value;
      PointFound(s);
      PointFound(s[n..]);
      assert s == s[..n] + s[n..] && s[n..][..m] == s[n..];
      assert WrittenBounds(s, l, t, r, b);
    }
  }

  lemma BoxRead(a: Attrs, num: Arithmetic)
    ensures BoxMeans(a, num, Geometry(a, num))
    ensures forall box: Option<Box> :: BoxMeans(a, num, box) ==> box == Geometry(a, num)
  {
    hide ParseBounds, WrittenBounds, Js;
    BoundsRead(BoundsText(a), num);
  }

  lemma {:induction false} ContainsIsWithin(s: JsString, part: string)
    ensures Contains(s, Js(part)) <==> Within(s, part)
    decreases |s|
  {
    hide Js;
    if StartsWith(s, Js(part)) {
      assert At(s, part, 0);
    } else if s != [] {
      ContainsIsWithin(s[1..], part);
      forall i: nat
        ensures At(s[1..], part, i) <==> At(s, part, i + 1)
      {
        assert i + 1 + |part| <= |s| ==> s[1..][i..i + |part|] == s[i + 1..i + 1 + |part|];
      }
      if i: nat :| i <= |s| && At(s, part, i) {
        assert i > 0;
        assert At(s[1..], part, i - 1);
      }
      if i: nat :| i <= |s[1..]| && At(s[1..], part, i) {
        assert At(s, part, i + 1);
      }
    } else {
      assert forall i: nat :: At(s, part, i) ==> i == 0 && |part| == 0;
    }
  }

  lemma ApplesAre(name: JsString)
    ensures Apple(name) <==> IsIos(name)
  {
  }

  lemma ClickRead(name: JsString, a: Attrs)
    ensures ClickMeans(name, a, Clickable(name, a))
  {
    hide Js, Contains, Within, IsIos, Apple;
    ApplesAre(name);
    ContainsIsWithin(name, "Button");
    ContainsIsWithin(name, "Cell");
    ContainsIsWithin(name, "Link");
    ContainsIsWithin(name, "TextField");
    ContainsIsWithin(name, "SecureTextField");
    ContainsIsWithin(name, "Switch");
    ContainsIsWithin(name, "Tab");
    ContainsIsWithin(name, "SearchField");
  }

  lemma {:induction false} AfterDot(s: JsString)
    ensures
      var kind := AfterLastDot(s);
      && 0x2e !in kind && |kind| <= |s| && s[|s| - |kind|..] == kind
      && (|kind| < |s| ==> s[|s| - |kind| - 1] == 0x2e)
    decreases |s|
  {
    if s != [] && s[|s| - 1] != 0x2e {
      AfterDot(s[..|s| - 1]);
    }
  }

  lemma KindRead(name: JsString, a: Attrs)
    ensures KindMeans(name, a, KindOf(name, a))
  {
    hide Js, AfterLastDot;
    ApplesAre(name);
    AfterDot(if IsIos(name) then name[15..] else if Js("class") in a then a[Js("class")] else name);
  }

  lemma TextRead(name: JsString, a: Attrs)
    ensures forall v: Option<JsString> :: TextMeans(name, a, v) <==> v == TextOf(name, a)
    ensures forall v: Option<JsString> :: LabelMeans(name, a, TextOf(name, a), v) <==> v == LabelOf(name, a)
    ensures forall v: Option<JsString> ::
              IdMeans(name, a, v) <==> v == Said(a, if IsIos(name) then "name" else "resource-id")
  {
    hide Js;
    ApplesAre(name);
  }

  /** No element is both shown and dropped, and each is one of them. */
  lemma KeptExactly(name: JsString, a: Attrs, num: Arithmetic)
    ensures
      match Consider(name, a, num)
      case Some(shape) => Shown(name, a, num, shape) && !Dropped(name, a, num)
      case None => Dropped(name, a, num)
  {
    BoxRead(a, num);
    TextRead(name, a);
    ClickRead(name, a);
    KindRead(name, a);
    hide Js, BoxMeans, Geometry, TextMeans, LabelMeans, IdMeans, KindMeans, TextOf, LabelOf, KindOf, Clickable, IsIos;
    hide Apple, ClickMeans;
    ClickOnce(name, a);
  }

  lemma ClickOnce(name: JsString, a: Attrs)
    ensures ClickMeans(name, a, true) ==> !ClickMeans(name, a, false)
  {
    hide Within;
  }

  // --------------------------------------------------------------- main results

  /** The element a tag stands for, shown with these fields. */
  ghost predicate TagShows(t: Tag, num: Arithmetic, shape: Shape) {
    var a := ReadAttrs(AttrsIn(t.body), map[]);
    a.Ok? && Shown(t.name, a.value, num, shape)
  }

  /** Element `i` is numbered by its place and shows one of these tags. */
  ghost predicate Stands(out: seq<UiElement>, i: nat, tags: seq<Tag>, num: Arithmetic)
    requires i < |out|
  {
    out[i].index == i && exists t <- tags :: TagShows(t, num, out[i].shape)
  }

  /**
   * Whatever text is parsed: each element of the answer stands for a tag of the text, is numbered by its place,
   * and carries in every field what that tag's attributes say.
   */
  lemma ParsedMeans(xml: JsString, max: int, num: Arithmetic)
    ensures
      var r := Collect(TagsIn(xml), [], max, num);
      r.Ok? ==> forall i: nat :: i < |r.value| ==> Stands(r.value, i, TagsIn(xml), num)
  {
    hide TagsIn, Collect, Stands;
    ParsedIsSound(xml, max, num);
    var r := Collect(TagsIn(xml), [], max, num);
    if r.Ok? {
      SoundStands(r.value, TagsIn(xml), max, num);
    }
  }

  lemma SoundStands(out: seq<UiElement>, tags: seq<Tag>, max: int, num: Arithmetic)
    requires Sound(out, tags, max, num)
    ensures forall i: nat :: i < |out| ==> Stands(out, i, tags, num)
  {
    hide TagShows, FromTag;
    forall i: nat | i < |out|
      ensures Stands(out, i, tags, num)
    {
      assert out[i].index == i && FromTag(out[i].shape, tags, num);
      TagMeans(out[i].shape, tags, num);
    }
  }

  lemma TagMeans(shape: Shape, tags: seq<Tag>, num: Arithmetic)
    requires FromTag(shape, tags, num)
    ensures exists t <- tags :: TagShows(t, num, shape)
  {
    hide Consider, Shown, Dropped, WorthShowing;
    var t :| t in tags && var a := ReadAttrs(AttrsIn(t.body), map[]);
                          a.Ok? && WorthShowing(t.name, a.value, num) && Consider(t.name, a.value, num) == Some(shape);
    KeptExactly(t.name, ReadAttrs(AttrsIn(t.body), map[]).value, num);
    assert TagShows(t, num, shape);
  }

  /** The shown elements among these nodes, in order: every other node is dropped. */
  ghost predicate Selects(nodes: seq<Node>, shapes: seq<Shape>, num: Arithmetic)
    decreases |nodes|
  {
    if nodes == [] then shapes == []
    else
      var a := AttrMap(nodes[0].attrs, map[]);
      || (Dropped(nodes[0].name, a, num) && Selects(nodes[1..], shapes, num))
      || (shapes != [] && Shown(nodes[0].name, a, num, shapes[0]) && !Dropped(nodes[0].name, a, num)
          && Selects(nodes[1..], shapes[1..], num))
  }

  lemma {:induction false} ShapesSelected(nodes: seq<Node>, num: Arithmetic)
    ensures Selects(nodes, Shapes(nodes, num), num)
    decreases |nodes|
  {
    hide Consider, Shown, Dropped, AttrMap;
    if nodes != [] {
      KeptExactly(nodes[0].name, AttrMap(nodes[0].attrs, map[]), num);
      ShapesSelected(nodes[1..], num);
      match Consider(nodes[0].name, AttrMap(nodes[0].attrs, map[]), num)
      case None =>
      case Some(shape) => assert Shapes(nodes, num)[1..] == Shapes(nodes[1..], num);
    }
  }

  /**
   * Parsing a printed hierarchy, with any text that starts no element around and inside its elements, shows
   * exactly the elements that are not dropped, in document order, as many as `max` allows, numbered from 0, and
   * every field carries what the element's attributes say.
   */
  lemma HierarchyMeans(forest: seq<Node>, epilogue: JsString, max: nat, num: Arithmetic)
    requires Inert(epilogue) && Fits(forest)
    ensures
      var r := Collect(TagsIn(Print(forest) + epilogue), [], max, num);
      r.Ok? && exists shapes: seq<Shape> :: Selects(Preorder(forest), shapes, num) && Listed(r.value, shapes, max)
  {
    hide Consider, TagsIn, Inert, Fits, Print, Selects;
    HierarchyInverse(forest, epilogue, max, num);
    ShapesSelected(Preorder(forest), num);
  }
}
