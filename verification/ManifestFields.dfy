/**
 * What an encoded manifest says, field by field: which record of which element decides each value that
 * `parseManifest` reports, and what the record's type makes of it.
 */
module ManifestFields {
  import opened Bytes
  import opened Chunks
  import opened Manifests
  import opened Unicode
  import opened Wrappers

  /** A start element with the strings and the resource ids in force where it stands. */
  datatype Elem = Elem(name: Option<JsString>, records: seq<Record>, strings: seq<JsString>, ids: seq<nat>)

  /** The start elements that come after a string pool, in order. */
  function Elements(ps: seq<part>, strings: Option<seq<JsString>>, ids: seq<nat>): seq<Elem> {
    if ps == [] then []
    else
      match ps[0]
      case PoolPart(p) => Elements(ps[1..], Some(p.strings), ids)
      case MapPart(_, map_, _) => Elements(ps[1..], strings, map_)
      case OtherPart(_, _, _) => Elements(ps[1..], strings, ids)
      case StartPart(e) =>
        (if strings.None? then []
         else
           [Elem(if e.name < |strings.value| then Some(strings.value[e.name]) else None,
                 e.records, strings.value, ids)])
        + Elements(ps[1..], strings, ids)
  }

  predicate Is(e: Elem, name: string) {
    e.name == Some(Js(name))
  }

  // ------------------------------------------------------- which record decides

  predicate HasName(e: Elem, i: nat, name: string) {
    i < |e.records| && e.records[i].name < |e.strings| && e.strings[e.records[i].name] == Js(name)
  }

  predicate HasId(e: Elem, i: nat, id: nat) {
    i < |e.records| && e.records[i].name < |e.ids| && e.ids[e.records[i].name] == id
  }

  /** The first record of that name; if none has the name, the first with the resource id. */
  ghost predicate Decides(e: Elem, name: string, id: Option<nat>, i: nat) {
    if exists j: nat :: HasName(e, j, name) then HasName(e, i, name) && forall j: nat :: j < i ==> !HasName(e, j, name)
    else id.Some? && HasId(e, i, id.value) && forall j: nat :: j < i ==> !HasId(e, j, id.value)
  }

  // -------------------------------------------------------- what a record gives

  function Text(e: Elem, index: int): Option<JsString> {
    if 0 <= index < |e.strings| then Some(e.strings[index]) else None
  }

  /** An integer is itself, a string is the number it reads as, and a missing string is zero. */
  predicate GivesInt(e: Elem, r: Record, v: Option<int>, toInteger: ToInteger) {
    && (0x10 <= r.dataType <= 0x1f ==> v == Some(r.data))
    && (r.dataType == 3 && 0 <= r.data < |e.strings| ==> v == toInteger(e.strings[r.data]))
    && (r.dataType == 3 && !(0 <= r.data < |e.strings|) ==> v == Some(0))
    && (r.dataType != 3 && !(0x10 <= r.dataType <= 0x1f) ==> v == None)
  }

  /** A string is itself, an integer its digits, a reference nothing, and the rest its raw text. */
  predicate GivesText(e: Elem, r: Record, v: Option<JsString>) {
    && (r.dataType == 3 ==> v == Text(e, r.data))
    && (0x10 <= r.dataType <= 0x1f ==> v.Some? && IsDecimal(v.value, r.data))
    && (r.dataType == 1 ==> v == None)
    && (r.dataType !in {1, 3} && !(0x10 <= r.dataType <= 0x1f) ==> v == Text(e, r.raw))
  }

  /** The number a decimal numeral stands for. */
  function NumeralValue(s: JsString): int {
    if s == [] then 0
    else
      var last: int := s[|s| - 1];
      NumeralValue(s[..|s| - 1]) * 10 + (last - 0x30)
  }

  /** Digits without a leading zero, behind a minus sign if the number is negative. */
  predicate IsNumeral(s: JsString) {
    s != [] && (forall u <- s :: 0x30 <= u <= 0x39) && (s[0] == 0x30 ==> |s| == 1)
  }

  predicate IsDecimal(s: JsString, n: int) {
    if n < 0 then s != [] && s[0] == 0x2d && IsNumeral(s[1..]) && NumeralValue(s[1..]) == -n
    else IsNumeral(s) && NumeralValue(s) == n
  }

  ghost predicate IntField(e: Elem, name: string, id: nat, v: Option<int>, toInteger: ToInteger) {
    if exists i: nat :: Decides(e, name, Some(id), i)
    then exists i: nat :: Decides(e, name, Some(id), i) && GivesInt(e, e.records[i], v, toInteger)
    else v == None
  }

  ghost predicate TextField(e: Elem, name: string, id: Option<nat>, v: Option<JsString>) {
    if exists i: nat :: Decides(e, name, id, i)
    then exists i: nat :: Decides(e, name, id, i) && GivesText(e, e.records[i], v)
    else v == None
  }

  /** The label is a reference to this resource. */
  ghost predicate LabelRefers(e: Elem, v: int) {
    exists i: nat :: Decides(e, "label", Some(0x0101_0001), i)
                     && e.records[i].dataType == 1 && e.records[i].data == v != 0
  }

  ghost predicate HasSdk(e: Elem, v: Option<int>, toInteger: ToInteger) {
    IntField(e, "minSdkVersion", 0x0101_020c, v, toInteger)
  }

  ghost predicate HasLabel(e: Elem, v: Option<JsString>) {
    TextField(e, "label", Some(0x0101_0001), v)
  }

  // ----------------------------------------------------- what a document gives

  /** The first manifest element. */
  ghost predicate Manifest(es: seq<Elem>, m: nat) {
    m < |es| && Is(es[m], "manifest") && forall k :: 0 <= k < m ==> !Is(es[k], "manifest")
  }

  /** The first SDK level given by a uses-sdk element after the manifest. */
  ghost predicate SdkMeans(es: seq<Elem>, m: nat, v: Option<int>, toInteger: ToInteger) {
    if v.Some? then
      exists k: nat :: NoSdkUntil(es, m, k, toInteger) && k < |es| && m < k && Is(es[k], "uses-sdk")
                       && HasSdk(es[k], v, toInteger)
    else NoSdkUntil(es, m, |es|, toInteger)
  }

  ghost predicate NoSdkUntil(es: seq<Elem>, m: nat, k: nat, toInteger: ToInteger) {
    forall j :: m < j < k && j < |es| && Is(es[j], "uses-sdk") ==> HasSdk(es[j], None, toInteger)
  }

  /** The first label given by an application element after the manifest. */
  ghost predicate LabelMeans(es: seq<Elem>, m: nat, v: Option<JsString>) {
    if v.Some? then
      exists k: nat :: NoLabelUntil(es, m, k) && k < |es| && m < k && Is(es[k], "application") && HasLabel(es[k], v)
    else NoLabelUntil(es, m, |es|)
  }

  ghost predicate NoLabelUntil(es: seq<Elem>, m: nat, k: nat) {
    forall j :: m < j < k && j < |es| && Is(es[j], "application") ==> HasLabel(es[j], None)
  }

  /** Application element `k` refers to a resource, and no label was given before it. */
  ghost predicate RefersAt(es: seq<Elem>, m: nat, k: nat, v: int) {
    m < k < |es| && Is(es[k], "application") && NoLabelUntil(es, m, k) && LabelRefers(es[k], v)
  }

  /** The last reference before a label was given. */
  ghost predicate RefMeans(es: seq<Elem>, m: nat, v: Option<int>) {
    if v.Some? then
      exists k: nat :: RefersAt(es, m, k, v.value) && forall j: nat, w: int :: j > k ==> !RefersAt(es, m, j, w)
    else forall j: nat, w: int :: !RefersAt(es, m, j, w)
  }

  /** What the manifest element alone gives. */
  ghost predicate HeadMeans(e: Elem, meta: Metadata, toInteger: ToInteger) {
    && TextField(e, "package", None, Some(meta.packageName)) && IsPackageName(meta.packageName)
    && IntField(e, "versionCode", 0x0101_021b, meta.versionCode, toInteger)
    && TextField(e, "versionName", Some(0x0101_021c), meta.versionName)
  }

  ghost predicate StateMeans(es: seq<Elem>, m: nat, s: State, toInteger: ToInteger)
    requires m < |es|
  {
    && s.result.Some? && HeadMeans(es[m], s.result.value, toInteger)
    && SdkMeans(es, m, s.result.value.minSdk, toInteger) && LabelMeans(es, m, s.result.value.appLabel)
    && RefMeans(es, m, s.labelRef)
  }

  /** The manifest has no package name, or one that is not valid. */
  ghost predicate BadPackage(e: Elem) {
    exists p: Option<JsString> :: TextField(e, "package", None, p) && (p.None? || !IsPackageName(p.value))
  }

  /** The whole answer: every value, or why there is none. */
  ghost predicate DocumentMeans(es: seq<Elem>, r: Result<State, Fault>, toInteger: ToInteger) {
    if exists m: nat :: Manifest(es, m) then
      exists m: nat :: Manifest(es, m)
                       && if r.Ok? then StateMeans(es, m, r.value, toInteger)
                          else r.error.ApkParseError? && BadPackage(es[m])
    else r == Err(ApkParseError)
  }

  // ------------------------------------------------------------------- proofs

  lemma {:induction false} DigitsMean(n: nat)
    ensures IsNumeral(Digits(n)) && NumeralValue(Digits(n)) == n && (n > 0 ==> Digits(n)[0] != 0x30)
  {
    if n < 10 {
      assert Digits(n)[..0] == [];
      assert NumeralValue(Digits(n)[..0]) == 0;
    } else {
      DigitsMean(n / 10);
      var s := Digits(n);
      assert s[..|s| - 1] == Digits(n / 10);
      assert s[0] == Digits(n / 10)[0];
    }
  }

  lemma DecimalMeans(n: int)
    ensures IsDecimal(Decimal(n), n)
  {
    DigitsMean(if n < 0 then -n else n);
    if n < 0 {
      assert Decimal(n)[1..] == Digits(-n);
    }
  }

  function Attrs(e: Elem): seq<Attr> {
    AttrsOf(e.records, From(e.strings), e.ids)
  }

  lemma {:induction false} AttrsAre(rs: seq<Record>, get: Strings, ids: seq<nat>)
    ensures |AttrsOf(rs, get, ids)| == |rs|
    ensures forall i :: 0 <= i < |rs| ==> AttrsOf(rs, get, ids)[i] == AttrOf(rs[i], get, ids)
    decreases |rs|
  {
    hide AttrOf;
    if rs != [] {
      AttrsAre(rs[1..], get, ids);
    }
  }

  lemma {:induction false} NamedIsFirst(attrs: seq<Attr>, name: JsString)
    ensures
      var r := Named(attrs, name);
      if r.Some? then
        exists i: nat :: i < |attrs| && r == Some(attrs[i]) && attrs[i].name == Some(name)
                         && forall j :: 0 <= j < i ==> attrs[j].name != Some(name)
      else forall j :: 0 <= j < |attrs| ==> attrs[j].name != Some(name)
    decreases |attrs|
  {
    if attrs != [] && attrs[0].name != Some(name) {
      NamedIsFirst(attrs[1..], name);
      if Named(attrs, name).Some? {
        var i: nat :| i < |attrs[1..]| && Named(attrs, name) == Some(attrs[1..][i]) && attrs[1..][i].name == Some(name)
                      && forall j :: 0 <= j < i ==> attrs[1..][j].name != Some(name);
        assert forall j :: 1 <= j < i + 1 ==> attrs[j] == attrs[1..][j - 1];
        assert attrs[i + 1].name == Some(name);
      } else {
        assert forall j :: 1 <= j < |attrs| ==> attrs[j] == attrs[1..][j - 1];
      }
    }
  }

  lemma {:induction false} WithIdIsFirst(attrs: seq<Attr>, id: nat)
    ensures
      var r := WithId(attrs, id);
      if r.Some? then
        exists i: nat :: i < |attrs| && r == Some(attrs[i]) && attrs[i].resourceId == Some(id)
                         && forall j :: 0 <= j < i ==> attrs[j].resourceId != Some(id)
      else forall j :: 0 <= j < |attrs| ==> attrs[j].resourceId != Some(id)
    decreases |attrs|
  {
    if attrs != [] && attrs[0].resourceId != Some(id) {
      WithIdIsFirst(attrs[1..], id);
      if WithId(attrs, id).Some? {
        var i: nat :| i < |attrs[1..]| && WithId(attrs, id) == Some(attrs[1..][i])
                      && attrs[1..][i].resourceId == Some(id)
                      && forall j :: 0 <= j < i ==> attrs[1..][j].resourceId != Some(id);
        assert forall j :: 1 <= j < i + 1 ==> attrs[j] == attrs[1..][j - 1];
        assert attrs[i + 1].resourceId == Some(id);
      } else {
        assert forall j :: 1 <= j < |attrs| ==> attrs[j] == attrs[1..][j - 1];
      }
    }
  }

  /** A record's name and id, as the parser has them. */
  lemma RecordsAre(e: Elem, name: string, id: nat)
    ensures |Attrs(e)| == |e.records|
    ensures forall i: nat :: i < |e.records| ==> Attrs(e)[i] == AttrOf(e.records[i], From(e.strings), e.ids)
    ensures forall i: nat :: HasName(e, i, name) <==> i < |e.records| && Attrs(e)[i].name == Some(Js(name))
    ensures forall i: nat :: HasId(e, i, id) <==> i < |e.records| && Attrs(e)[i].resourceId == Some(id)
  {
    hide Js;
    AttrsAre(e.records, From(e.strings), e.ids);
  }

  lemma NamedMeans(e: Elem, name: string)
    ensures
      var r := Named(Attrs(e), Js(name));
      if r.Some? then
        exists i: nat :: Decides(e, name, None, i) && r == Some(AttrOf(e.records[i], From(e.strings), e.ids))
      else forall i: nat :: !HasName(e, i, name)
  {
    hide Js, AttrOf, Attrs, HasName;
    RecordsAre(e, name, 0);
    NamedIsFirst(Attrs(e), Js(name));
    var r := Named(Attrs(e), Js(name));
    if r.Some? {
      var i: nat :| i < |Attrs(e)| && r == Some(Attrs(e)[i]) && Attrs(e)[i].name == Some(Js(name))
                    && forall j :: 0 <= j < i ==> Attrs(e)[j].name != Some(Js(name));
      assert HasName(e, i, name);
      assert Decides(e, name, None, i);
    }
  }

  lemma PickMeans(e: Elem, name: string, id: nat)
    ensures
      var r := Pick(Attrs(e), Js(name), id);
      if r.Some? then
        exists i: nat :: Decides(e, name, Some(id), i) && r == Some(AttrOf(e.records[i], From(e.strings), e.ids))
      else forall i: nat :: !Decides(e, name, Some(id), i)
  {
    hide Js, AttrOf, Attrs, HasName, HasId;
    RecordsAre(e, name, id);
    NamedMeans(e, name);
    var attrs, named := Attrs(e), Named(Attrs(e), Js(name));
    if named.Some? {
      var i: nat :| Decides(e, name, None, i) && named == Some(AttrOf(e.records[i], From(e.strings), e.ids));
      assert Decides(e, name, Some(id), i);
    } else {
      WithIdIsFirst(attrs, id);
      if WithId(attrs, id).Some? {
        var i: nat :| i < |attrs| && WithId(attrs, id) == Some(attrs[i]) && attrs[i].resourceId == Some(id)
                      && forall j :: 0 <= j < i ==> attrs[j].resourceId != Some(id);
        assert HasId(e, i, id);
        assert Decides(e, name, Some(id), i);
      }
    }
  }

  lemma RecordGives(e: Elem, r: Record, toInteger: ToInteger)
    ensures
      var (a, get) := (AttrOf(r, From(e.strings), e.ids), From(e.strings));
      GivesInt(e, r, IntOf(a, get, toInteger), toInteger) && GivesText(e, r, StringOf(a, get))
  {
    DecimalMeans(r.data);
    hide Decimal, IsDecimal;
  }

  /** What the parser reads for a number and for a text. */
  function IntRead(e: Elem, name: string, id: nat, toInteger: ToInteger): Option<int> {
    var a := Pick(Attrs(e), Js(name), id);
    if a.Some? then IntOf(a.value, From(e.strings), toInteger) else None
  }

  function TextRead(e: Elem, name: string, id: nat): Option<JsString> {
    var a := Pick(Attrs(e), Js(name), id);
    if a.Some? then StringOf(a.value, From(e.strings)) else None
  }

  lemma FieldsRead(e: Elem, name: string, id: nat, toInteger: ToInteger)
    ensures IntField(e, name, id, IntRead(e, name, id, toInteger), toInteger)
    ensures TextField(e, name, Some(id), TextRead(e, name, id))
  {
    DecidersAreRecords(e, name, Some(id));
    hide Decides, Pick, Attrs, AttrOf, IntOf, StringOf, GivesInt, GivesText, Js;
    PickMeans(e, name, id);
    if i: nat :| i < |e.records| && Decides(e, name, Some(id), i)
                 && Pick(Attrs(e), Js(name), id) == Some(AttrOf(e.records[i], From(e.strings), e.ids)) {
      RecordGives(e, e.records[i], toInteger);
    }
  }

  lemma DecidersAreRecords(e: Elem, name: string, id: Option<nat>)
    ensures forall i: nat :: Decides(e, name, id, i) ==> i < |e.records|
  {
  }

  lemma PackageRead(e: Elem)
    ensures
      var a := Named(Attrs(e), Js("package"));
      TextField(e, "package", None, if a.Some? then StringOf(a.value, From(e.strings)) else None)
  {
    DecidersAreRecords(e, "package", None);
    hide Named, Attrs, AttrOf, StringOf, IntOf, GivesInt, GivesText, Js;
    NamedMeans(e, "package");
    var a := Named(Attrs(e), Js("package"));
    if a.Some? {
      var i: nat :| Decides(e, "package", None, i) && a == Some(AttrOf(e.records[i], From(e.strings), e.ids));
      RecordGives(e, e.records[i], _ => None);
    } else {
      assert forall i: nat :: !Decides(e, "package", None, i);
    }
  }

  lemma HeadRead(e: Elem, toInteger: ToInteger)
    ensures
      var r := FromManifest(Attrs(e), From(e.strings), toInteger);
      if r.Ok? then HeadMeans(e, r.value, toInteger) && r.value.minSdk.None? && r.value.appLabel.None?
      else r.error.ApkParseError? && BadPackage(e)
  {
    hide IntField, TextField, Pick, Named, Attrs, IntOf, StringOf, IsPackageName, Js;
    PackageRead(e);
    FieldsRead(e, "versionCode", 0x0101_021b, toInteger);
    FieldsRead(e, "versionName", 0x0101_021c, toInteger);
  }

  // ------------------------------------------------------------ element by element

  function VisitElem(s: State, e: Elem, toInteger: ToInteger): Result<State, Fault> {
    Visit(s, e.name, Attrs(e), From(e.strings), toInteger)
  }

  function VisitAll(es: seq<Elem>, s: State, toInteger: ToInteger): Result<State, Fault> {
    if es == [] then Ok(s)
    else
      var s' :- VisitElem(s, es[0], toInteger);
      VisitAll(es[1..], s', toInteger)
  }

  lemma {:induction false} MeaningVisits(ps: seq<part>, strings: Option<seq<JsString>>, ids: seq<nat>, s: State,
                                         toInteger: ToInteger)
    ensures Meaning(ps, strings, ids, s, toInteger) == VisitAll(Elements(ps, strings, ids), s, toInteger)
    decreases |ps|
  {
    hide Visit, AttrsOf, PartFits;
    if ps != [] {
      match ps[0] {
        case PoolPart(p) => MeaningVisits(ps[1..], Some(p.strings), ids, s, toInteger);
        case MapPart(_, map_, _) => MeaningVisits(ps[1..], strings, map_, s, toInteger);
        case OtherPart(_, _, _) => MeaningVisits(ps[1..], strings, ids, s, toInteger);
        case StartPart(e) =>
          if strings.None? {
            MeaningVisits(ps[1..], strings, ids, s, toInteger);
            assert [] + Elements(ps[1..], strings, ids) == Elements(ps[1..], strings, ids);
          } else {
            var get := From(strings.value);
            var visited := Visit(s, get(e.name), AttrsOf(e.records, get, ids), get, toInteger);
            var first := Elem(if e.name < |strings.value| then Some(strings.value[e.name]) else None,
                              e.records, strings.value, ids);
            var rest := Elements(ps[1..], strings, ids);
            assert Elements(ps, strings, ids) == [first] + rest;
            assert ([first] + rest)[1..] == rest;
            if visited.Ok? {
              MeaningVisits(ps[1..], strings, ids, visited.value, toInteger);
            }
          }
      }
    }
  }

  /** After the first `n` elements. */
  ghost predicate SoFar(es: seq<Elem>, n: nat, s: State, toInteger: ToInteger)
    requires n <= |es|
  {
    if exists m: nat :: Manifest(es[..n], m) then
      exists m: nat :: Manifest(es[..n], m) && StateMeans(es[..n], m, s, toInteger)
    else s == State(None, None)
  }

  lemma {:induction false} VisitsMean(es: seq<Elem>, n: nat, s: State, toInteger: ToInteger)
    requires n <= |es| && SoFar(es, n, s, toInteger)
    ensures
      var r := VisitAll(es[n..], s, toInteger);
      if r.Ok? then SoFar(es, |es|, r.value, toInteger)
      else r.error.ApkParseError? && exists m: nat :: Manifest(es, m) && BadPackage(es[m])
    decreases |es| - n
  {
    hide SoFar, VisitElem, BadPackage;
    if n < |es| {
      assert es[n..][0] == es[n] && es[n..][1..] == es[n + 1..];
      VisitMeans(es, n, s, toInteger);
      var r := VisitElem(s, es[n], toInteger);
      if r.Ok? {
        VisitsMean(es, n + 1, r.value, toInteger);
      } else {
        assert Manifest(es, n);
      }
    } else {
      assert es[n..] == [];
    }
  }

  lemma ManifestLonger(es: seq<Elem>, e: Elem)
    ensures forall m: nat :: Manifest(es, m) ==> Manifest(es + [e], m)
    ensures forall m: nat :: Manifest(es + [e], m) ==>
              Manifest(es, m) || (m == |es| && Is(e, "manifest") && forall k: nat :: !Manifest(es, k))
    ensures Is(e, "manifest") && (forall k: nat :: !Manifest(es, k)) ==> Manifest(es + [e], |es|)
  {
    hide Is;
    var all := es + [e];
    assert forall k :: 0 <= k < |es| ==> all[k] == es[k];
    assert all[|es|] == e;
    if Is(e, "manifest") && forall k: nat :: !Manifest(es, k) {
      if k :| 0 <= k < |es| && Is(es[k], "manifest") {
        FirstManifest(es, k);
      }
    }
    forall m: nat | Manifest(all, m) && m == |es|
      ensures forall k: nat :: !Manifest(es, k)
    {
    }
  }

  lemma {:induction false} FirstManifest(es: seq<Elem>, k: nat)
    requires k < |es| && Is(es[k], "manifest")
    ensures exists m: nat :: Manifest(es, m)
    decreases k
  {
    hide Is;
    if j :| 0 <= j < k && Is(es[j], "manifest") {
      FirstManifest(es, j);
    } else {
      assert Manifest(es, k);
    }
  }

  lemma VisitMeans(es: seq<Elem>, n: nat, s: State, toInteger: ToInteger)
    requires n < |es| && SoFar(es, n, s, toInteger)
    ensures
      var r := VisitElem(s, es[n], toInteger);
      if r.Ok? then SoFar(es, n + 1, r.value, toInteger)
      else r.error.ApkParseError? && Manifest(es, n) && BadPackage(es[n])
  {
    hide VisitElem, StateMeans, BadPackage, Is;
    var before, e := es[..n], es[n];
    assert es[..n + 1] == before + [e];
    ManifestLonger(before, e);
    if m: nat :| Manifest(before, m) && StateMeans(before, m, s, toInteger) {
      LaterMeans(before, e, m, s, toInteger);
      assert Manifest(before + [e], m);
    } else {
      assert s == State(None, None);
      FirstMeans(before, e, toInteger);
      if Is(e, "manifest") {
        assert Manifest(es[..n + 1], n);
        assert forall k :: 0 <= k < n ==> es[k] == before[k];
      }
    }
  }

  /** Before the manifest nothing counts; the manifest is the start. */
  lemma FirstMeans(before: seq<Elem>, e: Elem, toInteger: ToInteger)
    requires forall m: nat :: !Manifest(before, m)
    ensures
      var r := VisitElem(State(None, None), e, toInteger);
      if !Is(e, "manifest") then r == Ok(State(None, None))
      else if r.Ok? then StateMeans(before + [e], |before|, r.value, toInteger)
      else r.error.ApkParseError? && BadPackage(e)
  {
    hide FromManifest, HeadMeans, BadPackage, Js;
    HeadRead(e, toInteger);
    if Is(e, "manifest") {
      NothingAfter(before, e, toInteger);
    }
  }

  lemma NothingAfter(before: seq<Elem>, e: Elem, toInteger: ToInteger)
    ensures
      var (es, m) := (before + [e], |before|);
      SdkMeans(es, m, None, toInteger) && LabelMeans(es, m, None) && RefMeans(es, m, None)
  {
  }

  /** An element after the manifest changes what is still missing, and nothing of the manifest's own. */
  lemma LaterVisits(e: Elem, s: State, toInteger: ToInteger)
    requires s.result.Some?
    ensures
      var (meta, r) := (s.result.value, VisitElem(s, e, toInteger));
      && r.Ok? && r.value.result.Some?
      && r.value.result.value
         == meta.(minSdk := if Is(e, "uses-sdk") && meta.minSdk.None?
                            then IntRead(e, "minSdkVersion", 0x0101_020c, toInteger) else meta.minSdk,
                  appLabel := if Is(e, "application") && meta.appLabel.None?
                              then TextRead(e, "label", 0x0101_0001) else meta.appLabel)
      && r.value.labelRef
         == if Is(e, "application") && meta.appLabel.None? && RefRead(e).Some? then RefRead(e) else s.labelRef
  {
    Different();
    hide Pick, IntOf, StringOf, Attrs, Js;
  }

  lemma LaterMeans(es: seq<Elem>, e: Elem, m: nat, s: State, toInteger: ToInteger)
    requires Manifest(es, m) && StateMeans(es, m, s, toInteger)
    ensures
      var r := VisitElem(s, e, toInteger);
      r.Ok? && StateMeans(es + [e], m, r.value, toInteger)
  {
    hide VisitElem, SdkMeans, LabelMeans, RefMeans, TextField, IntField, IsPackageName, RefRead, TextRead, IntRead, Is;
    var meta := s.result.value;
    LaterVisits(e, s, toInteger);
    SdkLonger(es, e, m, meta.minSdk, toInteger);
    LabelLonger(es, e, m, meta.appLabel);
    RefLonger(es, e, m, meta.appLabel, s.labelRef);
    assert (es + [e])[m] == es[m];
  }

  lemma Different()
    ensures Js("manifest") != Js("uses-sdk") && Js("manifest") != Js("application")
    ensures Js("uses-sdk") != Js("application")
  {
    assert Js("manifest")[0] == 'm' as int && Js("uses-sdk")[0] == 'u' as int && Js("application")[0] == 'a' as int;
  }

  /** The SDK level after one more element. */
  lemma SdkLonger(es: seq<Elem>, e: Elem, m: nat, v: Option<int>, toInteger: ToInteger)
    requires m < |es| && SdkMeans(es, m, v, toInteger)
    ensures
      SdkMeans(es + [e], m,
               if Is(e, "uses-sdk") && v.None? then IntRead(e, "minSdkVersion", 0x0101_020c, toInteger) else v,
               toInteger)
  {
    hide IntField, IntRead, Is;
    var all := es + [e];
    FieldsRead(e, "minSdkVersion", 0x0101_020c, toInteger);
    if v.Some? {
      var k: nat :| NoSdkUntil(es, m, k, toInteger) && k < |es| && m < k && Is(es[k], "uses-sdk")
                    && HasSdk(es[k], v, toInteger);
      assert NoSdkUntil(all, m, k, toInteger) && all[k] == es[k];
    } else {
      assert NoSdkUntil(all, m, |es|, toInteger);
      assert all[|es|] == e;
    }
  }

  lemma LabelLonger(es: seq<Elem>, e: Elem, m: nat, v: Option<JsString>)
    requires m < |es| && LabelMeans(es, m, v)
    ensures
      LabelMeans(es + [e], m, if Is(e, "application") && v.None? then TextRead(e, "label", 0x0101_0001) else v)
  {
    hide TextField, TextRead, Is;
    var all := es + [e];
    FieldsRead(e, "label", 0x0101_0001, _ => None);
    if v.Some? {
      var k: nat :| NoLabelUntil(es, m, k) && k < |es| && m < k && Is(es[k], "application") && HasLabel(es[k], v);
      assert NoLabelUntil(all, m, k) && all[k] == es[k];
    } else {
      assert NoLabelUntil(all, m, |es|);
      assert all[|es|] == e;
    }
  }

  function RefRead(e: Elem): Option<int> {
    var a := Pick(Attrs(e), Js("label"), 0x0101_0001);
    if a.Some? && a.value.dataType == 1 && a.value.data != 0 then Some(a.value.data) else None
  }

  lemma RefIsRead(e: Elem)
    ensures forall v: int :: LabelRefers(e, v) <==> RefRead(e) == Some(v)
  {
    hide Pick, Attrs, Js;
    PickMeans(e, "label", 0x0101_0001);
    var a := Pick(Attrs(e), Js("label"), 0x0101_0001);
    if a.Some? {
      var i: nat :| i < |e.records| && Decides(e, "label", Some(0x0101_0001), i)
                    && a == Some(AttrOf(e.records[i], From(e.strings), e.ids));
      forall j: nat | Decides(e, "label", Some(0x0101_0001), j)
        ensures j == i
      {
        DecidesOnce(e, "label", Some(0x0101_0001), i, j);
      }
    }
    hide Decides;
  }

  lemma DecidesOnce(e: Elem, name: string, id: Option<nat>, i: nat, j: nat)
    requires Decides(e, name, id, i) && Decides(e, name, id, j)
    ensures i == j
  {
    hide HasName, HasId;
  }

  /** A label that was given settles what a record gives. */
  lemma TextOnce(e: Elem, name: string, id: Option<nat>, v: Option<JsString>, w: Option<JsString>)
    requires TextField(e, name, id, v) && TextField(e, name, id, w) && v.Some?
    ensures w.Some?
  {
    DecidersAreRecords(e, name, id);
    hide Decides, IsDecimal;
    var i: nat :| i < |e.records| && Decides(e, name, id, i) && GivesText(e, e.records[i], v);
    var j: nat :| j < |e.records| && Decides(e, name, id, j) && GivesText(e, e.records[j], w);
    DecidesOnce(e, name, id, i, j);
  }

  lemma NoLabelLonger(es: seq<Elem>, e: Elem, m: nat, k: nat)
    requires k <= |es|
    ensures NoLabelUntil(es + [e], m, k) <==> NoLabelUntil(es, m, k)
  {
    hide HasLabel, Is;
    var all := es + [e];
    assert forall j :: 0 <= j < |es| ==> all[j] == es[j];
    if NoLabelUntil(all, m, k) {
      forall j | m < j < k && j < |es| && Is(es[j], "application")
        ensures HasLabel(es[j], None)
      {
        assert all[j] == es[j];
      }
    }
  }

  lemma RefersLonger(es: seq<Elem>, e: Elem, m: nat, label_: Option<JsString>)
    requires m < |es| && LabelMeans(es, m, label_)
    ensures forall k: nat, w: int :: k < |es| ==> (RefersAt(es + [e], m, k, w) <==> RefersAt(es, m, k, w))
    ensures forall w: int :: RefersAt(es + [e], m, |es|, w) <==>
                               Is(e, "application") && label_.None? && RefRead(e) == Some(w)
    ensures forall k: nat, w: int :: RefersAt(es + [e], m, k, w) ==> k <= |es|
    ensures forall k: nat, w: int :: RefersAt(es, m, k, w) ==> k < |es|
  {
    hide RefRead, Is, LabelRefers, NoLabelUntil, LabelMeans;
    var all := es + [e];
    RefIsRead(e);
    LabelSettles(es, m, label_);
    NoLabelLonger(es, e, m, |es|);
    forall k: nat | k < |es|
      ensures all[k] == es[k] && (NoLabelUntil(all, m, k) <==> NoLabelUntil(es, m, k))
    {
      NoLabelLonger(es, e, m, k);
    }
    assert all[|es|] == e;
  }

  lemma RefLonger(es: seq<Elem>, e: Elem, m: nat, label_: Option<JsString>, v: Option<int>)
    requires m < |es| && RefMeans(es, m, v) && LabelMeans(es, m, label_)
    ensures
      RefMeans(es + [e], m, if Is(e, "application") && label_.None? && RefRead(e).Some? then RefRead(e) else v)
  {
    hide RefRead, Is, RefersAt, LabelMeans;
    var all, n := es + [e], |es|;
    RefersLonger(es, e, m, label_);
    if Is(e, "application") && label_.None? && RefRead(e).Some? {
      assert RefersAt(all, m, n, RefRead(e).value);
    } else if v.Some? {
      var k: nat :| RefersAt(es, m, k, v.value) && forall j: nat, w: int :: j > k ==> !RefersAt(es, m, j, w);
      assert RefersAt(all, m, k, v.value);
    }
  }

  /** No label so far, exactly if no element gave one. */
  lemma LabelSettles(es: seq<Elem>, m: nat, v: Option<JsString>)
    requires LabelMeans(es, m, v)
    ensures v.None? <==> NoLabelUntil(es, m, |es|)
  {
    hide TextField, Is;
    if v.Some? && NoLabelUntil(es, m, |es|) {
      var k: nat :| NoLabelUntil(es, m, k) && k < |es| && m < k && Is(es[k], "application") && HasLabel(es[k], v);
      TextOnce(es[k], "label", Some(0x0101_0001), v, None);
    }
  }

  // -------------------------------------------------------------- main results

  /**
   * Parsing an encoded document gives, field by field, what the records say: package, version and version name
   * from the first manifest element, the SDK level from the first uses-sdk element after it that has one, the
   * label from the first application element after it that has one, and the label's resource from the last that
   * refers to one before. Without a manifest, or with no valid package name, it fails.
   */
  lemma ManifestMeans(more: bytes, ps: seq<part>, size: bytes, tail: bytes, toInteger: ToInteger)
    requires 8 + |more| < 0x1_0000 && |size| == 4 && NoChunk(tail)
    ensures DocumentMeans(Elements(ps, None, []), Parse(Encode(more, ps, size, tail), toInteger), toInteger)
  {
    hide Parse, Encode, Meaning, HeadMeans, SdkMeans, LabelMeans, RefMeans, BadPackage, Manifest;
    var es := Elements(ps, None, []);
    ManifestInverse(more, ps, size, tail, toInteger);
    MeaningVisits(ps, None, [], State(None, None), toInteger);
    assert es[..0] == [] && es[0..] == es && es[..|es|] == es;
    NoneYet();
    VisitsMean(es, 0, State(None, None), toInteger);
  }

  lemma NoneYet()
    ensures forall m: nat :: !Manifest([], m)
  {
  }

  // ------------------------------------------------------------- package names

  function Joined(parts: seq<JsString>): JsString
    requires parts != []
  {
    if |parts| == 1 then parts[0] else parts[0] + ([0x2e] + Joined(parts[1..]))
  }

  predicate IsSegment(s: JsString) {
    s != [] && forall u <- s :: 0x41 <= u <= 0x5a || 0x61 <= u <= 0x7a || 0x30 <= u <= 0x39 || u == 0x5f
  }

  predicate AreSegments(parts: seq<JsString>) {
    parts != [] && forall i :: 0 <= i < |parts| ==> IsSegment(parts[i])
  }

  /** Word characters, and dots that stand between two of them. */
  predicate Dotted(s: JsString) {
    && s != [] && s[0] != 0x2e && s[|s| - 1] != 0x2e
    && (forall i :: 0 <= i < |s| ==> IsWord(s[i]) || s[i] == 0x2e)
    && (forall i, j :: 0 <= i < |s| && 0 <= j < |s| && j == i + 1 ==> s[i] != 0x2e || s[j] != 0x2e)
  }

  lemma DottedJoin(s: JsString, rest: JsString)
    requires IsSegment(s) && Dotted(rest)
    ensures Dotted(s + ([0x2e] + rest))
  {
    var all := s + ([0x2e] + rest);
    forall i | 0 <= i < |s|
      ensures all[i] == s[i] && IsWord(all[i]) && all[i] != 0x2e
    {
      assert s[i] in s;
    }
    assert all[|s|] == 0x2e;
    forall i | 0 <= i < |rest|
      ensures all[|s| + 1 + i] == rest[i]
    {
    }
    forall i | 0 <= i < |all|
      ensures IsWord(all[i]) || all[i] == 0x2e
    {
      if i > |s| {
        assert all[i] == rest[i - |s| - 1];
      }
    }
    forall i, j | 0 <= i < j < |all| && j == i + 1
      ensures all[i] != 0x2e || all[j] != 0x2e
    {
      if i > |s| {
        assert all[i] == rest[i - |s| - 1] && all[j] == rest[j - |s| - 1];
      } else if i == |s| {
        assert all[j] == rest[0];
      }
    }
  }

  lemma {:induction false} JoinedIsDotted(parts: seq<JsString>)
    requires AreSegments(parts)
    ensures Dotted(Joined(parts)) && Joined(parts)[0] == parts[0][0] && (|parts| > 1 ==> 0x2e in Joined(parts))
    decreases |parts|
  {
    if |parts| > 1 {
      JoinedIsDotted(parts[1..]);
      DottedJoin(parts[0], Joined(parts[1..]));
      assert Joined(parts)[|parts[0]|] == 0x2e;
    } else {
      var s := parts[0];
      assert forall i :: 0 <= i < |s| ==> s[i] in s;
    }
  }

  /** Cut at its first dot, a dotted text is a segment and a dotted text. */
  lemma DottedSplits(s: JsString, d: nat)
    requires Dotted(s) && 0 < d < |s| && s[d] == 0x2e && forall i :: 0 <= i < d ==> s[i] != 0x2e
    ensures IsSegment(s[..d]) && Dotted(s[d + 1..]) && s == s[..d] + ([0x2e] + s[d + 1..])
  {
    var rest := s[d + 1..];
    assert d + 1 < |s| && s[d + 1] != 0x2e;
    assert forall i :: 0 <= i < |rest| ==> rest[i] == s[d + 1 + i];
    assert forall i :: 0 <= i < d ==> IsWord(s[i]);
  }

  lemma {:induction false} DottedIsJoined(s: JsString)
    requires Dotted(s)
    ensures exists parts: seq<JsString> :: AreSegments(parts) && Joined(parts) == s && (0x2e in s ==> |parts| > 1)
    decreases |s|
  {
    if 0x2e !in s {
      assert IsSegment(s) by {
        assert forall i :: 0 <= i < |s| ==> s[i] in s && IsWord(s[i]);
      }
      assert AreSegments([s]) && Joined([s]) == s;
    } else {
      var k: nat :| k < |s| && s[k] == 0x2e;
      var d := FirstDot(s, k);
      DottedSplits(s, d);
      hide Dotted, IsSegment;
      DottedIsJoined(s[d + 1..]);
      var parts: seq<JsString> :| AreSegments(parts) && Joined(parts) == s[d + 1..];
      var all := [s[..d]] + parts;
      assert all[1..] == parts && all[0] == s[..d];
      assert AreSegments(all) && Joined(all) == s;
    }
  }

  lemma {:induction false} FirstDot(s: JsString, k: nat) returns (d: nat)
    requires Dotted(s) && k < |s| && s[k] == 0x2e
    ensures 0 < d <= k && s[d] == 0x2e && forall i :: 0 <= i < d ==> s[i] != 0x2e
    decreases k
  {
    d := k;
    if j :| 0 <= j < k && s[j] == 0x2e {
      d := FirstDot(s, j);
    }
  }

  /** A package name is two segments of word characters or more, joined by dots, the first from a letter. */
  lemma PackageNameIsSegments(s: JsString)
    ensures IsPackageName(s) <==> |s| <= 255 && exists parts: seq<JsString> :: Names(parts, s)
  {
    if IsPackageName(s) {
      assert Dotted(s);
      DottedIsJoined(s);
      var parts: seq<JsString> :| AreSegments(parts) && Joined(parts) == s && (0x2e in s ==> |parts| > 1);
      JoinedIsDotted(parts);
      assert Names(parts, s);
    }
    forall parts: seq<JsString> | Names(parts, s)
      ensures Dotted(s) && s[0] == parts[0][0] && 0x2e in s
    {
      JoinedIsDotted(parts);
    }
  }

  predicate Names(parts: seq<JsString>, s: JsString) {
    && |parts| >= 2 && AreSegments(parts) && Joined(parts) == s
    && (0x41 <= parts[0][0] <= 0x5a || 0x61 <= parts[0][0] <= 0x7a)
  }
}
